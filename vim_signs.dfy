/** Breakpoint and program-counter markers ("signs") in the editor.

    VimSign keeps its bookkeeping in class-level attributes shared by every
    sign: the next placement id, the next definition number, the cache of
    defined signs and, standing in for the editor, the list of commands sent
    to it. One `SignRegistry` object holds that shared state; each `VimSign`
    refers to it. `Table` is the same state as a value, and the functions on
    it (DefineStep, ShowStep, CreateStep, HideStep) specify the methods. */
module VimSigns {
  import opened Decimal

  datatype Option<T> = None | Some(value: T)

  const SIGN_TEXT_BREAKPOINT_RESOLVED: string := "B>"
  const SIGN_TEXT_BREAKPOINT_UNRESOLVED: string := "b>"
  const SIGN_TEXT_PC: string := "->"
  const SIGN_BREAKPOINT: string := "lldb_breakpoint"
  const SIGN_PC_ACTIVE: string := "lldb_pc_active"
  const SIGN_PC_INACTIVE: string := "lldb_pc_inactive"
  const SIGN_DEFAULT_NAME: string := "lldb_highlight"

  /** A cache key: (sign text, highlight name). */
  type Key = (string, string)

  function SignName(n: nat): string {
    "sign" + Format(n)
  }

  /** The highlight name `define` files its cache entry under. */
  function HighlightName(n: nat): string {
    "highlight" + Format(n)
  }

  function DefineCommand(name: string, text: string, highlight: string): string {
    "sign define " + name + " text=" + text + " linehl=" + highlight + " texthl=" + highlight
  }

  function PlaceCommand(id: nat, name: string, line: nat, buffer: nat): string {
    "sign place " + Format(id) + " name=" + name + " line=" + Format(line) + " buffer=" + Format(buffer)
  }

  function UnplaceCommand(id: nat): string {
    "sign unplace " + Format(id)
  }

  /** The class-level state of VimSign as a value; `log` is every command
      handed to the editor, oldest first. */
  datatype Table = Table(signId: nat, nameId: nat, defined: map<Key, string>, log: seq<string>)

  /** The state before any sign exists: both counters start at 1. */
  function Initial(): Table {
    Table(1, 1, map[], [])
  }

  /** define: emit a definition named "sign<N>" and file it under
      (text, "highlight<N>"), whatever highlight the caller gave. */
  function DefineStep(t: Table, text: string, highlight: string): (Table, string) {
    var name := SignName(t.nameId);
    (Table(t.signId, t.nameId + 1,
           t.defined[(text, HighlightName(t.nameId)) := name],
           t.log + [DefineCommand(name, text, highlight)]),
     name)
  }

  /** show: place the named sign with the next id. */
  function ShowStep(t: Table, name: string, buffer: nat, line: nat): (Table, nat) {
    (t.(signId := t.signId + 1, log := t.log + [PlaceCommand(t.signId, name, line, buffer)]),
     t.signId)
  }

  /** The constructor: look the (text, highlight) pair up in the cache,
      define a sign on a miss, then show it. */
  function CreateStep(t: Table, text: string, buffer: nat, line: nat, highlight: string): (Table, nat) {
    if (text, highlight) in t.defined then
      ShowStep(t, t.defined[(text, highlight)], buffer, line)
    else
      var (t1, name) := DefineStep(t, text, highlight);
      ShowStep(t1, name, buffer, line)
  }

  /** hide: remove the placed sign with this id. */
  function HideStep(t: Table, id: nat): Table {
    t.(log := t.log + [UnplaceCommand(id)])
  }

  /** What the bookkeeping maintains: the counters start at 1, the cache holds
      one entry per definition made so far, entry n sits under the key
      (text, "highlight<n>") and names "sign<n>", and no two entries share a
      highlight name. */
  ghost predicate Inv(t: Table) {
    1 <= t.signId && 1 <= t.nameId && |t.defined| == t.nameId - 1 &&
    (forall k | k in t.defined ::
       exists n :: 1 <= n < t.nameId && k.1 == HighlightName(n) && t.defined[k] == SignName(n)) &&
    (forall k1, k2 | k1 in t.defined && k2 in t.defined && k1.1 == k2.1 :: k1 == k2)
  }

  lemma InitialInv()
    ensures Inv(Initial())
  {
  }

  /** The invariant speaks only of the definition counter and the cache. */
  lemma InvIgnoresPlacements(t: Table, signId: nat, log: seq<string>)
    requires Inv(t) && 1 <= signId
    ensures Inv(t.(signId := signId, log := log))
  {
    var t' := t.(signId := signId, log := log);
    assert t'.defined == t.defined && t'.nameId == t.nameId;
  }

  lemma SuffixInjective(p: string, a: string, b: string)
    ensures p + a == p + b ==> a == b
  {
    if p + a == p + b {
      assert a == (p + a)[|p|..];
      assert b == (p + b)[|p|..];
    }
  }

  lemma HighlightNameInjective(a: nat, b: nat)
    ensures HighlightName(a) == HighlightName(b) ==> a == b
  {
    SuffixInjective("highlight", Format(a), Format(b));
    FormatInjective(a, b);
  }

  lemma SignNameInjective(a: nat, b: nat)
    ensures SignName(a) == SignName(b) ==> a == b
  {
    SuffixInjective("sign", Format(a), Format(b));
    FormatInjective(a, b);
  }

  /** True of the highlight names `define` files entries under, and of any
      other name that begins the same way. */
  predicate HasHighlightPrefix(h: string) {
    |h| >= 9 && h[..9] == "highlight"
  }

  /** None of the highlight names the breakpoint and program-counter signs use
      begins with "highlight". */
  lemma BuiltinHighlightsUnprefixed()
    ensures !HasHighlightPrefix(SIGN_BREAKPOINT)
    ensures !HasHighlightPrefix(SIGN_PC_ACTIVE)
    ensures !HasHighlightPrefix(SIGN_PC_INACTIVE)
    ensures !HasHighlightPrefix(SIGN_DEFAULT_NAME)
  {
    assert "highlight"[1] == 'i';
    assert SIGN_BREAKPOINT[..9][1] == 'l';
    assert SIGN_PC_ACTIVE[..9][1] == 'l';
    assert SIGN_PC_INACTIVE[..9][1] == 'l';
    assert SIGN_DEFAULT_NAME[..9][1] == 'l';
  }

  /** Every cached highlight name is "highlight<n>" for some n below the
      counter: the cache can only hit for such a highlight. */
  lemma CachedHighlightIsNumbered(t: Table, k: Key)
    requires Inv(t) && k in t.defined
    ensures HasHighlightPrefix(k.1)
  {
    var n :| 1 <= n < t.nameId && k.1 == HighlightName(n) && t.defined[k] == SignName(n);
  }

  /** Names in the cache are pairwise distinct. */
  lemma DefinedNamesDistinct(t: Table, k1: Key, k2: Key)
    requires Inv(t) && k1 in t.defined && k2 in t.defined
    ensures t.defined[k1] == t.defined[k2] ==> k1 == k2
  {
    var n1 :| 1 <= n1 < t.nameId && k1.1 == HighlightName(n1) && t.defined[k1] == SignName(n1);
    var n2 :| 1 <= n2 < t.nameId && k2.1 == HighlightName(n2) && t.defined[k2] == SignName(n2);
    SignNameInjective(n1, n2);
  }

  /** The next definition number is unused: its highlight key and its sign
      name are both absent from the cache. */
  lemma NextDefinitionFresh(t: Table, text: string)
    requires Inv(t)
    ensures (text, HighlightName(t.nameId)) !in t.defined
    ensures forall k | k in t.defined :: k.1 != HighlightName(t.nameId) && t.defined[k] != SignName(t.nameId)
  {
    forall k | k in t.defined
      ensures k.1 != HighlightName(t.nameId) && t.defined[k] != SignName(t.nameId)
    {
      var n :| 1 <= n < t.nameId && k.1 == HighlightName(n) && t.defined[k] == SignName(n);
      HighlightNameInjective(n, t.nameId);
      SignNameInjective(n, t.nameId);
    }
  }

  /** define adds exactly one cache entry under a fresh key, with a name no
      entry had, and overwrites nothing. */
  lemma DefineStepFresh(t: Table, text: string, highlight: string)
    requires Inv(t)
    ensures (text, HighlightName(t.nameId)) !in t.defined
    ensures SignName(t.nameId) !in t.defined.Values
    ensures DefineStep(t, text, highlight).1 == SignName(t.nameId)
    ensures DefineStep(t, text, highlight).0.defined.Keys == t.defined.Keys + {(text, HighlightName(t.nameId))}
    ensures |DefineStep(t, text, highlight).0.defined| == |t.defined| + 1
    ensures forall k | k in t.defined :: DefineStep(t, text, highlight).0.defined[k] == t.defined[k]
  {
    NextDefinitionFresh(t, text);
  }

  /** define keeps the invariant. */
  lemma DefineStepKeepsInv(t: Table, text: string, highlight: string)
    requires Inv(t)
    ensures Inv(DefineStep(t, text, highlight).0)
  {
    var key := (text, HighlightName(t.nameId));
    var t' := DefineStep(t, text, highlight).0;
    NextDefinitionFresh(t, text);
    assert |t'.defined| == |t.defined| + 1;
    DefinedEntriesAfterDefine(t, t', key);
    forall k1, k2 | k1 in t'.defined && k2 in t'.defined && k1.1 == k2.1
      ensures k1 == k2
    {
    }
  }

  lemma DefinedEntriesAfterDefine(t: Table, t': Table, key: Key)
    requires Inv(t)
    requires key.1 == HighlightName(t.nameId) && key !in t.defined
    requires t'.nameId == t.nameId + 1 && t'.defined == t.defined[key := SignName(t.nameId)]
    ensures forall k | k in t'.defined ::
       exists n :: 1 <= n < t'.nameId && k.1 == HighlightName(n) && t'.defined[k] == SignName(n)
  {
    forall k | k in t'.defined
      ensures exists n :: 1 <= n < t'.nameId && k.1 == HighlightName(n) && t'.defined[k] == SignName(n)
    {
      if k == key {
        assert k.1 == HighlightName(t.nameId) && t'.defined[k] == SignName(t.nameId);
      } else {
        var n :| 1 <= n < t.nameId && k.1 == HighlightName(n) && t.defined[k] == SignName(n);
        assert t'.defined[k] == t.defined[k];
      }
    }
  }

  /** One construction: the placed id is the counter, which then moves on by
      one; on a cache hit only a place command is sent and the cache and the
      definition counter stay as they were; on a miss a define command for
      the fresh name "sign<N>" comes first and the cache gains one entry. */
  lemma CreateStepEffect(t: Table, text: string, buffer: nat, line: nat, highlight: string)
    requires Inv(t)
    ensures var (t', id) := CreateStep(t, text, buffer, line, highlight);
      Inv(t') && id == t.signId && t'.signId == id + 1 &&
      (forall k | k in t.defined :: k in t'.defined && t'.defined[k] == t.defined[k]) &&
      if (text, highlight) in t.defined then
        t'.nameId == t.nameId && t'.defined == t.defined &&
        t'.log == t.log + [PlaceCommand(id, t.defined[(text, highlight)], line, buffer)]
      else
        var name := SignName(t.nameId);
        name !in t.defined.Values &&
        t'.nameId == t.nameId + 1 && |t'.defined| == |t.defined| + 1 &&
        t'.log == t.log + [DefineCommand(name, text, highlight), PlaceCommand(id, name, line, buffer)]
  {
    if (text, highlight) !in t.defined {
      DefineStepFresh(t, text, highlight);
      DefineStepKeepsInv(t, text, highlight);
    }
  }

  /** hide sends one unplace command for the given id and changes nothing else. */
  lemma HideStepEffect(t: Table, id: nat)
    requires Inv(t)
    ensures Inv(HideStep(t, id))
    ensures HideStep(t, id).log == t.log + ["sign unplace " + Format(id)]
    ensures HideStep(t, id).(log := t.log) == t
  {
    InvIgnoresPlacements(t, t.signId, t.log + [UnplaceCommand(id)]);
  }

  /** A highlight that does not begin with "highlight" never hits the cache,
      so every construction with it sends a fresh definition. */
  lemma UnnumberedHighlightAlwaysDefines(t: Table, text: string, buffer: nat, line: nat, highlight: string)
    requires Inv(t)
    requires !HasHighlightPrefix(highlight)
    ensures (text, highlight) !in t.defined
    ensures var (t', id) := CreateStep(t, text, buffer, line, highlight);
      t'.nameId == t.nameId + 1 &&
      t'.log == t.log + [DefineCommand(SignName(t.nameId), text, highlight),
                         PlaceCommand(id, SignName(t.nameId), line, buffer)]
  {
    if (text, highlight) in t.defined {
      CachedHighlightIsNumbered(t, (text, highlight));
    }
    CreateStepEffect(t, text, buffer, line, highlight);
  }

  /** The same sign text and highlight used twice: the cache does not
      deduplicate it, two definitions "sign<N>" and "sign<N+1>" are sent and
      the two placements get consecutive ids. */
  lemma RepeatedSignDefinesTwice(t: Table, text: string, buffer: nat, line1: nat, line2: nat, highlight: string)
    requires Inv(t)
    requires !HasHighlightPrefix(highlight)
    ensures var (t1, id1) := CreateStep(t, text, buffer, line1, highlight);
      var (t2, id2) := CreateStep(t1, text, buffer, line2, highlight);
      id1 == t.signId && id2 == id1 + 1 &&
      SignName(t.nameId) != SignName(t.nameId + 1) &&
      t2.log == t.log + [DefineCommand(SignName(t.nameId), text, highlight),
                         PlaceCommand(id1, SignName(t.nameId), line1, buffer),
                         DefineCommand(SignName(t.nameId + 1), text, highlight),
                         PlaceCommand(id2, SignName(t.nameId + 1), line2, buffer)]
  {
    var (t1, id1) := CreateStep(t, text, buffer, line1, highlight);
    UnnumberedHighlightAlwaysDefines(t, text, buffer, line1, highlight);
    CreateStepEffect(t, text, buffer, line1, highlight);
    UnnumberedHighlightAlwaysDefines(t1, text, buffer, line2, highlight);
    SignNameInjective(t.nameId, t.nameId + 1);
  }

  /** The cache does hit when the caller passes the literal highlight name a
      definition was filed under: after a "B>" breakpoint sign, a "B>" sign
      with highlight "highlight1" reuses "sign1" and sends no definition. */
  lemma LiteralHighlightHitsCache()
    ensures var (t1, _) := CreateStep(Initial(), "B>", 1, 10, SIGN_BREAKPOINT);
      var (t2, id2) := CreateStep(t1, "B>", 1, 20, "highlight1");
      id2 == 2 && t2.nameId == 2 &&
      t2.log == t1.log + [PlaceCommand(2, "sign1", 20, 1)]
  {
    assert HighlightName(1) == "highlight1" && SignName(1) == "sign1";
    var (t1, _) := CreateStep(Initial(), "B>", 1, 10, SIGN_BREAKPOINT);
    assert ("B>", "highlight1") in t1.defined;
  }

  /** A sequence of sign operations, as the debugger controller issues them. */
  datatype SignOp = Place(text: string, buffer: nat, line: nat, highlight: string) | Unplace(id: nat)

  function Apply(t: Table, op: SignOp): (Table, seq<nat>) {
    match op
    case Place(text, buffer, line, highlight) =>
      var (t1, id) := CreateStep(t, text, buffer, line, highlight);
      (t1, [id])
    case Unplace(id) => (HideStep(t, id), [])
  }

  /** The state after running ops, and the ids placed along the way. */
  function Run(t: Table, ops: seq<SignOp>): (Table, seq<nat>)
    decreases |ops|
  {
    if ops == [] then (t, [])
    else
      var (t1, ids1) := Apply(t, ops[0]);
      var (t2, ids2) := Run(t1, ops[1..]);
      (t2, ids1 + ids2)
  }

  /** One operation: the ids it places are consecutive from the counter. */
  lemma ApplyEffect(t: Table, op: SignOp)
    requires Inv(t)
    ensures var (t', ids) := Apply(t, op);
      Inv(t') &&
      t'.signId == t.signId + |ids| &&
      (forall i | 0 <= i < |ids| :: ids[i] == t.signId + i) &&
      t.nameId <= t'.nameId &&
      (forall k | k in t.defined :: k in t'.defined && t'.defined[k] == t.defined[k]) &&
      t.log <= t'.log
  {
    match op
    case Place(text, buffer, line, highlight) =>
      CreateStepEffect(t, text, buffer, line, highlight);
    case Unplace(id) =>
      HideStepEffect(t, id);
  }

  /** Over any run of operations the placed ids are consecutive from the
      counter, hence strictly increasing and never reused; the counters never
      go back; the cache only grows and never changes an entry; the command
      log only grows; and the invariant holds throughout. */
  lemma {:induction false} RunAllocatesFreshIds(t: Table, ops: seq<SignOp>)
    requires Inv(t)
    ensures var (t', ids) := Run(t, ops);
      Inv(t') &&
      t'.signId == t.signId + |ids| &&
      (forall i | 0 <= i < |ids| :: ids[i] == t.signId + i) &&
      t.nameId <= t'.nameId &&
      (forall k | k in t.defined :: k in t'.defined && t'.defined[k] == t.defined[k]) &&
      t.log <= t'.log
    decreases |ops|
  {
    if ops != [] {
      var (t1, ids1) := Apply(t, ops[0]);
      ApplyEffect(t, ops[0]);
      RunAllocatesFreshIds(t1, ops[1..]);
      var (t2, ids2) := Run(t1, ops[1..]);
      assert Run(t, ops) == (t2, ids1 + ids2);
      forall i | 0 <= i < |ids1 + ids2|
        ensures (ids1 + ids2)[i] == t.signId + i
      {
        if i >= |ids1| {
          assert (ids1 + ids2)[i] == ids2[i - |ids1|];
        }
      }
    }
  }

  /** The sign text and highlight a breakpoint or program-counter sign uses. */
  datatype Style = Style(text: string, highlight: string)

  function BreakpointStyle(isResolved: bool): Style {
    Style(if isResolved then SIGN_TEXT_BREAKPOINT_RESOLVED else SIGN_TEXT_BREAKPOINT_UNRESOLVED,
          SIGN_BREAKPOINT)
  }

  function PcStyle(isSelectedThread: bool): Style {
    Style(SIGN_TEXT_PC, if isSelectedThread then SIGN_PC_ACTIVE else SIGN_PC_INACTIVE)
  }

  /** Breakpoint signs differ only in their text, program-counter signs only
      in their highlight, and no breakpoint style is a program-counter style. */
  lemma StylesDistinct(r1: bool, r2: bool, s1: bool, s2: bool)
    ensures BreakpointStyle(r1).highlight == SIGN_BREAKPOINT
    ensures BreakpointStyle(r1) == BreakpointStyle(r2) <==> r1 == r2
    ensures PcStyle(s1).text == SIGN_TEXT_PC
    ensures PcStyle(s1) == PcStyle(s2) <==> s1 == s2
    ensures BreakpointStyle(r1) != PcStyle(s1)
  {
  }

  /** None of the built-in highlights is "highlight<N>", so every breakpoint
      and program-counter sign sends its own definition. */
  lemma BuiltinStylesAlwaysDefine(t: Table, buffer: nat, line: nat, isResolved: bool, isSelectedThread: bool)
    requires Inv(t)
    ensures var b := BreakpointStyle(isResolved);
      CreateStep(t, b.text, buffer, line, b.highlight).0.log
        == t.log + [DefineCommand(SignName(t.nameId), b.text, b.highlight),
                    PlaceCommand(t.signId, SignName(t.nameId), line, buffer)]
    ensures var p := PcStyle(isSelectedThread);
      CreateStep(t, p.text, buffer, line, p.highlight).0.log
        == t.log + [DefineCommand(SignName(t.nameId), p.text, p.highlight),
                    PlaceCommand(t.signId, SignName(t.nameId), line, buffer)]
  {
    var b := BreakpointStyle(isResolved);
    var p := PcStyle(isSelectedThread);
    BuiltinHighlightsUnprefixed();
    UnnumberedHighlightAlwaysDefines(t, b.text, buffer, line, b.highlight);
    UnnumberedHighlightAlwaysDefines(t, p.text, buffer, line, p.highlight);
  }

  /** The class-level attributes of VimSign, shared by every sign. */
  class SignRegistry {
    var signId: nat
    var nameId: nat
    var definedSigns: map<Key, string>
    var log: seq<string>

    function State(): Table
      reads this
    {
      Table(signId, nameId, definedSigns, log)
    }

    ghost predicate Valid()
      reads this
    {
      Inv(State())
    }

    constructor ()
      ensures State() == Initial() && Valid()
    {
      signId := 1;
      nameId := 1;
      definedSigns := map[];
      log := [];
    }

    /** The class-level half of define: send the definition "sign<N>", file it
        under (text, "highlight<N>") and move the name counter on. */
    method Define(signText: string, highlight: string) returns (signName: string)
      requires Valid()
      modifies this
      ensures Valid()
      ensures (State(), signName) == DefineStep(old(State()), signText, highlight)
    {
      ghost var before := State();
      ghost var after := DefineStep(before, signText, highlight).0;
      var n := nameId;
      signName := SignName(n);
      log := log + [DefineCommand(signName, signText, highlight)];
      definedSigns := definedSigns[(signText, HighlightName(n)) := signName];
      nameId := n + 1;
      assert log == after.log;
      assert definedSigns == after.defined;
      assert State() == after;
      DefineStepKeepsInv(before, signText, highlight);
    }
  }

  class VimSign {
    const registry: SignRegistry
    var id: nat
    /** The instance attribute `define` sets; absent when the cache hit. */
    var highlightName: Option<string>

    /** A sign with the given text and highlight at a buffer line. */
    constructor (registry: SignRegistry, signText: string, bufferNumber: nat, lineNumber: nat,
                 highlight: string := SIGN_DEFAULT_NAME)
      requires registry.Valid()
      modifies registry
      ensures this.registry == registry && registry.Valid()
      ensures (registry.State(), id) ==
              CreateStep(old(registry.State()), signText, bufferNumber, lineNumber, highlight)
      ensures highlightName ==
              if (signText, highlight) in old(registry.definedSigns) then None
              else Some(HighlightName(old(registry.nameId)))
    {
      this.registry := registry;
      id := 0;
      highlightName := None;
      new;
      Initialize(signText, bufferNumber, lineNumber, highlight);
    }

    /** A breakpoint sign: "B>" when resolved, "b>" otherwise. */
    constructor Breakpoint(registry: SignRegistry, bufferNumber: nat, lineNumber: nat, isResolved: bool)
      requires registry.Valid()
      modifies registry
      ensures this.registry == registry && registry.Valid()
      ensures (registry.State(), id) ==
              CreateStep(old(registry.State()), BreakpointStyle(isResolved).text, bufferNumber, lineNumber,
                         SIGN_BREAKPOINT)
      ensures highlightName == Some(HighlightName(old(registry.nameId)))
    {
      this.registry := registry;
      id := 0;
      highlightName := None;
      new;
      var style := BreakpointStyle(isResolved);
      BuiltinHighlightsUnprefixed();
      UnnumberedHighlightAlwaysDefines(registry.State(), style.text, bufferNumber, lineNumber, style.highlight);
      Initialize(style.text, bufferNumber, lineNumber, style.highlight);
    }

    /** A program-counter sign: "->", highlighted as active for the selected thread. */
    constructor ProgramCounter(registry: SignRegistry, bufferNumber: nat, lineNumber: nat, isSelectedThread: bool)
      requires registry.Valid()
      modifies registry
      ensures this.registry == registry && registry.Valid()
      ensures (registry.State(), id) ==
              CreateStep(old(registry.State()), SIGN_TEXT_PC, bufferNumber, lineNumber,
                         PcStyle(isSelectedThread).highlight)
      ensures highlightName == Some(HighlightName(old(registry.nameId)))
    {
      this.registry := registry;
      id := 0;
      highlightName := None;
      new;
      var style := PcStyle(isSelectedThread);
      BuiltinHighlightsUnprefixed();
      UnnumberedHighlightAlwaysDefines(registry.State(), style.text, bufferNumber, lineNumber, style.highlight);
      Initialize(style.text, bufferNumber, lineNumber, style.highlight);
    }

    /** The body shared by the constructors: look up or define, then show. */
    method Initialize(signText: string, bufferNumber: nat, lineNumber: nat, highlight: string)
      requires registry.Valid()
      modifies this, registry
      ensures registry.Valid()
      ensures (registry.State(), id) ==
              CreateStep(old(registry.State()), signText, bufferNumber, lineNumber, highlight)
      ensures highlightName ==
              if (signText, highlight) in old(registry.definedSigns) then old(highlightName)
              else Some(HighlightName(old(registry.nameId)))
    {
      var key := (signText, highlight);
      var name;
      if key !in registry.definedSigns {
        name := Define(signText, highlight);
      } else {
        name := registry.definedSigns[key];
      }
      Show(name, bufferNumber, lineNumber);
    }

    /** Send a definition "sign<N>" and file it under (text, "highlight<N>"). */
    method Define(signText: string, highlight: string) returns (signName: string)
      requires registry.Valid()
      modifies this, registry
      ensures registry.Valid()
      ensures (registry.State(), signName) == DefineStep(old(registry.State()), signText, highlight)
      ensures highlightName == Some(HighlightName(old(registry.nameId)))
      ensures id == old(id)
    {
      var n := registry.nameId;
      signName := registry.Define(signText, highlight);
      highlightName := Some(HighlightName(n));
    }

    /** Place the named sign under the next id, which becomes this sign's id. */
    method Show(name: string, bufferNumber: nat, lineNumber: nat)
      requires registry.Valid()
      modifies this, registry
      ensures registry.Valid()
      ensures (registry.State(), id) == ShowStep(old(registry.State()), name, bufferNumber, lineNumber)
      ensures id == old(registry.signId) && registry.signId == id + 1
      ensures highlightName == old(highlightName)
    {
      ghost var before := registry.State();
      ghost var after := ShowStep(before, name, bufferNumber, lineNumber).0;
      id := registry.signId;
      registry.signId := registry.signId + 1;
      registry.log := registry.log + [PlaceCommand(id, name, lineNumber, bufferNumber)];
      assert registry.log == after.log;
      assert registry.definedSigns == after.defined;
      assert registry.State() == after;
      InvIgnoresPlacements(before, after.signId, after.log);
    }

    /** Remove this sign: one unplace command with its own id. */
    method Hide()
      requires registry.Valid()
      modifies registry
      ensures registry.Valid()
      ensures registry.State() == HideStep(old(registry.State()), id)
      ensures registry.log == old(registry.log) + [UnplaceCommand(id)]
    {
      ghost var before := registry.State();
      ghost var after := HideStep(before, id);
      registry.log := registry.log + [UnplaceCommand(id)];
      assert registry.log == after.log;
      assert registry.definedSigns == after.defined;
      assert registry.State() == after;
      InvIgnoresPlacements(before, after.signId, after.log);
    }
  }
}
