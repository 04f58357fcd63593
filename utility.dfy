/** The escape-sequence filter applied to debugger output before it is shown
    in the editor: every match of one fixed byte pattern is deleted in a
    single leftmost, left-to-right pass (Python's `re.sub` with an empty
    replacement). The pattern has three alternatives, tried in this order:

      1. ESC Fe:  0x1B followed by a byte in 0x40-0x5A or 0x5C-0x5F;
      2. C1:      one byte in 0x80-0x9A or 0x9C-0x9F;
      3. CSI:     an introducer (0x1B 0x5B, or 0x9B), any run of parameter
                  bytes 0x30-0x3F, any run of intermediate bytes 0x20-0x2F
                  and one final byte 0x40-0x7E (section 5.4 of ECMA-48).

    The scanner below encodes exactly this pattern; it is not a general
    regular-expression engine. */
module Utility {

  type byte = b: int | 0 <= b < 0x100

  const ESC: byte := 0x1B
  const LEFT_BRACKET: byte := 0x5B
  const CSI: byte := 0x9B

  /** Second byte of alternative 1. */
  predicate IsFe(b: byte) {
    0x40 <= b <= 0x5A || 0x5C <= b <= 0x5F
  }

  /** The bytes alternative 2 deletes on their own (0x9B is left to alternative 3). */
  predicate IsC1(b: byte) {
    0x80 <= b <= 0x9A || 0x9C <= b <= 0x9F
  }

  predicate IsParameter(b: byte) {
    0x30 <= b <= 0x3F
  }

  predicate IsIntermediate(b: byte) {
    0x20 <= b <= 0x2F
  }

  predicate IsFinal(b: byte) {
    0x40 <= b <= 0x7E
  }

  /** A byte that can neither continue nor complete a match begun before it:
      it is no Fe byte, no '[', and no byte of a CSI body. */
  predicate IsBoundary(b: byte) {
    b < 0x20 || 0x7F <= b
  }

  /** Every alternative starts with ESC or a byte in 0x80-0x9F; input without
      those bytes cannot match anywhere. */
  predicate IsPlain(s: seq<byte>) {
    forall i | 0 <= i < |s| :: s[i] != ESC && !(0x80 <= s[i] <= 0x9F)
  }

  /** Length of the longest prefix of s whose bytes lie in lo..hi (a greedy `[lo-hi]*`). */
  function RunOf(s: seq<byte>, lo: byte, hi: byte): (n: nat)
    ensures n <= |s|
    ensures forall i | 0 <= i < n :: lo <= s[i] <= hi
    ensures n < |s| ==> !(lo <= s[n] <= hi)
    decreases |s|
  {
    if s != [] && lo <= s[0] <= hi then 1 + RunOf(s[1..], lo, hi) else 0
  }

  /** Length of `[0-?]*[ -/]*[@-~]` matched at the start of v, or 0 when it does
      not match. The three byte classes are disjoint, so the greedy runs are the
      only way to match and backtracking cannot find another. */
  function CsiBodyLength(v: seq<byte>): (n: nat)
    ensures n <= |v|
    ensures n > 0 ==> IsFinal(v[n - 1])
  {
    var p := RunOf(v, 0x30, 0x3F);
    var q := RunOf(v[p..], 0x20, 0x2F);
    if p + q < |v| && IsFinal(v[p + q]) then p + q + 1 else 0
  }

  /** Length of the CSI introducer at the start of s: 2 for ESC '[', 1 for 0x9B, else 0. */
  function IntroducerLength(s: seq<byte>): (n: nat)
    ensures n <= |s|
  {
    if |s| >= 2 && s[0] == ESC && s[1] == LEFT_BRACKET then 2
    else if |s| >= 1 && s[0] == CSI then 1
    else 0
  }

  /** Length of the pattern's match anchored at the start of s, alternatives
      tried in order, or 0 when none matches (no alternative matches the empty
      string, so 0 is never a match length). */
  function MatchLength(s: seq<byte>): (n: nat)
    ensures n <= |s|
    ensures n > 0 ==> s[0] == ESC || 0x80 <= s[0] <= 0x9F
    ensures s != [] && IsC1(s[0]) ==> n == 1
  {
    if |s| >= 2 && s[0] == ESC && IsFe(s[1]) then 2
    else if |s| >= 1 && IsC1(s[0]) then 1
    else
      var k := IntroducerLength(s);
      if k == 0 then 0
      else
        var b := CsiBodyLength(s[k..]);
        if b == 0 then 0 else k + b
  }

  /** escape_ansi: delete every match in one left-to-right pass. Where no match
      starts, one byte is copied and the scan moves on; after a match the scan
      resumes behind it, and bytes a deletion brings together are not rescanned. */
  function EscapeAnsi(s: seq<byte>): (r: seq<byte>)
    ensures |r| <= |s|
    decreases |s|
  {
    if s == [] then []
    else
      var n := MatchLength(s);
      if n == 0 then [s[0]] + EscapeAnsi(s[1..]) else EscapeAnsi(s[n..])
  }

  /** t is obtained from s by deleting elements. */
  predicate IsSubsequence(t: seq<byte>, s: seq<byte>)
    decreases |s|
  {
    |t| <= |s| &&
    (t == [] || (t[0] == s[0] && IsSubsequence(t[1..], s[1..])) || IsSubsequence(t, s[1..]))
  }

  lemma {:induction false} SubsequenceOfSuffix(t: seq<byte>, s: seq<byte>, k: nat)
    requires k <= |s| && IsSubsequence(t, s[k..])
    ensures IsSubsequence(t, s)
    decreases k
  {
    if k > 0 {
      assert s[1..][k - 1..] == s[k..];
      SubsequenceOfSuffix(t, s[1..], k - 1);
    }
  }

  /** The output is the input with some bytes deleted: nothing is inserted,
      altered or reordered. */
  lemma {:induction false} EscapeAnsiIsSubsequence(s: seq<byte>)
    ensures IsSubsequence(EscapeAnsi(s), s)
    decreases |s|
  {
    if s != [] {
      var n := MatchLength(s);
      if n == 0 {
        EscapeAnsiIsSubsequence(s[1..]);
        var r := EscapeAnsi(s);
        assert r[0] == s[0] && r[1..] == EscapeAnsi(s[1..]);
      } else {
        EscapeAnsiIsSubsequence(s[n..]);
        SubsequenceOfSuffix(EscapeAnsi(s[n..]), s, n);
      }
    }
  }

  /** The input comes back unchanged exactly when the pattern matches at no position. */
  lemma {:induction false} EscapeAnsiUnchangedIff(s: seq<byte>)
    ensures EscapeAnsi(s) == s <==> forall i | 0 <= i < |s| :: MatchLength(s[i..]) == 0
    decreases |s|
  {
    if s != [] {
      assert s[0..] == s;
      var n := MatchLength(s);
      if n == 0 {
        EscapeAnsiUnchangedIff(s[1..]);
        assert EscapeAnsi(s) == [s[0]] + EscapeAnsi(s[1..]);
        if forall i | 0 <= i < |s| :: MatchLength(s[i..]) == 0 {
          forall j | 0 <= j < |s| - 1
            ensures MatchLength(s[1..][j..]) == 0
          {
            assert s[1..][j..] == s[j + 1..];
          }
        }
        if forall j | 0 <= j < |s| - 1 :: MatchLength(s[1..][j..]) == 0 {
          forall i | 1 <= i < |s|
            ensures MatchLength(s[i..]) == 0
          {
            assert s[1..][i - 1..] == s[i..];
          }
        }
      } else {
        assert |EscapeAnsi(s)| <= |s| - n;
      }
    }
  }

  /** Input with no ESC and no byte in 0x80-0x9F comes back unchanged. */
  lemma EscapeAnsiKeepsPlain(s: seq<byte>)
    requires IsPlain(s)
    ensures EscapeAnsi(s) == s
  {
    forall i | 0 <= i < |s|
      ensures MatchLength(s[i..]) == 0
    {
      assert s[i..][0] == s[i];
    }
    EscapeAnsiUnchangedIff(s);
  }

  /** No byte in 0x80-0x9A or 0x9C-0x9F survives, wherever it occurs. */
  lemma {:induction false} EscapeAnsiRemovesC1(s: seq<byte>)
    ensures forall i | 0 <= i < |EscapeAnsi(s)| :: !IsC1(EscapeAnsi(s)[i])
    decreases |s|
  {
    if s != [] {
      var n := MatchLength(s);
      if n == 0 {
        EscapeAnsiRemovesC1(s[1..]);
        assert EscapeAnsi(s) == [s[0]] + EscapeAnsi(s[1..]);
      } else {
        EscapeAnsiRemovesC1(s[n..]);
      }
    }
  }

  /** Alternative 2: a lone C1 byte is deleted. */
  lemma EscapeAnsiDropsC1(c: byte, rest: seq<byte>)
    requires IsC1(c)
    ensures EscapeAnsi([c] + rest) == EscapeAnsi(rest)
  {
    assert ([c] + rest)[1..] == rest;
  }

  /** Alternative 1: ESC followed by an Fe byte is deleted as a two-byte unit. */
  lemma EscapeAnsiDropsFe(f: byte, rest: seq<byte>)
    requires IsFe(f)
    ensures EscapeAnsi([ESC, f] + rest) == EscapeAnsi(rest)
  {
    assert ([ESC, f] + rest)[2..] == rest;
  }

  lemma RunOfExact(pre: seq<byte>, post: seq<byte>, lo: byte, hi: byte)
    requires forall i | 0 <= i < |pre| :: lo <= pre[i] <= hi
    requires post != [] && !(lo <= post[0] <= hi)
    ensures RunOf(pre + post, lo, hi) == |pre|
  {
    assert forall i | 0 <= i < |pre| :: (pre + post)[i] == pre[i];
    assert (pre + post)[|pre|] == post[0];
  }

  /** The body of a complete CSI sequence is measured exactly. */
  lemma CsiBodyLengthExact(params: seq<byte>, inters: seq<byte>, final: byte, rest: seq<byte>)
    requires forall i | 0 <= i < |params| :: IsParameter(params[i])
    requires forall i | 0 <= i < |inters| :: IsIntermediate(inters[i])
    requires IsFinal(final)
    ensures CsiBodyLength(params + inters + [final] + rest) == |params| + |inters| + 1
  {
    var tail := [final] + rest;
    var body := params + inters + [final] + rest;
    assert body == params + (inters + tail);
    RunOfExact(params, inters + tail, 0x30, 0x3F);
    assert body[|params|..] == inters + tail;
    RunOfExact(inters, tail, 0x20, 0x2F);
    assert body[|params| + |inters|] == final;
  }

  lemma MatchLengthCsi(intro: seq<byte>, body: seq<byte>)
    requires intro == [ESC, LEFT_BRACKET] || intro == [CSI]
    requires CsiBodyLength(body) > 0
    ensures MatchLength(intro + body) == |intro| + CsiBodyLength(body)
  {
    var s := intro + body;
    assert IntroducerLength(s) == |intro| && !IsC1(s[0]) && !(|s| >= 2 && s[0] == ESC && IsFe(s[1])) by {
      assert s[0] == intro[0];
      if intro == [ESC, LEFT_BRACKET] {
        assert s[1] == LEFT_BRACKET;
      }
    }
    assert s[|intro|..] == body;
  }

  /** Alternative 3: a complete CSI sequence is deleted whole, whichever
      introducer it uses. */
  lemma EscapeAnsiDropsCsi(intro: seq<byte>, params: seq<byte>, inters: seq<byte>,
                           final: byte, rest: seq<byte>)
    requires intro == [ESC, LEFT_BRACKET] || intro == [CSI]
    requires forall i | 0 <= i < |params| :: IsParameter(params[i])
    requires forall i | 0 <= i < |inters| :: IsIntermediate(inters[i])
    requires IsFinal(final)
    ensures EscapeAnsi(intro + params + inters + [final] + rest) == EscapeAnsi(rest)
  {
    var body := params + inters + [final] + rest;
    CsiBodyLengthExact(params, inters, final, rest);
    MatchLengthCsi(intro, body);
    CsiShape(intro, params, inters, final, rest);
    EscapeAnsiSkips(intro + body, |intro| + |params| + |inters| + 1, rest);
  }

  lemma CsiShape(intro: seq<byte>, params: seq<byte>, inters: seq<byte>, final: byte, rest: seq<byte>)
    ensures intro + params + inters + [final] + rest == intro + (params + inters + [final] + rest)
    ensures (intro + (params + inters + [final] + rest))[|intro| + |params| + |inters| + 1..] == rest
  {
  }

  /** v is exactly a CSI body `[0-?]*[ -/]*[@-~]`: p parameter bytes, then q
      intermediate bytes, then one final byte. */
  predicate CsiBodySplit(v: seq<byte>, p: nat, q: nat) {
    p + q + 1 == |v| &&
    (forall i | 0 <= i < p :: IsParameter(v[i])) &&
    (forall i | p <= i < p + q :: IsIntermediate(v[i])) &&
    IsFinal(v[p + q])
  }

  ghost predicate IsCsiBody(v: seq<byte>) {
    exists p: nat, q: nat :: CsiBodySplit(v, p, q)
  }

  /** m is, as a whole, a string the pattern accepts: one of its three
      alternatives, written out independently of the scanner. */
  ghost predicate IsMatch(m: seq<byte>) {
    (|m| == 2 && m[0] == ESC && IsFe(m[1])) ||
    (|m| == 1 && IsC1(m[0])) ||
    (|m| >= 2 && m[0] == ESC && m[1] == LEFT_BRACKET && IsCsiBody(m[2..])) ||
    (|m| >= 1 && m[0] == CSI && IsCsiBody(m[1..]))
  }

  /** A positive body length is only given to a real CSI body. */
  lemma CsiBodyLengthSound(v: seq<byte>)
    requires CsiBodyLength(v) > 0
    ensures IsCsiBody(v[..CsiBodyLength(v)])
  {
    var n := CsiBodyLength(v);
    var p := RunOf(v, 0x30, 0x3F);
    var w := v[p..];
    var q := RunOf(w, 0x20, 0x2F);
    assert forall i | p <= i < p + q :: v[..n][i] == w[i - p];
    assert CsiBodySplit(v[..n], p, q);
  }

  /** A greedy run stops exactly at the first byte out of range. */
  lemma RunOfStops(v: seq<byte>, p: nat, lo: byte, hi: byte)
    requires p < |v| && !(lo <= v[p] <= hi)
    requires forall i | 0 <= i < p :: lo <= v[i] <= hi
    ensures RunOf(v, lo, hi) == p
  {
  }

  /** A CSI body at the start of v is measured exactly. */
  lemma CsiBodyLengthComplete(v: seq<byte>, n: nat, p: nat, q: nat)
    requires n <= |v| && CsiBodySplit(v[..n], p, q)
    ensures CsiBodyLength(v) == n
  {
    assert forall i | 0 <= i < n :: v[..n][i] == v[i];
    CsiBodyAt(v, p, q);
  }

  lemma CsiBodyAt(v: seq<byte>, p: nat, q: nat)
    requires p + q < |v| && IsFinal(v[p + q])
    requires forall i | 0 <= i < p :: IsParameter(v[i])
    requires forall i | p <= i < p + q :: IsIntermediate(v[i])
    ensures CsiBodyLength(v) == p + q + 1
  {
    assert RunOf(v, 0x30, 0x3F) == p by {
      RunOfStops(v, p, 0x30, 0x3F);
    }
    var w := v[p..];
    assert RunOf(w, 0x20, 0x2F) == q by {
      assert forall i | 0 <= i <= q :: w[i] == v[p + i];
      RunOfStops(w, q, 0x20, 0x2F);
    }
  }

  /** CsiBodyLength finds a body of length n exactly when the first n bytes form one. */
  lemma CsiBodyLengthIff(v: seq<byte>, n: nat)
    requires 0 < n <= |v|
    ensures CsiBodyLength(v) == n <==> IsCsiBody(v[..n])
  {
    if CsiBodyLength(v) == n {
      CsiBodyLengthSound(v);
    }
    if IsCsiBody(v[..n]) {
      var p: nat, q: nat :| CsiBodySplit(v[..n], p, q);
      CsiBodyLengthComplete(v, n, p, q);
    }
  }

  /** A positive match length is only given to a prefix the pattern accepts. */
  lemma MatchLengthSound(s: seq<byte>)
    requires MatchLength(s) > 0
    ensures IsMatch(s[..MatchLength(s)])
  {
    var n := MatchLength(s);
    var m := s[..n];
    if |s| >= 2 && s[0] == ESC && IsFe(s[1]) {
      assert m[0] == ESC && IsFe(m[1]);
    } else if IsC1(s[0]) {
      assert m[0] == s[0];
    } else {
      var k := IntroducerLength(s);
      CsiMatchSound(s, k, CsiBodyLength(s[k..]));
    }
  }

  /** The CSI alternative of MatchLengthSound. */
  lemma CsiMatchSound(s: seq<byte>, k: nat, b: nat)
    requires k == IntroducerLength(s) && k > 0
    requires b == CsiBodyLength(s[k..]) && b > 0
    ensures IsMatch(s[..k + b])
  {
    var m := s[..k + b];
    CsiBodyLengthSound(s[k..]);
    assert m[k..] == s[k..][..b];
    if k == 2 {
      assert m[0] == ESC && m[1] == LEFT_BRACKET;
    } else {
      assert m[0] == CSI;
    }
  }

  /** A prefix the pattern accepts is what MatchLength finds: the alternatives
      begin differently and a body has only one possible end, so no other
      alternative or shorter or longer match can win. */
  lemma MatchLengthComplete(s: seq<byte>, n: nat)
    requires 0 < n <= |s| && IsMatch(s[..n])
    ensures MatchLength(s) == n
  {
    var m := s[..n];
    if |m| == 2 && m[0] == ESC && IsFe(m[1]) {
      assert s[0] == ESC && s[1] == m[1];
    } else if |m| == 1 && IsC1(m[0]) {
      assert s[0] == m[0];
    } else if |m| >= 2 && m[0] == ESC && m[1] == LEFT_BRACKET && IsCsiBody(m[2..]) {
      assert s[0] == ESC && s[1] == LEFT_BRACKET;
      CsiMatchComplete(s, 2, n);
    } else {
      assert s[0] == CSI;
      CsiMatchComplete(s, 1, n);
    }
  }

  /** The CSI alternatives of MatchLengthComplete. */
  lemma CsiMatchComplete(s: seq<byte>, k: nat, n: nat)
    requires 0 < k < n <= |s| && k == IntroducerLength(s)
    requires IsCsiBody(s[..n][k..])
    ensures MatchLength(s) == n
  {
    CsiBodyOfPrefix(s, k, n);
  }

  lemma CsiBodyOfPrefix(s: seq<byte>, k: nat, n: nat)
    requires k < n <= |s|
    requires IsCsiBody(s[..n][k..])
    ensures CsiBodyLength(s[k..]) == n - k
  {
    var v := s[..n][k..];
    var w := s[k..][..n - k];
    assert |v| == |w|;
    assert forall i | 0 <= i < |v| :: v[i] == s[k + i] == w[i];
    assert v == w;
    CsiBodyLengthIff(s[k..], n - k);
  }

  /** MatchLength(s) is n > 0 exactly when the first n bytes are a match. */
  lemma MatchLengthIff(s: seq<byte>, n: nat)
    requires 0 < n <= |s|
    ensures MatchLength(s) == n <==> IsMatch(s[..n])
  {
    if MatchLength(s) == n {
      MatchLengthSound(s);
    }
    if IsMatch(s[..n]) {
      MatchLengthComplete(s, n);
    }
  }

  /** MatchLength is 0 exactly when no prefix of s is a match. */
  lemma NoMatchIff(s: seq<byte>)
    ensures MatchLength(s) == 0 <==> forall n | 0 < n <= |s| :: !IsMatch(s[..n])
  {
    if MatchLength(s) > 0 {
      MatchLengthSound(s);
    }
    forall n | 0 < n <= |s| && IsMatch(s[..n])
      ensures MatchLength(s) == n
    {
      MatchLengthComplete(s, n);
    }
  }

  lemma RunOfAppend(v: seq<byte>, u: seq<byte>, lo: byte, hi: byte)
    requires u != [] && !(lo <= u[0] <= hi)
    ensures RunOf(v + u, lo, hi) == RunOf(v, lo, hi)
  {
    var n := RunOf(v, lo, hi);
    assert v + u == v[..n] + (v[n..] + u);
    if n < |v| {
      assert (v[n..] + u)[0] == v[n];
    }
    RunOfExact(v[..n], v[n..] + u, lo, hi);
  }

  lemma FinalAppend(v: seq<byte>, u: seq<byte>, j: nat)
    requires u != [] && IsBoundary(u[0]) && j <= |v|
    ensures (j < |v + u| && IsFinal((v + u)[j])) == (j < |v| && IsFinal(v[j]))
  {
    if j < |v| {
      assert (v + u)[j] == v[j];
    } else {
      assert (v + u)[j] == u[0];
    }
  }

  lemma CsiBodyLengthAppend(v: seq<byte>, u: seq<byte>)
    requires u != [] && IsBoundary(u[0])
    ensures CsiBodyLength(v + u) == CsiBodyLength(v)
  {
    var p := RunOf(v, 0x30, 0x3F);
    assert RunOf(v + u, 0x30, 0x3F) == p by {
      RunOfAppend(v, u, 0x30, 0x3F);
    }
    var w := v[p..];
    assert (v + u)[p..] == w + u;
    var q := RunOf(w, 0x20, 0x2F);
    assert RunOf(w + u, 0x20, 0x2F) == q by {
      RunOfAppend(w, u, 0x20, 0x2F);
    }
    FinalAppend(v, u, p + q);
  }

  lemma IntroducerLengthAppend(s: seq<byte>, u: seq<byte>)
    requires s != [] && u != [] && IsBoundary(u[0])
    ensures IntroducerLength(s + u) == IntroducerLength(s)
    ensures |s| == 1 && s[0] == ESC ==> IntroducerLength(s) == 0
  {
    assert (s + u)[0] == s[0];
    if |s| == 1 {
      assert (s + u)[1] == u[0];
    } else {
      assert (s + u)[1] == s[1];
    }
  }

  lemma ConcatAssoc(a: seq<byte>, b: seq<byte>, c: seq<byte>)
    ensures a + (b + c) == (a + b) + c
  {
  }

  lemma SliceOfAppend(s: seq<byte>, u: seq<byte>, n: nat)
    requires n <= |s|
    ensures (s + u)[n..] == s[n..] + u
  {
  }

  lemma FeAppend(s: seq<byte>, u: seq<byte>)
    requires s != [] && u != [] && IsBoundary(u[0])
    ensures (s + u)[0] == s[0]
    ensures (|s + u| >= 2 && IsFe((s + u)[1])) == (|s| >= 2 && IsFe(s[1]))
  {
    if |s| == 1 {
      assert (s + u)[1] == u[0];
    } else {
      assert (s + u)[1] == s[1];
    }
  }

  /** MatchLength looks only at the first two bytes, the introducer and the
      CSI body behind it. */
  lemma MatchLengthDetermined(x: seq<byte>, y: seq<byte>, k: nat)
    requires x != [] && y != [] && x[0] == y[0]
    requires (|x| >= 2 && IsFe(x[1])) == (|y| >= 2 && IsFe(y[1]))
    requires IntroducerLength(x) == k && IntroducerLength(y) == k
    requires k > 0 ==> CsiBodyLength(x[k..]) == CsiBodyLength(y[k..])
    ensures MatchLength(x) == MatchLength(y)
  {
  }

  lemma MatchLengthAppend(s: seq<byte>, u: seq<byte>)
    requires s != [] && u != [] && IsBoundary(u[0])
    ensures MatchLength(s + u) == MatchLength(s)
  {
    var k := IntroducerLength(s);
    IntroducerLengthAppend(s, u);
    FeAppend(s, u);
    if k > 0 {
      SliceOfAppend(s, u, k);
      CsiBodyLengthAppend(s[k..], u);
    }
    MatchLengthDetermined(s + u, s, k);
  }

  /** Where no match starts, the first byte is copied and the scan goes on
      with the rest. */
  lemma EscapeAnsiCopies(x: seq<byte>, y: seq<byte>)
    requires x != [] && x[1..] == y && MatchLength(x) == 0
    ensures EscapeAnsi(x) == [x[0]] + EscapeAnsi(y)
  {
  }

  /** Where a match of length n starts, its n bytes are deleted. */
  lemma EscapeAnsiSkips(x: seq<byte>, n: nat, y: seq<byte>)
    requires 0 < n <= |x| && x[n..] == y && MatchLength(x) == n
    ensures EscapeAnsi(x) == EscapeAnsi(y)
  {
  }

  /** One step of the scan over s + u, where a match-free start of s is copied. */
  lemma AppendCopyStep(s: seq<byte>, u: seq<byte>)
    requires s != [] && u != [] && IsBoundary(u[0]) && MatchLength(s) == 0
    ensures EscapeAnsi(s + u) == [s[0]] + EscapeAnsi(s[1..] + u)
  {
    MatchLengthAppend(s, u);
    assert (s + u)[1..] == s[1..] + u;
    assert (s + u)[0] == s[0];
    EscapeAnsiCopies(s + u, s[1..] + u);
  }

  /** One step of the scan over s + u, where a match at the start of s is deleted. */
  lemma AppendMatchStep(s: seq<byte>, u: seq<byte>, n: nat)
    requires s != [] && u != [] && IsBoundary(u[0]) && MatchLength(s) == n > 0
    ensures EscapeAnsi(s + u) == EscapeAnsi(s[n..] + u)
  {
    SliceOfAppend(s, u, n);
    MatchLengthAppend(s, u);
    EscapeAnsiSkips(s + u, n, s[n..] + u);
  }

  /** A byte that cannot continue any match splits the input into two parts
      that are filtered independently (for example at a line break). */
  lemma {:induction false} EscapeAnsiAppend(s: seq<byte>, u: seq<byte>)
    requires u == [] || IsBoundary(u[0])
    ensures EscapeAnsi(s + u) == EscapeAnsi(s) + EscapeAnsi(u)
    decreases |s|
  {
    if s == [] {
      assert s + u == u;
    } else if u == [] {
      assert s + u == s;
    } else {
      var n := MatchLength(s);
      if n == 0 {
        AppendCopyStep(s, u);
        EscapeAnsiCopies(s, s[1..]);
        EscapeAnsiAppend(s[1..], u);
        ConcatAssoc([s[0]], EscapeAnsi(s[1..]), EscapeAnsi(u));
      } else {
        AppendMatchStep(s, u, n);
        EscapeAnsiSkips(s, n, s[n..]);
        EscapeAnsiAppend(s[n..], u);
      }
    }
  }

  /** An incomplete CSI introducer at the end of the input is not matched. */
  lemma EscapeAnsiKeepsTrailingIntroducer(s: seq<byte>)
    ensures EscapeAnsi(s + [ESC, LEFT_BRACKET]) == EscapeAnsi(s) + [ESC, LEFT_BRACKET]
  {
    var u: seq<byte> := [ESC, LEFT_BRACKET];
    EscapeAnsiAppend(s, u);
    assert MatchLength(u) == 0;
    assert u[1..] == [LEFT_BRACKET];
    assert MatchLength(u[1..]) == 0;
  }

  /** A CSI introducer followed only by parameter and intermediate bytes has
      no final byte, so no match starts at the introducer. */
  lemma IncompleteCsiNoMatch(c: seq<byte>, intro: seq<byte>, body: seq<byte>)
    requires forall i | 0 <= i < |body| :: IsParameter(body[i]) || IsIntermediate(body[i])
    requires intro == [ESC, LEFT_BRACKET] || intro == [CSI]
    requires c == intro + body
    ensures MatchLength(c) == 0
  {
    assert CsiBodyLength(body) == 0 by {
      NoFinalNoBody(body);
    }
    if intro == [CSI] {
      assert c[0] == CSI && c[1..] == body;
    } else {
      assert c[0] == ESC && c[1] == LEFT_BRACKET && c[2..] == body;
    }
  }

  /** Parameter and intermediate bytes alone never make a CSI body. */
  lemma NoFinalNoBody(body: seq<byte>)
    requires forall i | 0 <= i < |body| :: IsParameter(body[i]) || IsIntermediate(body[i])
    ensures CsiBodyLength(body) == 0
  {
    var p := RunOf(body, 0x30, 0x3F);
    var q := RunOf(body[p..], 0x20, 0x2F);
    if p + q < |body| {
      assert !IsFinal(body[p + q]);
    }
  }

  lemma IncompleteCsiTailPlain(tail: seq<byte>, intro: seq<byte>, body: seq<byte>)
    requires forall i | 0 <= i < |body| :: IsParameter(body[i]) || IsIntermediate(body[i])
    requires intro == [ESC, LEFT_BRACKET] || intro == [CSI]
    requires tail == intro[1..] + body
    ensures IsPlain(tail)
  {
    var k := |intro| - 1;
    assert forall i | k <= i < |tail| :: tail[i] == body[i - k];
  }

  lemma IncompleteCsiKept(c: seq<byte>, intro: seq<byte>, body: seq<byte>)
    requires forall i | 0 <= i < |body| :: IsParameter(body[i]) || IsIntermediate(body[i])
    requires intro == [ESC, LEFT_BRACKET] || intro == [CSI]
    requires c == intro + body
    ensures EscapeAnsi(c) == c
  {
    var tail := c[1..];
    assert tail == intro[1..] + body;
    assert c == [c[0]] + tail;
    assert MatchLength(c) == 0 by {
      IncompleteCsiNoMatch(c, intro, body);
    }
    assert EscapeAnsi(tail) == tail by {
      IncompleteCsiTailPlain(tail, intro, body);
      EscapeAnsiKeepsPlain(tail);
    }
    EscapeAnsiCopies(c, tail);
  }

  /** A CSI introducer (ESC '[' or 0x9B) whose parameter and intermediate
      bytes are cut off by a byte that cannot continue them (a line break,
      say) has no final byte and is kept as it is, wherever it occurs in the
      input. */
  lemma EscapeAnsiKeepsIncompleteCsi(s: seq<byte>, intro: seq<byte>, body: seq<byte>, rest: seq<byte>)
    requires intro == [ESC, LEFT_BRACKET] || intro == [CSI]
    requires forall i | 0 <= i < |body| :: IsParameter(body[i]) || IsIntermediate(body[i])
    requires rest == [] || IsBoundary(rest[0])
    ensures EscapeAnsi(s + (intro + body) + rest) == EscapeAnsi(s) + (intro + body) + EscapeAnsi(rest)
  {
    var c := intro + body;
    assert EscapeAnsi(c) == c by {
      IncompleteCsiKept(c, intro, body);
    }
    assert EscapeAnsi(s + c) == EscapeAnsi(s) + c by {
      EscapeAnsiAppend(s, c);
    }
    EscapeAnsiAppend(s + c, rest);
  }

  /** A lone 0x9B followed by a byte that cannot continue a CSI sequence stays. */
  lemma EscapeAnsiKeepsLoneCsi(u: seq<byte>)
    requires u == [] || IsBoundary(u[0])
    ensures EscapeAnsi([CSI] + u) == [CSI] + EscapeAnsi(u)
  {
    var c: seq<byte> := [CSI];
    EscapeAnsiAppend(c, u);
    assert c[1..] == [];
    assert MatchLength(c) == 0;
  }

  /** A colour or style code as terminals receive it: ESC '[', parameter
      bytes, and a final byte ('m' for the colour codes). */
  function ColourCode(params: seq<byte>, final: byte): (c: seq<byte>)
    ensures |c| == |params| + 3 && c[..2] == [ESC, LEFT_BRACKET]
  {
    [ESC, LEFT_BRACKET] + params + [final]
  }

  /** Plain text followed by one complete code keeps only the text. */
  lemma EscapeAnsiPlainThenCsi(plain: seq<byte>, params: seq<byte>, final: byte)
    requires IsPlain(plain)
    requires forall i | 0 <= i < |params| :: IsParameter(params[i])
    requires IsFinal(final)
    ensures EscapeAnsi(plain + ColourCode(params, final)) == plain
  {
    var csi := ColourCode(params, final);
    assert EscapeAnsi(csi) == [] by {
      assert csi == [ESC, LEFT_BRACKET] + params + [] + [final] + [];
      EscapeAnsiDropsCsi([ESC, LEFT_BRACKET], params, [], final, []);
    }
    assert EscapeAnsi(plain) == plain by {
      EscapeAnsiKeepsPlain(plain);
    }
    assert EscapeAnsi(plain + csi) == EscapeAnsi(plain) + EscapeAnsi(csi) by {
      EscapeAnsiAppend(plain, csi);
    }
  }

  /** Text wrapped in colour codes, such as "\x1b[31mred\x1b[0m", comes back
      as the bare text. */
  lemma EscapeAnsiColouredText(open: seq<byte>, openFinal: byte, text: seq<byte>,
                               close: seq<byte>, closeFinal: byte)
    requires forall i | 0 <= i < |open| :: IsParameter(open[i])
    requires forall i | 0 <= i < |close| :: IsParameter(close[i])
    requires IsFinal(openFinal) && IsFinal(closeFinal)
    requires IsPlain(text)
    ensures EscapeAnsi(ColourCode(open, openFinal) + text + ColourCode(close, closeFinal)) == text
  {
    var rest := text + ColourCode(close, closeFinal);
    assert ColourCode(open, openFinal) + text + ColourCode(close, closeFinal)
        == [ESC, LEFT_BRACKET] + open + [] + [openFinal] + rest;
    EscapeAnsiDropsCsi([ESC, LEFT_BRACKET], open, [], openFinal, rest);
    EscapeAnsiPlainThenCsi(text, close, closeFinal);
  }

  /** A single pass: ESC ESC 'A' 'B' gives ESC 'B', which a second pass deletes,
      so applying the filter twice differs from applying it once. */
  lemma EscapeAnsiNotIdempotent(s: seq<byte>)
    requires s == [ESC, ESC, 0x41, 0x42]
    ensures EscapeAnsi(s) == [ESC, 0x42]
    ensures EscapeAnsi(EscapeAnsi(s)) == []
  {
    var once: seq<byte> := [ESC, 0x42];
    assert EscapeAnsi(s) == once by {
      assert MatchLength(s) == 0;
      assert s[1..] == [ESC, 0x41] + [0x42];
      EscapeAnsiCopies(s, s[1..]);
      EscapeAnsiDropsFe(0x41, [0x42]);
      EscapeAnsiKeepsPlain([0x42]);
    }
    assert EscapeAnsi(once) == [] by {
      assert once == [ESC, 0x42] + [];
      EscapeAnsiDropsFe(0x42, []);
    }
  }
}
