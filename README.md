# vim-lldb signs and escape filter, modelled in Dafny

vim-lldb is a Vim plugin that drives the LLDB debugger. This project models two
parts of its Python code:

- **Signs** (`vim_signs.py`). Signs are the editor markers for breakpoints and
  the program counter. `VimSign` keeps class-level bookkeeping shared by every
  sign:
  - the next placement id (`sign_id`);
  - the next definition number (`name_id`);
  - a cache from `(sign text, highlight name)` to a defined sign name.

  Constructing a sign works in two steps:
  - It looks up the caller's pair in the cache. On a miss it sends
    `sign define sign<N> text=<text> linehl=<hl> texthl=<hl>` to the editor.
  - It then sends `sign place <id> name=<name> line=<line> buffer=<buffer>`.

  `hide` sends `sign unplace <id>`. `BreakpointSign` and `PCSign` only choose
  the glyph and the highlight.
- **Escape filter** (`utility.py`). `escape_ansi` deletes ECMA-48 escape
  sequences from debugger output before it is shown. It is one regular
  expression with three alternatives, applied by `re.sub` in a single
  left-to-right pass.

The model takes the source's own form:

- **`VimSigns.SignRegistry`** is a class holding the shared class-level
  attributes (`signId`, `nameId`, `definedSigns`), plus the list of commands
  sent to the editor (`log`), which stands in for `vim.command`. Its method
  `Define` performs the class-level half of `define`.
- **`VimSigns.VimSign`** is a class with the instance attributes `id` and
  `highlightName`.
  - Its constructors and its methods `Define`, `Show` and `Hide` update the
    registry in place.
  - Each is proved against a function on the value `Table`: `DefineStep`,
    `ShowStep`, `CreateStep` or `HideStep`.
  - `BreakpointSign` and `PCSign` become the named constructors
    `VimSign.Breakpoint` and `VimSign.ProgramCounter`.
- **`Decimal`** renders numbers as Python's `%d` does. It proves the rendering
  injective, via a parse round trip, so the generated names `sign<N>` and
  `highlight<N>` are distinct for distinct N.
- **`Utility`** models the regular expression as a scanner over bytes:
  - `MatchLength` gives the anchored match length, trying the alternatives in
    order.
  - `EscapeAnsi` copies a byte where nothing matches and skips a whole match
    otherwise.
  - The CSI body `[0-?]*[ -/]*[@-~]` is matched by two greedy runs and one
    final byte. The three byte classes are disjoint, so backtracking cannot
    find any other match.

### How `define` files its cache entries

`define` stores its entry under `(sign_text, "highlight<N>")`. That is the
instance's own generated name, not the highlight the caller passed.
`__init__` looks the cache up with the caller's highlight. As a result:

- A highlight that does not begin with `highlight` never hits the cache.
- Every breakpoint and program-counter sign sends a fresh `sign define`, each
  with a new name `sign<N>`.
- The cache hits only when a caller passes a literal `highlight<N>`.

The model reproduces this exactly. `UnnumberedHighlightAlwaysDefines`,
`RepeatedSignDefinesTwice`, `BuiltinStylesAlwaysDefine` and
`LiteralHighlightHitsCache` state its consequences.

### Behaviour worth knowing

- **The cache does not deduplicate ordinary signs.** The comment at
  `vim_signs.py:28-29` says the sign name is found either by defining it or
  by looking it up in the map of defined signs. With the filing described
  above, the lookup misses for every highlight that does not begin with
  `highlight`. Two placements with the same text and highlight therefore send
  two definitions, `sign<N>` and `sign<N+1>`. `RepeatedSignDefinesTwice`
  proves this.
- **The escape filter is not idempotent.** A single pass never rescans the
  bytes that a deletion brings together:
  - ESC ESC `A` `B` gives ESC `B`;
  - a second pass deletes that as well.

  `EscapeAnsiNotIdempotent` proves this.
- **An incomplete CSI sequence is kept.** ESC `[` or 0x9B followed by
  parameter or intermediate bytes, and then the end of the text or a byte
  below 0x20 or from 0x7F (a line break, say), has no final byte. No alternative matches
  at the introducer, and the bytes after it are plain, so the whole fragment
  is copied. `EscapeAnsiKeepsIncompleteCsi` proves this wherever the fragment
  occurs.

## Model

| member | source | states |
|---|---|---|
| Decimal.Format | python-vim-lldb/vim_signs.py:41-42 | `%d` of a natural number: at least one digit, all digits, a single digit exactly below 10, and no leading zero |
| Decimal.ParseFormat | python-vim-lldb/vim_signs.py:41-42 | reading the rendered numeral back gives the number |
| Decimal.FormatInjective | python-vim-lldb/vim_signs.py:41-42 | distinct numbers render to distinct numerals |
| VimSigns.SignName | python-vim-lldb/vim_signs.py:41 | the sign name `"sign%d"` of a definition number |
| VimSigns.HighlightName | python-vim-lldb/vim_signs.py:42 | the highlight name `"highlight%d"` that `define` files its cache entry under |
| VimSigns.DefineCommand | python-vim-lldb/vim_signs.py:43-44 | `sign define %s text=%s linehl=%s texthl=%s` built from the sign name, the sign text and the caller's highlight, used for both highlight fields |
| VimSigns.PlaceCommand | python-vim-lldb/vim_signs.py:53-54 | `sign place %d name=%s line=%d buffer=%s` built from the id, name, line number and buffer number |
| VimSigns.UnplaceCommand | python-vim-lldb/vim_signs.py:58 | `sign unplace %d` of the sign's id |
| VimSigns.Initial | python-vim-lldb/vim_signs.py:16-23 | the class attributes before any sign exists: `sign_id` 1, `name_id` 1, an empty cache, and no command sent |
| VimSigns.Inv | python-vim-lldb/vim_signs.py:16-47 | the bookkeeping invariant: both counters at least 1, one cache entry per definition made, entry n under (text, `highlight<n>`) naming `sign<n>`, no two entries sharing a highlight |
| VimSigns.DefineStep | python-vim-lldb/vim_signs.py:39-48 | `define` on the class state: append the define command with the caller's highlight, file `sign<N>` under (text, `highlight<N>`), add one to `name_id`, return `sign<N>` |
| VimSigns.ShowStep | python-vim-lldb/vim_signs.py:50-55 | `show` on the class state: the id is the current `sign_id`, which goes up by one, and one place command is appended |
| VimSigns.CreateStep | python-vim-lldb/vim_signs.py:25-37 | `__init__` on the class state: look up the caller's (text, highlight) pair, define on a miss, then show under the next id |
| VimSigns.HideStep | python-vim-lldb/vim_signs.py:57-59 | `hide` on the class state: append one unplace command for the id |
| VimSigns.BreakpointStyle | python-vim-lldb/vim_signs.py:65-66 | a breakpoint sign's text (`B>` resolved, `b>` otherwise) and its highlight `lldb_breakpoint` |
| VimSigns.PcStyle | python-vim-lldb/vim_signs.py:73-76 | a program-counter sign's text `->` and its highlight (`lldb_pc_active` for the selected thread, `lldb_pc_inactive` otherwise) |
| VimSigns.HighlightNameInjective | python-vim-lldb/vim_signs.py:42 | `highlight<a>` and `highlight<b>` are equal only when a = b |
| VimSigns.SignNameInjective | python-vim-lldb/vim_signs.py:41 | `sign<a>` and `sign<b>` are equal only when a = b, so every definition gets a new name |
| VimSigns.InitialInv | python-vim-lldb/vim_signs.py:16-23 | the initial state (both counters 1, empty cache) satisfies the bookkeeping invariant |
| VimSigns.InvIgnoresPlacements | python-vim-lldb/vim_signs.py:50-55 | changing the placement counter and the command list keeps the invariant |
| VimSigns.BuiltinHighlightsUnprefixed | python-vim-lldb/vim_signs.py:11-14 | none of `lldb_breakpoint`, `lldb_pc_active`, `lldb_pc_inactive`, `lldb_highlight` begins with `highlight` |
| VimSigns.CachedHighlightIsNumbered | python-vim-lldb/vim_signs.py:42-46 | every cache key's highlight is a generated `highlight<n>` |
| VimSigns.DefinedNamesDistinct | python-vim-lldb/vim_signs.py:41-47 | two cache entries with the same sign name are the same entry |
| VimSigns.NextDefinitionFresh | python-vim-lldb/vim_signs.py:41-47 | the next definition number's key and sign name are both unused in the cache |
| VimSigns.DefineStepFresh | python-vim-lldb/vim_signs.py:39-48 | define returns `sign<N>`, adds exactly the key (text, `highlight<N>`) with a name not yet in the cache, grows the cache by one and keeps every old entry |
| VimSigns.DefineStepKeepsInv | python-vim-lldb/vim_signs.py:39-48 | define preserves the invariant (cache size = definitions made, entry n under `highlight<n>` naming `sign<n>`, highlights unique) |
| VimSigns.CreateStepEffect | python-vim-lldb/vim_signs.py:25-37 | a construction places under the current id and advances it by one. On a cache hit it sends one place command and leaves the cache and counter alone. On a miss it sends define then place for a fresh `sign<N>` and grows the cache by one. The invariant is kept |
| VimSigns.HideStepEffect | python-vim-lldb/vim_signs.py:57-59 | hide appends one `sign unplace <id>` command and changes nothing else |
| VimSigns.UnnumberedHighlightAlwaysDefines | python-vim-lldb/vim_signs.py:30-46 | a highlight not beginning with `highlight` is never in the cache, so the construction sends a define then a place and consumes a definition number |
| VimSigns.RepeatedSignDefinesTwice | python-vim-lldb/vim_signs.py:25-48 | two constructions with the same text and an ordinary highlight send two definitions with distinct names and get consecutive ids |
| VimSigns.LiteralHighlightHitsCache | python-vim-lldb/vim_signs.py:30-46 | after a `B>` breakpoint sign, a `B>` sign with highlight `highlight1` reuses `sign1` and sends only a place command |
| VimSigns.ApplyEffect | python-vim-lldb/vim_signs.py:25-59 | one construction or hide keeps the invariant, hands out consecutive ids from the counter and only extends the cache and the command list |
| VimSigns.RunAllocatesFreshIds | python-vim-lldb/vim_signs.py:50-52 | over any sequence of constructions and hides, the placed ids are consecutive from the counter (so increasing and never reused). The counters never go back, cache entries are never changed or removed, the command list only grows, and the invariant holds |
| VimSigns.StylesDistinct | python-vim-lldb/vim_signs.py:62-76 | breakpoint signs use `lldb_breakpoint` and differ exactly in resolved-ness; program-counter signs use `->` and differ exactly in thread selection; no breakpoint style equals a program-counter style |
| VimSigns.BuiltinStylesAlwaysDefine | python-vim-lldb/vim_signs.py:62-76 | every breakpoint and program-counter sign sends its own define command before its place command |
| VimSigns.SignRegistry.constructor | python-vim-lldb/vim_signs.py:16-23 | the shared state starts with both counters at 1, an empty cache and no commands, and satisfies the invariant |
| VimSigns.VimSign.constructor | python-vim-lldb/vim_signs.py:25-37 | the shared state after construction is `CreateStep` of the state before; the sign's id is the id placed; `highlightName` is set exactly when the cache missed; the invariant is kept |
| VimSigns.VimSign.Breakpoint | python-vim-lldb/vim_signs.py:62-66 | a construction with `B>` or `b>` and `lldb_breakpoint`; it always defines, so `highlightName` is `highlight<N>` |
| VimSigns.VimSign.ProgramCounter | python-vim-lldb/vim_signs.py:69-76 | a construction with `->` and the active or inactive program-counter highlight; it always defines |
| VimSigns.VimSign.Initialize | python-vim-lldb/vim_signs.py:28-36 | look up the caller's pair, define on a miss, then show; the new state is `CreateStep` of the old |
| VimSigns.VimSign.Define | python-vim-lldb/vim_signs.py:39-48 | sends the define command with the caller's highlight, files `sign<N>` under (text, `highlight<N>`), sets `highlightName`, bumps `name_id`, leaves the sign's id alone; state is `DefineStep` of the old, invariant kept |
| VimSigns.SignRegistry.Define | python-vim-lldb/vim_signs.py:40-47 | the class-level part of define: one define command, the cache entry under (text, `highlight<N>`) and the counter step; state is `DefineStep` of the old, invariant kept |
| VimSigns.VimSign.Show | python-vim-lldb/vim_signs.py:50-55 | the sign's id becomes the current counter, the counter goes up by one and one place command is sent; the cache is untouched |
| VimSigns.VimSign.Hide | python-vim-lldb/vim_signs.py:57-59 | exactly one `sign unplace <id>` is appended; nothing else changes |
| Utility.IsFe | python-vim-lldb/utility.py:5 | the class `[@-Z\\-_]` after ESC in alternative 1: 0x40-0x5A and 0x5C-0x5F, so not `[` |
| Utility.IsC1 | python-vim-lldb/utility.py:5 | the class `[\x80-\x9A\x9C-\x9F]` of alternative 2, which leaves 0x9B out |
| Utility.IsParameter | python-vim-lldb/utility.py:5 | the CSI parameter class `[0-?]`, 0x30-0x3F |
| Utility.IsIntermediate | python-vim-lldb/utility.py:5 | the CSI intermediate class `[ -/]`, 0x20-0x2F |
| Utility.IsFinal | python-vim-lldb/utility.py:5 | the CSI final class `[@-~]`, 0x40-0x7E |
| Utility.IntroducerLength | python-vim-lldb/utility.py:5 | the length of the CSI introducer at the start: 2 for ESC `[`, 1 for 0x9B, 0 when there is none |
| Utility.IsCsiBody | python-vim-lldb/utility.py:5 | the bytes are, as a whole, parameters, then intermediates, then one final byte (`[0-?]*[ -/]*[@-~]`) |
| Utility.IsMatch | python-vim-lldb/utility.py:5 | the bytes are, as a whole, one of the pattern's three alternatives, with either CSI introducer |
| Utility.RunOf | python-vim-lldb/utility.py:5 | a greedy `[lo-hi]*`: every byte of the run is in range and the byte after it is not |
| Utility.CsiBodyLength | python-vim-lldb/utility.py:5 | a CSI body match, when there is one, ends with a final byte 0x40-0x7E |
| Utility.CsiBodyLengthIff | python-vim-lldb/utility.py:5 | the scanner measures a body of length n exactly when the first n bytes are parameters, then intermediates, then one final byte (`[0-?]*[ -/]*[@-~]`) |
| Utility.MatchLength | python-vim-lldb/utility.py:4-6 | a match starts with ESC or a byte in 0x80-0x9F, and a C1 byte other than 0x9B matches alone |
| Utility.MatchLengthSound | python-vim-lldb/utility.py:4-6 | a positive match length covers a prefix that one of the three alternatives accepts |
| Utility.MatchLengthComplete | python-vim-lldb/utility.py:4-6 | a prefix that one of the three alternatives accepts is the match the scanner finds, with that length |
| Utility.MatchLengthIff | python-vim-lldb/utility.py:4-6 | the match length is n > 0 exactly when the first n bytes are accepted by the pattern |
| Utility.NoMatchIff | python-vim-lldb/utility.py:4-6 | no match is found exactly when no non-empty prefix is accepted by the pattern |
| Utility.EscapeAnsi | python-vim-lldb/utility.py:8-9 | the filtered output is never longer than the input |
| Utility.EscapeAnsiIsSubsequence | python-vim-lldb/utility.py:8-9 | the output is the input with bytes deleted: nothing inserted, altered or reordered |
| Utility.EscapeAnsiUnchangedIff | python-vim-lldb/utility.py:8-9 | the input comes back unchanged if and only if the pattern matches at no position |
| Utility.EscapeAnsiKeepsPlain | python-vim-lldb/utility.py:5-9 | input with no ESC and no byte in 0x80-0x9F is returned as is |
| Utility.EscapeAnsiRemovesC1 | python-vim-lldb/utility.py:5-9 | no byte in 0x80-0x9A or 0x9C-0x9F survives in the output |
| Utility.EscapeAnsiDropsC1 | python-vim-lldb/utility.py:5 | alternative 2: a lone C1 byte is deleted |
| Utility.EscapeAnsiDropsFe | python-vim-lldb/utility.py:5 | alternative 1: ESC followed by an Fe byte is deleted as a unit |
| Utility.CsiBodyLengthExact | python-vim-lldb/utility.py:5 | parameters, intermediates and a final byte are measured exactly, whatever follows |
| Utility.MatchLengthCsi | python-vim-lldb/utility.py:5 | either introducer followed by a CSI body matches as introducer plus body |
| Utility.EscapeAnsiDropsCsi | python-vim-lldb/utility.py:5 | alternative 3: a complete CSI sequence with either introducer is deleted whole |
| Utility.MatchLengthAppend | python-vim-lldb/utility.py:5 | appending text that begins with a byte below 0x20 or from 0x7F does not change the match at the start |
| Utility.EscapeAnsiAppend | python-vim-lldb/utility.py:8-9 | filtering distributes over concatenation at such a byte (a line break, for example) |
| Utility.EscapeAnsiKeepsTrailingIntroducer | python-vim-lldb/utility.py:5-9 | an incomplete ESC `[` at the end of the input is kept |
| Utility.EscapeAnsiKeepsIncompleteCsi | python-vim-lldb/utility.py:5-9 | ESC `[` or 0x9B with parameter or intermediate bytes but no final byte, followed by the end or a byte below 0x20 or from 0x7F, is copied unchanged wherever it occurs, and the text around it is filtered independently |
| Utility.EscapeAnsiKeepsLoneCsi | python-vim-lldb/utility.py:5-9 | a 0x9B not followed by a CSI body is kept |
| Utility.EscapeAnsiPlainThenCsi | python-vim-lldb/utility.py:5-9 | plain text followed by a colour code gives back the text |
| Utility.EscapeAnsiColouredText | python-vim-lldb/utility.py:5-9 | plain text wrapped between two colour codes gives back the text |
| Utility.EscapeAnsiNotIdempotent | python-vim-lldb/utility.py:8-9 | ESC ESC `A` `B` filters to ESC `B`, which a second pass filters to nothing |

## Left out

- `vim.command` is not executed. The commands are collected in the
  registry's `log` in the order they would be sent, and the editor's
  reaction to them is not modelled.
- `VimSign.__init__` receives a buffer object and reads `buffer.number`. The
  model takes that number directly.
- Line numbers and buffer numbers are natural numbers. The line number is
  printed with `%d`, and the buffer number with `%s` (`vim_signs.py:53`).
  For an integer `%s` gives the same digits as `%d`, so both use `Format`.
  Negative numbers, which Python would also print, are not modelled. The
  callers, which are not part of this model, pass LLDB line numbers and Vim
  buffer numbers, and both are non-negative.
- `SIGN_HIGHLIGHT_COLOUR_PC` is declared in `vim_signs.py` but nothing uses
  it. Nothing defines the highlight groups themselves either.
- Python's class-level attributes are one `SignRegistry` object that every
  sign refers to. Nothing prevents a caller from creating a second registry,
  which Python's single class object rules out.
- `escape_ansi` calls `bytes(line)`, which coerces its argument. The model
  takes a byte sequence. Text and other argument types are not modelled.
- Python's regular-expression engine in general is not modelled. Only the
  one pattern of `utility.py` is encoded, as a scanner.
- `import_lldb.py`, the plugin entry points and the debugger controller are
  not part of this model.
