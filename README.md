# angular-m3u-parser: the playlist scanner and the record flattener

This project models the two pieces of logic in angular-m3u-parser and the
record types they build. It proves properties of them in Dafny.

- **`M3uService.parse`** (`m3u_service.dfy`) reads an extended M3U
  playlist. It trims the text and splits it on line feeds. For every line
  that starts with `#EXTINF`, it pushes an `M3UEntry` whose `src` is the
  next line exactly as written, or `undefined` when there is no next line.
  `#EXTINF` is the track-information tag of section 4.3.2.1 of RFC 8216. The
  `#EXTM3U` header (section 4.3.1.1 of RFC 8216) is compared against, but
  the comparison has an empty body, so nothing is checked and the scan
  never fails. The method `Parse` keeps the source's loop: `PushEntries`
  pushes onto the playlist's `entries` field. The loop is proved against
  the specification function `Scan`. `ExtinfIndices`, the list of the
  `#EXTINF` line numbers, is the independent reference it is compared to.
- **`TableNormalizer.toFlat`** (`table_normalizer.dfy`) is reached through
  `normalize`. It walks a value depth first in `Object.keys` order and
  descends into every member whose `typeof` is `"object"`: objects, arrays
  and `null`. Every other member `k: v` becomes a one-key fragment
  `{[k]: v}`. The fragments are merged left to right into a fresh `{}` by
  `Object.assign`. JavaScript values are the datatype `Value`. The walk is
  the mutually recursive `Flatten`, `FlattenMember`, `FlattenFields` and
  `FlattenElems`. The merge is the fold `Assign`. The ghost predicates
  `HasLeaf` and `WalkThrows` give the walk's result without the walk,
  and lemmas connect the two in both directions.
- **`M3U` and `M3UEntry`** (`models.dfy`) set a default first (empty
  `entries`, `src = ''`) and then copy a partial value over it.
  `M3U` is a class because the scanner pushes onto its `entries` field in
  place. `M3UEntry` is never changed after it is built, so it is a
  datatype, and `NewM3UEntry` is its constructor.
- **`JsStrings`** (`js_strings.dfy`) holds the string built-ins the scanner
  calls: `trim` with ECMAScript's full whitespace set, `split` on one
  character, and `startsWith`. `Join` is the partner of `Split`.

The model follows the code. The code has no header validation, no error
kinds, no duration or title parsing, no trimming of each line, no
dot-joined keys and no column inference, so the model has none of them.

## Model

| member | source | states |
|---|---|---|
| Models.NewM3UEntry | src/app/Models/Models.ts:13-18 | without a value, or with a value lacking `src`, the entry's `src` is `''`; with a value that has `src`, the entry takes it, including `undefined` |
| Models.M3U.constructor | src/app/Models/Models.ts:2-7 | without a value, or with a value lacking `entries`, `entries` is empty; otherwise it is the value's `entries` |
| JsStrings.TrimStart | src/app/Services/M3uService.ts:13 | the result is a suffix of the input, everything cut off is whitespace, and the result does not start with whitespace |
| JsStrings.TrimEnd | src/app/Services/M3uService.ts:13 | the result is a prefix of the input, everything cut off is whitespace, and the result does not end with whitespace |
| JsStrings.Trim | src/app/Services/M3uService.ts:13 | the result is a middle slice of the input with only whitespace cut off on either side, and it has no whitespace at either end |
| JsStrings.TrimOfTrimmed | src/app/Services/M3uService.ts:13 | trimming text with no whitespace at its ends leaves it unchanged |
| JsStrings.TrimEmptyIffAllWhitespace | src/app/Services/M3uService.ts:13 | the trimmed text is empty exactly when every character is whitespace |
| JsStrings.Split | src/app/Services/M3uService.ts:13 | there is at least one piece, and no piece contains the separator |
| JsStrings.JoinSplit | src/app/Services/M3uService.ts:13 | joining the pieces of a split with the separator restores the text |
| JsStrings.SplitPrepend | src/app/Services/M3uService.ts:13 | a separator-free prefix only extends the first piece of a split |
| JsStrings.SplitJoin | src/app/Services/M3uService.ts:13 | splitting the join of separator-free pieces gives the pieces back |
| JsStrings.StartsWith | src/app/Services/M3uService.ts:20 | `line.startsWith(prefix)`: the line is at least as long as the prefix and begins with it; a prefix test only, so `#EXTINFX` matches `#EXTINF` (see PrefixMatchAndChainedTrackLines) |
| M3uService.Lines | src/app/Services/M3uService.ts:13 | `content.trim().split("\n")` has at least one line, and no line contains a line feed |
| M3uService.LinesRejoinToTrimmedText | src/app/Services/M3uService.ts:13 | joining the lines with line feeds gives back exactly the trimmed text |
| M3uService.LineAt | src/app/Services/M3uService.ts:21 | `lines[index + 1]`: the line at that index, or `undefined` past the last line; what the entries carry is stated by ScanMatchesIndices |
| M3uService.EntryFor | src/app/Services/M3uService.ts:21 | the entry pushed for the `#EXTINF` line at `i` has `src` equal to `lines[i + 1]`, or `undefined` when `i` is the last line |
| M3uService.Scan | src/app/Services/M3uService.ts:15-21 | the entries pushed while the loop visits the first `n` lines: at most one per line; their number, order and `src` values are stated by ScanMatchesIndices against ExtinfIndices |
| M3uService.ParsedEntries | src/app/Services/M3uService.ts:13-21 | the entries of `parse(content)`: the scan of all lines of `content.trim().split("\n")`; Parse's contract ties the method's result to it |
| M3uService.ExtinfIndices | src/app/Services/M3uService.ts:15-20 | the independent reference: the `#EXTINF` line indices below `n`, at most `n` of them; ExtinfIndicesAreTrackLines, ExtinfIndicesIncrease and ExtinfIndicesComplete state that they are exactly those lines, in order |
| M3uService.Parse | src/app/Services/M3uService.ts:10-29 | returns a fresh playlist for every input, with no failure path, whose entries are the scan of all lines of the trimmed, split text |
| M3uService.PushEntries | src/app/Services/M3uService.ts:15-26 | the loop appends to `entries` exactly the entries of the scan; the invariant ties `entries` to the scan of the lines visited so far |
| M3uService.ExtinfIndicesAreTrackLines | src/app/Services/M3uService.ts:20 | every listed index is in range, and its line starts with `#EXTINF` |
| M3uService.ExtinfIndicesIncrease | src/app/Services/M3uService.ts:15-20 | the listed indices strictly increase, so the order is line order |
| M3uService.ExtinfIndicesComplete | src/app/Services/M3uService.ts:15-20 | every line that starts with `#EXTINF` is listed |
| M3uService.ScanMatchesIndices | src/app/Services/M3uService.ts:15-25 | there are as many entries as `#EXTINF` lines, and the k-th entry's `src` is the line after the k-th `#EXTINF` line, or `undefined` past the end; with ExtinfIndicesAreTrackLines, every entry comes from an `#EXTINF` line, so `#EXTM3U`, `#EXTALB`, `#EXTART`, URLs and blank lines never push |
| M3uService.NoEntriesIffNoExtinfLine | src/app/Services/M3uService.ts:20-25 | the scan pushes nothing exactly when no line starts with `#EXTINF`, in both directions (that a single non-`#EXTINF` line never pushes follows from ScanMatchesIndices with ExtinfIndicesAreTrackLines: every entry belongs to an `#EXTINF` line) |
| M3uService.AdjacentExtinfIndices | src/app/Services/M3uService.ts:15-20 | two `#EXTINF` lines in a row have neighbouring positions in the index list |
| M3uService.ConsecutiveExtinfLines | src/app/Services/M3uService.ts:20-21 | of two `#EXTINF` lines in a row at `i` and `i + 1`, the entry pushed for line `i` (entry k, with k-th index `i`) has `src` equal to line `i + 1`, and the entry pushed for line `i + 1` is entry k + 1 |
| M3uService.LastExtinfLineHasUndefinedSrc | src/app/Services/M3uService.ts:21 | when the last line starts with `#EXTINF`, the last entry's `src` is `undefined` |
| M3uService.WhitespaceContentHasNoEntries | src/app/Services/M3uService.ts:13-21 | empty or whitespace-only text gives no entries, because `"".split("\n")` is `[""]` |
| M3uService.LinesOfJoin | src/app/Services/M3uService.ts:13 | already-trimmed text made of line-feed-free lines splits into exactly those lines |
| M3uService.TrimDropsFinalLineEnd | src/app/Services/M3uService.ts:13 | trimming removes the final CR LF of otherwise trimmed text, and nothing else; `"\r\n"` alone trims to `""` |
| M3uService.LinesOfJoinWithLineEnd | src/app/Services/M3uService.ts:13 | such text followed by a CR LF splits into the same lines |
| M3uService.MissingHeaderIsAccepted | src/app/Services/M3uService.ts:16-21 | a playlist without `#EXTM3U` still yields its entry, because there is no header check |
| M3uService.TruncatedEntryHasUndefinedSrc | src/app/Services/M3uService.ts:20-21 | a final `#EXTINF` line yields one entry with `src` `undefined`, and no error |
| M3uService.CarriageReturnsSurviveInSrc | src/app/Services/M3uService.ts:13-21 | with CR LF line ends, each `src` keeps its `"\r"`, except the last, whose CR LF the whole-text trim removes |
| M3uService.PrefixMatchAndChainedTrackLines | src/app/Services/M3uService.ts:20-21 | `#EXTINFX` counts as a track line, and the `#EXTINF` line after it is both its `src` and its own entry |
| TableNormalizer.Normalize | src/app/Services/TableNormalizer.ts:3-5 | `normalize` is `toFlat`: it throws exactly when the walk meets `null` or `undefined`; otherwise its keys are exactly the leaf names below the input, each holding that leaf's value |
| TableNormalizer.Denormalize | src/app/Services/TableNormalizer.ts:7-9 | the empty body: returns nothing (`undefined`, modelled as `()`) for every input |
| TableNormalizer.ToFlat | src/app/Services/TableNormalizer.ts:11-21 | the fragments of the walk merged into a fresh empty record, or the walk's exception; stated by ToFlatThrowsIff, ToFlatLeaves and ToFlatLastLeafWins |
| TableNormalizer.Flatten | src/app/Services/TableNormalizer.ts:14-19 | the inner `flatten`: `Object.keys` of `null` or `undefined` throws, a string lists one fragment per character, other primitives list nothing, objects and arrays walk their members; stated by FlattenThrowsIff and FlattenLeaves |
| TableNormalizer.FlattenMember | src/app/Services/TableNormalizer.ts:17 | the callback for member `k`: recurse when `typeof` is `"object"`, else the one fragment `{[k]: v}`; stated by MemberThrowsIff and MemberLeaves |
| TableNormalizer.FlattenFields | src/app/Services/TableNormalizer.ts:15-19 | an object's members in `Object.keys` order, joined with `concat`; stated by FieldsThrowIff, FieldsLeaves and FlattenFieldsAppend |
| TableNormalizer.FlattenElems | src/app/Services/TableNormalizer.ts:15-19 | an array's elements keyed by their indices, joined with `concat`; stated by ElemsThrowIff and ElemsLeaves |
| TableNormalizer.CharFragments | src/app/Services/TableNormalizer.ts:16-17 | `Object.keys` of a string lists its indices, and each member is that one character; stated by FlattenLeaves through HasLeaf |
| TableNormalizer.Concat | src/app/Services/TableNormalizer.ts:15 | `[].concat(...)` of two walk results: the first exception wins, else the fragments in order; stated by ConcatAssociative and FlattenFieldsAppend |
| TableNormalizer.IsObject | src/app/Services/TableNormalizer.ts:17 | `typeof v === "object"`: true of objects, arrays and `null`, false of every primitive |
| TableNormalizer.Assign | src/app/Services/TableNormalizer.ts:12-13 | `Object.assign(target, ...fragments)`: each fragment in turn overwrites its key; stated by AssignKeys, AssignUntouched, AssignLastWins and AssignValueFrom |
| TableNormalizer.IndexKey | src/app/Services/TableNormalizer.ts:16 | the key `Object.keys` gives array index `i` is the canonical decimal numeral of `i`: digits only, denoting `i`, with no leading zero |
| TableNormalizer.IndexKeyInjective | src/app/Services/TableNormalizer.ts:16 | different indices of one array get different keys |
| TableNormalizer.FlattenThrowsIff | src/app/Services/TableNormalizer.ts:14-19 | the walk throws exactly when it lists the keys of `null` or `undefined` |
| TableNormalizer.MemberThrowsIff | src/app/Services/TableNormalizer.ts:16-17 | a member's step throws exactly when the member is an object whose walk throws |
| TableNormalizer.FieldsThrowIff | src/app/Services/TableNormalizer.ts:15-19 | an object's walk throws exactly when one of its members' walks throws |
| TableNormalizer.ElemsThrowIff | src/app/Services/TableNormalizer.ts:15-19 | an array's walk throws exactly when one of its elements' walks throws |
| TableNormalizer.ToFlatThrowsIff | src/app/Services/TableNormalizer.ts:11-21 | `toFlat` throws exactly when the input is `null` or `undefined`, or holds a `null` anywhere below it; on every other input it returns a record |
| TableNormalizer.FlattenLeaves | src/app/Services/TableNormalizer.ts:14-19 | every fragment is a leaf below the input with its value unchanged, and every leaf is among the fragments |
| TableNormalizer.MemberLeaves | src/app/Services/TableNormalizer.ts:16-17 | the same, for one member's step |
| TableNormalizer.FieldsLeaves | src/app/Services/TableNormalizer.ts:15-19 | the same, for an object's members in order |
| TableNormalizer.ElemsLeaves | src/app/Services/TableNormalizer.ts:15-19 | the same, for an array's elements keyed by index |
| TableNormalizer.AssignKeys | src/app/Services/TableNormalizer.ts:12-13 | a key is in the merged record exactly when the target or some fragment has it |
| TableNormalizer.AssignUntouched | src/app/Services/TableNormalizer.ts:12-13 | a key that no fragment has keeps the target's value |
| TableNormalizer.AssignLastWins | src/app/Services/TableNormalizer.ts:12-13 | a key ends up with the value of the last fragment that has it |
| TableNormalizer.AssignValueFrom | src/app/Services/TableNormalizer.ts:12-13 | every merged value comes from the target or from a fragment with that key |
| TableNormalizer.ToFlatLeaves | src/app/Services/TableNormalizer.ts:11-21 | every key of the record is a leaf name or array index below the input, holding that leaf's value unchanged; every leaf name is a key; no path prefix is added |
| TableNormalizer.ToFlatLastLeafWins | src/app/Services/TableNormalizer.ts:11-21 | each key holds the value of the last leaf with that name in depth-first `Object.keys` order |
| TableNormalizer.FlattenLeafFields | src/app/Services/TableNormalizer.ts:16-17 | an object whose members are all leaves flattens to one fragment per member, in order |
| TableNormalizer.ToFlatOfFlatRecord | src/app/Services/TableNormalizer.ts:11-21 | flattening a flat record (leaf members, distinct names) returns exactly its own keys and values |
| TableNormalizer.ReflattenIsNoOp | src/app/Services/TableNormalizer.ts:11-21 | flattening the result of `toFlat` again, written out as an object, returns the same record |
| TableNormalizer.ConcatAssociative | src/app/Services/TableNormalizer.ts:15-19 | joining walk results is associative, and an exception propagates the same way |
| TableNormalizer.FlattenFieldsAppend | src/app/Services/TableNormalizer.ts:15-19 | the members of `a + b` flatten to those of `a` followed by those of `b` |
| TableNormalizer.EmptyContainerAddsNothing | src/app/Services/TableNormalizer.ts:15-17 | a member holding an empty object or empty array adds no fragment |
| TableNormalizer.NestedKeysAreNotDotted | src/app/Services/TableNormalizer.ts:17 | `{title, meta: {album, year}}` flattens to the keys `title`, `album` and `year`, with no `meta.` prefix |
| TableNormalizer.NestedLeafOverwritesEarlierOne | src/app/Services/TableNormalizer.ts:12-21 | a nested `id` overwrites an earlier top-level `id` |
| TableNormalizer.ArrayIndicesBecomeKeys | src/app/Services/TableNormalizer.ts:16-17 | array elements are keyed `"0"`, `"1"`, and so on |
| TableNormalizer.NullMemberThrows | src/app/Services/TableNormalizer.ts:16-17 | a `null` member makes `toFlat` throw `TypeError` |

## Left out

- The Angular view (`data-table-view.component.ts`), the application
  component and the module wiring are not part of this model. They are UI,
  file reading and dependency injection.
- `app.component.ts` calls `M3uService.parse2` and `setDataSource`. Neither
  exists in the code, so neither is modelled.
- The `#EXTM3U` comparison in `parse` has an empty body. It is left out of
  the loop because it has no effect.
- `EXTM3U`, `EXTALB` and `EXTART` are declared as constants but play no part
  in the scan.
- Parse: `new M3U()` and the array it holds are one fresh object. The model
  does not track the identity of the `entries` array: `M3U.entries` is a
  `seq` value.
- Models.M3U.constructor: `Object.assign` makes the playlist share the
  partial value's `entries` array. The model copies the sequence, so later
  pushes are not seen through the other reference.
- Models.M3U.constructor: a partial value with `entries: undefined` would
  set `entries` to `undefined`. `PartialM3U` cannot express that, because
  `entries` is never `undefined` in the scanner.
- Models: `Object.assign` also copies keys that are not fields of the
  class. Partial values are modelled with the class's own fields only.
- TableNormalizer: numbers are unbounded integers. Floating point, `NaN`
  and `-0` are not modelled.
- TableNormalizer: functions and symbols (`typeof` `"function"`,
  `"symbol"`) are not among the `Value`s. Every modelled leaf is a string,
  number, boolean or nested `undefined`.
- TableNormalizer: `Object.keys` puts integer-like keys first. The model
  takes each object's member list to already be in `Object.keys` order.
  Duplicate member names in that list are not excluded.
- TableNormalizer: the merged record is a `map`. The insertion order of its
  keys and the special `__proto__` key are not modelled.
- TableNormalizer.ToFlatThrowsIff: a `Value` is a finite tree, so the
  lemma covers acyclic input only. On a cyclic object, `flatten` recurses
  without end and JavaScript throws a `RangeError`; that is not modelled.
- TableNormalizer: `Object.keys` skips the holes of a sparse array. `Arr`
  holds a value at every index, so holes cannot be written.
- TableNormalizer: own non-index properties of arrays, and engine limits on
  the number of arguments to `concat` or `Object.assign`, are not modelled.
- TableNormalizer: the input is never mutated. Values are immutable in the
  model, so this holds by construction and is not a separate lemma.
- TableNormalizer.Normalize: the TypeScript signature says `void`, but the
  function returns the record. The model returns the record.
- JavaScript strings are sequences of UTF-16 code units, while a Dafny
  `char` is a Unicode scalar value. Lone surrogates therefore cannot be
  written in the model.
- TableNormalizer.CharFragments: for a top-level string, JavaScript lists
  one key per UTF-16 code unit. A character outside the Basic Multilingual
  Plane is two code units: `normalize("😀")` gives the keys `"0"` and `"1"`,
  each holding half a surrogate pair. The model gives the single key `"0"`
  holding the whole character. The scanner is unaffected: the whitespace
  it trims, the line feed it splits on and the `#EXTINF` prefix are all
  single code units.
