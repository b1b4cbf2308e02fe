# clog core, modelled in Dafny

clog runs a command and tails its standard output in a terminal view. Every line the
command prints goes through the same steps:

- it is appended to one byte buffer, and recorded as a `line` (start and end offset in that buffer);
- it is parsed into `key=value` fields, by the text tokenizer or by a JSON parser; the parser is
  chosen from the first byte of the first message;
- each field is indexed. For each key the index keeps a `node`: its `leaf`s sorted by value, and
  under each leaf the lines that carried that value.

The index is queried by `Find`, which intersects the line lists of several fields, and summarised
by `Stats`. The view shows a ten-line window, following the tail or scrolled by the user. It also
truncates lines that are wider than the terminal.

The model has five modules, one per source file plus one for the byte order:

- `ByteOrder` (`byte_order.dfy`): bytes, and the order of Go's `bytes.Compare` / `strings.Compare`,
  proved to be a strict total order.
- `Types` (`types.dfy`): `line`, `field`, `leaf`; the binary searches over leaves and lines; the
  slice insertion `leafs.insertAt`. The class `Node` holds the sorted leaves and the cached count.
  They are specified by the functions `Position` (the sorted insertion point) and `Upsert`
  (find-or-insert).
- `Indexer` (`indexer.dfy`): the class `MapIndexer` (`keys`: one `Node` per key). `Index` is
  specified by `IndexSpec`. `Find` is specified by `FindSpec`: the lines of the first field that
  every other field also carries. `Stats` comes with its ordering comparator. The multi-field
  loop of `Find` as the source writes it is modelled too, under `FindAsWritten`, over candidate
  lists gathered without inserting.
- `Handlers` (`handlers.dfy`): `textHandler` as a loop, proved equal to an independent reference
  tokenizer (`TextFields`). Also `defineParseStrategy`. `jsonHandler` is a parameter.
- `Session` (`session.dfy`): the scroll state machine of `UIController`; the message `ReadCmd`
  delivers; the class `State`, holding buffer, line table, parser, index and view. On `State`:
  the `[]byte` branch of `Update` (`Ingest`), the key and resize branches, and the window,
  footer and `printLines` rendering of `View`.

`State` keeps an invariant, `Valid`, through every step:

- the recorded lines tile the buffer exactly;
- the counters match the buffer and the line table;
- the index is well formed, holds only session lines, and keeps every leaf's lines ordered by
  start offset (which the lines binary search needs);
- the scroll position stays in the range `View` can slice.

## Model

| member | source | states |
|---|---|---|
| ByteOrder.Compare | types.go:97-99 | bytes.Compare: the result is -1, 0 or 1, and 0 exactly when the strings are equal |
| ByteOrder.LessIsStrictTotalOrder | types.go:97-99 | the leaf order (Compare == -1) is irreflexive, asymmetric, transitive and total on distinct values |
| ByteOrder.CompareAntisymmetric | types.go:97-99 | swapping the operands negates the comparison |
| ByteOrder.LessTransitive | types.go:97-99 | the leaf order is transitive |
| ByteOrder.PrefixIsLess | types.go:97-99 | a proper prefix sorts before the longer value |
| Types.StrictlySortedByLeafsLess | types.go:97-99 | a leaf slice is strictly sorted exactly when leafs.Less(i, j) holds for every i < j |
| Types.LeafsBinarySearch | types.go:113-151 | on sorted leaves: returns the insertion point (all before it smaller, all after it larger); a leaf is returned exactly when the value is at that index, and a miss means the value is nowhere in the slice |
| Types.Settle | types.go:140-149 | the final low/high step of the leaf search keeps the same result properties |
| Types.LinesBinarySearch | types.go:153-191 | on lines ordered by startOffset: a hit is a line starting at the value; a miss gives an index with every earlier line starting before and every later line after; on strictly ordered lines the index is LinesPosition |
| Types.LinesSearch | types.go:153-191 | the search loop itself, with the hit and miss facts above |
| Types.LinesPosition | types.go:153-191 | the insertion point of an offset: every earlier line starts before it, the line at it does not |
| Types.LinesPositionCharacterized | types.go:153-191 | any index with the insertion-point property is LinesPosition |
| Types.LeafsInsertAt | types.go:102-109 | the result is one longer and holds value at index, with the prefix before it and the old tail shifted one place right |
| Types.Position | types.go:113-151 | the sorted insertion point of a value: all leaves before it are smaller, the one at it is not |
| Types.PositionCharacterized | types.go:113-151 | any index with the insertion-point property is Position |
| Types.Upsert | types.go:81-87 | find-or-create keeps the value's position and leaves a leaf for the value there |
| Types.UpsertAbsent | types.go:81-87 | a missing value gets a new empty leaf inserted at its insertion point |
| Types.UpsertExisting | types.go:81-87 | a present value is found at its own index and nothing changes |
| Types.UpsertNew | types.go:81-87 | a missing value adds exactly one leaf, empty, at the insertion point |
| Types.UpsertSorted | types.go:81-87 | find-or-create keeps the leaves strictly sorted by value |
| Types.UpsertIdempotent | types.go:81-87 | a second find-or-create of the same value changes nothing; the slice grows by at most one |
| Types.AddLine | indexer.go:32-33 | after one Index step the value's leaf sits where a search looks for it, and its last line is the new one |
| Types.LeafFor | types.go:81-87 | a lookup that returns a leaf holds the value; none means no leaf has it |
| Types.LeafForAt | types.go:113-151 | on sorted leaves, the lookup finds the leaf at the value's index |
| Types.LeafForAbsent | types.go:113-151 | on sorted leaves, a value missing at its insertion point is not found |
| Types.Node.constructor | indexer.go:26-28 | a new node is empty and valid |
| Types.Node.InsertAt | types.go:68-79 | node.insertAt inserts an empty leaf for value at index, increments len, and returns that leaf |
| Types.Node.FindOrCreateLeaf | types.go:81-87 | the node becomes Upsert of its leaves, stays sorted with len in step, and the returned leaf (at the value's position) holds the value |
| Types.Node.AppendLine | indexer.go:32-33 | find-or-create the leaf, then append the line to its lines; the node stays valid |
| Types.Node.FindLeaf | indexer.go:47 | a lookup that changes nothing returns LeafFor |
| Indexer.IndexSpecPrefix | indexer.go:21-36 | Index over one more field is one more field step |
| Indexer.MapIndexer.constructor | state.go:217-219 | a new indexer has no keys |
| Indexer.MapIndexer.Index | indexer.go:21-36 | the index becomes IndexSpec of the old one: for each field, left to right, the line is appended to the leaf of its value under its key, creating node and leaf when missing |
| Indexer.MapIndexer.AddFieldStep | indexer.go:22-35 | one loop iteration: only the field's key changes, to AddLine of its leaves |
| Indexer.MapIndexer.NodeFor | indexer.go:23-31 | the node of a key, or a fresh empty one, owned by no other key |
| Indexer.AddLineShape | indexer.go:32-33 | appending a line changes only the value's leaf, which ends with that line; every other leaf stays in its slot, and a new leaf is inserted at the value's position |
| Indexer.AddLineShapeExisting | indexer.go:32-33 | when the value has a leaf, the result is the slice with only that slot replaced, by the leaf with the line appended |
| Indexer.AddLineShapeNew | types.go:81-87 | when the value has no leaf, the result is the slice with a leaf holding just the line inserted at the value's position |
| Indexer.AddLineKeepsOther | indexer.go:32-33 | adding a line for another value keeps a leaf intact and where a search looks for it |
| Indexer.IndexMarksEveryField | indexer.go:21-36 | after Index, every field's leaf exists, is where the search finds it, and ends with the new line |
| Indexer.IndexTouchesOnlyNamedKeys | indexer.go:21-36 | Index adds exactly the fields' keys and leaves every other key unchanged; no fields means no change |
| Indexer.IndexExtends | indexer.go:21-36 | Index keeps every node sorted and keeps every old leaf with its old lines as a prefix |
| Indexer.AddFieldExtends | indexer.go:22-35 | one field step keeps nodes sorted and extends every old leaf |
| Indexer.AddLineExtends | indexer.go:32-33 | appending a line keeps the leaves sorted and every old leaf findable with its old lines as a prefix |
| Indexer.IndexKeepsLinesAscending | indexer.go:21-36 | when no indexed line starts after the new one, every leaf's lines stay ordered by startOffset (non-strictly) |
| Indexer.IndexStaysIn | indexer.go:21-36 | if the new line is a session line, the index still holds session lines only |
| Indexer.IndexAddsOnlyItsLine | indexer.go:21-36 | Index stores no line other than the one it is given |
| Indexer.IndexLineCount | indexer.go:21-36 | Index adds to a key's line count exactly the number of fields with that key |
| Indexer.Candidates | indexer.go:40-49 | one candidate list per queried field, each the lines of that field's leaf |
| Indexer.KeepMembers | indexer.go:56-70 | a line is kept exactly when every later list has a line with its startOffset |
| Indexer.KeepSubsequence | indexer.go:56-70 | the kept lines are a subsequence of the first list |
| Indexer.KeepAll | indexer.go:56-70 | when every line qualifies, the first list comes back unchanged |
| Indexer.FindCharacterized | indexer.go:38-72 | both directions: a line is found exactly when all keys are known, it is in the first field's list and every field has a line with its startOffset; the result keeps the first list's order |
| Indexer.FindMissingKey | indexer.go:44-45 | a query naming an unknown key finds nothing |
| Indexer.FindSingleField | indexer.go:51-53 | a one-field query returns that value's leaf lines in stored order, or nothing |
| Indexer.MapIndexer.Find | indexer.go:39-72 | Find returns FindSpec of the index and changes nothing; an unknown key gives the empty result |
| Indexer.GatheredStep | indexer.go:42-49 | collecting one more field's lines extends the candidate lists |
| Indexer.GatheredAll | indexer.go:42-49 | once every field is collected, all keys are known and the lists are the candidates, each ordered |
| Indexer.InAllSearch | indexer.go:59-65 | the binary-search probe says whether every later list holds a line with the offset |
| Indexer.IntersectLines | indexer.go:56-70 | the intersection loops return the intended intersection |
| Indexer.ProbeAsWritten | indexer.go:60-64 | as written: the found test always passes, the probed list loses one line and no other list changes, and the remove panics exactly when the insertion point is past the end |
| Indexer.ProbeRestAsWritten | indexer.go:58-65 | as written: each list from k on loses one line, earlier lists are kept, and the line counts as found whenever there is a later list |
| Indexer.ScanAsWritten | indexer.go:57-69 | as written: the lists come back as the probes left them (lists up to i kept, each later one shorter by one line per probe), and when a later list exists every remaining line of the row is appended to the result |
| Indexer.OuterAsWritten | indexer.go:56-70 | as written: each pass continues on the lists the earlier passes shortened; unless it panics, the result starts with resp followed by the whole list i |
| Indexer.FindAsWritten | indexer.go:39-72 | as written: an unknown key gives nothing, one field gives its lines, and with two fields or more, unless it panics, every line of the first field's list is returned, matched or not |
| Indexer.FindAsWrittenThreeFields | indexer.go:56-70 | as written, three lists [L1] give [L1]: the second pass ranges over the list the first pass emptied |
| Indexer.FindAsWrittenKeepsUnmatched | indexer.go:56-70 | as written, lists [L1, L2] and [L1, L3] yield [L1, L2], while the intersection is [L1] |
| Indexer.FindAsWrittenPanics | indexer.go:56-70 | as written, lists [L3] and [L1] panic, while the intersection is empty |
| Indexer.TotalLines | indexer.go:105-109 | no leaves, no lines |
| Indexer.CountLines | indexer.go:105-109 | the inner loop of Stats counts the lines over all leaves of a node |
| Indexer.StatsLess | indexer.go:117-127 | the sort.Slice comparator: an entry sorts first exactly when it has more lines, or as many and a smaller name |
| Indexer.StatsLessIsStrictTotalOrder | indexer.go:117-127 | the sort comparator means more lines first, then name order; on distinct names it is a strict total order |
| Indexer.SortedStatsUnique | indexer.go:117-127 | two sorted lists holding the same entries are equal, so the sorted result does not depend on map order |
| Indexer.SortedHeadsEqual | indexer.go:117-127 | sorted lists holding the same entries start with the same entry |
| Indexer.InsertStat | indexer.go:117-127 | inserting an entry keeps the list sorted and adds exactly that entry |
| Indexer.InsertFront | indexer.go:117-127 | an entry before the head can be put first |
| Indexer.InsertAfterHead | indexer.go:117-127 | an entry not before the head goes into the tail, and the list stays sorted |
| Indexer.SortStats | indexer.go:117-127 | sort.Slice gives a sorted permutation of the entries |
| Indexer.DistinctNamesSnoc | indexer.go:103-115 | adding an entry for a new key keeps names distinct |
| Indexer.EntriesOfSnoc | indexer.go:103-115 | adding the entry of a key keeps every entry correct |
| Indexer.CollectedStep | indexer.go:103-115 | visiting one more key adds its entry |
| Indexer.PermutedEntries | indexer.go:117-127 | sorting keeps the names and the entries |
| Indexer.MapIndexer.CollectStats | indexer.go:101-115 | one entry per key with distinct names, each with the key's line count and value count |
| Indexer.MapIndexer.Stats | indexer.go:101-129 | nodeCount is the number of keys; one entry per key with its total lines and value count; sorted by the comparator |
| Indexer.TotalLinesAppend | indexer.go:105-109 | line counts add up over concatenation |
| Indexer.TotalLinesSplit | indexer.go:105-109 | line counts add up over the pieces around a leaf |
| Indexer.AddLineCount | indexer.go:32-33 | appending a line adds exactly one line under the key |
| Indexer.UpsertCount | types.go:68-79 | a new leaf starts with no lines |
| Indexer.SortedPositions | types.go:113-151 | on sorted leaves each leaf is at its search position |
| Indexer.EndsWithPreserved | indexer.go:21-36 | a later field of the same line keeps an earlier field's leaf marked |
| Indexer.AddFieldEndsWith | indexer.go:32-33 | the field just added ends with the line |
| Handlers.TextHandler | handlers.go:19-45 | the loop returns TextFields, the reference tokenizer's result |
| Handlers.TextFieldsCount | handlers.go:27-35 | exactly one field per ' ' byte of the line |
| Handlers.TokensCount | handlers.go:27-35 | one token per space |
| Handlers.TextFieldsClean | handlers.go:19-45 | keys and values hold no space, keys hold no '=', and each is a contiguous piece of the line |
| Handlers.FieldOfSplit | handlers.go:36-41 | only the first '=' of a token splits; the key is the text before it and later '=' stay in the value |
| Handlers.FieldOfWord | handlers.go:28-29 | a token without '=' becomes the key and keeps the previous field's value |
| Handlers.FieldsOfAt | handlers.go:23-35 | field i comes from token i, with the value of field i - 1 carried in |
| Handlers.TextFieldsDropTail | handlers.go:25-44 | what follows the last space is never emitted |
| Handlers.NewlineTokenDropped | handlers.go:25-44 | a line ending in a token and '\n', as ReadCmd delivers it, never yields that last token |
| Handlers.TextFieldsExample | handlers.go:19-45 | "a=b=c d " gives a = "b=c", then d, which inherits "b=c" |
| Handlers.TokensExample | handlers.go:25-44 | "a=b=c d " has the tokens "a=b=c" and "d" |
| Handlers.FieldsExample | handlers.go:28-41 | those tokens give a = "b=c" and d = "b=c" |
| Handlers.ScanSpace | handlers.go:27-35 | a space emits the token's field and opens a new token |
| Handlers.ScanFirstEquals | handlers.go:36-41 | the first '=' ends the key |
| Handlers.ScanOther | handlers.go:25-43 | any other byte, or a later '=', only extends the token |
| Handlers.ScanDone | handlers.go:44 | at the end the pending token is dropped and the fields are TextFields |
| Handlers.TokensAppend | handlers.go:25-44 | splitting the line after a space splits its tokens |
| Handlers.TokensDropTail | handlers.go:25-44 | bytes after the last space add no token |
| Handlers.TokensArePieces | handlers.go:25-44 | every token is a space-free piece of the line |
| Handlers.DefineParseStrategy | handlers.go:47-54 | JSON exactly when the first byte is '{', text otherwise |
| Handlers.Parse | state.go:138 | the held handler is applied: jsonHandler (the parameter) or textHandler |
| Session.Scrolled | state.go:29-44 | from tail mode, up jumps to max(0, h - 12); any other move lands in 0..h - 10 or in tail mode (-1) |
| Session.ScrolledInRange | state.go:29-44 | every scroll lands where View can slice |
| Session.InRangeGrows | state.go:29-44 | a valid position stays valid as lines arrive |
| Session.UpFromTopIsTail | state.go:37-40 | scrolling up past the top goes back to tail mode |
| Session.DownPastEndIsTail | state.go:41-43 | scrolling down past the last window goes back to tail mode |
| Session.DownFromTailGoesToTop | state.go:37 | as written, down in tail mode (over at least a screen of lines) jumps to the first line |
| Session.UpDownUndo | state.go:37 | inside the range, up then down returns to the same position |
| Session.UIController.constructor | state.go:214-216 | sessions start in tail mode |
| Session.UIController.Scroll | state.go:29-44 | the position becomes Scrolled of the old one; the size is unchanged |
| Session.UIController.ScrollBottom | state.go:46-48 | back to tail mode, size unchanged |
| Session.NextMessage | state.go:64-77 | a read line gets its '\n' back; an error becomes "failed to read: ..."; end of input means no message; messages are never empty |
| Session.FailedReadParsesText | state.go:79-89 | a session whose first read fails parses text |
| Session.ContiguousBounds | state.go:141-146 | tiling lines lie inside the buffer |
| Session.ContiguousOrdered | state.go:141-146 | tiling lines do not overlap and strictly increase |
| Session.WindowInBuffer | state.go:107-113 | any window of the line table lies in the buffer |
| Session.IngestKeeps | state.go:133-148 | one message keeps the tiling, an ordered index below the buffer end, and an index made of session lines |
| Session.LinesBelowGrows | state.go:146 | the index bound only weakens as the buffer grows |
| Session.RenderLine | state.go:175-184 | one printed line is the line itself when it fits the width, else width + 2 bytes ending in '\n'; either way it starts with the line's first min(size, width + 1) bytes |
| Session.RenderShortLine | state.go:178-181 | a line no wider than the terminal is printed byte for byte |
| Session.RenderLongLine | state.go:178-184 | a wider line is cut to its first width + 1 bytes and closed with '\n' |
| Session.RenderFullWidthLine | state.go:178-184 | as written, a line of exactly width characters plus its '\n' counts as too wide and is printed whole with a second '\n' |
| Session.PrintLines | state.go:171-187 | the output is the rendering of each line in order |
| Session.Window | state.go:96-114 | the window lies in 0..lineCount; in tail mode it ends at lineCount, when scrolled it starts at scrollIndex |
| Session.WindowIsFull | state.go:96-114 | with a valid position the window always has min(10, lineCount) lines |
| Session.Footer | state.go:115-119 | the footer keeps start and lineCount and names at most a screen of lines, a full screen when there are enough lines |
| Session.FooterMatchesWindow | state.go:115-119 | the footer's numbers are exactly the window's start, its end and the line count |
| Session.State.constructor | state.go:79-93 | initClog then Init: empty buffer, lines and index, tail mode, parser chosen from the first message |
| Session.State.Ingest | state.go:133-149 | parse with the held handler, keep the fields, index them under the new line, record the line, append the bytes; invariant kept; parser, index and scroll position unchanged |
| Session.State.Store | state.go:139-148 | the bookkeeping of one message: buffer, line table, counters and index, as stated for Ingest |
| Session.State.HandleKey | state.go:152-165 | up and down scroll by one, esc returns to tail mode, quit reports quitting, other keys do nothing; width and height never change; invariant kept |
| Session.State.Resize | state.go:150-151 | width and height are set, scroll unchanged, invariant kept |
| Session.State.View | state.go:95-120 | the window lines are rendered as printLines does; the window has min(10, lineCount) lines; the footer names the window |

## Left out

- jsonHandler (handlers.go:7-17) calls into the fastjson library. That code is not part of this
  model, so the parser is a parameter `json` of `Parse` and `Ingest`, and nothing is proved about
  its output.
- Process and terminal I/O are outside the model: `exec.Command`, the pipe, `bufio.Reader`,
  `tea.Quit`, the `Init` command closure, `close`. `ReadCmd` is modelled only as the message it
  delivers (`NextMessage`), with the error text a parameter. The Bubble Tea event loop and its
  goroutines are omitted.
- The EOF branch of `Init`: it leaves the parser nil. The model's `State.constructor` takes the
  first message, so a session with no input at all is not modelled.
- The string form of keys (`"up"`, `"k"`, `"ctrl+c"`, ...): keys arrive as the `Key` datatype.
- `Format` methods, `renderStats`, `ByteCountSI` and the `fmt.Sprintf` text of the footer: only
  the three numbers of the footer are modelled. The main.go copies of these helpers are also left out.
- Slice capacities (`defaultValuesCapacity`, `defaultLinesCapacityPerValue`, buffer sizes) and the
  allocation-avoiding `append` tricks are left out. Go slice aliasing is modelled as value updates.
  This covers the global `out` buffer of printLines, the leaf pointer returned by
  `findOrCreateLeaf`, and the copy of `value` in `insertAt`.
- Go `int` overflow of offsets and counters: offsets are unbounded integers.
- Stats: `sort.Slice` is modelled as an insertion sort with the same comparator. Since the
  comparator is a strict total order on distinct names, every sorting algorithm gives the same
  result. Map iteration order is arbitrary in the model, as in Go.
- Indexer.IndexKeepsLinesAscending: leaf lines are stated non-decreasing, not strictly
  ascending. A line that repeats a field (`a=1 a=1 `) appends the same line twice to one leaf.
- Indexer.MapIndexer.Find: lookup-only. The source calls `findOrCreateLeaf` on the map's copy of
  the node. For a missing value it shifts the shared backing array in place (types.go:106) and
  inserts an empty leaf. The stored node keeps its old length. It then shows the new empty leaf and
  loses its last leaf from view. A later `Index` of that last value re-creates its leaf empty, and
  the lines it held are lost. The model uses a find that changes nothing. It requires every leaf's lines
  to be ordered, which `State.Valid` maintains.
- Indexer.FindAsWritten: candidates are gathered lookup-only, as for MapIndexer.Find, where the
  source calls `findOrCreateLeaf` (indexer.go:47). The two differ only for a query that repeats a
  key with a missing value.
- Indexer.MapIndexer.Find: models the evidently intended intersection. The as-written loop is
  `FindAsWritten`; see Findings.
- Session.State.Ingest: uses the function `Parsed` in place of a call to the `Parse` method, with the same result.
- Session.State.Store: does the bookkeeping before `Index`, where Update indexes first. The
  indexer reads none of the session's fields, so the final state is the same.
- Session.State.Resize: requires a non-negative width, as terminal sizes are. With width -1
  printLines prints an empty slice and '\n' for each line. With width -2 or less `end` falls below
  `startOffset` and the slice expression panics. Negative widths are not modelled. The height is not constrained: nothing reads it.
- Indexer.ProbeAsWritten: takes the first slot holding the offset. With repeated offsets the source's
  search may cut out another slot holding the same offset. In a session such slots hold the same line,
  since a line that repeats a field is indexed twice.
- Handlers.DefineParseStrategy: requires a non-empty line, since the source reads `line[0]`.
  Every message ReadCmd delivers is non-empty (`NextMessage`).
- Session.State.Ingest: requires a non-empty message for the same reason. An empty line would
  break the tiling invariant, and no message is ever empty.

## Findings

| source | as written | input that shows it | evidently intended | confidence | as-written member | corrected member |
|---|---|---|---|---|---|---|
| indexer.go:56-70 | The found test `foundIndex > -1` always holds, because `lines.binarySearch` returns an insertion point and never -1. So the line at the insertion point is removed and counted as a match, whatever it is, and the slice expression panics when that point is past the end. | Lists [L1, L2] and [L1, L3] (two fields sharing only L1) give [L1, L2] (Indexer.FindAsWrittenKeepsUnmatched). Lists [L3] and [L1] panic (Indexer.FindAsWrittenPanics). In general, unless it panics, every line of the first field's list is returned (Indexer.FindAsWritten). | Return the lines of the first field that every other field also carries (the comment on Find, indexer.go:38). | not executed | Indexer.FindAsWritten | Indexer.MapIndexer.Find |
