# Line-claiming parsers of go-evepraisal, modelled in Dafny

go-evepraisal appraises pasted EVE Online text. The paste is held as a
line buffer `Input`, a map from line index to line text. A series of
parsers each claim the lines they recognise. Each parser returns a
structured result and hands the unclaimed lines back. This project models
two of those parsers and proves what they promise.

- `ParseAssets` (parsers/assets.go) matches every line against the
  asset-list pattern `reAssetList`: a name, a tab, a quantity and up to
  eight optional tab-introduced columns (group, category, size, slot,
  volume, meta level, tech level, price estimate). A quantity that reads
  as 0 becomes 1. The items are sorted by their rendering. Unmatched lines
  are handed back.
- `ParseFitting` (parsers/fitting.go) deletes every line that is exactly
  one of eight section headers ("High power", ..., "Fuel"). It deletes
  them from the caller's buffer. If there was none, the paste is not a
  fitting. Otherwise the stripped buffer goes to the listing parser. Its
  items are re-sorted, and the header lines plus the lines the listing
  parser claimed are sorted into the fitting's lines.

Layout, one module per file:

- `wrappers.dfy`: `Option`.
- `sorting.dfy` (`Sorting`): Go's string order, and sorting by a key
  (`sort.Slice` with a less-than on `fmt.Sprintf("%v", …)`) and on
  integers (`sort.Ints`).
- `tab_columns.dfy` (`TabColumns`): splitting a line at its tabs, and its
  inverse.
- `asset_grammar.dfy` (`AssetGrammar`): `reAssetList` as a matcher over
  tab-separated columns.
- `line_buffer.dfy` (`LineBuffer`): the shared buffer `Input` (a class,
  because a Go map is a reference that parsers delete from), and
  `regexParseLines` / `regexMatchedLines`.
- `assets.dfy` (`Assets`): `AssetItem`, `AssetList`, `ParseAssets`.
- `fitting.dfy` (`FittingParser`): `fittingBlacklist`, `Fitting`,
  `ParseFitting`.

Go visits a map in an unspecified order. The model visits the buffer by
nondeterministic choice (`:|`), so every statement about claimed lines
holds for every visiting order. Match order is therefore only known up to
permutation. The properties that matter are stated on multisets. The sorted
line indices are proved independent of the visiting order. The sorted items
are proved to be the same items with, position by position, the same
rendering. `sort.Slice` is not stable, so two distinct items with the same
rendering may come out in either order. The item sequences are proved equal
only when the rendering tells distinct items apart.

The pattern's leftmost-first semantics is modelled as a search. Each
optional group is tried "present" before "absent". The first assignment
of groups to the remaining columns that accounts for all of them is the
match. No group can contain a tab, and each group starts with one. So
each group that takes part takes exactly one column, and its capture is
that column (minus the " m3" / " ISK" suffix).

The section headers are exactly the eight strings of `fittingBlacklist`
(parsers/fitting.go:22-31).

## Model

| member | source | states |
|---|---|---|
| Assets.AssetList.Name | parsers/assets.go:15-17 | the asset-list result is always named "assets" |
| Assets.AssetList.Lines | parsers/assets.go:19-21 | returns the claimed line indices; for a valid list there is one line per item and no line twice |
| Assets.QuantityOrOne | parsers/assets.go:54-57 | the stored quantity is never 0; a non-zero parsed quantity is kept and 0 becomes 1 |
| Assets.AssetItemOf | parsers/assets.go:59-71 | an item built from a matched row never has quantity 0 |
| Assets.AssetItemFromLine | parsers/assets.go:59-71 | for a matched line: a tab follows the name; the item's name is the cleaned text before the first tab; the row's quantity is the line's second tab-separated column; the item's quantity is non-zero and equals ToInt of that column when that is non-zero; size, slot, volume, meta, tech and price hold only values the pattern admits |
| Assets.ItemsByLine | parsers/assets.go:53-72 | the item of each matched line, keyed by exactly the matched line indices, none with quantity 0 |
| Assets.ParseAssets | parsers/assets.go:49-77 | fresh result and rest; one item per claimed line, no line twice, no zero quantity; the claimed lines are exactly the lines the pattern matches; the items are those lines' items in some order, sorted by rendering; the rest is the input minus the claimed lines; the input buffer is not modified |
| Assets.NonZeroQuantities | parsers/assets.go:54-57 | re-ordering (sorting) the items keeps every quantity non-zero |
| Assets.UntabbedLineStays | parsers/assets.go:37-38 | a line with no tab is never claimed and stays in the rest |
| Assets.AssetsOrderIndependent | parsers/assets.go:73-75 | two results over the same buffer, whatever order their lines were visited in, have the same items and, position by position, the same rendering; their item sequences are equal when the rendering tells distinct items apart |
| AssetGrammar.Capture | parsers/assets.go:39-46 | a capture taken from a column is admissible for its group (`GroupOk`, which holds each group's character class), and writing it back (with " m3" / " ISK") gives the column |
| AssetGrammar.CaptureColumn | parsers/assets.go:39-46 | every admissible capture is recovered from the column that carries it |
| AssetGrammar.Assign | parsers/assets.go:39-46 | the leftmost-first choice among the optional groups: a found assignment has one entry per remaining group, each capture admissible for its group; with AssignSound and AssignComplete, one is found exactly when some admissible assignment accounts for the columns; with AssignFirst, it is the first such assignment in the pattern's present-before-absent order |
| AssetGrammar.AssignFirst | parsers/assets.go:39-46 | for every admissible assignment of the columns, the search finds one that comes no later in the order the pattern tries them (`NoLaterThan`: at the first group where they differ, the found one takes part and the other does not) |
| AssetGrammar.MediumIsGroup | parsers/assets.go:39-42 | a column that group, size and slot all admit ("Medium") goes to the group, the first of them, and no later group takes part |
| AssetGrammar.ColumnNoTab | parsers/assets.go:39-46 | no optional column carrying an admissible capture holds a tab |
| AssetGrammar.AssignSound | parsers/assets.go:39-46 | an assignment found by the leftmost-first search accounts for exactly the given columns, each capture admissible |
| AssetGrammar.AssignComplete | parsers/assets.go:39-46 | if some admissible assignment accounts for the columns, the search finds one |
| AssetGrammar.PresentNoTab | parsers/assets.go:39-46 | the columns of an admissible assignment contain no tab |
| AssetGrammar.AssetRow.Captured | parsers/assets.go:63-70 | a group that took part reads as its capture, one that did not as the empty string, as Go's submatch does |
| AssetGrammar.MatchColumns | parsers/assets.go:36-47 | the pattern on pre-split columns: a match has at least two columns, the name and quantity are the first two, they lie in the name and quantity classes, and there are eight optional captures |
| AssetGrammar.MatchAssetLine | parsers/assets.go:36-47 | `reAssetList.FindStringSubmatch`: on a match the name is the text before the first tab, the quantity is the second column, and there are eight optional captures; with MatchSound and MatchComplete, a line matches exactly when it is a well-formed row written out with tabs |
| AssetGrammar.MatchColumnsSound | parsers/assets.go:36-47 | a match on split columns gives a well-formed row whose columns are the input columns |
| AssetGrammar.MatchSound | parsers/assets.go:36-47 | a matched line is a well-formed row written out with tabs; the name is the text before the first tab, and that tab exists |
| AssetGrammar.MatchComplete | parsers/assets.go:36-47 | every well-formed row, written out, is matched and read back with the same name, quantity and line |
| AssetGrammar.NoTabNoMatch | parsers/assets.go:37-38 | a line without a tab does not match |
| AssetGrammar.CapturedValues | parsers/assets.go:38-46 | size is XLarge, Large, Medium, Small or empty; slot is High, Medium, Low, Rigs or digits and spaces; meta and tech are digits; volume, price and quantity use only their character classes; group and category have no tab, newline, form feed or carriage return |
| TabColumns.TabIndex | parsers/assets.go:37-38 | the first tab's index (or the length), with no tab before it |
| TabColumns.Columns | parsers/assets.go:36-47 | at least one column, none with a tab, the first the text before the first tab |
| TabColumns.JoinColumns | parsers/assets.go:36-47 | joining a line's columns with tabs gives the line back |
| TabColumns.ColumnsJoin | parsers/assets.go:36-47 | splitting tab-free columns joined with tabs gives the columns back |
| TabColumns.SingleColumn | parsers/assets.go:37-38 | a line with no tab is one column |
| TabColumns.TabIndexAfter | parsers/assets.go:37-38 | the first tab of a tab-free column followed by a tab is that tab |
| LineBuffer.RegexParseLines | parsers/assets.go:51-52 | every match is a line of the buffer that the pattern accepts, with its capture; each accepted line is matched exactly once; the rest is the buffer minus the accepted lines, unchanged |
| LineBuffer.MatchedLines | parsers/assets.go:52 | `regexMatchedLines`: one line index per match, the k-th being the k-th match's line; RegexParseLines proves these are the accepted lines, each once |
| LineBuffer.ClaimsPartitionInput | parsers/assets.go:51-52 | claimed lines and rest are disjoint and together make up the buffer; a line is claimed exactly when the pattern accepts it |
| LineBuffer.ValuesAt | parsers/assets.go:52-72 | one value per line index read |
| LineBuffer.ValuesAtPermutation | parsers/assets.go:52-72 | reading the same line indices in another order gives the same values in another order |
| Sorting.BelowTotal | parsers/assets.go:73-75 | Go's string order (`Below`, byte-wise lexicographic `<=`) is total |
| Sorting.BelowTransitive | parsers/assets.go:73-75 | Go's string order is transitive |
| Sorting.BelowAntisymmetric | parsers/assets.go:73-75 | two strings each below the other are equal |
| Sorting.KeyOrderIsTotalPreorder | parsers/assets.go:73-75 | comparing renderings is a total preorder on items |
| Sorting.KeyOrderIsAntisymmetric | parsers/assets.go:73-75 | with a rendering that tells items apart, comparing renderings is antisymmetric |
| Sorting.StringOrderIsAntisymmetric | parsers/assets.go:73-75 | two strings each below the other in Go's order are equal |
| Sorting.BelowReflexive | parsers/assets.go:73-75 | every string is below itself in Go's order |
| Sorting.RenderedPermutation | parsers/assets.go:73-75 | rendering a permutation of the items gives a permutation of the renderings |
| Sorting.SortedRendered | parsers/assets.go:73-75 | items sorted by rendering have their renderings in ascending string order |
| Sorting.SortedSameKeys | parsers/assets.go:73-75 | two sorts by rendering of the same items have the same length and the same rendering at every position, with no condition on the rendering |
| Sorting.EqualRenderingsEitherOrder | parsers/assets.go:73-75 | two items with the same rendering are sorted in either order, so the sort leaves their relative order open |
| Sorting.SortedUnique | parsers/assets.go:73-75 | two sequences sorted by an antisymmetric order with the same elements are equal |
| Sorting.Insert | parsers/assets.go:73-75 | inserting into a sorted sequence keeps it sorted and adds exactly the element |
| Sorting.SortBy | parsers/assets.go:73-75 | the result is sorted and a permutation of the input |
| Sorting.SortByKey | parsers/assets.go:73-75 | the result is sorted by rendering and a permutation of the input |
| Sorting.SortInts | parsers/fitting.go:61 | the result is ascending and a permutation of the input |
| Sorting.IntOrderIsTotalPreorder | parsers/fitting.go:61 | integer order is a total preorder |
| Sorting.IntOrderIsAntisymmetric | parsers/fitting.go:61 | integer order is antisymmetric |
| FittingParser.Fitting.Name | parsers/fitting.go:14-16 | the fitting result is always named "fitting" |
| FittingParser.Fitting.Lines | parsers/fitting.go:18-20 | returns the claimed line indices |
| FittingParser.HeaderLines | parsers/fitting.go:22-42 | the `fittingBlacklist[line]` test: exactly the buffer's lines whose text is one of the eight headers |
| FittingParser.Stripped | parsers/fitting.go:38-45 | the buffer after the delete loop: its lines are the buffer's minus the header lines, each with its text unchanged and none a header |
| FittingParser.ParseFitting | parsers/fitting.go:33-63 | header lines (exact matches with the eight headers) are deleted from the caller's buffer; no header means no fitting, with the buffer untouched and handed back as the rest; a non-listing delegate result is the fatal defect; otherwise a fresh fitting whose items are the listing's items sorted by rendering, whose lines are the header lines plus the listing's lines sorted ascending, and whose rest is the listing's rest |
| FittingParser.FullScan | parsers/fitting.go:37-48 | after the header loop the buffer is stripped of exactly the header lines, each header index is recorded once, and none is recorded exactly when the buffer has no header |
| FittingParser.StrippedHasNoHeader | parsers/fitting.go:38-50 | the stripped buffer the listing parser gets holds no header, and stripping again changes nothing |
| FittingParser.HeaderNotAssetLine | parsers/fitting.go:22-31 | no header is an asset-list line |
| FittingParser.FittingClaimsPartition | parsers/fitting.go:42-56 | with a listing parser that keeps to its contract, the fitting's lines are each line claimed once (as header or by the listing), disjoint from the rest, and the rest holds no header |
| FittingParser.FittingOrderIndependent | parsers/fitting.go:58-61 | fittings built from the same headers and listing, in any visiting order, have the same lines and, position by position, items with the same rendering; the same items when the rendering tells items apart |

## Left out

- web/web.go and evepraisal/restore.go: HTTP, templates, the command line and the network are not part of this model.
- `ToFloat64`: volume and price estimate stay the decimal text of their columns; floating point is not modelled.
- `ToInt`, `CleanTypeName` and `ParseListing` are not shown in the source; they are parameters (`toInt`, `cleanTypeName`, `parseListing`). The listing item type is a type parameter.
- `fmt.Sprintf("%v", item)`: the rendering is the parameter `key`.
- Assets.AssetsOrderIndependent: equal item sequences are promised only for an injective rendering. `%v` is not injective: "A\t1\tx y\tz" and "A\t1\tx\ty z" give different items (group "x y" and category "z", against group "x" and category "y z") that render alike. The unstable `sort.Slice` over map-ordered input leaves the order of such items open (`Sorting.EqualRenderingsEitherOrder`). Without injectivity the lemma states the same items with the same rendering at each position.
- FittingParser.FittingOrderIndependent: the same limit holds for the fitting's items.
- `regexParseLines` and `regexMatchedLines` are not shown; `LineBuffer.RegexParseLines` is the contract the shown code relies on, and it does not modify the buffer it reads.
- Go's regular-expression engine is replaced by the column matcher; the pattern is assumed to see the line without a trailing newline.
- `AssetItem.Quantity` is an unbounded integer; the int64 range of `ToInt` is not modelled.
- `sort.Slice` and `sort.Ints` are modelled by an insertion sort on sequences: the model states the result (sorted, a permutation) and not Go's in-place algorithm or the aliasing of the listing's item slice.
- FittingParser.ParseFitting: `parseListing` is a function of the buffer, so the model assumes the listing parser does not delete from the shared buffer itself; what it claims is stated only through `ListingObeys`.
- FittingParser.ParseFitting: in the `ListingDefect` case (Go's `log.Fatal`) nothing is stated about the rest, since the Go program ends there.
- FittingParser.ParseFitting: a listing result that is a nil `*Listing` (which would panic in Go) is not distinguished from other results.
