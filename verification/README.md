# Verified models of openGauss contrib modules

A Dafny 4.11 project that models the most intricate logic of five `contrib` modules of openGauss and proves what
that logic is for. `dafny verify dfyconfig.toml` checks everything.

| part | modules | main results |
|---|---|---|
| weighted edit distance (`fuzzystrmatch`) | `EditDistance`, `Band`, `Multibyte`, `Levenshtein` | the plain two-row program returns the least total cost of any sequence of single-character edits; the bounded program, which fills only a moving band of columns, is exact up to the bound and above it beyond; both work on bytes and agree with the distance of the decoded characters; the distance is zero on equal strings and obeys the triangle inequality |
| variable-length GiST keys (`btree_gist`, bytea) | `VarKey`, `VarKeySearch`, `VarKeySplit`, `VarKeyRows`, `VarKeyBuffer` | a search through a tree of repeatedly truncated keys returns exactly the matching rows; stored buffers read back what was written; the covering promise of a key is exact, being what its possible histories can hold; splitting an internal page can lose a row: over all histories of the entries, a half loses no row if and only if its lower bound is a prefix of its upper bound or no entry escapes the kept upper bound, and only the half with the shorter common prefix can fail |
| boxes (`cube`) | `Cube`, `CubePoints`, `CubeDistance`, `CubeOrder`, `CubeSearch`, `CubeSplit` | searches are exact for boxes of mixed dimension; "contained by" needs a condition on the query, necessary and sufficient for scans of all trees over the rows; the distance is the least distance between points; the comparison is an order exactly among boxes of one dimension, with or without zero-dimensional ones; every operation is described by the points of the boxes; Guttman's split partitions the page, with first-worst seeds, least bounding boxes, and each entry where it adds less volume |
| fixed-size GiST keys (`btree_gist`, integers) | `NumKey` | searches are exact; the distance of a page is the least distance of any point within its bounds; it never shrinks on the way down, for all queries, exactly when keys are nested |
| shippable expressions (`gauss_connector`) | `CollationWalker`, `CollationContext`, `CollationOrder`, `CollationComplete`, `RemoteParams` | every collation a shipped expression depends on comes from a foreign column through nodes that carry it; exactly which expressions are shipped, said without the walker's contexts; the verdict does not depend on argument order at any depth; remote parameter numbers denote and identify their nodes over a whole run through any expressions; the columns and parameters printed are exactly those that show in the expression, in order; whatever is shipped can be printed |
| SQL names (`gms_assert`) | `SqlNames`, `SqlSplit`, `SqlOverrun` | in-place splitting inverts joining if and only if each name alone is read back; the splitter searches past the end of its buffer if and only if it meets a doubled quote at the very end of the text, which accepted names can cause, and for lists of names exactly when; quoting is well formed and idempotent |

`GistTree` holds the index trees and scans that the three kinds of keys share, with the exact condition for a scan to
miss nothing; `PageOffsets` the offsets of a page and their halves; `Strategies` the operator numbers; `Integers` minimum
and maximum; `Wrappers` the option and result types.

Conventions. Integers are unbounded and coordinates are reals. Calls into code outside these files are parameters:
`pg_mblen` is the function in `Multibyte.Encoding`, the delivered order of `qsort` is the `order` argument of the
split operations, catalog shippability is the function in `CollationWalker.Glob`, capitalisation is an argument of
`SqlNames.EnquoteName`. Errors raised by the server are constructors of result types. Operations that the source
carries out by updating buffers, rows or contexts are methods over arrays or classes, each proved equal to a function
or relation on values about which the theorems are then stated.

Code and documentation disagree in three places, and the model follows the code: the error message of
`contrib/fuzzystrmatch/levenshtein.cpp` speaks of a limit in bytes while the check counts characters (lines 121-124);
the union method for boxes, described as returning the bounding box of all entries, returns no box for a single entry
(`CubeSearch.GCubeUnion`); the comparison of boxes, which `contrib/cube/cube--1.0.sql` declares the order of B-tree
indexes (lines 83-88 and 303-309), is not transitive across dimensions (`CubeOrder.TransitiveIff`).

## Model

| member | source | states |
|---|---|---|
| EditDistance.DistanceIsMinimalScriptCost | contrib/fuzzystrmatch/levenshtein.cpp:32-47 | some sequence of insertions, deletions and substitutions at arbitrary positions turns s into t at cost exactly the last matrix cell, and no sequence is cheaper |
| EditDistance.DistanceTriangle | contrib/fuzzystrmatch/levenshtein.cpp:282-299 | triangle inequality over any three strings, for all costs |
| EditDistance.DistanceSymmetric | contrib/fuzzystrmatch/levenshtein.cpp:112-115 | swapping the strings and the insertion and deletion costs leaves the distance unchanged |
| EditDistance.DistanceZeroIff | contrib/fuzzystrmatch/levenshtein.cpp:32-47 | equal strings are at distance zero, and with positive costs no others are |
| EditDistance.ClampingIsSafe | contrib/fuzzystrmatch/levenshtein.cpp:145-146 | lowering the substitution cost to insertion plus deletion changes no cell |
| EditDistance.CellAtLeastLengthCost | contrib/fuzzystrmatch/levenshtein.cpp:138-144 | the theoretical minimum is a lower bound of every cell |
| EditDistance.CellAtMostTheoreticalMax | contrib/fuzzystrmatch/levenshtein.cpp:147-149 | the theoretical maximum is an upper bound, so dropping a larger bound is safe |
| Band.StandsStep | contrib/fuzzystrmatch/levenshtein.cpp:288-294 | from neighbours that are each exact or hopeless, the minimum of the three is exact or hopeless |
| Band.DeadLeftDown | contrib/fuzzystrmatch/levenshtein.cpp:346-356 | columns left of the band never matter again in the next row |
| Band.DeadRightDown | contrib/fuzzystrmatch/levenshtein.cpp:215-225 | the right border needs to move by one column per row at most |
| Band.DeadRow | contrib/fuzzystrmatch/levenshtein.cpp:358-360 | a row without live cells means the distance exceeds the bound |
| Band.FirstStopColumn | contrib/fuzzystrmatch/levenshtein.cpp:150-169 | every column of row 0 from the computed stop column on has value plus residual above the bound |
| Levenshtein.NextRow | contrib/fuzzystrmatch/levenshtein.cpp:214-299 | widening by one column and filling keeps the whole band invariant from row j - 1 to row j |
| Levenshtein.SlideStop | contrib/fuzzystrmatch/levenshtein.cpp:329-337 | the stop column moves left only past dead columns and stops at a live one inside the band, or at zero |
| Levenshtein.SlideStart | contrib/fuzzystrmatch/levenshtein.cpp:339-356 | the start column moves right only past dead columns, leaves sentinels in both rows, and keeps the source cursor on its character |
| Levenshtein.FinalColumnIsFresh | contrib/fuzzystrmatch/levenshtein.cpp:365-369 | after the last row the band still includes the last column, so the returned cell is not stale |
| Levenshtein.PlanBand | contrib/fuzzystrmatch/levenshtein.cpp:126-170 | giving up at once is right only above the bound; otherwise distance, bound and first stop column stay sound after clamping and dropping |
| Levenshtein.BandedRows | contrib/fuzzystrmatch/levenshtein.cpp:205-369 | the banded loop with its swaps and early exit answers exactly up to the bound and above it beyond |
| Levenshtein.PlainRows | contrib/fuzzystrmatch/levenshtein.cpp:205-369 | the unbounded two-row loop returns the distance |
| Levenshtein.CacheLengths | contrib/fuzzystrmatch/levenshtein.cpp:173-191 | lengths are cached unless every character of both strings is one byte |
| Levenshtein.LevenshteinInternal | contrib/fuzzystrmatch/levenshtein.cpp:63-370 | on bytes of any encoding, the distance of the decoded strings; an error exactly when both are non-empty and one exceeds 255 characters |
| Levenshtein.LevenshteinLessEqualInternal | contrib/fuzzystrmatch/levenshtein.cpp:63-370 | for every bound, the exact distance when within it and a value above it otherwise; same error condition |
| Multibyte.CharCount | src/common/backend/utils/mb/mbutils.cpp:967-983 | the loop counts the characters of well-encoded text, also on the single-byte shortcut |
| Multibyte.CharLengths | contrib/fuzzystrmatch/levenshtein.cpp:181-191 | the cache holds every character's length and a final zero |
| Multibyte.SameChar | contrib/fuzzystrmatch/levenshtein.cpp:257-272 | last byte, then lengths, then the rest decides equality of two characters of any lengths |
| VarKey.LeIff | src/common/backend/utils/adt/varlena.cpp:4082-4100 | the order is byte-wise: a string comes before its extensions, and otherwise the first different byte decides |
| VarKey.UnionNeverEscapes | contrib/btree_gist/btree_utils_var.cpp:268-277 | no entry escapes a key cut two bytes past its common prefix |
| VarKey.RunningUnionAttained | contrib/btree_gist/btree_utils_var.cpp:188-226 | both bounds of the running union are bounds of entries |
| VarKey.EscapingValue | contrib/btree_gist/btree_utils_var.cpp:428-442 | an escaping entry covers a value above the kept upper bound that does not extend it |
| GistTree.ScanIsExact | contrib/btree_gist/btree_bytea.cpp:74-90 | for any keys: if rows are tested exactly and no page above a matching row is refused, a scan returns exactly the matching rows in order |
| GistTree.ScanIsExactIff | contrib/btree_gist/btree_bytea.cpp:74-90 | for any keys: when rows are tested exactly, a scan returns exactly the matching rows if and only if every page above a matching row is visited |
| GistTree.SelectCounts | contrib/btree_gist/btree_bytea.cpp:74-90 | the matching rows are each matching row as often as it occurs, and no other |
| VarKeySearch.LeafIsExact | contrib/btree_gist/btree_bytea.cpp:85-88 | on leaf entries the consistent method is the operator itself, for all strategy numbers, so accepted rows need no second test |
| VarKeySearch.MatchesByOrder | contrib/btree_gist/btree_utils_var.cpp:450-500 | strategies 1 to 6 are the six comparisons of the byte order, and no other number matches |
| VarKeySearch.CoveredMatchIsConsistent | contrib/btree_gist/btree_utils_var.cpp:450-500 | for all six strategies a node covering a matching value is visited, by comparison or by prefix match |
| VarKeySearch.VisitIsJustified | contrib/btree_gist/btree_utils_var.cpp:450-500 | a node is visited only if the query extends one of its bounds or the node may hold a matching row, ties included |
| VarKeySearch.VisitIff | contrib/btree_gist/btree_utils_var.cpp:450-500 | a node is visited if and only if a value between its bounds matches, ties included, or, except for "not equal", the query starts with one of the bounds |
| VarKeySearch.UnionCovers | contrib/btree_gist/btree_utils_var.cpp:249-280 | the union method keeps every value any entry covers |
| VarKeySearch.OriginCovers | contrib/btree_gist/btree_utils_var.cpp:249-280 | a key made, widened and split any number of times covers every row ever inserted beneath it |
| VarKeySearch.SearchIsExact | contrib/btree_gist/btree_bytea.cpp:74-90 | a scan of any such tree returns exactly the matching rows in order |
| VarKeySearch.LeadsToIff | contrib/btree_gist/btree_utils_var.cpp:450-500 | a key is visited for every query and strategy that a row matches if and only if it is visited in a search for the row itself and does not stand for another value alone |
| VarKeySearch.AlwaysExactIff | contrib/btree_gist/btree_utils_var.cpp:450-500 | whatever its keys, a tree is scanned exactly for all queries and strategies if and only if every page key leads to every row below it |
| VarKeySplit.SplitPartitions | contrib/btree_gist/btree_utils_var.cpp:409-426 | every offset lands in exactly one of two halves, the left one holding half of them rounded down, and every left key sorts before every right key by lower and then by upper bound |
| VarKeySplit.HalfKeyLosesNothingIff | contrib/btree_gist/btree_utils_var.cpp:428-442 | under all six strategies no search skips a half that has an entry covering a matching value, a value the entry covers being one it may hold, if and only if the half's lower bound is a prefix of its upper bound or no entry escapes the kept upper bound |
| VarKeySplit.HalfKeyCoversIff | contrib/btree_gist/btree_utils_var.cpp:428-442 | a half's key covers everything its entries cover under exactly the same condition |
| VarKeyRows.CoversIffHeld | contrib/btree_gist/btree_utils_var.cpp:158-280 | a key covers a value if and only if some history of unions and admissible splits gives that key and holds the value as a row |
| VarKeyRows.HalfKeepsRowsIff | contrib/btree_gist/btree_utils_var.cpp:428-442 | over all histories of the entries of a half, its key leads to every matching row if and only if it admits the entries |
| VarKeyRows.SplitKeepsRowsIff | contrib/btree_gist/btree_utils_var.cpp:409-442 | a whole split keeps all rows if and only if the half with the shorter common prefix admits its entries, and always when the prefixes are equally long |
| VarKeyRows.CoveredRowFitsUnion | contrib/btree_gist/btree_utils_var.cpp:249-280 | inserting a covered row below a page keyed by the union method leaves its key as it is |
| VarKeyRows.UnionMadeHalfKeepsRowsIff | contrib/btree_gist/btree_utils_var.cpp:428-442 | for entries keyed by the union method, histories of unions alone already lose a row whenever the half does not admit them |
| VarKeySplit.LeafSplitCovers | contrib/btree_gist/btree_utils_var.cpp:393-442 | splitting leaf entries leaves each value covered by its half's key |
| VarKeySplit.LeafHalfIsWellFormed | contrib/btree_gist/btree_utils_var.cpp:428-442 | a half of a leaf page is a key history to which the search theorem applies |
| VarKeySplit.InternalSplitLosesRow | contrib/btree_gist/btree_utils_var.cpp:435-439 | four pages keyed by the union method whose split makes a search skip a row it holds |
| VarKeyBuffer.StoredLayout | contrib/btree_gist/btree_utils_var.cpp:49-79 | where each header and each bound of a stored key lies, cell by cell |
| VarKeyBuffer.KeyReadable | contrib/btree_gist/btree_utils_var.cpp:49-62 | reading a stored key gives the key, in leaf and in node mode, for all lengths and paddings |
| VarKeyBuffer.KeyCopy | contrib/btree_gist/btree_utils_var.cpp:64-79 | a shared value is stored as a leaf key unless node mode is forced, anything else as a node key |
| VarKeyBuffer.NodeCpLen | contrib/btree_gist/btree_utils_var.cpp:91-128 | the scan returns the length of the longest common prefix of the bounds |
| VarKeyBuffer.NodeTruncate | contrib/btree_gist/btree_utils_var.cpp:158-186 | the new buffer stores both bounds cut to the given length plus one |
| VarKeyBuffer.BinUnionBuffer | contrib/btree_gist/btree_utils_var.cpp:188-226 | the running union widens to the smaller lower and the greater upper bound, reusing the buffer when nothing changes |
| VarKeyBuffer.UnionBuffer | contrib/btree_gist/btree_utils_var.cpp:249-280 | the union method stores exactly the union key of its entries |
| VarKeyBuffer.PickSplitBuffer | contrib/btree_gist/btree_utils_var.cpp:370-445 | the split method delivers the halves and stores their keys cut to the shared length |
| Cube.CubeUnion | contrib/cube/cube.cpp:652-696 | the result has the larger dimension and, axis by axis, the smaller lower and larger upper coordinate, zero standing for missing axes |
| Cube.CubeInter | contrib/cube/cube.cpp:711-770 | the result has the larger lower and smaller upper coordinate on every axis |
| Cube.CubeContains | contrib/cube/cube.cpp:956-986 | true exactly when the second box lies in the first on every axis of the second |
| Cube.CubeOverlap | contrib/cube/cube.cpp:1016-1052 | true exactly when the boxes meet on every axis of either |
| CubePoints.ContainsIff | contrib/cube/cube.cpp:956-986 | one box contains another if and only if it has every point of it, in the dimensions of the second |
| CubePoints.OverlapIff | contrib/cube/cube.cpp:1016-1052 | two boxes overlap if and only if they have a point in common |
| CubePoints.SameBoxIff | contrib/cube/cube.cpp:568-583 | boxes are the same if and only if they have the same dimension and the same points |
| CubePoints.InterIff | contrib/cube/cube.cpp:711-770 | the intersection has exactly the common points when its corners are in order, and there are none otherwise |
| CubeDistance.CubeDistance | contrib/cube/cube.cpp:1066-1109 | the accumulated sum is the sum of squared gaps over all axes |
| CubeDistance.OverlapInterDistanceAgree | contrib/cube/cube.cpp:1016-1052 | overlapping, having an intersection in order, and being at distance zero coincide |
| CubeDistance.OverlapDistanceSymmetric | contrib/cube/cube.cpp:1078-1085 | overlap and distance do not depend on argument order |
| CubeDistance.DistanceIsNearestPoints | contrib/cube/cube.cpp:1066-1070 | the squared distance is attained by a point of each box and no two points are closer |
| CubeOrder.CubeCmp | contrib/cube/cube.cpp:801-868 | the comparison is lexicographic: common lower, common upper, extra lower, extra upper coordinates, then dimension |
| CubeOrder.SmallerComesFirst | contrib/cube/cube.cpp:801-868 | the box that is smaller where they first differ comes first, the stages being common lower, common upper, extra lower and extra upper coordinates |
| CubeOrder.FewerDimensionsFirst | contrib/cube/cube.cpp:853-866 | when all coordinates are tied, the box with fewer dimensions comes first |
| CubeOrder.CmpAntisymmetric | contrib/cube/cube.cpp:801-868 | comparing the other way round gives the opposite sign |
| CubeOrder.CmpIsZeroOnSameBoxes | contrib/cube/cube.cpp:568-583 | equal exactly for boxes of equal dimension and corners |
| CubeOrder.TransitiveIff | contrib/cube/cube.cpp:801-868 | for any set of dimensions, the order is transitive on the boxes of those dimensions if and only if at most one of them is above zero |
| CubeOrder.MixedDimensionsCycle | contrib/cube/cube.cpp:824-864 | for every two different dimensions above zero, three boxes that go round in a circle |
| CubeSearch.LeafTestByPoints | contrib/cube/cube.cpp:588-614 | strategies 3, 6, 7, 8, 13 and 14 ask for a common point, the same points, all points of the query, or no points but those of the query |
| CubeSearch.AboveIff | contrib/cube/cube.cpp:652-696 | a box is above another if and only if it has at least its dimensions and all its points |
| CubeSearch.UnionIsLeast | contrib/cube/cube.cpp:652-696 | the union bounds both arguments and lies within every box that does |
| CubeSearch.GCubeUnion | contrib/cube/cube.cpp:355-383 | the union method yields the least box above all entries, and no box for a single entry |
| CubeSearch.MatchedRowIsReached | contrib/cube/cube.cpp:588-640 | a row matched by overlap, same or contains passes the internal test of every box above it; a contained row does when the query includes zero beyond the row's dimensions |
| CubeSearch.VisitIsJustified | contrib/cube/cube.cpp:616-640 | a box passes the internal test only if some row below it could match |
| CubeSearch.ContainedRowReachedIff | contrib/cube/cube.cpp:632-635 | a contained row is reached under every box above it if and only if the query includes zero in each dimension the row lacks |
| CubeSearch.ContainedRowCanBeLost | contrib/cube/cube.cpp:977-983 | a one-dimensional row and a two-dimensional query for which the row is lost |
| CubeSearch.SoundPage | contrib/cube/cube.cpp:355-383 | a page keyed above its children's keys is above every row below it |
| CubeSearch.SearchIsExact | contrib/cube/cube.cpp:342-349 | a scan returns exactly the matching rows in order, for boxes of any mix of dimensions |
| CubeSearch.AnswerableIff | contrib/cube/cube.cpp:616-640 | all sound trees over given rows are scanned exactly if and only if, for "contained by", the query includes zero beyond the dimensions of each row it contains |
| CubeSplit.RtCubeSize | contrib/cube/cube.cpp:787-799 | the loop computes the volume |
| CubeSplit.SizeIsProduct | contrib/cube/cube.cpp:787-799 | the size of a box is the product of its side lengths |
| CubeSplit.FindSeeds | contrib/cube/cube.cpp:467-493 | the seeds are the first pair of greatest waste among offsets 1 to n - 2, or 1 and 2 when there is no pair |
| CubeSplit.SeedsAreUnique | contrib/cube/cube.cpp:482-491 | only one pair of seeds meets that description |
| CubeSplit.SeedsWasteMost | contrib/cube/cube.cpp:467-493 | no pair of offsets from 1 to n - 2 leaves more volume empty than the seeds, and every earlier pair leaves less |
| CubeSplit.GCubePickSplit | contrib/cube/cube.cpp:436-563 | the written offset vectors, counts, sentinels and keys are those of the placement from the best seeds, within the allocated vectors |
| CubeSplit.PlacedBounds | contrib/cube/cube.cpp:538-555 | at every step each side's box is the least bound of its members and its seed |
| CubeSplit.SplitIsSound | contrib/cube/cube.cpp:436-563 | the finished split is a partition into two non-empty increasing sides, each keyed by the union of exactly its members |
| CubeSplit.PlacedWhereLessIsGained | contrib/cube/cube.cpp:507-556 | in the finished split every offset other than the seeds is on the left if and only if the least box of the left side, as it stood then, gained less volume by it than that of the right side |
| NumKey.NumUnion | contrib/btree_gist/btree_utils_num.cpp:90-115 | the caller's buffer receives the smallest interval around all entries |
| NumKey.NumBinUnion | contrib/btree_gist/btree_utils_num.cpp:136-158 | the running hull, absent at first, becomes the hull with the new entry |
| NumKey.NumPickSplit | contrib/btree_gist/btree_utils_num.cpp:226-264 | every offset is in exactly one of two non-empty halves, each keyed by the hull of its entries |
| NumKey.HullPage | contrib/btree_gist/btree_utils_num.cpp:90-115 | a page keyed by the hull of entries holding its children's keys bounds every row below it |
| NumKey.LeafIsExact | contrib/btree_gist/btree_utils_num.cpp:166-204 | on a row, strategies 1 to 6 are the six comparisons of integers, and no other number matches |
| NumKey.NumSearchIsExact | contrib/btree_gist/btree_utils_num.cpp:166-204 | a scan returns exactly the matching rows in order |
| NumKey.VisitIsPrecise | contrib/btree_gist/btree_utils_num.cpp:166-204 | a page is visited if and only if a row within its bounds could match, ties included |
| NumKey.DistanceIsLeast | contrib/btree_gist/btree_utils_num.cpp:206-224 | the distance of a key never exceeds that of a row within its bounds, and some point within them attains it |
| NumKey.DistanceGrowsDownward | contrib/btree_gist/btree_utils_num.cpp:206-224 | in a tree of nested keys no page is farther from the query than any page or row below it |
| NumKey.DistanceGrowsIff | contrib/btree_gist/btree_utils_num.cpp:206-224 | for proper intervals that holds throughout a tree, for all queries, if and only if the keys are nested |
| NumKey.HullIsNested | contrib/btree_gist/btree_utils_num.cpp:90-115 | a page keyed by the hull of entries holding its children's keys keeps the keys nested |
| NumKey.CoveringBoundsRows | contrib/btree_gist/btree_utils_num.cpp:206-224 | a key that only bounds its rows is still no farther than any of them |
| NumKey.CoveringIsNotNested | contrib/btree_gist/btree_utils_num.cpp:206-224 | a tree whose keys only bound their rows, with a page farther from the query than its child |
| CollationWalker.WalkIsSound | contrib/gauss_connector/deparse.cpp:247-707 | a safe context was there before or comes from a foreign column of what was walked along nodes that carry it, and so do all input collations below |
| CollationWalker.ShippedInputsAreRooted | contrib/gauss_connector/deparse.cpp:195-232 | in a shipped expression every function, operator and aggregate with an input collation gets exactly that collation from a foreign column through nodes of its arguments that all carry it |
| CollationComplete.ShippedIff | contrib/gauss_connector/deparse.cpp:195-232 | an expression is shipped if and only if it has no mutable functions, all its parts can be evaluated remotely, every input collation is the one that its own arguments settle on from foreign columns, and its result claims no other collation |
| CollationComplete.ShippedCollationsAreForeign | contrib/gauss_connector/deparse.cpp:266-310 | in a shipped expression, below every node that uses a collation there is a column of a relation of the foreign scan, at the current query level, with that collation |
| CollationComplete.OtherColumnsConflict | contrib/gauss_connector/deparse.cpp:277-308 | a column of any other relation, or of an outer query, leaves a conflict unless its collation is the default or none |
| CollationComplete.WalkIsByParts | contrib/gauss_connector/deparse.cpp:247-707 | for every kind of node the walk combines the levels of the children, the input collation and the result collation in one way |
| CollationContext.LocalContext.Absorb | contrib/gauss_connector/deparse.cpp:668-703 | updating the parent's context in place is the merge |
| CollationContext.ForeignExprWalker | contrib/gauss_connector/deparse.cpp:247-264 | the recursive walker accepts, and leaves the parent's context, as the walk function says |
| CollationContext.OwnCollation | contrib/gauss_connector/deparse.cpp:266-659 | the switch over node kinds computes what the node passes on, or rejects |
| CollationContext.ForeignExpr | contrib/gauss_connector/deparse.cpp:195-232 | shipped exactly when accepted, not in conflict, and free of mutable functions |
| CollationOrder.MergeIsJoin | contrib/gauss_connector/deparse.cpp:671-703 | merging contexts is the join of their levels |
| CollationOrder.RearrangedIsShuffled | contrib/gauss_connector/deparse.cpp:562-572 | every rearrangement of a list counts as a shuffling of it |
| CollationOrder.OrderDoesNotMatter | contrib/gauss_connector/deparse.cpp:247-707 | rearranging lists at any depth changes neither acceptance nor state nor a safe collation |
| CollationOrder.ShippingIgnoresOrder | contrib/gauss_connector/deparse.cpp:195-232 | whether an expression is shipped does not depend on the order of arguments |
| RemoteParams.Deparser.PrintParam | contrib/gauss_connector/deparse.cpp:1463-1483 | a listed node is printed by its position, a new one is appended and gets the next number, and all earlier numbers stay valid |
| RemoteParams.Deparser.DeparseVar | contrib/gauss_connector/deparse.cpp:1441-1485 | columns of subqueries and of the foreign relation are printed as those columns, all others as parameters |
| RemoteParams.Deparser.DeparseParam | contrib/gauss_connector/deparse.cpp:1588-1610 | a parameter is listed once and numbered, or printed as a placeholder when no list is kept |
| RemoteParams.Deparser.DeparseExpr | contrib/gauss_connector/deparse.cpp:1378-1431 | an expression is printed without error exactly when every node met is known, and then its columns and parameters have been printed in order, casts showing their first argument only and subscripts interleaved |
| RemoteParams.LeavesByFields | contrib/gauss_connector/deparse.cpp:1657-1940 | calls, operators, boolean expressions and arrays print all their arguments in order, casts only the first, relabelings and null tests theirs, constants and aggregates none |
| RemoteParams.LeavesOfArrayRef | contrib/gauss_connector/deparse.cpp:1615-1652 | an array reference prints the array and then each lower bound before its upper bound |
| RemoteParams.LeavesAreShown | contrib/gauss_connector/deparse.cpp:1378-1431 | the columns and parameters printed for an expression are exactly those that show in it: all but those below aggregates, beyond the first argument of a cast, or in a lower bound without an upper one |
| RemoteParams.PrintableIff | contrib/gauss_connector/deparse.cpp:1425-1430 | printing raises no error if and only if no unknown node shows in the expression |
| RemoteParams.Deparser.DeparseAll | contrib/gauss_connector/deparse.cpp:1048-1075 | over a whole run through a list of expressions the parameter list only grows by appending, stays duplicate-free, and at the end every token, early or late, stands for its leaf |
| RemoteParams.NumbersIdentify | contrib/gauss_connector/deparse.cpp:1463-1483 | over the final list two printed numbers are equal exactly when they were printed for the same node, parameter identifiers and type modifiers included |
| RemoteParams.ListedAllContents | contrib/gauss_connector/deparse.cpp:1468-1478 | the final list is the starting list followed by each other remote leaf exactly once |
| RemoteParams.ShippedIsPrintable | contrib/gauss_connector/deparse.cpp:195-232 | whatever the walker ships the deparser can print, and every parameter printed for it is an external one |
| SqlNames.QuotedBodyIsDoubled | contrib/gms_assert/gms_assert.cpp:87-103 | an accepted quoted name is some text with its quotes doubled, between quotes |
| SqlNames.DoubledIsQuotedBody | contrib/gms_assert/gms_assert.cpp:87-103 | every such text is accepted |
| SqlNames.SimpleNameInternal | contrib/gms_assert/gms_assert.cpp:77-116 | the pointer loop accepts exactly the quoted bodies and the plain identifiers |
| SqlNames.SimpleNameIff | contrib/gms_assert/gms_assert.cpp:60-116 | accepted are exactly any text between quotes with its quotes doubled, and the identifiers |
| SqlSplit.SplitQualifiedName | contrib/gms_assert/gms_assert.cpp:178-238 | the in-place run leaves the buffer exactly when the split says so, and otherwise the returned positions hold, as terminated strings, exactly the names of the split |
| SqlSplit.SplitInvertsJoinIff | contrib/gms_assert/gms_assert.cpp:178-238 | splitting the joined text of any non-empty list of accepted names, with any spaces around it, returns the list if and only if each name alone is read back |
| SqlSplit.JunkDropsAll | contrib/gms_assert/gms_assert.cpp:220-230 | anything but spaces behind a space that ends the last name, and no names are returned |
| SqlSplit.SplitStops | contrib/gms_assert/gms_assert.cpp:194-214 | an empty name or an unclosed quote stops the run, and the names before it are returned |
| SqlSplit.CommonNamesReadBack | contrib/gms_assert/gms_assert.cpp:194-205 | plain names are read back, and so are quoted names in which no doubled quote touches another quote |
| SqlSplit.TripleQuoteIsLost | contrib/gms_assert/gms_assert.cpp:194-205 | an accepted name ending in a doubled quote that the splitter does not return |
| SqlOverrun.OverrunIff | contrib/gms_assert/gms_assert.cpp:194-205 | the run searches past the terminator if and only if it meets a doubled quote at the last two positions of the text |
| SqlOverrun.NamesOverrunIff | contrib/gms_assert/gms_assert.cpp:178-238 | for a list of accepted names the run searches past the terminator if and only if, read one by one, the last name is left on a doubled quote |
| SqlOverrun.AcceptedNameOverruns | contrib/gms_assert/gms_assert.cpp:194-205 | an accepted name on which it does |
| SqlNames.EnquoteLiteral | contrib/gms_assert/gms_assert.cpp:391-440 | quoted literals stay, literals with doubled ticks are quoted, everything else is an error |
| SqlNames.LiteralIff | contrib/gms_assert/gms_assert.cpp:391-440 | a literal stays when it is a text between ticks with its ticks doubled, gets ticks when it is such a text without them, and is refused otherwise |
| SqlNames.EnquoteName | contrib/gms_assert/gms_assert.cpp:462-500 | names are quoted unless they start with a quote, and rejected unless the result is a simple name |
| SqlNames.NameIff | contrib/gms_assert/gms_assert.cpp:462-500 | a name that starts with a quote stays when it is a text between quotes with its quotes doubled, any other is capitalised on request and quoted when its quotes are doubled, and the rest is refused |
| SqlNames.EnquotingIsIdempotent | contrib/gms_assert/gms_assert.cpp:391-500 | results are well quoted and fixed points of a second call |
| SqlNames.TrimSqlName | contrib/gms_assert/gms_assert.cpp:118-154 | the pointer loops return the single token of the text, or nothing when a quote stays open or a second token follows |
| SqlNames.TrimIff | contrib/gms_assert/gms_assert.cpp:118-154 | trimming returns a text if and only if it is all but surrounding spaces of the input, its quotes come in pairs, and it has spaces only between the quotes of a pair |
| SqlNames.TrimDropsOnlySpaces | contrib/gms_assert/gms_assert.cpp:125-153 | trimming drops nothing but surrounding spaces |
| SqlNames.TrimKeepsWellQuoted | contrib/gms_assert/gms_assert.cpp:129-143 | well-quoted names, and so all results of name quoting, are left unchanged |

## Left out

- Negative costs, 32-bit overflow of distances, and the SQL-callable wrappers with default costs.
- Encodings whose text is not well formed: the text type of the server excludes them.
- Varlena header bits, TOAST, allocation limits and memory contexts: a header is four cells, the first holding the size.
- Other types of `btree_gist`: the multibyte branch of the common-prefix length, the leaf-to-node conversion of bit strings, and keys compared under a collation.
- Penalty functions and all floating-point rounding, NaN and infinity.
- NULL arguments of the box operators, which are declared strict.
- The sort inside the split methods: any sorted permutation is accepted as its result.
- The GiST core: insertion, page splits over several columns and nearest-neighbour queues; page keys may have any history of unions and admissible splits.
- VarKeySearch.SearchIsExact: halves of internal pages are included only when their key admits their parts; by `VarKeyRows.HalfKeepsRowsIff` for every other half there are histories with the same keys in which a row is lost, and `VarKeySearch.AlwaysExactIff` decides any particular tree.
- CubeSearch.SearchIsExact: for "contained by", queries must include zero beyond the dimensions of the rows they contain; by `CubeSearch.AnswerableIff` the claim is false of some tree otherwise.
- CubeDistance.CubeDistance: returns the square of the distance, the final square root being left out, because Dafny has no real square roots; it is monotone and so keeps every comparison.
- SqlSplit.SplitQualifiedName: where the source would search past the terminator the run stops and says so; what such a search finds is outside the buffer.
- RemoteParams.Deparser.DeparseAll: columns and parameters are the only tokens; the surrounding SQL text is not modelled, nor are coordinator queries, in which aggregates are printed. Operators have the one or two arguments that the source asserts, and a negation has one.
- The rest of `contrib/gauss_connector/deparse.cpp`: SQL text, type names, catalogs and planner structures; `classifyConditions`.
- The rest of `contrib/gms_assert`: catalog lookups for schema and object names.
- `metaphone`, `dmetaphone` and `soundex`: long case tables whose general properties are only termination and output length.
- All other contrib modules and the server itself.
