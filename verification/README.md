# Verified models of librose data structures

librose is the engine library of the application: a Wesnoth-derived set of data structures and
algorithms under `aismart-src/aismart/librose`. This project models its self-contained cores in Dafny and
proves what they are meant to guarantee. `dafny verify dfyconfig.toml` checks all of it.

- **WML configs** (`ConfigTree`, `ConfigOrder`, `ConfigNode`, `ConfigDiff`, `ConfigDiffMeaning`,
  `ConfigRoundTrip`, `ConfigPatch`, `ConfigTrack`, `ConfigTrackExact`, `ConfigMerge`, `ConfigRemoval`,
  `ConfigClear`). A node keeps its children twice, as lists by tag and as one global order of (tag, index)
  entries. The class `ConfigNode.Config` has both fields and the mutators with their renumbering loops; each is
  proved against the plain operation on one sequence of (tag, child) pairs. On that view stand the diff and
  patch pair, the tracked patch with its cleaning pass, the deep merge and the iterative deletion. Beside the
  laws stands what each operation means in literal terms: which edits a diff holds, which children a merge
  takes away, which marks a tracked patch leaves.
- **Formulas** (`FormulaParser`, `FormulaSyntax`, `FormulaWords`, `FormulaBrackets`, `FormulaRoundTrip`,
  `FormulaLevels`, `FormulaPrinter`, `FormulaWhere`, `FormulaStrings`). The parser that splits a span of tokens
  at its loosest operator, proved exact for written syntax, proved against the written-out levels of operators
  for every chain, and inverse to a printer; `where` with its table of kept values, proved equal to a parallel
  binding; and string interpolation.
- **Terrain** (`HexGeometry`, `TerrainRules`, `TerrainIndex`, `TerrainFlags`, `TerrainOrder`, `TerrainBuilder`).
  Hex translation and rotation, rule matching by the rarest constraint, proved equal to full matching, what
  flags keep out over a whole build, and the unit layer that is rebuilt on top of the map layer.
- **Unit index** (`UnitMap`). The dense array whose units know their position and the two-layer grid.
- **Loops over buffers and tables** (`FileData`, `FrameTimeline`, `CharBlocks`). In-place replacement, the
  timeline of an animation, and the table of font blocks.

## Where the code does less than one would expect

- config.hpp:545-549 promises that patching makes the configs identical. `get_diff` compares tag by tag and
  treats an absent, a blank and an empty attribute alike, so the result agrees up to that
  (`ConfigTree.Similar`); and `apply_diff` passes over a change under an empty tag, which is then lost.
  `ConfigPatch.RoundTrip` gives the exact condition, `EmptyTagLosesChange` the failing family.
- config.hpp:572-577 promises that tracked patching and cleaning amount to plain patching. Cleaning deletes
  before it looks up the changed children, by the indices they had before the edits. The promise holds when
  each named tag with a change has no insertion or deletion, or the change edits no children and its index
  exists in the new list, at every depth (`TrackedPatch`). Otherwise it fails, for an index past the end
  (`ChangePastTheEndThrows`) and for edits below a child that no cleaning reaches (`UnreachedSurvives`);
  `TrackedExact` proves the equivalence. It leaves out one kind of diff: those where a change that edits
  children stands beside insertions or deletions and each such change is cleaned with the edits of another.
  There the outcome hangs on what these edits are: `WrongCleaningCanHelp` has one that comes out right.
- The comment on the font table says that `insert` associates the free parts of a range. It stops at the
  first block that begins in the range: `CharBlocks.InsertFills` says exactly when nothing is left out.
- The operators `.+`, `.-`, `.*` and `./` have no precedence, so comparing one of them fails an assertion:
  `a .+ b + c` is not parsed (`FormulaRoundTrip.DotPlusFails`), and such an operator is read exactly when it is
  the only one the scan looks at (`ParserExact`).
- The clauses of `where` are split at commas inside square brackets too, so `x where a = [1, 2]` is not parsed
  (`FormulaRoundTrip.WhereListFails`); clauses are read back exactly when their values show no comma and no `=`
  outside round brackets (`ClausesExact`). Likewise an item of a list or call that is a `where` with two clauses
  needs parentheses, because the clauses' comma cuts it (`ParserExact`).
- `inherit_from` keeps what the inheriting config says unless an `add_to_` key behind it adds to it
  (`ConfigMerge.InheritKeepsOwn`).
- `remove_frames_until` and `set_end_time` leave the index of the shown frame alone, so it may be out of range
  afterwards; their contracts say when it is not.
- `place` and `move` do not look whether the cell is free: the unit that stood there keeps its location and
  loses its cell.
- An operator right behind a list written `[]` that follows another operator is overlooked
  (`FormulaPrinter.EmptyListHidesOperator`), because only tokens other than operators and brackets end a run
  of operators.

## Model

| member | source | states |
|---|---|---|
| `ConfigPatch.RoundTrip` | aismart-src/aismart/librose/config.cpp:1053-1220 | for all trees, patching `c` with the diff of `a` against `c` never throws, and the result agrees with `a` at every depth (up to empty attributes and the interleaving of different tags) if and only if no change falls under an empty tag |
| `ConfigPatch.NamedRoundTrip` | aismart-src/aismart/librose/config.cpp:1053-1220 | when one of the two trees has no empty tag, nothing is lost and the patched tree agrees with the target |
| `ConfigPatch.EmptyTagLosesChange` | aismart-src/aismart/librose/config.cpp:1178-1194 | for every pair of children that do not agree, a change under an empty tag is lost |
| `ConfigPatch.DifferentChildren` | aismart-src/aismart/librose/config.cpp:1434-1449 | children that do not agree exist, so the lost change is real |
| `ConfigPatch.PatchLists` | aismart-src/aismart/librose/config.cpp:1160-1220 | the patch goes through, and the list of every tag is the one the walk of the diff predicts |
| `ConfigRoundTrip.DiffOpsScheduled` | aismart-src/aismart/librose/config.cpp:1098-1158 | the edits stored in a diff, read back kind by kind, are exactly the moves of the walk over the lists of each tag |
| `ConfigRoundTrip.AttrsRoundTrip` | aismart-src/aismart/librose/config.cpp:1058-1083 | attribute edits make the attributes of `c` agree with those of `a` |
| `ConfigRoundTrip.NoInserts` | aismart-src/aismart/librose/config.cpp:1111-1155 | a walk that is not short of children emits no insertion; the stage of insertions changes nothing |
| `ConfigRoundTrip.NoDeletes` | aismart-src/aismart/librose/config.cpp:1111-1155 | a walk that has no children too many emits no deletion; so the edits of a tag are insertions and changes or deletions and changes, never all three |
| `ConfigTree.EqImpliesSimilar` | aismart-src/aismart/librose/config.cpp:1434-1449 | nodes that `operator==` calls equal agree at every depth |
| `ConfigTree.TagsOfSorted` | aismart-src/aismart/librose/config.cpp:1085-1096 | a loop over the child map meets every tag in use once and in increasing order |
| `ConfigNode.GetDiff` | aismart-src/aismart/librose/config.cpp:1053-1158 | the loops that build a diff compute the diff that the round trip is proved for |
| `ConfigNode.DiffLists` | aismart-src/aismart/librose/config.cpp:1109-1156 | the double walk over the two lists of a tag emits the edits of that tag |
| `ConfigNode.Config.ApplyDiff` | aismart-src/aismart/librose/config.cpp:1160-1220 | patching in place succeeds exactly when the patch function does and leaves the node it describes |
| `ConfigNode.Config.ClearDiffTrack` | aismart-src/aismart/librose/config.cpp:1222-1253 | cleaning in place succeeds exactly when the cleaning function does and leaves the node it describes |
| `ConfigNode.Config.ApplyOp` | aismart-src/aismart/librose/config.cpp:1178-1219 | one edit of the child lists: its failures and its effect on the sequence of children, including the recursion into the edited child |
| `ConfigNode.RunEditsOps` | aismart-src/aismart/librose/config.cpp:1175-1219 | reading every index before the first edit makes no difference to the outcome |
| `ConfigDiffMeaning.InsertsMean` | aismart-src/aismart/librose/config.cpp:1058-1070 | [insert] holds exactly the attributes that the base lacks, or that differ there and are not empty, with their new values, and is left out when there are none |
| `ConfigDiffMeaning.DeletesMean` | aismart-src/aismart/librose/config.cpp:1072-1083 | [delete] holds exactly the attributes of the base that are absent or empty in the new config, and is left out when there are none |
| `ConfigDiffMeaning.EditsName` | aismart-src/aismart/librose/config.cpp:1117-1155 | every other child of a diff is an edit of one child in the form that patching reads, and no change is taken between equal children |
| `ConfigDiffMeaning.EditsCount` | aismart-src/aismart/librose/config.cpp:1109-1156 | for every tag there are as many insertions, or as many deletions, as the lengths of the two lists differ, and never both |
| `ConfigDiffMeaning.DiffSilent` | aismart-src/aismart/librose/config.cpp:1053-1158 | a diff is empty if and only if both configs have the same keys with equal values, none of them empty, and equal children for every tag |
| `ConfigDiffMeaning.EqualSilent` | aismart-src/aismart/librose/config.cpp:1053-1158 | in particular for equal configs without an empty attribute at their root |
| `ConfigDiffMeaning.EntitiesMean` | aismart-src/aismart/librose/config.cpp:1085-1096 | the edits take the tags of the new config in increasing order, then those only the base has in increasing order |
| `ConfigDiffMeaning.TreeEqMeans` | aismart-src/aismart/librose/config.cpp:1434-1449 | configs are equal if and only if they are the same tree once `yes` and `true` (and `no` and `false`) are spelled alike |
| `ConfigDiffMeaning.ValueEqMeans` | aismart-src/aismart/librose/config.cpp:405-413 | values are equal when they are the same or booleans of the same truth; a blank differs from an empty string |
| `ConfigDiffMeaning.OneEditThrows` | aismart-src/aismart/librose/config.cpp:1178-1219 | a change or a tracked deletion throws exactly when its child is not there, an insertion when its place is not there, and an untracked deletion never |
| `ConfigDiffMeaning.AttrsApplied` | aismart-src/aismart/librose/config.cpp:1166-1176 | only the first [insert] and the first [delete] are read, and deletion comes after insertion |
| `ConfigDiffMeaning.IndexMeans` | aismart-src/aismart/librose/config.cpp:1180-1180 | an index is read from a number only; a negative one wraps around at 64 bits |
| `ConfigDiffMeaning.InsertedIsNew` | aismart-src/aismart/librose/config.cpp:1196-1203 | a child that a tracked patch inserts is marked new, and its parent modified |
| `ConfigDiffMeaning.DeletedStays` | aismart-src/aismart/librose/config.cpp:1205-1219 | a child that a tracked patch deletes stays and is marked deleted |
| `ConfigDiffMeaning.ChangedIsModified` | aismart-src/aismart/librose/config.cpp:1178-1194 | a child that a tracked patch changes is marked modified |
| `ConfigDiffMeaning.ClearNothing` | aismart-src/aismart/librose/config.cpp:1222-1253 | cleaning without edits takes the mark off the node and its children, and nothing else |
| `ConfigTrack.TrackedPatch` | aismart-src/aismart/librose/config.cpp:1160-1253 | for a diff against its own base and trees without the tracking attribute, tracked patching and cleaning give exactly the tree of plain patching, global order included, when at every depth each named tag with a change has no insertion or deletion, or the change edits no children and its index exists in the new list |
| `ConfigTrack.AttributesOnly` | aismart-src/aismart/librose/config.cpp:1160-1253 | a diff that edits no children patches attributes only, and cleaning with it takes off direct marks, whatever node it meets |
| `ConfigTrack.TrackedStages` | aismart-src/aismart/librose/config.cpp:1160-1220 | a tracked patch with a diff against its own base never throws, at any depth |
| `ConfigTrackExact.TrackedExact` | aismart-src/aismart/librose/config.cpp:1222-1253 | the condition is exact: for unmarked trees whose diff is settled (every named tag with insertions or deletions has no change that edits children, or one that no cleaning reaches) tracked patching and cleaning give the tree of plain patching if and only if the condition of `TrackedPatch` holds |
| `ConfigTrackExact.DeepExact` | aismart-src/aismart/librose/config.cpp:1222-1253 | in particular, where every change of a named tag edits children, at every depth, they do if and only if no named tag has a change beside an insertion or deletion, at any depth |
| `ConfigTrackExact.WrongCleaningCanHelp` | aismart-src/aismart/librose/config.cpp:1222-1253 | the assumption cannot be dropped: a concrete pair of trees for which the condition fails, yet cleaning a child with the edits of its neighbour takes off just the mark it has |
| `ConfigTrackExact.UnreachedSurvives` | aismart-src/aismart/librose/config.cpp:1225-1252 | where no cleaning reaches a changed child, any edit made to its children stays visible (a mark, or a child that should be gone), so the plain patch is never reached |
| `ConfigTrackExact.OutermostUnreached` | aismart-src/aismart/librose/config.cpp:1109-1156 | a list with changes beside insertions or deletions always has a change that no cleaning reaches |
| `ConfigTrackExact.PairUndone` | aismart-src/aismart/librose/config.cpp:1225-1252 | on a list that keeps its length every changed child is cleaned once, with its own edits, so undoing the whole undoes each of them |
| `ConfigTrackExact.ChangedEndsAt` | aismart-src/aismart/librose/config.cpp:1109-1156 | where a changed child ends up: at its place in the target |
| `ConfigTrackExact.ChangeOffset` | aismart-src/aismart/librose/config.cpp:1109-1156 | all changes of a list move by the same distance, that between the lengths of the lists |
| `ConfigTrackExact.TrackedPatchCanFail` | aismart-src/aismart/librose/config.cpp:1225-1252 | a concrete pair of trees without marks for which tracked patching and cleaning do not give the tree of plain patching |
| `ConfigTrackExact.ChangePastTheEndThrows` | aismart-src/aismart/librose/config.cpp:1225-1247 | a change whose index lies past the shortened list makes cleaning throw, although the tracked patch went through |
| `ConfigTrackExact.ChangeAfterDeletionThrows` | aismart-src/aismart/librose/config.cpp:1225-1247 | the smallest such input: of two children the first goes and the second changes |
| `ConfigMerge.MergeByTag` | aismart-src/aismart/librose/config.cpp:1258-1304 | the children of each tag merge position by position, whatever the other tags do, and the rest of the other list is appended |
| `ConfigMerge.MergeListPlain` | aismart-src/aismart/librose/config.cpp:1258-1304 | without removals the k-th child of the merged list is the merge of the k-th children, and the longer list keeps its rest |
| `ConfigRemoval.MergeSurvivors` | aismart-src/aismart/librose/config.cpp:1268-1302 | the k-th child of a tag goes if and only if the other config has a k-th child of that tag whose `__remove` is a true boolean; the others keep their order, each merged with its counterpart or unchanged, and the rest of the other list follows |
| `ConfigRemoval.MergeKeepsOrder` | aismart-src/aismart/librose/config.cpp:1268-1302 | over all tags: the children that stay come first, in their old order, and the additions follow by tag |
| `ConfigRemoval.AddToMeans` | aismart-src/aismart/librose/config.cpp:880-894 | an `add_to_` key adds numbers; what is no number counts as 0 |
| `ConfigRemoval.AddToKeys` | aismart-src/aismart/librose/config.cpp:880-894 | the keys that add are those with the prefix `add_to_` |
| `ConfigRemoval.BeforeMeans` | aismart-src/aismart/librose/config.cpp:1287-1294 | the order of the tags is lexicographic |
| `ConfigMerge.MergeIdempotent` | aismart-src/aismart/librose/config.cpp:1258-1304 | without `add_to_` keys and `__remove`, merging the same config again changes nothing, order included |
| `ConfigMerge.MergeAssociative` | aismart-src/aismart/librose/config.cpp:1258-1304 | under the same condition merging is associative: attributes and every child list agree at every depth, exactly and in the sense of the round trip |
| `ConfigMerge.MergeSelf` | aismart-src/aismart/librose/config.cpp:1258-1304 | merging a config with itself changes nothing |
| `ConfigMerge.MergeMergeable` | aismart-src/aismart/librose/config.cpp:1258-1304 | the condition of the laws is kept by merging |
| `ConfigMerge.MergeAttrsPlain` | aismart-src/aismart/librose/config.cpp:880-894 | without `add_to_` keys the other attributes win |
| `ConfigMerge.AddToAccumulates` | aismart-src/aismart/librose/config.cpp:880-894 | with an `add_to_` key a second merge adds a second time |
| `ConfigMerge.InheritKeepsOwn` | aismart-src/aismart/librose/config.cpp:1309-1316 | inheriting keeps an attribute of the inheriting config if and only if no `add_to_` key for it comes later in the order of keys, or that one adds zero to a number; and it takes what is missing |
| `ConfigMerge.InheritedValue` | aismart-src/aismart/librose/config.cpp:880-894 | the value of every attribute after inheriting, `add_to_` keys included |
| `ConfigMerge.InheritAddsToOwn` | aismart-src/aismart/librose/config.cpp:880-894 | an input: an own `aa` behind which `add_to_aa` comes is changed |
| `ConfigNode.Config.MergeWith` | aismart-src/aismart/librose/config.cpp:1258-1304 | merging in place with visit counters and deferred removals gives the merge the laws are proved for |
| `ConfigNode.Config.MergeShared` | aismart-src/aismart/librose/config.cpp:1268-1285 | the first loop merges every child that has a counterpart and lists the ones to be removed by tag and rank |
| `ConfigNode.Config.AddUnvisited` | aismart-src/aismart/librose/config.cpp:1287-1294 | the second loop appends, tag by tag, the children that had no counterpart |
| `ConfigNode.Config.RemoveMarked` | aismart-src/aismart/librose/config.cpp:1296-1302 | the last loop removes exactly the marked children, although every removal moves the later ranks |
| `ConfigNode.Config.MergeAttributes` | aismart-src/aismart/librose/config.cpp:880-894 | merging attributes in place |
| `ConfigNode.Config.InheritFrom` | aismart-src/aismart/librose/config.cpp:1309-1316 | inheriting in place |
| `ConfigNode.Config.constructor` | aismart-src/aismart/librose/config.cpp:441-443 | an empty node has dense indices and no children |
| `ConfigNode.Config.FromTree` | aismart-src/aismart/librose/config.cpp:445-448 | a deep copy has the same attributes and the same children in the same order |
| `ConfigNode.Config.AddChild` | aismart-src/aismart/librose/config.cpp:665-683 | appends one pair to the sequence of children |
| `ConfigNode.Config.AddChildAt` | aismart-src/aismart/librose/config.cpp:697-728 | fails exactly past the end of the list; otherwise inserts the pair in front of the k-th one of its tag, or at the end, while every entry keeps its right index |
| `ConfigNode.Config.ClearChildren` | aismart-src/aismart/librose/config.cpp:744-759 | takes the pairs of one tag out of the sequence and nothing else |
| `ConfigNode.Config.SpliceChildren` | aismart-src/aismart/librose/config.cpp:761-782 | moves the pairs of one tag to the end of another node, in order |
| `ConfigNode.Config.RemoveChild` | aismart-src/aismart/librose/config.cpp:795-834 | takes out the k-th pair of a tag, or nothing when there is none |
| `ConfigOrder.InsertDense` | aismart-src/aismart/librose/config.cpp:697-728 | inserting into a list and renumbering the later entries keeps the indices 0, 1, ... of every tag in order and inserts one pair |
| `ConfigOrder.RemoveDense` | aismart-src/aismart/librose/config.cpp:795-816 | removing from a list and renumbering the later entries keeps the indices dense and removes one pair |
| `ConfigOrder.AppendDense` | aismart-src/aismart/librose/config.cpp:665-683 | appending to a list and to the order appends one pair |
| `ConfigOrder.ClearDense` | aismart-src/aismart/librose/config.cpp:732-759 | erasing the list and the entries of a tag keeps the indices of the other tags dense |
| `ConfigOrder.WithoutKids` | aismart-src/aismart/librose/config.cpp:732-759 | and erases exactly its pairs |
| `ConfigOrder.DenseFind` | aismart-src/aismart/librose/config.cpp:795-816 | the entry of a tag and an index is where the search for the pair of that rank ends |
| `ConfigRemoval.InsertedPlace` | aismart-src/aismart/librose/config.cpp:697-728 | a child is inserted right in front of the one that had its rank, or behind all children |
| `ConfigRemoval.RemovedPlace` | aismart-src/aismart/librose/config.cpp:795-834 | just the child of that rank is removed |
| `ConfigRemoval.WithoutKeeps` | aismart-src/aismart/librose/config.cpp:744-759 | clearing a tag leaves the children of all others, in their order |
| `ConfigClear.Heap.Clear` | aismart-src/aismart/librose/config.cpp:965-1013 | the loop over the explicit stack terminates, reads stored nodes only, deletes the nodes below the root one by one, children before parents, and leaves the root without children and every other node alone |
| `ConfigClear.DeletedOnce` | aismart-src/aismart/librose/config.cpp:965-1013 | each proper descendant is deleted exactly once, and the root is not |
| `FormulaParser.ParseExpression` | aismart-src/aismart/librose/formula.cpp:807-1000 | the recursive descent with its scanning loops computes the parse function; recursion ends because spans get shorter |
| `FormulaParser.FindOperator` | aismart-src/aismart/librose/formula.cpp:843-860 | the scan finds the last of the loosest operators outside brackets, not counting operators right behind another one; it fails where an operator without precedence is compared |
| `FormulaParser.FindOpenSquare` | aismart-src/aismart/librose/formula.cpp:866-878 | the walk back finds the `[` that opens the end of the span |
| `FormulaParser.CountParens` | aismart-src/aismart/librose/formula.cpp:945-952 | counts the round brackets of a call |
| `FormulaParser.ParseArguments` | aismart-src/aismart/librose/formula.cpp:696-717 | the argument loop splits at the commas outside all brackets |
| `FormulaParser.ParseWhereClauses` | aismart-src/aismart/librose/formula.cpp:758-805 | the loop with its bracket count, its begin and the name at hand reads the clauses that the recursive definition cuts out: it fails at a comma or end without a name, and at an `=` that does not follow just a name |
| `FormulaRoundTrip.ClausesExact` | aismart-src/aismart/librose/formula.cpp:758-805 | written clauses are read back if and only if each value is and shows no comma and no `=` outside round brackets; a value that shows one makes all clauses fail |
| `FormulaRoundTrip.ShownClauseFails` | aismart-src/aismart/librose/formula.cpp:758-805 | a `where` the scan finds with such a value is not parsed at all |
| `FormulaRoundTrip.WhereListFails` | aismart-src/aismart/librose/formula.cpp:758-805 | an input: `x where a = [1, 2]`, since square brackets do not count |
| `FormulaParser.ParseWithoutOperator` | aismart-src/aismart/librose/formula.cpp:862-967 | the branch for a span without an operator: parentheses, lists, element access, literals, identifiers and calls |
| `FormulaRoundTrip.ParserExact` | aismart-src/aismart/librose/formula.cpp:807-1000 | for every written syntax tree, `where` and operators without a precedence included, the parser returns the expression it stands for if and only if each operator in it is the one its scan ends up with (one without a precedence must be the only one compared), no item of a list or call has a comma of its own outside brackets, and no clause shows a separator |
| `FormulaRoundTrip.UncomparableFails` | aismart-src/aismart/librose/formula.cpp:612-648 | whenever the scan of a written tree has to compare an operator without a precedence, parsing fails |
| `FormulaRoundTrip.ChainFails` | aismart-src/aismart/librose/formula.cpp:612-648 | in a chain of two operators of which the first has no precedence, such as `a .+ b + c`, parsing fails whatever the other one is |
| `FormulaRoundTrip.DotPlusFails` | aismart-src/aismart/librose/formula.cpp:612-648 | an input: `a .+ b + c` |
| `FormulaWords.ParseWords` | aismart-src/aismart/librose/formula.cpp:807-1000 | the words of the parsed expression, in order, are the words of the span if and only if every `=` has something behind it; otherwise there are fewer |
| `FormulaWords.BareEqualsDropped` | aismart-src/aismart/librose/formula.cpp:798-804 | an input: the last clause of a `where` with nothing behind its `=` is dropped silently |
| `FormulaRoundTrip.BinaryChoice` | aismart-src/aismart/librose/formula.cpp:845-859 | the scan of a binary expression chooses the operator in the middle if and only if no run of operators in front hides it, nothing on the left binds looser and everything on the right binds tighter, or it has no precedence and stands alone |
| `FormulaRoundTrip.WhereChoice` | aismart-src/aismart/librose/formula.cpp:845-859 | the same for the operator `where`, with what its clauses show on the right |
| `FormulaLevels.TableIsLevels` | aismart-src/aismart/librose/formula.cpp:612-634 | the table puts every operator on the level written out, and knows no other |
| `FormulaLevels.ChainReads` | aismart-src/aismart/librose/formula.cpp:845-859 | any chain of operands and operators splits at its last operator on its loosest level, so a level is grouped from the left |
| `FormulaLevels.PairReads` | aismart-src/aismart/librose/formula.cpp:845-859 | `a x b y c` is `(a x b) y c` when x stands on the level of y or a tighter one, else `a x (b y c)` |
| `FormulaLevels.NeighboursRead` | aismart-src/aismart/librose/formula.cpp:617-634 | for each pair of neighbouring levels the tighter operator is taken first, whichever comes first |
| `FormulaLevels.SharedLevelReads` | aismart-src/aismart/librose/formula.cpp:617-634 | operators that share a level are grouped from the left |
| `FormulaLevels.SignedPair` | aismart-src/aismart/librose/formula.cpp:971-980 | `not a x b` and `- a x b`: the sign takes the whole when x stands on a tighter level, else only `a` |
| `FormulaLevels.PrefixTakesAll` | aismart-src/aismart/librose/formula.cpp:971-980 | `not` and `-` take any chain whose operators all stand on tighter levels |
| `FormulaLevels.PrefixOnLeft` | aismart-src/aismart/librose/formula.cpp:971-980 | otherwise the chain is split at its last loosest operator, with the sign in the left part |
| `FormulaLevels.OtherPrefixFails` | aismart-src/aismart/librose/formula.cpp:971-980 | no other operator can stand in front |
| `FormulaLevels.WhereReads` | aismart-src/aismart/librose/formula.cpp:990-995 | `where` takes the chain in front of it and the value behind its `=` whole, and fails when that value holds another `=` |
| `FormulaLevels.TrailingComma` | aismart-src/aismart/librose/formula.cpp:696-717 | a comma behind the last item changes nothing |
| `FormulaPrinter.ParsePrinted` | aismart-src/aismart/librose/formula.cpp:807-1000 | every expression of literals, identifiers, operators (with or without a precedence), non-empty lists, element access, calls and `where`, printed with parentheses where precedence, left association, a comparison that would fail or a separator ask for them, parses back to itself |
| `FormulaPrinter.PrintFaithful` | aismart-src/aismart/librose/formula.cpp:620-647 | the printed syntax stands for the expression it was made from |
| `FormulaPrinter.EmptyListHidesOperator` | aismart-src/aismart/librose/formula.cpp:845-859 | an operator right behind an empty list that follows another operator is overlooked, whatever the operands |
| `FormulaWhere.Scope.Evaluate` | aismart-src/aismart/librose/formula.cpp:423-487 | evaluating with lazily kept clause values gives the value (or the failure) of binding all clauses in parallel, for every nesting, sharing of scopes and order of lookups, and keeps every stored value right |
| `FormulaWhere.Scope.GetValue` | aismart-src/aismart/librose/formula.cpp:445-457 | a looked up name has the value of the scope, whether it was kept, is computed now or comes from the base |
| `FormulaWhere.Scope.EvaluateWhere` | aismart-src/aismart/librose/formula.cpp:479-486 | a `where` body is evaluated in a new scope over the current one |
| `FormulaWhere.Scope.EvaluateMember` | aismart-src/aismart/librose/formula.cpp:277-291 | behind a dot members come first, and what is missing there comes from outside |
| `FormulaWhere.TableEntry` | aismart-src/aismart/librose/formula.cpp:758-805 | the table of clauses holds, for each name, the last clause, whose value in the base is the one bound |
| `FormulaWhere.EvalAgrees` | aismart-src/aismart/librose/formula.cpp:460-487 | evaluation depends on the environment only at the free names |
| `FormulaWhere.UnusedClause` | aismart-src/aismart/librose/formula.cpp:445-457 | a clause the body does not ask for changes nothing, even one whose evaluation fails |
| `FormulaWhere.OperandsInOrder` | aismart-src/aismart/librose/formula.cpp:340-373 | operators, element access and signs get the values of their operands from left to right |
| `FormulaWhere.ItemsInOrder` | aismart-src/aismart/librose/formula.cpp:103-112 | the items of a list are evaluated each in its place |
| `FormulaWhere.ItemsEvaluate` | aismart-src/aismart/librose/formula.cpp:103-112 | a list or call gets the values of its items |
| `FormulaWhere.DotFinds` | aismart-src/aismart/librose/formula.cpp:277-291 | behind a dot `self` is the left value, a member hides a name outside, and a value without members stands for itself |
| `FormulaWhere.WhereBinds` | aismart-src/aismart/librose/formula.cpp:445-457 | a name means the value of the last clause of that name, taken in the scope outside, whatever the other clauses bind |
| `FormulaWhere.WhereLeaves` | aismart-src/aismart/librose/formula.cpp:445-457 | a name without a clause means what it means outside |
| `FormulaStrings.StringExpression.constructor` | aismart-src/aismart/librose/formula.cpp:557-581 | cutting the spans out leaves a text and substitutions from which any values give the interpolated text |
| `FormulaStrings.StringExpression.Execute` | aismart-src/aismart/librose/formula.cpp:588-601 | inserting the values last span first gives the text with each span replaced in place |
| `FormulaStrings.InterpolatesInPlace` | aismart-src/aismart/librose/formula.cpp:555-617 | plain text with formulas in braces becomes the text with each brace replaced by its value, adjacent spans included |
| `FormulaStrings.UnclosedStays` | aismart-src/aismart/librose/formula.cpp:562-568 | an opening brace that is not closed stays, with all that follows it |
| `FormulaStrings.SpliceSuffix` | aismart-src/aismart/librose/formula.cpp:588-601 | inserting values leaves the text behind all substitutions alone |
| `FormulaStrings.CutOne` | aismart-src/aismart/librose/formula.cpp:560-574 | one more span cut out keeps the text recoverable |
| `TerrainBuilder.Builder.BuildRule` | aismart-src/aismart/librose/builder.cpp:1134-1195 | scanning only the cells of the terrains of the smallest constraint and skipping its terrain test leaves the tiles of the engine that makes the full test |
| `TerrainBuilder.Builder.BuildTerrains` | aismart-src/aismart/librose/builder.cpp:1108-1211 | all rules of a layer in order, each scanned on the cells by terrain |
| `TerrainBuilder.Builder.FindPivot` | aismart-src/aismart/librose/builder.cpp:1139-1174 | the chosen constraint is the first with the fewest cells (on the unit layer the fewest but not none), with its terrains |
| `TerrainBuilder.Builder.CountCells` | aismart-src/aismart/librose/builder.cpp:1147-1161 | giving up early tells a count below the limit from one that is not, and is exact below it |
| `TerrainBuilder.Builder.RuleMatches` | aismart-src/aismart/librose/builder.cpp:992-1044 | the match test returns true exactly when place, luck, terrain and flags of every constraint allow it |
| `TerrainBuilder.Builder.ApplyRule` | aismart-src/aismart/librose/builder.cpp:1046-1074 | applying changes the tiles constraint by constraint and stops at a cell outside the map |
| `TerrainBuilder.Builder.TouchTile` | aismart-src/aismart/librose/builder.cpp:1057-1071 | the images and flags one constraint adds to its tile, and where the images of units begin |
| `TerrainBuilder.Builder.IndexCells` | aismart-src/aismart/librose/builder.cpp:1110-1119 | the cells of the map are grouped by terrain in the order of the two loops |
| `TerrainBuilder.Builder.RebuildTerrain` | aismart-src/aismart/librose/builder.cpp:353-361 | rebuilding the unit layer gives the tiles of one rebuild from the cleared tiles and keeps the images of the map layer |
| `TerrainBuilder.Builder.RebuildAll` | aismart-src/aismart/librose/builder.cpp:371-377 | rebuilding everything does not depend on what was there before |
| `TerrainBuilder.Builder.Reset` | aismart-src/aismart/librose/builder.cpp:127-131 | every tile is cleared; a full reset leaves no flag, no image and no mark |
| `TerrainBuilder.Builder.constructor` | aismart-src/aismart/librose/builder.cpp:198-244 | a new builder holds the map layer built on empty tiles, or just empty tiles for a textured map, an unnamed tile set or an empty map |
| `TerrainIndex.ScanTriesOnce` | aismart-src/aismart/librose/builder.cpp:1176-1193 | a location where the full test succeeds with its pivot cell in the scanned rectangle is tried exactly once; with the pivot cell outside it is not tried |
| `TerrainIndex.MatchingCellsSuffice` | aismart-src/aismart/librose/builder.cpp:1176-1193 | trying only the matching cells leaves the same tiles as trying every cell of the index |
| `TerrainIndex.MapIndexExact` | aismart-src/aismart/librose/builder.cpp:1110-1119 | on the map layer the index tells exactly where each terrain is |
| `TerrainIndex.IndexHoldsAll` | aismart-src/aismart/librose/builder.cpp:1110-1119 | grouping by terrain loses no cell and repeats none |
| `TerrainIndex.ColumnsHold` | aismart-src/aismart/librose/builder.cpp:1111-1112 | the two loops visit every cell from -2 to the width and from -2 to the height once |
| `TerrainIndex.RunIsLastRebuild` | aismart-src/aismart/librose/builder.cpp:353-361 | after any number of rebuilds with changing units the tiles are those of one rebuild with the last units; so rebuilding twice is rebuilding once |
| `TerrainIndex.RunKeepsMapLayer` | aismart-src/aismart/librose/builder.cpp:353-361 | any number of rebuilds leaves the map-layer images of every tile unchanged |
| `TerrainRules.PivotChangesNoVerdict` | aismart-src/aismart/librose/builder.cpp:1006-1026 | where the terrain of the pivot cell is known to fit, skipping its test changes no verdict |
| `TerrainRules.ScanComplete` | aismart-src/aismart/librose/builder.cpp:1182-1192 | a location whose pivot cell is among the cells is tried, and different cells try different locations |
| `TerrainRules.AppliedImages` | aismart-src/aismart/librose/builder.cpp:1046-1074 | applying a rule that fits adds to each cell exactly the images of the constraints lying on it, in order |
| `TerrainRules.AppliedSetsFlags` | aismart-src/aismart/librose/builder.cpp:1068-1071 | applied flags are set |
| `TerrainRules.AppliedGrows` | aismart-src/aismart/librose/builder.cpp:1046-1074 | applying loses no flag and no image |
| `TerrainRules.ScannedMapLayer` | aismart-src/aismart/librose/builder.cpp:1046-1074 | scanning on the unit layer leaves the map-layer images alone |
| `TerrainRules.SlotInjective` | aismart-src/aismart/librose/builder.cpp:152-157 | different cells of the map have different tiles |
| `TerrainRules.SlotInRange` | aismart-src/aismart/librose/builder.cpp:142-157 | every cell of the map has a tile |
| `TerrainRules.MatchedFits` | aismart-src/aismart/librose/builder.cpp:1006-1013 | a rule that matches lies on the map, so applying it is never cut short |
| `TerrainFlags.MatchedMeans` | aismart-src/aismart/librose/builder.cpp:992-1044 | a rule fully matches if and only if place and dice allow it and every constraint lies on the map with its border, on a fitting terrain, on a tile without its forbidden flags and with all the flags it asks for |
| `TerrainFlags.MissingFlagBlocks` | aismart-src/aismart/librose/builder.cpp:1034-1039 | a constraint that asks for a flag the tile lacks keeps its rule from matching |
| `TerrainFlags.SetFlagBlocks` | aismart-src/aismart/librose/builder.cpp:1028-1033 | a constraint that forbids a flag the tile has keeps its rule from matching |
| `TerrainFlags.AppliedFlags` | aismart-src/aismart/librose/builder.cpp:1068-1071 | applying sets on each cell exactly the flags of the constraints lying on it |
| `TerrainFlags.AppliedBlocks` | aismart-src/aismart/librose/builder.cpp:1028-1071 | a rule that sets a flag keeps out every rule that forbids it there, wherever that one is tried and whatever its pivot |
| `TerrainFlags.BlockedForGood` | aismart-src/aismart/librose/builder.cpp:1028-1071 | and does so to the end of the build, whatever rules are built in between |
| `TerrainFlags.BuiltOnce` | aismart-src/aismart/librose/builder.cpp:910-924 | when all rules set and forbid one flag, as `set_no_flag` asks, a whole build puts on a cell the images of at most one rule, applied once |
| `TerrainFlags.BuildMarks` | aismart-src/aismart/librose/builder.cpp:1057-1066 | over a whole build the map layer marks no tile, and the unit layer marks each tile where its first image was put |
| `TerrainFlags.RebuiltMeans` | aismart-src/aismart/librose/builder.cpp:100-112 | a rebuild keeps the images in front of the mark, and the new mark is where the images of units begin |
| `TerrainFlags.PivotFewest` | aismart-src/aismart/librose/builder.cpp:1139-1174 | the constraint scanned by has the fewest fitting cells, the first among equals; on the unit layer those without any are passed over |
| `TerrainOrder.MapIndexInOrder` | aismart-src/aismart/librose/builder.cpp:1110-1119 | the cells of a terrain are listed column by column, from the top |
| `TerrainOrder.MatchingCellsFirst` | aismart-src/aismart/librose/builder.cpp:1176-1184 | a rule is tried on the cells of the first fitting terrain, then on those of the next |
| `TerrainOrder.RulesInOrder` | aismart-src/aismart/librose/builder.cpp:1132-1135 | the first rule is built first and the others on what it left |
| `TerrainOrder.ScannedOne` | aismart-src/aismart/librose/builder.cpp:1183-1192 | where its pivot lies on the cell a rule is applied if it matches, and only then |
| `TerrainOrder.RuleBuiltMeans` | aismart-src/aismart/librose/builder.cpp:1134-1195 | on the map layer a rule is built as if tried on every cell of the map |
| `HexGeometry.SumAndDifference` | aismart-src/aismart/librose/map_location.cpp:168-189 | adding and subtracting an offset undo each other |
| `HexGeometry.SumTranslates` | aismart-src/aismart/librose/map_location.cpp:173-184 | `legacy_sum` is a translation of the hex plane, whatever the parities |
| `HexGeometry.AdjacentIsStep` | aismart-src/aismart/librose/map_location.cpp:450-462 | `tiles_adjacent` holds exactly for the six steps along the axes |
| `HexGeometry.TableHoldsTurns` | aismart-src/aismart/librose/builder.cpp:485-487 | the rotation table holds the powers of one linear map |
| `HexGeometry.SixTurns` | aismart-src/aismart/librose/builder.cpp:485-487 | the map has order six |
| `HexGeometry.RotatedPosition` | aismart-src/aismart/librose/builder.cpp:530-542 | a rotated cell lies where turning the offset of the template cell puts it |
| `HexGeometry.RotateInjective` | aismart-src/aismart/librose/builder.cpp:530-542 | rotation is one to one |
| `HexGeometry.RotateKeepsAdjacency` | aismart-src/aismart/librose/builder.cpp:530-542 | on cells with columns from zero on, rotation keeps adjacency both ways |
| `HexGeometry.RotateCompose` | aismart-src/aismart/librose/builder.cpp:530-542 | two rotations make one exactly when the column in between is even or not negative |
| `HexGeometry.RotateRule` | aismart-src/aismart/librose/builder.cpp:615-646 | a rotated rule is the rule turned about the origin and moved as a whole, its leftmost cell in column zero, no cell with a negative column or row, and its topmost cell at most one and a half rows down |
| `HexGeometry.RotatedRuleCovers` | aismart-src/aismart/librose/builder.cpp:615-646 | wherever a rotated rule is tried, the way between two covered cells is the turned way between the cells of the template |
| `HexGeometry.ShiftIsValid` | aismart-src/aismart/librose/builder.cpp:636-643 | the shift after a rotation brings columns and rows to zero on and keeps the rule at the top |
| `UnitMap.BaseMap.Insert` | aismart-src/aismart/librose/base_map.cpp:148-192 | fails at an invalid location or a taken cell and changes nothing; otherwise the unit stands on the cell, the array stays dense with right positions, and cells and units correspond one to one |
| `UnitMap.BaseMap.SortMap` | aismart-src/aismart/librose/base_map.cpp:108-146 | the unit is moved to its place among the others, which sorts the array if the others were sorted, and every unit still knows its position |
| `UnitMap.BaseMap.Erase` | aismart-src/aismart/librose/base_map.cpp:385-423 | the unit leaves the array and its cell; everything else stays and the positions are dense |
| `UnitMap.BaseMap.Extract` | aismart-src/aismart/librose/base_map.cpp:323-344 | takes the overlay unit at a cell off the grid, and only that |
| `UnitMap.BaseMap.Place` | aismart-src/aismart/librose/base_map.cpp:346-363 | puts an extracted unit on a cell and sorts it in by its new location when it asks for it; the agreement of cells and units is whole again if and only if the cell was free |
| `UnitMap.BaseMap.Move` | aismart-src/aismart/librose/base_map.cpp:101-105 | moves the overlay unit to another cell and sorts it in there when it asks for it; every other unit keeps its cell if and only if that one was free or its own |
| `UnitMap.BaseMap.Expand` | aismart-src/aismart/librose/base_map.cpp:194-218 | growing keeps every cell under the changed row pitch and adds empty ones |
| `UnitMap.BaseMap.ConflictLoc` | aismart-src/aismart/librose/base_map.cpp:220-242 | the cell found is free: the wanted one, or the first free one beyond the board in its row, with two more columns if there is none |
| `UnitMap.BaseMap.SetRect` | aismart-src/aismart/librose/base_unit.cpp:109-126 | re-seating a unit after its rectangle changed displaces no other unit and sorts it in by its new location when it asks for it |
| `UnitMap.BaseMap.InsertFree` | aismart-src/aismart/librose/base_map.cpp:244-250 | inserting a unit by its rectangle displaces no other: an overlay unit always finds a cell, and a base unit is refused exactly where the cell found holds one; the unit comes last or, when it asks for sorting, to its place |
| `UnitMap.BaseMap.UnitsFromRect` | aismart-src/aismart/librose/base_map.cpp:430-474 | on cells, the units in the area are listed, each once, column by column from the top and base units first |
| `UnitMap.BaseMap.constructor` | aismart-src/aismart/librose/base_map.cpp:72-86 | an empty map is in agreement |
| `UnitMap.Unit.SetLocation` | aismart-src/aismart/librose/base_unit.cpp:93-107 | a unit touches just its location |
| `UnitMap.MovedPermutes` | aismart-src/aismart/librose/base_map.cpp:108-146 | sorting in permutes the array |
| `UnitMap.MovedSorts` | aismart-src/aismart/librose/base_map.cpp:108-146 | and sorts it by rows, then columns, whenever the other units were sorted |
| `UnitMap.IndexInjective` | aismart-src/aismart/librose/base_map.cpp:25-25 | different cells have different grid entries |
| `FileData.TextBuffer.ReplaceString` | aismart-src/aismart/librose/filesystem.cpp:2085-2119 | each pair in turn replaces its occurrences from left to right behind a byte order mark; the text ends with a NUL byte within capacity, and the flag tells whether anything was replaced |
| `FileData.TextBuffer.ReplacePairIn` | aismart-src/aismart/librose/filesystem.cpp:2099-2116 | the search loop for one pair ends and gives the functional replace-all of the text up to its first NUL byte |
| `FileData.TextBuffer.ReplaceSpan` | aismart-src/aismart/librose/filesystem.cpp:2043-2061 | the span gives way to the new bytes, the rest moves, and the buffer is large enough |
| `FileData.TextBuffer.ResizeData` | aismart-src/aismart/librose/filesystem.cpp:2025-2041 | room in whole blocks, the first bytes kept, never less than before |
| `FileData.ReplaceJoins` | aismart-src/aismart/librose/filesystem.cpp:2099-2116 | replacing is joining the pieces of the text with the new string, and the pieces joined with the old string are the text |
| `FileData.PiecesFree` | aismart-src/aismart/librose/filesystem.cpp:2099-2116 | no piece between two replaced occurrences holds the pattern |
| `FileData.WholeText` | aismart-src/aismart/librose/filesystem.cpp:2085-2119 | on text without NUL bytes every pair replaces throughout |
| `FileData.TextStart` | aismart-src/aismart/librose/filesystem.cpp:2091-2094 | the search starts behind the three bytes of a byte order mark, and at the very front when they are not there |
| `FileData.FindsMeans` | aismart-src/aismart/librose/filesystem.cpp:2099-2116 | the flag of a pair is set when the strings differ and the first one stands in front of the first NUL byte |
| `FileData.PairsInOrder` | aismart-src/aismart/librose/filesystem.cpp:2099-2116 | the pairs are taken in the order of the list, each on what the one before it left |
| `FileData.CleanIsUnchanged` | aismart-src/aismart/librose/filesystem.cpp:2096-2116 | when the flag stays unset the text is unchanged |
| `FileData.BehindNulStays` | aismart-src/aismart/librose/filesystem.cpp:2099-2116 | what lies behind the first NUL byte is not touched |
| `FrameTimeline.Animated.AddFrame` | aismart-src/aismart/librose/animated_impl.hpp:84-93 | the new frame begins where the last one ends; the frames stay contiguous |
| `FrameTimeline.Animated.StartAnimation` | aismart-src/aismart/librose/animated_impl.hpp:96-112 | the animation is at the given time now and shows its first frame; whether it changes is left as it was |
| `FrameTimeline.Animated.UpdateLastDrawTime` | aismart-src/aismart/librose/animated_impl.hpp:121-162 | with a clock that does not go back the shown frame stays in range and is the first or has begun; a cycling animation ends up no later than its end, in phase; it stops changing only when it has no frames |
| `FrameTimeline.Animated.CutExtraTime` | aismart-src/aismart/librose/animated_impl.hpp:152-157 | the cycle loop terminates with the time cut by whole cycles to at most the end |
| `FrameTimeline.Animated.CatchUp` | aismart-src/aismart/librose/animated_impl.hpp:158-161 | the next frame is shown exactly when the shown one has ended and is not the last |
| `FrameTimeline.Animated.SetAnimationTime` | aismart-src/aismart/librose/animated_impl.hpp:238-245 | the animation is at the given time and shows its first frame again |
| `FrameTimeline.Animated.SetBeginTime` | aismart-src/aismart/librose/animated_impl.hpp:382-389 | all frames move together with the begin and, in a started animation, with the time |
| `FrameTimeline.Animated.RemoveFramesUntil` | aismart-src/aismart/librose/animated_impl.hpp:356-362 | the shortest run of frames goes from the front that makes the animation begin late enough; the end stays; the index of the shown frame stays too and is valid afterwards exactly when it is the first or as many frames are left behind it and the one now there has begun |
| `FrameTimeline.Animated.SetEndTime` | aismart-src/aismart/librose/animated_impl.hpp:365-378 | frames that would begin at or behind the new end go, and the last one left ends exactly there; the shown frame is valid afterwards exactly when its index is still in range |
| `FrameTimeline.CutWholeCycles` | aismart-src/aismart/librose/animated_impl.hpp:152-157 | what the cycle loop takes off is a whole number of cycles |
| `FrameTimeline.CatchesUp` | aismart-src/aismart/librose/animated_impl.hpp:158-161 | an animation that has fallen behind reaches its frame within as many updates as it has frames |
| `FrameTimeline.Animated.UpdateAt` | aismart-src/aismart/librose/animated_impl.hpp:121-162 | a run of updates of an animation that goes on and runs once: it is never frozen, each update moves one frame on at most, and at one tick it catches up within as many updates as it has frames |
| `FrameTimeline.RunCatchesUp` | aismart-src/aismart/librose/animated_impl.hpp:158-161 | updates at any later times catch up as well |
| `FrameTimeline.SettledIsShown` | aismart-src/aismart/librose/animated_impl.hpp:158-161 | the frame it settles on is the one running at the time |
| `CharBlocks.CharBlockMap.Insert` | aismart-src/aismart/librose/font.cpp:91-111 | blocks stay sorted and disjoint, no association changes, and the new font goes to exactly the points from the start on up to the next block |
| `CharBlocks.CharBlockMap.Compress` | aismart-src/aismart/librose/font.cpp:116-129 | the iterator loop gives the compressed blocks |
| `CharBlocks.CharBlockMap.GetId` | aismart-src/aismart/librose/font.cpp:130-140 | the lookup returns the font of the block over the point, or -1 |
| `CharBlocks.InsertFills` | aismart-src/aismart/librose/font.cpp:90-111 | all points of the range without a font get the new one if and only if none of them lies behind a block that begins in the range at or behind the start |
| `CharBlocks.GapBehindBlockStaysOpen` | aismart-src/aismart/librose/font.cpp:90-111 | a range with a block in its middle is filled in front of the block only |
| `CharBlocks.CompressedExact` | aismart-src/aismart/librose/font.cpp:116-129 | compressing keeps every association and adds just the gaps between neighbours of the same font |
| `CharBlocks.CompressedDiffers` | aismart-src/aismart/librose/font.cpp:116-129 | no two neighbouring blocks are left with the same font |
| `CharBlocks.CompressedSorted` | aismart-src/aismart/librose/font.cpp:116-129 | compressed blocks are sorted and disjoint |

## Left out

- ConfigTrackExact.TrackedExact: assumes a settled diff. Outside, a change that edits children is cleaned with the edits of a neighbour, and whether that comes out right depends on those edits in turn, along the whole chain of neighbours.
- ConfigNode.GetDiff: works on tree values, so a node that keeps an empty child list for a tag is seen like one without; only the order of the edits in the diff can differ.
- FormulaParser.ParseExpression: keywords, `def`, decimals and map literals of the cited lines are not modelled.
- FormulaParser.ParseWithoutOperator: map literals, decimals and the creation of builtin functions are not modelled; a call is kept by name with its arguments.
- FormulaWhere.Scope.Evaluate: a call evaluates all its arguments first, so builtin functions that leave some unevaluated are not covered.
- UnitMap.BaseMap.Insert: the rejected unit is left to the caller; the code deletes it before it fails.
- UnitMap.BaseMap.SetRect: asks for an overlay unit, because `extract` takes the overlay unit at the cell whatever the layer of the unit is, and `place` writes to the overlay layer.
- UnitMap.BaseMap.UnitsFromRect: the branch that compares rectangles, for maps without cells, is not modelled.
- FileData.TextBuffer.ReplaceString: asks for patterns that are not empty and hold no NUL byte; on others the search of the code does not end or does not see the whole pattern.
- Attribute values: doubles, translatable strings and numbers written in another form than the canonical one are not modelled; a value is blank, a boolean, an integer or a text. Conversions between them follow the code for these kinds.
- Integer widths: counters, indices, ticks and coordinates are unbounded, except where the code depends on the width (an index read from a negative number, the unsigned comparison of a probability, `INT_MAX` as the start of a minimum).
- State after a thrown error: a failed `ApplyDiff` or `ClearDiffTrack` leaves a well-formed node whose children are not described.
- References into a node: `add_child` and `child` hand out references through which a child may be changed later; here children are values of their parent.
- Moving and swapping configs, searching, attribute iteration and hashing: easy members beside the mutators above.
- Allocation inside `clear`: the nodes are a map from addresses to child lists, and deleting one removes its address.
- User functions and pointers in the parser.
- The tokenizer: the parser starts from tokens without white space and comments.
- Dice, arithmetic of values and builtin functions: dice are excluded; the others are parameters of `FormulaWhere.Semantics`, which compute from the values of their arguments. The name `self` behind a dot has a value that depends on the left operand only. String literals with formulas in them are covered by `FormulaStrings` alone.
- Image loading and variants, image positions under rotation (`xyrotations`), the cache of sorted images and time of day.
- What the units report to the terrain builder (`build_terrains` and `terrain_matches` of the unit map) comes from an application class that is not part of this model; it is a parameter, required to name only cells that fit.
- `change_map` and `reload_map`: a builder here keeps the size of its map.
- Several touched cells: `set_location` makes a unit touch just its location, so the loop of `insert` over more cells is never entered.
- Drawing locations, hidden units and screen positions.
- The start of the search in `replace_string` is kept as an offset, since the code keeps a pointer across a reallocation; overlapping copies are moves.
- Reading, truncating and closing files.
- Acceleration other than 1, paused animations and `reset_start_tick`: time is exact integer arithmetic here.
- `set_end_time` on an animation without frames, or to a time not after its begin, uses the last of no frames; the contract asks for neither.
- Rendering, input, networking, Bluetooth and the dialogs of the application.
