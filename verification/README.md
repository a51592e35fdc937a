# iosMath math-list core in Dafny

This project models the data core of iosMath, a LaTeX math typesetting library:

- **Math list.** The atom/math-list model of `MTMathList`, its edits, and the `finalized` normalisation.
- **Path index.** `MTMathListIndex`, which addresses a position inside nested lists, and `MTMathListRange`.
- **Font tables.** The per-glyph lookups of `MTFontMathTable`, over the tables that the font converter writes.
- **Build results.** The error codes of `MTMathListBuilder` and its nil-on-error rule.

Everything is an immutable value, and every operation is a pure function. Where the source mutates a list in place, the model returns the new list.

Modules:

- `Foundation` (`foundation.dfy`): `Option`, `Result`, `NSRange`, and a sequence concatenation.
- `MathLists` (`math_lists.dfy`):
  - the 13 atom types;
  - atoms, with their fraction / radical / large-operator fields as a `Body`;
  - `fuse:`;
  - the list edits, which return a `Failure` for out-of-range indexes.
- `Fusion` (`fusion.dfy`): the fusing pass of `finalized`. It is proved equal to a declarative description: the list splits into unique maximal runs of fusible neighbours, and each output atom is the fusion of one run.
- `Reclassification` (`reclassification.dfy`): binary/unary operator classes from context.
- `Finalize` (`finalize.dfy`): the whole `finalized` pass. It finalizes nested lists, tracks positions, fuses runs and reclassifies operators. The module also holds the shape, position-tracking and idempotence theorems.
- `MathListIndexes` (`math_list_index.dfy`): the index as the header's chain of `(atomIndex, subIndexType, subIndex)` nodes. Every operation is stated against `Path`, the chain read as a sequence of steps.
- `MathListRanges` (`math_list_range.dfy`): ranges on one line, with union as the smallest enclosing range.
- `FontMathTables` (`font_math_table.dfy`):
  - the variant, italic-correction, top-accent and assembly tables, in the shape of the plist;
  - glyph parts and their records;
  - the lookups with their documented defaults.
- `BuildResults` (`build_results.dfy`): `MTParseErrors` and the outcome of `build`.

Choices where the headers leave behaviour open:

- **Fusion.** Only numbers are fused: a number whose left neighbour is a number without scripts is absorbed into that neighbour.
  - The fused atom keeps the first atom's type and specialised fields and takes the last atom's scripts.
  - It records the original atoms in `fusedAtoms` and adds up the tracked range lengths.
- **Position tracking.** An atom with `indexRange` equal to `(0, 0)` does not track a position yet. `finalized` gives it the position where the range of the atom before it ends (0 for the first atom), with length one. In a list of fresh atoms this numbers them 0, 1, 2, …; after atoms that already track consecutive ranges it numbers on from the end of the last one, so no two atoms claim the same position.
- **Operators.** An operator is binary when the atom before it can end an operand and the atom after it can start one; otherwise it is unary.
  - An operator of either class never ends an operand, so an operator right after another operator is unary even when the first one became unary: in "- - 2" both minus signs are unary. The TeXbook's rule 5 would instead treat the first, reclassified sign as an operand.
- **`levelUpWithSubIndex:type:`** attaches the new node below the innermost node, and **`levelDown`** removes the innermost node. This is how the header's own comments describe them, as "at the end" and "removing the last index item".
- **`next` / `previous`** move the innermost position on its line. `previous` is nil at position 0.
- **`unionRange:`** is nil for ranges on different lines.
- **`getLargerGlyph:`** returns the first listed vertical variant that differs from the glyph, because OpenType lists variants by increasing size.

## Model

| member | source | states |
|---|---|---|
| MathLists.MakeAtom | iosMath/lib/MTMathList.h:48 | an atom of the given type and nucleus, without scripts, fusion history or tracked range, whose specialised fields match its type |
| MathLists.MakeLargeOperator | iosMath/lib/MTMathList.h:94-103 | a large operator with the given nucleus whose limits flag is the one given at construction |
| MathLists.Fuse | iosMath/lib/MTMathList.h:57-66 | fusing concatenates the nuclei, records the originals of both atoms in order, extends the tracked range by the second atom's length, keeps the receiver's type and fields, and takes over the scripts of the atom fused in |
| MathLists.FuseAssociative | iosMath/lib/MTMathList.h:65-66 | fusing three atoms gives the same atom whichever pair is fused first |
| MathLists.AddAtom | iosMath/lib/MTMathList.h:121 | the list grows by one; the new atom is last and every earlier atom is unchanged |
| MathLists.InsertAtom | iosMath/lib/MTMathList.h:123 | an out-of-range error exactly when the index is past the end; otherwise the atom sits at the index, atoms before it are unchanged and atoms after it move up by one |
| MathLists.RemoveLastAtom | iosMath/lib/MTMathList.h:125-126 | a non-empty list loses exactly its last atom and keeps its prefix; an empty list is unchanged |
| MathLists.RemoveAtomAtIndex | iosMath/lib/MTMathList.h:127 | an out-of-range error exactly when the index is at or past the end; otherwise exactly that atom goes and the rest keep their relative order |
| MathLists.RemoveAtomsInRange | iosMath/lib/MTMathList.h:128 | an out-of-range error exactly when the range reaches past the end; otherwise exactly the atoms in the range go and the rest keep their relative order |
| MathLists.RemoveLastUndoesAdd | iosMath/lib/MTMathList.h:121-126 | removing the last atom after appending one gives back the original list |
| MathLists.RemoveAtIndexUndoesInsert | iosMath/lib/MTMathList.h:121-127 | removing at an index after inserting there gives back the original list, and inserting at the end is appending |
| MathLists.RemoveRangeGeneralisesRemoveAt | iosMath/lib/MTMathList.h:125-128 | removing a one-atom range is removing that atom, and removing the last one-atom range is removing the last atom |
| Fusion.FuseAll | iosMath/lib/MTMathList.h:133-135 | combining like atoms never lengthens the list and empties it only when it was empty |
| Fusion.Runs | iosMath/lib/MTMathList.h:133-134 | the groups of like atoms occurring together: no more groups than atoms, none empty, the last atom in the last group |
| Fusion.FuseRun | iosMath/lib/MTMathList.h:57-66 | a group of fusible atoms becomes one atom with the first atom's type and fields, the last atom's scripts, all nuclei in order, a range from the first atom's start covering all their lengths, and the originals of every atom as its fused atoms |
| Fusion.RunsArePartition | iosMath/lib/MTMathList.h:133-134 | the groups cut the list, in order, into runs whose neighbours can all be fused, and no run could be extended into the next |
| Fusion.RunPartitionUnique | iosMath/lib/MTMathList.h:133-134 | any such cut of the list into maximal runs is exactly the groups: which atoms get combined is fixed by the list alone |
| Fusion.FuseAllFusesRuns | iosMath/lib/MTMathList.h:133-135 | the left-to-right pass produces, in order, the fusion of each maximal run |
| Fusion.FuseAllLeavesNoFusible | iosMath/lib/MTMathList.h:133-134 | after the pass no two neighbours can be combined any more |
| Fusion.FuseAllKeepsNuclei | iosMath/lib/MTMathList.h:133-134 | combining like atoms loses and reorders no symbol: the nuclei read left to right are unchanged |
| Fusion.FuseAllKeepsNoFusible | iosMath/lib/MTMathList.h:133-134 | a list with nothing to combine passes through unchanged |
| Reclassification.Reclassify | iosMath/lib/MTMathList.h:133-135 | only operator atoms change, and only between binary and unary; in the result each operator is binary exactly when its neighbours in the result make it one |
| Reclassification.OperatorAfterOperatorIsUnary | iosMath/lib/MTMathList.h:133-135 | an operator right after another operator comes out unary, whatever the first one becomes |
| Reclassification.ReclassifyIdempotent | iosMath/lib/MTMathList.h:133-135 | reclassifying an already reclassified list changes nothing |
| Finalize.Track | iosMath/lib/MTMathList.h:61-63 | every atom ends up tracking a range: an untracked atom gets the position where the range before it ends (0 at the start) with length one, a tracked atom is left alone, and nothing else changes |
| Finalize.FinalizedBody | iosMath/lib/MTMathList.h:73-87 | the specialised fields keep their kind, a radical keeps or lacks its degree as before, a large operator's limits flag is kept, and numerator, denominator, radicand and degree each keep their symbols in order (their nuclei read left to right) while becoming final |
| Finalize.FinalizedAtom | iosMath/lib/MTMathList.h:133-136 | finalizing the nested lists of an atom keeps its type, nucleus, fusion history, range, which scripts it has, its limits, and whether its fields match its type; a fraction stays a fraction and a radical a radical with or without its degree as before; each script, numerator, denominator, radicand and degree keeps its symbols in order and becomes final |
| Finalize.Prepared | iosMath/lib/MTMathList.h:57-63 | the atoms handed to fusion are the original atoms in order with the same type, nucleus and fusion history, each tracking a range: its own, or the position where the range before it ends with length one; apart from its range each prepared atom is exactly the original atom with its nested lists finalized, and every prepared atom is settled (tracks a range, nested lists final) |
| Finalize.FinalizedFusesRuns | iosMath/lib/MTMathList.h:133-135 | the finalized atoms are, in order, the fusions of the maximal runs of the prepared atoms, differing only in operator class |
| Finalize.FinalizedShape | iosMath/lib/MTMathList.h:133-136 | finalizing never lengthens the list; each result atom stands for a consecutive slice of the original atoms, carries their nuclei concatenated and a range as long as theirs together, and has the type of the slice's first atom up to the binary/unary distinction |
| Finalize.FinalizedTracksPositions | iosMath/lib/MTMathList.h:57-63 | for a list of freshly made atoms, each result atom's range is exactly the positions its slice occupied in the original list, and a fused atom lists exactly the atoms of that slice as its fused atoms |
| Finalize.Finalized | iosMath/lib/MTMathList.h:133-136 | the result is never longer than the list, is empty exactly when the list is, keeps the list's symbols in order (its nuclei read left to right are the input's), and is in final form at every depth: every atom tracks a range, no neighbours can be fused, and every operator already has the class its context calls for |
| Finalize.FuseAllKeepsConsecutive | iosMath/lib/MTMathList.h:61-66 | when each range starts where the one before it ends, the fused atoms' ranges do too, starting and ending at the same positions |
| Finalize.PreparedConsecutive | iosMath/lib/MTMathList.h:61-63 | when the tracked atoms come first with ranges that follow each other, every prepared range starts where the one before it ends |
| Finalize.FinalizedRangesConsecutive | iosMath/lib/MTMathList.h:61-63 | for such a list the finalized atoms' ranges follow each other, so no position is claimed twice; for a list of fresh atoms they run from 0 to the list's length |
| Finalize.FinalIsFixed | iosMath/lib/MTMathList.h:133-136 | finalizing a list in final form gives back the same list |
| Finalize.FinalizedIdempotent | iosMath/lib/MTMathList.h:133-136 | finalizing a finalized list changes nothing |
| MathListIndexes.Code | iosMath/lib/MTMathListIndex.h:30-47 | every sub-index type has a value below 8, and only the none type has value 0 |
| MathListIndexes.FromCode | iosMath/lib/MTMathListIndex.h:30-47 | exactly the values 0 to 7 name a sub-index type, and that type has that value |
| MathListIndexes.CodeInjective | iosMath/lib/MTMathListIndex.h:30-47 | distinct sub-index types have distinct values |
| MathListIndexes.Path | iosMath/lib/MTMathListIndex.h:13-16 | an index is a finite non-empty chain of nodes, ending exactly at the node without a sub-index |
| MathListIndexes.FromPath | iosMath/lib/MTMathListIndex.h:13-16 | every non-empty sequence of nodes is the chain of some index |
| MathListIndexes.PathInjective | iosMath/lib/MTMathListIndex.h:13-16 | an index is determined by its chain of nodes |
| MathListIndexes.PathRoundTrip | iosMath/lib/MTMathListIndex.h:13-16 | rebuilding an index from its chain gives back the index |
| MathListIndexes.WellFormedIsPathWise | iosMath/lib/MTMathListIndex.h:13-32 | an index obeys "type none exactly when there is no sub-index" at every node exactly when only the last node of its chain has type none |
| MathListIndexes.Level | iosMath/lib/MTMathListIndex.h:26 | the level is the number of links followed to reach the final node |
| MathListIndexes.Level0Index | iosMath/lib/MTMathListIndex.h:80 | a single well-formed node at the given position, at level 0 |
| MathListIndexes.IndexAtLocation | iosMath/lib/MTMathListIndex.h:81 | a new node in front of the given sub-index; well formed exactly when the type is none precisely when there is no sub-index, and the sub-index is well formed |
| MathListIndexes.FinalIndex | iosMath/lib/MTMathListIndex.h:58-63 | the position held by the innermost node |
| MathListIndexes.FinalSubIndexType | iosMath/lib/MTMathListIndex.h:65-66 | the branch type of the innermost link, and none for a level-0 index |
| MathListIndexes.FinalSubIndexTypeNone | iosMath/lib/MTMathListIndex.h:65-66 | on a well-formed index the innermost type is none exactly at level 0 |
| MathListIndexes.HasSubIndexOfType | iosMath/lib/MTMathListIndex.h:68-69 | true exactly when some node of the chain has the given type |
| MathListIndexes.LevelUp | iosMath/lib/MTMathListIndex.h:71-72 | the given index is attached below the innermost node through the given branch type; every other node is kept and the level grows by one plus the attached index's level |
| MathListIndexes.LevelUpWellFormed | iosMath/lib/MTMathListIndex.h:71-72 | levelling two well-formed indexes up gives a well-formed index exactly when the branch type is not none |
| MathListIndexes.LevelDown | iosMath/lib/MTMathListIndex.h:73-74 | nil exactly for a level-0 index; otherwise the innermost node is removed and its parent ends the chain |
| MathListIndexes.LevelDownWellFormed | iosMath/lib/MTMathListIndex.h:73-74 | levelling down keeps an index well formed |
| MathListIndexes.LevelDownUndoesLevelUp | iosMath/lib/MTMathListIndex.h:71-74 | levelling a well-formed index up by a single node and then down gives back the index |
| MathListIndexes.LevelUpUndoesLevelDown | iosMath/lib/MTMathListIndex.h:71-74 | for a well-formed index, levelling down and then up again by the innermost node and branch type gives back the index |
| MathListIndexes.Next | iosMath/lib/MTMathListIndex.h:56 | the same chain with the innermost position one further |
| MathListIndexes.Previous | iosMath/lib/MTMathListIndex.h:55 | nil exactly when the innermost position is 0; otherwise the same chain with that position one back |
| MathListIndexes.IsAtBeginningOfLine | iosMath/lib/MTMathListIndex.h:58-63 | true exactly when the innermost node is at position 0, which is exactly when there is no previous index |
| MathListIndexes.PreviousUndoesNext | iosMath/lib/MTMathListIndex.h:55-56 | stepping forward and back gives back the index |
| MathListIndexes.NextUndoesPrevious | iosMath/lib/MTMathListIndex.h:55-56 | stepping back and forward gives back the index wherever stepping back is possible |
| MathListIndexes.PreviousN | iosMath/lib/MTMathListIndex.h:55 | stepping back repeatedly never changes the level of an index |
| MathListIndexes.WalkBackToStart | iosMath/lib/MTMathListIndex.h:55-56 | stepping back n times from top-level position n reaches position 0, and one more step gives nil |
| MathListIndexes.IsEqual | iosMath/lib/MTMathListIndex.h:76 | two indexes are equal exactly when their chains agree node for node |
| MathListIndexes.Hash | iosMath/lib/MTMathListIndex.h:77 | the hash fits an unsigned 64-bit integer; it depends only on the chain, so equal indexes hash equally |
| MathListRanges.MakeUnitRange | iosMath/lib/MTMathListIndex.h:93 | a range of length one starting at the given index |
| MathListRanges.UnitRangeCoversOnlyStart | iosMath/lib/MTMathListIndex.h:93 | a range of length one covers exactly the atom it starts at |
| MathListRanges.MakeRangeForRange | iosMath/lib/MTMathListIndex.h:91 | a range at level 0 spanning exactly the positions of the given flat range |
| MathListRanges.MakeRangeForIndex | iosMath/lib/MTMathListIndex.h:95 | the length-one range at the level-0 index of the given position |
| MathListRanges.FlatRange | iosMath/lib/MTMathListIndex.h:91 | a range has a flat form exactly when it is at level 0, spanning the same positions, and for a well-formed start converting that back gives the range |
| MathListRanges.FlatRangeRoundTrip | iosMath/lib/MTMathListIndex.h:91 | a flat range converted to a level-0 range and back is unchanged |
| MathListRanges.SubIndexRange | iosMath/lib/MTMathListIndex.h:100 | nil exactly when the start has no sub-index; otherwise the same positions seen from the start's sub-index |
| MathListRanges.SubIndexRangeCovers | iosMath/lib/MTMathListIndex.h:100 | an index entering the same branch as the range's start lies in the range exactly when its sub-index lies in the sub-index range |
| MathListRanges.UnionRange | iosMath/lib/MTMathListIndex.h:101-102 | nil exactly when the ranges lie on different lines; otherwise a range holding both |
| MathListRanges.UnionIsSmallest | iosMath/lib/MTMathListIndex.h:101-102 | every range holding both ranges holds their union, so the union adds only the elements between them |
| MathListRanges.UnionCommutes | iosMath/lib/MTMathListIndex.h:101-102 | the union does not depend on the order of the two ranges |
| MathListRanges.UnionRanges | iosMath/lib/MTMathListIndex.h:103-104 | nil exactly for an empty array or ranges on different lines; otherwise a range holding every range in the array |
| MathListRanges.UnionRangesIsSmallest | iosMath/lib/MTMathListIndex.h:103-104 | every range holding all the ranges holds their union |
| FontMathTables.PartOf | fonts/math_table_to_plist.py:187-193 | a part keeps the record's glyph, advance and connector lengths, and is an extender exactly when the record's flags are 1 |
| FontMathTables.RecordOf | fonts/math_table_to_plist.py:187-193 | every part is described by a record with flags 0 or 1 |
| FontMathTables.RecordRoundTrip | fonts/math_table_to_plist.py:187-193 | a record survives conversion to a part and back exactly when its flags are 0 or 1 |
| FontMathTables.AssemblyOf | fonts/math_table_to_plist.py:180-184 | an assembly keeps its italic correction and has one part per record, in order |
| FontMathTables.AssemblyExtenders | iosMath/render/internal/MTFontMathTable.h:164-166 | the parts looked up for a glyph with an assembly are extenders exactly where its records carry flag 1 |
| FontMathTables.GetVerticalVariants | iosMath/render/internal/MTFontMathTable.h:134-136 | never empty; the glyph's variants when it has any, and otherwise exactly the glyph itself |
| FontMathTables.GetHorizontalVariants | iosMath/render/internal/MTFontMathTable.h:138-140 | never empty; the glyph's variants when it has any, and otherwise exactly the glyph itself |
| FontMathTables.GetLargerGlyph | iosMath/render/internal/MTFontMathTable.h:142-145 | one of the glyph's vertical variants; the glyph itself exactly when no listed variant differs from it, in particular when it has no entry |
| FontMathTables.GetItalicCorrection | iosMath/render/internal/MTFontMathTable.h:149-151 | the table's value for a glyph with an entry, and 0 otherwise |
| FontMathTables.GetTopAccentAdjustment | iosMath/render/internal/MTFontMathTable.h:155-157 | the table's value for a glyph with an entry, and -1 otherwise |
| FontMathTables.GetVerticalGlyphAssembly | iosMath/render/internal/MTFontMathTable.h:164-166 | nil exactly when no assembly is defined for the glyph; otherwise that assembly's parts |
| FontMathTables.LimitExtraAscenderDescender | iosMath/render/internal/MTFontMathTable.h:110 | always 0, for every font |
| BuildResults.ErrorCode | iosMath/lib/MTMathListBuilder.h:39-43 | every parse error has a code from 1 to 3 |
| BuildResults.ErrorOfCode | iosMath/lib/MTMathListBuilder.h:39-43 | exactly the codes 1 to 3 name a parse error, and that error has that code |
| BuildResults.ErrorCodeInjective | iosMath/lib/MTMathListBuilder.h:39-43 | distinct parse errors have distinct codes |
| BuildResults.Build | iosMath/lib/MTMathListBuilder.h:27 | `build` returns nil exactly when an error is recorded: the parsed list on success, the parse error on failure |

## Left out

- The typesetter, display tree, labels, colours, image export and the platform glue. They are floating-point geometry and drawing through CoreText.
- Font loading and glyph-name lookup. The plist keys are glyph names, and the model keys its tables by glyph ids directly.
- The CGFloat metric constants of the math table (the model's table holds no constants), and the conversion of table values from design units to points. Values are opaque integers here.
- `MTMathListBuilder`'s LaTeX grammar, the unparser `mathListToString:`, `supportedCommands` and `MTMathAtomFactory`. The headers declare them without describing their behaviour, so it is not part of this model; a parse result enters `Build` as an input.
- `stringValue` of atoms and lists. Its format is explicitly unspecified.
- `copyWithZone:`. Every value here is immutable, so a deep copy is the value itself.
- `description` of an index.
- `MTUnicode` and the package configuration.
- Reference identity and in-place mutation. `finalized` returning a new list and leaving the receiver alone holds by construction, because the model's lists are values.
- Fusion of atom kinds other than numbers. Those rules are not written anywhere in the headers.
- NSUInteger overflow of positions and lengths. Positions are unbounded naturals.
- `MathLists.MakeAtom`: the header gives no default for the limits flag of a large operator made by `atomWithType:value:`; the model sets one but its contract does not promise it.
- `MathLists.RemoveLastAtom`: what the source does on an empty list is not documented; the model leaves the list unchanged.
- The special `next` behaviour of nucleus-type sub-indexes. It is not documented, and `Next` treats every branch type alike.
- `Finalize.FinalizedRangesConsecutive`: promises nothing about overlapping positions for a list whose tracked atoms are not all at the front, or whose tracked ranges do not follow each other. Such ranges come from outside `finalized`, and the header says nothing about them.
- `MathListIndexes.Hash`: the header does not give the hash formula. The model fixes one that depends only on the chain, and states no more than the range of the value and (through `IsEqual`) equal hashes for equal indexes.
- `MathListRanges.UnionRanges`: what the source returns for an empty array is not documented; the model returns nil.
