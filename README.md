# deep-rainbow core in Dafny

deep-rainbow solves the 3×3×3 Rubik's cube optimally with an iterative-deepening
best-first search guided by three pattern tables. The tables are produced by two
builders. This project models that core.

**The cube.** A cube is held as twenty slots: eight corner slots of three colours and
twelve edge slots of two, in two groups of six. A slot is the colour tuple of one
piece. The colours are yellow, white, green, blue, red and orange, numbered 0 to 5.

**Turns.** A quarter turn of a face relabels every tuple that shows the face. Each
other colour of such a tuple moves on, cyclically, in that face's sequence of four
neighbours.

**Indices.** The cube is summarised by three indices, one per group of slots. Each
index is a mixed-radix number:

- the corner index ranges over 8!·3^7 = 88179840 values;
- each of the two edge indices ranges over 12!/6!·2^6 = 42577920 values.

For every slot, the index adds its rank among the solved pieces not yet matched,
together with its orientation.

**The solver.** It raises a bound from the root's heuristic up to 18. At each bound it
searches from the node the last round returned, and it renders the actions it found as
text.

**The builders.** They record, for every index reachable within `MAX_DEPTH` actions,
the number of actions that first reached it. `MAX_DEPTH` is 1 for the corner table and
11 for the edge tables.
The corner value of 1 looks like a setting left over from trying the builder out
rather than the intended depth:
- the edge builder, written the same way, uses 11;
- with 1, the corner table holds only the solved index (0) and the indices one action
  away (1), so the corner heuristic is -1 almost everywhere.

The model keeps 1, as written. Two consequences follow:
- the solver's heuristic then comes from the edge tables;
- a cube whose three entries are all -1 has heuristic `Integer.MAX_VALUE`, so its bound
  starts at 18 or more. It gets no search round at all, and the answer is
  `Already solved` (`Solver.Answered`).

**How the model is built:**

- The cube classes are Dafny classes over arrays of slots.
- Pure computations (turns, indices, encoding, the search order) are functions, and
  lemmas state what they mean.
- Each loop of the source is a method proved against those functions.
- Each builder's level is proved against a run of table writes at one depth
  (`PatternTable.RecordAll`), the results of those writes (`PatternTable.Unsets`) and
  the lists they let through (`PatternTable.Select`). The next level is exactly the
  extensions whose `addToTable` returned true, in the order they were tried.
- The edge builder's `byte[][] heuristics` is a constant sequence of its two arrays.
  The source never replaces either inner array, only writes their entries.
- Colours, actions and table entries are unbounded integers. Java's `byte` and `int`
  wrap-around is written out by `Actions.Byte` and `Actions.Int32` where it matters.

The three indices of a legal cube always exist, lie inside their tables and are 0 on
the solved cube. Quarter turns keep a cube legal, and four of them give it back.

**Where the solver stops.** Its loop runs while the root is unsolved and the bound is
below 18. An unsolved cube whose heuristic is 18 or more therefore gets the answer
`Already solved`. This includes a cube whose three entries are unset, whose heuristic
is `Integer.MAX_VALUE`. `Solver.Answered` states this as the source behaves.

## Model

| member | source | states |
|---|---|---|
| Colors.Sequence | src/rubikscube/RubiksCube.java:15-22 | each face's turn sequence lists four distinct colours |
| Colors.SequenceFacts | src/rubikscube/RubiksCube.java:8-22 | no colour of a face's sequence lies on the face's own axis, and neighbours in the cycle lie on different axes |
| Colors.CycleStep | src/rubikscube/RubiksCube.java:15-22 | entry `j` of a sequence is off the face's axis and off the axis of entry `j+1` |
| Colors.CycleMember | src/rubikscube/RubiksCube.java:15-22 | every colour off a face's axis is in that face's sequence |
| Colors.CharToByte | src/rubikscube/RubiksCube.java:81-98 | a facelet letter maps to a colour; any other character maps to 0 |
| Colors.GetColor | src/rubikscube/RubiksCube.java:209-227 | the letter of a colour inverts `CharToByte` on the six colours; anything else is NUL |
| Colors.LetterRoundTrip | src/rubikscube/RubiksCube.java:81-98 | every colour letter comes back through `CharToByte` then `GetColor` |
| Turns.IndexIn | src/rubikscube/RubiksCube.java:312-315 | the search stops at the first occurrence of the colour, or at the end when it is absent |
| Turns.HasFace | src/rubikscube/RubiksCube.java:299-306 | true exactly when some entry of the tuple is the face |
| Turns.NextInAt | src/rubikscube/RubiksCube.java:313-316 | in a cycle of distinct entries, entry `j` steps to entry `j+1` mod length |
| Turns.NextIn | src/rubikscube/RubiksCube.java:312-316 | the colour a search of a cycle steps to is an entry of that cycle |
| Turns.Next | src/rubikscube/RubiksCube.java:312-316 | the colour replacing an entry is a colour |
| Turns.NextInSequence | src/rubikscube/RubiksCube.java:312-316 | entry `j` of a face's sequence moves to entry `(j+1) % 4` |
| Turns.NextOfAbsent | src/rubikscube/RubiksCube.java:312-316 | a colour absent from the sequence runs the search to index 4 and becomes entry 1 |
| Turns.RotatedTuple | src/rubikscube/RubiksCube.java:308-319 | entries equal to the face stay; every other entry becomes its successor in the face's sequence |
| Turns.Turned | src/rubikscube/RubiksCube.java:161-175 | a turn keeps a tuple's length and colours valid, and leaves a tuple without the face unchanged |
| Turns.TurnAll | src/rubikscube/RubiksCube.java:161-175 | a turn acts on every slot independently |
| Turns.TurnAllAppend | src/rubikscube/RubiksCube.java:161-175 | turning the corners and then both edge groups is turning all slots at once |
| Turns.TurnTimes | src/rubikscube/RubiksCube.java:177-181 | `rotations` single turns keep slot count and colours valid |
| Turns.ApplyFaces | src/rubikscube/RubiksCube.java:177-181 | a list of turns keeps slot count and colours valid |
| Turns.ApplyFacesAt | src/rubikscube/RubiksCube.java:161-175 | a list of turns acts on each slot on its own |
| Turns.TurnedAroundFace | src/rubikscube/RubiksCube.java:308-319 | a turn keeps the other entries of a tuple showing the face inside the face's sequence |
| Turns.FourStepsIn | src/rubikscube/RubiksCube.java:313-316 | four steps around a cycle of four distinct entries return to the start |
| Turns.FourNext | src/rubikscube/RubiksCube.java:308-319 | four relabellings of a neighbour colour give it back |
| Turns.TurnedAt | src/rubikscube/RubiksCube.java:308-319 | a tuple that shows the face is relabelled entry by entry and still shows the face |
| Turns.Relabel | src/rubikscube/RubiksCube.java:308-319 | a turn of a face leaves the face colour alone and carries every other colour to an entry of the face's sequence |
| Turns.FourTurnsRestoreTuple | src/rubikscube/RubiksCube.java:161-181 | four quarter turns of a face restore a tuple around it |
| Turns.NotFaceNext | src/rubikscube/RubiksCube.java:312-316 | a neighbour colour never turns into the face and stays a neighbour |
| Turns.FourTurnsRestore | src/rubikscube/RubiksCube.java:177-181 | `rotateFace(face, 4)` gives back every cube whose tuples lie around the face |
| Turns.CornerCubiesCoherent | src/rubikscube/RubiksCube.java:23-44 | every solved corner is three colours on three different axes |
| Turns.CornerCubiesLegal | src/rubikscube/RubiksCube.java:23-44 | the eight solved corners are coherent and pairwise different pieces |
| Turns.EdgeCubiesCoherent | src/rubikscube/RubiksCube.java:23-44 | every solved edge is two colours on different axes |
| Turns.EdgeCubiesLegal | src/rubikscube/RubiksCube.java:23-44 | the twelve solved edges are coherent and pairwise different pieces |
| Turns.LegalSlice | src/rubikscube/RubiksCube.java:47-48 | any run of slots of a legal group is legal |
| Turns.LegalHalves | src/rubikscube/RubiksCube.java:47-48 | both edge groups of a legal set of twelve edges are legal |
| Turns.CoherentAroundFace | src/rubikscube/RubiksCube.java:308-319 | a physical piece that shows a face has every other colour in that face's sequence |
| Turns.RelabelAxis | src/rubikscube/RubiksCube.java:308-319 | a neighbour moves to the third axis: neither the face's nor its own |
| Turns.NextInInjective | src/rubikscube/RubiksCube.java:313-316 | stepping along a cycle of distinct entries is injective |
| Turns.RelabelInjective | src/rubikscube/RubiksCube.java:308-319 | the relabelling of a turn is injective on the face and its neighbours |
| Turns.TurnedCoherent | src/rubikscube/RubiksCube.java:161-175 | a turn keeps a physical piece physical |
| Turns.TurnedPairApart | src/rubikscube/RubiksCube.java:308-319 | two entries of a turned piece stay on different axes |
| Turns.TurnedMembers | src/rubikscube/RubiksCube.java:308-319 | the colours of a turned piece are exactly the relabelled colours of the piece |
| Turns.TurnedKeepsApart | src/rubikscube/RubiksCube.java:161-175 | a turn never makes two different pieces alike |
| Turns.TurnAllLegal | src/rubikscube/RubiksCube.java:161-175 | a quarter turn keeps a legal group legal |
| Turns.ApplyFacesLegal | src/rubikscube/RubiksCube.java:177-181 | any sequence of turns keeps a legal group legal |
| Turns.RotateAroundFace | src/rubikscube/RubiksCube.java:308-319 | the loop with its linear search computes `RotatedTuple` |
| Turns.TurnSlots | src/rubikscube/RubiksCube.java:162-166 | the loop over one group's slots leaves the group turned slot by slot |
| StateIndex.AllIn | src/rubikscube/RubiksCube.java:325-335 | the nested loops hold exactly when every entry of the default occurs in the tuple |
| StateIndex.HaveSameElements | src/rubikscube/RubiksCube.java:321-338 | true exactly when every colour of the default occurs in the slot and, with `strict`, the lengths agree |
| StateIndex.MatchIndex | src/rubikscube/RubiksCube.java:245-248 | the search finds the first pool entry with the slot's colours, or none when no entry has them |
| StateIndex.RemoveAt | src/rubikscube/RubiksCube.java:251 | `d.remove(index)` drops entry `index` and shifts the rest down |
| StateIndex.EdgeOrientation | src/rubikscube/RubiksCube.java:379-386 | the first position of the slot's first colour in the default, or -1 exactly when absent |
| StateIndex.AllMatch | src/rubikscube/RubiksCube.java:244-253 | every slot finds a match in what is left of the pool, which needs no more slots than pool entries |
| StateIndex.CornerDigitDecode | src/rubikscube/RubiksCube.java:250 | a corner digit divides back into the pool rank and the orientation `position[0] / 2` |
| StateIndex.CornerCode | src/rubikscube/RubiksCube.java:244-253 | a code exists only when there are no more slots than pool entries |
| StateIndex.CornerIndex | src/rubikscube/RubiksCube.java:241-255 | the last slot is not read, so an index exists only when there is at most one more slot than pool entries |
| StateIndex.EdgeDigitDecode | src/rubikscube/RubiksCube.java:266-267 | an edge digit divides back into the pool rank and the orientation |
| StateIndex.EdgeIndex | src/rubikscube/RubiksCube.java:257-272 | an index exists only when there are no more slots than pool entries |
| StateIndex.Visited | src/rubikscube/RubiksCube.java:241-255 | the corner loop reads every slot but the last |
| StateIndex.CornerCodeCons | src/rubikscube/RubiksCube.java:241-255 | one unfolding of the corner code: digit, then the rest at radix `|pool| * 3` |
| StateIndex.CornerCodeDefined | src/rubikscube/RubiksCube.java:241-255 | the corner code exists exactly when every visited slot finds a match |
| StateIndex.EdgeIndexDefined | src/rubikscube/RubiksCube.java:257-272 | the edge code exists exactly when every slot finds a match |
| StateIndex.CornerCodeUncons | src/rubikscube/RubiksCube.java:241-255 | an existing corner code matched its first slot and its rest exists |
| StateIndex.EdgeIndexUncons | src/rubikscube/RubiksCube.java:257-272 | an existing edge code matched its first slot and its rest exists |
| StateIndex.EdgeIndexCons | src/rubikscube/RubiksCube.java:257-272 | one unfolding of the edge code: digit `rank*2 + orientation`, rest at radix `|pool| * 2` |
| StateIndex.RebuildDefaultCornerPositions | src/rubikscube/RubiksCube.java:274-279 | the pool is the eight solved corners in order |
| StateIndex.RebuildDefaultEdgePositions1 | src/rubikscube/RubiksCube.java:281-286 | the pool is the twelve solved edges in order |
| StateIndex.RebuildDefaultEdgePositions2 | src/rubikscube/RubiksCube.java:288-297 | the pool is the second six solved edges, then the first six |
| StateIndex.EdgePool2At | src/rubikscube/RubiksCube.java:288-297 | the second pool is the edges rotated by six places |
| StateIndex.RadixSizes | src/rubikscube/heuristic/CornerHeuristicGenerator.java:13 | the mixed radices give 88179840 corner codes and 42577920 edge codes, the table sizes |
| StateIndex.CornerOrientationBound | src/rubikscube/RubiksCube.java:250 | the orientation digit `position[0] / 2` is 0, 1 or 2 |
| StateIndex.CornerDigitBound | src/rubikscube/RubiksCube.java:250 | a corner digit lies below three times the pool size |
| StateIndex.HornerStep | src/rubikscube/RubiksCube.java:250-252 | a digit below the base plus the base times a bounded rest stays below the product |
| StateIndex.CornerCodeBound | src/rubikscube/RubiksCube.java:241-255 | a corner code lies in `[0, Radix)` |
| StateIndex.SubsetSameSize | src/rubikscube/RubiksCube.java:321-338 | for coherent tuples of one length, inclusion of colours is equality of colour sets |
| StateIndex.SubsetCovers | src/rubikscube/RubiksCube.java:321-338 | distinct colours included in a tuple of the same length fill all its places |
| StateIndex.RemoveAtCoherent | src/rubikscube/RubiksCube.java:251 | removing an entry keeps a pool coherent |
| StateIndex.EdgeIndexBound | src/rubikscube/RubiksCube.java:257-272 | an edge code over coherent pairs lies in `[0, Radix)` |
| StateIndex.EdgeDigitBound | src/rubikscube/RubiksCube.java:266-268 | an edge digit lies below twice the pool size, since the matched default holds the slot's first colour |
| StateIndex.CornerIndexBound | src/rubikscube/RubiksCube.java:241-255 | the corner index of eight coloured slots is below 88179840 |
| StateIndex.EdgeIndexBoundTwelve | src/rubikscube/RubiksCube.java:257-272 | an edge index of six slots against twelve is below 42577920 |
| StateIndex.FirstEntryMatches | src/rubikscube/RubiksCube.java:245-251 | a slot equal to the pool's first entry matches at rank 0 |
| StateIndex.PrefixCornerCodeZero | src/rubikscube/RubiksCube.java:241-255 | slots holding the pool's first pieces in order, yellow or white first, code to 0 |
| StateIndex.PrefixEdgeIndexZero | src/rubikscube/RubiksCube.java:257-272 | slots holding the pool's first pieces in order code to 0 |
| StateIndex.SolvedCornerIndex | src/rubikscube/RubiksCube.java:241-255 | the solved corners index to 0 |
| StateIndex.SolvedEdgeIndex | src/rubikscube/RubiksCube.java:257-272 | both solved edge groups index to 0 against their pools |
| StateIndex.CoherentTripleIsCorner | src/rubikscube/RubiksCube.java:23-44 | every coherent triple has the colours of one of the eight corners |
| StateIndex.CoherentPairIsEdge | src/rubikscube/RubiksCube.java:23-44 | every coherent pair has the colours of one of the twelve edges |
| StateIndex.AllMatchCons | src/rubikscube/RubiksCube.java:245-251 | a matched first slot with a matching rest matches throughout |
| StateIndex.StillPresent | src/rubikscube/RubiksCube.java:251 | removing one piece keeps every other piece in the pool |
| StateIndex.AllMatchWhenPresent | src/rubikscube/RubiksCube.java:245-251 | distinct coherent slots whose pieces are in the pool always find a match, so the search never runs off the pool |
| StateIndex.CornerPoolFull | src/rubikscube/RubiksCube.java:274-279 | the corner pool holds every physical corner |
| StateIndex.EdgePool1Full | src/rubikscube/RubiksCube.java:281-286 | the first edge pool holds every physical edge |
| StateIndex.EdgePool2Full | src/rubikscube/RubiksCube.java:288-297 | the second edge pool holds every physical edge |
| StateIndex.EdgePool2Has | src/rubikscube/RubiksCube.java:288-297 | every coherent pair is present in the second pool |
| StateIndex.LegalMatches | src/rubikscube/RubiksCube.java:245-251 | a legal group matches throughout against a full pool |
| StateIndex.CornerIndexTotal | src/rubikscube/RubiksCube.java:241-255 | the corner index of a legal corner group exists |
| StateIndex.EdgeIndexTotal | src/rubikscube/RubiksCube.java:257-272 | the edge index of a legal edge group exists |
| StateIndex.EdgeStatePair | src/rubikscube/RubiksCube.java:229-239 | both edge indices exist, lie below 42577920, and are 0 on the solved edges |
| StateIndex.CornerState | src/rubikscube/RubiksCube.java:229-255 | the corner index exists, lies below 88179840, and is 0 on the solved corners |
| StateIndex.HornerShift | src/rubikscube/RubiksCube.java:250-252 | moving one digit into the state and growing the base keeps `state + base * code` |
| StateIndex.FindMatch | src/rubikscube/RubiksCube.java:245-248 | the search loop returns the first matching rank |
| StateIndex.CornerLoopStep | src/rubikscube/RubiksCube.java:243-253 | one turn of the corner loop keeps `state + base * code` |
| StateIndex.CornerLoopBody | src/rubikscube/RubiksCube.java:243-253 | one iteration preserves the total `state + base * rest-of-code` |
| StateIndex.GetCornerState | src/rubikscube/RubiksCube.java:241-255 | the loop returns the corner index |
| StateIndex.EdgeLoopStep | src/rubikscube/RubiksCube.java:259-270 | one turn of the edge loop keeps `state + base * code` |
| StateIndex.EdgeLoopBody | src/rubikscube/RubiksCube.java:259-270 | one iteration preserves the total `state + base * rest-of-code` |
| StateIndex.GetEdgeState | src/rubikscube/RubiksCube.java:257-272 | the loop returns the edge index |
| StateIndex.NoneAboveZero | src/rubikscube/RubiksCube.java:360-368 | solved exactly when no index is above zero |
| StateIndex.NoneAboveZeroParts | src/rubikscube/RubiksCube.java:360-368 | on two or three indices, the check reads each one |
| StateIndex.GetEdgeStatePair | src/rubikscube/RubiksCubeEdges.java:129-138 | the two loops return the index of each group against its own pool |
| Slots.NewGroup | src/rubikscube/RubiksCube.java:130-131 | `new byte[count][size]` gives `count` fresh zero tuples |
| Slots.GroupOf | src/rubikscube/RubiksCube.java:53-65 | the solved constructor's copies equal the solved tuples in a fresh array |
| Slots.CopyGroup | src/rubikscube/RubiksCube.java:67-79 | the copy constructor's array holds equal tuples and is fresh |
| Slots.TupleEquals | src/rubikscube/RubiksCube.java:375-377 | `Arrays.equals` holds exactly when the tuples are equal |
| Slots.GroupEquals | src/rubikscube/RubiksCube.java:375-377 | `Arrays.deepEquals` holds exactly when the groups are equal slot by slot |
| FaceletString.Place | src/rubikscube/RubiksCube.java:107-128 | each place lists as many facelets as its solved piece has colours, all below 54 |
| FaceletString.Facelets | src/rubikscube/RubiksCube.java:101-105 | facelet `k` is the letter's colour, and 0 past the representation's end |
| FaceletString.FaceletsRoundTrip | src/rubikscube/RubiksCube.java:101-105 | every letter of a representation is read back by `getColor` |
| FaceletString.ReadPlace | src/rubikscube/RubiksCube.java:135-138 | the colours read at a place are the facelets at its offsets |
| FaceletString.Step | src/rubikscube/RubiksCube.java:391-395 | one swap pass keeps the length and the colours |
| FaceletString.RotatedLeft | src/rubikscube/RubiksCube.java:388-398 | `h` passes keep the length and the colours |
| FaceletString.RotatedLeftSplit | src/rubikscube/RubiksCube.java:388-398 | `h` passes, `h` up to the length, rotate the tuple left by `h` |
| FaceletString.RotatedLeftPeriod | src/rubikscube/RubiksCube.java:388-398 | as many passes as entries give the tuple back |
| FaceletString.SwapPass | src/rubikscube/RubiksCube.java:391-395 | the in-place swap loop performs one pass |
| FaceletString.OrientPosition | src/rubikscube/RubiksCube.java:388-398 | the copy and its passes give `RotatedLeft` |
| FaceletString.ParsedSlot | src/rubikscube/RubiksCube.java:133-158 | a parsed slot has its piece's length and valid colours |
| FaceletString.Parsed | src/rubikscube/RubiksCube.java:100-159 | parsing gives twenty slots of the pieces' lengths |
| FaceletString.CubieAt | src/rubikscube/RubiksCube.java:23-44 | the solved tuple of a place is three colours for a corner, two for an edge, on different axes |
| FaceletString.CubiesApart | src/rubikscube/RubiksCube.java:321-338 | no solved piece has the colours of another |
| FaceletString.ParsedSolvedSlot | src/rubikscube/RubiksCube.java:133-158 | on facelets showing every piece at home, a slot becomes its own piece once its place is read |
| FaceletString.ParsedSolved | src/rubikscube/RubiksCube.java:100-159 | a representation showing every piece at home parses to the solved cube |
| FaceletString.ReadFacelets | src/rubikscube/RubiksCube.java:101-105 | the loop fills a fresh 54-entry array with `Facelets` |
| FaceletString.ReadPosition | src/rubikscube/RubiksCube.java:135-138 | the loop reads the colours at place `j` |
| FaceletString.FirstIndex | src/rubikscube/RubiksCube.java:141-145 | the loop stops at the first place of the colour, inside the tuple |
| FaceletString.ParsePiece | src/rubikscube/RubiksCube.java:134-157 | the loop over places leaves the slot the last matching place sets |
| CubeEdges.EdgeCubeStates | src/rubikscube/RubiksCubeEdges.java:129-155 | both edge indices of a legal edge cube exist, lie below 42577920, and are 0 when solved |
| CubeEdges.EdgeStatesOf | src/rubikscube/RubiksCubeEdges.java:129-155 | those are the only indices the two groups have |
| CubeEdges.RubiksCubeEdges.constructor | src/rubikscube/RubiksCubeEdges.java:49-58 | a fresh legal solved edge cube |
| CubeEdges.RubiksCubeEdges.Copy | src/rubikscube/RubiksCubeEdges.java:60-67 | equal tuples in fresh arrays |
| CubeEdges.RubiksCubeEdges.Values | src/rubikscube/RubiksCubeEdges.java:40 | the twelve slots are group 0 followed by group 1 |
| CubeEdges.RubiksCubeEdges.RotateFace | src/rubikscube/RubiksCubeEdges.java:69-77 | the slots become `TurnAll` of the old slots, and legality is kept |
| CubeEdges.RubiksCubeEdges.RotateFaceTimes | src/rubikscube/RubiksCubeEdges.java:79-83 | the slots become `TurnTimes` of the old slots, and legality is kept |
| CubeEdges.RubiksCubeEdges.States | src/rubikscube/RubiksCubeEdges.java:129-155 | the two indices of the slots, wherever the lookups succeed; on legal slots they are `EdgeCubeStates` |
| CubeEdges.RubiksCubeEdges.LegalStatesDefined | src/rubikscube/RubiksCubeEdges.java:129-155 | on legal slots every lookup succeeds, and the indices are `EdgeCubeStates` |
| CubeEdges.RubiksCubeEdges.GetStates | src/rubikscube/RubiksCubeEdges.java:129-138 | whenever every lookup succeeds, returns both edge indices of the current slots, legal or not |
| CubeEdges.RubiksCubeEdges.IsSolved | src/rubikscube/RubiksCubeEdges.java:243-251 | whenever every lookup succeeds, true exactly when neither index is positive; true on the solved edges |
| CubeEdges.RubiksCubeEdges.Equals | src/rubikscube/RubiksCubeEdges.java:258-260 | true exactly when both cubes hold equal slots |
| CubeCorners.RubiksCubeCorners.constructor | src/rubikscube/RubiksCubeCorners.java:37-42 | a fresh legal solved corner cube |
| CubeCorners.RubiksCubeCorners.Copy | src/rubikscube/RubiksCubeCorners.java:44-49 | equal tuples in a fresh array |
| CubeCorners.RubiksCubeCorners.RotateFace | src/rubikscube/RubiksCubeCorners.java:51-57 | the slots become `TurnAll` of the old slots, and legality is kept |
| CubeCorners.RubiksCubeCorners.RotateFaceTimes | src/rubikscube/RubiksCubeCorners.java:59-63 | the slots become `TurnTimes` of the old slots, and legality is kept |
| CubeCorners.RubiksCubeCorners.GetState | src/rubikscube/RubiksCubeCorners.java:104-124 | returns the corner index of the current slots |
| Actions.Byte | src/rubikscube/solver/OptimalSolver.java:163 | the `(byte)` cast is congruent mod 256, lies in `[-128, 128)`, and is the identity there |
| Actions.Int32 | src/rubikscube/solver/OptimalSolver.java:207 | Java `int` arithmetic is congruent mod 2^32, in range, and the identity within range |
| Actions.Encode | src/rubikscube/solver/OptimalSolver.java:162-164 | a colour and 1 to 3 turns encode to an action whose quotient by 3 is the colour and whose remainder is the turns minus one |
| Actions.Decode | src/rubikscube/solver/OptimalSolver.java:150-160 | an action decodes to 1 to 3 copies of one colour |
| Actions.DecodeEncode | src/rubikscube/solver/OptimalSolver.java:150-164 | decoding an encoded move gives its turns back |
| Actions.EncodeDecode | src/rubikscube/solver/OptimalSolver.java:150-164 | every action is the encoding of its decoding |
| Actions.FacesInOrder | src/rubikscube/solver/OptimalSolver.java:122-129 | the `k`-th move `expand` tries is action `k` |
| Actions.ActionFor | src/rubikscube/solver/OptimalSolver.java:129 | `encode(face, i + 1)` is action `3 * face + i` |
| Actions.ValidSnoc | src/rubikscube/heuristic/CornerHeuristicGenerator.java:49-51 | appending an action keeps a list of actions valid and leaves its prefix unchanged |
| Actions.Moves | src/rubikscube/solver/OptimalSolver.java:116-120 | the faces of a list of actions are colours, one to three per action |
| Actions.Reached | src/rubikscube/solver/OptimalSolver.java:115-120 | turning by a list of actions keeps slot count and colours |
| Actions.ApplyFacesAppend | src/rubikscube/solver/OptimalSolver.java:116-120 | turning two lists in turn is turning their concatenation |
| Actions.ApplyFacesRepeat | src/rubikscube/RubiksCube.java:177-181 | `n` turns of one face are `rotateFace(color, n)` |
| Actions.ReachedStep | src/rubikscube/solver/OptimalSolver.java:116-120 | one more action turns the faces it decodes to |
| Actions.ReachedSnoc | src/rubikscube/solver/OptimalSolver.java:122-129 | appending `encode(color, rotations)` turns the face `rotations` more times |
| Actions.ReachedLegal | src/rubikscube/solver/OptimalSolver.java:115-120 | any list of actions keeps a legal group legal |
| PatternTable.Record | src/rubikscube/heuristic/CornerHeuristicGenerator.java:74-77 | the entry is written only when unset; every other entry is unchanged |
| PatternTable.RecordKeeps | src/rubikscube/heuristic/CornerHeuristicGenerator.java:74-77 | a recorded entry is never overwritten, and a depth in range keeps the table bounded |
| PatternTable.KeptTransitive | src/rubikscube/heuristic/CornerHeuristicGenerator.java:43-61 | keeping entries composes across calls |
| PatternTable.UnsetFacts | src/rubikscube/heuristic/CornerHeuristicGenerator.java:17-19 | a table of -1 entries is bounded by any depth |
| PatternTable.RecordAll | src/rubikscube/heuristic/CornerHeuristicGenerator.java:46-57 | a run of `addToTable` calls at one depth keeps the table size; the entry left at each index is the depth where that index was unset and reached, the old entry otherwise (with `RecordAllAt`) |
| PatternTable.Unsets | src/rubikscube/heuristic/CornerHeuristicGenerator.java:52 | one result of `addToTable` per call of the run, in order; a result is true exactly when the entry was unset before the level and no earlier call of the level reached it (with `UnsetsFirst`) |
| PatternTable.Select | src/rubikscube/heuristic/CornerHeuristicGenerator.java:52-54 | `frontier.offer` keeps at most the lists tried, and exactly the flagged ones, in order (with `SelectFrom`, `SelectAppend`, `SelectSnoc`) |
| PatternTable.Extensions | src/rubikscube/heuristic/CornerHeuristicGenerator.java:47-51 | one list per action of the range, each the parent with that action appended |
| PatternTable.ExtensionsAppend | src/rubikscube/heuristic/CornerHeuristicGenerator.java:47-51 | the extensions over two adjacent ranges join in order |
| PatternTable.ExtensionsSnoc | src/rubikscube/heuristic/CornerHeuristicGenerator.java:48-51 | one more action adds the parent with that action at the end |
| PatternTable.LevelTries | src/rubikscube/heuristic/CornerHeuristicGenerator.java:46-51 | a level tries 18 lists per parent |
| PatternTable.LevelSnoc | src/rubikscube/heuristic/CornerHeuristicGenerator.java:46-51 | one more parent adds its 18 extensions at the end |
| PatternTable.LevelTriesAt | src/rubikscube/heuristic/CornerHeuristicGenerator.java:46-51 | the `a`-th extension of parent `j` is tried `18 j + a`-th, and is that parent with action `a` appended |
| PatternTable.LevelTriesFrom | src/rubikscube/heuristic/CornerHeuristicGenerator.java:46-51 | every list tried is a parent with one action below 18 appended |
| PatternTable.Either | src/rubikscube/heuristic/EdgeHeuristicGenerator.java:78-82 | the edge builder's call returns true when either table had the entry unset |
| PatternTable.EitherAt | src/rubikscube/heuristic/EdgeHeuristicGenerator.java:78-82 | each flag is the disjunction of the two tables' flags at that call |
| PatternTable.EitherSnoc | src/rubikscube/heuristic/EdgeHeuristicGenerator.java:78-82 | one more call adds one disjunction |
| PatternTable.EitherAppend | src/rubikscube/heuristic/EdgeHeuristicGenerator.java:49-60 | the flags of two runs join in order |
| PatternTable.RunStep | src/rubikscube/heuristic/CornerHeuristicGenerator.java:52 | one more call records its key and adds whether the key was unset |
| PatternTable.RunAppend | src/rubikscube/heuristic/CornerHeuristicGenerator.java:46-57 | two runs in turn are one run: tables compose and the flags join in order |
| PatternTable.RecordAllAt | src/rubikscube/heuristic/CornerHeuristicGenerator.java:74-77 | an entry ends at `depth` exactly when it was unset and some call reached it; otherwise it is unchanged |
| PatternTable.UnsetsFirst | src/rubikscube/heuristic/CornerHeuristicGenerator.java:74-77 | a call returns true exactly when its entry was unset before the level and no earlier call of the level reached the same index |
| PatternTable.SelectAppend | src/rubikscube/heuristic/CornerHeuristicGenerator.java:52-54 | offering from two runs in turn is offering from the joined run |
| PatternTable.SelectFrom | src/rubikscube/heuristic/CornerHeuristicGenerator.java:52-54 | every list offered was tried with a true result, and every list tried with a true result is offered |
| PatternTable.SelectSnoc | src/rubikscube/heuristic/CornerHeuristicGenerator.java:52-54 | one more list is offered exactly when its call returned true |
| PatternTable.SelectSnocAfter | src/rubikscube/heuristic/CornerHeuristicGenerator.java:52-54 | the same after lists offered earlier |
| PatternTable.OfferStep | src/rubikscube/heuristic/CornerHeuristicGenerator.java:52-54 | one more call: the table grows by that record and the list joins the offered ones exactly when its entry was unset |
| PatternTable.OfferStepEither | src/rubikscube/heuristic/EdgeHeuristicGenerator.java:55-57 | one more call of the edge builder: both tables grow by their record and the list joins the offered ones exactly when either entry was unset |
| PatternTable.RunJoin | src/rubikscube/heuristic/CornerHeuristicGenerator.java:46-57 | two runs joined: the tables compose and the lists offered are the first run's followed by the second's |
| PatternTable.RunJoinEither | src/rubikscube/heuristic/EdgeHeuristicGenerator.java:49-60 | the same for the two edge tables side by side |
| PatternTable.SelectEither | src/rubikscube/heuristic/EdgeHeuristicGenerator.java:49-60 | offering by either flag splits over two runs |
| PatternTable.RunKept | src/rubikscube/heuristic/CornerHeuristicGenerator.java:46-57 | a run keeps every recorded entry, and a depth in range keeps the table bounded |
| PatternTable.RunFills | src/rubikscube/heuristic/CornerHeuristicGenerator.java:46-57 | after a run every index it reached has an entry |
| PatternTable.RunHolds | src/rubikscube/heuristic/CornerHeuristicGenerator.java:74-77 | a call that returned true leaves exactly `depth` at its index |
| PatternTable.UnsetsAt | src/rubikscube/heuristic/CornerHeuristicGenerator.java:74-77 | a call returns true only if its entry was unset before the run |
| Cube.CubeStates | src/rubikscube/RubiksCube.java:229-239 | the three indices of a legal cube exist, lie inside their tables, and are 0 on the solved cube |
| Cube.StatesOf | src/rubikscube/RubiksCube.java:229-239 | those are the only indices the three groups have |
| Cube.SolvedParts | src/rubikscube/RubiksCube.java:53-65 | the solved pieces split into the corner group and the two edge groups |
| Cube.SolvedLegal | src/rubikscube/RubiksCube.java:53-65 | the solved cube is legal |
| Cube.TurnLegal | src/rubikscube/RubiksCube.java:161-175 | a quarter turn keeps a cube legal |
| Cube.FacesLegal | src/rubikscube/RubiksCube.java:177-181 | any sequence of turns keeps a cube legal |
| Cube.RubiksCube.Edges | src/rubikscube/RubiksCube.java:47-48 | the twelve edge slots are both groups, group 0 first |
| Cube.RubiksCube.Values | src/rubikscube/RubiksCube.java:47-48 | the twenty slots are the corners followed by both edge groups |
| Cube.RubiksCube.constructor | src/rubikscube/RubiksCube.java:53-65 | a fresh legal solved cube |
| Cube.RubiksCube.Copy | src/rubikscube/RubiksCube.java:67-79 | equal tuples in fresh arrays |
| Cube.RubiksCube.Parse | src/rubikscube/RubiksCube.java:100-159 | the slots are the parsed representation, in fresh arrays |
| Cube.RubiksCube.Blank | src/rubikscube/RubiksCube.java:130-131 | before parsing, every slot is zeros of its piece's length |
| Cube.RubiksCube.ParseSlots | src/rubikscube/RubiksCube.java:130-158 | the parse loop fills three fresh, distinct arrays with the parsed slots |
| Cube.RubiksCube.Fill | src/rubikscube/RubiksCube.java:149-155 | setting slot `i` extends the slots read so far by one |
| Cube.RubiksCube.StoreSlot | src/rubikscube/RubiksCube.java:149-155 | the store writes exactly slot `i` of corners and edges taken together |
| Cube.RubiksCube.RotateFace | src/rubikscube/RubiksCube.java:161-175 | the slots become `TurnAll` of the old slots, the edge arrays stay, and legality is kept |
| Cube.RubiksCube.RotateFaceTimes | src/rubikscube/RubiksCube.java:177-181 | the slots become `TurnTimes` of the old slots, and legality is kept |
| Cube.RubiksCube.States | src/rubikscube/RubiksCube.java:229-272 | the three indices of the slots, wherever the lookups succeed; on a legal cube they are `CubeStates` |
| Cube.RubiksCube.LegalStatesDefined | src/rubikscube/RubiksCube.java:229-272 | on a legal cube every lookup succeeds, and the indices are `CubeStates` |
| Cube.RubiksCube.GetStates | src/rubikscube/RubiksCube.java:229-239 | whenever every lookup succeeds, returns the three indices of the current slots, legal or not |
| Cube.RubiksCube.IsSolved | src/rubikscube/RubiksCube.java:360-368 | whenever every lookup succeeds, true exactly when no index is positive; true on the solved cube |
| Cube.RubiksCube.Equals | src/rubikscube/RubiksCube.java:375-377 | true exactly when both cubes hold equal slots |
| CornerHeuristic.CornerOf | src/rubikscube/heuristic/CornerHeuristicGenerator.java:66-73 | the corner index reached by a list of actions lies inside the table, and is 0 for no actions |
| CornerHeuristic.ApplyActions | src/rubikscube/heuristic/CornerHeuristicGenerator.java:67-71 | the loops leave the corners turned by the actions |
| CornerHeuristic.RecordSound | src/rubikscube/heuristic/CornerHeuristicGenerator.java:63-79 | recording the number of actions at the index they reach keeps every entry the length of a path to its index |
| CornerHeuristic.IndicesAppend | src/rubikscube/heuristic/CornerHeuristicGenerator.java:46-57 | the index lists of two runs join |
| CornerHeuristic.TryStep | src/rubikscube/heuristic/CornerHeuristicGenerator.java:49-54 | one more `addToTable(action)` call: the index joins the run, the table grows by that record, and the list joins the offered ones exactly when its entry was unset |
| CornerHeuristic.JoinRuns | src/rubikscube/heuristic/CornerHeuristicGenerator.java:47-57 | a run over one face (or parent) after the run so far is one run over both |
| CornerHeuristic.LevelStep | src/rubikscube/heuristic/CornerHeuristicGenerator.java:46-57 | one parent more in the level loop: its run joins the level's run |
| CornerHeuristic.LevelRecorded | src/rubikscube/heuristic/CornerHeuristicGenerator.java:46-57 | after a level every one-action extension of every parent has an entry |
| CornerHeuristic.LevelFrontier | src/rubikscube/heuristic/CornerHeuristicGenerator.java:52-54 | every list offered to the next level is a list of valid actions one longer than its parent |
| CornerHeuristic.LevelOffers | src/rubikscube/heuristic/CornerHeuristicGenerator.java:49-54 | every list offered extends a parent by one action, and the table holds `depth + 1` at its index |
| CornerHeuristic.RecordedKept | src/rubikscube/heuristic/CornerHeuristicGenerator.java:43-61 | recorded lists stay recorded in a table that keeps entries |
| CornerHeuristic.RootFacts | src/rubikscube/heuristic/CornerHeuristicGenerator.java:36-41 | from the empty list, the solved index gets 0 and every one-action list is recorded |
| CornerHeuristic.CornerHeuristicGenerator.constructor | src/rubikscube/heuristic/CornerHeuristicGenerator.java:13-19 | a fresh table of 88179840 entries, all -1 |
| CornerHeuristic.CornerHeuristicGenerator.Generate | src/rubikscube/heuristic/CornerHeuristicGenerator.java:16-22 | the table ends bounded by `MAX_DEPTH`, with the solved index 0 and every index one action away recorded |
| CornerHeuristic.CornerHeuristicGenerator.AddToTable | src/rubikscube/heuristic/CornerHeuristicGenerator.java:63-79 | the index reached is recorded with the number of actions only when unset, and the result says whether it was |
| CornerHeuristic.CornerHeuristicGenerator.StateAfter | src/rubikscube/heuristic/CornerHeuristicGenerator.java:66-73 | returns the corner index the actions reach from the solved cube |
| CornerHeuristic.CornerHeuristicGenerator.ExpandFromSolved | src/rubikscube/heuristic/CornerHeuristicGenerator.java:36-41 | keeps earlier entries and bounds, sets the solved index to 0 and records every one-action list |
| CornerHeuristic.CornerHeuristicGenerator.Expand | src/rubikscube/heuristic/CornerHeuristicGenerator.java:43-61 | keeps entries and bounds; below `MAX_DEPTH`, every extension of the level is recorded |
| CornerHeuristic.CornerHeuristicGenerator.ExpandLevel | src/rubikscube/heuristic/CornerHeuristicGenerator.java:46-57 | every extension of the level is tried in order; the table is the old one with `depth + 1` recorded at each index reached, and the next level is exactly the extensions whose `addToTable` returned true, in order |
| CornerHeuristic.CornerHeuristicGenerator.ExpandParent | src/rubikscube/heuristic/CornerHeuristicGenerator.java:47-56 | all 18 extensions of a parent are tried in action order; the table records `|actions| + 1` at each index reached, and the lists offered are exactly the extensions whose call returned true, in order |
| CornerHeuristic.CornerHeuristicGenerator.ExpandFace | src/rubikscube/heuristic/CornerHeuristicGenerator.java:48-55 | the three turn counts of a face are tried; `next` grows by exactly the extensions whose call found the entry unset, in order, and the table records each index |
| CornerHeuristic.CornerHeuristicGenerator.TryAction | src/rubikscube/heuristic/CornerHeuristicGenerator.java:49-54 | one call on `actions + [3f + i]`: it returns true exactly when the entry at its index was unset, and the table is the old one with that record |
| EdgeHeuristic.EdgeOf | src/rubikscube/heuristic/EdgeHeuristicGenerator.java:69-77 | both edge indices reached by a list of actions lie inside the tables, and are 0 for no actions |
| EdgeHeuristic.ApplyActions | src/rubikscube/heuristic/EdgeHeuristicGenerator.java:71-75 | the loops leave the edges turned by the actions |
| EdgeHeuristic.RecordSound | src/rubikscube/heuristic/EdgeHeuristicGenerator.java:66-86 | recording the number of actions keeps each entry the length of a path to its index |
| EdgeHeuristic.IndicesAppend | src/rubikscube/heuristic/EdgeHeuristicGenerator.java:49-60 | the two index lists of two runs join |
| EdgeHeuristic.TryStep | src/rubikscube/heuristic/EdgeHeuristicGenerator.java:52-57 | one more `addToTable(action)` call: both indices join the run, each table grows by its record, and the list joins the offered ones exactly when either entry was unset |
| EdgeHeuristic.JoinRuns | src/rubikscube/heuristic/EdgeHeuristicGenerator.java:50-60 | a run over one face (or parent) after the run so far is one run over both, for both tables |
| EdgeHeuristic.LevelStep | src/rubikscube/heuristic/EdgeHeuristicGenerator.java:49-60 | one parent more in the level loop: its run joins the level's run |
| EdgeHeuristic.LevelRecorded | src/rubikscube/heuristic/EdgeHeuristicGenerator.java:49-60 | after a level both indices of every one-action extension of every parent have entries |
| EdgeHeuristic.LevelFrontier | src/rubikscube/heuristic/EdgeHeuristicGenerator.java:55-57 | every list offered to the next level is a list of valid actions one longer than its parent |
| EdgeHeuristic.LevelOffers | src/rubikscube/heuristic/EdgeHeuristicGenerator.java:52-57 | every list offered extends a parent by one action |
| EdgeHeuristic.LevelOffersHold | src/rubikscube/heuristic/EdgeHeuristicGenerator.java:55-57 | for every list offered, at least one table holds `depth + 1` at its index |
| EdgeHeuristic.OfferedHolds | src/rubikscube/heuristic/EdgeHeuristicGenerator.java:78-82 | a call that returned true left its length in the table it found unset |
| EdgeHeuristic.RecordedKept | src/rubikscube/heuristic/EdgeHeuristicGenerator.java:46-64 | recorded lists stay recorded in tables that keep entries |
| EdgeHeuristic.RootFacts | src/rubikscube/heuristic/EdgeHeuristicGenerator.java:39-44 | from the empty list, both solved indices get 0 and every one-action list is recorded |
| EdgeHeuristic.Unset | src/rubikscube/heuristic/EdgeHeuristicGenerator.java:20-24 | the loop sets every entry to -1 |
| EdgeHeuristic.EdgeHeuristicGenerator.constructor | src/rubikscube/heuristic/EdgeHeuristicGenerator.java:14-25 | two fresh tables of 42577920 entries, all -1 |
| EdgeHeuristic.EdgeHeuristicGenerator.Generate | src/rubikscube/heuristic/EdgeHeuristicGenerator.java:19-37 | both tables end bounded by `MAX_DEPTH`, both solved indices 0, every index pair one action away recorded |
| EdgeHeuristic.EdgeHeuristicGenerator.AddToTable | src/rubikscube/heuristic/EdgeHeuristicGenerator.java:66-86 | each index is recorded only when unset, and the result says whether either was |
| EdgeHeuristic.EdgeHeuristicGenerator.StatesAfter | src/rubikscube/heuristic/EdgeHeuristicGenerator.java:69-77 | returns both edge indices the actions reach from the solved cube |
| EdgeHeuristic.EdgeHeuristicGenerator.ExpandFromSolved | src/rubikscube/heuristic/EdgeHeuristicGenerator.java:39-44 | keeps entries and bounds, sets both solved indices to 0 and records every one-action list |
| EdgeHeuristic.EdgeHeuristicGenerator.Expand | src/rubikscube/heuristic/EdgeHeuristicGenerator.java:46-64 | keeps entries and bounds; below `MAX_DEPTH`, every extension of the level is recorded in both tables |
| EdgeHeuristic.EdgeHeuristicGenerator.ExpandLevel | src/rubikscube/heuristic/EdgeHeuristicGenerator.java:49-60 | every extension of the level is tried in order; each table is the old one with `depth + 1` recorded at its indices, and the next level is exactly the extensions whose `addToTable` returned true, in order |
| EdgeHeuristic.EdgeHeuristicGenerator.ExpandParent | src/rubikscube/heuristic/EdgeHeuristicGenerator.java:50-59 | all 18 extensions of a parent are tried in action order; both tables record `|actions| + 1` at their indices, and the lists offered are exactly the extensions whose call returned true, in order |
| EdgeHeuristic.EdgeHeuristicGenerator.ExpandFace | src/rubikscube/heuristic/EdgeHeuristicGenerator.java:51-58 | the three turn counts of a face are tried; `next` grows by exactly the extensions whose call found either entry unset, in order, and both tables record their indices |
| EdgeHeuristic.EdgeHeuristicGenerator.TryAction | src/rubikscube/heuristic/EdgeHeuristicGenerator.java:52-57 | one call on `actions + [3f + i]`: it returns true exactly when either table had the entry at its index unset, and each table is the old one with its record |
| Solver.Max | src/rubikscube/solver/OptimalSolver.java:142 | `Math.max` is an upper bound equal to one argument |
| Solver.MaxEntry | src/rubikscube/solver/OptimalSolver.java:140-143 | the running maximum bounds every entry read and is one of them, or -1 |
| Solver.Heuristic | src/rubikscube/solver/OptimalSolver.java:139-148 | the largest entry, which bounds all three, or `Integer.MAX_VALUE` exactly when all are negative |
| Solver.Node.IsSolved | src/rubikscube/solver/OptimalSolver.java:196-203 | solved exactly when no index is above zero |
| Solver.Node.CompareTo | src/rubikscube/solver/OptimalSolver.java:205-208 | the sign of the comparison is the order of `cost + heuristic` |
| Solver.Node.CompareToAsWritten | src/rubikscube/solver/OptimalSolver.java:205-208 | the 32-bit result is an `int` |
| Solver.Node.Equals | src/rubikscube/solver/OptimalSolver.java:215-217 | nodes are equal exactly when their index arrays are |
| Solver.CompareToAgrees | src/rubikscube/solver/OptimalSolver.java:205-208 | within 32 bits the comparison as written and the intended one agree |
| Solver.CompareToOverflows | src/rubikscube/solver/OptimalSolver.java:205-208 | a node with heuristic `Integer.MAX_VALUE` is ranked before the solved root although its priority is larger |
| Solver.Least | src/rubikscube/solver/OptimalSolver.java:92 | `frontier.remove()` takes a node no other node precedes |
| Solver.Known | src/rubikscube/solver/OptimalSolver.java:96 | `explored.contains(n)` holds exactly when some explored node has the same indices, so in particular for every node in the list |
| Solver.Admitted | src/rubikscube/solver/OptimalSolver.java:95-100 | no more children are taken than there are |
| Solver.AdmittedSpec | src/rubikscube/solver/OptimalSolver.java:95-100 | only children are taken, each below `depth` or unknown; every child below `depth` or unknown to the nodes before it is taken |
| Solver.KnownPrefix | src/rubikscube/solver/OptimalSolver.java:96 | a node known to a list is known to any longer list |
| Solver.AdmittedKnown | src/rubikscube/solver/OptimalSolver.java:96-98 | a node known to the explored list and the children taken is known to the explored list and all earlier children |
| Solver.AdmittedStep | src/rubikscube/solver/OptimalSolver.java:95-100 | one more child is appended or skipped by the condition of the loop |
| Solver.Admit | src/rubikscube/solver/OptimalSolver.java:95-100 | the loop appends the admitted children to both the frontier and the explored list |
| Solver.ChildLegal | src/rubikscube/solver/OptimalSolver.java:127-130 | one more action keeps the actions valid and the cube legal |
| Solver.Child | src/rubikscube/solver/OptimalSolver.java:126-131 | a child is a node of the search, with the parent's actions plus one and one more cost |
| Solver.ChildTurns | src/rubikscube/solver/OptimalSolver.java:124-130 | the child for `i + 1` turns of `f` carries the indices of the turned cube |
| Solver.ChildrenSnoc | src/rubikscube/solver/OptimalSolver.java:124-131 | the node built after `i + 1` turns of `f` is the next child |
| Solver.ChildrenConsistent | src/rubikscube/solver/OptimalSolver.java:112-137 | every child is a node of the search |
| Solver.SingleConsistent | src/rubikscube/solver/OptimalSolver.java:74-77 | the frontier of one search node is a frontier of the search |
| Solver.RemoveConsistent | src/rubikscube/solver/OptimalSolver.java:105 | taking a node out keeps the rest a frontier of the search |
| Solver.AdmitConsistent | src/rubikscube/solver/OptimalSolver.java:95-100 | the children admitted to a frontier keep it a frontier of the search |
| Solver.FaceBegins | src/rubikscube/solver/OptimalSolver.java:122-123 | a face starts with no turn made |
| Solver.FaceEnds | src/rubikscube/solver/OptimalSolver.java:133 | after three turns and the restoring turn the next face starts |
| Solver.FourTurnsRestoreCube | src/rubikscube/solver/OptimalSolver.java:133 | a fourth turn of any face restores a legal cube |
| Solver.ApplyActions | src/rubikscube/solver/OptimalSolver.java:115-120 | the loops leave the cube turned by the actions, and legal |
| Solver.OptimalSolver.constructor | src/rubikscube/solver/OptimalSolver.java:37-39 | the solver holds the given tables and no cube |
| Solver.OptimalSolver.LookupHeuristic | src/rubikscube/solver/OptimalSolver.java:139-148 | the loop returns `Heuristic` of the indices |
| Solver.FaceTurned | src/rubikscube/solver/OptimalSolver.java:124-131 | one more turn of `f` keeps the face loop's invariant, with the child for `i + 1` turns appended |
| Solver.OptimalSolver.TurnAndAdd | src/rubikscube/solver/OptimalSolver.java:124-131 | one more turn of `f`, and the child for `i + 1` turns appended |
| Solver.OptimalSolver.RestoreFace | src/rubikscube/solver/OptimalSolver.java:133 | the fourth turn brings the working cube back |
| Solver.OptimalSolver.ExpandFace | src/rubikscube/solver/OptimalSolver.java:122-134 | three turns of one face add three children and leave the working cube restored |
| Solver.OptimalSolver.Expand | src/rubikscube/solver/OptimalSolver.java:112-137 | the children are `Expansion` of the node: 18 of them, child `a` being the node after action `a`, with one more cost and the indices of the turned cube |
| Solver.OptimalSolver.TakeLeast | src/rubikscube/solver/OptimalSolver.java:92 | the node taken is the least of the frontier under `CompareTo`, the rest is the frontier without it, and both stay nodes of the search |
| Solver.OptimalSolver.Advance | src/rubikscube/solver/OptimalSolver.java:94-106 | the explored list and the frontier grow by the admitted children of the node's 18 children; the least node is then taken out, or none when the frontier is empty; every node stays a node of the search |
| Solver.Run | src/rubikscube/solver/OptimalSolver.java:93-109 | the loop from a taken node ends with an unsolved node exactly when the frontier ran empty; it expands at most `fuel` nodes in all, and all `fuel` of them when it gives `None` |
| Solver.RunUnsolved | src/rubikscube/solver/OptimalSolver.java:94-108 | from an unsolved node the loop ends with an unsolved node exactly when the frontier ran empty, within the same `fuel` bound |
| Solver.AfterPass | src/rubikscube/solver/OptimalSolver.java:94-108 | a pass of the loop body expands its node, so the run after it expands at least one node more, and never more than `fuel` |
| Solver.RunStops | src/rubikscube/solver/OptimalSolver.java:93-109 | a solved node ends the loop at once and is returned; with no expansion left the run gives `None` |
| Solver.RunStep | src/rubikscube/solver/OptimalSolver.java:94-106 | given what `Advance` returns for a pass, the run ends with the node when the frontier is empty, and otherwise is the run from the node taken next |
| Solver.RunExpands | src/rubikscube/solver/OptimalSolver.java:93-109 | a run only appends to the nodes expanded before it, and every node it expands is unsolved |
| Solver.PassExpands | src/rubikscube/solver/OptimalSolver.java:94-108 | a pass appends its own node to the nodes expanded, and the run after it only appends more |
| Solver.RunEmptied | src/rubikscube/solver/OptimalSolver.java:103-104 | a run that ends because the frontier ran empty returns the node whose admitted children, with the rest of the frontier, were none |
| Solver.SearchRun | src/rubikscube/solver/OptimalSolver.java:91-110 | the inner `solve` takes the least node and runs the loop from it: its result is unsolved exactly when the frontier ran empty, it expands at most `fuel` nodes and all of them when it gives `None`, and every node it expands is unsolved |
| Solver.SearchRunEmptied | src/rubikscube/solver/OptimalSolver.java:103-104 | when the search ends on an empty frontier, the node returned admitted no children and nothing else was left |
| Solver.SearchRunStarts | src/rubikscube/solver/OptimalSolver.java:92-94 | the search returns the least node of the frontier at once when it is solved, and otherwise expands it first |
| Solver.OptimalSolver.Pass | src/rubikscube/solver/OptimalSolver.java:94-106 | one pass of the loop body is a step of the run: it ends the run with the node when the frontier ran empty, and otherwise the run from the node taken has the same end; the solver's cube is unchanged and every node stays a node of the search |
| Solver.OptimalSolver.Search | src/rubikscube/solver/OptimalSolver.java:91-110 | the result, the frontier and explored list left, and the nodes expanded are exactly the run `SearchRun` gives for the frontier; the node returned is a node of the search; it is unsolved exactly when the frontier ran empty, and then its expansion admitted nothing and the rest of the frontier was empty; `None` comes only after `fuel` expansions, each of an unsolved node |
| Solver.ChildrenUnique | src/rubikscube/solver/OptimalSolver.java:122-131 | a node of the search has exactly one list of 18 children, child `a` for action `a` |
| Solver.ExpansionConsistent | src/rubikscube/solver/OptimalSolver.java:94-100 | adding a node's admitted children to a frontier of the search leaves a frontier of the search |
| Solver.OptimalSolver.Solve | src/rubikscube/solver/OptimalSolver.java:64-89 | the answer as `Answered` describes it: the rounds are bounded, and an answer renders actions reaching a solved cube unless the bound reached 18; no answer only when the last round, from the node `last` returned before it at the bound `bound`, is a `SearchRun` that gave `None` after expanding the `fuel` unsolved nodes `stalled` |
| Solver.RootRounds | src/rubikscube/solver/OptimalSolver.java:66-71 | the root node starts the rounds |
| Solver.NextRound | src/rubikscube/solver/OptimalSolver.java:72-79 | a round from an unsolved node below 18 raises the bound by one |
| Solver.RoundsStopped | src/rubikscube/solver/OptimalSolver.java:72-79 | a round that settles nothing ends without an answer |
| Solver.RoundsDone | src/rubikscube/solver/OptimalSolver.java:72-88 | when the loop stops, the rendered answer reaches a solved cube unless the bound reached 18 |
| Solver.Token | src/rubikscube/solver/OptimalSolver.java:85-86 | each action renders as three characters |
| Solver.Tokens | src/rubikscube/solver/OptimalSolver.java:84-87 | the tokens are three characters per action |
| Solver.SolutionText | src/rubikscube/solver/OptimalSolver.java:83-88 | the loop builds `Rendered` of the actions |
| Solver.ParseTokens | src/rubikscube/solver/OptimalSolver.java:84-87 | reading back gives one action per three characters |
| Solver.Rendered | src/rubikscube/solver/OptimalSolver.java:83-88 | with no actions the answer is `Already solved`, otherwise three characters per action |
| Solver.RenderedEmpty | src/rubikscube/solver/OptimalSolver.java:88 | the answer is `Already solved` exactly when there are no actions |
| Solver.TokenRoundTrip | src/rubikscube/solver/OptimalSolver.java:85-86 | a token reads back as its action |
| Solver.ParseSnoc | src/rubikscube/solver/OptimalSolver.java:84-87 | reading back splits over one more token |
| Solver.RenderedRoundTrip | src/rubikscube/solver/OptimalSolver.java:83-88 | the answer names every action: reading it back gives the actions |

## Left out

- Slots are values (`seq<int>`) held in arrays of slots. `rotateAroundFace` writes a
  slot back whole rather than mutating a shared `byte[]`, so aliasing between tuples
  is not modelled. No tuple is shared in the source.
- The static `LinkedList` pools `d` of the index loops are local sequences.
- The static `cube` of the builders is a fresh cube per call. The static `cube` of the
  solver is a field.
- Not modelled, because they are I/O:
  - reading `cube.txt` in `main`;
  - `populateHeuristicTables`, which reads the table files (the solver takes its three
    tables as a parameter);
  - the file output of the builders' `main`;
  - every `System.out.println`.
- Not modelled:
  - the double-checked singleton `getInstance`, which is concurrency;
  - `toString` and `arrayToString`, which are display only;
  - the unused `HashMap` field of `RubiksCubeEdges`.
- `Byte.parseByte` of the table files: table entries are integers in `[-128, 128)`.
- Solver.OptimalSolver.Search: a `fuel` bound stands for the unbounded inner loop, and
  running out of fuel gives `None`. The source's loop has no termination argument,
  since nodes are admitted again whenever their cost is below the bound.
- Solver.Least: the tie order of `PriorityQueue` is not specified by Java. The model
  takes the first least node, so when priorities tie it may pick a different node than
  the source.
- Solver.Least, and with it Solver.OptimalSolver.TakeLeast, Solver.OptimalSolver.Advance
  and Solver.OptimalSolver.Search, order the frontier by the corrected `CompareTo`, not
  by the wrapping `compareTo` the source's queue calls (see Findings). When a node's
  heuristic is `Integer.MAX_VALUE` (all three table entries -1), the source's
  subtraction wraps and its queue can take that node before one with a smaller
  priority; Solver.CompareToOverflows gives such a pair. The wrapped comparison is not
  a total order, so what a binary heap does with it is not modelled.
- Cube.RubiksCube.GetStates, Cube.RubiksCube.IsSolved, CubeEdges.RubiksCubeEdges.GetStates
  and CubeEdges.RubiksCubeEdges.IsSolved require every lookup of the index loops to
  find its piece (`StatesDefined`). When a slot matches no piece left in the pool, the
  source's `defaults.get(index)` throws `IndexOutOfBoundsException`; that exception is
  not modelled. The requires holds on every legal cube, and on some cubes that are not
  legal, such as a parsed cube whose last corner slot stayed zeros.
- Solver.OptimalSolver.Solve requires a legal cube, although the source also runs on a
  parsed cube that is not legal whenever its indices exist. The invariant of the search
  (every node's indices are those of the root turned by its actions) is stated on legal
  cubes, whose indices are `CubeStates`. On other cubes the model says nothing.
- Actions.Decode: negative action bytes are not covered; every action built is in
  `0..17`.
- CornerHeuristic.CornerHeuristicGenerator.AddToTable and
  EdgeHeuristic.EdgeHeuristicGenerator.AddToTable require fewer than 128 actions. The
  `(byte)` cast of the depth is then the identity, and `MAX_DEPTH` keeps every list far
  shorter.
- Solver.OptimalSolver.Solve: optimality of the answer (no shorter solution exists) is
  not stated. It rests on the tables being admissible, which the builders' bounded
  depth does not establish.
- CornerHeuristic.CornerHeuristicGenerator.Generate and
  EdgeHeuristic.EdgeHeuristicGenerator.Generate state what the tables hold at depth 0
  and 1. They state that every entry is -1 or a depth up to `MAX_DEPTH`, and that
  each entry is the length of some action list reaching its index. They do not state
  that each entry is the least such length (breadth-first minimality).
- `expand(byte[] actions)` is modelled only on the empty list, as `main` calls it.
- Solver.ParseTokens and Solver.Token read the answer back. They are a definition of
  this model, not code of the source, used to state that the rendering loses nothing.
- Nothing checks that a parsed representation describes a real cube; the source does
  not either. The parse constructor is modelled for every string of at most 54
  characters; a longer one overflows the source's array.

## Findings

| source | as written | input that shows it | evidently intended | confidence | as-written member | corrected member |
|---|---|---|---|---|---|---|
| src/rubikscube/solver/OptimalSolver.java:205-208 | `(cost + heuristic) - (other.getCost() + other.getHeuristic())` in 32-bit `int`, so a heuristic of `Integer.MAX_VALUE` wraps the sum to a negative number | `Node([1,1,1],[0],1,Integer.MAX_VALUE).compareTo(Node([0,0,0],[],0,0))` is negative although the first priority is larger | compare the two priorities, e.g. with `Integer.compare` on `long` sums | not executed | Solver.Node.CompareToAsWritten, Solver.CompareToOverflows | Solver.Node.CompareTo (used by Solver.Least), Solver.CompareToAgrees |
