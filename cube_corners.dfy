/** `RubiksCubeCorners`: the eight corner slots alone, as the corner pattern-database
    builder uses them. Slot `i` holds the colour tuple now in the place of solved
    corner `i`; a turn relabels the tuples in place. */
module CubeCorners {
  import opened Wrappers
  import opened Colors
  import opened Turns
  import opened StateIndex
  import opened Slots

  class RubiksCubeCorners {
    const corners: array<seq<int>>

    ghost predicate Valid()
      reads corners
    {
      corners.Length == 8 && AllColorsOk(corners[..])
    }

    /** Every slot holds a physical corner, and no corner twice. */
    ghost predicate Legal()
      reads corners
    {
      Valid() && LegalGroup(corners[..], 3)
    }

    /** The solved cube: slot `i` holds a copy of `cubies[i]`. */
    constructor ()
      ensures Legal() && corners[..] == CornerCubies
      ensures fresh(corners)
    {
      var group := GroupOf(CornerCubies);
      corners := group;
      new;
      CornerCubiesLegal();
    }

    /** The copy constructor: equal tuples in a fresh array. */
    constructor Copy(cube: RubiksCubeCorners)
      requires cube.Valid()
      ensures Valid() && corners[..] == cube.corners[..]
      ensures fresh(corners)
    {
      var group := CopyGroup(cube.corners);
      corners := group;
    }

    /** `rotateFace(face)`: every tuple showing `face` is relabelled. */
    method RotateFace(face: int)
      requires Valid()
      modifies corners
      ensures Valid() && corners[..] == TurnAll(old(corners[..]), face)
      ensures old(Legal()) ==> Legal()
    {
      ghost var before := corners[..];
      TurnSlots(corners, face);
      if LegalGroup(before, 3) {
        TurnAllLegal(before, 3, face);
      }
    }

    /** `rotateFace(color, rotations)`: `rotations` single turns, none when it is not
        positive. */
    method RotateFaceTimes(color: int, rotations: int)
      requires Valid()
      modifies corners
      ensures Valid() && corners[..] == TurnTimes(old(corners[..]), color, rotations)
      ensures old(Legal()) ==> Legal()
    {
      ghost var start := corners[..];
      ghost var legal := Legal();
      for i := 0 to if rotations < 0 then 0 else rotations
        invariant Valid() && corners[..] == TurnTimes(start, color, i)
        invariant legal ==> Legal()
      {
        RotateFace(color);
      }
    }

    /** `getState`: the corner index of the slots against a fresh pool of the eight
        solved corners. */
    method GetState() returns (state: int)
      requires Legal()
      ensures state == CornerState(false, corners[..])
    {
      assert CornerIndex(false, corners[..], CornerPool) == Some(CornerState(false, corners[..]));
      var defaults := RebuildDefaultCornerPositions();
      state := GetCornerState(false, corners, defaults);
    }
  }
}
