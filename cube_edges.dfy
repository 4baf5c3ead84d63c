/** `RubiksCubeEdges`: the twelve edge slots alone, in two groups of six, as the edge
    pattern-database builder uses them. Group 0 holds the places of solved edges
    0..5, group 1 those of edges 6..11. */
module CubeEdges {
  import opened Wrappers
  import opened Colors
  import opened Turns
  import opened StateIndex
  import opened Slots

  /** The two indices of twelve legal edge slots: the first six against the pool of
      all twelve edges in order, the last six against the pool that lists the second
      six first. This cube uses the `haveSameElements` that ignores lengths. */
  function EdgeCubeStates(v: seq<seq<int>>): (r: seq<int>)
    requires |v| == 12 && LegalGroup(v, 2)
    ensures |r| == 2 && 0 <= r[0] < EdgeStates && 0 <= r[1] < EdgeStates
    ensures EdgeIndex(false, v[..6], EdgePool1) == Some(r[0])
    ensures EdgeIndex(false, v[6..], EdgePool2) == Some(r[1])
    ensures v == EdgeCubies ==> r == [0, 0]
  {
    assert v[..6] + v[6..] == v;
    LegalHalves(v[..6], v[6..]);
    EdgeStatePair(false, v[..6], v[6..])
  }

  /** The two indices are the only ones the two groups have. */
  lemma EdgeStatesOf(v: seq<seq<int>>, states: seq<int>)
    requires |v| == 12 && LegalGroup(v, 2) && |states| == 2
    requires EdgeIndex(false, v[..6], EdgePool1) == Some(states[0])
    requires EdgeIndex(false, v[6..], EdgePool2) == Some(states[1])
    ensures states == EdgeCubeStates(v)
  {
    var r := EdgeCubeStates(v);
    assert states[0] == r[0] && states[1] == r[1];
  }

  class RubiksCubeEdges {
    const edges: array<array<seq<int>>>

    /** Two distinct group arrays of six slots each. */
    ghost predicate Valid()
      reads edges, edges[..]
    {
      edges.Length == 2 && edges[0] != edges[1] &&
      edges[0].Length == 6 && edges[1].Length == 6 &&
      AllColorsOk(edges[0][..]) && AllColorsOk(edges[1][..])
    }

    /** The colour tuples of the twelve slots, group 0 first. */
    ghost function Values(): (r: seq<seq<int>>)
      requires Valid()
      reads edges, edges[..]
      ensures |r| == 12 && AllColorsOk(r)
      ensures r[..6] == edges[0][..] && r[6..] == edges[1][..]
    {
      edges[0][..] + edges[1][..]
    }

    /** Every slot holds a physical edge, and no edge twice. */
    ghost predicate Legal()
      reads edges, edges[..]
    {
      Valid() && LegalGroup(Values(), 2)
    }

    /** The solved cube: slot `j` of group `g` holds a copy of `cubies[6g + j]`. */
    constructor ()
      ensures Legal() && Values() == EdgeCubies
      ensures fresh(edges) && fresh(edges[0]) && fresh(edges[1])
    {
      var first := GroupOf(EdgeCubies[..6]);
      var second := GroupOf(EdgeCubies[6..]);
      var groups := new array<seq<int>>[2](_ => first);
      groups[1] := second;
      edges := groups;
      new;
      EdgeCubiesLegal();
      assert AllColorsOk(EdgeCubies);
      assert AllColorsOk(edges[0][..]) && AllColorsOk(edges[1][..]);
      assert Values() == EdgeCubies[..6] + EdgeCubies[6..] == EdgeCubies;
    }

    /** The copy constructor: equal tuples in fresh arrays. */
    constructor Copy(cube: RubiksCubeEdges)
      requires cube.Valid()
      ensures Valid() && Values() == cube.Values()
      ensures fresh(edges) && fresh(edges[0]) && fresh(edges[1])
    {
      var first := CopyGroup(cube.edges[0]);
      var second := CopyGroup(cube.edges[1]);
      var groups := new array<seq<int>>[2](_ => first);
      groups[1] := second;
      edges := groups;
    }

    /** `rotateFace(face)`: every tuple showing `face`, in both groups, is
        relabelled. */
    method RotateFace(face: int)
      requires Valid()
      modifies edges[0], edges[1]
      ensures Valid() && Values() == TurnAll(old(Values()), face)
      ensures old(Legal()) ==> Legal()
    {
      ghost var before := Values();
      ghost var first := edges[0][..];
      ghost var second := edges[1][..];
      TurnSlots(edges[0], face);
      TurnSlots(edges[1], face);
      TurnAllAppend(first, second, face);
      assert Values() == TurnAll(first, face) + TurnAll(second, face);
      if LegalGroup(before, 2) {
        TurnAllLegal(before, 2, face);
      }
    }

    /** `rotateFace(color, rotations)`: `rotations` single turns, none when it is not
        positive. */
    method RotateFaceTimes(color: int, rotations: int)
      requires Valid()
      modifies edges[0], edges[1]
      ensures Valid() && Values() == TurnTimes(old(Values()), color, rotations)
      ensures old(Legal()) ==> Legal()
    {
      ghost var start := Values();
      ghost var legal := Legal();
      for i := 0 to if rotations < 0 then 0 else rotations
        invariant Valid() && Values() == TurnTimes(start, color, i)
        invariant legal ==> Legal()
      {
        RotateFace(color);
      }
    }

    /** The two indices `getStates` reads exist: every slot its loops look up
        matches an edge left in the pool, so no lookup runs off the end of it. */
    ghost predicate StatesDefined()
      reads edges, edges[..]
    {
      Valid() && EdgeIndex(false, edges[0][..], EdgePool1).Some? && EdgeIndex(false, edges[1][..], EdgePool2).Some?
    }

    /** The two indices of the slots, where they exist. */
    ghost function States(): (r: seq<int>)
      requires StatesDefined()
      reads edges, edges[..]
      ensures |r| == 2
      ensures Legal() ==> r == EdgeCubeStates(Values())
    {
      var r := [EdgeIndex(false, edges[0][..], EdgePool1).value, EdgeIndex(false, edges[1][..], EdgePool2).value];
      if Legal() then
        var v := Values();
        assert edges[0][..] == v[..6] && edges[1][..] == v[6..];
        EdgeStatesOf(v, r);
        r
      else r
    }

    /** Legal edge slots have their two indices, and they are `EdgeCubeStates`. */
    lemma LegalStatesDefined()
      requires Legal()
      ensures StatesDefined()
      ensures States() == EdgeCubeStates(Values())
    {
      var v := Values();
      var r := EdgeCubeStates(v);
      assert edges[0][..] == v[..6] && edges[1][..] == v[6..];
    }

    /** `getStates`: the index of each group against a fresh pool; on legal slots
        these are `EdgeCubeStates`. */
    method GetStates() returns (states: seq<int>)
      requires StatesDefined()
      ensures states == States()
    {
      var pool1 := RebuildDefaultEdgePositions1();
      var pool2 := RebuildDefaultEdgePositions2();
      states := GetEdgeStatePair(false, edges[0], edges[1], pool1, pool2);
    }

    /** `isSolved`: no index is positive; the solved cube is solved. */
    method IsSolved() returns (solved: bool)
      requires StatesDefined()
      ensures solved <==> States()[0] <= 0 && States()[1] <= 0
      ensures Values() == EdgeCubies ==> solved
    {
      var states := GetStates();
      solved := NoneAboveZero(states);
      NoneAboveZeroParts(states);
      EdgeCubiesLegal();
    }

    /** `equals`: `Arrays.deepEquals` of the groups, that is, equal tuples slot by
        slot. */
    method Equals(other: RubiksCubeEdges) returns (same: bool)
      requires Valid() && other.Valid()
      ensures same <==> Values() == other.Values()
    {
      var first := GroupEquals(edges[0], other.edges[0]);
      var second := GroupEquals(edges[1], other.edges[1]);
      same := first && second;
    }
  }
}
