/** `RubiksCube`: the whole cube, eight corner slots and twelve edge slots in two
    groups of six. Slot `i` of the 20 (corners first) holds the colour tuple now in
    the place of solved piece `i`. This class uses the strict `haveSameElements`,
    which also compares lengths. */
module Cube {
  import opened Wrappers
  import opened Colors
  import opened Turns
  import opened StateIndex
  import opened Slots
  import opened FaceletString

  /** Twenty slots as they can arise from the solved cube: the eight corner slots
      form a legal group of triples and the twelve edge slots one of pairs. */
  ghost predicate LegalCube(v: seq<seq<int>>) {
    |v| == 20 && LegalGroup(v[..8], 3) && LegalGroup(v[8..], 2)
  }

  /** The three indices of a legal cube: the corners against the pool of the eight
      corners, edge group 0 against all twelve edges in order, edge group 1 against
      the pool that lists the second six first; all three are 0 on the solved cube. */
  function CubeStates(v: seq<seq<int>>): (r: seq<int>)
    requires LegalCube(v)
    ensures |r| == 3
    ensures 0 <= r[0] < CornerStates && 0 <= r[1] < EdgeStates && 0 <= r[2] < EdgeStates
    ensures CornerIndex(true, v[..8], CornerPool) == Some(r[0])
    ensures EdgeIndex(true, v[8..14], EdgePool1) == Some(r[1])
    ensures EdgeIndex(true, v[14..], EdgePool2) == Some(r[2])
    ensures v == Cubies ==> r == [0, 0, 0]
  {
    var c, first, second := v[..8], v[8..14], v[14..];
    assert first + second == v[8..];
    LegalHalves(first, second);
    SolvedParts(v);
    var pair := EdgeStatePair(true, first, second);
    [CornerState(true, c), pair[0], pair[1]]
  }

  /** The three indices are the only ones the three groups have. */
  lemma StatesOf(v: seq<seq<int>>, corner: int, edgeStates: seq<int>)
    requires LegalCube(v) && |edgeStates| == 2
    requires CornerIndex(true, v[..8], CornerPool) == Some(corner)
    requires EdgeIndex(true, v[8..14], EdgePool1) == Some(edgeStates[0])
    requires EdgeIndex(true, v[14..], EdgePool2) == Some(edgeStates[1])
    ensures [corner] + edgeStates == CubeStates(v)
  {
    var r := CubeStates(v);
    assert r == [r[0], r[1], r[2]];
  }

  /** The 20 solved pieces split into the three groups of slots. */
  lemma SolvedParts(v: seq<seq<int>>)
    requires |v| == 20
    ensures v == Cubies ==>
      v[..8] == CornerCubies && v[8..14] == EdgeCubies[..6] && v[14..] == EdgeCubies[6..]
  {
  }

  /** The solved cube is legal, and a quarter turn keeps a cube legal. */
  lemma SolvedLegal()
    ensures LegalCube(Cubies)
  {
    CornerCubiesLegal();
    EdgeCubiesLegal();
  }

  lemma TurnLegal(v: seq<seq<int>>, face: int)
    requires LegalCube(v)
    ensures AllColorsOk(v) && LegalCube(TurnAll(v, face))
  {
    assert v == v[..8] + v[8..];
    TurnAllLegal(v[..8], 3, face);
    TurnAllLegal(v[8..], 2, face);
    TurnAllAppend(v[..8], v[8..], face);
    var r := TurnAll(v, face);
    assert r[..8] == TurnAll(v[..8], face) && r[8..] == TurnAll(v[8..], face);
  }

  /** Any sequence of turns keeps a cube legal. */
  lemma {:induction false} FacesLegal(v: seq<seq<int>>, faces: seq<int>)
    requires LegalCube(v)
    ensures AllColorsOk(v) && LegalCube(ApplyFaces(v, faces))
  {
    TurnLegal(v, 0);
    if faces != [] {
      FacesLegal(v, faces[..|faces| - 1]);
      TurnLegal(ApplyFaces(v, faces[..|faces| - 1]), faces[|faces| - 1]);
    }
  }

  class RubiksCube {
    const corners: array<seq<int>>
    const edges: array<array<seq<int>>>

    /** Three distinct group arrays: eight corner slots and two groups of six edge
        slots. */
    ghost predicate Valid()
      reads corners, edges, edges[..]
    {
      corners.Length == 8 && edges.Length == 2 &&
      edges[0] != edges[1] && corners != edges[0] && corners != edges[1] &&
      edges[0].Length == 6 && edges[1].Length == 6 &&
      AllColorsOk(corners[..]) && AllColorsOk(edges[0][..]) && AllColorsOk(edges[1][..])
    }

    /** The twelve edge slots, group 0 first. */
    ghost function Edges(): (r: seq<seq<int>>)
      requires Valid()
      reads corners, edges, edges[..]
      ensures |r| == 12 && AllColorsOk(r)
      ensures r[..6] == edges[0][..] && r[6..] == edges[1][..]
    {
      edges[0][..] + edges[1][..]
    }

    /** The 20 slots, in the order of `cubies`. */
    ghost function Values(): (r: seq<seq<int>>)
      requires Valid()
      reads corners, edges, edges[..]
      ensures |r| == 20 && AllColorsOk(r)
      ensures r[..8] == corners[..] && r[8..] == Edges()
      ensures r[8..14] == edges[0][..] && r[14..] == edges[1][..]
    {
      assert (corners[..] + Edges())[8..] == Edges();
      corners[..] + Edges()
    }

    /** Every slot holds a physical piece of its kind, and no piece twice. */
    ghost predicate Legal()
      reads corners, edges, edges[..]
    {
      Valid() && LegalCube(Values())
    }

    /** The solved cube: corner slot `i` holds a copy of `cubies[i]` and edge slot `j`
        of group `g` a copy of `cubies[8 + 6g + j]`. */
    constructor ()
      ensures Legal() && Values() == Cubies
      ensures fresh(corners) && fresh(edges) && fresh(edges[0]) && fresh(edges[1])
    {
      var c := GroupOf(CornerCubies);
      var first := GroupOf(EdgeCubies[..6]);
      var second := GroupOf(EdgeCubies[6..]);
      var groups := new array<seq<int>>[2](_ => first);
      groups[1] := second;
      corners := c;
      edges := groups;
      new;
      SolvedLegal();
      assert EdgeCubies[..6] + EdgeCubies[6..] == EdgeCubies;
      assert Values() == CornerCubies + EdgeCubies == Cubies;
    }

    /** The copy constructor: equal tuples in fresh arrays. */
    constructor Copy(cube: RubiksCube)
      requires cube.Valid()
      ensures Valid() && Values() == cube.Values()
      ensures fresh(corners) && fresh(edges) && fresh(edges[0]) && fresh(edges[1])
    {
      var c := CopyGroup(cube.corners);
      var first := CopyGroup(cube.edges[0]);
      var second := CopyGroup(cube.edges[1]);
      var groups := new array<seq<int>>[2](_ => first);
      groups[1] := second;
      corners := c;
      edges := groups;
    }

    /** `RubiksCube(String representation)`: the facelets are read into an array of
        54 (a longer representation overflows it), every slot starts as zeros, and
        for every piece every place is read; a place showing exactly the piece's
        colours sets the piece's slot. Nothing checks that the facelets describe a
        real cube. */
    constructor Parse(representation: string)
      requires |representation| <= 54
      ensures Valid() && Values() == Parsed(representation)
      ensures fresh(corners) && fresh(edges) && fresh(edges[0]) && fresh(edges[1])
    {
      var cube := ReadFacelets(representation);
      ghost var slots := Parsed(representation);
      var c, first, second := ParseSlots(cube, slots);
      var groups := new array<seq<int>>[2](_ => first);
      groups[1] := second;
      corners := c;
      edges := groups;
      new;
      assert edges[0] == first && edges[1] == second;
      assert Values() == slots[..8] + (slots[8..14] + slots[14..]) == slots;
    }

    /** The slots of a fresh cube before any is set: zeros, three for a corner and two
        for an edge. */
    static ghost function Blank(): (r: seq<seq<int>>)
      ensures |r| == 20
      ensures forall k :: 0 <= k < 20 ==> r[k] == seq(|Cubies[k]|, _ => 0)
    {
      seq(8, _ => seq(3, _ => 0)) + seq(12, _ => seq(2, _ => 0))
    }

    /** The loop of the parse constructor: fresh zero slots, then every piece's slot is
        set in turn. */
    static method ParseSlots(cube: array<int>, ghost slots: seq<seq<int>>)
      returns (c: array<seq<int>>, first: array<seq<int>>, second: array<seq<int>>)
      requires cube.Length == 54 && |slots| == 20
      requires forall i :: 0 <= i < 20 ==> slots[i] == ParsedSlot(cube[..], i, 20)
      ensures fresh(c) && fresh(first) && fresh(second)
      ensures c != first && c != second && first != second
      ensures c[..] == slots[..8] && first[..] == slots[8..14] && second[..] == slots[14..]
    {
      c := NewGroup(8, 3);
      first := NewGroup(6, 2);
      second := NewGroup(6, 2);
      ghost var blank := Blank();
      assert c[..] + first[..] + second[..] == blank;
      for i := 0 to 20
        invariant c.Length == 8 && first.Length == 6 && second.Length == 6
        invariant c[..] + first[..] + second[..] == slots[..i] + blank[i..]
      {
        var position := ParsePiece(cube, i);
        StoreSlot(c, first, second, i, position);
        Fill(slots, blank, i);
      }
      assert slots[..20] + blank[20..] == slots;
      ghost var all := c[..] + first[..] + second[..];
      assert c[..] == all[..8] && first[..] == all[8..14] && second[..] == all[14..];
    }

    /** Setting slot `i` of the slots read so far extends them by one. */
    static lemma Fill(slots: seq<seq<int>>, blank: seq<seq<int>>, i: int)
      requires |slots| == |blank| && 0 <= i < |slots|
      ensures (slots[..i] + blank[i..])[i := slots[i]] == slots[..i + 1] + blank[i + 1..]
    {
      var a := (slots[..i] + blank[i..])[i := slots[i]];
      var b := slots[..i + 1] + blank[i + 1..];
      assert forall k :: 0 <= k < |a| ==> a[k] == b[k];
    }

    /** The store of the parse loop: `corners[i]`, `edges[0][i - 8]` or
        `edges[1][i - 14]`, by the range of `i`. */
    static method StoreSlot(c: array<seq<int>>, first: array<seq<int>>, second: array<seq<int>>,
                            i: int, position: seq<int>)
      requires c.Length == 8 && first.Length == 6 && second.Length == 6
      requires c != first && c != second && first != second && 0 <= i < 20
      modifies c, first, second
      ensures c[..] + first[..] + second[..] == old(c[..] + first[..] + second[..])[i := position]
    {
      ghost var before := c[..] + first[..] + second[..];
      if i < 8 {
        c[i] := position;
      } else if i < 14 {
        first[i - 8] := position;
      } else {
        second[i - 14] := position;
      }
      ghost var after := c[..] + first[..] + second[..];
      assert forall k :: 0 <= k < 20 ==> after[k] == before[i := position][k];
    }

    /** `rotateFace(face)`: every tuple showing `face`, corners first, then both edge
        groups, is relabelled. */
    method RotateFace(face: int)
      requires Valid()
      modifies corners, edges[0], edges[1]
      ensures edges[0] == old(edges[0]) && edges[1] == old(edges[1])
      ensures Valid() && Values() == TurnAll(old(Values()), face)
      ensures old(Legal()) ==> Legal()
    {
      ghost var c := corners[..];
      ghost var first := edges[0][..];
      ghost var second := edges[1][..];
      TurnSlots(corners, face);
      TurnSlots(edges[0], face);
      TurnSlots(edges[1], face);
      TurnAllAppend(first, second, face);
      TurnAllAppend(c, first + second, face);
      assert Edges() == TurnAll(first + second, face);
      if LegalCube(c + (first + second)) {
        TurnLegal(c + (first + second), face);
      }
    }

    /** `rotateFace(color, rotations)`: `rotations` single turns, none when it is not
        positive. */
    method RotateFaceTimes(color: int, rotations: int)
      requires Valid()
      modifies corners, edges[0], edges[1]
      ensures Valid() && Values() == TurnTimes(old(Values()), color, rotations)
      ensures old(Legal()) ==> Legal()
    {
      ghost var start := Values();
      ghost var legal := Legal();
      for i := 0 to if rotations < 0 then 0 else rotations
        invariant Valid() && Values() == TurnTimes(start, color, i)
        invariant legal ==> Legal()
      {
        RotateFace(color);
      }
    }

    /** The three indices `getStates` reads exist: every slot its loops look up
        matches a piece left in the pool, so no lookup runs off the end of it. */
    ghost predicate StatesDefined()
      reads corners, edges, edges[..]
    {
      Valid() && CornerIndex(true, corners[..], CornerPool).Some? &&
      EdgeIndex(true, edges[0][..], EdgePool1).Some? && EdgeIndex(true, edges[1][..], EdgePool2).Some?
    }

    /** The three indices of the slots, where they exist. */
    ghost function States(): (r: seq<int>)
      requires StatesDefined()
      reads corners, edges, edges[..]
      ensures |r| == 3
      ensures Legal() ==> r == CubeStates(Values())
    {
      var r := [CornerIndex(true, corners[..], CornerPool).value,
                EdgeIndex(true, edges[0][..], EdgePool1).value,
                EdgeIndex(true, edges[1][..], EdgePool2).value];
      if Legal() then
        var v := Values();
        assert corners[..] == v[..8] && edges[0][..] == v[8..14] && edges[1][..] == v[14..];
        StatesOf(v, r[0], r[1..]);
        r
      else r
    }

    /** A legal cube has its three indices, and they are `CubeStates`. */
    lemma LegalStatesDefined()
      requires Legal()
      ensures StatesDefined()
      ensures States() == CubeStates(Values())
    {
      var v := Values();
      var r := CubeStates(v);
      assert corners[..] == v[..8] && edges[0][..] == v[8..14] && edges[1][..] == v[14..];
    }

    /** `getStates`: the three indices, each against a fresh pool; on a legal cube
        these are `CubeStates`. */
    method GetStates() returns (states: seq<int>)
      requires StatesDefined()
      ensures states == States()
    {
      var pool := RebuildDefaultCornerPositions();
      var corner := GetCornerState(true, corners, pool);
      var pool1 := RebuildDefaultEdgePositions1();
      var pool2 := RebuildDefaultEdgePositions2();
      var edgeStates := GetEdgeStatePair(true, edges[0], edges[1], pool1, pool2);
      states := [corner] + edgeStates;
    }

    /** `isSolved`: no index is positive; the solved cube is solved. */
    method IsSolved() returns (solved: bool)
      requires StatesDefined()
      ensures solved <==> States()[0] <= 0 && States()[1] <= 0 && States()[2] <= 0
      ensures Values() == Cubies ==> solved
    {
      var states := GetStates();
      solved := NoneAboveZero(states);
      NoneAboveZeroParts(states);
      SolvedLegal();
    }

    /** `equals`: `Arrays.deepEquals` of the corners and of the edges, that is, equal
        tuples slot by slot. */
    method Equals(other: RubiksCube) returns (same: bool)
      requires Valid() && other.Valid()
      ensures same <==> Values() == other.Values()
    {
      same := GroupEquals(corners, other.corners);
      if same {
        var first := GroupEquals(edges[0], other.edges[0]);
        var second := GroupEquals(edges[1], other.edges[1]);
        same := first && second;
      }
    }
  }
}
