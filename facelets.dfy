/** The facelet string of `RubiksCube(String representation)`: 54 colour letters, read
    at fixed offsets. Every one of the 20 places of the cube (8 corner places, then 12
    edge places, in the order of `cubies`) is read from two or three offsets; the six
    centre facelets (4, 19, 22, 25, 40 and 49) are never read. */
module FaceletString {
  import opened Colors
  import opened Turns
  import opened StateIndex

  /** `positions`: the facelet offsets read for each place. */
  const Places: seq<seq<int>> := [
    [12, 11, 6],
    [14, 15, 8],
    [32, 33, 38],
    [30, 29, 36],
    [53, 17, 2],
    [51, 9, 0],
    [45, 27, 42],
    [47, 35, 44],
    [13, 7],
    [23, 24],
    [31, 37],
    [21, 20],
    [10, 3],
    [28, 39],
    [52, 1],
    [48, 18],
    [46, 43],
    [50, 26],
    [16, 5],
    [34, 41]
  ]

  /** The offsets of place `j`: as many as the solved piece of that place has colours,
      each inside the 54 facelets. */
  function Place(j: int): (p: seq<int>)
    requires 0 <= j < 20
    ensures |p| == |Cubies[j]| && (|p| == 2 || |p| == 3)
    ensures forall k :: 0 <= k < |p| ==> 0 <= p[k] < 54
  {
    Places[j]
  }

  /** The 54 facelet colours of a representation: `charToByte` of each character, and
      0 (the array's initial value) past its end. */
  function Facelets(representation: string): (f: seq<int>)
    requires |representation| <= 54
    ensures |f| == 54 && ColorsOk(f)
    ensures forall k :: 0 <= k < |representation| ==> f[k] == CharToByte(representation[k])
    ensures forall k :: |representation| <= k < 54 ==> f[k] == 0
  {
    seq(54, k requires 0 <= k < 54 =>
      if k < |representation| then CharToByte(representation[k]) else 0)
  }

  /** Every colour letter of the representation is read back by `getColor`. */
  lemma FaceletsRoundTrip(representation: string)
    requires |representation| <= 54
    requires forall k :: 0 <= k < |representation| ==> representation[k] in "YWGBRO"
    ensures forall k :: 0 <= k < |representation| ==>
      GetColor(Facelets(representation)[k]) == representation[k]
  {
    forall k | 0 <= k < |representation|
      ensures GetColor(Facelets(representation)[k]) == representation[k]
    {
      LetterRoundTrip(representation[k]);
    }
  }

  /** The colours read at place `j`. */
  function ReadPlace(f: seq<int>, j: int): (p: seq<int>)
    requires |f| == 54 && 0 <= j < 20
    ensures |p| == |Cubies[j]|
    ensures forall k :: 0 <= k < |p| ==> p[k] == f[Place(j)[k]]
  {
    seq(|Place(j)|, k requires 0 <= k < |Place(j)| => f[Place(j)[k]])
  }

  /** One pass of the swap loop of `orientPosition`: the first entry moves to the
      end. */
  function Step(q: seq<int>): (r: seq<int>)
    ensures |r| == |q|
    ensures ColorsOk(q) ==> ColorsOk(r)
  {
    if q == [] then q else q[1..] + [q[0]]
  }

  /** `orientPosition(p, h)`: `h` passes of the swap loop. */
  function RotatedLeft(p: seq<int>, h: nat): (r: seq<int>)
    ensures |r| == |p|
    ensures ColorsOk(p) ==> ColorsOk(r)
  {
    if h == 0 then p else Step(RotatedLeft(p, h - 1))
  }

  /** Rotating left `h` times, for `h` up to the length, puts entry `h` first: the
      result is the tuple from entry `h` on, then the entries before it. */
  lemma {:induction false} RotatedLeftSplit(p: seq<int>, h: nat)
    requires h <= |p|
    ensures RotatedLeft(p, h) == p[h..] + p[..h]
  {
    if h > 0 {
      RotatedLeftSplit(p, h - 1);
      var q := p[h - 1..] + p[..h - 1];
      assert RotatedLeft(p, h) == Step(q) == q[1..] + [q[0]];
      assert q[0] == p[h - 1] && q[1..] == p[h..] + p[..h - 1];
      calc {
        q[1..] + [q[0]];
        (p[h..] + p[..h - 1]) + [p[h - 1]];
        p[h..] + (p[..h - 1] + [p[h - 1]]);
        { assert p[..h - 1] + [p[h - 1]] == p[..h]; }
        p[h..] + p[..h];
      }
    }
  }

  /** A full turn of passes gives the tuple back. */
  lemma RotatedLeftPeriod(p: seq<int>)
    ensures RotatedLeft(p, |p|) == p
  {
    RotatedLeftSplit(p, |p|);
    assert p[|p|..] + p[..|p|] == p;
  }

  /** The inner loop of `orientPosition`: swap each entry with the next one, from the
      front to the back, which carries the first entry to the end. */
  method SwapPass(a: array<int>)
    modifies a
    ensures a[..] == Step(old(a[..]))
  {
    if a.Length > 0 {
      ghost var q := a[..];
      var j := 0;
      while j < a.Length - 1
        invariant 0 <= j < a.Length
        invariant forall k :: 0 <= k < j ==> a[k] == q[k + 1]
        invariant a[j] == q[0]
        invariant forall k :: j < k < a.Length ==> a[k] == q[k]
      {
        a[j], a[j + 1] := a[j + 1], a[j];
        j := j + 1;
      }
      assert a[..] == q[1..] + [q[0]];
    }
  }

  /** `orientPosition`: a copy of `p` in an array, then `rotations` passes. */
  method OrientPosition(p: seq<int>, rotations: nat) returns (position: seq<int>)
    ensures position == RotatedLeft(p, rotations)
  {
    var a := new int[|p|](k requires 0 <= k < |p| => p[k]);
    assert a[..] == p;
    for i := 0 to rotations
      invariant a[..] == RotatedLeft(p, i)
    {
      SwapPass(a);
    }
    position := a[..];
  }

  /** Slot `piece` after the places before `upto` have been read: the last place whose
      colours are exactly those of the piece (same length, every colour of the piece
      present) sets it to the solved tuple of that place, rotated left as far as the
      piece's first colour lies into the colours read; before any match the slot
      holds zeros. */
  function ParsedSlot(f: seq<int>, piece: int, upto: int): (r: seq<int>)
    requires |f| == 54 && 0 <= piece < 20 && 0 <= upto <= 20
    ensures |r| == |Cubies[piece]| && ColorsOk(r)
    decreases upto
  {
    CubieAt(piece);
    var cubie := Cubies[piece];
    if upto == 0 then seq(|cubie|, _ => 0)
    else
      var p := ReadPlace(f, upto - 1);
      if HaveSameElements(true, cubie, p) then
        CubieAt(upto - 1);
        RotatedLeft(Cubies[upto - 1], IndexIn(p, cubie[0]))
      else ParsedSlot(f, piece, upto - 1)
  }

  /** The 20 slots, corners then edges, read from a representation. */
  function Parsed(representation: string): (r: seq<seq<int>>)
    requires |representation| <= 54
    ensures |r| == 20 && AllColorsOk(r)
    ensures forall i :: 0 <= i < 20 ==> |r[i]| == |Cubies[i]|
  {
    seq(20, i requires 0 <= i < 20 => ParsedSlot(Facelets(representation), i, 20))
  }

  /** The solved tuple of a place: two or three colours, on different axes. */
  lemma CubieAt(j: int)
    requires 0 <= j < 20
    ensures |Cubies[j]| == (if j < 8 then 3 else 2) && Coherent(Cubies[j])
  {
    if j < 8 {
      CornerCubiesLegal();
      assert Cubies[j] == CornerCubies[j];
    } else {
      EdgeCubiesLegal();
      assert Cubies[j] == EdgeCubies[j - 8];
    }
  }

  /** No solved piece shows exactly the colours of another. */
  lemma CubiesApart(i: int, j: int)
    requires 0 <= i < 20 && 0 <= j < 20 && i != j
    ensures !HaveSameElements(true, Cubies[i], Cubies[j])
  {
    CubieAt(i);
    CubieAt(j);
    var lo, hi := if i < j then i else j, if i < j then j else i;
    if hi < 8 {
      CornerCubiesLegal();
      assert Cubies[lo] == CornerCubies[lo] && Cubies[hi] == CornerCubies[hi];
      assert !SameSet(Cubies[lo], Cubies[hi]);
    } else if 8 <= lo {
      EdgeCubiesLegal();
      assert Cubies[lo] == EdgeCubies[lo - 8] && Cubies[hi] == EdgeCubies[hi - 8];
      assert !SameSet(Cubies[lo], Cubies[hi]);
    }
    if HaveSameElements(true, Cubies[i], Cubies[j]) {
      SubsetSameSize(Cubies[i], Cubies[j]);
    }
  }

  /** On facelets that show every solved piece at its own place, slot `piece` is that
      piece, as it stands once its own place has been read. */
  lemma {:induction false} ParsedSolvedSlot(f: seq<int>, piece: int, upto: int)
    requires |f| == 54 && 0 <= piece < upto <= 20
    requires forall j :: 0 <= j < 20 ==> ReadPlace(f, j) == Cubies[j]
    ensures ParsedSlot(f, piece, upto) == Cubies[piece]
  {
    if upto - 1 == piece {
      CubieAt(piece);
      assert HaveSameElements(true, Cubies[piece], Cubies[piece]);
      assert IndexIn(Cubies[piece], Cubies[piece][0]) == 0;
    } else {
      CubiesApart(piece, upto - 1);
      ParsedSolvedSlot(f, piece, upto - 1);
    }
  }

  /** A representation whose facelets show every solved piece at its own place parses
      to the solved cube. */
  lemma ParsedSolved(representation: string)
    requires |representation| <= 54
    requires forall j :: 0 <= j < 20 ==> ReadPlace(Facelets(representation), j) == Cubies[j]
    ensures Parsed(representation) == Cubies
  {
    forall i | 0 <= i < 20
      ensures Parsed(representation)[i] == Cubies[i]
    {
      ParsedSolvedSlot(Facelets(representation), i, 20);
    }
  }

  /** `cube[index++] = charToByte(c)` for each character of the representation, into a
      fresh array of 54 zeros. */
  method ReadFacelets(representation: string) returns (cube: array<int>)
    requires |representation| <= 54
    ensures fresh(cube) && cube[..] == Facelets(representation)
  {
    cube := new int[54](_ => 0);
    var index := 0;
    for i := 0 to |representation|
      invariant index == i
      invariant forall k :: 0 <= k < 54 ==>
        cube[k] == if k < i then CharToByte(representation[k]) else 0
    {
      cube[index] := CharToByte(representation[i]);
      index := index + 1;
    }
  }

  /** `position[k] = cube[positions[j][k]]`: the colours at place `j`. */
  method ReadPosition(cube: array<int>, j: int) returns (position: seq<int>)
    requires cube.Length == 54 && 0 <= j < 20
    ensures position == ReadPlace(cube[..], j)
  {
    var offsets := Place(j);
    var a := new int[|offsets|];
    for k := 0 to a.Length
      invariant forall m :: 0 <= m < k ==> a[m] == cube[offsets[m]]
    {
      a[k] := cube[offsets[k]];
    }
    position := a[..];
  }

  /** `while (cubies[i][0] != position[h]) h++`: the first place of a colour the
      tuple shows. */
  method FirstIndex(position: seq<int>, c: int) returns (h: nat)
    requires c in position
    ensures h == IndexIn(position, c) < |position|
  {
    h := 0;
    while position[h] != c
      invariant h < |position| && c in position[h..]
      invariant forall k :: 0 <= k < h ==> position[k] != c
      decreases |position| - h
    {
      assert position[h..] == [position[h]] + position[h + 1..];
      h := h + 1;
    }
  }

  /** The loop over all places for one piece: every place showing the piece's colours
      overwrites the slot, so the last one wins. */
  method ParsePiece(cube: array<int>, i: int) returns (slot: seq<int>)
    requires cube.Length == 54 && 0 <= i < 20
    ensures slot == ParsedSlot(cube[..], i, 20)
  {
    CubieAt(i);
    var cubie := Cubies[i];
    slot := seq(|cubie|, _ => 0);
    for j := 0 to 20
      invariant slot == ParsedSlot(cube[..], i, j)
    {
      var position := ReadPosition(cube, j);
      if HaveSameElements(true, cubie, position) {
        assert cubie[0] in position;
        var h := FirstIndex(position, cubie[0]);
        slot := OrientPosition(Cubies[j], h);
      }
    }
  }
}
