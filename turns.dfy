/** A quarter turn as the three cube classes perform it: it relabels, in place, every
    colour tuple that shows the turned face, and leaves the slots where they are. The
    functions here are the value-level meaning of `hasFace`, `rotateAroundFace` and
    `rotateFace`, shared by RubiksCube, RubiksCubeEdges and RubiksCubeCorners (each
    declares its own identical copy); the two methods at the end are the loops over
    one tuple and over one group of slots. */
module Turns {
  import opened Colors

  /** The search loop `while (j < s.length && s[j] != c) j++`: the first position of
      `c` in `s`, or `|s|` when `c` is absent. */
  function IndexIn(s: seq<int>, c: int): (j: nat)
    ensures j <= |s|
    ensures j < |s| ==> s[j] == c
    ensures forall k :: 0 <= k < j ==> s[k] != c
  {
    if s == [] || s[0] == c then 0 else 1 + IndexIn(s[1..], c)
  }

  /** `hasFace`: the tuple shows colour `face` somewhere. */
  function HasFace(position: seq<int>, face: int): (r: bool)
    ensures r <==> exists k :: 0 <= k < |position| && position[k] == face
  {
    IndexIn(position, face) < |position|
  }

  /** The successor of `c` in the cycle `s`; a colour absent from `s` is found at
      index `|s|` and so becomes `s[1]`. */
  function NextIn(s: seq<int>, c: int): (r: int)
    requires |s| > 0
    ensures r in s
  {
    s[(IndexIn(s, c) + 1) % |s|]
  }

  /** In a cycle without repeated entries, entry `j` moves on to entry `j + 1`. */
  lemma NextInAt(s: seq<int>, j: int)
    requires 0 <= j < |s|
    requires forall a, b :: 0 <= a < b < |s| ==> s[a] != s[b]
    ensures NextIn(s, s[j]) == s[(j + 1) % |s|]
  {
    assert IndexIn(s, s[j]) == j;
  }

  /** The colour that replaces `c` when `face` turns: the next entry of the face's
      sequence, cyclically. A colour absent from the sequence is found at index 4
      and so becomes the sequence's entry 1. */
  function Next(face: int, c: int): (r: int)
    requires IsColor(face)
    ensures IsColor(r)
  {
    NextIn(Sequence(face), c)
  }

  /** The entry `j` of a face's sequence moves on to entry `j + 1`, cyclically. */
  lemma NextInSequence(face: int, j: int)
    requires IsColor(face) && 0 <= j < 4
    ensures Next(face, Sequence(face)[j]) == Sequence(face)[(j + 1) % 4]
  {
    NextInAt(Sequence(face), j);
  }

  /** A colour missing from the face's sequence becomes the sequence's entry 1. */
  lemma NextOfAbsent(face: int, c: int)
    requires IsColor(face) && c !in Sequence(face)
    ensures Next(face, c) == Sequence(face)[1]
  {
    assert IndexIn(Sequence(face), c) == 4;
  }

  /** `rotateAroundFace` on the value of one tuple: the entry equal to `face` stays,
      every other entry moves on in the face's sequence. */
  function RotatedTuple(position: seq<int>, face: int): (r: seq<int>)
    requires IsColor(face)
    ensures |r| == |position|
    ensures forall k :: 0 <= k < |r| && position[k] == face ==> r[k] == face
    ensures forall k :: 0 <= k < |r| && position[k] != face ==> r[k] == Next(face, position[k])
  {
    seq(|position|, k requires 0 <= k < |position| =>
      if position[k] != face then Next(face, position[k]) else position[k])
  }

  /** What one quarter turn of `face` does to one slot: a tuple that shows the face is
      rotated around it, any other tuple is left alone. */
  function Turned(position: seq<int>, face: int): (r: seq<int>)
    requires ColorsOk(position)
    ensures |r| == |position| && ColorsOk(r)
    ensures !HasFace(position, face) ==> r == position
  {
    if HasFace(position, face) then RotatedTuple(position, face) else position
  }

  /** One quarter turn of `face` applied to every slot of a cube. */
  function TurnAll(tuples: seq<seq<int>>, face: int): (r: seq<seq<int>>)
    requires AllColorsOk(tuples)
    ensures |r| == |tuples| && AllColorsOk(r)
    ensures forall k :: 0 <= k < |tuples| ==> r[k] == Turned(tuples[k], face)
  {
    seq(|tuples|, k requires 0 <= k < |tuples| => Turned(tuples[k], face))
  }

  /** A turn acts slot by slot, so it splits over consecutive groups of slots. */
  lemma TurnAllAppend(a: seq<seq<int>>, b: seq<seq<int>>, face: int)
    requires AllColorsOk(a) && AllColorsOk(b)
    ensures AllColorsOk(a + b)
    ensures TurnAll(a + b, face) == TurnAll(a, face) + TurnAll(b, face)
  {
    assert forall k :: 0 <= k < |a + b| ==> (a + b)[k] == if k < |a| then a[k] else b[k - |a|];
  }

  /** `rotateFace(color, rotations)`: the loop `for (i = 0; i < rotations; i++)`
      of single turns; a count of zero or less turns nothing. */
  function TurnTimes(tuples: seq<seq<int>>, face: int, rotations: int): (r: seq<seq<int>>)
    requires AllColorsOk(tuples)
    ensures |r| == |tuples| && AllColorsOk(r)
    decreases rotations
  {
    if rotations <= 0 then tuples else TurnAll(TurnTimes(tuples, face, rotations - 1), face)
  }

  /** The turns `faces`, one after the other, from first to last. */
  function ApplyFaces(tuples: seq<seq<int>>, faces: seq<int>): (r: seq<seq<int>>)
    requires AllColorsOk(tuples)
    ensures |r| == |tuples| && AllColorsOk(r)
  {
    if faces == [] then tuples
    else TurnAll(ApplyFaces(tuples, faces[..|faces| - 1]), faces[|faces| - 1])
  }

  /** The turns of a list of faces act on each slot on its own. */
  lemma {:induction false} ApplyFacesAt(tuples: seq<seq<int>>, faces: seq<int>, k: int)
    requires AllColorsOk(tuples) && 0 <= k < |tuples|
    ensures ApplyFaces(tuples, faces)[k] == ApplyFaces([tuples[k]], faces)[0]
  {
    if faces != [] {
      ApplyFacesAt(tuples, faces[..|faces| - 1], k);
    }
  }

  /** The precondition of the four-turn law: when the tuple shows `face`, all its other
      entries lie in the face's sequence. */
  predicate AroundFace(position: seq<int>, face: int)
    requires ColorsOk(position)
  {
    HasFace(position, face) ==>
      forall k :: 0 <= k < |position| && position[k] != face ==> position[k] in Sequence(face)
  }

  lemma TurnedAroundFace(position: seq<int>, face: int)
    requires ColorsOk(position) && AroundFace(position, face)
    ensures AroundFace(Turned(position, face), face)
  {
    var r := Turned(position, face);
    if HasFace(position, face) {
      forall k | 0 <= k < |r| && r[k] != face
        ensures r[k] in Sequence(face)
      {
        var j := IndexIn(Sequence(face), position[k]);
        assert r[k] == Sequence(face)[(j + 1) % 4];
      }
    }
  }

  /** Around a cycle of four distinct entries, four steps come back to the start. */
  lemma FourStepsIn(s: seq<int>, j: int)
    requires |s| == 4 && 0 <= j < 4
    requires forall a, b :: 0 <= a < b < |s| ==> s[a] != s[b]
    ensures NextIn(s, NextIn(s, NextIn(s, NextIn(s, s[j])))) == s[j]
  {
    NextInAt(s, 0);
    NextInAt(s, 1);
    NextInAt(s, 2);
    NextInAt(s, 3);
    if j == 0 {
    } else if j == 1 {
    } else if j == 2 {
    } else {
    }
  }

  /** A colour of the face's sequence comes back after four steps. */
  lemma FourNext(face: int, c: int)
    requires IsColor(face) && c in Sequence(face)
    ensures Next(face, Next(face, Next(face, Next(face, c)))) == c
  {
    var s := Sequence(face);
    var j := IndexIn(s, c);
    FourStepsIn(s, j);
  }

  /** A tuple that shows the face is relabelled entry by entry, and still shows it. */
  lemma TurnedAt(position: seq<int>, face: int, k: int)
    requires ColorsOk(position) && HasFace(position, face) && 0 <= k < |position|
    ensures Turned(position, face)[k] == Relabel(face, position[k])
    ensures HasFace(Turned(position, face), face)
  {
    var f :| 0 <= f < |position| && position[f] == face;
    assert Turned(position, face)[f] == face;
  }

  /** Four quarter turns of one face restore a tuple whose entries lie around it. */
  lemma FourTurnsRestoreTuple(position: seq<int>, face: int)
    requires ColorsOk(position) && AroundFace(position, face)
    ensures Turned(Turned(Turned(Turned(position, face), face), face), face) == position
  {
    if HasFace(position, face) {
      var p1 := Turned(position, face);
      var p2 := Turned(p1, face);
      var p3 := Turned(p2, face);
      var p4 := Turned(p3, face);
      forall k | 0 <= k < |position|
        ensures p4[k] == position[k]
      {
        TurnedAt(position, face, k);
        TurnedAt(p1, face, k);
        TurnedAt(p2, face, k);
        TurnedAt(p3, face, k);
        if position[k] != face {
          FourNext(face, position[k]);
          NotFaceNext(face, position[k]);
          NotFaceNext(face, p1[k]);
          NotFaceNext(face, p2[k]);
        }
      }
    }
  }

  /** A colour of the face's sequence never turns into the face itself. */
  lemma NotFaceNext(face: int, c: int)
    requires IsColor(face) && c in Sequence(face)
    ensures Next(face, c) != face && Next(face, c) in Sequence(face)
  {
    var s := Sequence(face);
    var j := IndexIn(s, c);
    NextInSequence(face, j);
    CycleStep(face, (j + 1) % 4);
  }

  /** Four quarter turns of one face restore every cube whose tuples lie around it. */
  lemma FourTurnsRestore(tuples: seq<seq<int>>, face: int)
    requires AllColorsOk(tuples)
    requires forall k :: 0 <= k < |tuples| ==> AroundFace(tuples[k], face)
    ensures TurnTimes(tuples, face, 4) == tuples
  {
    var r := TurnTimes(tuples, face, 4);
    forall k | 0 <= k < |tuples|
      ensures r[k] == tuples[k]
    {
      FourTurnsRestoreTuple(tuples[k], face);
    }
  }

  /* ---- Physical tuples ---- */

  /** A tuple as a physical piece shows it: colours on pairwise different axes, so no
      colour twice and never two opposite faces. */
  predicate Coherent(position: seq<int>) {
    ColorsOk(position) &&
    forall i, j :: 0 <= i < j < |position| ==> Axis(position[i]) != Axis(position[j])
  }

  /** Two tuples show the same colours, in any order. */
  predicate SameSet(a: seq<int>, b: seq<int>) {
    (forall x :: x in a ==> x in b) && (forall x :: x in b ==> x in a)
  }

  /** A group of slots as it can arise from the solved cube: every tuple has the
      group's length and is coherent, and no two slots show the same piece. */
  predicate LegalGroup(tuples: seq<seq<int>>, size: nat) {
    (forall k :: 0 <= k < |tuples| ==> |tuples[k]| == size && Coherent(tuples[k])) &&
    (forall i, j :: 0 <= i < j < |tuples| ==> !SameSet(tuples[i], tuples[j]))
  }

  /** Every solved corner is a coherent triple. */
  lemma CornerCubiesCoherent()
    ensures forall k :: 0 <= k < |CornerCubies| ==> |CornerCubies[k]| == 3 && Coherent(CornerCubies[k])
  {
  }

  /** The solved corners form a legal group of triples. */
  lemma CornerCubiesLegal()
    ensures LegalGroup(CornerCubies, 3)
  {
    CornerCubiesCoherent();
    forall i, j | 0 <= i < j < 8
      ensures !SameSet(CornerCubies[i], CornerCubies[j])
    {
      var a, b := CornerCubies[i], CornerCubies[j];
      assert a[0] !in b || a[1] !in b || a[2] !in b;
    }
  }

  /** Every solved edge is a coherent pair. */
  lemma EdgeCubiesCoherent()
    ensures forall k :: 0 <= k < |EdgeCubies| ==> |EdgeCubies[k]| == 2 && Coherent(EdgeCubies[k])
  {
  }

  /** The solved edges form a legal group of pairs. */
  lemma EdgeCubiesLegal()
    ensures LegalGroup(EdgeCubies, 2)
  {
    EdgeCubiesCoherent();
    forall i, j | 0 <= i < j < 12
      ensures !SameSet(EdgeCubies[i], EdgeCubies[j])
    {
      var a, b := EdgeCubies[i], EdgeCubies[j];
      assert a[0] !in b || a[1] !in b;
    }
  }

  /** Any run of slots of a legal group is legal. */
  lemma LegalSlice(tuples: seq<seq<int>>, size: nat, lo: int, hi: int)
    requires LegalGroup(tuples, size) && 0 <= lo <= hi <= |tuples|
    ensures LegalGroup(tuples[lo..hi], size)
  {
    var s := tuples[lo..hi];
    forall i, j | 0 <= i < j < |s|
      ensures !SameSet(s[i], s[j])
    {
      assert s[i] == tuples[lo + i] && s[j] == tuples[lo + j];
    }
  }

  /** Both halves of a legal group of twelve pairs are legal groups of six. */
  lemma LegalHalves(first: seq<seq<int>>, second: seq<seq<int>>)
    requires |first| == 6 && |second| == 6 && LegalGroup(first + second, 2)
    ensures LegalGroup(first, 2) && LegalGroup(second, 2)
  {
    LegalSlice(first + second, 2, 0, 6);
    LegalSlice(first + second, 2, 6, 12);
    assert (first + second)[..6] == first;
    assert (first + second)[6..] == second;
  }

  lemma CoherentAroundFace(position: seq<int>, face: int)
    requires Coherent(position)
    ensures AroundFace(position, face)
  {
    if HasFace(position, face) {
      var i :| 0 <= i < |position| && position[i] == face;
      SequenceFacts(face);
      forall k | 0 <= k < |position| && position[k] != face
        ensures position[k] in Sequence(face)
      {
        assert Axis(position[k]) != Axis(face);
      }
    }
  }

  /** The colour map of a turn of `face`: the face stays, its neighbours move on. */
  function Relabel(face: int, c: int): (r: int)
    requires IsColor(face)
    ensures c == face ==> r == face
    ensures c != face ==> r in Sequence(face) && IsColor(r)
  {
    if c == face then c else Next(face, c)
  }

  /** A neighbour of the turned face moves to a colour on the third axis: neither the
      face's axis nor its own. */
  lemma RelabelAxis(face: int, c: int)
    requires IsColor(face) && IsColor(c) && Axis(c) != Axis(face)
    ensures Axis(Next(face, c)) != Axis(face) && Axis(Next(face, c)) != Axis(c)
  {
    CycleMember(face, c);
    var s := Sequence(face);
    var j := IndexIn(s, c);
    CycleStep(face, j);
    CycleStep(face, (j + 1) % 4);
    NextInSequence(face, j);
  }

  /** Stepping along a cycle without repeated entries is injective on its entries. */
  lemma NextInInjective(s: seq<int>, a: int, b: int)
    requires |s| == 4 && a in s && b in s
    requires forall x, y :: 0 <= x < y < |s| ==> s[x] != s[y]
    requires NextIn(s, a) == NextIn(s, b)
    ensures a == b
  {
    var i, j := IndexIn(s, a), IndexIn(s, b);
    NextInAt(s, i);
    NextInAt(s, j);
    assert (i + 1) % 4 == (j + 1) % 4;
  }

  lemma RelabelInjective(face: int, a: int, b: int)
    requires IsColor(face) && IsColor(a) && IsColor(b)
    requires a == face || Axis(a) != Axis(face)
    requires b == face || Axis(b) != Axis(face)
    requires Relabel(face, a) == Relabel(face, b)
    ensures a == b
  {
    if a != face && b != face {
      CycleMember(face, a);
      CycleMember(face, b);
      NextInInjective(Sequence(face), a, b);
    } else if a != face {
      CycleMember(face, a);
      NotFaceNext(face, a);
    } else if b != face {
      CycleMember(face, b);
      NotFaceNext(face, b);
    }
  }

  /** A turn keeps a physical piece physical. */
  lemma TurnedCoherent(position: seq<int>, face: int)
    requires Coherent(position)
    ensures Coherent(Turned(position, face))
  {
    var r := Turned(position, face);
    if HasFace(position, face) {
      forall i, j | 0 <= i < j < |r|
        ensures Axis(r[i]) != Axis(r[j])
      {
        TurnedPairApart(position, face, i, j);
      }
    }
  }

  /** Two entries of a piece that shows the turned face stay on different axes. */
  lemma TurnedPairApart(position: seq<int>, face: int, i: int, j: int)
    requires Coherent(position) && HasFace(position, face) && 0 <= i < j < |position|
    ensures Axis(Turned(position, face)[i]) != Axis(Turned(position, face)[j])
  {
    var a, b := position[i], position[j];
    TurnedAt(position, face, i);
    TurnedAt(position, face, j);
    assert Axis(a) != Axis(b);
    var f :| 0 <= f < |position| && position[f] == face;
    if a != face {
      assert Axis(a) != Axis(face) by {
        assert f != i;
        if f < i { assert Axis(position[f]) != Axis(position[i]); }
        else { assert Axis(position[i]) != Axis(position[f]); }
      }
      RelabelAxis(face, a);
    }
    if b != face {
      assert Axis(b) != Axis(face) by {
        assert f != j;
        if f < j { assert Axis(position[f]) != Axis(position[j]); }
        else { assert Axis(position[j]) != Axis(position[f]); }
      }
      RelabelAxis(face, b);
    }
    if a != face && b != face {
      assert 0 <= Axis(a) < 3 && 0 <= Axis(b) < 3 && 0 <= Axis(face) < 3;
    }
  }

  lemma TurnedMembers(position: seq<int>, face: int, x: int)
    requires Coherent(position) && HasFace(position, face)
    ensures x in Turned(position, face) <==> exists y :: y in position && Relabel(face, y) == x
  {
    var r := Turned(position, face);
    if x in r {
      var k :| 0 <= k < |r| && r[k] == x;
      assert Relabel(face, position[k]) == x;
    }
  }

  /** A turn never makes two different pieces look alike. */
  lemma TurnedKeepsApart(a: seq<int>, b: seq<int>, face: int)
    requires Coherent(a) && Coherent(b) && !SameSet(a, b)
    ensures !SameSet(Turned(a, face), Turned(b, face))
  {
    var ta, tb := Turned(a, face), Turned(b, face);
    var x :| (x in a) != (x in b);
    if HasFace(a, face) && HasFace(b, face) {
      CoherentAroundFace(a, face);
      CoherentAroundFace(b, face);
      var fx := Relabel(face, x);
      TurnedMembers(a, face, fx);
      TurnedMembers(b, face, fx);
      if x in a {
        assert fx in ta;
        if fx in tb {
          var y :| y in b && Relabel(face, y) == fx;
          RelabelInjective(face, x, y);
        }
      } else {
        assert fx in tb;
        if fx in ta {
          var y :| y in a && Relabel(face, y) == fx;
          RelabelInjective(face, x, y);
        }
      }
    } else if HasFace(a, face) {
      var f :| 0 <= f < |a| && a[f] == face;
      assert ta[f] == face;
      assert face in ta && face !in tb;
    } else if HasFace(b, face) {
      var f :| 0 <= f < |b| && b[f] == face;
      assert tb[f] == face;
      assert face in tb && face !in ta;
    } else {
      assert (x in ta) != (x in tb);
    }
  }

  /** A quarter turn keeps a legal group legal. */
  lemma {:induction false} TurnAllLegal(tuples: seq<seq<int>>, size: nat, face: int)
    requires LegalGroup(tuples, size)
    ensures AllColorsOk(tuples)
    ensures LegalGroup(TurnAll(tuples, face), size)
  {
    var r := TurnAll(tuples, face);
    forall k | 0 <= k < |tuples|
      ensures |r[k]| == size && Coherent(r[k])
    {
      TurnedCoherent(tuples[k], face);
    }
    forall i, j | 0 <= i < j < |tuples|
      ensures !SameSet(r[i], r[j])
    {
      TurnedKeepsApart(tuples[i], tuples[j], face);
    }
  }

  /** Any sequence of turns keeps a legal group legal. */
  lemma {:induction false} ApplyFacesLegal(tuples: seq<seq<int>>, size: nat, faces: seq<int>)
    requires LegalGroup(tuples, size)
    ensures AllColorsOk(tuples)
    ensures LegalGroup(ApplyFaces(tuples, faces), size)
  {
    TurnAllLegal(tuples, size, 0);
    if faces != [] {
      ApplyFacesLegal(tuples, size, faces[..|faces| - 1]);
      TurnAllLegal(ApplyFaces(tuples, faces[..|faces| - 1]), size, faces[|faces| - 1]);
    }
  }

  /* ---- The loops ---- */

  /** `rotateAroundFace`: the source's loop over one tuple, which overwrites every
      entry other than `face` by its successor in the face's sequence, found by a
      linear search. */
  method RotateAroundFace(position: seq<int>, face: int) returns (rotated: seq<int>)
    requires IsColor(face)
    ensures rotated == RotatedTuple(position, face)
  {
    var seqOfFace := Sequence(face);
    rotated := position;
    for i := 0 to |position|
      invariant |rotated| == |position|
      invariant forall k :: i <= k < |position| ==> rotated[k] == position[k]
      invariant forall k :: 0 <= k < i ==> rotated[k] == RotatedTuple(position, face)[k]
    {
      if rotated[i] != face {
        var j := 0;
        while j < |seqOfFace| && rotated[i] != seqOfFace[j]
          invariant 0 <= j <= |seqOfFace|
          invariant forall k :: 0 <= k < j ==> seqOfFace[k] != rotated[i]
        {
          j := j + 1;
        }
        assert j == IndexIn(seqOfFace, position[i]);
        assert seqOfFace[(j + 1) % |seqOfFace|] == Next(face, position[i]);
        rotated := rotated[i := seqOfFace[(j + 1) % |seqOfFace|]];
      }
    }
  }

  /** The per-group loop of `rotateFace`: every slot whose tuple shows `face` is
      rotated around it. */
  method TurnSlots(group: array<seq<int>>, face: int)
    requires AllColorsOk(group[..])
    modifies group
    ensures group[..] == TurnAll(old(group[..]), face)
  {
    ghost var original := group[..];
    for i := 0 to group.Length
      invariant forall k :: 0 <= k < group.Length ==>
        group[k] == if k < i then Turned(original[k], face) else original[k]
    {
      var position := group[i];
      if HasFace(position, face) {
        position := RotateAroundFace(position, face);
      }
      assert position == Turned(original[i], face);
      group[i] := position;
    }
  }
}
