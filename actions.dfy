/** The move alphabet shared by the solver and both table builders: `encode` and
    `decode` (each of the three classes declares an identical private copy), the
    Java integer casts they rely on, and the meaning of a list of encoded actions as
    the faces it turns. An action `3c + (r - 1)` stands for `r` quarter turns of face
    `c`, so the 18 actions 0..17 are the 6 faces times 1, 2 or 3 turns. */
module Actions {
  import opened Colors
  import opened Turns

  /** `Integer.MAX_VALUE`. */
  const IntMax: int := 0x7fff_ffff

  /** The cast `(byte) x`: the low eight bits, read as a signed value. */
  function Byte(x: int): (b: int)
    ensures -128 <= b < 128
    ensures (b - x) % 256 == 0
    ensures -128 <= x < 128 ==> b == x
  {
    (x + 128) % 256 - 128
  }

  /** Java `int` arithmetic: the low 32 bits, read as a signed value. */
  function Int32(x: int): (r: int)
    ensures -0x8000_0000 <= r < 0x8000_0000
    ensures (r - x) % 0x1_0000_0000 == 0
    ensures -0x8000_0000 <= x < 0x8000_0000 ==> r == x
  {
    (x + 0x8000_0000) % 0x1_0000_0000 - 0x8000_0000
  }

  predicate IsAction(a: int) {
    0 <= a < 18
  }

  predicate ValidActions(actions: seq<int>) {
    forall k :: 0 <= k < |actions| ==> IsAction(actions[k])
  }

  /** `encode(color, rotations)`: `(byte) (color * 3 + (rotations - 1))`. */
  function Encode(color: int, rotations: int): (action: int)
    ensures -128 <= action < 128
    ensures IsColor(color) && 1 <= rotations <= 3 ==>
      IsAction(action) && action / 3 == color && action % 3 == rotations - 1
  {
    Byte(color * 3 + (rotations - 1))
  }

  /** `decode(action)` on a non-negative byte: `action % 3 + 1` copies of the
      colour `action / 3`. */
  function Decode(action: int): (colors: seq<int>)
    requires 0 <= action < 128
    ensures 1 <= |colors| <= 3
    ensures forall k :: 0 <= k < |colors| ==> colors[k] == colors[0]
    ensures IsAction(action) ==> ColorsOk(colors)
  {
    seq(action % 3 + 1, _ => action / 3)
  }

  /** Decoding an encoded move gives back its turns. */
  lemma DecodeEncode(color: int, rotations: int)
    requires IsColor(color) && 1 <= rotations <= 3
    ensures IsAction(Encode(color, rotations))
    ensures Decode(Encode(color, rotations)) == seq(rotations, _ => color)
  {
  }

  /** Every action is the encoding of what it decodes to. */
  lemma EncodeDecode(action: int)
    requires IsAction(action)
    ensures var colors := Decode(action);
      IsColor(colors[0]) && Encode(colors[0], |colors|) == action
  {
  }

  /** The solver and the builders try the faces in the order of `getFaces()`, and turn
      each one 1, 2 and 3 times; the `k`-th move tried is action `k`. */
  lemma FacesInOrder(f: int, i: int)
    requires 0 <= f < 6 && 0 <= i < 3
    ensures Faces[f] == f && Encode(Faces[f], i + 1) == 3 * f + i
  {
  }

  /** A list of actions with one more action appended is a list of actions. */
  lemma ValidSnoc(actions: seq<int>, a: int)
    requires ValidActions(actions) && IsAction(a)
    ensures ValidActions(actions + [a]) && (actions + [a])[..|actions|] == actions
  {
    var longer := actions + [a];
    forall k | 0 <= k < |longer|
      ensures IsAction(longer[k])
    {
      if k < |actions| {
        assert longer[k] == actions[k];
      }
    }
  }

  /** `encode(face, i + 1)` for the `i`-th turn count of face `face`, a face of
      `getFaces()`: action `3 * face + i`. */
  function ActionFor(face: int, i: int): (action: int)
    requires 0 <= face < 6 && 0 <= i < 3
    ensures action == 3 * face + i && IsAction(action)
  {
    FacesInOrder(face, i);
    Encode(face, i + 1)
  }

  /** The faces a list of actions turns, in order. */
  function Moves(actions: seq<int>): (faces: seq<int>)
    requires ValidActions(actions)
    ensures ColorsOk(faces)
    ensures |actions| <= |faces| <= 3 * |actions|
  {
    if actions == [] then []
    else Moves(actions[..|actions| - 1]) + Decode(actions[|actions| - 1])
  }

  /** The slots `tuples` turn into under a list of actions. */
  function Reached(tuples: seq<seq<int>>, actions: seq<int>): (r: seq<seq<int>>)
    requires AllColorsOk(tuples) && ValidActions(actions)
    ensures |r| == |tuples| && AllColorsOk(r)
  {
    ApplyFaces(tuples, Moves(actions))
  }

  /** Turning `faces` and then `more` is turning `faces + more`. */
  lemma {:induction false} ApplyFacesAppend(tuples: seq<seq<int>>, faces: seq<int>, more: seq<int>)
    requires AllColorsOk(tuples)
    ensures ApplyFaces(tuples, faces + more) == ApplyFaces(ApplyFaces(tuples, faces), more)
  {
    if more == [] {
      assert faces + more == faces;
    } else {
      var init := more[..|more| - 1];
      assert (faces + more)[..|faces + more| - 1] == faces + init;
      ApplyFacesAppend(tuples, faces, init);
    }
  }

  /** `n` turns of one face are `rotateFace(color, n)`. */
  lemma {:induction false} ApplyFacesRepeat(tuples: seq<seq<int>>, color: int, n: nat)
    requires AllColorsOk(tuples)
    ensures ApplyFaces(tuples, seq(n, _ => color)) == TurnTimes(tuples, color, n)
  {
    if n > 0 {
      assert seq(n, _ => color)[..n - 1] == seq(n - 1, _ => color);
      ApplyFacesRepeat(tuples, color, n - 1);
    }
  }

  /** One more action turns the faces it decodes to. */
  lemma ReachedStep(tuples: seq<seq<int>>, actions: seq<int>, j: int)
    requires AllColorsOk(tuples) && ValidActions(actions) && 0 <= j < |actions|
    ensures Reached(tuples, actions[..j + 1]) == ApplyFaces(Reached(tuples, actions[..j]), Decode(actions[j]))
  {
    var prefix := actions[..j + 1];
    assert prefix[..|prefix| - 1] == actions[..j];
    ApplyFacesAppend(tuples, Moves(actions[..j]), Decode(actions[j]));
  }

  /** Appending the move `(color, rotations)` to a list of actions turns the face
      `rotations` more times. */
  lemma ReachedSnoc(tuples: seq<seq<int>>, actions: seq<int>, color: int, rotations: int)
    requires AllColorsOk(tuples) && ValidActions(actions)
    requires IsColor(color) && 1 <= rotations <= 3
    ensures ValidActions(actions + [Encode(color, rotations)])
    ensures Reached(tuples, actions + [Encode(color, rotations)])
      == TurnTimes(Reached(tuples, actions), color, rotations)
  {
    var longer := actions + [Encode(color, rotations)];
    assert longer[..|actions|] == actions;
    ReachedStep(tuples, longer, |actions|);
    assert longer[..|actions| + 1] == longer;
    DecodeEncode(color, rotations);
    ApplyFacesRepeat(Reached(tuples, actions), color, rotations);
  }

  /** Any list of actions keeps a legal group legal. */
  lemma ReachedLegal(tuples: seq<seq<int>>, size: nat, actions: seq<int>)
    requires LegalGroup(tuples, size) && ValidActions(actions)
    ensures AllColorsOk(tuples) && LegalGroup(Reached(tuples, actions), size)
  {
    ApplyFacesLegal(tuples, size, Moves(actions));
  }
}
