/** The colour palette and the fixed tables that RubiksCube, RubiksCubeEdges and
    RubiksCubeCorners each declare with identical contents: the six faces, the
    four-colour turn sequence of every face, and the solved colour tuple of each of
    the 20 pieces (8 corners, then 12 edges). Colours are the source's bytes 0..5. */
module Colors {

  const YELLOW: int := 0
  const WHITE: int := 1
  const GREEN: int := 2
  const BLUE: int := 3
  const RED: int := 4
  const ORANGE: int := 5

  /** `getFaces()`: the faces in the order the solver and the builders try them. */
  const Faces: seq<int> := [YELLOW, WHITE, GREEN, BLUE, RED, ORANGE]

  /** `sequences[f]`: the four faces around face `f`, in the order a quarter turn of
      `f` carries a colour to the next one. */
  function Sequence(face: int): (s: seq<int>)
    requires IsColor(face)
    ensures |s| == 4 && ColorsOk(s)
    ensures forall i, j :: 0 <= i < j < 4 ==> s[i] != s[j]
  {
    match face
    case 0 => [RED, BLUE, ORANGE, GREEN]
    case 1 => [RED, GREEN, ORANGE, BLUE]
    case 2 => [RED, YELLOW, ORANGE, WHITE]
    case 3 => [RED, WHITE, ORANGE, YELLOW]
    case 4 => [WHITE, BLUE, YELLOW, GREEN]
    case 5 => [YELLOW, BLUE, WHITE, GREEN]
  }

  /** `cubies`: the solved tuple of every piece; 0..7 are corners, 8..19 edges.
      RubiksCubeEdges declares only the twelve edges, RubiksCubeCorners only the
      eight corners, in the same order. */
  const Cubies: seq<seq<int>> := [
    [YELLOW, GREEN, RED],
    [YELLOW, BLUE, RED],
    [YELLOW, BLUE, ORANGE],
    [YELLOW, GREEN, ORANGE],
    [WHITE, BLUE, RED],
    [WHITE, GREEN, RED],
    [WHITE, GREEN, ORANGE],
    [WHITE, BLUE, ORANGE],
    [YELLOW, RED],
    [YELLOW, BLUE],
    [YELLOW, ORANGE],
    [YELLOW, GREEN],
    [GREEN, RED],
    [GREEN, ORANGE],
    [WHITE, RED],
    [WHITE, GREEN],
    [WHITE, ORANGE],
    [WHITE, BLUE],
    [BLUE, RED],
    [BLUE, ORANGE]
  ]

  const CornerCubies: seq<seq<int>> := Cubies[..8]
  const EdgeCubies: seq<seq<int>> := Cubies[8..]

  predicate IsColor(c: int) {
    0 <= c < 6
  }

  predicate ColorsOk(position: seq<int>) {
    forall k :: 0 <= k < |position| ==> IsColor(position[k])
  }

  predicate AllColorsOk(tuples: seq<seq<int>>) {
    forall k :: 0 <= k < |tuples| ==> ColorsOk(tuples[k])
  }

  /** The axis of a colour: opposite faces (yellow/white, green/blue, red/orange)
      share one. */
  function Axis(c: int): int {
    if c < 2 then 0 else if c < 4 then 1 else 2
  }

  /** Facts about the turn sequence of one face: it lists four distinct colours, none
      on the face's own axis, every such colour appears in it, and neighbours in the
      cycle lie on different axes. */
  lemma SequenceFacts(face: int)
    requires IsColor(face)
    ensures forall j :: 0 <= j < 4 ==>
      Axis(Sequence(face)[j]) != Axis(face) &&
      Axis(Sequence(face)[j]) != Axis(Sequence(face)[(j + 1) % 4])
    ensures forall c :: IsColor(c) && Axis(c) != Axis(face) ==> c in Sequence(face)
  {
    var s := Sequence(face);
    forall j | 0 <= j < 4
      ensures Axis(s[j]) != Axis(face) && Axis(s[j]) != Axis(s[(j + 1) % 4])
    {
      CycleStep(face, j);
    }
    forall c | IsColor(c) && Axis(c) != Axis(face)
      ensures c in s
    {
      CycleMember(face, c);
    }
  }

  lemma CycleStep(face: int, j: int)
    requires IsColor(face) && 0 <= j < 4
    ensures var s := Sequence(face);
      Axis(s[j]) != Axis(face) && Axis(s[j]) != Axis(s[(j + 1) % 4])
  {
    if j == 0 {
    } else if j == 1 {
    } else if j == 2 {
    } else {
    }
  }

  lemma CycleMember(face: int, c: int)
    requires IsColor(face) && IsColor(c) && Axis(c) != Axis(face)
    ensures c in Sequence(face)
  {
    if c == 0 {
    } else if c == 1 {
    } else if c == 2 {
    } else if c == 3 {
    } else if c == 4 {
    } else {
    }
  }

  /** `charToByte`: the letter of a facelet to its colour; any other character is 0. */
  function CharToByte(c: char): (b: int)
    ensures IsColor(b)
    ensures c !in "YWGBRO" ==> b == 0
  {
    match c
    case 'Y' => 0
    case 'W' => 1
    case 'G' => 2
    case 'B' => 3
    case 'R' => 4
    case 'O' => 5
    case _ => 0
  }

  /** `getColor`: the letter of a colour, the NUL character for anything else. It is
      the inverse of `CharToByte` on the six colours. */
  function GetColor(color: int): (c: char)
    ensures IsColor(color) ==> c in "YWGBRO" && CharToByte(c) == color
    ensures !IsColor(color) ==> c == 0 as char
  {
    match color
    case 0 => 'Y'
    case 5 => 'O'
    case 1 => 'W'
    case 4 => 'R'
    case 3 => 'B'
    case 2 => 'G'
    case _ => 0 as char
  }

  /** The other direction of the round trip: every colour letter comes back. */
  lemma LetterRoundTrip(c: char)
    requires c in "YWGBRO"
    ensures GetColor(CharToByte(c)) == c
  {
  }
}
