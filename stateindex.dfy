/** The state index of one group of pieces (`getCornerState`, `getEdgeState`): every
    slot is matched, by its set of colours, against a shrinking pool of the group's
    solved pieces; the rank of the match and the orientation of the slot make one
    digit of a mixed-radix number whose radix is the pool size times the number of
    orientations. The three cube classes each declare their own copy of this code;
    the only difference is `haveSameElements`, which compares lengths in RubiksCube
    and not in the other two (the flag `strict` below). A lookup that runs off the
    end of the pool throws in the source and gives None here. */
module StateIndex {
  import opened Wrappers
  import opened Colors
  import opened Turns

  /* ---- Matching a slot against the pool ---- */

  /** Every entry of `d` occurs in `p` (the nested loops of `haveSameElements`). */
  function AllIn(d: seq<int>, p: seq<int>): (r: bool)
    ensures r <==> forall x :: x in d ==> x in p
  {
    if d == [] then true
    else
      assert forall x :: x in d ==> x == d[0] || x in d[1..];
      d[0] in p && AllIn(d[1..], p)
  }

  /** `haveSameElements(d, p)`: every colour of the default `d` occurs in `p`; with
      `strict` (RubiksCube's copy) the two tuples must also have the same length. */
  function HaveSameElements(strict: bool, d: seq<int>, p: seq<int>): (same: bool)
    ensures same <==> (!strict || |d| == |p|) && forall x :: x in d ==> x in p
  {
    (!strict || |d| == |p|) && AllIn(d, p)
  }

  /** The search `while (!haveSameElements(d.get(index), position)) index++`: the
      first pool entry that matches, or None where the source runs off the pool. */
  function MatchIndex(strict: bool, pool: seq<seq<int>>, p: seq<int>): (r: Option<nat>)
    ensures r.Some? ==> r.value < |pool| && HaveSameElements(strict, pool[r.value], p)
    ensures r.Some? ==> forall k :: 0 <= k < r.value ==> !HaveSameElements(strict, pool[k], p)
    ensures r.None? <==> forall k :: 0 <= k < |pool| ==> !HaveSameElements(strict, pool[k], p)
  {
    if pool == [] then None
    else if HaveSameElements(strict, pool[0], p) then Some(0)
    else match MatchIndex(strict, pool[1..], p)
      case None => None
      case Some(m) => Some(m + 1)
  }

  /** `d.remove(index)`. */
  function RemoveAt(pool: seq<seq<int>>, m: nat): (r: seq<seq<int>>)
    requires m < |pool|
    ensures |r| == |pool| - 1
    ensures forall k :: 0 <= k < |r| ==> r[k] == if k < m then pool[k] else pool[k + 1]
  {
    pool[..m] + pool[m + 1..]
  }

  /** `getEdgeOrientation(d, p)`: the position of `p[0]` in the default `d`, or -1. */
  function EdgeOrientation(d: seq<int>, p: seq<int>): (r: int)
    requires |p| > 0
    ensures r == -1 <==> p[0] !in d
    ensures r != -1 ==> 0 <= r < |d| && d[r] == p[0]
    ensures r != -1 ==> forall k :: 0 <= k < r ==> d[k] != p[0]
  {
    var i := IndexIn(d, p[0]);
    if i < |d| then i else -1
  }

  /* ---- The two codes ---- */

  /** Every slot shows a colour (the digit reads `position[0]`) and finds a match in
      what remains of the pool. */
  predicate AllMatch(strict: bool, slots: seq<seq<int>>, pool: seq<seq<int>>): (ok: bool)
    ensures ok ==> |slots| <= |pool|
  {
    if slots == [] then true
    else if slots[0] == [] then false
    else match MatchIndex(strict, pool, slots[0])
      case None => false
      case Some(m) => AllMatch(strict, slots[1..], RemoveAt(pool, m))
  }

  /** The corner digit of a slot matched at pool rank `index`: the rank times three
      plus the orientation `position[0] / 2`. */
  function CornerDigit(index: int, position: seq<int>): (digit: int)
    requires |position| > 0
  {
    index * 3 + position[0] / 2
  }

  /** A corner digit decodes back into the pool rank and the orientation. */
  lemma CornerDigitDecode(index: int, position: seq<int>)
    requires |position| > 0 && 0 <= position[0] < 6
    ensures CornerDigit(index, position) / 3 == index
    ensures CornerDigit(index, position) % 3 == position[0] / 2
  {
  }

  /** The corner loop body over the slots it visits: digit
      `index * 3 + position[0] / 2` first, then the rest with radix `|pool| * 3`. */
  function CornerCode(strict: bool, slots: seq<seq<int>>, pool: seq<seq<int>>): (r: Option<int>)
    ensures r.Some? ==> |slots| <= |pool|
  {
    if slots == [] then Some(0)
    else if slots[0] == [] then None
    else match MatchIndex(strict, pool, slots[0])
      case None => None
      case Some(m) =>
        match CornerCode(strict, slots[1..], RemoveAt(pool, m))
        case None => None
        case Some(rest) => Some(CornerDigit(m, slots[0]) + |pool| * 3 * rest)
  }

  /** One unfolding of the corner code. */
  lemma CornerCodeCons(strict: bool, slots: seq<seq<int>>, pool: seq<seq<int>>, m: nat, v: int)
    requires slots != [] && slots[0] != [] && MatchIndex(strict, pool, slots[0]) == Some(m)
    requires CornerCode(strict, slots[1..], RemoveAt(pool, m)) == Some(v)
    ensures CornerCode(strict, slots, pool) == Some(CornerDigit(m, slots[0]) + |pool| * 3 * v)
  {
  }

  /** `getCornerState`: the loop stops one slot short, so the last corner is never
      read (it is determined by the other seven). */
  function CornerIndex(strict: bool, slots: seq<seq<int>>, pool: seq<seq<int>>): (r: Option<int>)
    ensures r.Some? ==> |slots| <= |pool| + 1
  {
    CornerCode(strict, Visited(slots), pool)
  }

  /** The slots the corner loop reads: all but the last. */
  function Visited(slots: seq<seq<int>>): (r: seq<seq<int>>)
    ensures |r| == if slots == [] then 0 else |slots| - 1
    ensures forall k :: 0 <= k < |r| ==> r[k] == slots[k]
  {
    if slots == [] then [] else slots[..|slots| - 1]
  }

  /** The edge digit of a slot matched at pool rank `index` against the default `d`:
      the rank times two plus the orientation. */
  function EdgeDigit(index: int, d: seq<int>, position: seq<int>): (digit: int)
    requires |position| > 0
  {
    index * 2 + EdgeOrientation(d, position)
  }

  /** An edge digit of a matched slot decodes back into the pool rank and the
      orientation. */
  lemma EdgeDigitDecode(index: int, d: seq<int>, position: seq<int>)
    requires |position| > 0 && 0 <= EdgeOrientation(d, position) < 2
    ensures EdgeDigit(index, d, position) / 2 == index
    ensures EdgeDigit(index, d, position) % 2 == EdgeOrientation(d, position)
  {
  }

  /** `getEdgeState`: every slot gives digit `index * 2 + orientation`, the rest
      follows with radix `|pool| * 2`. */
  function EdgeIndex(strict: bool, slots: seq<seq<int>>, pool: seq<seq<int>>): (r: Option<int>)
    ensures r.Some? ==> |slots| <= |pool|
  {
    if slots == [] then Some(0)
    else if slots[0] == [] then None
    else match MatchIndex(strict, pool, slots[0])
      case None => None
      case Some(m) =>
        match EdgeIndex(strict, slots[1..], RemoveAt(pool, m))
        case None => None
        case Some(rest) =>
          Some(EdgeDigit(m, pool[m], slots[0]) + |pool| * 2 * rest)
  }

  /** The corner code exists exactly when every visited slot finds its match. */
  lemma {:induction false} CornerCodeDefined(strict: bool, slots: seq<seq<int>>, pool: seq<seq<int>>)
    ensures CornerCode(strict, slots, pool).Some? <==> AllMatch(strict, slots, pool)
  {
    if slots != [] {
      match MatchIndex(strict, pool, slots[0])
      case None =>
      case Some(m) => CornerCodeDefined(strict, slots[1..], RemoveAt(pool, m));
    }
  }

  /** The edge code exists exactly when every slot finds its match. */
  lemma {:induction false} EdgeIndexDefined(strict: bool, slots: seq<seq<int>>, pool: seq<seq<int>>)
    ensures EdgeIndex(strict, slots, pool).Some? <==> AllMatch(strict, slots, pool)
  {
    if slots != [] {
      match MatchIndex(strict, pool, slots[0])
      case None =>
      case Some(m) => EdgeIndexDefined(strict, slots[1..], RemoveAt(pool, m));
    }
  }

  /** A code that exists matched its first slot, and the rest exists too. */
  lemma CornerCodeUncons(strict: bool, slots: seq<seq<int>>, pool: seq<seq<int>>)
    requires slots != [] && CornerCode(strict, slots, pool).Some?
    ensures slots[0] != [] && MatchIndex(strict, pool, slots[0]).Some?
    ensures CornerCode(strict, slots[1..], RemoveAt(pool, MatchIndex(strict, pool, slots[0]).value)).Some?
  {
  }

  /** The same for the edge code. */
  lemma EdgeIndexUncons(strict: bool, slots: seq<seq<int>>, pool: seq<seq<int>>)
    requires slots != [] && EdgeIndex(strict, slots, pool).Some?
    ensures slots[0] != [] && MatchIndex(strict, pool, slots[0]).Some?
    ensures EdgeIndex(strict, slots[1..], RemoveAt(pool, MatchIndex(strict, pool, slots[0]).value)).Some?
  {
  }

  /** One unfolding of the edge code. */
  lemma EdgeIndexCons(strict: bool, slots: seq<seq<int>>, pool: seq<seq<int>>, m: nat, v: int)
    requires slots != [] && slots[0] != [] && MatchIndex(strict, pool, slots[0]) == Some(m)
    requires EdgeIndex(strict, slots[1..], RemoveAt(pool, m)) == Some(v)
    ensures EdgeIndex(strict, slots, pool) ==
      Some(EdgeDigit(m, pool[m], slots[0]) + |pool| * 2 * v)
  {
  }

  /* ---- The pools (`rebuildDefault*`) ---- */

  /** `rebuildDefaultCornerPositions` / `rebuildDefaults`: the eight corners. */
  const CornerPool: seq<seq<int>> := CornerCubies

  /** `rebuildDefaultEdgePositions1`: the twelve edges in order. */
  const EdgePool1: seq<seq<int>> := EdgeCubies

  /** `rebuildDefaultEdgePositions2`: the second six edges, then the first six. */
  const EdgePool2: seq<seq<int>> := EdgeCubies[6..] + EdgeCubies[..6]

  /** `rebuildDefaultCornerPositions` / `rebuildDefaults`: a fresh list of copies of
      the eight solved corners, in order. */
  method RebuildDefaultCornerPositions() returns (defaults: seq<seq<int>>)
    ensures defaults == CornerPool
  {
    defaults := [];
    for i := 0 to 8
      invariant defaults == Cubies[..i]
    {
      defaults := defaults + [Cubies[i]];
    }
  }

  /** `rebuildDefaultEdgePositions1`: a fresh list of copies of the twelve solved
      edges, in order. */
  method RebuildDefaultEdgePositions1() returns (defaults: seq<seq<int>>)
    ensures defaults == EdgePool1
  {
    defaults := [];
    for i := 0 to 12
      invariant defaults == Cubies[8..8 + i]
    {
      defaults := defaults + [Cubies[8 + i]];
    }
  }

  /** `rebuildDefaultEdgePositions2`: copies of the second six solved edges, then of
      the first six. */
  method RebuildDefaultEdgePositions2() returns (defaults: seq<seq<int>>)
    ensures defaults == EdgePool2
  {
    defaults := [];
    for i := 0 to 6
      invariant defaults == Cubies[14..14 + i]
    {
      defaults := defaults + [Cubies[14 + i]];
    }
    for i := 0 to 6
      invariant defaults == Cubies[14..20] + Cubies[8..8 + i]
    {
      defaults := defaults + [Cubies[8 + i]];
    }
  }

  /** The second edge pool is the twelve edges rotated by six places. */
  lemma EdgePool2At(m: int)
    requires 0 <= m < 12
    ensures |EdgePool2| == 12
    ensures EdgePool2[m] == EdgeCubies[if m < 6 then m + 6 else m - 6]
  {
    if m < 6 {
      assert EdgePool2[m] == EdgeCubies[6..][m];
    } else {
      assert EdgePool2[m] == EdgeCubies[..6][m - 6];
    }
  }

  /* ---- Bounds ---- */

  /** The number of codes of `n` slots over a pool of `p` pieces with `k` orientations:
      `p*k * (p-1)*k * ... ` for `n` factors. */
  function Radix(n: nat, p: int, k: int): int {
    if n == 0 then 1 else p * k * Radix(n - 1, p - 1, k)
  }

  /** The corner table size: seven digits over a pool of eight with three orientations. */
  const CornerStates: int := 88179840

  /** The edge table size: six digits over a pool of twelve with two orientations. */
  const EdgeStates: int := 42577920

  lemma RadixSizes()
    ensures Radix(7, 8, 3) == CornerStates
    ensures Radix(6, 12, 2) == EdgeStates
  {
  }

  /** The orientation digit `position[0] / 2` of a colour is 0, 1 or 2. */
  lemma CornerOrientationBound(c: int)
    requires IsColor(c)
    ensures 0 <= c / 2 < 3
  {
  }

  /** A corner digit of a match among `size` entries lies below `size * 3`. */
  lemma CornerDigitBound(m: int, size: int, position: seq<int>)
    requires 0 <= m < size && |position| > 0 && IsColor(position[0])
    ensures 0 <= CornerDigit(m, position) < size * 3
  {
    CornerOrientationBound(position[0]);
  }

  /** One step of the mixed radix: a digit below `base` followed by a rest below `R`
      stays below `base * R`. */
  lemma HornerStep(digit: int, base: int, v: int, R: int, code: int, bound: int)
    requires 0 <= digit < base && 0 <= v < R
    requires code == digit + base * v && bound == base * R
    ensures 0 <= code < bound
  {
    assert base * v <= base * (R - 1);
  }

  /** A corner code lies in `[0, Radix)` whenever every slot shows colours. */
  lemma {:induction false} CornerCodeBound(strict: bool, slots: seq<seq<int>>, pool: seq<seq<int>>)
    requires forall k :: 0 <= k < |slots| ==> |slots[k]| > 0 && ColorsOk(slots[k])
    ensures CornerCode(strict, slots, pool).Some? ==>
      0 <= CornerCode(strict, slots, pool).value < Radix(|slots|, |pool|, 3)
  {
    if slots != [] && CornerCode(strict, slots, pool).Some? {
      CornerCodeUncons(strict, slots, pool);
      var m := MatchIndex(strict, pool, slots[0]).value;
      var rest := RemoveAt(pool, m);
      CornerCodeBound(strict, slots[1..], rest);
      var v := CornerCode(strict, slots[1..], rest).value;
      CornerCodeCons(strict, slots, pool, m, v);
      CornerDigitBound(m, |pool|, slots[0]);
      HornerStep(CornerDigit(m, slots[0]), |pool| * 3, v, Radix(|slots| - 1, |pool| - 1, 3),
        CornerCode(strict, slots, pool).value, Radix(|slots|, |pool|, 3));
    }
  }

  /** Two coherent tuples of the same length 2 or 3, one inside the other, hold the
      same colours. */
  lemma SubsetSameSize(a: seq<int>, b: seq<int>)
    requires Coherent(a) && Coherent(b) && |a| == |b| && (|a| == 2 || |a| == 3)
    requires forall x :: x in a ==> x in b
    ensures SameSet(a, b)
  {
    forall j | 0 <= j < |b|
      ensures b[j] in a
    {
      SubsetCovers(a, b, j);
    }
  }

  /** Pigeonhole: the distinct entries of `a` fill every place of `b`. */
  lemma SubsetCovers(a: seq<int>, b: seq<int>, j: int)
    requires Coherent(a) && |a| == |b| && (|a| == 2 || |a| == 3) && 0 <= j < |b|
    requires forall x :: x in a ==> x in b
    ensures b[j] in a
  {
    assert a[0] in b && a[1] in b;
    if |a| == 2 {
      assert a[0] != a[1];
      assert a[0] == b[0] || a[0] == b[1];
      assert a[1] == b[0] || a[1] == b[1];
      assert b[j] == a[0] || b[j] == a[1];
    } else {
      assert a[2] in b;
      assert a[0] != a[1] && a[0] != a[2] && a[1] != a[2];
      assert a[0] == b[0] || a[0] == b[1] || a[0] == b[2];
      assert a[1] == b[0] || a[1] == b[1] || a[1] == b[2];
      assert a[2] == b[0] || a[2] == b[1] || a[2] == b[2];
      assert b[j] == a[0] || b[j] == a[1] || b[j] == a[2];
    }
  }

  /** A group of `n` coherent tuples of one length. */
  predicate CoherentTuples(tuples: seq<seq<int>>, n: int) {
    forall k :: 0 <= k < |tuples| ==> |tuples[k]| == n && Coherent(tuples[k])
  }

  /** Removing an entry keeps a pool coherent. */
  lemma RemoveAtCoherent(pool: seq<seq<int>>, m: nat, n: int)
    requires CoherentTuples(pool, n) && m < |pool|
    ensures CoherentTuples(RemoveAt(pool, m), n)
  {
    var rest := RemoveAt(pool, m);
    forall k | 0 <= k < |rest|
      ensures |rest[k]| == n && Coherent(rest[k])
    {
      assert rest[k] == pool[if k < m then k else k + 1];
    }
  }

  /** An edge code lies in `[0, Radix)` whenever slots and pool are coherent pairs. */
  lemma {:induction false} EdgeIndexBound(strict: bool, slots: seq<seq<int>>, pool: seq<seq<int>>)
    requires CoherentTuples(slots, 2) && CoherentTuples(pool, 2)
    ensures EdgeIndex(strict, slots, pool).Some? ==>
      0 <= EdgeIndex(strict, slots, pool).value < Radix(|slots|, |pool|, 2)
  {
    if slots != [] && EdgeIndex(strict, slots, pool).Some? {
      EdgeIndexUncons(strict, slots, pool);
      var m := MatchIndex(strict, pool, slots[0]).value;
      var rest := RemoveAt(pool, m);
      RemoveAtCoherent(pool, m, 2);
      EdgeIndexBound(strict, slots[1..], rest);
      var v := EdgeIndex(strict, slots[1..], rest).value;
      EdgeIndexCons(strict, slots, pool, m, v);
      EdgeDigitBound(strict, m, pool, slots[0]);
      HornerStep(EdgeDigit(m, pool[m], slots[0]), |pool| * 2, v, Radix(|slots| - 1, |pool| - 1, 2),
        EdgeIndex(strict, slots, pool).value, Radix(|slots|, |pool|, 2));
    }
  }

  /** An edge digit of a coherent slot matched among coherent pairs lies below twice
      the pool size: the matched default holds the slot's first colour. */
  lemma EdgeDigitBound(strict: bool, m: nat, pool: seq<seq<int>>, position: seq<int>)
    requires CoherentTuples(pool, 2) && |position| == 2 && Coherent(position)
    requires MatchIndex(strict, pool, position) == Some(m)
    ensures 0 <= EdgeDigit(m, pool[m], position) < |pool| * 2
  {
    SubsetSameSize(pool[m], position);
    assert position[0] in pool[m];
  }

  /** The corner index of eight coloured slots is below 88179840 whenever it exists. */
  lemma CornerIndexBound(strict: bool, slots: seq<seq<int>>, pool: seq<seq<int>>)
    requires |slots| == 8 && |pool| == 8
    requires forall k :: 0 <= k < 8 ==> |slots[k]| > 0 && ColorsOk(slots[k])
    ensures CornerIndex(strict, slots, pool).Some? ==>
      0 <= CornerIndex(strict, slots, pool).value < CornerStates
  {
    CornerCodeBound(strict, slots[..7], pool);
    RadixSizes();
  }

  /** The index of six coherent edge slots is below 42577920 whenever it exists,
      for both edge pools. */
  lemma EdgeIndexBoundTwelve(strict: bool, slots: seq<seq<int>>, pool: seq<seq<int>>)
    requires |slots| == 6 && CoherentTuples(slots, 2)
    requires |pool| == 12 && CoherentTuples(pool, 2)
    ensures EdgeIndex(strict, slots, pool).Some? ==>
      0 <= EdgeIndex(strict, slots, pool).value < EdgeStates
  {
    EdgeIndexBound(strict, slots, pool);
    RadixSizes();
  }

  /* ---- The solved cube ---- */

  /** A pool whose first entry is the slot itself matches at once. */
  lemma FirstEntryMatches(strict: bool, pool: seq<seq<int>>, p: seq<int>)
    requires pool != [] && pool[0] == p
    ensures MatchIndex(strict, pool, p) == Some(0)
    ensures RemoveAt(pool, 0) == pool[1..]
  {
    assert AllIn(p, p);
  }

  /** Slots that hold the first pieces of the pool, in order, each showing yellow or
      white first, code to 0: every slot matches entry 0 with orientation 0. */
  lemma {:induction false} PrefixCornerCodeZero(strict: bool, slots: seq<seq<int>>, pool: seq<seq<int>>)
    requires |slots| <= |pool| && slots == pool[..|slots|]
    requires forall k :: 0 <= k < |slots| ==> |slots[k]| > 0 && 0 <= slots[k][0] < 2
    ensures CornerCode(strict, slots, pool) == Some(0)
  {
    if slots != [] {
      FirstEntryMatches(strict, pool, slots[0]);
      assert slots[1..] == pool[1..][..|slots| - 1];
      PrefixCornerCodeZero(strict, slots[1..], pool[1..]);
      assert CornerDigit(0, slots[0]) == 0;
      CornerCodeCons(strict, slots, pool, 0, 0);
    }
  }

  /** The same for the edge code: the first entry of each slot is found at
      position 0 of its own default. */
  lemma {:induction false} PrefixEdgeIndexZero(strict: bool, slots: seq<seq<int>>, pool: seq<seq<int>>)
    requires |slots| <= |pool| && slots == pool[..|slots|]
    requires forall k :: 0 <= k < |slots| ==> |slots[k]| > 0
    ensures EdgeIndex(strict, slots, pool) == Some(0)
  {
    if slots != [] {
      FirstEntryMatches(strict, pool, slots[0]);
      assert EdgeOrientation(pool[0], slots[0]) == 0;
      assert slots[1..] == pool[1..][..|slots| - 1];
      PrefixEdgeIndexZero(strict, slots[1..], pool[1..]);
    }
  }

  /** The solved corners index to 0. */
  lemma SolvedCornerIndex(strict: bool)
    ensures CornerIndex(strict, CornerCubies, CornerPool) == Some(0)
  {
    PrefixCornerCodeZero(strict, CornerCubies[..7], CornerPool);
  }

  /** The solved edge groups (the first six edges against the first pool, the last six
      against the second) index to 0. */
  lemma SolvedEdgeIndex(strict: bool)
    ensures EdgeIndex(strict, EdgeCubies[..6], EdgePool1) == Some(0)
    ensures EdgeIndex(strict, EdgeCubies[6..], EdgePool2) == Some(0)
  {
    EdgeCubiesLegal();
    var first, second := EdgeCubies[..6], EdgeCubies[6..];
    forall k | 0 <= k < 6
      ensures |first[k]| > 0 && |second[k]| > 0
    {
      assert first[k] == EdgeCubies[k] && second[k] == EdgeCubies[k + 6];
    }
    assert first == EdgePool1[..6];
    PrefixEdgeIndexZero(strict, first, EdgePool1);
    assert second == EdgePool2[..6];
    PrefixEdgeIndexZero(strict, second, EdgePool2);
  }

  /* ---- Every legal slot finds its piece ---- */

  /** The slot of the solved corner with colours `x` (yellow or white), `y` (green
      or blue) and `z` (red or orange). */
  function CornerSlot(x: int, y: int, z: int): nat {
    if x == YELLOW then
      (if y == GREEN then (if z == RED then 0 else 3) else (if z == RED then 1 else 2))
    else
      (if y == GREEN then (if z == RED then 5 else 6) else (if z == RED then 4 else 7))
  }

  /** Every coherent triple shows the colours of one of the eight corners. */
  lemma CoherentTripleIsCorner(p: seq<int>)
    requires |p| == 3 && Coherent(p)
    ensures exists m :: 0 <= m < 8 && SameSet(CornerCubies[m], p)
  {
    assert Axis(p[0]) == 0 || Axis(p[1]) == 0 || Axis(p[2]) == 0;
    assert Axis(p[0]) == 1 || Axis(p[1]) == 1 || Axis(p[2]) == 1;
    assert Axis(p[0]) == 2 || Axis(p[1]) == 2 || Axis(p[2]) == 2;
    var x := if YELLOW in p then YELLOW else WHITE;
    var y := if GREEN in p then GREEN else BLUE;
    var z := if RED in p then RED else ORANGE;
    assert x in p && y in p && z in p;
    var m := CornerSlot(x, y, z);
    assert CornerCubies[m] == [x, y, z];
    assert SameSet(CornerCubies[m], p);
  }

  /** The slot of the solved edge with colours `u` and `v`, `u` on the lower axis. */
  function EdgeSlot(u: int, v: int): nat {
    if u == YELLOW then
      (if v == RED then 0 else if v == BLUE then 1 else if v == ORANGE then 2 else 3)
    else if u == WHITE then
      (if v == RED then 6 else if v == GREEN then 7 else if v == ORANGE then 8 else 9)
    else if u == GREEN then
      (if v == RED then 4 else 5)
    else
      (if v == RED then 10 else 11)
  }

  /** Every coherent pair shows the colours of one of the twelve edges. */
  lemma CoherentPairIsEdge(p: seq<int>)
    requires |p| == 2 && Coherent(p)
    ensures exists m :: 0 <= m < 12 && SameSet(EdgeCubies[m], p)
  {
    var u, v := if Axis(p[0]) < Axis(p[1]) then p[0] else p[1],
                if Axis(p[0]) < Axis(p[1]) then p[1] else p[0];
    var m := EdgeSlot(u, v);
    assert EdgeCubies[m] == [u, v];
    assert SameSet(EdgeCubies[m], p);
  }

  /** One unfolding of `AllMatch`. */
  lemma AllMatchCons(strict: bool, slots: seq<seq<int>>, pool: seq<seq<int>>, m: nat)
    requires slots != [] && slots[0] != [] && MatchIndex(strict, pool, slots[0]) == Some(m)
    requires AllMatch(strict, slots[1..], RemoveAt(pool, m))
    ensures AllMatch(strict, slots, pool)
  {
  }

  /** The pool still holds a piece with the colours of `p`. */
  predicate Present(pool: seq<seq<int>>, p: seq<int>) {
    exists e :: 0 <= e < |pool| && SameSet(pool[e], p)
  }

  /** A piece other than the one removed is still in the pool. */
  lemma StillPresent(pool: seq<seq<int>>, m: nat, first: seq<int>, p: seq<int>)
    requires m < |pool| && SameSet(pool[m], first) && !SameSet(first, p)
    requires Present(pool, p)
    ensures Present(RemoveAt(pool, m), p)
  {
    var e :| 0 <= e < |pool| && SameSet(pool[e], p);
    if e == m {
      assert SameSet(first, p);
    } else {
      var e' := if e < m then e else e - 1;
      assert RemoveAt(pool, m)[e'] == pool[e];
    }
  }

  /** Slots of distinct coherent pieces, each of which is still in the pool, all find
      a match: the first match of a slot is its own piece, so it is never one that a
      later slot needs. */
  lemma {:induction false} AllMatchWhenPresent(strict: bool, slots: seq<seq<int>>, pool: seq<seq<int>>, n: int)
    requires n == 2 || n == 3
    requires CoherentTuples(slots, n) && CoherentTuples(pool, n)
    requires forall i, j :: 0 <= i < j < |slots| ==> !SameSet(slots[i], slots[j])
    requires forall k :: 0 <= k < |slots| ==> Present(pool, slots[k])
    ensures AllMatch(strict, slots, pool)
  {
    if slots != [] {
      assert Present(pool, slots[0]);
      var m0 :| 0 <= m0 < |pool| && SameSet(pool[m0], slots[0]);
      assert HaveSameElements(strict, pool[m0], slots[0]);
      var m := MatchIndex(strict, pool, slots[0]).value;
      SubsetSameSize(pool[m], slots[0]);
      var rest := RemoveAt(pool, m);
      var later := slots[1..];
      forall k | 0 <= k < |later|
        ensures Present(rest, later[k])
      {
        assert later[k] == slots[k + 1];
        assert Present(pool, slots[k + 1]);
        assert !SameSet(slots[0], slots[k + 1]);
        StillPresent(pool, m, slots[0], slots[k + 1]);
      }
      RemoveAtCoherent(pool, m, n);
      AllMatchWhenPresent(strict, later, rest, n);
      AllMatchCons(strict, slots, pool, m);
    }
  }

  /** A pool that holds every physical piece of `n` colours, each as a coherent
      tuple of length `n`. */
  ghost predicate FullPool(pool: seq<seq<int>>, n: int) {
    CoherentTuples(pool, n) && forall p :: |p| == n && Coherent(p) ==> Present(pool, p)
  }

  /** The corner pool holds all eight corners. */
  lemma CornerPoolFull()
    ensures |CornerPool| == 8 && FullPool(CornerPool, 3)
  {
    CornerCubiesLegal();
    forall p | |p| == 3 && Coherent(p)
      ensures Present(CornerPool, p)
    {
      CoherentTripleIsCorner(p);
    }
  }

  /** The pool of all twelve edges in order holds every edge. */
  lemma EdgePool1Full()
    ensures |EdgePool1| == 12 && FullPool(EdgePool1, 2)
  {
    EdgeCubiesLegal();
    forall p | |p| == 2 && Coherent(p)
      ensures Present(EdgePool1, p)
    {
      CoherentPairIsEdge(p);
    }
  }

  /** The rotated edge pool holds every edge too. */
  lemma EdgePool2Full()
    ensures |EdgePool2| == 12 && FullPool(EdgePool2, 2)
  {
    EdgeCubiesLegal();
    forall m | 0 <= m < 12
      ensures |EdgePool2[m]| == 2 && Coherent(EdgePool2[m])
    {
      EdgePool2At(m);
    }
    forall p | |p| == 2 && Coherent(p)
      ensures Present(EdgePool2, p)
    {
      EdgePool2Has(p);
    }
  }

  lemma EdgePool2Has(p: seq<int>)
    requires |p| == 2 && Coherent(p)
    ensures Present(EdgePool2, p)
  {
    CoherentPairIsEdge(p);
    var e :| 0 <= e < 12 && SameSet(EdgeCubies[e], p);
    var m := if e < 6 then e + 6 else e - 6;
    EdgePool2At(m);
    assert SameSet(EdgePool2[m], p);
  }

  /** Against a full pool, a legal group of slots matches throughout. */
  lemma LegalMatches(strict: bool, slots: seq<seq<int>>, pool: seq<seq<int>>, n: int)
    requires n == 2 || n == 3
    requires LegalGroup(slots, n) && FullPool(pool, n)
    ensures AllMatch(strict, slots, pool)
  {
    forall k | 0 <= k < |slots|
      ensures Present(pool, slots[k])
    {
      assert |slots[k]| == n && Coherent(slots[k]);
    }
    AllMatchWhenPresent(strict, slots, pool, n);
  }

  /** The corner index of a legal corner group exists. */
  lemma CornerIndexTotal(strict: bool, slots: seq<seq<int>>, pool: seq<seq<int>>)
    requires |slots| == 8 && LegalGroup(slots, 3) && FullPool(pool, 3)
    ensures CornerIndex(strict, slots, pool).Some?
  {
    LegalSlice(slots, 3, 0, 7);
    assert slots[0..7] == slots[..7];
    LegalMatches(strict, slots[..7], pool, 3);
    CornerCodeDefined(strict, slots[..7], pool);
  }

  /** The index of a legal group of edges exists. */
  lemma EdgeIndexTotal(strict: bool, slots: seq<seq<int>>, pool: seq<seq<int>>)
    requires LegalGroup(slots, 2) && FullPool(pool, 2)
    ensures EdgeIndex(strict, slots, pool).Some?
  {
    LegalMatches(strict, slots, pool, 2);
    EdgeIndexDefined(strict, slots, pool);
  }

  /* ---- The loops ---- */

  /* ---- The indices of whole cubes ---- */

  /** The two edge indices of two legal six-slot groups: the first against the pool
      of all twelve edges in order, the second against the pool that lists the second
      six first. Both exist, both lie below 12!/6!·2^6, and both are 0 when the
      groups hold the solved edges. */
  function EdgeStatePair(strict: bool, first: seq<seq<int>>, second: seq<seq<int>>): (r: seq<int>)
    requires |first| == 6 && LegalGroup(first, 2)
    requires |second| == 6 && LegalGroup(second, 2)
    ensures |r| == 2
    ensures EdgeIndex(strict, first, EdgePool1) == Some(r[0])
    ensures EdgeIndex(strict, second, EdgePool2) == Some(r[1])
    ensures 0 <= r[0] < EdgeStates && 0 <= r[1] < EdgeStates
    ensures first == EdgeCubies[..6] && second == EdgeCubies[6..] ==> r == [0, 0]
  {
    EdgePool1Full();
    EdgePool2Full();
    EdgeIndexTotal(strict, first, EdgePool1);
    EdgeIndexTotal(strict, second, EdgePool2);
    EdgeIndexBoundTwelve(strict, first, EdgePool1);
    EdgeIndexBoundTwelve(strict, second, EdgePool2);
    SolvedEdgeIndex(strict);
    [EdgeIndex(strict, first, EdgePool1).value, EdgeIndex(strict, second, EdgePool2).value]
  }

  /** The corner index of eight legal corner slots: it exists, lies below 8!·3^7 and
      is 0 when solved. */
  function CornerState(strict: bool, corners: seq<seq<int>>): (r: int)
    requires |corners| == 8 && LegalGroup(corners, 3)
    ensures CornerIndex(strict, corners, CornerPool) == Some(r)
    ensures 0 <= r < CornerStates
    ensures corners == CornerCubies ==> r == 0
  {
    CornerPoolFull();
    CornerIndexTotal(strict, corners, CornerPool);
    CornerIndexBound(strict, corners, CornerPool);
    SolvedCornerIndex(strict);
    CornerIndex(strict, corners, CornerPool).value
  }

/** Mixed-radix bookkeeping: adding `digit * base` and multiplying the base by `r`
      keeps `state + base * code` unchanged. */
  lemma HornerShift(state: int, base: int, digit: int, r: int, rest: int, code: int)
    requires code == digit + r * rest
    ensures state + base * code == (state + digit * base) + (base * r) * rest
  {
    assert base * code == base * digit + base * (r * rest);
  }

  /** The inner search of both loops, `while (!haveSameElements(d.get(index),
      position)) index++`, on a slot whose match exists. */
  method FindMatch(strict: bool, d: seq<seq<int>>, position: seq<int>) returns (index: nat)
    requires MatchIndex(strict, d, position).Some?
    ensures index == MatchIndex(strict, d, position).value
  {
    index := 0;
    while !HaveSameElements(strict, d[index], position)
      invariant index <= MatchIndex(strict, d, position).value
      decreases MatchIndex(strict, d, position).value - index
    {
      index := index + 1;
    }
  }

  /** One turn of the corner loop: moving the first digit of the code into `state`
      and growing `base` keeps `state + base * code` unchanged. */
  lemma CornerLoopStep(strict: bool, todo: seq<seq<int>>, d: seq<seq<int>>, index: nat, rest: int,
                       state: int, base: int)
    requires todo != [] && todo[0] != [] && MatchIndex(strict, d, todo[0]) == Some(index)
    requires CornerCode(strict, todo[1..], RemoveAt(d, index)) == Some(rest)
    ensures CornerCode(strict, todo, d).Some?
    ensures state + base * CornerCode(strict, todo, d).value ==
      (state + CornerDigit(index, todo[0]) * base) + (base * (|d| * 3)) * rest
  {
    CornerCodeCons(strict, todo, d, index, rest);
    HornerShift(state, base, CornerDigit(index, todo[0]), |d| * 3, rest, CornerCode(strict, todo, d).value);
  }

  /** The body of the `getCornerState` loop on slot `position`, slot `i` of the slots
      to read: find its rank in the pool, add its digit, grow the base and
      drop the matched default. `total == state + base * code` is kept. */
  method CornerLoopBody(strict: bool, position: seq<int>, d: seq<seq<int>>, state: int, base: int,
                    ghost slots: seq<seq<int>>, ghost i: int, ghost total: int)
    returns (state2: int, base2: int, d2: seq<seq<int>>)
    requires 0 <= i < |slots| && slots[i] == position
    requires CornerCode(strict, slots[i..], d).Some?
    requires total == state + base * CornerCode(strict, slots[i..], d).value
    ensures CornerCode(strict, slots[i + 1..], d2).Some?
    ensures total == state2 + base2 * CornerCode(strict, slots[i + 1..], d2).value
  {
    ghost var todo := slots[i..];
    assert todo[0] == position;
    assert todo[1..] == slots[i + 1..];
    CornerCodeUncons(strict, todo, d);
    var index := FindMatch(strict, d, position);
    ghost var rest := CornerCode(strict, todo[1..], RemoveAt(d, index)).value;
    CornerLoopStep(strict, todo, d, index, rest, state, base);
    var digit := index * 3 + position[0] / 2;
    assert digit == CornerDigit(index, todo[0]);
    state2 := state + digit * base;
    base2 := base * (|d| * 3);
    d2 := RemoveAt(d, index);
  }

  /** `getCornerState`: the loop over all slots but the last, with `d` the pool. */
  method GetCornerState(strict: bool, positions: array<seq<int>>, defaults: seq<seq<int>>)
    returns (state: int)
    requires CornerIndex(strict, positions[..], defaults).Some?
    ensures state == CornerIndex(strict, positions[..], defaults).value
  {
    ghost var slots := Visited(positions[..]);
    ghost var total := CornerCode(strict, slots, defaults).value;
    assert slots[0..] == slots;
    state := 0;
    var base := 1;
    var d := defaults;
    var i := 0;
    while i < positions.Length - 1
      invariant 0 <= i <= |slots|
      invariant CornerCode(strict, slots[i..], d).Some?
      invariant total == state + base * CornerCode(strict, slots[i..], d).value
    {
      state, base, d := CornerLoopBody(strict, positions[i], d, state, base, slots, i, total);
      i := i + 1;
    }
    assert slots[i..] == [];
  }

  /** One turn of the edge loop, as `CornerLoopStep`. */
  lemma EdgeLoopStep(strict: bool, todo: seq<seq<int>>, d: seq<seq<int>>, index: nat, rest: int,
                     state: int, base: int)
    requires todo != [] && todo[0] != [] && MatchIndex(strict, d, todo[0]) == Some(index)
    requires EdgeIndex(strict, todo[1..], RemoveAt(d, index)) == Some(rest)
    ensures EdgeIndex(strict, todo, d).Some?
    ensures state + base * EdgeIndex(strict, todo, d).value ==
      (state + EdgeDigit(index, d[index], todo[0]) * base) + (base * (|d| * 2)) * rest
  {
    EdgeIndexCons(strict, todo, d, index, rest);
    HornerShift(state, base, EdgeDigit(index, d[index], todo[0]), |d| * 2, rest, EdgeIndex(strict, todo, d).value);
  }

  /** The body of the `getEdgeState` loop, as `CornerLoopBody`: the digit is the rank
      times two plus the orientation of the slot against the matched default. */
  method EdgeLoopBody(strict: bool, position: seq<int>, d: seq<seq<int>>, state: int, base: int,
                  ghost slots: seq<seq<int>>, ghost i: int, ghost total: int)
    returns (state2: int, base2: int, d2: seq<seq<int>>)
    requires 0 <= i < |slots| && slots[i] == position
    requires EdgeIndex(strict, slots[i..], d).Some?
    requires total == state + base * EdgeIndex(strict, slots[i..], d).value
    ensures EdgeIndex(strict, slots[i + 1..], d2).Some?
    ensures total == state2 + base2 * EdgeIndex(strict, slots[i + 1..], d2).value
  {
    ghost var todo := slots[i..];
    assert todo[0] == position;
    assert todo[1..] == slots[i + 1..];
    EdgeIndexUncons(strict, todo, d);
    var index := FindMatch(strict, d, position);
    ghost var rest := EdgeIndex(strict, todo[1..], RemoveAt(d, index)).value;
    EdgeLoopStep(strict, todo, d, index, rest, state, base);
    var orientation := EdgeOrientation(d[index], position);
    var digit := index * 2 + orientation;
    assert digit == EdgeDigit(index, d[index], todo[0]);
    state2 := state + digit * base;
    base2 := base * (|d| * 2);
    d2 := RemoveAt(d, index);
  }

  /** `getEdgeState`: the loop over all slots, with `d` the pool. */
  method GetEdgeState(strict: bool, positions: array<seq<int>>, defaults: seq<seq<int>>)
    returns (state: int)
    requires EdgeIndex(strict, positions[..], defaults).Some?
    ensures state == EdgeIndex(strict, positions[..], defaults).value
  {
    ghost var slots := positions[..];
    ghost var total := EdgeIndex(strict, slots, defaults).value;
    assert slots[0..] == slots;
    state := 0;
    var base := 1;
    var d := defaults;
    for i := 0 to positions.Length
      invariant EdgeIndex(strict, slots[i..], d).Some?
      invariant total == state + base * EdgeIndex(strict, slots[i..], d).value
    {
      state, base, d := EdgeLoopBody(strict, positions[i], d, state, base, slots, i, total);
    }
    assert slots[positions.Length..] == [];
  }

  /** The check of `isSolved`: no index is above zero, read from the first one on
      and false at the first that is. */
  function NoneAboveZero(states: seq<int>): (solved: bool)
    ensures solved <==> forall k :: 0 <= k < |states| ==> states[k] <= 0
  {
    if states == [] then true
    else if states[0] > 0 then false
    else
      assert forall k :: 1 <= k < |states| ==> states[k] == states[1..][k - 1];
      NoneAboveZero(states[1..])
  }

  /** On the two or three indices a cube reports, the check reads each one. */
  lemma NoneAboveZeroParts(states: seq<int>)
    requires 2 <= |states| <= 3
    ensures NoneAboveZero(states) <==>
      states[0] <= 0 && states[1] <= 0 && (|states| == 3 ==> states[2] <= 0)
  {
    if states[0] <= 0 && states[1] <= 0 && (|states| == 3 ==> states[2] <= 0) {
      forall k | 0 <= k < |states|
        ensures states[k] <= 0
      {
        assert k == 0 || k == 1 || k == 2;
      }
    }
  }

  /** Both edge indices of two groups, computed by the source's loop, each group
      against its own pool. */
  method GetEdgeStatePair(strict: bool, first: array<seq<int>>, second: array<seq<int>>,
                          pool1: seq<seq<int>>, pool2: seq<seq<int>>)
    returns (states: seq<int>)
    requires EdgeIndex(strict, first[..], pool1).Some?
    requires EdgeIndex(strict, second[..], pool2).Some?
    ensures |states| == 2
    ensures EdgeIndex(strict, first[..], pool1) == Some(states[0])
    ensures EdgeIndex(strict, second[..], pool2) == Some(states[1])
  {
    var a := GetEdgeState(strict, first, pool1);
    var b := GetEdgeState(strict, second, pool2);
    states := [a, b];
  }
}
