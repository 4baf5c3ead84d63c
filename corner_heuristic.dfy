/** `CornerHeuristicGenerator`: the corner pattern database. Starting from the solved
    corners, every sequence of actions is tried level by level; the first sequence
    to reach a corner index records its length there. `MAX_DEPTH` is 1 in the
    source, so the table this builder fills records only the solved index and the
    indices one action away. */
module CornerHeuristic {
  import opened Colors
  import opened Turns
  import opened StateIndex
  import opened Actions
  import opened PatternTable
  import opened CubeCorners

  /** `MAX_DEPTH`. */
  const MaxDepth: int := 1

  /** The corner index that a list of actions leads to from the solved corners. */
  function CornerOf(actions: seq<int>): (r: int)
    requires ValidActions(actions)
    ensures 0 <= r < CornerStates
    ensures actions == [] ==> r == 0
  {
    CornerCubiesLegal();
    ReachedLegal(CornerCubies, 3, actions);
    CornerState(false, Reached(CornerCubies, actions))
  }

  /** Some list of `depth` actions leads to corner index `k`. */
  ghost predicate Witness(k: int, depth: int) {
    exists actions :: ValidActions(actions) && |actions| == depth && CornerOf(actions) == k
  }

  /** Entry `k` is unset or the length of an action list reaching `k`. */
  ghost predicate Witnessed(table: seq<int>, k: int)
    requires 0 <= k < |table|
  {
    table[k] != -1 ==> Witness(k, table[k])
  }

  /** Every recorded entry is the length of an action list reaching its index. */
  ghost predicate Sound(table: seq<int>) {
    forall k :: 0 <= k < |table| ==> Witnessed(table, k)
  }

  /** The loops of `addToTable`: a fresh solved cube, then every face of every
      decoded action turned in order. */
  method ApplyActions(cube: RubiksCubeCorners, actions: seq<int>)
    requires cube.Valid() && ValidActions(actions)
    modifies cube.corners
    ensures cube.Valid() && cube.corners[..] == Reached(old(cube.corners[..]), actions)
  {
    ghost var start := cube.corners[..];
    for j := 0 to |actions|
      invariant cube.Valid() && cube.corners[..] == Reached(start, actions[..j])
    {
      var colors := Decode(actions[j]);
      ghost var before := cube.corners[..];
      for i := 0 to |colors|
        invariant cube.Valid() && cube.corners[..] == ApplyFaces(before, colors[..i])
      {
        cube.RotateFace(colors[i]);
        assert colors[..i + 1][..i] == colors[..i];
      }
      assert colors[..|colors|] == colors;
      ReachedStep(start, actions, j);
    }
    assert actions[..|actions|] == actions;
  }

  /** Recording the length of `actions` at the index they reach keeps a table
      sound. */
  lemma RecordSound(table: seq<int>, actions: seq<int>)
    requires ValidActions(actions) && |table| == CornerStates && Sound(table)
    ensures Sound(Record(table, CornerOf(actions), |actions|))
  {
    var k := CornerOf(actions);
    var r := Record(table, k, |actions|);
    forall j | 0 <= j < |r|
      ensures Witnessed(r, j)
    {
      assert Witnessed(table, j);
      if j == k && table[k] == -1 {
        assert ValidActions(actions) && |actions| == r[j] && CornerOf(actions) == j;
      } else {
        assert r[j] == table[j];
      }
    }
  }

  /** The index that `actions` reach has an entry. */
  ghost predicate Recorded(table: seq<int>, actions: seq<int>) {
    ValidActions(actions) && |table| == CornerStates && table[CornerOf(actions)] != -1
  }

  /* The run of a level is stated with the table functions of `PatternTable` over
     the corner indices of the lists tried, kept as plain integers (`keys`) and linked
     to the lists by the predicates below; the bookkeeping of the methods then never
     has to look inside `CornerOf`. */

  /** `keys[j]` is the corner index of `lists[j]`. */
  ghost predicate IndexOf(lists: seq<seq<int>>, keys: seq<int>, j: int)
    requires 0 <= j < |lists| == |keys|
  {
    ValidActions(lists[j]) && keys[j] == CornerOf(lists[j])
  }

  /** `keys` lists the corner indices of `lists`, in order. */
  ghost predicate IndicesOf(lists: seq<seq<int>>, keys: seq<int>) {
    |lists| == |keys| && forall j :: 0 <= j < |lists| ==> IndexOf(lists, keys, j)
  }

  lemma IndicesAppend(lists: seq<seq<int>>, keys: seq<int>, more: seq<seq<int>>, moreKeys: seq<int>)
    requires IndicesOf(lists, keys) && IndicesOf(more, moreKeys)
    ensures IndicesOf(lists + more, keys + moreKeys)
  {
    var all, allKeys := lists + more, keys + moreKeys;
    forall j | 0 <= j < |all|
      ensures IndexOf(all, allKeys, j)
    {
      if j < |lists| {
        assert IndexOf(lists, keys, j) && all[j] == lists[j] && allKeys[j] == keys[j];
      } else {
        var m := j - |lists|;
        assert IndexOf(more, moreKeys, m) && all[j] == more[m] && allKeys[j] == moreKeys[m];
      }
    }
  }

  /** One more `addToTable(action)` call in a run from `entry` over the lists
      `tried`: the table grows by that one record, and `action` joins the lists
      offered exactly when the call found its entry unset. */
  lemma TryStep(entry: seq<int>, tried: seq<seq<int>>, keys: seq<int>, action: seq<int>, key: int, depth: int,
                base: seq<seq<int>>, next: seq<seq<int>>, added: bool)
    requires IndicesOf(tried, keys) && IndicesOf([action], [key]) && 0 <= key < |entry|
    requires next == base + Select(tried, Unsets(entry, keys, depth))
    requires added == (RecordAll(entry, keys, depth)[key] == -1)
    ensures IndicesOf(tried + [action], keys + [key])
    ensures RecordAll(entry, keys + [key], depth) == Record(RecordAll(entry, keys, depth), key, depth)
    ensures (if added then next + [action] else next) == base + Select(tried + [action], Unsets(entry, keys + [key], depth))
  {
    IndicesAppend(tried, keys, [action], [key]);
    OfferStep(entry, keys, key, depth, tried, action, base, next, added);
  }

  /** Two runs over `lists` and then `more` are one run over both. */
  lemma JoinRuns(entry: seq<int>, lists: seq<seq<int>>, keys: seq<int>, more: seq<seq<int>>, moreKeys: seq<int>, depth: int)
    requires IndicesOf(lists, keys) && IndicesOf(more, moreKeys)
    ensures IndicesOf(lists + more, keys + moreKeys)
    ensures RecordAll(entry, keys + moreKeys, depth) == RecordAll(RecordAll(entry, keys, depth), moreKeys, depth)
    ensures Select(lists + more, Unsets(entry, keys + moreKeys, depth)) ==
            Select(lists, Unsets(entry, keys, depth)) + Select(more, Unsets(RecordAll(entry, keys, depth), moreKeys, depth))
  {
    IndicesAppend(lists, keys, more, moreKeys);
    RunJoin(entry, keys, moreKeys, depth, lists, more);
  }

  /** What a level's run from `start` leaves, read back as action lists: every
      one-action extension of every parent has an entry. */
  lemma LevelRecorded(start: seq<int>, parents: seq<seq<int>>, depth: int, keys: seq<int>)
    requires |start| == CornerStates && 0 <= depth
    requires IndicesOf(LevelTries(parents), keys)
    ensures forall j, a :: 0 <= j < |parents| && IsAction(a) ==> Recorded(RecordAll(start, keys, depth + 1), parents[j] + [a])
  {
    var tried := LevelTries(parents);
    RunFills(start, keys, depth + 1);
    forall j, a | 0 <= j < |parents| && IsAction(a)
      ensures Recorded(RecordAll(start, keys, depth + 1), parents[j] + [a])
    {
      LevelTriesAt(parents, j, a);
      assert IndexOf(tried, keys, 18 * j + a);
    }
  }

  /** The lists a level's run offers to the next level are lists of actions one
      longer than their parents. */
  lemma LevelFrontier(start: seq<int>, parents: seq<seq<int>>, depth: int, keys: seq<int>, frontier: seq<seq<int>>)
    requires forall j :: 0 <= j < |parents| ==> ValidActions(parents[j]) && |parents[j]| == depth
    requires IndicesOf(LevelTries(parents), keys)
    requires frontier == Select(LevelTries(parents), Unsets(start, keys, depth + 1))
    ensures forall j :: 0 <= j < |frontier| ==> ValidActions(frontier[j]) && |frontier[j]| == depth + 1
  {
    var tried := LevelTries(parents);
    var flags := Unsets(start, keys, depth + 1);
    LevelTriesFrom(parents);
    SelectFrom(tried, flags);
    forall j | 0 <= j < |frontier|
      ensures ValidActions(frontier[j]) && |frontier[j]| == depth + 1
    {
      assert frontier[j] in frontier;
      var k :| 0 <= k < |tried| && flags[k] && tried[k] == frontier[j];
      assert IndexOf(tried, keys, k);
    }
  }

  /** One parent more in the level loop: its run joins the run so far. */
  lemma LevelStep(start: seq<int>, parents: seq<seq<int>>, p: int, depth: int, keys: seq<int>, more: seq<int>,
                  frontier: seq<seq<int>>, next: seq<seq<int>>)
    requires 0 <= p < |parents|
    requires IndicesOf(LevelTries(parents[..p]), keys) && IndicesOf(Extensions(parents[p], 0, 18), more)
    requires frontier == Select(LevelTries(parents[..p]), Unsets(start, keys, depth))
    requires next == Select(Extensions(parents[p], 0, 18), Unsets(RecordAll(start, keys, depth), more, depth))
    ensures IndicesOf(LevelTries(parents[..p + 1]), keys + more)
    ensures RecordAll(start, keys + more, depth) == RecordAll(RecordAll(start, keys, depth), more, depth)
    ensures frontier + next == Select(LevelTries(parents[..p + 1]), Unsets(start, keys + more, depth))
  {
    LevelSnoc(parents, p);
    JoinRuns(start, LevelTries(parents[..p]), keys, Extensions(parents[p], 0, 18), more, depth);
  }

  /** Every list a level's run offers to the next level extends one of the parents by
      one action, and the table left by the run holds `depth + 1` at its index. */
  lemma LevelOffers(start: seq<int>, parents: seq<seq<int>>, depth: int, keys: seq<int>)
    requires |start| == CornerStates && 0 <= depth
    requires forall j :: 0 <= j < |parents| ==> |parents[j]| == depth
    requires IndicesOf(LevelTries(parents), keys)
    ensures forall x :: x in Select(LevelTries(parents), Unsets(start, keys, depth + 1)) ==>
      |x| == depth + 1 && x[..depth] in parents && IsAction(x[depth]) && ValidActions(x) &&
      RecordAll(start, keys, depth + 1)[CornerOf(x)] == depth + 1
  {
    var tried := LevelTries(parents);
    var flags := Unsets(start, keys, depth + 1);
    LevelTriesFrom(parents);
    SelectFrom(tried, flags);
    forall x | x in Select(tried, flags)
      ensures |x| == depth + 1 && x[..depth] in parents && IsAction(x[depth]) && ValidActions(x) &&
        RecordAll(start, keys, depth + 1)[CornerOf(x)] == depth + 1
    {
      var k :| 0 <= k < |tried| && flags[k] && tried[k] == x;
      assert IndexOf(tried, keys, k);
      assert x in tried;
      RunHolds(start, keys, depth + 1, k);
    }
  }

  /** Entries recorded stay recorded in a table that keeps them. */
  lemma RecordedKept(before: seq<int>, after: seq<int>, parents: seq<seq<int>>)
    requires Kept(before, after)
    requires forall j, a :: 0 <= j < |parents| && IsAction(a) ==> Recorded(before, parents[j] + [a])
    ensures forall j, a :: 0 <= j < |parents| && IsAction(a) ==> Recorded(after, parents[j] + [a])
  {
    forall j, a | 0 <= j < |parents| && IsAction(a)
      ensures Recorded(after, parents[j] + [a])
    {
      assert Recorded(before, parents[j] + [a]);
    }
  }

  /** The bookkeeping of `expand(byte[] actions)` on the empty list, from the
      table before the call, after its `addToTable` and after the expansion. */
  lemma RootFacts(start: seq<int>, middle: seq<int>, table: seq<int>, actionset: seq<seq<int>>)
    requires |start| == CornerStates && middle == Record(start, 0, 0) && Kept(middle, table)
    requires Bounded(middle, MaxDepth) ==> Bounded(table, MaxDepth)
    requires actionset == [[]]
    requires forall j, a :: 0 <= j < |actionset| && IsAction(a) ==> Recorded(table, actionset[j] + [a])
    ensures Kept(start, table) && (Bounded(start, MaxDepth) ==> Bounded(table, MaxDepth))
    ensures start[0] == -1 ==> table[0] == 0
    ensures forall a :: IsAction(a) ==> Recorded(table, [a])
  {
    RecordKeeps(start, 0, 0, MaxDepth);
    KeptTransitive(start, middle, table);
    forall a | IsAction(a)
      ensures Recorded(table, [a])
    {
      assert Recorded(table, actionset[0] + [a]) && actionset[0] + [a] == [a];
    }
  }

  class CornerHeuristicGenerator {
    const heuristic: array<int>

    ghost predicate Valid()
      reads heuristic
    {
      heuristic.Length == CornerStates && Sound(heuristic[..])
    }

    /** The table of 8!·3^7 entries, every one set to -1 before the expansion. */
    constructor ()
      ensures Valid() && AllUnset(heuristic[..])
      ensures fresh(heuristic)
    {
      heuristic := new int[CornerStates];
      new;
      for i := 0 to heuristic.Length
        invariant forall k :: 0 <= k < i ==> heuristic[k] == -1
      {
        heuristic[i] := -1;
      }
    }

    /** `main` without the file output: a table of -1 entries expanded from the solved
        corners. With `MAX_DEPTH` at 1 every entry ends as -1, 0 or 1: the solved
        index holds 0 and every index one action away is recorded. */
    static method Generate() returns (g: CornerHeuristicGenerator)
      ensures g.Valid() && Bounded(g.heuristic[..], MaxDepth)
      ensures g.heuristic[0] == 0
      ensures forall a :: IsAction(a) ==> Recorded(g.heuristic[..], [a])
    {
      g := new CornerHeuristicGenerator();
      UnsetFacts(g.heuristic[..], MaxDepth);
      g.ExpandFromSolved();
    }

    /** `addToTable(actions)`: the corner index the actions lead to is recorded with
        the number of actions when it was unset; the result says whether it was. */
    method AddToTable(actions: seq<int>) returns (added: bool)
      requires Valid() && ValidActions(actions) && |actions| < 128
      modifies heuristic
      ensures Valid()
      ensures var k := CornerOf(actions);
        added == (old(heuristic[k]) == -1) && heuristic[..] == Record(old(heuristic[..]), k, |actions|)
    {
      var state := StateAfter(actions);
      RecordSound(heuristic[..], actions);
      added := false;
      if heuristic[state] == -1 {
        heuristic[state] := Byte(|actions|);
        added := true;
      }
      assert heuristic[..] == Record(old(heuristic[..]), state, |actions|);
    }

    /** The first half of `addToTable`: the static `cube` is replaced by a fresh
        solved one, the actions are applied and `getState` is read. */
    static method StateAfter(actions: seq<int>) returns (state: int)
      requires ValidActions(actions)
      ensures state == CornerOf(actions)
    {
      var cube := new RubiksCubeCorners();
      ApplyActions(cube, actions);
      ReachedLegal(CornerCubies, 3, actions);
      state := cube.GetState();
    }

    /** `expand(byte[] actions)` as `main` calls it, on the empty list: the solved
        index is recorded with 0, then the levels are expanded from depth 0. */
    method ExpandFromSolved()
      requires Valid()
      modifies heuristic
      ensures Valid() && Kept(old(heuristic[..]), heuristic[..])
      ensures Bounded(old(heuristic[..]), MaxDepth) ==> Bounded(heuristic[..], MaxDepth)
      ensures old(heuristic[0]) == -1 ==> heuristic[0] == 0
      ensures forall a :: IsAction(a) ==> Recorded(heuristic[..], [a])
    {
      ghost var start := heuristic[..];
      var root: seq<int> := [];
      var _ := AddToTable(root);
      ghost var middle := heuristic[..];
      Expand([root], 0);
      RootFacts(start, middle, heuristic[..], [root]);
    }

    /** `expand(actionset, depth)`: below `MAX_DEPTH`, one level of extensions is
        recorded and the ones that recorded something are expanded next. */
    method Expand(actionset: seq<seq<int>>, depth: int)
      requires Valid() && 0 <= depth
      requires forall j :: 0 <= j < |actionset| ==> ValidActions(actionset[j]) && |actionset[j]| == depth
      modifies heuristic
      ensures Valid() && Kept(old(heuristic[..]), heuristic[..])
      ensures Bounded(old(heuristic[..]), MaxDepth) ==> Bounded(heuristic[..], MaxDepth)
      ensures depth < MaxDepth ==>
        forall j, a :: 0 <= j < |actionset| && IsAction(a) ==> Recorded(heuristic[..], actionset[j] + [a])
      decreases MaxDepth - depth
    {
      if depth < MaxDepth {
        ghost var start := heuristic[..];
        var frontier, keys := ExpandLevel(actionset, depth);
        ghost var middle := heuristic[..];
        RunKept(start, keys, depth + 1, MaxDepth);
        LevelRecorded(start, actionset, depth, keys);
        LevelFrontier(start, actionset, depth, keys, frontier);
        Expand(frontier, depth + 1);
        KeptTransitive(start, middle, heuristic[..]);
        RecordedKept(middle, heuristic[..], actionset);
      }
    }

    /** One level of `expand(actionset, depth)`: every list of the level is extended
        by each of the 18 actions, parent by parent, and `addToTable` is called on
        each extension in turn; `keys` are the corner indices they reach. The table is
        the old one with `depth + 1` recorded at each of them, in order, and the next
        level is exactly the extensions whose call found their entry unset, in order. */
    method ExpandLevel(actionset: seq<seq<int>>, depth: int) returns (frontier: seq<seq<int>>, ghost keys: seq<int>)
      requires Valid() && 0 <= depth < MaxDepth
      requires forall j :: 0 <= j < |actionset| ==> ValidActions(actionset[j]) && |actionset[j]| == depth
      modifies heuristic
      ensures Valid() && IndicesOf(LevelTries(actionset), keys)
      ensures heuristic[..] == RecordAll(old(heuristic[..]), keys, depth + 1)
      ensures frontier == Select(LevelTries(actionset), Unsets(old(heuristic[..]), keys, depth + 1))
    {
      ghost var start := heuristic[..];
      frontier, keys := [], [];
      for p := 0 to |actionset|
        invariant Valid() && IndicesOf(LevelTries(actionset[..p]), keys)
        invariant heuristic[..] == RecordAll(start, keys, depth + 1)
        invariant frontier == Select(LevelTries(actionset[..p]), Unsets(start, keys, depth + 1))
      {
        ghost var before := heuristic[..];
        var next, more := ExpandParent(actionset[p]);
        assert heuristic[..] == RecordAll(before, more, depth + 1);
        LevelStep(start, actionset, p, depth + 1, keys, more, frontier, next);
        frontier, keys := frontier + next, keys + more;
      }
      assert actionset[..|actionset|] == actionset;
    }

    /** The body of the level loop for one parent: faces in the order of
        `getFaces()`, 1, 2 and 3 turns each, so the `a`-th extension tried is
        `actions + [a]`. */
    method ExpandParent(actions: seq<int>) returns (next: seq<seq<int>>, ghost keys: seq<int>)
      requires Valid() && ValidActions(actions) && |actions| < MaxDepth
      modifies heuristic
      ensures Valid() && IndicesOf(Extensions(actions, 0, 18), keys)
      ensures heuristic[..] == RecordAll(old(heuristic[..]), keys, |actions| + 1)
      ensures next == Select(Extensions(actions, 0, 18), Unsets(old(heuristic[..]), keys, |actions| + 1))
    {
      ghost var start := heuristic[..];
      next, keys := [], [];
      for f := 0 to 6
        invariant Valid() && IndicesOf(Extensions(actions, 0, 3 * f), keys)
        invariant heuristic[..] == RecordAll(start, keys, |actions| + 1)
        invariant next == Select(Extensions(actions, 0, 3 * f), Unsets(start, keys, |actions| + 1))
      {
        ghost var before, more := heuristic[..], [];
        next, more := ExpandFace(actions, f, next);
        assert heuristic[..] == RecordAll(before, more, |actions| + 1);
        ExtensionsAppend(actions, 0, 3 * f, 3 * f + 3);
        JoinRuns(start, Extensions(actions, 0, 3 * f), keys, Extensions(actions, 3 * f, 3 * f + 3), more, |actions| + 1);
        keys := keys + more;
      }
    }

    /** The inner loop for face `f`: 1, 2 and 3 turns of it after `actions`; each
        extension whose `addToTable` returned true is appended to `next`. */
    method ExpandFace(actions: seq<int>, f: int, next: seq<seq<int>>) returns (next': seq<seq<int>>, ghost keys: seq<int>)
      requires Valid() && 0 <= f < 6 && ValidActions(actions) && |actions| < MaxDepth
      modifies heuristic
      ensures Valid() && IndicesOf(Extensions(actions, 3 * f, 3 * f + 3), keys)
      ensures heuristic[..] == RecordAll(old(heuristic[..]), keys, |actions| + 1)
      ensures next' == next + Select(Extensions(actions, 3 * f, 3 * f + 3), Unsets(old(heuristic[..]), keys, |actions| + 1))
    {
      ghost var entry := heuristic[..];
      next', keys := next, [];
      for i := 0 to 3
        invariant Valid() && IndicesOf(Extensions(actions, 3 * f, 3 * f + i), keys)
        invariant heuristic[..] == RecordAll(entry, keys, |actions| + 1)
        invariant next' == next + Select(Extensions(actions, 3 * f, 3 * f + i), Unsets(entry, keys, |actions| + 1))
      {
        ghost var before := heuristic[..];
        var added, action;
        ghost var key;
        added, action, key := TryAction(actions, f, i);
        assert added == (before[key] == -1) && heuristic[..] == Record(before, key, |actions| + 1);
        TryStep(entry, Extensions(actions, 3 * f, 3 * f + i), keys, action, key, |actions| + 1, next, next', added);
        ExtensionsSnoc(actions, 3 * f, 3 * f + i);
        if added {
          next' := next' + [action];
        }
        keys := keys + [key];
      }
    }

    /** One `addToTable` call of the inner loop: `actions` extended by `i + 1` turns of
        face `f`, which is action `3f + i`. The result is whether the entry of the
        index reached was unset; the table records the new length there if so. */
    method TryAction(actions: seq<int>, f: int, i: int) returns (added: bool, action: seq<int>, ghost key: int)
      requires Valid() && 0 <= f < 6 && 0 <= i < 3 && ValidActions(actions) && |actions| < MaxDepth
      modifies heuristic
      ensures Valid() && action == actions + [3 * f + i] && IndicesOf([action], [key]) && 0 <= key < CornerStates
      ensures added == (old(heuristic[key]) == -1) && heuristic[..] == Record(old(heuristic[..]), key, |action|)
    {
      FacesInOrder(f, i);
      var faces := Faces;
      var a := ActionFor(faces[f], i);
      ValidSnoc(actions, 3 * f + i);
      action := actions + [a];
      assert [a] == [3 * f + i];
      key := CornerOf(action);
      added := AddToTable(action);
      assert IndexOf([action], [key], 0);
    }
  }
}
