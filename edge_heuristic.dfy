/** `EdgeHeuristicGenerator`: the two edge pattern databases, one per group of six
    edges. The expansion is the corner builder's, but every action list is recorded
    in both tables, and a list goes on to the next level when either of its two
    entries was unset. */
module EdgeHeuristic {
  import opened Colors
  import opened Turns
  import opened StateIndex
  import opened Actions
  import opened PatternTable
  import opened CubeEdges

  /** `MAX_DEPTH`. */
  const MaxDepth: int := 11

  /** The two edge indices that a list of actions leads to from the solved edges. */
  function EdgeOf(actions: seq<int>): (r: seq<int>)
    requires ValidActions(actions)
    ensures |r| == 2 && 0 <= r[0] < EdgeStates && 0 <= r[1] < EdgeStates
    ensures actions == [] ==> r == [0, 0]
  {
    EdgeCubiesLegal();
    ReachedLegal(EdgeCubies, 2, actions);
    EdgeCubeStates(Reached(EdgeCubies, actions))
  }

  /** Some list of `depth` actions leads to index `k` of group `g`. */
  ghost predicate Witness(g: int, k: int, depth: int)
    requires 0 <= g < 2
  {
    exists actions :: ValidActions(actions) && |actions| == depth && EdgeOf(actions)[g] == k
  }

  /** Entry `k` of the table of group `g` is unset or the length of an action list
      reaching `k`. */
  ghost predicate Witnessed(g: int, table: seq<int>, k: int)
    requires 0 <= g < 2 && 0 <= k < |table|
  {
    table[k] != -1 ==> Witness(g, k, table[k])
  }

  /** Every recorded entry of the table of group `g` is the length of an action list
      reaching its index. */
  ghost predicate Sound(g: int, table: seq<int>)
    requires 0 <= g < 2
  {
    forall k :: 0 <= k < |table| ==> Witnessed(g, table, k)
  }

  /** The loops of `addToTable`: a fresh solved cube, then every face of every
      decoded action turned in order. */
  method ApplyActions(cube: RubiksCubeEdges, actions: seq<int>)
    requires cube.Valid() && ValidActions(actions)
    modifies cube.edges[0], cube.edges[1]
    ensures cube.Valid() && cube.Values() == Reached(old(cube.Values()), actions)
  {
    ghost var start := cube.Values();
    for j := 0 to |actions|
      invariant cube.Valid() && cube.Values() == Reached(start, actions[..j])
    {
      var colors := Decode(actions[j]);
      ghost var before := cube.Values();
      for i := 0 to |colors|
        invariant cube.Valid() && cube.Values() == ApplyFaces(before, colors[..i])
      {
        cube.RotateFace(colors[i]);
        assert colors[..i + 1][..i] == colors[..i];
      }
      assert colors[..|colors|] == colors;
      ReachedStep(start, actions, j);
    }
    assert actions[..|actions|] == actions;
  }

  /** Recording the length of `actions` at the index of group `g` they reach keeps
      that group's table sound. */
  lemma RecordSound(g: int, table: seq<int>, actions: seq<int>)
    requires 0 <= g < 2 && ValidActions(actions) && |table| == EdgeStates && Sound(g, table)
    ensures Sound(g, Record(table, EdgeOf(actions)[g], |actions|))
  {
    var k := EdgeOf(actions)[g];
    var r := Record(table, k, |actions|);
    forall j | 0 <= j < |r|
      ensures Witnessed(g, r, j)
    {
      assert Witnessed(g, table, j);
      if j == k && table[k] == -1 {
        assert ValidActions(actions) && |actions| == r[j] && EdgeOf(actions)[g] == j;
      } else {
        assert r[j] == table[j];
      }
    }
  }

  /** Both indices that `actions` reach have entries. */
  ghost predicate Recorded(first: seq<int>, second: seq<int>, actions: seq<int>) {
    ValidActions(actions) && |first| == EdgeStates && |second| == EdgeStates &&
    first[EdgeOf(actions)[0]] != -1 && second[EdgeOf(actions)[1]] != -1
  }

  /* As in the corner builder, the run of a level is stated with the table
     functions of `PatternTable`, over the indices of the lists tried kept as plain
     integers: `keys` for the first group and `keys'` for the second. */

  /** `keys[j]` and `keys'[j]` are the two edge indices of `lists[j]`. */
  ghost predicate IndexOf(lists: seq<seq<int>>, keys: seq<int>, keys': seq<int>, j: int)
    requires 0 <= j < |lists| == |keys| == |keys'|
  {
    ValidActions(lists[j]) && keys[j] == EdgeOf(lists[j])[0] && keys'[j] == EdgeOf(lists[j])[1]
  }

  /** `keys` and `keys'` list the edge indices of `lists`, in order. */
  ghost predicate IndicesOf(lists: seq<seq<int>>, keys: seq<int>, keys': seq<int>) {
    |lists| == |keys| == |keys'| && forall j :: 0 <= j < |lists| ==> IndexOf(lists, keys, keys', j)
  }

  lemma IndicesAppend(lists: seq<seq<int>>, keys: seq<int>, keys': seq<int>,
                      more: seq<seq<int>>, moreKeys: seq<int>, moreKeys': seq<int>)
    requires IndicesOf(lists, keys, keys') && IndicesOf(more, moreKeys, moreKeys')
    ensures IndicesOf(lists + more, keys + moreKeys, keys' + moreKeys')
  {
    var all, allKeys, allKeys' := lists + more, keys + moreKeys, keys' + moreKeys';
    forall j | 0 <= j < |all|
      ensures IndexOf(all, allKeys, allKeys', j)
    {
      if j < |lists| {
        assert IndexOf(lists, keys, keys', j);
        assert all[j] == lists[j] && allKeys[j] == keys[j] && allKeys'[j] == keys'[j];
      } else {
        var m := j - |lists|;
        assert IndexOf(more, moreKeys, moreKeys', m);
        assert all[j] == more[m] && allKeys[j] == moreKeys[m] && allKeys'[j] == moreKeys'[m];
      }
    }
  }

  /** One more `addToTable(action)` call in a run from the tables `entry` and
      `entry'` over the lists `tried`, taking the tables from `before` and `before'`
      to `after` and `after'` and the lists offered from `next` to `next'`: each
      table grows by that one record, and `action` joins the lists offered exactly
      when the call found either of its two entries unset. */
  lemma TryStep(entry: seq<int>, entry': seq<int>, before: seq<int>, before': seq<int>, after: seq<int>, after': seq<int>,
                tried: seq<seq<int>>, tried': seq<seq<int>>, keys: seq<int>, keys': seq<int>, action: seq<int>, key: int, key': int,
                depth: int, base: seq<seq<int>>, next: seq<seq<int>>, next': seq<seq<int>>, added: bool)
    requires IndicesOf(tried, keys, keys') && IndicesOf([action], [key], [key']) && |action| == depth
    requires tried' == tried + [action]
    requires |entry| == EdgeStates && |entry'| == EdgeStates && 0 <= key < EdgeStates && 0 <= key' < EdgeStates
    requires before == RecordAll(entry, keys, depth) && before' == RecordAll(entry', keys', depth)
    requires added == (before[key] == -1 || before'[key'] == -1)
    requires after == Record(before, key, |action|) && after' == Record(before', key', |action|)
    requires next == base + Select(tried, Either(Unsets(entry, keys, depth), Unsets(entry', keys', depth)))
    requires next' == if added then next + [action] else next
    ensures IndicesOf(tried', keys + [key], keys' + [key'])
    ensures after == RecordAll(entry, keys + [key], depth) && after' == RecordAll(entry', keys' + [key'], depth)
    ensures next' == base + Select(tried', Either(Unsets(entry, keys + [key], depth), Unsets(entry', keys' + [key'], depth)))
  {
    IndicesAppend(tried, keys, keys', [action], [key], [key']);
    OfferStepEither(entry, keys, key, entry', keys', key', depth, tried, action, base, next, added);
  }

  /** Two runs over `lists` and then `more` are one run over both. */
  lemma JoinRuns(entry: seq<int>, entry': seq<int>, lists: seq<seq<int>>, keys: seq<int>, keys': seq<int>,
                 more: seq<seq<int>>, moreKeys: seq<int>, moreKeys': seq<int>, depth: int)
    requires IndicesOf(lists, keys, keys') && IndicesOf(more, moreKeys, moreKeys')
    ensures IndicesOf(lists + more, keys + moreKeys, keys' + moreKeys')
    ensures RecordAll(entry, keys + moreKeys, depth) == RecordAll(RecordAll(entry, keys, depth), moreKeys, depth)
    ensures RecordAll(entry', keys' + moreKeys', depth) == RecordAll(RecordAll(entry', keys', depth), moreKeys', depth)
    ensures Select(lists + more, Either(Unsets(entry, keys + moreKeys, depth), Unsets(entry', keys' + moreKeys', depth))) ==
            Select(lists, Either(Unsets(entry, keys, depth), Unsets(entry', keys', depth))) +
            Select(more, Either(Unsets(RecordAll(entry, keys, depth), moreKeys, depth),
                                Unsets(RecordAll(entry', keys', depth), moreKeys', depth)))
  {
    IndicesAppend(lists, keys, keys', more, moreKeys, moreKeys');
    RunJoinEither(entry, keys, moreKeys, entry', keys', moreKeys', depth, lists, more);
  }

  /** What a level's run from `start` and `start'` leaves, read back as action
      lists: both indices of every one-action extension of every parent have
      entries. */
  lemma LevelRecorded(start: seq<int>, start': seq<int>, parents: seq<seq<int>>, depth: int, keys: seq<int>, keys': seq<int>)
    requires |start| == EdgeStates && |start'| == EdgeStates && 0 <= depth
    requires IndicesOf(LevelTries(parents), keys, keys')
    ensures forall j, a :: 0 <= j < |parents| && IsAction(a) ==>
      Recorded(RecordAll(start, keys, depth + 1), RecordAll(start', keys', depth + 1), parents[j] + [a])
  {
    var tried := LevelTries(parents);
    RunFills(start, keys, depth + 1);
    RunFills(start', keys', depth + 1);
    forall j, a | 0 <= j < |parents| && IsAction(a)
      ensures Recorded(RecordAll(start, keys, depth + 1), RecordAll(start', keys', depth + 1), parents[j] + [a])
    {
      LevelTriesAt(parents, j, a);
      assert IndexOf(tried, keys, keys', 18 * j + a);
    }
  }

  /** The lists a level's run offers to the next level are lists of actions one
      longer than their parents. */
  lemma LevelFrontier(start: seq<int>, start': seq<int>, parents: seq<seq<int>>, depth: int,
                      keys: seq<int>, keys': seq<int>, frontier: seq<seq<int>>)
    requires forall j :: 0 <= j < |parents| ==> ValidActions(parents[j]) && |parents[j]| == depth
    requires IndicesOf(LevelTries(parents), keys, keys')
    requires frontier == Select(LevelTries(parents), Either(Unsets(start, keys, depth + 1), Unsets(start', keys', depth + 1)))
    ensures forall j :: 0 <= j < |frontier| ==> ValidActions(frontier[j]) && |frontier[j]| == depth + 1
  {
    var tried := LevelTries(parents);
    var flags := Either(Unsets(start, keys, depth + 1), Unsets(start', keys', depth + 1));
    LevelTriesFrom(parents);
    SelectFrom(tried, flags);
    forall j | 0 <= j < |frontier|
      ensures ValidActions(frontier[j]) && |frontier[j]| == depth + 1
    {
      assert frontier[j] in frontier;
      var k :| 0 <= k < |tried| && flags[k] && tried[k] == frontier[j];
      assert IndexOf(tried, keys, keys', k);
    }
  }

  /** One parent more in the level loop: its run, from the tables `before` and
      `before'` the run so far left to `after` and `after'`, joins the run so far. */
  lemma LevelStep(start: seq<int>, start': seq<int>, before: seq<int>, before': seq<int>, after: seq<int>, after': seq<int>,
                  parents: seq<seq<int>>, p: int, depth: int, keys: seq<int>, keys': seq<int>, more: seq<int>, more': seq<int>,
                  frontier: seq<seq<int>>, next: seq<seq<int>>)
    requires 0 <= p < |parents| && |parents[p]| + 1 == depth
    requires IndicesOf(LevelTries(parents[..p]), keys, keys') && IndicesOf(Extensions(parents[p], 0, 18), more, more')
    requires before == RecordAll(start, keys, depth) && before' == RecordAll(start', keys', depth)
    requires after == RecordAll(before, more, |parents[p]| + 1) && after' == RecordAll(before', more', |parents[p]| + 1)
    requires frontier == Select(LevelTries(parents[..p]), Either(Unsets(start, keys, depth), Unsets(start', keys', depth)))
    requires next == Select(Extensions(parents[p], 0, 18),
                            Either(Unsets(before, more, |parents[p]| + 1), Unsets(before', more', |parents[p]| + 1)))
    ensures IndicesOf(LevelTries(parents[..p + 1]), keys + more, keys' + more')
    ensures after == RecordAll(start, keys + more, depth) && after' == RecordAll(start', keys' + more', depth)
    ensures frontier + next ==
            Select(LevelTries(parents[..p + 1]), Either(Unsets(start, keys + more, depth), Unsets(start', keys' + more', depth)))
  {
    LevelSnoc(parents, p);
    JoinRuns(start, start', LevelTries(parents[..p]), keys, keys', Extensions(parents[p], 0, 18), more, more', depth);
  }

  /** Every list a level's run offers to the next level extends one of the parents by
      one action. */
  lemma LevelOffers(start: seq<int>, start': seq<int>, parents: seq<seq<int>>, depth: int, keys: seq<int>, keys': seq<int>)
    requires forall j :: 0 <= j < |parents| ==> |parents[j]| == depth
    requires IndicesOf(LevelTries(parents), keys, keys')
    ensures forall x :: x in Select(LevelTries(parents), Either(Unsets(start, keys, depth + 1), Unsets(start', keys', depth + 1))) ==>
      |x| == depth + 1 && x[..depth] in parents && IsAction(x[depth]) && ValidActions(x)
  {
    var tried := LevelTries(parents);
    var flags := Either(Unsets(start, keys, depth + 1), Unsets(start', keys', depth + 1));
    LevelTriesFrom(parents);
    SelectFrom(tried, flags);
    forall x | x in Select(tried, flags)
      ensures |x| == depth + 1 && x[..depth] in parents && IsAction(x[depth]) && ValidActions(x)
    {
      var k :| 0 <= k < |tried| && flags[k] && tried[k] == x;
      assert x in tried;
      assert IndexOf(tried, keys, keys', k);
    }
  }

  /** At least one of the two tables left by a level's run holds `depth + 1` at the
      index of each list it offers to the next level: the entry the list found
      unset. */
  lemma LevelOffersHold(start: seq<int>, start': seq<int>, parents: seq<seq<int>>, depth: int, keys: seq<int>, keys': seq<int>)
    requires |start| == EdgeStates && |start'| == EdgeStates && 0 <= depth
    requires IndicesOf(LevelTries(parents), keys, keys')
    ensures forall x :: x in Select(LevelTries(parents), Either(Unsets(start, keys, depth + 1), Unsets(start', keys', depth + 1))) ==>
      ValidActions(x) &&
      (RecordAll(start, keys, depth + 1)[EdgeOf(x)[0]] == depth + 1 || RecordAll(start', keys', depth + 1)[EdgeOf(x)[1]] == depth + 1)
  {
    var tried := LevelTries(parents);
    var flags := Either(Unsets(start, keys, depth + 1), Unsets(start', keys', depth + 1));
    SelectFrom(tried, flags);
    forall x | x in Select(tried, flags)
      ensures ValidActions(x) &&
        (RecordAll(start, keys, depth + 1)[EdgeOf(x)[0]] == depth + 1 || RecordAll(start', keys', depth + 1)[EdgeOf(x)[1]] == depth + 1)
    {
      var k :| 0 <= k < |tried| && flags[k] && tried[k] == x;
      OfferedHolds(start, start', tried, keys, keys', depth + 1, k);
    }
  }

  /** A list whose call found either entry unset leaves `depth` in that entry. */
  lemma OfferedHolds(start: seq<int>, start': seq<int>, tried: seq<seq<int>>, keys: seq<int>, keys': seq<int>, depth: int, k: int)
    requires |start| == EdgeStates && |start'| == EdgeStates && depth != -1
    requires IndicesOf(tried, keys, keys') && 0 <= k < |tried|
    requires Either(Unsets(start, keys, depth), Unsets(start', keys', depth))[k]
    ensures ValidActions(tried[k])
    ensures RecordAll(start, keys, depth)[EdgeOf(tried[k])[0]] == depth || RecordAll(start', keys', depth)[EdgeOf(tried[k])[1]] == depth
  {
    assert IndexOf(tried, keys, keys', k);
    EitherAt(Unsets(start, keys, depth), Unsets(start', keys', depth), k);
    if Unsets(start, keys, depth)[k] {
      RunHolds(start, keys, depth, k);
    } else {
      RunHolds(start', keys', depth, k);
    }
  }

  /** Entries recorded stay recorded in tables that keep them. */
  lemma RecordedKept(before: seq<int>, before': seq<int>, after: seq<int>, after': seq<int>, parents: seq<seq<int>>)
    requires Kept(before, after) && Kept(before', after')
    requires forall j, a :: 0 <= j < |parents| && IsAction(a) ==> Recorded(before, before', parents[j] + [a])
    ensures forall j, a :: 0 <= j < |parents| && IsAction(a) ==> Recorded(after, after', parents[j] + [a])
  {
    forall j, a | 0 <= j < |parents| && IsAction(a)
      ensures Recorded(after, after', parents[j] + [a])
    {
      assert Recorded(before, before', parents[j] + [a]);
    }
  }

  /** The bookkeeping of `expand(byte[] actions)` on the empty list, from the
      tables before the call, after its `addToTable` and after the expansion. */
  lemma RootFacts(start: seq<int>, start': seq<int>, middle: seq<int>, middle': seq<int>,
                  first: seq<int>, second: seq<int>, actionset: seq<seq<int>>)
    requires |start| == EdgeStates && |start'| == EdgeStates
    requires middle == Record(start, 0, 0) && middle' == Record(start', 0, 0)
    requires Kept(middle, first) && Kept(middle', second)
    requires Bounded(middle, MaxDepth) ==> Bounded(first, MaxDepth)
    requires Bounded(middle', MaxDepth) ==> Bounded(second, MaxDepth)
    requires actionset == [[]]
    requires forall j, a :: 0 <= j < |actionset| && IsAction(a) ==> Recorded(first, second, actionset[j] + [a])
    ensures Kept(start, first) && Kept(start', second)
    ensures Bounded(start, MaxDepth) ==> Bounded(first, MaxDepth)
    ensures Bounded(start', MaxDepth) ==> Bounded(second, MaxDepth)
    ensures start[0] == -1 ==> first[0] == 0
    ensures start'[0] == -1 ==> second[0] == 0
    ensures forall a :: IsAction(a) ==> Recorded(first, second, [a])
  {
    RecordKeeps(start, 0, 0, MaxDepth);
    RecordKeeps(start', 0, 0, MaxDepth);
    KeptTransitive(start, middle, first);
    KeptTransitive(start', middle', second);
    forall a | IsAction(a)
      ensures Recorded(first, second, [a])
    {
      assert Recorded(first, second, actionset[0] + [a]) && actionset[0] + [a] == [a];
    }
  }

  /** The loop of `main` over one table: every entry set to -1. */
  method Unset(table: array<int>)
    modifies table
    ensures AllUnset(table[..])
  {
    for j := 0 to table.Length
      invariant forall k :: 0 <= k < j ==> table[k] == -1
    {
      table[j] := -1;
    }
  }

  class EdgeHeuristicGenerator {
    const heuristics: seq<array<int>>

    /** Two distinct tables of 12!/6!·2^6 entries, each sound for its group. */
    ghost predicate Valid()
      reads heuristics
    {
      |heuristics| == 2 && heuristics[0] != heuristics[1] &&
      heuristics[0].Length == EdgeStates && heuristics[1].Length == EdgeStates &&
      Sound(0, heuristics[0][..]) && Sound(1, heuristics[1][..])
    }

    /** The two tables, every entry set to -1 before the expansion. */
    constructor ()
      ensures Valid() && AllUnset(heuristics[0][..]) && AllUnset(heuristics[1][..])
      ensures fresh(heuristics[0]) && fresh(heuristics[1])
    {
      var first := new int[EdgeStates];
      var second := new int[EdgeStates];
      Unset(first);
      Unset(second);
      heuristics := [first, second];
    }

    /** `main` without the file output: two tables of -1 entries expanded from the
        solved edges. Both solved indices hold 0, every entry is -1 or a depth up to
        `MAX_DEPTH`, and every index pair one action away is recorded. */
    static method Generate() returns (g: EdgeHeuristicGenerator)
      ensures g.Valid() && Bounded(g.heuristics[0][..], MaxDepth) && Bounded(g.heuristics[1][..], MaxDepth)
      ensures g.heuristics[0][0] == 0 && g.heuristics[1][0] == 0
      ensures forall a :: IsAction(a) ==> Recorded(g.heuristics[0][..], g.heuristics[1][..], [a])
    {
      g := new EdgeHeuristicGenerator();
      UnsetFacts(g.heuristics[0][..], MaxDepth);
      UnsetFacts(g.heuristics[1][..], MaxDepth);
      g.ExpandFromSolved();
    }

    /** `addToTable(actions)`: both indices the actions lead to are recorded with the
        number of actions where they were unset; the result says whether either
        was. */
    method AddToTable(actions: seq<int>) returns (added: bool)
      requires Valid() && ValidActions(actions) && |actions| < 128
      modifies heuristics
      ensures Valid()
      ensures var s := EdgeOf(actions);
        heuristics[0][..] == Record(old(heuristics[0][..]), s[0], |actions|) &&
        heuristics[1][..] == Record(old(heuristics[1][..]), s[1], |actions|) &&
        added == (old(heuristics[0][s[0]]) == -1 || old(heuristics[1][s[1]]) == -1)
    {
      var states := StatesAfter(actions);
      ghost var first, second := heuristics[0][..], heuristics[1][..];
      RecordSound(0, first, actions);
      RecordSound(1, second, actions);
      added := false;
      for i := 0 to |states|
        invariant heuristics[0][..] == if i > 0 then Record(first, states[0], |actions|) else first
        invariant heuristics[1][..] == if i > 1 then Record(second, states[1], |actions|) else second
        invariant added == ((i > 0 && first[states[0]] == -1) || (i > 1 && second[states[1]] == -1))
      {
        if heuristics[i][states[i]] == -1 {
          heuristics[i][states[i]] := Byte(|actions|);
          added := true;
        }
      }
    }

    /** The first half of `addToTable`: the static `cube` is replaced by a fresh
        solved one, the actions are applied and `getStates` is read. */
    static method StatesAfter(actions: seq<int>) returns (states: seq<int>)
      requires ValidActions(actions)
      ensures states == EdgeOf(actions)
    {
      var cube := new RubiksCubeEdges();
      ApplyActions(cube, actions);
      ReachedLegal(EdgeCubies, 2, actions);
      cube.LegalStatesDefined();
      states := cube.GetStates();
    }

    /** `expand(byte[] actions)` as `main` calls it, on the empty list: both solved
        indices are recorded with 0, then the levels are expanded from depth 0. */
    method ExpandFromSolved()
      requires Valid()
      modifies heuristics
      ensures Valid()
      ensures Kept(old(heuristics[0][..]), heuristics[0][..]) && Kept(old(heuristics[1][..]), heuristics[1][..])
      ensures Bounded(old(heuristics[0][..]), MaxDepth) ==> Bounded(heuristics[0][..], MaxDepth)
      ensures Bounded(old(heuristics[1][..]), MaxDepth) ==> Bounded(heuristics[1][..], MaxDepth)
      ensures old(heuristics[0][0]) == -1 ==> heuristics[0][0] == 0
      ensures old(heuristics[1][0]) == -1 ==> heuristics[1][0] == 0
      ensures forall a :: IsAction(a) ==> Recorded(heuristics[0][..], heuristics[1][..], [a])
    {
      ghost var start, start' := heuristics[0][..], heuristics[1][..];
      var root: seq<int> := [];
      var _ := AddToTable(root);
      ghost var middle, middle' := heuristics[0][..], heuristics[1][..];
      Expand([root], 0);
      RootFacts(start, start', middle, middle', heuristics[0][..], heuristics[1][..], [root]);
    }

    /** `expand(actionset, depth)`: below `MAX_DEPTH`, one level of extensions is
        recorded and the ones that recorded something are expanded next. */
    method Expand(actionset: seq<seq<int>>, depth: int)
      requires Valid() && 0 <= depth
      requires forall j :: 0 <= j < |actionset| ==> ValidActions(actionset[j]) && |actionset[j]| == depth
      modifies heuristics
      ensures Valid()
      ensures Kept(old(heuristics[0][..]), heuristics[0][..]) && Kept(old(heuristics[1][..]), heuristics[1][..])
      ensures Bounded(old(heuristics[0][..]), MaxDepth) ==> Bounded(heuristics[0][..], MaxDepth)
      ensures Bounded(old(heuristics[1][..]), MaxDepth) ==> Bounded(heuristics[1][..], MaxDepth)
      ensures depth < MaxDepth ==>
        forall j, a :: 0 <= j < |actionset| && IsAction(a) ==>
          Recorded(heuristics[0][..], heuristics[1][..], actionset[j] + [a])
      decreases MaxDepth - depth
    {
      if depth < MaxDepth {
        ghost var start, start' := heuristics[0][..], heuristics[1][..];
        var frontier, keys, keys' := ExpandLevel(actionset, depth);
        ghost var middle, middle' := heuristics[0][..], heuristics[1][..];
        RunKept(start, keys, depth + 1, MaxDepth);
        RunKept(start', keys', depth + 1, MaxDepth);
        LevelRecorded(start, start', actionset, depth, keys, keys');
        LevelFrontier(start, start', actionset, depth, keys, keys', frontier);
        Expand(frontier, depth + 1);
        KeptTransitive(start, middle, heuristics[0][..]);
        KeptTransitive(start', middle', heuristics[1][..]);
        RecordedKept(middle, middle', heuristics[0][..], heuristics[1][..], actionset);
      }
    }

    /** One level of `expand(actionset, depth)`: every list of the level is extended
        by each of the 18 actions, parent by parent, and `addToTable` is called on
        each extension in turn; `keys` and `keys'` are the indices of the two groups
        they reach. Each table is the old one with `depth + 1` recorded at its indices,
        in order, and the next level is exactly the extensions whose call found either
        entry unset, in order. */
    method ExpandLevel(actionset: seq<seq<int>>, depth: int)
      returns (frontier: seq<seq<int>>, ghost keys: seq<int>, ghost keys': seq<int>)
      requires Valid() && 0 <= depth < MaxDepth
      requires forall j :: 0 <= j < |actionset| ==> ValidActions(actionset[j]) && |actionset[j]| == depth
      modifies heuristics
      ensures Valid() && IndicesOf(LevelTries(actionset), keys, keys')
      ensures heuristics[0][..] == RecordAll(old(heuristics[0][..]), keys, depth + 1)
      ensures heuristics[1][..] == RecordAll(old(heuristics[1][..]), keys', depth + 1)
      ensures frontier == Select(LevelTries(actionset),
                                 Either(Unsets(old(heuristics[0][..]), keys, depth + 1), Unsets(old(heuristics[1][..]), keys', depth + 1)))
    {
      ghost var start, start' := heuristics[0][..], heuristics[1][..];
      frontier, keys, keys' := [], [], [];
      for p := 0 to |actionset|
        invariant Valid() && IndicesOf(LevelTries(actionset[..p]), keys, keys')
        invariant heuristics[0][..] == RecordAll(start, keys, depth + 1)
        invariant heuristics[1][..] == RecordAll(start', keys', depth + 1)
        invariant frontier == Select(LevelTries(actionset[..p]), Either(Unsets(start, keys, depth + 1), Unsets(start', keys', depth + 1)))
      {
        ghost var before, before' := heuristics[0][..], heuristics[1][..];
        var next, more, more' := ExpandParent(actionset[p]);
        LevelStep(start, start', before, before', heuristics[0][..], heuristics[1][..], actionset, p, depth + 1,
                  keys, keys', more, more', frontier, next);
        frontier, keys, keys' := frontier + next, keys + more, keys' + more';
      }
      assert actionset[..|actionset|] == actionset;
    }

    /** The body of the level loop for one parent: faces in the order of
        `getFaces()`, 1, 2 and 3 turns each, so the `a`-th extension tried is
        `actions + [a]`. */
    method ExpandParent(actions: seq<int>) returns (next: seq<seq<int>>, ghost keys: seq<int>, ghost keys': seq<int>)
      requires Valid() && ValidActions(actions) && |actions| < MaxDepth
      modifies heuristics
      ensures Valid() && IndicesOf(Extensions(actions, 0, 18), keys, keys')
      ensures heuristics[0][..] == RecordAll(old(heuristics[0][..]), keys, |actions| + 1)
      ensures heuristics[1][..] == RecordAll(old(heuristics[1][..]), keys', |actions| + 1)
      ensures next == Select(Extensions(actions, 0, 18),
                             Either(Unsets(old(heuristics[0][..]), keys, |actions| + 1), Unsets(old(heuristics[1][..]), keys', |actions| + 1)))
    {
      ghost var start, start' := heuristics[0][..], heuristics[1][..];
      next, keys, keys' := [], [], [];
      for f := 0 to 6
        invariant Valid() && IndicesOf(Extensions(actions, 0, 3 * f), keys, keys')
        invariant heuristics[0][..] == RecordAll(start, keys, |actions| + 1)
        invariant heuristics[1][..] == RecordAll(start', keys', |actions| + 1)
        invariant next == Select(Extensions(actions, 0, 3 * f),
                                 Either(Unsets(start, keys, |actions| + 1), Unsets(start', keys', |actions| + 1)))
      {
        ghost var before, before', more, more' := heuristics[0][..], heuristics[1][..], [], [];
        next, more, more' := ExpandFace(actions, f, next);
        assert heuristics[0][..] == RecordAll(before, more, |actions| + 1);
        assert heuristics[1][..] == RecordAll(before', more', |actions| + 1);
        ExtensionsAppend(actions, 0, 3 * f, 3 * f + 3);
        JoinRuns(start, start', Extensions(actions, 0, 3 * f), keys, keys', Extensions(actions, 3 * f, 3 * f + 3),
                 more, more', |actions| + 1);
        keys, keys' := keys + more, keys' + more';
      }
    }

    /** The inner loop for face `f`: 1, 2 and 3 turns of it after `actions`; each
        extension whose `addToTable` returned true is appended to `next`. */
    method ExpandFace(actions: seq<int>, f: int, next: seq<seq<int>>)
      returns (next': seq<seq<int>>, ghost keys: seq<int>, ghost keys': seq<int>)
      requires Valid() && 0 <= f < 6 && ValidActions(actions) && |actions| < MaxDepth
      modifies heuristics
      ensures Valid() && IndicesOf(Extensions(actions, 3 * f, 3 * f + 3), keys, keys')
      ensures heuristics[0][..] == RecordAll(old(heuristics[0][..]), keys, |actions| + 1)
      ensures heuristics[1][..] == RecordAll(old(heuristics[1][..]), keys', |actions| + 1)
      ensures next' == next + Select(Extensions(actions, 3 * f, 3 * f + 3),
                                     Either(Unsets(old(heuristics[0][..]), keys, |actions| + 1), Unsets(old(heuristics[1][..]), keys', |actions| + 1)))
    {
      ghost var entry, entry' := heuristics[0][..], heuristics[1][..];
      next', keys, keys' := next, [], [];
      for i := 0 to 3
        invariant Valid() && IndicesOf(Extensions(actions, 3 * f, 3 * f + i), keys, keys')
        invariant heuristics[0][..] == RecordAll(entry, keys, |actions| + 1)
        invariant heuristics[1][..] == RecordAll(entry', keys', |actions| + 1)
        invariant next' == next + Select(Extensions(actions, 3 * f, 3 * f + i),
                                         Either(Unsets(entry, keys, |actions| + 1), Unsets(entry', keys', |actions| + 1)))
      {
        ghost var before, before', sofar := heuristics[0][..], heuristics[1][..], next';
        var added, action;
        ghost var key, key';
        added, action, key, key' := TryAction(actions, f, i);
        assert added == (before[key] == -1 || before'[key'] == -1);
        if added {
          next' := next' + [action];
        }
        ExtensionsSnoc(actions, 3 * f, 3 * f + i);
        TryStep(entry, entry', before, before', heuristics[0][..], heuristics[1][..],
                Extensions(actions, 3 * f, 3 * f + i), Extensions(actions, 3 * f, 3 * f + i + 1),
                keys, keys', action, key, key', |actions| + 1, next, sofar, next', added);
        keys, keys' := keys + [key], keys' + [key'];
      }
    }

    /** One `addToTable` call of the inner loop: `actions` extended by `i + 1` turns of
        face `f`, which is action `3f + i`. The result is whether either entry of the
        two indices reached was unset; each table records the new length there if
        so. */
    method TryAction(actions: seq<int>, f: int, i: int) returns (added: bool, action: seq<int>, ghost key: int, ghost key': int)
      requires Valid() && 0 <= f < 6 && 0 <= i < 3 && ValidActions(actions) && |actions| < MaxDepth
      modifies heuristics
      ensures Valid() && action == actions + [3 * f + i] && IndicesOf([action], [key], [key'])
      ensures 0 <= key < EdgeStates && 0 <= key' < EdgeStates
      ensures added == (old(heuristics[0][key]) == -1 || old(heuristics[1][key']) == -1)
      ensures heuristics[0][..] == Record(old(heuristics[0][..]), key, |action|)
      ensures heuristics[1][..] == Record(old(heuristics[1][..]), key', |action|)
    {
      FacesInOrder(f, i);
      var faces := Faces;
      var a := ActionFor(faces[f], i);
      ValidSnoc(actions, 3 * f + i);
      action := actions + [a];
      assert [a] == [3 * f + i];
      ghost var states := EdgeOf(action);
      key, key' := states[0], states[1];
      added := AddToTable(action);
      assert IndexOf([action], [key], [key'], 0);
    }
  }
}
