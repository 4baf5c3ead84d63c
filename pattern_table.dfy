/** The tables the two builders fill: one entry per state index, -1 while the index
    has not been reached, otherwise the number of actions of the first sequence that
    reached it. An entry is written once and never again. */
module PatternTable {

  /** `if (table[k] == -1) table[k] = v`: the one write a builder makes to an entry. */
  function Record(table: seq<int>, k: int, v: int): (r: seq<int>)
    requires 0 <= k < |table|
    ensures |r| == |table|
    ensures r[k] == (if table[k] == -1 then v else table[k])
    ensures forall j :: 0 <= j < |table| && j != k ==> r[j] == table[j]
  {
    if table[k] == -1 then table[k := v] else table
  }

  /** `after` keeps every entry `before` had set. */
  predicate Kept(before: seq<int>, after: seq<int>) {
    |before| == |after| &&
    forall k :: 0 <= k < |before| && before[k] != -1 ==> after[k] == before[k]
  }

  /** Every entry is unset or a depth in `0..max`. */
  predicate Bounded(table: seq<int>, max: int) {
    forall k :: 0 <= k < |table| ==> table[k] == -1 || 0 <= table[k] <= max
  }

  /** A fresh table: every entry unset. */
  predicate AllUnset(table: seq<int>) {
    forall k :: 0 <= k < |table| ==> table[k] == -1
  }

  /** A recorded entry is never overwritten, and a depth in range keeps the table
      bounded. */
  lemma RecordKeeps(table: seq<int>, k: int, v: int, max: int)
    requires 0 <= k < |table|
    ensures Kept(table, Record(table, k, v))
    ensures Bounded(table, max) && 0 <= v <= max ==> Bounded(Record(table, k, v), max)
  {
  }

  lemma KeptTransitive(a: seq<int>, b: seq<int>, c: seq<int>)
    requires Kept(a, b) && Kept(b, c)
    ensures Kept(a, c)
  {
  }

  /** A fresh table is bounded by any depth. */
  lemma UnsetFacts(table: seq<int>, max: int)
    requires AllUnset(table)
    ensures Bounded(table, max)
  {
  }

  /* ---- The run of one level ----
     Within a level every `addToTable` call records the same depth, so the table after
     the calls and what each call returned are functions of the table before the
     level and the keys tried, in order. */

  /** The table after recording `depth` at each key in turn. A key outside the table
      changes nothing (the builders' keys are all inside). */
  function RecordAll(table: seq<int>, keys: seq<int>, depth: int): (r: seq<int>)
    ensures |r| == |table|
    decreases |keys|
  {
    if keys == [] then table
    else
      var before := RecordAll(table, keys[..|keys| - 1], depth);
      var k := keys[|keys| - 1];
      if 0 <= k < |before| then Record(before, k, depth) else before
  }

  /** What each of those calls returned: whether the key's entry was still unset
      when its turn came. */
  function Unsets(table: seq<int>, keys: seq<int>, depth: int): (r: seq<bool>)
    ensures |r| == |keys|
    decreases |keys|
  {
    if keys == [] then []
    else
      var before := RecordAll(table, keys[..|keys| - 1], depth);
      var k := keys[|keys| - 1];
      Unsets(table, keys[..|keys| - 1], depth) + [0 <= k < |before| && before[k] == -1]
  }

  /** The entries of `xs` whose flag is set, in order: the lists `frontier.offer`
      receives. */
  function Select<T>(xs: seq<T>, flags: seq<bool>): (r: seq<T>)
    requires |xs| == |flags|
    ensures |r| <= |xs|
    decreases |xs|
  {
    if xs == [] then []
    else Select(xs[..|xs| - 1], flags[..|xs| - 1]) + (if flags[|xs| - 1] then [xs[|xs| - 1]] else [])
  }

  /** `parent + [a]` for every action `a` in `lo..hi`, in order. */
  function Extensions(parent: seq<int>, lo: int, hi: int): (r: seq<seq<int>>)
    requires lo <= hi
    ensures |r| == hi - lo
  {
    seq(hi - lo, j => parent + [lo + j])
  }

  /** Extensions over two adjacent ranges join into the extensions over both. */
  lemma ExtensionsAppend(parent: seq<int>, lo: int, mid: int, hi: int)
    requires lo <= mid <= hi
    ensures Extensions(parent, lo, hi) == Extensions(parent, lo, mid) + Extensions(parent, mid, hi)
  {
    var l, r := Extensions(parent, lo, hi), Extensions(parent, lo, mid) + Extensions(parent, mid, hi);
    forall j | 0 <= j < |l|
      ensures l[j] == r[j]
    {
      if j < mid - lo {
        assert r[j] == Extensions(parent, lo, mid)[j];
      } else {
        assert r[j] == Extensions(parent, mid, hi)[j - (mid - lo)];
      }
    }
  }

  /** One more action at the end of the range. */
  lemma ExtensionsSnoc(parent: seq<int>, lo: int, hi: int)
    requires lo <= hi
    ensures Extensions(parent, lo, hi + 1) == Extensions(parent, lo, hi) + [parent + [hi]]
  {
    ExtensionsAppend(parent, lo, hi, hi + 1);
    assert Extensions(parent, hi, hi + 1) == [parent + [hi]];
  }

  /** The 18 extensions of every parent, parent by parent. */
  function LevelTries(parents: seq<seq<int>>): (r: seq<seq<int>>)
    ensures |r| == 18 * |parents|
    decreases |parents|
  {
    if parents == [] then []
    else LevelTries(parents[..|parents| - 1]) + Extensions(parents[|parents| - 1], 0, 18)
  }

  /** A flag per list: either of the two calls' flags (the edge builder's two
      tables). */
  function Either(a: seq<bool>, b: seq<bool>): (r: seq<bool>)
    requires |a| == |b|
    ensures |r| == |a|
    decreases |a|
  {
    if a == [] then []
    else
      var n := |a| - 1;
      Either(a[..n], b[..n]) + [a[n] || b[n]]
  }

  /** Flag `j` of `Either(a, b)` is set exactly when `a[j]` or `b[j]` is. */
  lemma {:induction false} EitherAt(a: seq<bool>, b: seq<bool>, j: int)
    requires |a| == |b| && 0 <= j < |a|
    ensures Either(a, b)[j] == (a[j] || b[j])
    decreases |a|
  {
    var n := |a| - 1;
    if j < n {
      EitherAt(a[..n], b[..n], j);
    }
  }

  /** One more call: the table and the flags grow by that call alone. */
  lemma RunStep(table: seq<int>, keys: seq<int>, key: int, depth: int)
    ensures var before := RecordAll(table, keys, depth);
      0 <= key < |before| ==>
        RecordAll(table, keys + [key], depth) == Record(before, key, depth) &&
        Unsets(table, keys + [key], depth) == Unsets(table, keys, depth) + [before[key] == -1]
  {
    assert (keys + [key])[..|keys|] == keys;
  }

  /** Two runs, one after the other, are one run: the second starts from the table
      the first left. */
  lemma {:induction false} RunAppend(table: seq<int>, keys: seq<int>, more: seq<int>, depth: int)
    ensures RecordAll(table, keys + more, depth) == RecordAll(RecordAll(table, keys, depth), more, depth)
    ensures Unsets(table, keys + more, depth) == Unsets(table, keys, depth) + Unsets(RecordAll(table, keys, depth), more, depth)
    decreases |more|
  {
    if more == [] {
      assert keys + more == keys;
    } else {
      var init := more[..|more| - 1];
      RunAppend(table, keys, init, depth);
      assert (keys + more)[..|keys + more| - 1] == keys + init;
      assert (keys + more)[|keys + more| - 1] == more[|more| - 1];
    }
  }

  /** Where the run leaves an entry: `depth` at an unset entry some key reached,
      the old value everywhere else. */
  lemma {:induction false} RecordAllAt(table: seq<int>, keys: seq<int>, depth: int, k: int)
    requires 0 <= k < |table|
    ensures RecordAll(table, keys, depth)[k] == if table[k] == -1 && k in keys then depth else table[k]
    decreases |keys|
  {
    if keys != [] {
      var init := keys[..|keys| - 1];
      RecordAllAt(table, init, depth, k);
      assert keys == init + [keys[|keys| - 1]];
    }
  }

  /** The flags read off the table before the level: a call finds its entry unset
      exactly when the entry was unset before the level and no earlier call of the
      level reached the same key. */
  lemma {:induction false} UnsetsFirst(table: seq<int>, keys: seq<int>, depth: int)
    requires depth != -1
    requires forall j :: 0 <= j < |keys| ==> 0 <= keys[j] < |table|
    ensures forall j :: 0 <= j < |keys| ==>
      Unsets(table, keys, depth)[j] == (table[keys[j]] == -1 && keys[j] !in keys[..j])
    decreases |keys|
  {
    if keys != [] {
      var n := |keys| - 1;
      var init := keys[..n];
      UnsetsFirst(table, init, depth);
      RecordAllAt(table, init, depth, keys[n]);
      forall j | 0 <= j < |keys|
        ensures Unsets(table, keys, depth)[j] == (table[keys[j]] == -1 && keys[j] !in keys[..j])
      {
        if j < n {
          assert keys[j] == init[j] && keys[..j] == init[..j];
        } else {
          assert keys[..j] == init;
        }
      }
    }
  }

  /** Selecting from two runs in turn is selecting from the joined run. */
  lemma {:induction false} SelectAppend<T>(xs: seq<T>, flags: seq<bool>, ys: seq<T>, more: seq<bool>)
    requires |xs| == |flags| && |ys| == |more|
    ensures Select(xs + ys, flags + more) == Select(xs, flags) + Select(ys, more)
    decreases |ys|
  {
    if ys == [] {
      assert xs + ys == xs && flags + more == flags;
    } else {
      var n := |ys| - 1;
      SelectAppend(xs, flags, ys[..n], more[..n]);
      assert (xs + ys)[..|xs + ys| - 1] == xs + ys[..n];
      assert (flags + more)[..|xs + ys| - 1] == flags + more[..n];
    }
  }

  /** Exactly the flagged lists are selected: every selected list is a list whose
      flag is set, and every list whose flag is set is selected. */
  lemma {:induction false} SelectFrom<T>(xs: seq<T>, flags: seq<bool>)
    requires |xs| == |flags|
    ensures forall x :: x in Select(xs, flags) ==> exists j :: 0 <= j < |xs| && flags[j] && xs[j] == x
    ensures forall j :: 0 <= j < |xs| && flags[j] ==> xs[j] in Select(xs, flags)
    decreases |xs|
  {
    if xs != [] {
      var n := |xs| - 1;
      SelectFrom(xs[..n], flags[..n]);
      forall x | x in Select(xs, flags)
        ensures exists j :: 0 <= j < |xs| && flags[j] && xs[j] == x
      {
        if x in Select(xs[..n], flags[..n]) {
          var j :| 0 <= j < n && flags[..n][j] && xs[..n][j] == x;
          assert flags[j] && xs[j] == x;
        } else {
          assert flags[n] && xs[n] == x;
        }
      }
      forall j | 0 <= j < |xs| && flags[j]
        ensures xs[j] in Select(xs, flags)
      {
        if j < n {
          assert xs[j] == xs[..n][j] && flags[j] == flags[..n][j];
        }
      }
    }
  }

  /** One more list and its flag. */
  lemma SelectSnoc<T>(xs: seq<T>, flags: seq<bool>, x: T, b: bool)
    requires |xs| == |flags|
    ensures Select(xs + [x], flags + [b]) == Select(xs, flags) + (if b then [x] else [])
  {
    assert (xs + [x])[..|xs|] == xs;
    assert (flags + [b])[..|xs|] == flags;
  }

  /** One more call in a run: the list tried joins the selected ones exactly when
      the call found its entry unset. */
  lemma OfferStep<T>(table: seq<int>, keys: seq<int>, key: int, depth: int, tried: seq<T>, x: T,
                     base: seq<T>, next: seq<T>, added: bool)
    requires |tried| == |keys| && next == base + Select(tried, Unsets(table, keys, depth))
    requires 0 <= key < |table| && added == (RecordAll(table, keys, depth)[key] == -1)
    ensures RecordAll(table, keys + [key], depth) == Record(RecordAll(table, keys, depth), key, depth)
    ensures (if added then next + [x] else next) == base + Select(tried + [x], Unsets(table, keys + [key], depth))
  {
    RunStep(table, keys, key, depth);
    SelectSnoc(tried, Unsets(table, keys, depth), x, added);
  }

  /** The same for two tables run side by side: the list tried joins the selected
      ones exactly when either of its two calls found its entry unset. */
  lemma OfferStepEither<T>(table: seq<int>, keys: seq<int>, key: int, table': seq<int>, keys': seq<int>, key': int,
                           depth: int, tried: seq<T>, x: T, base: seq<T>, next: seq<T>, added: bool)
    requires |tried| == |keys| == |keys'|
    requires next == base + Select(tried, Either(Unsets(table, keys, depth), Unsets(table', keys', depth)))
    requires 0 <= key < |table| && 0 <= key' < |table'|
    requires added == (RecordAll(table, keys, depth)[key] == -1 || RecordAll(table', keys', depth)[key'] == -1)
    ensures RecordAll(table, keys + [key], depth) == Record(RecordAll(table, keys, depth), key, depth)
    ensures RecordAll(table', keys' + [key'], depth) == Record(RecordAll(table', keys', depth), key', depth)
    ensures (if added then next + [x] else next) ==
            base + Select(tried + [x], Either(Unsets(table, keys + [key], depth), Unsets(table', keys' + [key'], depth)))
  {
    RunStep(table, keys, key, depth);
    RunStep(table', keys', key', depth);
    var a, a' := Unsets(table, keys, depth), Unsets(table', keys', depth);
    var b, b' := RecordAll(table, keys, depth)[key] == -1, RecordAll(table', keys', depth)[key'] == -1;
    EitherSnoc(a, a', b, b');
    SelectSnocAfter(base, tried, Either(a, a'), x, added,
                    Either(Unsets(table, keys + [key], depth), Unsets(table', keys' + [key'], depth)));
  }

  /** One more pair of flags. */
  lemma EitherSnoc(a: seq<bool>, a': seq<bool>, b: bool, b': bool)
    requires |a| == |a'|
    ensures Either(a + [b], a' + [b']) == Either(a, a') + [b || b']
  {
    assert (a + [b])[..|a|] == a && (a' + [b'])[..|a|] == a';
  }

  /** One more list and its flag, after a prefix `base`. */
  lemma SelectSnocAfter<T>(base: seq<T>, xs: seq<T>, flags: seq<bool>, x: T, b: bool, flags': seq<bool>)
    requires |xs| == |flags| && flags' == flags + [b]
    ensures base + Select(xs + [x], flags') == if b then base + Select(xs, flags) + [x] else base + Select(xs, flags)
  {
    SelectSnoc(xs, flags, x, b);
    var selected := Select(xs, flags);
    if b {
      assert base + (selected + [x]) == base + selected + [x];
    } else {
      assert selected + [] == selected;
    }
  }

  /** Two runs joined: the lists the joined run selects are those the first run
      selects followed by those the second selects from the table the first left. */
  lemma RunJoin<T>(table: seq<int>, keys: seq<int>, more: seq<int>, depth: int, xs: seq<T>, ys: seq<T>)
    requires |xs| == |keys| && |ys| == |more|
    ensures RecordAll(table, keys + more, depth) == RecordAll(RecordAll(table, keys, depth), more, depth)
    ensures Select(xs + ys, Unsets(table, keys + more, depth)) ==
            Select(xs, Unsets(table, keys, depth)) + Select(ys, Unsets(RecordAll(table, keys, depth), more, depth))
  {
    RunAppend(table, keys, more, depth);
    SelectAppend(xs, Unsets(table, keys, depth), ys, Unsets(RecordAll(table, keys, depth), more, depth));
  }

  /** The same for two tables run side by side, a list being selected when either
      of its calls found an unset entry. */
  lemma RunJoinEither<T>(table: seq<int>, keys: seq<int>, more: seq<int>,
                         table': seq<int>, keys': seq<int>, more': seq<int>, depth: int, xs: seq<T>, ys: seq<T>)
    requires |xs| == |keys| == |keys'| && |ys| == |more| == |more'|
    ensures RecordAll(table, keys + more, depth) == RecordAll(RecordAll(table, keys, depth), more, depth)
    ensures RecordAll(table', keys' + more', depth) == RecordAll(RecordAll(table', keys', depth), more', depth)
    ensures Select(xs + ys, Either(Unsets(table, keys + more, depth), Unsets(table', keys' + more', depth))) ==
            Select(xs, Either(Unsets(table, keys, depth), Unsets(table', keys', depth))) +
            Select(ys, Either(Unsets(RecordAll(table, keys, depth), more, depth), Unsets(RecordAll(table', keys', depth), more', depth)))
  {
    RunAppend(table, keys, more, depth);
    RunAppend(table', keys', more', depth);
    SelectEither(xs, ys, Unsets(table, keys, depth), Unsets(table', keys', depth),
                 Unsets(RecordAll(table, keys, depth), more, depth), Unsets(RecordAll(table', keys', depth), more', depth));
  }

  lemma SelectEither<T>(xs: seq<T>, ys: seq<T>, a: seq<bool>, a': seq<bool>, b: seq<bool>, b': seq<bool>)
    requires |xs| == |a| == |a'| && |ys| == |b| == |b'|
    ensures Select(xs + ys, Either(a + b, a' + b')) == Select(xs, Either(a, a')) + Select(ys, Either(b, b'))
  {
    EitherAppend(a, a', b, b');
    SelectAppend(xs, Either(a, a'), ys, Either(b, b'));
  }

  lemma {:induction false} EitherAppend(a: seq<bool>, a': seq<bool>, b: seq<bool>, b': seq<bool>)
    requires |a| == |a'| && |b| == |b'|
    ensures Either(a + b, a' + b') == Either(a, a') + Either(b, b')
    decreases |b|
  {
    if b == [] {
      assert a + b == a && a' + b' == a' && Either(a, a') + [] == Either(a, a');
    } else {
      var n := |b| - 1;
      EitherAppend(a, a', b[..n], b'[..n]);
      assert (a + b)[..|a| + n] == a + b[..n] && (a' + b')[..|a| + n] == a' + b'[..n];
      assert (a + b)[|a| + n] == b[n] && (a' + b')[|a| + n] == b'[n];
    }
  }

  /** The level loop's lists grow by one parent's extensions. */
  lemma LevelSnoc(parents: seq<seq<int>>, p: int)
    requires 0 <= p < |parents|
    ensures LevelTries(parents[..p + 1]) == LevelTries(parents[..p]) + Extensions(parents[p], 0, 18)
  {
    assert parents[..p + 1][..p] == parents[..p];
  }

  /** The entries a run leaves: set ones are kept, and a depth in range keeps the
      table bounded. */
  lemma RunKept(table: seq<int>, keys: seq<int>, depth: int, max: int)
    requires depth != -1
    ensures Kept(table, RecordAll(table, keys, depth))
    ensures Bounded(table, max) && 0 <= depth <= max ==> Bounded(RecordAll(table, keys, depth), max)
  {
    forall k | 0 <= k < |table|
      ensures RecordAll(table, keys, depth)[k] == if table[k] == -1 && k in keys then depth else table[k]
    {
      RecordAllAt(table, keys, depth, k);
    }
  }

  /** After a run every key inside the table has an entry. */
  lemma RunFills(table: seq<int>, keys: seq<int>, depth: int)
    requires depth != -1
    ensures forall j :: 0 <= j < |keys| && 0 <= keys[j] < |table| ==> RecordAll(table, keys, depth)[keys[j]] != -1
  {
    forall j | 0 <= j < |keys| && 0 <= keys[j] < |table|
      ensures RecordAll(table, keys, depth)[keys[j]] != -1
    {
      RecordAllAt(table, keys, depth, keys[j]);
    }
  }

  /** A list whose call found its entry unset leaves `depth` there. */
  lemma RunHolds(table: seq<int>, keys: seq<int>, depth: int, j: int)
    requires depth != -1 && 0 <= j < |keys| && 0 <= keys[j] < |table|
    requires Unsets(table, keys, depth)[j]
    ensures RecordAll(table, keys, depth)[keys[j]] == depth
  {
    UnsetsAt(table, keys, depth, j);
    RecordAllAt(table, keys, depth, keys[j]);
  }

  /** A call finds its entry unset only if the entry was unset before the run. */
  lemma {:induction false} UnsetsAt(table: seq<int>, keys: seq<int>, depth: int, j: int)
    requires depth != -1 && 0 <= j < |keys|
    ensures Unsets(table, keys, depth)[j] ==> 0 <= keys[j] < |table| && table[keys[j]] == -1
    decreases |keys|
  {
    var n := |keys| - 1;
    if j < n {
      UnsetsAt(table, keys[..n], depth, j);
    } else if 0 <= keys[n] < |table| {
      RecordAllAt(table, keys[..n], depth, keys[n]);
    }
  }

  /** The `a`-th extension of parent `j` sits at `18 j + a` of the level's lists. */
  lemma {:induction false} LevelTriesAt(parents: seq<seq<int>>, j: int, a: int)
    requires 0 <= j < |parents| && 0 <= a < 18
    ensures 18 * j + a < |LevelTries(parents)| && LevelTries(parents)[18 * j + a] == parents[j] + [a]
    decreases |parents|
  {
    var n := |parents| - 1;
    var init := parents[..n];
    if j < n {
      LevelTriesAt(init, j, a);
      assert init[j] == parents[j];
    } else {
      assert LevelTries(parents)[18 * j + a] == Extensions(parents[n], 0, 18)[a];
    }
  }

  /** Every list of the level is a parent extended by an action below 18. */
  lemma {:induction false} LevelTriesFrom(parents: seq<seq<int>>)
    ensures forall x :: x in LevelTries(parents) ==> |x| >= 1 && x[..|x| - 1] in parents && 0 <= x[|x| - 1] < 18
    decreases |parents|
  {
    if parents != [] {
      var n := |parents| - 1;
      var init := parents[..n];
      LevelTriesFrom(init);
      forall x | x in LevelTries(parents)
        ensures |x| >= 1 && x[..|x| - 1] in parents && 0 <= x[|x| - 1] < 18
      {
        if x in LevelTries(init) {
          assert x[..|x| - 1] in init;
        } else {
          var e := Extensions(parents[n], 0, 18);
          var a :| 0 <= a < 18 && e[a] == x;
          assert x == parents[n] + [a] && x[..|x| - 1] == parents[n];
        }
      }
    }
  }
}
