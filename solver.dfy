/** `OptimalSolver`: a search over action lists from the cube to solve, ordered by
    cost plus the largest of three pattern-database entries, with a bound that starts
    at the root's heuristic and rises by one per round. A node carries the three
    indices its actions lead to, the actions, their number and its heuristic. */
module Solver {
  import opened Wrappers
  import opened Colors
  import opened Turns
  import opened StateIndex
  import opened Actions
  import opened Cube

  /* ---- Heuristic lookup ---- */

  /** The three tables the solver reads, corner table first, each of its full
      length with byte entries. */
  predicate TablesOk(tables: seq<seq<int>>) {
    |tables| == 3 && |tables[0]| == CornerStates && |tables[1]| == EdgeStates && |tables[2]| == EdgeStates &&
    forall i, j :: 0 <= i < 3 && 0 <= j < |tables[i]| ==> -128 <= tables[i][j] < 128
  }

  /** Three indices, each inside its table. */
  predicate StatesOk(states: seq<int>) {
    |states| == 3 && 0 <= states[0] < CornerStates && 0 <= states[1] < EdgeStates && 0 <= states[2] < EdgeStates
  }

  /** `Math.max(a, b)`. */
  function Max(a: int, b: int): (m: int)
    ensures m >= a && m >= b && (m == a || m == b)
  {
    if a >= b then a else b
  }

  /** The running maximum of `lookupHeuristic` after the first `n` tables, starting
      from -1. */
  function MaxEntry(tables: seq<seq<int>>, states: seq<int>, n: nat): (m: int)
    requires TablesOk(tables) && StatesOk(states) && n <= 3
    ensures -1 <= m < 128
    ensures forall i :: 0 <= i < n ==> tables[i][states[i]] <= m
    ensures m == -1 || exists i :: 0 <= i < n && tables[i][states[i]] == m
  {
    if n == 0 then -1 else Max(tables[n - 1][states[n - 1]], MaxEntry(tables, states, n - 1))
  }

  /** The heuristic of three indices: the largest of their entries, and
      `Integer.MAX_VALUE` when every entry is negative, that is, unset. */
  function Heuristic(tables: seq<seq<int>>, states: seq<int>): (h: int)
    requires TablesOk(tables) && StatesOk(states)
    ensures h == IntMax <==> forall i :: 0 <= i < 3 ==> tables[i][states[i]] < 0
    ensures h != IntMax ==>
      0 <= h < 128 && (exists i :: 0 <= i < 3 && tables[i][states[i]] == h) &&
      forall i :: 0 <= i < 3 ==> tables[i][states[i]] <= h
  {
    var m := MaxEntry(tables, states, 3);
    if m < 0 then IntMax else m
  }

  /* ---- Nodes ---- */

  datatype Node = Node(states: seq<int>, actions: seq<int>, cost: int, heuristic: int) {
    /** `isSolved`: no index is above zero. */
    function IsSolved(): (solved: bool)
      ensures solved <==> forall k :: 0 <= k < |states| ==> states[k] <= 0
    {
      NoneAboveZero(states)
    }

    /** The key `compareTo` orders by. */
    function Priority(): int {
      cost + heuristic
    }

    /** `compareTo` in unbounded arithmetic: its sign is the order of the two
        priorities. */
    function CompareTo(other: Node): (c: int)
      ensures c < 0 <==> Priority() < other.Priority()
      ensures c == 0 <==> Priority() == other.Priority()
      ensures c > 0 <==> Priority() > other.Priority()
    {
      Priority() - other.Priority()
    }

    /** `compareTo` as written: both sums and their difference in 32-bit `int`
        arithmetic, so each of them wraps around. */
    function CompareToAsWritten(other: Node): (c: int)
      ensures -0x8000_0000 <= c < 0x8000_0000
    {
      Int32(Int32(cost + heuristic) - Int32(other.cost + other.heuristic))
    }

    /** `equals(Node)`: `Arrays.equals` of the index arrays; actions, cost and
        heuristic play no part. */
    function Equals(other: Node): (same: bool)
      ensures same <==> |states| == |other.states| && forall k :: 0 <= k < |states| ==> states[k] == other.states[k]
    {
      states == other.states
    }
  }

  /** Within 32 bits the two comparisons agree. */
  lemma CompareToAgrees(a: Node, b: Node)
    requires -0x8000_0000 <= a.Priority() < 0x8000_0000 && -0x8000_0000 <= b.Priority() < 0x8000_0000
    requires -0x8000_0000 <= a.Priority() - b.Priority() < 0x8000_0000
    ensures a.CompareToAsWritten(b) == a.CompareTo(b)
  {
    assert Int32(a.cost + a.heuristic) == a.Priority();
    assert Int32(b.cost + b.heuristic) == b.Priority();
  }

  /** A node whose three entries are unset has heuristic `Integer.MAX_VALUE`; one
      action later its sum wraps to the most negative `int`, and `compareTo` ranks it
      before the solved root although its priority is the larger. */
  lemma CompareToOverflows()
    ensures var a, b := Node([1, 1, 1], [0], 1, IntMax), Node([0, 0, 0], [], 0, 0);
      a.CompareToAsWritten(b) < 0 && a.CompareTo(b) > 0
  {
    var a, b := Node([1, 1, 1], [0], 1, IntMax), Node([0, 0, 0], [], 0, 0);
    assert Int32(a.cost + a.heuristic) == -0x8000_0000;
    assert Int32(b.cost + b.heuristic) == 0;
  }

  /** `frontier.remove()`: the position of a node no other node precedes under
      `CompareTo`; the first such one. */
  function Least(frontier: seq<Node>): (m: nat)
    requires frontier != []
    ensures m < |frontier|
    ensures forall k :: 0 <= k < |frontier| ==> frontier[m].CompareTo(frontier[k]) <= 0
  {
    if |frontier| == 1 then 0
    else
      var m := Least(frontier[..|frontier| - 1]);
      if frontier[|frontier| - 1].CompareTo(frontier[m]) < 0 then |frontier| - 1 else m
  }

  /** `explored.contains(n)`: some node of the list equals `n`, by indices. */
  predicate Known(explored: seq<Node>, n: Node): (known: bool)
    ensures n in explored ==> known
    ensures known <==> exists k :: 0 <= k < |explored| && explored[k].states == n.states
  {
    exists k :: 0 <= k < |explored| && explored[k].Equals(n)
  }

  /** The children the loop of `solve` takes, in order: a child is taken when no
      node explored so far, nor a child taken before it, has its indices, or when
      its cost is below `depth`. */
  function Admitted(children: seq<Node>, explored: seq<Node>, depth: int): (taken: seq<Node>)
    ensures |taken| <= |children|
  {
    if children == [] then []
    else
      var prev := Admitted(children[..|children| - 1], explored, depth);
      var child := children[|children| - 1];
      if !Known(explored + prev, child) || child.cost < depth then prev + [child] else prev
  }

  /** Only children are taken, each below `depth` or unknown to the explored list;
      every child below `depth` is taken, and so is every child that neither the
      explored list nor an earlier child knows. */
  lemma {:induction false} AdmittedSpec(children: seq<Node>, explored: seq<Node>, depth: int)
    ensures var taken := Admitted(children, explored, depth);
      forall n :: n in taken ==> n in children && (n.cost < depth || !Known(explored, n))
    ensures var taken := Admitted(children, explored, depth);
      forall j :: 0 <= j < |children| && children[j].cost < depth ==> children[j] in taken
    ensures var taken := Admitted(children, explored, depth);
      forall j :: 0 <= j < |children| && !Known(explored + children[..j], children[j]) ==> children[j] in taken
  {
    if children != [] {
      var init := children[..|children| - 1];
      var prev := Admitted(init, explored, depth);
      var child := children[|children| - 1];
      var taken := Admitted(children, explored, depth);
      AdmittedSpec(init, explored, depth);
      AdmittedKnown(init, prev, explored, child);
      KnownPrefix(explored, prev, child);
      assert children == init + [child];
      assert forall m :: m in prev ==> m in taken;
      forall j | 0 <= j < |children|
        ensures children[j].cost < depth ==> children[j] in taken
        ensures !Known(explored + children[..j], children[j]) ==> children[j] in taken
      {
        if j < |init| {
          assert children[..j] == init[..j] && children[j] == init[j];
        } else {
          assert children[..j] == init;
        }
      }
    }
  }

  /** A node known to a list is known to any longer list. */
  lemma KnownPrefix(explored: seq<Node>, more: seq<Node>, n: Node)
    ensures Known(explored, n) ==> Known(explored + more, n)
  {
    if Known(explored, n) {
      var k :| 0 <= k < |explored| && explored[k].Equals(n);
      assert (explored + more)[k] == explored[k];
    }
  }

  /** A node known to the explored list and the children taken from `init` is known
      to the explored list and `init`. */
  lemma AdmittedKnown(init: seq<Node>, prev: seq<Node>, explored: seq<Node>, n: Node)
    requires forall m :: m in prev ==> m in init
    ensures Known(explored + prev, n) ==> Known(explored + init, n)
  {
    if Known(explored + prev, n) {
      var k :| 0 <= k < |explored + prev| && (explored + prev)[k].Equals(n);
      if k < |explored| {
        assert (explored + init)[k] == explored[k];
      } else {
        var m := prev[k - |explored|];
        assert m in prev && m in init;
        var i :| 0 <= i < |init| && init[i] == m;
        assert (explored + init)[|explored| + i] == m;
      }
    }
  }

  /** One more child: it is taken after those taken from the children before it,
      or not at all. */
  lemma AdmittedStep(children: seq<Node>, explored: seq<Node>, depth: int, j: int)
    requires 0 <= j < |children|
    ensures var prev := Admitted(children[..j], explored, depth);
      Admitted(children[..j + 1], explored, depth) ==
        if !Known(explored + prev, children[j]) || children[j].cost < depth then prev + [children[j]] else prev
  {
    assert children[..j + 1][..j] == children[..j];
  }

  /** The loop over the children in `solve`: each child taken joins the frontier and
      the explored list. */
  method Admit(children: seq<Node>, frontier: seq<Node>, explored: seq<Node>, depth: int)
    returns (frontier': seq<Node>, explored': seq<Node>)
    ensures frontier' == frontier + Admitted(children, explored, depth)
    ensures explored' == explored + Admitted(children, explored, depth)
  {
    frontier', explored' := frontier, explored;
    for j := 0 to |children|
      invariant frontier' == frontier + Admitted(children[..j], explored, depth)
      invariant explored' == explored + Admitted(children[..j], explored, depth)
    {
      var child := children[j];
      AdmittedStep(children, explored, depth, j);
      if !Known(explored', child) || child.cost < depth {
        frontier' := frontier' + [child];
        explored' := explored' + [child];
      }
    }
    assert children[..|children|] == children;
  }

  /* ---- Expansion ---- */

  /** A node of the search from the cube `root`: its indices are those of the cube
      after its actions, its cost is their number and its heuristic is looked up. */
  ghost predicate Consistent(root: seq<seq<int>>, tables: seq<seq<int>>, n: Node) {
    AllColorsOk(root) && LegalCube(root) && TablesOk(tables) && ValidActions(n.actions) &&
    n.cost == |n.actions| && LegalCube(Reached(root, n.actions)) &&
    n.states == CubeStates(Reached(root, n.actions)) && n.heuristic == Heuristic(tables, n.states)
  }

  /** One more action keeps the actions valid and the cube reached legal. */
  lemma ChildLegal(root: seq<seq<int>>, actions: seq<int>, a: int)
    requires AllColorsOk(root) && LegalCube(root) && ValidActions(actions) && IsAction(a)
    ensures ValidActions(actions + [a]) && LegalCube(Reached(root, actions + [a]))
  {
    var longer := actions + [a];
    assert forall k :: 0 <= k < |actions| ==> longer[k] == actions[k];
    FacesLegal(root, Moves(longer));
  }

  /** The child `expand` builds for action `a`. */
  ghost function Child(root: seq<seq<int>>, tables: seq<seq<int>>, parent: Node, a: int): (child: Node)
    requires Consistent(root, tables, parent) && IsAction(a)
    ensures Consistent(root, tables, child)
    ensures child.actions == parent.actions + [a] && child.cost == parent.cost + 1
  {
    var actions := parent.actions + [a];
    ChildLegal(root, parent.actions, a);
    var states := CubeStates(Reached(root, actions));
    Node(states, actions, parent.cost + 1, Heuristic(tables, states))
  }

  /** The child for `i + 1` turns of face `f` carries the indices of the parent's
      cube after those turns. */
  lemma ChildTurns(root: seq<seq<int>>, tables: seq<seq<int>>, parent: Node, f: int, i: int)
    requires Consistent(root, tables, parent) && 0 <= f < 6 && 0 <= i < 3
    ensures LegalCube(TurnTimes(Reached(root, parent.actions), f, i + 1))
    ensures Child(root, tables, parent, 3 * f + i).states == CubeStates(TurnTimes(Reached(root, parent.actions), f, i + 1))
  {
    FacesInOrder(f, i);
    ReachedSnoc(root, parent.actions, f, i + 1);
    var child := Child(root, tables, parent, 3 * f + i);
  }

  /** `children` are the first children `expand` builds for `node`, in order. */
  ghost predicate ChildrenOf(root: seq<seq<int>>, tables: seq<seq<int>>, node: Node, children: seq<Node>)
    requires Consistent(root, tables, node)
  {
    |children| <= 18 && forall a :: 0 <= a < |children| ==> children[a] == Child(root, tables, node, a)
  }

  /** The node built after `i + 1` turns of face `f` is the next child. */
  lemma ChildrenSnoc(root: seq<seq<int>>, tables: seq<seq<int>>, node: Node, children: seq<Node>,
                     f: int, i: int, states: seq<int>, h: int)
    requires Consistent(root, tables, node) && ChildrenOf(root, tables, node, children)
    requires 0 <= f < 6 && 0 <= i < 3 && |children| == 3 * f + i
    requires LegalCube(TurnTimes(Reached(root, node.actions), f, i + 1))
    requires states == CubeStates(TurnTimes(Reached(root, node.actions), f, i + 1))
    requires h == Heuristic(tables, states)
    ensures ChildrenOf(root, tables, node, children + [Node(states, node.actions + [Encode(f, i + 1)], node.cost + 1, h)])
  {
    ChildTurns(root, tables, node, f, i);
    FacesInOrder(f, i);
    var child := Node(states, node.actions + [Encode(f, i + 1)], node.cost + 1, h);
    var expected := Child(root, tables, node, 3 * f + i);
    assert expected.states == states && expected.actions == child.actions;
    assert expected.heuristic == h && expected.cost == child.cost;
    assert expected == child;
    var all := children + [child];
    forall a | 0 <= a < |all|
      ensures all[a] == Child(root, tables, node, a)
    {
      if a < |children| {
        assert all[a] == children[a];
      } else {
        assert a == 3 * f + i && all[a] == child;
      }
    }
  }

  /** Every child is a node of the search. */
  lemma ChildrenConsistent(root: seq<seq<int>>, tables: seq<seq<int>>, node: Node, children: seq<Node>)
    requires Consistent(root, tables, node) && ChildrenOf(root, tables, node, children)
    ensures forall n :: n in children ==> Consistent(root, tables, n)
  {
    forall n | n in children
      ensures Consistent(root, tables, n)
    {
      var a :| 0 <= a < |children| && children[a] == n;
      assert n == Child(root, tables, node, a);
    }
  }

  /** Every node of a frontier is a node of the search. */
  ghost predicate AllConsistent(root: seq<seq<int>>, tables: seq<seq<int>>, nodes: seq<Node>) {
    forall j :: 0 <= j < |nodes| ==> Consistent(root, tables, nodes[j])
  }

  /** None of `nodes` is solved. */
  predicate AllUnsolved(nodes: seq<Node>) {
    forall j :: 0 <= j < |nodes| ==> !nodes[j].IsSolved()
  }

  /** An unsolved node appended to unsolved nodes. */
  lemma UnsolvedSnoc(nodes: seq<Node>, node: Node)
    requires AllUnsolved(nodes) && !node.IsSolved()
    ensures AllUnsolved(nodes + [node])
  {
    var longer := nodes + [node];
    forall j | 0 <= j < |longer|
      ensures !longer[j].IsSolved()
    {
      if j < |nodes| {
        assert longer[j] == nodes[j];
      }
    }
  }
  /** A node appended to unsolved nodes, when it is unsolved too; a prefix kept. */
  lemma UnsolvedAfter(nodes: seq<Node>, node: Node)
    requires !node.IsSolved()
    ensures AllUnsolved(nodes) ==> AllUnsolved(nodes + [node])
    ensures nodes <= nodes + [node]
  {
    if AllUnsolved(nodes) {
      UnsolvedSnoc(nodes, node);
    }
  }


  /** A frontier of one node of the search. */
  lemma SingleConsistent(root: seq<seq<int>>, tables: seq<seq<int>>, node: Node)
    requires Consistent(root, tables, node)
    ensures AllConsistent(root, tables, [node])
  {
    assert [node][0] == node;
  }

  /** Taking a node out of a frontier leaves a frontier of the search. */
  lemma RemoveConsistent(root: seq<seq<int>>, tables: seq<seq<int>>, nodes: seq<Node>, m: int)
    requires AllConsistent(root, tables, nodes) && 0 <= m < |nodes|
    ensures Consistent(root, tables, nodes[m]) && AllConsistent(root, tables, nodes[..m] + nodes[m + 1..])
  {
    var rest := nodes[..m] + nodes[m + 1..];

    forall j | 0 <= j < |rest|
      ensures Consistent(root, tables, rest[j])
    {
      if j < m {
        assert rest[j] == nodes[j];
      } else {
        assert rest[j] == nodes[j + 1];
      }
    }
  }

  /** The children admitted to a frontier of the search are nodes of the search. */
  lemma AdmitConsistent(root: seq<seq<int>>, tables: seq<seq<int>>, node: Node, children: seq<Node>,
                        frontier: seq<Node>, explored: seq<Node>, depth: int, frontier': seq<Node>)
    requires Consistent(root, tables, node) && ChildrenOf(root, tables, node, children)
    requires AllConsistent(root, tables, frontier)
    requires frontier' == frontier + Admitted(children, explored, depth)
    ensures AllConsistent(root, tables, frontier')
  {

    ChildrenConsistent(root, tables, node, children);
    AdmittedSpec(children, explored, depth);
    var taken := Admitted(children, explored, depth);
    forall j | 0 <= j < |frontier'|
      ensures Consistent(root, tables, frontier'[j])
    {
      if j < |frontier| {
        assert frontier'[j] == frontier[j];
      } else {
        assert frontier'[j] == taken[j - |frontier|] && frontier'[j] in taken;
      }
    }
  }

  /** The 18 children `expand` builds for a node of the search, child `a` for
      action `a`. */
  ghost function Expansion(root: seq<seq<int>>, tables: seq<seq<int>>, node: Node): seq<Node> {
    if Consistent(root, tables, node) then
      seq(18, a requires 0 <= a < 18 && Consistent(root, tables, node) => Child(root, tables, node, a))
    else []
  }

  /** A node has one list of 18 children. */
  lemma ChildrenUnique(root: seq<seq<int>>, tables: seq<seq<int>>, node: Node, children: seq<Node>)
    requires Consistent(root, tables, node) && ChildrenOf(root, tables, node, children) && |children| == 18
    ensures children == Expansion(root, tables, node)
  {
    var kids := Expansion(root, tables, node);
    assert forall a :: 0 <= a < 18 ==> children[a] == kids[a];
  }

  /** The children of a node of the search admitted to a frontier of the search
      leave a frontier of the search. */
  lemma ExpansionConsistent(root: seq<seq<int>>, tables: seq<seq<int>>, node: Node, queue: seq<Node>,
                            seen: seq<Node>, depth: int, queue': seq<Node>)
    requires Consistent(root, tables, node) && AllConsistent(root, tables, queue)
    requires queue' == queue + Admitted(Expansion(root, tables, node), seen, depth)
    ensures AllConsistent(root, tables, queue')
  {
    var children := Expansion(root, tables, node);
    assert ChildrenOf(root, tables, node, children);
    AdmitConsistent(root, tables, node, children, queue, seen, depth, queue');
  }

  /** Where the loop of the inner `solve` ends: the node it returns, if any; whether
      the frontier ran empty; the nodes it expanded, in order; and the rest of the
      frontier and the explored list as they were when it stopped. */
  datatype Outcome = Outcome(result: Option<Node>, emptied: bool, expanded: seq<Node>,
                             left: seq<Node>, known: seq<Node>)

  /** The loop of the inner `solve` from the taken node `node`, with the rest of the
      frontier `queue` and the explored list `seen`, after the nodes `trail` were
      expanded, when at most `fuel` nodes may be: a solved node ends it. */
  ghost function Run(root: seq<seq<int>>, tables: seq<seq<int>>, node: Node, queue: seq<Node>,
                     seen: seq<Node>, depth: int, fuel: nat, trail: seq<Node>): (r: Outcome)
    requires |trail| <= fuel
    ensures r.emptied <==> r.result.Some? && !r.result.value.IsSolved()
    ensures |trail| <= |r.expanded| <= fuel
    ensures r.result.None? ==> |r.expanded| == fuel
    decreases fuel - |trail|, 2
  {
    if node.IsSolved() then Outcome(Some(node), false, trail, queue, seen)
    else RunUnsolved(root, tables, node, queue, seen, depth, fuel, trail)
  }

  /** The loop from an unsolved node: running out of expansions ends it; otherwise a
      pass of the loop body follows. */
  ghost function RunUnsolved(root: seq<seq<int>>, tables: seq<seq<int>>, node: Node, queue: seq<Node>,
                             seen: seq<Node>, depth: int, fuel: nat, trail: seq<Node>): (r: Outcome)
    requires |trail| <= fuel && !node.IsSolved()
    ensures r.emptied <==> r.result.Some? && !r.result.value.IsSolved()
    ensures |trail| <= |r.expanded| <= fuel
    ensures r.result.None? ==> |r.expanded| == fuel
    decreases fuel - |trail|, 1
  {
    if |trail| == fuel then Outcome(None, false, trail, queue, seen)
    else AfterPass(root, tables, node, queue, seen, depth, fuel, trail)
  }

  /** A pass of the loop body on the unsolved node `node`, and the run after it: the
      node is expanded and its admitted children join the frontier and the explored
      list; the run goes on from the least node of the frontier, or ends with `node`
      when the frontier is empty. */
  ghost function AfterPass(root: seq<seq<int>>, tables: seq<seq<int>>, node: Node, queue: seq<Node>,
                           seen: seq<Node>, depth: int, fuel: nat, trail: seq<Node>): (r: Outcome)
    requires |trail| < fuel && !node.IsSolved()
    ensures r.emptied <==> r.result.Some? && !r.result.value.IsSolved()
    ensures |trail| < |r.expanded| <= fuel
    ensures r.result.None? ==> |r.expanded| == fuel
    decreases fuel - |trail|, 0
  {
    var added := Admitted(Expansion(root, tables, node), seen, depth);
    var grown := queue + added;
    if grown == [] then Outcome(Some(node), true, trail + [node], queue, seen)
    else
      var m := Least(grown);
      Run(root, tables, grown[m], grown[..m] + grown[m + 1..], seen + added, depth, fuel, trail + [node])
  }

  /** A run only appends to the nodes expanded before it, and expands only
      unsolved nodes. */
  lemma {:induction false} RunExpands(root: seq<seq<int>>, tables: seq<seq<int>>, node: Node, queue: seq<Node>,
                                      seen: seq<Node>, depth: int, fuel: nat, trail: seq<Node>)
    requires |trail| <= fuel
    ensures var r := Run(root, tables, node, queue, seen, depth, fuel, trail);
      trail <= r.expanded && (AllUnsolved(trail) ==> AllUnsolved(r.expanded))
    decreases fuel - |trail|
  {
    if !node.IsSolved() && |trail| < fuel {
      PassExpands(root, tables, node, queue, seen, depth, fuel, trail);
    }
  }

  /** A pass appends its node to the nodes expanded before it, and the run after it
      only appends more. */
  lemma {:induction false} PassExpands(root: seq<seq<int>>, tables: seq<seq<int>>, node: Node, queue: seq<Node>,
                                       seen: seq<Node>, depth: int, fuel: nat, trail: seq<Node>)
    requires |trail| < fuel && !node.IsSolved()
    ensures var r := AfterPass(root, tables, node, queue, seen, depth, fuel, trail);
      trail + [node] <= r.expanded && (AllUnsolved(trail) ==> AllUnsolved(r.expanded))
    decreases fuel - |trail|, 0
  {
    var added := Admitted(Expansion(root, tables, node), seen, depth);
    var grown := queue + added;
    UnsolvedAfter(trail, node);
    if grown != [] {
      var m := Least(grown);
      var rest := grown[..m] + grown[m + 1..];
      RunExpands(root, tables, grown[m], rest, seen + added, depth, fuel, trail + [node]);
      assert AfterPass(root, tables, node, queue, seen, depth, fuel, trail) ==
             Run(root, tables, grown[m], rest, seen + added, depth, fuel, trail + [node]);
    }
  }

  /** A run that ends because the frontier ran empty ends with the node whose
      admitted children, with the rest of the frontier, were none. */
  lemma {:induction false} RunEmptied(root: seq<seq<int>>, tables: seq<seq<int>>, node: Node, queue: seq<Node>,
                                      seen: seq<Node>, depth: int, fuel: nat, trail: seq<Node>)
    requires |trail| <= fuel
    ensures var r := Run(root, tables, node, queue, seen, depth, fuel, trail);
      r.emptied ==> r.left + Admitted(Expansion(root, tables, r.result.value), r.known, depth) == []
    decreases fuel - |trail|
  {
    if !node.IsSolved() && |trail| < fuel {
      var r := Run(root, tables, node, queue, seen, depth, fuel, trail);
      assert r == RunUnsolved(root, tables, node, queue, seen, depth, fuel, trail);
      assert r == AfterPass(root, tables, node, queue, seen, depth, fuel, trail);
      var added := Admitted(Expansion(root, tables, node), seen, depth);
      var grown := queue + added;
      if grown != [] {
        var m := Least(grown);
        var rest := grown[..m] + grown[m + 1..];
        RunEmptied(root, tables, grown[m], rest, seen + added, depth, fuel, trail + [node]);
        assert r == Run(root, tables, grown[m], rest, seen + added, depth, fuel, trail + [node]);
      }
    }
  }

  /** A solved node, or no expansion left, ends the run at once. */
  lemma RunStops(root: seq<seq<int>>, tables: seq<seq<int>>, node: Node, queue: seq<Node>, seen: seq<Node>,
                 depth: int, fuel: nat, trail: seq<Node>)
    requires |trail| <= fuel && (node.IsSolved() || |trail| == fuel)
    ensures Run(root, tables, node, queue, seen, depth, fuel, trail) ==
            Outcome(if node.IsSolved() then Some(node) else None, false, trail, queue, seen)
  {
  }

  /** What a pass of the loop body leaves: the explored list `seen'` grows by the
      admitted children of `node`, which join the rest of the frontier `queue`; the
      least node of the grown frontier is taken out as `next` with the rest left in
      `queue'`, or nothing is taken when the grown frontier is empty. */
  ghost predicate Advanced(root: seq<seq<int>>, tables: seq<seq<int>>, node: Node, queue: seq<Node>,
                           seen: seq<Node>, depth: int, next: Option<Node>, queue': seq<Node>, seen': seq<Node>) {
    var added := Admitted(Expansion(root, tables, node), seen, depth);
    var grown := queue + added;
    seen' == seen + added &&
    (grown == [] ==> next.None? && queue' == []) &&
    (grown != [] ==> next == Some(grown[Least(grown)]) &&
                     queue' == grown[..Least(grown)] + grown[Least(grown) + 1..])
  }

  /** One pass of the loop in a run that ends in `outcome`: when `next`, `queue'`
      and `seen'` are what `Advance` returns for the pass, the run ends with `node`
      if nothing is left to take, and otherwise goes on from the least node of the
      grown frontier to the same end. */
  lemma RunStep(root: seq<seq<int>>, tables: seq<seq<int>>, node: Node, queue: seq<Node>, seen: seq<Node>,
                depth: int, fuel: nat, trail: seq<Node>, next: Option<Node>, queue': seq<Node>,
                seen': seq<Node>, outcome: Outcome)
    requires !node.IsSolved() && |trail| < fuel
    requires Run(root, tables, node, queue, seen, depth, fuel, trail) == outcome
    ensures Advanced(root, tables, node, queue, seen, depth, next, queue', seen') ==>
      ((next.None? ==> outcome == Outcome(Some(node), true, trail + [node], queue, seen)) &&
       (next.Some? ==> Run(root, tables, next.value, queue', seen', depth, fuel, trail + [node]) == outcome))
  {
    assert outcome == RunUnsolved(root, tables, node, queue, seen, depth, fuel, trail);
    assert outcome == AfterPass(root, tables, node, queue, seen, depth, fuel, trail);
  }

  /** The inner `solve` on `frontier` and `explored`: the least node is taken out of
      the frontier and the loop runs from it, expanding it first unless it is solved. */
  ghost function SearchRun(root: seq<seq<int>>, tables: seq<seq<int>>, frontier: seq<Node>,
                           explored: seq<Node>, depth: int, fuel: nat): (r: Outcome)
    requires frontier != []
    ensures r.emptied <==> r.result.Some? && !r.result.value.IsSolved()
    ensures |r.expanded| <= fuel && (r.result.None? ==> |r.expanded| == fuel)
    ensures AllUnsolved(r.expanded)
  {
    var m := Least(frontier);
    RunExpands(root, tables, frontier[m], frontier[..m] + frontier[m + 1..], explored, depth, fuel, []);
    Run(root, tables, frontier[m], frontier[..m] + frontier[m + 1..], explored, depth, fuel, [])
  }

  /** When the search ends because the frontier ran empty, the node it returns
      admitted no children and the rest of the frontier was empty. */
  lemma SearchRunEmptied(root: seq<seq<int>>, tables: seq<seq<int>>, frontier: seq<Node>,
                         explored: seq<Node>, depth: int, fuel: nat)
    requires frontier != []
    ensures var r := SearchRun(root, tables, frontier, explored, depth, fuel);
      r.emptied ==> r.left + Admitted(Expansion(root, tables, r.result.value), r.known, depth) == []
  {
    var m := Least(frontier);
    RunEmptied(root, tables, frontier[m], frontier[..m] + frontier[m + 1..], explored, depth, fuel, []);
  }

  /** The search starts from the least node of the frontier: it returns that node at
      once when it is solved, and otherwise expands it first. */
  lemma SearchRunStarts(root: seq<seq<int>>, tables: seq<seq<int>>, frontier: seq<Node>,
                        explored: seq<Node>, depth: int, fuel: nat)
    requires frontier != []
    ensures var r := SearchRun(root, tables, frontier, explored, depth, fuel);
      var first := frontier[Least(frontier)];
      (first.IsSolved() ==> r.result == Some(first) && r.expanded == []) &&
      (!first.IsSolved() && fuel > 0 ==> r.expanded != [] && r.expanded[0] == first)
  {
    var m := Least(frontier);
    var rest := frontier[..m] + frontier[m + 1..];
    var r := SearchRun(root, tables, frontier, explored, depth, fuel);
    assert r == Run(root, tables, frontier[m], rest, explored, depth, fuel, []);
    if !frontier[m].IsSolved() && fuel > 0 {
      assert r == RunUnsolved(root, tables, frontier[m], rest, explored, depth, fuel, []);
      assert r == AfterPass(root, tables, frontier[m], rest, explored, depth, fuel, []);
      PassExpands(root, tables, frontier[m], rest, explored, depth, fuel, []);
      assert ([] + [frontier[m]])[0] == frontier[m];
    }
  }

  /** Part way through face `f` of `expand`: the working cube is the node's cube
      after `i` turns of `f`, and the children so far are the first `3 * f + i`. */
  ghost predicate FaceDone(root: seq<seq<int>>, tables: seq<seq<int>>, node: Node, f: int, i: int,
                           values: seq<seq<int>>, children: seq<Node>) {
    Consistent(root, tables, node) && 0 <= f < 6 && 0 <= i <= 3 &&
    values == TurnTimes(Reached(root, node.actions), f, i) &&
    |children| == 3 * f + i && ChildrenOf(root, tables, node, children)
  }

  /** Between two faces of `expand`: the working cube is the node's cube and the
      children so far are those of the first `f` faces. */
  ghost predicate FaceStart(root: seq<seq<int>>, tables: seq<seq<int>>, node: Node, f: int,
                            values: seq<seq<int>>, children: seq<Node>) {
    Consistent(root, tables, node) && 0 <= f <= 6 && values == Reached(root, node.actions) &&
    |children| == 3 * f && ChildrenOf(root, tables, node, children)
  }

  /** One more turn of face `f` within a face of `expand`, and the child it gives. */
  lemma FaceTurned(root: seq<seq<int>>, tables: seq<seq<int>>, node: Node, f: int, i: int,
                   values: seq<seq<int>>, values': seq<seq<int>>, children: seq<Node>, states: seq<int>, h: int)
    requires 0 <= f < 6 && i < 3 && FaceDone(root, tables, node, f, i, values, children)
    requires AllColorsOk(values) && values' == TurnAll(values, Faces[f]) && LegalCube(values')
    requires TablesOk(tables) && states == CubeStates(values') && StatesOk(states) && h == Heuristic(tables, states)
    ensures FaceDone(root, tables, node, f, i + 1, values',
                     children + [Node(states, node.actions + [Encode(Faces[f], i + 1)], node.cost + 1, h)])
  {
    FacesInOrder(f, i);
    ChildTurns(root, tables, node, f, i);
    ChildrenSnoc(root, tables, node, children, f, i, states, h);
  }

  /** A face of `expand` starts with no turn made. */
  lemma FaceBegins(root: seq<seq<int>>, tables: seq<seq<int>>, node: Node, f: int,
                   values: seq<seq<int>>, children: seq<Node>)
    requires f < 6 && FaceStart(root, tables, node, f, values, children)
    ensures FaceDone(root, tables, node, f, 0, values, children)
  {
  }

  /** After three turns of face `f` and the cube restored, the next face starts. */
  lemma FaceEnds(root: seq<seq<int>>, tables: seq<seq<int>>, node: Node, f: int,
                 values: seq<seq<int>>, children: seq<Node>)
    requires FaceDone(root, tables, node, f, 3, values, children)
    ensures FaceStart(root, tables, node, f + 1, Reached(root, node.actions), children)
  {
  }

  /** A fourth turn of any face restores a legal cube. */
  lemma FourTurnsRestoreCube(v: seq<seq<int>>, face: int)
    requires AllColorsOk(v) && LegalCube(v)
    ensures TurnTimes(v, face, 4) == v
  {
    forall k | 0 <= k < |v|
      ensures AroundFace(v[k], face)
    {
      if k < 8 {
        assert v[k] == v[..8][k];
      } else {
        assert v[k] == v[8..][k - 8];
      }
      CoherentAroundFace(v[k], face);
    }
    FourTurnsRestore(v, face);
  }

  /** The loops at the start of `expand`: every face of every decoded action turned
      in order. */
  method ApplyActions(c: RubiksCube, actions: seq<int>)
    requires c.Valid() && ValidActions(actions)
    modifies c.corners, c.edges[0], c.edges[1]
    ensures c.edges[0] == old(c.edges[0]) && c.edges[1] == old(c.edges[1])
    ensures c.Valid() && c.Values() == Reached(old(c.Values()), actions)
    ensures old(c.Legal()) ==> c.Legal()
  {
    ghost var start := c.Values();
    ghost var legal := c.Legal();
    ghost var edges, edges' := c.edges[0], c.edges[1];
    for j := 0 to |actions|
      invariant c.edges[0] == edges && c.edges[1] == edges'
      invariant c.Valid() && c.Values() == Reached(start, actions[..j])
      invariant legal ==> c.Legal()
    {
      var colors := Decode(actions[j]);
      ghost var before := c.Values();
      for i := 0 to |colors|
        invariant c.edges[0] == edges && c.edges[1] == edges'
        invariant c.Valid() && c.Values() == ApplyFaces(before, colors[..i])
        invariant legal ==> c.Legal()
      {
        c.RotateFace(colors[i]);
        assert colors[..i + 1][..i] == colors[..i];
      }
      assert colors[..|colors|] == colors;
      ReachedStep(start, actions, j);
    }
    assert actions[..|actions|] == actions;
  }

  class OptimalSolver {
    /** The three tables, read once; reading them from files is not part of this
        model, so they are given. */
    const heuristics: seq<seq<int>>
    /** The cube `solve` was last called on. */
    var cube: RubiksCube?

    constructor (tables: seq<seq<int>>)
      requires TablesOk(tables)
      ensures heuristics == tables && cube == null
    {
      heuristics := tables;
      cube := null;
    }

    /** `lookupHeuristic`: the running maximum over the three tables, replaced by
        `Integer.MAX_VALUE` when it stays negative. */
    method LookupHeuristic(states: seq<int>) returns (heuristic: int)
      requires TablesOk(heuristics) && StatesOk(states)
      ensures heuristic == Heuristic(heuristics, states)
    {
      heuristic := -1;
      for i := 0 to 3
        invariant heuristic == MaxEntry(heuristics, states, i)
      {
        heuristic := Max(heuristics[i][states[i]], heuristic);
      }
      if heuristic < 0 {
        heuristic := IntMax;
      }
    }

    /** The body of the loop of `expand`: one more turn of face `f`, after which the
        child for `i + 1` turns carries the indices of the turned cube, the parent's
        actions and the move, one more action and the heuristic of its indices. */
    method TurnAndAdd(c: RubiksCube, ghost root: seq<seq<int>>, node: Node, f: int, i: int, children: seq<Node>)
      returns (more: seq<Node>)
      requires i < 3 && c.Legal() && FaceDone(root, heuristics, node, f, i, c.Values(), children)
      modifies c.corners, c.edges[0], c.edges[1]
      ensures c.edges[0] == old(c.edges[0]) && c.edges[1] == old(c.edges[1])
      ensures c.Legal() && FaceDone(root, heuristics, node, f, i + 1, c.Values(), more)
    {
      ghost var before := c.Values();
      c.RotateFace(Faces[f]);
      c.LegalStatesDefined();
      var states := c.GetStates();
      var actions := node.actions + [Encode(Faces[f], i + 1)];
      var h := LookupHeuristic(states);
      FaceTurned(root, heuristics, node, f, i, before, c.Values(), children, states, h);
      more := children + [Node(states, actions, node.cost + 1, h)];
    }

    /** The fourth turn at the end of a face of `expand`: it brings the working cube
        back to where the three turns started. */
    method RestoreFace(c: RubiksCube, ghost start: seq<seq<int>>, f: int)
      requires 0 <= f < 6 && c.Legal() && AllColorsOk(start) && LegalCube(start) && c.Values() == TurnTimes(start, f, 3)
      modifies c.corners, c.edges[0], c.edges[1]
      ensures c.edges[0] == old(c.edges[0]) && c.edges[1] == old(c.edges[1])
      ensures c.Legal() && c.Values() == start
    {
      ghost var turned := c.Values();
      c.RotateFace(Faces[f]);
      FourTurnsRestoreCube(start, f);
      assert Faces[f] == f;
      calc {
        c.Values();
        TurnAll(turned, f);
        TurnTimes(start, f, 4);
        start;
      }
    }

    /** One face of `expand`: three turns, a child after each, and a fourth turn that
        restores the working cube. */
    method ExpandFace(c: RubiksCube, ghost root: seq<seq<int>>, node: Node, f: int, children: seq<Node>)
      returns (more: seq<Node>)
      requires f < 6 && c.Legal() && FaceStart(root, heuristics, node, f, c.Values(), children)
      modifies c.corners, c.edges[0], c.edges[1]
      ensures c.edges[0] == old(c.edges[0]) && c.edges[1] == old(c.edges[1])
      ensures c.Legal() && FaceStart(root, heuristics, node, f + 1, c.Values(), more)
    {
      ghost var start := c.Values();
      ghost var edges, edges' := c.edges[0], c.edges[1];
      FaceBegins(root, heuristics, node, f, start, children);
      more := children;
      for i := 0 to 3
        invariant c.edges[0] == edges && c.edges[1] == edges'
        invariant c.Legal() && FaceDone(root, heuristics, node, f, i, c.Values(), more)
      {
        more := TurnAndAdd(c, root, node, f, i, more);
      }
      FaceEnds(root, heuristics, node, f, c.Values(), more);
      RestoreFace(c, start, f);
    }

    /** `expand`: a copy of the cube turned by the node's actions, then for every
        face the children after one, two and three turns, 18 in all, child `a` for
        action `a`. */
    method Expand(node: Node) returns (children: seq<Node>)
      requires cube != null && cube.Legal() && Consistent(cube.Values(), heuristics, node)
      ensures children == Expansion(old(cube.Values()), heuristics, node)
    {
      ghost var root := cube.Values();
      var c := new RubiksCube.Copy(cube);
      ghost var corners, edges, edges' := c.corners, c.edges[0], c.edges[1];
      ApplyActions(c, node.actions);
      children := [];
      for f := 0 to 6
        invariant c.corners == corners && c.edges[0] == edges && c.edges[1] == edges'
        invariant fresh(corners) && fresh(edges) && fresh(edges')
        invariant c.Legal() && FaceStart(root, heuristics, node, f, c.Values(), children)
      {
        children := ExpandFace(c, root, node, f, children);
      }
      ChildrenUnique(root, heuristics, node, children);
    }

    /** The body of the loop of the inner `solve`: the node is expanded, its children
        admitted to the frontier and the explored list, and the least node of the
        frontier taken out of it; none when the frontier is empty. */
    method Advance(ghost root: seq<seq<int>>, node: Node, queue: seq<Node>, seen: seq<Node>, depth: int)
      returns (next: Option<Node>, queue': seq<Node>, seen': seq<Node>)
      requires cube != null && cube.Legal() && cube.Values() == root
      requires Consistent(root, heuristics, node) && AllConsistent(root, heuristics, queue)
      ensures Advanced(root, heuristics, node, queue, seen, depth, next, queue', seen')
      ensures next.Some? ==> Consistent(root, heuristics, next.value)
      ensures AllConsistent(root, heuristics, queue')
    {
      var children := Expand(node);
      var grown;
      grown, seen' := Admit(children, queue, seen, depth);
      ExpansionConsistent(root, heuristics, node, queue, seen, depth, grown);
      if grown == [] {
        return None, [], seen';
      }
      var m := Least(grown);
      RemoveConsistent(root, heuristics, grown, m);
      next, queue' := Some(grown[m]), grown[..m] + grown[m + 1..];
    }

    /** One pass of the loop of the inner `solve`, `Advance`, as a step of the run
        that ends in `outcome`: the run ends with `node` when the frontier ran empty,
        and otherwise goes on from the node taken to the same end. The cube the
        solver holds is left as it was. */
    method Pass(ghost root: seq<seq<int>>, node: Node, queue: seq<Node>, seen: seq<Node>, depth: int,
                ghost fuel: nat, ghost trail: seq<Node>, ghost outcome: Outcome)
      returns (next: Option<Node>, queue': seq<Node>, seen': seq<Node>)
      requires cube != null && cube.Legal() && cube.Values() == root
      requires Consistent(root, heuristics, node) && AllConsistent(root, heuristics, queue)
      requires !node.IsSolved() && |trail| < fuel
      requires Run(root, heuristics, node, queue, seen, depth, fuel, trail) == outcome
      ensures cube.Legal() && cube.Values() == root
      ensures next.None? ==> outcome == Outcome(Some(node), true, trail + [node], queue, seen)
      ensures next.Some? ==> Consistent(root, heuristics, next.value) && AllConsistent(root, heuristics, queue')
      ensures next.Some? ==> Run(root, heuristics, next.value, queue', seen', depth, fuel, trail + [node]) == outcome
    {
      next, queue', seen' := Advance(root, node, queue, seen, depth);
      RunStep(root, heuristics, node, queue, seen, depth, fuel, trail, next, queue', seen', outcome);
    }

    /** `frontier.remove()`: the least node of the frontier, and the rest. */
    method TakeLeast(ghost root: seq<seq<int>>, frontier: seq<Node>) returns (node: Node, rest: seq<Node>)
      requires frontier != [] && AllConsistent(root, heuristics, frontier)
      ensures node == frontier[Least(frontier)]
      ensures rest == frontier[..Least(frontier)] + frontier[Least(frontier) + 1..]
      ensures Consistent(root, heuristics, node) && AllConsistent(root, heuristics, rest)
    {
      var m := Least(frontier);
      RemoveConsistent(root, heuristics, frontier, m);
      node, rest := frontier[m], frontier[..m] + frontier[m + 1..];
    }

    /** The inner `solve`: take the least node; while it is not solved, expand it,
        admit its children and take the least node again. The result is a solved
        node, or with `emptied` the unsolved node taken last, whose children, admitted
        against the explored list `known`, left the rest of the frontier `left` empty;
        `None` when `fuel` expansions did not settle it. `expanded` lists the nodes
        expanded, in order. All of it is the run `SearchRun` describes. */
    method Search(ghost root: seq<seq<int>>, frontier: seq<Node>, explored: seq<Node>, depth: int, fuel: nat)
      returns (result: Option<Node>, ghost emptied: bool, ghost left: seq<Node>, ghost known: seq<Node>,
               ghost expanded: seq<Node>)
      requires cube != null && cube.Legal() && cube.Values() == root && frontier != []
      requires AllConsistent(root, heuristics, frontier)
      ensures Outcome(result, emptied, expanded, left, known) == SearchRun(root, heuristics, frontier, explored, depth, fuel)
      ensures result.Some? ==> Consistent(root, heuristics, result.value)
      ensures emptied <==> result.Some? && !result.value.IsSolved()
      ensures emptied ==> left + Admitted(Expansion(root, heuristics, result.value), known, depth) == []
      ensures |expanded| <= fuel && (result.None? ==> |expanded| == fuel)
      ensures AllUnsolved(expanded)
    {
      ghost var outcome := SearchRun(root, heuristics, frontier, explored, depth, fuel);
      var node, queue := TakeLeast(root, frontier);
      var seen := explored;
      var steps := fuel;
      expanded := [];
      while !node.IsSolved()
        invariant cube.Legal() && cube.Values() == root
        invariant Consistent(root, heuristics, node) && AllConsistent(root, heuristics, queue)
        invariant |expanded| + steps == fuel
        invariant Run(root, heuristics, node, queue, seen, depth, fuel, expanded) == outcome
        decreases steps
      {
        if steps == 0 {
          RunStops(root, heuristics, node, queue, seen, depth, fuel, expanded);
          return None, false, queue, seen, expanded;
        }
        var next;
        ghost var before, seenBefore := queue, seen;
        next, queue, seen := Pass(root, node, queue, seen, depth, fuel, expanded, outcome);
        steps := steps - 1;
        if next.None? {
          SearchRunEmptied(root, heuristics, frontier, explored, depth, fuel);
          return Some(node), true, before, seenBefore, expanded + [node];
        }
        expanded := expanded + [node];
        node := next.value;
      }
      RunStops(root, heuristics, node, queue, seen, depth, fuel, expanded);
      result, emptied, left, known := Some(node), false, queue, seen;
    }

    /** `solve(c)`: the bound starts at the root's heuristic and rises by one per
        round; each round searches from the node the last one returned. The loop
        stops when that node is solved or the bound reaches 18, and the answer is the
        node's actions, rendered. `None` stands for a round whose search ran out of
        `fuel`: the search from the node `last` at the bound `bound`, which expanded the
        unsolved nodes `stalled`. */
    method Solve(c: RubiksCube, fuel: nat)
      returns (solution: Option<string>, ghost actions: seq<int>, ghost rounds: nat, ghost stalled: seq<Node>,
               ghost last: Node, ghost bound: int)
      requires c.Legal() && TablesOk(heuristics)
      modifies this
      ensures cube == c && Answered(old(c.Values()), heuristics, solution, actions, rounds)
      ensures solution.None? ==>
        1 <= rounds && bound + 1 == Heuristic(heuristics, CubeStates(old(c.Values()))) + rounds &&
        Consistent(old(c.Values()), heuristics, last) &&
        SearchRun(old(c.Values()), heuristics, [last], [last], bound, fuel).result.None? &&
        SearchRun(old(c.Values()), heuristics, [last], [last], bound, fuel).expanded == stalled
      ensures solution.None? ==> |stalled| == fuel && AllUnsolved(stalled)
    {
      ghost var root := c.Values();
      cube := c;
      c.LegalStatesDefined();
      var states := c.GetStates();
      assert states == CubeStates(root);
      var h := LookupHeuristic(states);
      var node := Node(states, [], 0, h);
      var depth := node.heuristic;
      rounds := 0;
      RootRounds(root, heuristics, states, h);
      while !node.IsSolved() && depth < 18
        invariant cube == c && c.Legal() && c.Values() == root
        invariant Rounds(root, heuristics, states, h, node, depth, rounds)
        decreases 18 - depth
      {
        ghost var emptied, left, known, expanded;
        var result;
        SingleConsistent(root, heuristics, node);
        result, emptied, left, known, expanded := Search(root, [node], [node], depth, fuel);
        if result.None? {
          RoundsStopped(root, heuristics, states, h, node, depth, rounds);
          return None, [], rounds + 1, expanded, node, depth;
        }
        NextRound(root, heuristics, states, h, node, depth, rounds, result.value);
        node := result.value;
        depth := depth + 1;
        rounds := rounds + 1;
      }
      actions, stalled, last, bound := node.actions, [], node, depth;
      var text := SolutionText(node.actions);
      solution := Some(text);
      RoundsDone(root, heuristics, states, h, node, depth, rounds, text);
    }
  }

  /** What `solve` answers for the cube `root`, whose heuristic is `h`: at most
      `18 - h` rounds, and none when the root is solved or `h` is 18 or more, when the
      answer is `Already solved`; an answer renders actions that lead from the root to a
      solved cube, unless the bound reached 18 first. */
  ghost predicate Answered(root: seq<seq<int>>, tables: seq<seq<int>>, solution: Option<string>,
                           actions: seq<int>, rounds: nat) {
    AllColorsOk(root) && LegalCube(root) && TablesOk(tables) &&
    var states := CubeStates(root);
    var h := Heuristic(tables, states);
    (h < 18 ==> rounds <= 18 - h) &&
    (NoneAboveZero(states) || h >= 18 ==> rounds == 0 && solution == Some("Already solved")) &&
    (solution.Some? ==>
      ValidActions(actions) && LegalCube(Reached(root, actions)) && solution.value == Rendered(actions) &&
      (NoneAboveZero(CubeStates(Reached(root, actions))) || h + rounds >= 18))
  }

  /** The loop of `solve` after `rounds` rounds from the cube `root`, whose indices are
      `states` and heuristic `h`: the node is a node of the search, the bound has risen
      by one per round from `h`, a round has run only if the root was unsolved and `h`
      below 18, and before the first round the node is the root's. */
  ghost predicate Rounds(root: seq<seq<int>>, tables: seq<seq<int>>, states: seq<int>, h: int,
                         node: Node, depth: int, rounds: nat) {
    Consistent(root, tables, node) && states == CubeStates(root) && h == Heuristic(tables, states) &&
    depth == h + rounds && (rounds > 0 ==> depth <= 18 && !NoneAboveZero(states) && h < 18) &&
    (rounds == 0 ==> node.actions == [] && node.states == states)
  }

  /** Before the first round of `solve`: the root node, with no actions. */
  lemma RootRounds(root: seq<seq<int>>, tables: seq<seq<int>>, states: seq<int>, h: int)
    requires AllColorsOk(root) && LegalCube(root) && TablesOk(tables)
    requires states == CubeStates(root) && h == Heuristic(tables, states)
    ensures Rounds(root, tables, states, h, Node(states, [], 0, h), h, 0)
  {
    assert Reached(root, []) == root;
  }

  /** A round from a node that is not solved, below the bound 18, leads to the next
      round with the node it returns. */
  lemma NextRound(root: seq<seq<int>>, tables: seq<seq<int>>, states: seq<int>, h: int,
                  node: Node, depth: int, rounds: nat, next: Node)
    requires Rounds(root, tables, states, h, node, depth, rounds) && !node.IsSolved() && depth < 18
    requires Consistent(root, tables, next)
    ensures Rounds(root, tables, states, h, next, depth + 1, rounds + 1)
  {
  }

  /** A round that settles nothing ends `solve` without an answer. */
  lemma RoundsStopped(root: seq<seq<int>>, tables: seq<seq<int>>, states: seq<int>, h: int,
                      node: Node, depth: int, rounds: nat)
    requires Rounds(root, tables, states, h, node, depth, rounds) && !node.IsSolved() && depth < 18
    ensures Answered(root, tables, None, [], rounds + 1)
  {
  }

  /** When the loop of `solve` stops, the answer renders the node's actions, which lead
      to a solved cube unless the bound reached 18. */
  lemma RoundsDone(root: seq<seq<int>>, tables: seq<seq<int>>, states: seq<int>, h: int,
                   node: Node, depth: int, rounds: nat, text: string)
    requires Rounds(root, tables, states, h, node, depth, rounds) && (node.IsSolved() || depth >= 18)
    requires ValidActions(node.actions) && text == Rendered(node.actions)
    ensures Answered(root, tables, Some(text), node.actions, rounds)
  {
    if rounds == 0 {
      RenderedEmpty(node.actions);
    }
  }

  /* ---- Output ---- */

  /** The decimal digit of `0 <= n <= 9`. */
  function Digit(n: int): char
    requires 0 <= n <= 9
  {
    ('0' as int + n) as char
  }

  /** The piece of the answer for one action: the colour letter, the number of turns
      and a space. */
  function Token(action: int): (t: string)
    requires IsAction(action)
    ensures |t| == 3
  {
    var colors := Decode(action);
    [GetColor(colors[0]), Digit(|colors|), ' ']
  }

  /** The tokens of a list of actions, in order. */
  function Tokens(actions: seq<int>): (text: string)
    requires ValidActions(actions)
    ensures |text| == 3 * |actions|
  {
    if actions == [] then "" else Tokens(actions[..|actions| - 1]) + Token(actions[|actions| - 1])
  }

  /** The answer of `solve`: the tokens, or `Already solved` when there are none. */
  function Rendered(actions: seq<int>): (text: string)
    requires ValidActions(actions)
    ensures actions == [] ==> text == "Already solved"
    ensures actions != [] ==> |text| == 3 * |actions|
  {
    var s := Tokens(actions);
    if s == "" then "Already solved" else s
  }

  /** The loop at the end of `solve` that builds the answer. */
  method SolutionText(actions: seq<int>) returns (text: string)
    requires ValidActions(actions)
    ensures text == Rendered(actions)
  {
    var solution := "";
    for j := 0 to |actions|
      invariant solution == Tokens(actions[..j])
    {
      var colors := Decode(actions[j]);
      solution := solution + [GetColor(colors[0]), Digit(|colors|), ' '];
      assert actions[..j + 1][..j] == actions[..j];
    }
    assert actions[..|actions|] == actions;
    text := if solution == "" then "Already solved" else solution;
  }

  /** Reads an answer back: three characters per action, the colour letter and the
      number of turns. */
  function ParseTokens(text: string): (actions: seq<int>)
    requires |text| % 3 == 0
    ensures |actions| == |text| / 3
  {
    if text == [] then []
    else ParseTokens(text[..|text| - 3]) + [ParseToken(text[|text| - 3..])]
  }

  /** The answer for no actions is `Already solved`, and no other answer is. */
  lemma RenderedEmpty(actions: seq<int>)
    requires ValidActions(actions)
    ensures Rendered(actions) == "Already solved" <==> actions == []
  {
    if actions != [] {
      assert |Rendered(actions)| % 3 == 0;
      assert |"Already solved"| == 14;
    }
  }

  /** The action one token reads back as. */
  function ParseToken(token: string): int
    requires |token| == 3
  {
    Encode(CharToByte(token[0]), token[1] as int - '0' as int)
  }

  /** One token reads back as its action. */
  lemma TokenRoundTrip(action: int)
    requires IsAction(action)
    ensures ParseToken(Token(action)) == action
  {
    var colors := Decode(action);
    EncodeDecode(action);
    assert Token(action)[0] == GetColor(colors[0]) && Token(action)[1] == Digit(|colors|);
  }

  /** Reading back a text followed by one more token. */
  lemma ParseSnoc(text: string, token: string)
    requires |text| % 3 == 0 && |token| == 3
    ensures ParseTokens(text + token) == ParseTokens(text) + [ParseToken(token)]
  {
    var all := text + token;
    assert all[..|all| - 3] == text;
    assert all[|all| - 3] == token[0] && all[|all| - 2] == token[1];
  }

  /** The answer names every action: reading it back gives the actions. */
  lemma {:induction false} RenderedRoundTrip(actions: seq<int>)
    requires ValidActions(actions)
    ensures |Tokens(actions)| % 3 == 0 && ParseTokens(Tokens(actions)) == actions
  {
    if actions != [] {
      var init, last := actions[..|actions| - 1], actions[|actions| - 1];
      assert actions == init + [last];
      assert ValidActions(init);
      RenderedRoundTrip(init);
      var text, token := Tokens(init), Token(last);
      assert Tokens(actions) == text + token;
      ParseSnoc(text, token);
      TokenRoundTrip(last);
      assert ParseTokens(text + token) == init + [last];
    }
  }
}
