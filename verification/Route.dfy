/** The one-path descent of `find_leaf` in src/btree.rs, as a function of the graph and the comparator. */
module Route {
  import opened Prelude
  import opened NodeGraph
  import opened Walk

  type Comparator = Bytes -> Ordering

  /** How many leading separators do not order after the target. */
  function Leading(kids: seq<Kid>, cmp: Comparator): (n: nat)
    ensures n <= |kids|
    ensures forall i :: 0 <= i < n ==> cmp(kids[i].key) != Greater
    ensures n < |kids| ==> cmp(kids[n].key) == Greater
  {
    if kids == [] || cmp(kids[0].key) == Greater then 0 else 1 + Leading(kids[1..], cmp)
  }

  /** The last of those children, or the first child if there is none. */
  function ChosenIndex(kids: seq<Kid>, cmp: Comparator): (i: nat)
    ensures kids != [] ==> i < |kids|
  {
    var n := Leading(kids, cmp);
    if n == 0 then 0 else n - 1
  }

  /** One step of the unguarded descent; None where it ends: at a leaf, an empty index node or a failure. */
  function Step(g: Graph, cmp: Comparator, a: nat): Option<nat> {
    match g(a)
    case Index(kids) => if kids == [] then None else Some(kids[ChosenIndex(kids, cmp)].child)
    case _ => None
  }

  /** What the descent returns where it ends. */
  function Landing(node: Node): Result<seq<Entry>> {
    match node
    case Bad(e) => Err(e)
    case Leaf(es) => Ok(es)
    case Index(_) => Ok([])
  }

  /** The descent limited to `fuel` nodes, with no record of where it has been. */
  function Descent(g: Graph, cmp: Comparator, a: nat, fuel: nat): Result<seq<Entry>>
    decreases fuel
  {
    if fuel == 0 then Err(CycleGuard)
    else match Step(g, cmp, a)
      case None => Landing(g(a))
      case Some(next) => Descent(g, cmp, next, fuel - 1)
  }

  /** `find_leaf`: at most 64 nodes. */
  function FindLeafResult(g: Graph, cmp: Comparator, root: nat): Result<seq<Entry>> {
    Descent(g, cmp, root, MAX_DEPTH)
  }

  /** Consecutive addresses of the unguarded descent. */
  ghost predicate Follows(g: Graph, cmp: Comparator, trail: seq<nat>) {
    forall i :: 0 <= i < |trail| - 1 ==> Step(g, cmp, trail[i]) == Some(trail[i + 1])
  }

  lemma {:induction false} DescentAlong(g: Graph, cmp: Comparator, trail: seq<nat>, fuel: nat)
    requires trail != [] && Follows(g, cmp, trail)
    ensures Descent(g, cmp, trail[0], fuel)
         == if fuel < |trail| then Err(CycleGuard)
            else Descent(g, cmp, trail[|trail| - 1], fuel - (|trail| - 1))
    decreases fuel
  {
    if fuel > 0 && |trail| > 1 {
      assert Step(g, cmp, trail[0]) == Some(trail[1]);
      var rest := trail[1..];
      assert Follows(g, cmp, rest) by {
        forall i | 0 <= i < |rest| - 1 ensures Step(g, cmp, rest[i]) == Some(rest[i + 1]) {
          assert rest[i] == trail[i + 1] && rest[i + 1] == trail[i + 2];
        }
      }
      DescentAlong(g, cmp, rest, fuel - 1);
    }
  }

  /** A descent that comes back to where it was never ends, so the visited set rejects nothing that the
      64-node limit would accept. */
  lemma {:induction false} LoopingDescentNeverEnds(g: Graph, cmp: Comparator, loop: seq<nat>, fuel: nat)
    requires |loop| > 1 && Follows(g, cmp, loop) && loop[0] == loop[|loop| - 1]
    ensures Descent(g, cmp, loop[0], fuel) == Err(CycleGuard)
    decreases fuel
  {
    DescentAlong(g, cmp, loop, fuel);
    if fuel >= |loop| {
      LoopingDescentNeverEnds(g, cmp, loop, fuel - (|loop| - 1));
    }
  }

  /** The addresses a guarded descent from the root has been at; the last is where it is now. */
  ghost predicate OnRoute(g: Graph, cmp: Comparator, root: nat, trail: seq<nat>) {
    trail != [] && trail[0] == root && Follows(g, cmp, trail)
  }

  ghost function Left(trail: seq<nat>): set<nat>
    requires trail != []
  {
    Elems(trail[..|trail| - 1])
  }

  lemma RouteRevisits(g: Graph, cmp: Comparator, root: nat, trail: seq<nat>)
    requires OnRoute(g, cmp, root, trail) && trail[|trail| - 1] in Left(trail)
    ensures FindLeafResult(g, cmp, root) == Err(CycleGuard)
  {
    var k :| 0 <= k < |trail| - 1 && trail[k] == trail[|trail| - 1];
    var loop := trail[k..];
    forall i | 0 <= i < |loop| - 1 ensures Step(g, cmp, loop[i]) == Some(loop[i + 1]) {
      assert loop[i] == trail[k + i] && loop[i + 1] == trail[k + i + 1];
    }
    DescentAlong(g, cmp, trail, MAX_DEPTH);
    if |trail| <= MAX_DEPTH {
      LoopingDescentNeverEnds(g, cmp, loop, MAX_DEPTH - (|trail| - 1));
    }
  }

  lemma RouteEnds(g: Graph, cmp: Comparator, root: nat, trail: seq<nat>)
    requires OnRoute(g, cmp, root, trail)
    requires |trail| <= MAX_DEPTH ==> Step(g, cmp, trail[|trail| - 1]) == None
    ensures FindLeafResult(g, cmp, root)
         == if |trail| <= MAX_DEPTH then Landing(g(trail[|trail| - 1])) else Err(CycleGuard)
  {
    DescentAlong(g, cmp, trail, MAX_DEPTH);
  }

  lemma RouteExtends(g: Graph, cmp: Comparator, root: nat, trail: seq<nat>, next: nat)
    requires OnRoute(g, cmp, root, trail) && Step(g, cmp, trail[|trail| - 1]) == Some(next)
    ensures OnRoute(g, cmp, root, trail + [next])
    ensures Left(trail + [next]) == Left(trail) + {trail[|trail| - 1]}
  {
    assert (trail + [next])[..|trail|] == trail[..|trail| - 1] + [trail[|trail| - 1]];
    ElemsConcat(trail[..|trail| - 1], [trail[|trail| - 1]]);
  }

  /** The k-th node of the unguarded descent, if the descent gets that far. */
  function NthNode(g: Graph, cmp: Comparator, a: nat, k: nat): Option<nat>
    decreases k
  {
    if k == 0 then Some(a)
    else match Step(g, cmp, a)
      case None => None
      case Some(next) => NthNode(g, cmp, next, k - 1)
  }

  /** The unguarded descent ends at its k-th node. */
  ghost predicate EndsAt(g: Graph, cmp: Comparator, a: nat, k: nat) {
    NthNode(g, cmp, a, k).Some? && Step(g, cmp, NthNode(g, cmp, a, k).value) == None
  }

  ghost predicate EndsWithin(g: Graph, cmp: Comparator, a: nat, fuel: nat) {
    exists k: nat :: k < fuel && EndsAt(g, cmp, a, k)
  }

  /** The limited descent returns what the unguarded one finds where it ends (the leaf's entries, nothing at an
      empty index node, or the failure), and CycleGuard exactly when that does not end within the limit, no read
      or checksum failure being itself a CycleGuard. */
  lemma {:induction false} CycleGuardIsExact(g: Graph, cmp: Comparator, a: nat, fuel: nat)
    ensures forall k: nat :: k < fuel && EndsAt(g, cmp, a, k) ==>
              Descent(g, cmp, a, fuel) == match g(NthNode(g, cmp, a, k).value)
                                          case Bad(e) => Err(e)
                                          case Leaf(es) => Ok(es)
                                          case Index(_) => Ok([])
    ensures !EndsWithin(g, cmp, a, fuel) ==> Descent(g, cmp, a, fuel) == Err(CycleGuard)
    ensures (forall b :: g(b) != Bad(CycleGuard)) ==>
              (Descent(g, cmp, a, fuel) == Err(CycleGuard) <==> !EndsWithin(g, cmp, a, fuel))
    decreases fuel
  {
    if fuel > 0 {
      match Step(g, cmp, a)
      case None =>
        assert NthNode(g, cmp, a, 0) == Some(a);
        assert EndsAt(g, cmp, a, 0);
      case Some(next) =>
        CycleGuardIsExact(g, cmp, next, fuel - 1);
        forall k: nat | EndsAt(g, cmp, a, k)
          ensures k > 0 && NthNode(g, cmp, a, k) == NthNode(g, cmp, next, k - 1) && EndsAt(g, cmp, next, k - 1)
        {
        }
        forall k: nat | EndsAt(g, cmp, next, k)
          ensures NthNode(g, cmp, a, k + 1) == NthNode(g, cmp, next, k) && EndsAt(g, cmp, a, k + 1)
        {
        }
    }
  }

  /** The leaf a descent through a tree lands on, and its place among the tree's leaves. */
  function LandingRun(t: Tree, cmp: Comparator): (run: seq<Entry>)
    decreases t
  {
    match t
    case TLeaf(_, es) => es
    case TIndex(_, bs) =>
      if bs == [] then [] else LandingRun(bs[ChosenIndex(KidsOf(bs), cmp)].tree, cmp)
  }

  /** The leaf entries left of the landing leaf. */
  function LeftOfRun(t: Tree, cmp: Comparator): seq<Entry>
    decreases t
  {
    if t.TLeaf? || t.branches == [] then []
    else
      var c := ChosenIndex(KidsOf(t.branches), cmp);
      LeavesOf(t.branches[..c]) + LeftOfRun(t.branches[c].tree, cmp)
  }

  /** The leaf entries right of the landing leaf. */
  function RightOfRun(t: Tree, cmp: Comparator): seq<Entry>
    decreases t
  {
    if t.TLeaf? || t.branches == [] then []
    else
      var c := ChosenIndex(KidsOf(t.branches), cmp);
      RightOfRun(t.branches[c].tree, cmp) + LeavesOf(t.branches[c + 1..])
  }

  lemma {:induction false} LeavesOfConcat(a: seq<Branch>, b: seq<Branch>)
    ensures LeavesOf(a + b) == LeavesOf(a) + LeavesOf(b)
  {
    if a == [] {
      assert a + b == b;
    } else {
      assert (a + b)[1..] == a[1..] + b;
      LeavesOfConcat(a[1..], b);
      Assoc(Leaves(a[0].tree), LeavesOf(a[1..]), LeavesOf(b));
    }
  }

  lemma LeavesAround(bs: seq<Branch>, c: nat)
    requires c < |bs|
    ensures LeavesOf(bs) == LeavesOf(bs[..c]) + Leaves(bs[c].tree) + LeavesOf(bs[c + 1..])
  {
    assert bs == bs[..c] + bs[c..];
    LeavesOfConcat(bs[..c], bs[c..]);
    assert bs[c..][1..] == bs[c + 1..];
  }

  lemma {:induction false} RunIsContiguous(t: Tree, cmp: Comparator)
    ensures Leaves(t) == LeftOfRun(t, cmp) + LandingRun(t, cmp) + RightOfRun(t, cmp)
    decreases t
  {
    if t.TLeaf? {
      assert Leaves(t) == t.entries;
    } else if t.branches == [] {
      assert VisitsOf(t.branches, None) == [];
    } else {
      var c := ChosenIndex(KidsOf(t.branches), cmp);
      var child := t.branches[c].tree;
      LeavesAround(t.branches, c);
      RunIsContiguous(child, cmp);
      hide LeavesOf, ChosenIndex;
      RegroupMiddle(LeavesOf(t.branches[..c]), LeftOfRun(child, cmp), LandingRun(child, cmp),
                    RightOfRun(child, cmp), LeavesOf(t.branches[c + 1..]));
      assert Leaves(t) == Visits(t, None) == VisitsOf(t.branches, None);
    }
  }

  lemma {:induction false} HeightBelow(bs: seq<Branch>, i: nat)
    requires i < |bs|
    ensures Height(bs[i].tree) <= HeightOf(bs)
  {
    if i > 0 {
      HeightBelow(bs[1..], i - 1);
    }
  }

  lemma {:induction false} DescentOnTree(g: Graph, t: Tree, cmp: Comparator, fuel: nat)
    requires Unfolds(g, t) && Height(t) <= fuel
    ensures Descent(g, cmp, t.addr, fuel) == Ok(LandingRun(t, cmp))
    decreases t
  {
    if t.TIndex? && t.branches != [] {
      var c := ChosenIndex(KidsOf(t.branches), cmp);
      HeightBelow(t.branches, c);
      DescentOnTree(g, t.branches[c].tree, cmp, fuel - 1);
    }
  }

  /** Whenever the full walk succeeds, the descent succeeds for every comparator, and what it visits is
      one contiguous run of what the full walk visits. */
  lemma DescentVisitsARunOfTheWalk(g: Graph, root: nat, cmp: Comparator)
    requires WalkNode(g, root, 0, None, {}).result.Ok?
    ensures var r := FindLeafResult(g, cmp, root);
            r.Ok? && exists left, right :: WalkNode(g, root, 0, None, {}).visits == left + r.value + right
  {
    FullWalkSucceedsExactlyOnTrees(g, root);
    var t :| IsTreeAt(g, root, t);
    DescentOnTree(g, t, cmp, MAX_DEPTH);
    RunIsContiguous(t, cmp);
  }
}
