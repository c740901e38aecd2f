/** The recursive walks: `descend` of src/btree.rs and `descend_virtual` of src/dir.rs, which differ in
    how an address becomes a node and in whether a target prunes the children. */
module Walk {
  import opened Prelude
  import opened NodeGraph

  /** trail: the addresses entered into the visited set, in order. visits: the callback's arguments. */
  datatype Walked = Walked(result: Result<Unit>, trail: seq<nat>, visits: seq<Entry>)

  function WalkNode(g: Graph, a: nat, depth: nat, target: Option<nat>, visited: set<nat>): Walked
    requires depth <= MAX_DEPTH
    decreases MAX_DEPTH - depth, 0
  {
    if depth >= MAX_DEPTH || a in visited then Walked(Err(CycleGuard), [], [])
    else match g(a)
      case Bad(e) => Walked(Err(e), [a], [])
      case Leaf(es) => Walked(Ok(Unit), [a], es)
      case Index(kids) =>
        var w := WalkKids(g, kids, depth + 1, target, visited + {a});
        Walked(w.result, [a] + w.trail, w.visits)
  }

  function WalkKids(g: Graph, kids: seq<Kid>, depth: nat, target: Option<nat>, visited: set<nat>): Walked
    requires depth <= MAX_DEPTH
    decreases MAX_DEPTH - depth, 1 + |kids|
  {
    if kids == [] then Walked(Ok(Unit), [], [])
    else if !Descends(kids[0].key, NextKid(kids), target) then
      WalkKids(g, kids[1..], depth, target, visited)
    else
      var w := WalkNode(g, kids[0].child, depth, target, visited);
      if w.result.Err? then w
      else
        var rest := WalkKids(g, kids[1..], depth, target, visited + Elems(w.trail));
        Walked(rest.result, w.trail + rest.trail, w.visits + rest.visits)
  }

  /** The walker's state once a walk begun in this state has returned. */
  datatype State = State(result: Result<Unit>, visited: set<nat>, visits: seq<Entry>)

  function Then(visited: set<nat>, visits: seq<Entry>, w: Walked): State {
    State(w.result, visited + Elems(w.trail), visits + w.visits)
  }

  /** Where a walk ends without descending. */
  lemma WalkEnds(g: Graph, a: nat, depth: nat, target: Option<nat>, visited: set<nat>, visits: seq<Entry>)
    requires depth <= MAX_DEPTH
    ensures var s := Then(visited, visits, WalkNode(g, a, depth, target, visited));
            if depth == MAX_DEPTH || a in visited then s == State(Err(CycleGuard), visited, visits)
            else if g(a).Bad? then s == State(Err(g(a).error), visited + {a}, visits)
            else g(a).Leaf? ==> s == State(Ok(Unit), visited + {a}, visits + g(a).entries)
  {
  }

  /** Entering an index node. */
  lemma EnterIndex(g: Graph, a: nat, depth: nat, target: Option<nat>, visited: set<nat>, visits: seq<Entry>)
    requires depth < MAX_DEPTH && a !in visited && g(a).Index?
    ensures Then(visited, visits, WalkNode(g, a, depth, target, visited))
         == Then(visited + {a}, visits, WalkKids(g, g(a).kids, depth + 1, target, visited + {a}))
  {
    var w := WalkKids(g, g(a).kids, depth + 1, target, visited + {a});
    ElemsConcat([a], w.trail);
  }

  lemma ThenThen(visited: set<nat>, visits: seq<Entry>, w: Walked, rest: Walked)
    ensures Then(visited, visits, Walked(rest.result, w.trail + rest.trail, w.visits + rest.visits))
         == Then(visited + Elems(w.trail), visits + w.visits, rest)
  {
    ElemsConcat(w.trail, rest.trail);
  }

  /** One round of the loop over an index node's children, from child i on. */
  lemma KidsRound(g: Graph, kids: seq<Kid>, i: nat, depth: nat, target: Option<nat>, visited: set<nat>,
                  visits: seq<Entry>)
    requires i < |kids| && depth <= MAX_DEPTH
    ensures var next := if i + 1 < |kids| then Some(kids[i + 1].key) else None;
            var whole := Then(visited, visits, WalkKids(g, kids[i..], depth, target, visited));
            if !Descends(kids[i].key, next, target) then
              whole == Then(visited, visits, WalkKids(g, kids[i + 1..], depth, target, visited))
            else
              var w := WalkNode(g, kids[i].child, depth, target, visited);
              var now := Then(visited, visits, w);
              if w.result.Err? then whole == now
              else whole == Then(now.visited, now.visits, WalkKids(g, kids[i + 1..], depth, target, now.visited))
  {
    var rest := kids[i..];
    assert rest[1..] == kids[i + 1..];
    if Descends(rest[0].key, NextKid(rest), target) {
      var w := WalkNode(g, kids[i].child, depth, target, visited);
      if w.result.Ok? {
        ThenThen(visited, visits, w, WalkKids(g, rest[1..], depth, target, visited + Elems(w.trail)));
      }
    }
  }

  /** Every graph, broken or not: no address is read twice, nor one already visited. */
  lemma {:induction false} ReadsAtMostOnce(g: Graph, a: nat, depth: nat, target: Option<nat>, visited: set<nat>)
    requires depth <= MAX_DEPTH
    ensures var w := WalkNode(g, a, depth, target, visited);
            NoDup(w.trail) && Elems(w.trail) !! visited
    decreases MAX_DEPTH - depth, 0
  {
    if depth < MAX_DEPTH && a !in visited && g(a).Index? {
      var w := WalkKids(g, g(a).kids, depth + 1, target, visited + {a});
      KidsReadAtMostOnce(g, g(a).kids, depth + 1, target, visited + {a});
      NoDupConcat([a], w.trail);
    }
  }

  lemma {:induction false} KidsReadAtMostOnce(g: Graph, kids: seq<Kid>, depth: nat, target: Option<nat>,
                                               visited: set<nat>)
    requires depth <= MAX_DEPTH
    ensures var w := WalkKids(g, kids, depth, target, visited);
            NoDup(w.trail) && Elems(w.trail) !! visited
    decreases MAX_DEPTH - depth, 1 + |kids|
  {
    if kids == [] {
    } else if !Descends(kids[0].key, NextKid(kids), target) {
      KidsReadAtMostOnce(g, kids[1..], depth, target, visited);
    } else {
      var w := WalkNode(g, kids[0].child, depth, target, visited);
      ReadsAtMostOnce(g, kids[0].child, depth, target, visited);
      var rest := WalkKids(g, kids[1..], depth, target, visited + Elems(w.trail));
      KidsReadAtMostOnce(g, kids[1..], depth, target, visited + Elems(w.trail));
      NoDupConcat(w.trail, rest.trail);
    }
  }

  // ---- trees as far as a walk descends them ----

  /** The graph unfolds to the tree wherever a (keyed) walk goes; the rest of the tree may be anything. */
  ghost predicate UnfoldsFor(g: Graph, t: Tree, target: Option<nat>)
    decreases t, 0
  {
    match t
    case TLeaf(a, es) => g(a) == Leaf(es)
    case TIndex(a, bs) => g(a) == Index(KidsOf(bs)) && AllUnfoldFor(g, bs, target)
  }

  ghost predicate AllUnfoldFor(g: Graph, bs: seq<Branch>, target: Option<nat>)
    decreases bs, 1
  {
    bs == [] ||
    (&& (Descends(bs[0].key, NextBranch(bs), target) ==> UnfoldsFor(g, bs[0].tree, target))
     && AllUnfoldFor(g, bs[1..], target))
  }

  /** The levels of the tree a (keyed) walk reaches. */
  function HeightFor(t: Tree, target: Option<nat>): nat
    decreases t, 0
  {
    1 + if t.TLeaf? then 0 else HeightOfFor(t.branches, target)
  }

  function HeightOfFor(bs: seq<Branch>, target: Option<nat>): nat
    decreases bs, 1
  {
    if bs == [] then 0
    else Max(if Descends(bs[0].key, NextBranch(bs), target) then HeightFor(bs[0].tree, target) else 0,
             HeightOfFor(bs[1..], target))
  }

  /** What a whole tree is to a walk, and conversely what a walk without a target has seen. */
  lemma {:induction false} WholeTree(g: Graph, t: Tree, target: Option<nat>)
    ensures Unfolds(g, t) ==> UnfoldsFor(g, t, target)
    ensures UnfoldsFor(g, t, None) ==> Unfolds(g, t)
    ensures HeightFor(t, target) <= Height(t) == HeightFor(t, None)
    decreases t, 0
  {
    if t.TIndex? {
      WholeForest(g, t.branches, target);
    }
  }

  lemma {:induction false} WholeForest(g: Graph, bs: seq<Branch>, target: Option<nat>)
    ensures UnfoldsAll(g, bs) ==> AllUnfoldFor(g, bs, target)
    ensures AllUnfoldFor(g, bs, None) ==> UnfoldsAll(g, bs)
    ensures HeightOfFor(bs, target) <= HeightOf(bs) == HeightOfFor(bs, None)
    decreases bs, 1
  {
    if bs != [] {
      hide UnfoldsAll, Unfolds, UnfoldsFor, Height, HeightFor;
      WholeTree(g, bs[0].tree, target);
      WholeForest(g, bs[1..], target);
      FirstAndRestUnfold(g, bs);
    } else {
      assert UnfoldsAll(g, bs);
    }
  }

  lemma FirstAndRestUnfold(g: Graph, bs: seq<Branch>)
    requires bs != []
    ensures UnfoldsAll(g, bs) <==> Unfolds(g, bs[0].tree) && UnfoldsAll(g, bs[1..])
  {
    hide Unfolds;
    assert forall i :: 0 < i < |bs| ==> bs[i] == bs[1..][i - 1];
  }

  /** A walk, pruned or not, over a part of the graph that unfolds to a tree wherever the walk goes. */
  lemma {:induction false} WalkOnTree(g: Graph, t: Tree, depth: nat, target: Option<nat>, visited: set<nat>)
    requires UnfoldsFor(g, t, target) && depth + HeightFor(t, target) <= MAX_DEPTH
    requires NoDup(Reads(t, target)) && Elems(Reads(t, target)) !! visited
    ensures WalkNode(g, t.addr, depth, target, visited) == Walked(Ok(Unit), Reads(t, target), Visits(t, target))
    decreases t, 0
  {
    assert Reads(t, target)[0] == t.addr;
    assert t.addr in Elems(Reads(t, target));
    if t.TIndex? {
      NoDupConcat([t.addr], ReadsOf(t.branches, target));
      WalkOnForest(g, t.branches, depth + 1, target, visited + {t.addr});
    }
  }

  lemma {:induction false} WalkOnForest(g: Graph, bs: seq<Branch>, depth: nat, target: Option<nat>,
                                         visited: set<nat>)
    requires AllUnfoldFor(g, bs, target) && depth + HeightOfFor(bs, target) <= MAX_DEPTH
    requires NoDup(ReadsOf(bs, target)) && Elems(ReadsOf(bs, target)) !! visited
    ensures WalkKids(g, KidsOf(bs), depth, target, visited)
         == Walked(Ok(Unit), ReadsOf(bs, target), VisitsOf(bs, target))
    decreases bs, 1
  {
    if bs == [] {
    } else {
      assert KidsOf(bs)[1..] == KidsOf(bs[1..]);
      if Descends(bs[0].key, NextBranch(bs), target) {
        var here := Reads(bs[0].tree, target);
        NoDupConcat(here, ReadsOf(bs[1..], target));
        ElemsConcat(here, ReadsOf(bs[1..], target));
        WalkOnTree(g, bs[0].tree, depth, target, visited);
        WalkOnForest(g, bs[1..], depth, target, visited + Elems(here));
      } else {
        assert ReadsOf(bs, target) == ReadsOf(bs[1..], target);
        WalkOnForest(g, bs[1..], depth, target, visited);
      }
    }
  }

  /** A walk that succeeds has unfolded a tree, wherever it went. */
  lemma {:induction false} SuccessYieldsTree(g: Graph, a: nat, depth: nat, target: Option<nat>, visited: set<nat>)
    returns (t: Tree)
    requires depth <= MAX_DEPTH
    requires WalkNode(g, a, depth, target, visited).result.Ok?
    ensures t.addr == a && UnfoldsFor(g, t, target) && depth + HeightFor(t, target) <= MAX_DEPTH
    ensures Reads(t, target) == WalkNode(g, a, depth, target, visited).trail
    decreases MAX_DEPTH - depth, 0
  {
    match g(a) {
      case Leaf(es) => t := TLeaf(a, es);
      case Index(kids) =>
        var bs := SuccessYieldsForest(g, kids, depth + 1, target, visited + {a});
        t := TIndex(a, bs);
    }
  }

  lemma {:induction false} SuccessYieldsForest(g: Graph, kids: seq<Kid>, depth: nat, target: Option<nat>,
                                                visited: set<nat>)
    returns (bs: seq<Branch>)
    requires depth <= MAX_DEPTH
    requires WalkKids(g, kids, depth, target, visited).result.Ok?
    ensures KidsOf(bs) == kids && AllUnfoldFor(g, bs, target) && depth + HeightOfFor(bs, target) <= MAX_DEPTH
    ensures ReadsOf(bs, target) == WalkKids(g, kids, depth, target, visited).trail
    decreases MAX_DEPTH - depth, 1 + |kids|
  {
    if kids == [] {
      bs := [];
    } else {
      var key, child := kids[0].key, kids[0].child;
      if Descends(key, NextKid(kids), target) {
        var w := WalkNode(g, child, depth, target, visited);
        var t := SuccessYieldsTree(g, child, depth, target, visited);
        var rest := SuccessYieldsForest(g, kids[1..], depth, target, visited + Elems(w.trail));
        bs := WithFirst(kids, t, rest);
      } else {
        var rest := SuccessYieldsForest(g, kids[1..], depth, target, visited);
        bs := WithFirst(kids, TLeaf(child, []), rest);
      }
    }
  }

  lemma WithFirst(kids: seq<Kid>, t: Tree, rest: seq<Branch>) returns (bs: seq<Branch>)
    requires kids != [] && t.addr == kids[0].child && KidsOf(rest) == kids[1..]
    ensures bs == [Branch(kids[0].key, t)] + rest && bs[1..] == rest
    ensures KidsOf(bs) == kids && NextBranch(bs) == NextKid(kids)
  {
    bs := [Branch(kids[0].key, t)] + rest;
    assert forall i :: 0 < i < |kids| ==> KidsOf(bs)[i] == KidsOf(rest)[i - 1] == kids[i];
    assert |kids| > 1 ==> KidsOf(rest)[0].key == rest[0].key;
  }

  ghost predicate IsTreeFor(g: Graph, root: nat, t: Tree, target: Option<nat>) {
    t.addr == root && UnfoldsFor(g, t, target) && HeightFor(t, target) <= 64 && NoDup(Reads(t, target))
  }

  /** A walk for any target, or none, succeeds exactly when what it descends is a tree of at most 64 levels in
      which no address occurs twice; whatever hangs below the children it skips plays no part. */
  lemma WalkSucceedsExactlyOnTrees(g: Graph, root: nat, target: Option<nat>)
    ensures WalkNode(g, root, 0, target, {}).result.Ok? <==> exists t :: IsTreeFor(g, root, t, target)
    ensures forall t :: IsTreeFor(g, root, t, target) ==>
              WalkNode(g, root, 0, target, {}) == Walked(Ok(Unit), Reads(t, target), Visits(t, target))
  {
    if WalkNode(g, root, 0, target, {}).result.Ok? {
      var t := SuccessYieldsTree(g, root, 0, target, {});
      ReadsAtMostOnce(g, root, 0, target, {});
      assert IsTreeFor(g, root, t, target);
    }
    forall t | IsTreeFor(g, root, t, target)
      ensures WalkNode(g, root, 0, target, {}) == Walked(Ok(Unit), Reads(t, target), Visits(t, target))
    {
      WalkOnTree(g, t, 0, target, {});
    }
  }

  ghost predicate IsTreeAt(g: Graph, root: nat, t: Tree) {
    t.addr == root && Unfolds(g, t) && Height(t) <= 64 && NoDup(Addrs(t))
  }

  /** The full walk succeeds exactly when the root unfolds to a tree of at most 64 levels in which no
      address occurs twice, and then visits the leaves' entries left to right. */
  lemma FullWalkSucceedsExactlyOnTrees(g: Graph, root: nat)
    ensures WalkNode(g, root, 0, None, {}).result.Ok? <==> exists t :: IsTreeAt(g, root, t)
    ensures forall t :: IsTreeAt(g, root, t) ==>
              WalkNode(g, root, 0, None, {}) == Walked(Ok(Unit), Addrs(t), Leaves(t))
  {
    hide WalkNode, UnfoldsFor, Unfolds, HeightFor, Height, Reads, Visits;
    WalkSucceedsExactlyOnTrees(g, root, None);
    forall t ensures IsTreeAt(g, root, t) <==> IsTreeFor(g, root, t, None) {
      WholeTree(g, t, None);
    }
    if WalkNode(g, root, 0, None, {}).result.Ok? {
      var t :| IsTreeFor(g, root, t, None);
      assert IsTreeAt(g, root, t);
    }
  }

  // ---- the depth limit ----

  /** A chain of n nodes, each the only child of the one before it. */
  function Chain(n: nat): Graph {
    (a: nat) => if a + 1 < n then Index([Kid([], a + 1)]) else Leaf([])
  }

  lemma {:induction false} ChainFrom(n: nat, a: nat, visited: set<nat>)
    requires a < n && a <= MAX_DEPTH && forall v :: v in visited ==> v < a
    ensures WalkNode(Chain(n), a, a, None, visited).result == if n <= MAX_DEPTH then Ok(Unit) else Err(CycleGuard)
    decreases MAX_DEPTH - a
  {
    if a < MAX_DEPTH && a + 1 < n {
      ChainFrom(n, a + 1, visited + {a});
      OnlyKid(Chain(n), Kid([], a + 1), a + 1, visited + {a});
    }
  }

  lemma OnlyKid(g: Graph, kid: Kid, depth: nat, visited: set<nat>)
    requires depth <= MAX_DEPTH
    ensures WalkKids(g, [kid], depth, None, visited).result == WalkNode(g, kid.child, depth, None, visited).result
  {
    var w := WalkNode(g, kid.child, depth, None, visited);
    assert [kid][1..] == [] && (w.result.Ok? ==> w.result.value.Unit?);
    assert WalkKids(g, [], depth, None, visited + Elems(w.trail)).result == Ok(Unit);
  }

  /** The depth limit alone rejects: a chain without any repeated address fails exactly when it has more than
      64 nodes. */
  lemma ChainFailsBeyondTheLimit(n: nat)
    requires n > 0
    ensures WalkNode(Chain(n), 0, 0, None, {}).result == if n <= 64 then Ok(Unit) else Err(CycleGuard)
  {
    ChainFrom(n, 0, {});
  }

  /** A walk depends only on what the graph says of each address. */
  lemma {:induction false} SameGraphSameWalk(g: Graph, g': Graph, a: nat, depth: nat, target: Option<nat>,
                                              visited: set<nat>)
    requires depth <= MAX_DEPTH && forall b: nat :: g(b) == g'(b)
    ensures WalkNode(g, a, depth, target, visited) == WalkNode(g', a, depth, target, visited)
    decreases MAX_DEPTH - depth, 0
  {
    if depth < MAX_DEPTH && a !in visited && g(a).Index? {
      SameGraphSameWalkOfKids(g, g', g(a).kids, depth + 1, target, visited + {a});
    }
  }

  lemma {:induction false} SameGraphSameWalkOfKids(g: Graph, g': Graph, kids: seq<Kid>, depth: nat,
                                                    target: Option<nat>, visited: set<nat>)
    requires depth <= MAX_DEPTH && forall b: nat :: g(b) == g'(b)
    ensures WalkKids(g, kids, depth, target, visited) == WalkKids(g', kids, depth, target, visited)
    decreases MAX_DEPTH - depth, 1 + |kids|
  {
    if kids == [] {
    } else if !Descends(kids[0].key, NextKid(kids), target) {
      SameGraphSameWalkOfKids(g, g', kids[1..], depth, target, visited);
    } else {
      var w := WalkNode(g, kids[0].child, depth, target, visited);
      SameGraphSameWalk(g, g', kids[0].child, depth, target, visited);
      SameGraphSameWalkOfKids(g, g', kids[1..], depth, target, visited + Elems(w.trail));
    }
  }
}
