/** The full walk's success stated without trees: in terms of the paths that lead from the root. */
module GraphPaths {
  import opened Prelude
  import opened NodeGraph
  import opened Walk

  /** A path names a child position at each index node; where it leads, if anywhere. */
  function Reached(g: Graph, a: nat, path: seq<nat>): Option<nat>
    decreases path
  {
    if path == [] then Some(a)
    else match g(a)
      case Index(kids) => if path[0] < |kids| then Reached(g, kids[path[0]].child, path[1..]) else None
      case _ => None
  }

  /** No reached block is unreadable or fails its checksum, no path has more than `levels` nodes. */
  ghost predicate ReachesOnlySound(g: Graph, a: nat, levels: nat) {
    forall p :: Reached(g, a, p).Some? ==> |p| < levels && !g(Reached(g, a, p).value).Bad?
  }

  /** No block is reached by two paths. */
  ghost predicate ReachedOnce(g: Graph, a: nat) {
    forall p, q :: Reached(g, a, p).Some? && Reached(g, a, p) == Reached(g, a, q) ==> p == q
  }

  /** The paths to a tree's nodes, in the order of Addrs. */
  ghost function Paths(t: Tree): seq<seq<nat>>
    decreases t, 0
  {
    [[]] + if t.TLeaf? then [] else PathsOf(t.branches, 0)
  }

  ghost function PathsOf(bs: seq<Branch>, k: nat): seq<seq<nat>>
    decreases bs, 1
  {
    if bs == [] then [] else Under(k, Paths(bs[0].tree)) + PathsOf(bs[1..], k + 1)
  }

  ghost function Under(k: nat, ps: seq<seq<nat>>): (r: seq<seq<nat>>)
    ensures |r| == |ps|
  {
    seq(|ps|, i requires 0 <= i < |ps| => [k] + ps[i])
  }

  lemma UnderNoDup(k: nat, ps: seq<seq<nat>>)
    requires NoDup(ps)
    ensures NoDup(Under(k, ps))
    ensures forall p :: p in Under(k, ps) <==> p != [] && p[0] == k && p[1..] in ps
  {
    forall p | p in ps ensures [k] + p in Under(k, ps) {
      var i :| 0 <= i < |ps| && ps[i] == p;
      assert Under(k, ps)[i] == [k] + p;
    }
    assert forall p: seq<nat> :: p != [] ==> p == [p[0]] + p[1..];
    assert forall i :: 0 <= i < |ps| ==> Under(k, ps)[i][1..] == ps[i];
  }

  /** The i-th path leads to the i-th address. */
  ghost predicate LeadTo(g: Graph, a: nat, ps: seq<seq<nat>>, addrs: seq<nat>) {
    |ps| == |addrs| && forall i :: 0 <= i < |ps| ==> Reached(g, a, ps[i]) == Some(addrs[i])
  }

  lemma {:induction false} PathsLeadToNodes(g: Graph, t: Tree)
    requires Unfolds(g, t)
    ensures LeadTo(g, t.addr, Paths(t), Addrs(t)) && NoDup(Paths(t))
    ensures forall a :: a in Addrs(t) ==> !g(a).Bad?
    decreases t, 0
  {
    hide LeadTo, PathsOf, ReadsOf, KidsOf;
    RootLeads(g, t.addr);
    if t.TIndex? {
      var bs := t.branches;
      PathsLeadInto(g, t.addr, bs, 0);
      assert bs[0..] == bs;
      NoDupConcat([[]], PathsOf(bs, 0));
      LeadToConcat(g, t.addr, [[]], [t.addr], PathsOf(bs, 0), ReadsOf(bs, None));
    } else {
      assert Paths(t) == [[]] && Addrs(t) == [t.addr];
    }
  }

  lemma RootLeads(g: Graph, a: nat)
    ensures LeadTo(g, a, [[]], [a])
  {
  }

  /** The paths through the children from position k on. */
  lemma {:induction false} PathsLeadInto(g: Graph, a: nat, all: seq<Branch>, k: nat)
    requires g(a) == Index(KidsOf(all)) && UnfoldsAll(g, all) && k <= |all|
    ensures LeadTo(g, a, PathsOf(all[k..], k), ReadsOf(all[k..], None)) && NoDup(PathsOf(all[k..], k))
    ensures forall p :: p in PathsOf(all[k..], k) ==> p != [] && k <= p[0]
    ensures forall b :: b in ReadsOf(all[k..], None) ==> !g(b).Bad?
    decreases all[k..], 1
  {
    hide LeadTo;
    if k == |all| {
      EmptyLeads(g, a);
    } else {
      var t := all[k].tree;
      var rest := all[k + 1..];
      assert all[k..][1..] == rest && all[k..][0] == all[k];
      PathsLeadToNodes(g, t);
      PathsLeadInto(g, a, all, k + 1);
      var here, later := Under(k, Paths(t)), PathsOf(rest, k + 1);
      UnderNoDup(k, Paths(t));
      NoDupConcat(here, later);
      assert PathsOf(all[k..], k) == here + later;
      assert ReadsOf(all[k..], None) == Addrs(t) + ReadsOf(rest, None);
      StepInto(g, a, KidsOf(all), k, Paths(t), Addrs(t));
      LeadToConcat(g, a, here, Addrs(t), later, ReadsOf(rest, None));
    }
  }

  lemma EmptyLeads(g: Graph, a: nat)
    ensures LeadTo(g, a, [], [])
  {
  }

  lemma StepInto(g: Graph, a: nat, kids: seq<Kid>, k: nat, ps: seq<seq<nat>>, addrs: seq<nat>)
    requires g(a) == Index(kids) && k < |kids| && LeadTo(g, kids[k].child, ps, addrs)
    ensures LeadTo(g, a, Under(k, ps), addrs)
  {
    forall i | 0 <= i < |ps| ensures Reached(g, a, Under(k, ps)[i]) == Some(addrs[i]) {
      assert Under(k, ps)[i][1..] == ps[i];
    }
  }

  lemma LeadToConcat(g: Graph, a: nat, ps: seq<seq<nat>>, addrs: seq<nat>, ps': seq<seq<nat>>, addrs': seq<nat>)
    requires LeadTo(g, a, ps, addrs) && LeadTo(g, a, ps', addrs')
    ensures LeadTo(g, a, ps + ps', addrs + addrs')
  {
  }

  /** Nothing else is reached. */
  lemma {:induction false} OnlyThesePaths(g: Graph, t: Tree, p: seq<nat>)
    requires Unfolds(g, t) && Reached(g, t.addr, p).Some?
    ensures p in Paths(t) && |p| < Height(t)
    decreases t, 0
  {
    if p != [] {
      var bs := t.branches;
      assert KidsOf(bs)[p[0]].child == bs[p[0]].tree.addr;
      OnlyThesePaths(g, bs[p[0]].tree, p[1..]);
      PathIntoForest(bs, 0, p[0], p[1..]);
      assert [p[0]] + p[1..] == p;
    }
  }

  lemma {:induction false} PathIntoForest(bs: seq<Branch>, k: nat, c: nat, q: seq<nat>)
    requires c < |bs| && q in Paths(bs[c].tree) && |q| < Height(bs[c].tree)
    ensures [k + c] + q in PathsOf(bs, k) && |q| < HeightOf(bs)
    decreases bs
  {
    if c == 0 {
      var i :| 0 <= i < |Paths(bs[0].tree)| && Paths(bs[0].tree)[i] == q;
      assert Under(k, Paths(bs[0].tree))[i] == [k] + q;
    } else {
      PathIntoForest(bs[1..], k + 1, c - 1, q);
    }
  }

  /** A root from which only sound blocks are reached, to a bounded depth, unfolds to a tree. */
  lemma {:induction false} SoundUnfolds(g: Graph, a: nat, levels: nat) returns (t: Tree)
    requires ReachesOnlySound(g, a, levels)
    ensures t.addr == a && Unfolds(g, t) && Height(t) <= levels
    decreases levels, 0
  {
    assert Reached(g, a, []) == Some(a);
    match g(a) {
      case Leaf(es) => t := TLeaf(a, es);
      case Index(kids) =>
        forall i | 0 <= i < |kids| ensures ReachesOnlySound(g, kids[i].child, levels - 1) {
          forall p | Reached(g, kids[i].child, p).Some?
            ensures |p| < levels - 1 && !g(Reached(g, kids[i].child, p).value).Bad?
          {
            assert ([i] + p)[1..] == p;
            assert Reached(g, a, [i] + p) == Reached(g, kids[i].child, p);
          }
        }
        var bs := SoundForest(g, kids, levels - 1);
        t := TIndex(a, bs);
    }
  }

  lemma {:induction false} SoundForest(g: Graph, kids: seq<Kid>, levels: nat) returns (bs: seq<Branch>)
    requires forall i :: 0 <= i < |kids| ==> ReachesOnlySound(g, kids[i].child, levels)
    ensures KidsOf(bs) == kids && UnfoldsAll(g, bs) && HeightOf(bs) <= levels
    decreases levels, 1 + |kids|
  {
    if kids == [] {
      bs := [];
    } else {
      var t := SoundUnfolds(g, kids[0].child, levels);
      var rest := SoundForest(g, kids[1..], levels);
      bs := [Branch(kids[0].key, t)] + rest;
      assert bs[1..] == rest;
      assert forall i :: 0 < i < |kids| ==> KidsOf(bs)[i] == KidsOf(rest)[i - 1] == kids[i];
    }
  }

  /** The full walk succeeds exactly when no block is reached by two paths, no path from the root has more
      than 64 nodes, and every reached block is readable with a valid checksum. */
  lemma FullWalkSucceedsIffPathsSound(g: Graph, root: nat)
    ensures WalkNode(g, root, 0, None, {}).result.Ok? <==>
              ReachesOnlySound(g, root, 64) && ReachedOnce(g, root)
  {
    FullWalkSucceedsExactlyOnTrees(g, root);
    if WalkNode(g, root, 0, None, {}).result.Ok? {
      var t :| IsTreeAt(g, root, t);
      TreeIsSound(g, t);
    }
    if ReachesOnlySound(g, root, 64) && ReachedOnce(g, root) {
      var t := SoundUnfolds(g, root, 64);
      PathsLeadToNodes(g, t);
      forall i, j | 0 <= i < j < |Addrs(t)| ensures Addrs(t)[i] != Addrs(t)[j] {
        assert Reached(g, root, Paths(t)[i]) == Some(Addrs(t)[i]);
        assert Reached(g, root, Paths(t)[j]) == Some(Addrs(t)[j]);
      }
      assert IsTreeAt(g, root, t);
    }
  }

  lemma TreeIsSound(g: Graph, t: Tree)
    requires IsTreeAt(g, t.addr, t)
    ensures ReachesOnlySound(g, t.addr, 64) && ReachedOnce(g, t.addr)
  {
    PathsLeadToNodes(g, t);
    forall p | Reached(g, t.addr, p).Some?
      ensures |p| < 64 && !g(Reached(g, t.addr, p).value).Bad?
    {
      OnlyThesePaths(g, t, p);
      var i :| 0 <= i < |Paths(t)| && Paths(t)[i] == p;
      assert Addrs(t)[i] in Addrs(t);
    }
    forall p, q | Reached(g, t.addr, p).Some? && Reached(g, t.addr, p) == Reached(g, t.addr, q) ensures p == q {
      OnlyThesePaths(g, t, p);
      OnlyThesePaths(g, t, q);
      var i :| 0 <= i < |Paths(t)| && Paths(t)[i] == p;
      var j :| 0 <= j < |Paths(t)| && Paths(t)[j] == q;
      assert Addrs(t)[i] == Addrs(t)[j];
    }
  }
}
