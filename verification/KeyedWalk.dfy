/** What pruning by object id preserves, and what it costs. */
module KeyedWalk {
  import opened Prelude
  import opened FsRecord
  import opened NodeGraph
  import opened Walk

  /** The records of one object, in order. */
  function RecordsOf(es: seq<Entry>, oid: nat): seq<Entry> {
    if es == [] then []
    else (if KeyOid(es[0].key) == oid then [es[0]] else []) + RecordsOf(es[1..], oid)
  }

  /** Order by object id: each child's records lie between its separator and the next one's. */
  ghost predicate OidOrdered(t: Tree)
    decreases t, 0
  {
    t.TIndex? ==> OidOrderedOf(t.branches)
  }

  ghost predicate OidOrderedOf(bs: seq<Branch>)
    decreases bs, 1
  {
    bs == [] ||
    (&& (forall e :: e in Leaves(bs[0].tree) ==>
           && KeyOid(bs[0].key) <= KeyOid(e.key)
           && (|bs| > 1 ==> KeyOid(e.key) <= KeyOid(bs[1].key)))
     && OidOrdered(bs[0].tree)
     && OidOrderedOf(bs[1..]))
  }

  lemma {:induction false} RecordsOfConcat(a: seq<Entry>, b: seq<Entry>, oid: nat)
    ensures RecordsOf(a + b, oid) == RecordsOf(a, oid) + RecordsOf(b, oid)
  {
    hide KeyOid;
    if a == [] {
      assert a + b == b && [] + RecordsOf(b, oid) == RecordsOf(b, oid);
    } else {
      assert (a + b)[1..] == a[1..] + b;
      RecordsOfConcat(a[1..], b, oid);
      Assoc(if KeyOid(a[0].key) == oid then [a[0]] else [], RecordsOf(a[1..], oid), RecordsOf(b, oid));
    }
  }

  lemma {:induction false} NoRecordsIff(es: seq<Entry>, oid: nat)
    ensures RecordsOf(es, oid) == [] <==> forall e :: e in es ==> KeyOid(e.key) != oid
  {
    if es != [] {
      NoRecordsIff(es[1..], oid);
      assert forall e :: e in es <==> e == es[0] || e in es[1..];
    }
  }

  /** Pruning loses no record of the target and keeps their order. */
  lemma {:induction false} PruningKeepsRecords(t: Tree, oid: nat)
    requires OidOrdered(t)
    ensures RecordsOf(Visits(t, Some(oid)), oid) == RecordsOf(Leaves(t), oid)
    decreases t, 0
  {
    if t.TIndex? {
      PruningKeepsRecordsOf(t.branches, oid);
    }
  }

  lemma {:induction false} PruningKeepsRecordsOf(bs: seq<Branch>, oid: nat)
    requires OidOrderedOf(bs)
    ensures RecordsOf(VisitsOf(bs, Some(oid)), oid) == RecordsOf(LeavesOf(bs), oid)
    decreases bs, 1
  {
    if bs != [] {
      PruningKeepsRecords(bs[0].tree, oid);
      PruningKeepsRecordsOf(bs[1..], oid);
      RecordsOfFirstAndRest(bs, oid);
      NoRecordsIff(Leaves(bs[0].tree), oid);
    }
  }

  lemma {:induction false} PruningAddsNoRecord(t: Tree, oid: nat)
    ensures |RecordsOf(Visits(t, Some(oid)), oid)| <= |RecordsOf(Leaves(t), oid)|
    decreases t, 0
  {
    if t.TIndex? {
      PruningAddsNoRecordOf(t.branches, oid);
    }
  }

  lemma {:induction false} PruningAddsNoRecordOf(bs: seq<Branch>, oid: nat)
    ensures |RecordsOf(VisitsOf(bs, Some(oid)), oid)| <= |RecordsOf(LeavesOf(bs), oid)|
    decreases bs, 1
  {
    if bs != [] {
      PruningAddsNoRecord(bs[0].tree, oid);
      PruningAddsNoRecordOf(bs[1..], oid);
      RecordsOfFirstAndRest(bs, oid);
    }
  }

  lemma RecordsOfFirstAndRest(bs: seq<Branch>, oid: nat)
    requires bs != []
    ensures var here, rest := bs[0].tree, bs[1..];
            && RecordsOf(LeavesOf(bs), oid) == RecordsOf(Leaves(here), oid) + RecordsOf(LeavesOf(rest), oid)
            && RecordsOf(VisitsOf(bs, Some(oid)), oid)
               == (if Descends(bs[0].key, NextBranch(bs), Some(oid))
                   then RecordsOf(Visits(here, Some(oid)), oid) else [])
                  + RecordsOf(VisitsOf(rest, Some(oid)), oid)
  {
    hide RecordsOf, Visits, KeyOid;
    var here, rest := bs[0].tree, bs[1..];
    RecordsOfConcat(Leaves(here), LeavesOf(rest), oid);
    RecordsOfConcat(Visits(here, Some(oid)), VisitsOf(rest, Some(oid)), oid);
    assert [] + VisitsOf(rest, Some(oid)) == VisitsOf(rest, Some(oid));
    assert [] + RecordsOf(VisitsOf(rest, Some(oid)), oid) == RecordsOf(VisitsOf(rest, Some(oid)), oid);
  }

  /** A tree not ordered by object id has an object whose walk loses a record. */
  lemma {:induction false} DisorderLosesARecord(t: Tree) returns (oid: nat)
    requires !OidOrdered(t)
    ensures |RecordsOf(Visits(t, Some(oid)), oid)| < |RecordsOf(Leaves(t), oid)|
    decreases t, 0
  {
    oid := DisorderLosesARecordOf(t.branches);
  }

  lemma {:induction false} DisorderLosesARecordOf(bs: seq<Branch>) returns (oid: nat)
    requires !OidOrderedOf(bs)
    ensures |RecordsOf(VisitsOf(bs, Some(oid)), oid)| < |RecordsOf(LeavesOf(bs), oid)|
    decreases bs, 1
  {
    var here, rest := bs[0].tree, bs[1..];
    if !OidOrderedOf(rest) {
      oid := DisorderLosesARecordOf(rest);
    } else if !OidOrdered(here) {
      oid := DisorderLosesARecord(here);
    } else {
      var e :| e in Leaves(here) && !Descends(bs[0].key, NextBranch(bs), Some(KeyOid(e.key)));
      oid := KeyOid(e.key);
      NoRecordsIff(Leaves(here), oid);
    }
    PruningAddsNoRecord(here, oid);
    PruningAddsNoRecordOf(rest, oid);
    RecordsOfFirstAndRest(bs, oid);
  }

  /** Pruning only removes reads. */
  lemma {:induction false} PrunedReads(t: Tree, target: Option<nat>)
    requires NoDup(Addrs(t))
    ensures NoDup(Reads(t, target)) && Elems(Reads(t, target)) <= Elems(Addrs(t))
    decreases t, 0
  {
    if t.TIndex? {
      NoDupConcat([t.addr], ReadsOf(t.branches, None));
      PrunedReadsOf(t.branches, target);
      NoDupConcat([t.addr], ReadsOf(t.branches, target));
      ElemsConcat([t.addr], ReadsOf(t.branches, None));
      ElemsConcat([t.addr], ReadsOf(t.branches, target));
    }
  }

  lemma {:induction false} PrunedReadsOf(bs: seq<Branch>, target: Option<nat>)
    requires NoDup(ReadsOf(bs, None))
    ensures NoDup(ReadsOf(bs, target)) && Elems(ReadsOf(bs, target)) <= Elems(ReadsOf(bs, None))
    decreases bs, 1
  {
    if bs != [] {
      var all, rest := Addrs(bs[0].tree), ReadsOf(bs[1..], None);
      assert ReadsOf(bs, None) == all + rest;
      NoDupConcat(all, rest);
      ElemsConcat(all, rest);
      PrunedReadsOf(bs[1..], target);
      if Descends(bs[0].key, NextBranch(bs), target) {
        PrunedReads(bs[0].tree, target);
        NoDupConcat(Reads(bs[0].tree, target), ReadsOf(bs[1..], target));
        ElemsConcat(Reads(bs[0].tree, target), ReadsOf(bs[1..], target));
      } else {
        assert ReadsOf(bs, target) == ReadsOf(bs[1..], target);
      }
    }
  }

  /** On a tree ordered by object id, where the full walk succeeds the keyed walk succeeds for every target
      and sees the same records of that target in the same order. */
  lemma KeyedWalkAgreesWithFullWalk(g: Graph, root: nat, t: Tree, oid: nat)
    requires IsTreeAt(g, root, t) && OidOrdered(t)
    ensures var full, keyed := WalkNode(g, root, 0, None, {}), WalkNode(g, root, 0, Some(oid), {});
            && full.result.Ok? && keyed.result.Ok?
            && RecordsOf(keyed.visits, oid) == RecordsOf(full.visits, oid)
            && Elems(keyed.trail) <= Elems(full.trail)
  {
    FullWalkSucceedsExactlyOnTrees(g, root);
    PrunedReads(t, Some(oid));
    WholeTree(g, t, Some(oid));
    WalkOnTree(g, t, 0, Some(oid), {});
    PruningKeepsRecords(t, oid);
  }

  /** The keyed walk succeeds and, filtered to the object, visits what the filtered full walk does. */
  ghost predicate KeyedWalkAgrees(g: Graph, root: nat, oid: nat) {
    var full, keyed := WalkNode(g, root, 0, None, {}), WalkNode(g, root, 0, Some(oid), {});
    keyed.result.Ok? && RecordsOf(keyed.visits, oid) == RecordsOf(full.visits, oid)
  }

  /** Where the full walk succeeds, the keyed walk agrees for every object exactly when the tree is ordered by
      object id. */
  lemma KeyedWalkAgreesIffOrdered(g: Graph, root: nat, t: Tree)
    requires IsTreeAt(g, root, t)
    ensures OidOrdered(t) <==> forall oid: nat :: KeyedWalkAgrees(g, root, oid)
  {
    hide RecordsOf, Visits, OidOrdered;
    if OidOrdered(t) {
      forall oid: nat ensures KeyedWalkAgrees(g, root, oid) {
        KeyedWalkAgreesWithFullWalk(g, root, t, oid);
      }
    } else {
      var oid := DisorderLosesARecord(t);
      FullWalkSucceedsExactlyOnTrees(g, root);
      PrunedReads(t, Some(oid));
      WholeTree(g, t, Some(oid));
      WalkOnTree(g, t, 0, Some(oid), {});
      assert !KeyedWalkAgrees(g, root, oid);
    }
  }

  // ---- what pruning costs ----

  /** The nodes a (keyed) walk descends, in preorder; without a target, all of the tree's nodes. */
  function Descended(t: Tree, target: Option<nat>): seq<Tree>
    decreases t, 0
  {
    [t] + if t.TLeaf? then [] else DescendedOf(t.branches, target)
  }

  function DescendedOf(bs: seq<Branch>, target: Option<nat>): seq<Tree>
    decreases bs, 1
  {
    if bs == [] then []
    else (if Descends(bs[0].key, NextBranch(bs), target) then Descended(bs[0].tree, target) else [])
         + DescendedOf(bs[1..], target)
  }

  function AddrsOf(ts: seq<Tree>): (addrs: seq<nat>)
    ensures |addrs| == |ts|
  {
    seq(|ts|, i requires 0 <= i < |ts| => ts[i].addr)
  }

  predicate HoldsRecord(t: Tree, oid: nat) {
    RecordsOf(Leaves(t), oid) != []
  }

  /** Those whose subtree holds no record of the object. */
  function Useless(ts: seq<Tree>, oid: nat): seq<Tree> {
    if ts == [] then [] else (if HoldsRecord(ts[0], oid) then [] else [ts[0]]) + Useless(ts[1..], oid)
  }

  /** From the root, always to the first child descended. */
  function Spine(t: Tree, oid: nat): seq<Tree>
    decreases t, 0
  {
    [t] + if t.TLeaf? then [] else SpineOf(t.branches, oid)
  }

  function SpineOf(bs: seq<Branch>, oid: nat): seq<Tree>
    decreases bs, 1
  {
    if bs == [] then []
    else if Descends(bs[0].key, NextBranch(bs), Some(oid)) then Spine(bs[0].tree, oid)
    else SpineOf(bs[1..], oid)
  }

  /** A path from the tree's root down, each node a child of the one before. */
  ghost predicate IsRootPath(t: Tree, path: seq<Tree>)
    decreases path, 0
  {
    && path != [] && path[0] == t
    && (|path| > 1 ==> t.TIndex? && IsPathInto(t.branches, path[1..]))
  }

  ghost predicate IsPathInto(bs: seq<Branch>, path: seq<Tree>)
    decreases path, 1
  {
    exists k :: 0 <= k < |bs| && IsRootPath(bs[k].tree, path)
  }

  lemma AddrsOfConcat(a: seq<Tree>, b: seq<Tree>)
    ensures AddrsOf(a + b) == AddrsOf(a) + AddrsOf(b)
  {
  }

  lemma AddrsOfOne(t: Tree)
    ensures AddrsOf([t]) == [t.addr] && AddrsOf([]) == []
  {
  }

  lemma {:induction false} ReadsAreDescended(t: Tree, target: Option<nat>)
    ensures Reads(t, target) == AddrsOf(Descended(t, target))
    decreases t, 0
  {
    hide AddrsOf, ReadsOf, DescendedOf;
    AddrsOfOne(t);
    if t.TIndex? {
      ReadsOfAreDescended(t.branches, target);
      AddrsOfConcat([t], DescendedOf(t.branches, target));
    } else {
      AddrsOfConcat([t], []);
    }
  }

  lemma {:induction false} ReadsOfAreDescended(bs: seq<Branch>, target: Option<nat>)
    ensures ReadsOf(bs, target) == AddrsOf(DescendedOf(bs, target))
    decreases bs, 1
  {
    if bs != [] {
      hide AddrsOf, Reads, Descended, Descends;
      var here := bs[0].tree;
      AddrsOfOne(here);
      ReadsAreDescended(here, target);
      ReadsOfAreDescended(bs[1..], target);
      AddrsOfConcat(if Descends(bs[0].key, NextBranch(bs), target) then Descended(here, target) else [],
                    DescendedOf(bs[1..], target));
    }
  }

  lemma {:induction false} UselessConcat(a: seq<Tree>, b: seq<Tree>, oid: nat)
    ensures Useless(a + b, oid) == Useless(a, oid) + Useless(b, oid)
  {
    hide HoldsRecord;
    if a == [] {
      assert a + b == b;
    } else {
      assert (a + b)[1..] == a[1..] + b;
      UselessConcat(a[1..], b, oid);
      Assoc(if HoldsRecord(a[0], oid) then [] else [a[0]], Useless(a[1..], oid), Useless(b, oid));
    }
  }

  lemma UselessOfFirstAndRest(bs: seq<Branch>, oid: nat)
    requires bs != []
    ensures Useless(DescendedOf(bs, Some(oid)), oid)
         == (if Descends(bs[0].key, NextBranch(bs), Some(oid)) then Useless(Descended(bs[0].tree, Some(oid)), oid)
             else []) + Useless(DescendedOf(bs[1..], Some(oid)), oid)
  {
    hide HoldsRecord, Descends, Descended;
    var descends := Descends(bs[0].key, NextBranch(bs), Some(oid));
    UselessConcat(if descends then Descended(bs[0].tree, Some(oid)) else [], DescendedOf(bs[1..], Some(oid)), oid);
  }

  lemma UselessOfNode(t: Tree, oid: nat)
    ensures var below := if t.TLeaf? then [] else Useless(DescendedOf(t.branches, Some(oid)), oid);
            Useless(Descended(t, Some(oid)), oid) == (if HoldsRecord(t, oid) then [] else [t]) + below
  {
    hide HoldsRecord, DescendedOf;
    var below := if t.TLeaf? then [] else DescendedOf(t.branches, Some(oid));
    assert ([t] + below)[1..] == below;
  }

  /** Every separator's object id occurs in its child's subtree, so with OidOrdered it is the exact minimum. */
  ghost predicate SeparatorsOccur(t: Tree)
    decreases t, 0
  {
    t.TIndex? ==> SeparatorsOccurIn(t.branches)
  }

  ghost predicate SeparatorsOccurIn(bs: seq<Branch>)
    decreases bs, 1
  {
    bs == [] ||
    (&& (exists e :: e in Leaves(bs[0].tree) && KeyOid(e.key) == KeyOid(bs[0].key))
     && SeparatorsOccur(bs[0].tree)
     && SeparatorsOccurIn(bs[1..]))
  }

  /** No useless node lies below a subtree whose records start at the target, and all useless nodes lie on the
      spine, so no index node has two useless children that are descended. */
  lemma {:induction false} WasteIsOneSpine(t: Tree, oid: nat)
    requires OidOrdered(t) && SeparatorsOccur(t)
    ensures var useless := Useless(Descended(t, Some(oid)), oid);
            && |useless| <= Height(t)
            && (forall x :: x in useless ==> x in Spine(t, oid))
            && (HoldsRecord(t, oid) && (forall e :: e in Leaves(t) ==> oid <= KeyOid(e.key)) ==> useless == [])
    decreases t, 0
  {
    UselessOfNode(t, oid);
    if t.TIndex? {
      var bs := t.branches;
      WasteOfForest(bs, oid);
      if HoldsRecord(t, oid) && forall e :: e in Leaves(t) ==> oid <= KeyOid(e.key) {
        assert Leaves(t) == VisitsOf(bs, None);
        if bs != [] {
          var e :| e in Leaves(bs[0].tree) && KeyOid(e.key) == KeyOid(bs[0].key);
          assert e in Leaves(t);
        }
      }
    }
  }

  lemma {:induction false} WasteOfForest(bs: seq<Branch>, oid: nat)
    requires OidOrderedOf(bs) && SeparatorsOccurIn(bs)
    ensures var useless := Useless(DescendedOf(bs, Some(oid)), oid);
            && |useless| <= HeightOf(bs)
            && (forall x :: x in useless ==> x in SpineOf(bs, oid))
            && (bs != [] && oid <= KeyOid(bs[0].key) ==> useless == [])
    decreases bs, 1
  {
    if bs != [] {
      hide HoldsRecord, Descended, Useless, Spine, Height, Visits, OidOrdered, SeparatorsOccur;
      UselessOfFirstAndRest(bs, oid);
      WasteIsOneSpine(bs[0].tree, oid);
      WasteOfForest(bs[1..], oid);
      var e :| e in Leaves(bs[0].tree) && KeyOid(e.key) == KeyOid(bs[0].key);
      HoldsIff(bs[0].tree, oid);
      assert |bs| > 1 ==> KeyOid(bs[0].key) <= KeyOid(bs[1].key);
    }
  }

  lemma HoldsIff(t: Tree, oid: nat)
    ensures HoldsRecord(t, oid) <==> exists e :: e in Leaves(t) && KeyOid(e.key) == oid
  {
    NoRecordsIff(Leaves(t), oid);
  }

  lemma {:induction false} SpineIsAPath(t: Tree, oid: nat)
    ensures IsRootPath(t, Spine(t, oid))
    decreases t, 0
  {
    if t.TIndex? {
      SpineOfIsAPath(t.branches, oid);
      assert Spine(t, oid)[1..] == SpineOf(t.branches, oid);
    }
  }

  lemma {:induction false} SpineOfIsAPath(bs: seq<Branch>, oid: nat)
    ensures SpineOf(bs, oid) != [] ==> IsPathInto(bs, SpineOf(bs, oid))
    decreases bs, 1
  {
    if bs == [] {
    } else if Descends(bs[0].key, NextBranch(bs), Some(oid)) {
      SpineIsAPath(bs[0].tree, oid);
    } else {
      SpineOfIsAPath(bs[1..], oid);
      if SpineOf(bs, oid) != [] {
        var k :| 0 <= k < |bs[1..]| && IsRootPath(bs[1..][k].tree, SpineOf(bs, oid));
        assert bs[k + 1] == bs[1..][k];
      }
    }
  }

  /** Every node whose subtree holds a record is descended. */
  lemma {:induction false} HoldingNodesAreRead(t: Tree, oid: nat, x: Tree)
    requires OidOrdered(t) && x in Descended(t, None) && HoldsRecord(x, oid)
    ensures HoldsRecord(t, oid) && x in Descended(t, Some(oid))
    decreases t, 0
  {
    if x != t {
      HoldingNodesOfForestAreRead(t.branches, oid, x);
    }
  }

  lemma {:induction false} HoldingNodesOfForestAreRead(bs: seq<Branch>, oid: nat, x: Tree)
    requires OidOrderedOf(bs) && x in DescendedOf(bs, None) && HoldsRecord(x, oid)
    ensures RecordsOf(LeavesOf(bs), oid) != [] && x in DescendedOf(bs, Some(oid))
    decreases bs, 1
  {
    RecordsOfFirstAndRest(bs, oid);
    if x in Descended(bs[0].tree, None) {
      HoldingNodesAreRead(bs[0].tree, oid, x);
      NoRecordsIff(Leaves(bs[0].tree), oid);
    } else {
      HoldingNodesOfForestAreRead(bs[1..], oid, x);
    }
  }

  /** With separators whose object ids occur below them, the keyed walk reads every node that leads to a record
      of the target; the nodes it reads that lead to none are at most as many as the tree is high, and lie on
      one path from the root. */
  lemma PruningWasteIsBounded(g: Graph, root: nat, t: Tree, oid: nat)
    requires IsTreeAt(g, root, t) && OidOrdered(t) && SeparatorsOccur(t)
    ensures var read := Descended(t, Some(oid));
            && WalkNode(g, root, 0, Some(oid), {}).trail == AddrsOf(read)
            && (forall x :: x in Descended(t, None) && HoldsRecord(x, oid) ==> x in read)
            && |Useless(read, oid)| <= Height(t)
            && IsRootPath(t, Spine(t, oid)) && (forall x :: x in Useless(read, oid) ==> x in Spine(t, oid))
  {
    hide Descended, HoldsRecord, Useless, Spine, IsRootPath, OidOrdered, WalkNode, Reads;
    PrunedReads(t, Some(oid));
    WholeTree(g, t, Some(oid));
    WalkOnTree(g, t, 0, Some(oid), {});
    ReadsAreDescended(t, Some(oid));
    WasteIsOneSpine(t, oid);
    SpineIsAPath(t, oid);
    forall x | x in Descended(t, None) && HoldsRecord(x, oid) ensures x in Descended(t, Some(oid)) {
      HoldingNodesAreRead(t, oid, x);
    }
  }
}
