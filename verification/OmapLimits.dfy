/** What `resolve` needs of separators: exactly when mere bounds are enough. */
module OmapLimits {
  import opened Prelude
  import opened LittleEndian
  import opened NodeGraph
  import opened Walk
  import opened Route
  import opened Omap

  /** The target lies between a matching mapping on its left and everything the descent sees. */
  ghost predicate Misleads(t: Tree, target: OmapKey) {
    && (exists e :: e in Leaves(t) && Matches(e, target))
    && (exists e :: e in Leaves(t) && target.Lt(KeyOf(e.key)))
    && (forall e :: e in LandingRun(t, CompareTo(target)) ==> target.Lt(KeyOf(e.key)))
  }

  /** The descent takes the child whose separator is not beyond the target if that child reaches beyond it. */
  lemma ChoosesChild(t: Tree, target: OmapKey, c: nat, above: Entry)
    requires Sorted(Leaves(t)) && SeparatorsBound(t) && t.TIndex? && c < |t.branches|
    requires !target.Lt(KeyOf(t.branches[c].key))
    requires above in Leaves(t.branches[c].tree) && target.Lt(KeyOf(above.key))
    ensures ChosenIndex(KidsOf(t.branches), CompareTo(target)) == c
  {
    hide Leaves, LeavesOf, Sorted, KeyOf, Leading;
    var bs, kids, cmp := t.branches, KidsOf(t.branches), CompareTo(target);
    forall k | 0 <= k <= c ensures cmp(kids[k].key) != Greater {
      if k < c {
        EarlierSeparator(t, k, c);
      }
    }
    if c + 1 < |bs| {
      LeavesUpTo(bs, c);
      assert above in LeavesOf(bs[..c + 1]);
      assert cmp(kids[c + 1].key) == Greater;
    }
  }

  lemma EarlierSeparator(t: Tree, k: nat, c: nat)
    requires SeparatorsBound(t) && t.TIndex? && k < c < |t.branches|
    ensures KeyOf(t.branches[k].key).Lt(KeyOf(t.branches[c].key))
  {
    var bs := t.branches;
    var first := Leaves(bs[k].tree)[0];
    assert first in Leaves(bs[k].tree);
    LeavesAround(bs[..c], k);
    assert bs[..c][k] == bs[k];
    assert first in LeavesOf(bs[..c]);
  }

  lemma LeavesUpTo(bs: seq<Branch>, c: nat)
    requires c < |bs|
    ensures LeavesOf(bs[..c + 1]) == LeavesOf(bs[..c]) + Leaves(bs[c].tree)
  {
    LeavesAround(bs[..c + 1], c);
    assert bs[..c + 1][..c] == bs[..c] && bs[..c + 1][c + 1..] == [];
  }

  /** What a separator bounds. */
  lemma BoundedBySeparator(t: Tree, i: nat)
    requires SeparatorsBound(t) && t.TIndex? && i < |t.branches|
    ensures var bs := t.branches;
            && SeparatorsBound(bs[i].tree) && Leaves(bs[i].tree) != []
            && (forall e :: e in Leaves(bs[i].tree) ==> e in Leaves(t) && !KeyOf(e.key).Lt(KeyOf(bs[i].key)))
  {
    LeavesAround(t.branches, i);
  }

  lemma LastBefore(t: Tree, i: nat) returns (last: Entry)
    requires SeparatorsBound(t) && t.TIndex? && 0 < i < |t.branches|
    ensures Leaves(t.branches[i - 1].tree) != [] && KeyOf(last.key) == LastKey(t.branches[i - 1].tree)
    ensures last in Leaves(t) && KeyOf(last.key).Lt(KeyOf(t.branches[i].key))
  {
    hide KeyOf, VisitsOf;
    var before := t.branches[i - 1].tree;
    LeavesUpTo(t.branches, i - 1);
    LeavesAround(t.branches, i);
    last := Leaves(before)[|Leaves(before)| - 1];
    assert last in LeavesOf(t.branches[..i]);
  }

  /** A separator that does not tell misleads the lookup for the separator itself. */
  lemma SeparatorMisleads(t: Tree, i: nat)
    requires Sorted(Leaves(t)) && SeparatorsBound(t) && t.TIndex? && 0 < i < |t.branches|
    requires !Tells(t.branches[i - 1].tree, t.branches[i].key, t.branches[i].tree)
    ensures Misleads(t, KeyOf(t.branches[i].key))
  {
    hide Sorted, Leaves, LeavesOf, SeparatorsBound, ChosenIndex, KeyOf;
    var target, here := KeyOf(t.branches[i].key), t.branches[i].tree;
    BoundedBySeparator(t, i);
    BranchIsSorted(t, i);
    var last := LastBefore(t, i);
    var first := Leaves(here)[0];
    assert first in Leaves(here);
    ChoosesChild(t, target, i, first);
    AllBeyond(here, target);
    assert Matches(last, target);
  }

  lemma AllBeyond(t: Tree, target: OmapKey)
    requires Sorted(Leaves(t)) && Leaves(t) != [] && target.Lt(FirstKey(t))
    ensures forall e :: e in LandingRun(t, CompareTo(target)) ==> target.Lt(KeyOf(e.key))
  {
    hide Sorted, Leaves, LandingRun, LeftOfRun, RightOfRun;
    RunIsContiguous(t, CompareTo(target));
    forall e | e in Leaves(t) ensures target.Lt(KeyOf(e.key)) {
      AtLeastFirst(Leaves(t), e);
    }
  }

  lemma AtLeastFirst(es: seq<Entry>, e: Entry)
    requires Sorted(es) && e in es
    ensures es[0] == e || KeyOf(es[0].key).Lt(KeyOf(e.key))
  {
    var i :| 0 <= i < |es| && es[i] == e;
  }

  /** So does one below a child. */
  lemma ChildMisleads(t: Tree, i: nat, target: OmapKey)
    requires Sorted(Leaves(t)) && SeparatorsBound(t) && t.TIndex? && i < |t.branches|
    requires Misleads(t.branches[i].tree, target)
    ensures Misleads(t, target)
  {
    hide Sorted, Leaves, LeavesOf, SeparatorsBound, KeyOf;
    var here := t.branches[i].tree;
    BoundedBySeparator(t, i);
    var below :| below in Leaves(here) && Matches(below, target);
    var above :| above in Leaves(here) && target.Lt(KeyOf(above.key));
    ChoosesChild(t, target, i, above);
  }

  lemma {:induction false} MisledTarget(t: Tree) returns (target: OmapKey)
    requires Sorted(Leaves(t)) && SeparatorsBound(t) && !SeparatorsTell(t)
    ensures Misleads(t, target)
    decreases t
  {
    var i :| 0 <= i < |t.branches| &&
             (!SeparatorsTell(t.branches[i].tree) ||
              (i > 0 && !Tells(t.branches[i - 1].tree, t.branches[i].key, t.branches[i].tree)));
    if !SeparatorsTell(t.branches[i].tree) {
      BranchIsSorted(t, i);
      target := MisledTarget(t.branches[i].tree);
      ChildMisleads(t, i, target);
    } else {
      target := KeyOf(t.branches[i].key);
      SeparatorMisleads(t, i);
    }
  }

  /** On a misleading target the lookup finds nothing although there is something to find. */
  lemma MisledLookup(g: Graph, t: Tree, target: OmapKey)
    requires Unfolds(g, t) && Height(t) <= MAX_DEPTH && Misleads(t, target)
    ensures ResolveIn(g, t.addr, target) == Err(OmapUnresolved(target.oid, target.xid))
    ensures Found(Scan(None, Leaves(t), target), target).Ok?
  {
    DescentOnTree(g, t, CompareTo(target), MAX_DEPTH);
    ScanFindsFloor(LandingRun(t, CompareTo(target)), target);
    ScanFindsFloor(Leaves(t), target);
  }

  /** The lookup agrees with the scan of everything the full walk visits. */
  ghost predicate ResolvesFloor(g: Graph, root: nat, target: OmapKey) {
    ResolveIn(g, root, target) == Found(Scan(None, WalkNode(g, root, 0, None, {}).visits, target), target)
  }

  /** With separators that are bounds, the lookup is right for every target exactly when every separator but
      a node's first either is exact or belongs to another object than the mapping just before it. */
  lemma ResolveIsFloorIffSeparatorsTell(g: Graph, root: nat, t: Tree)
    requires IsTreeAt(g, root, t) && Sorted(Leaves(t)) && SeparatorsBound(t)
    ensures SeparatorsTell(t) <==> forall target :: ResolvesFloor(g, root, target)
  {
    FullWalkSucceedsExactlyOnTrees(g, root);
    if SeparatorsTell(t) {
      forall target ensures ResolvesFloor(g, root, target) {
        ResolveScansAll(g, t, target);
      }
    } else {
      var target := MisledTarget(t);
      MisledLookup(g, t, target);
      assert !ResolvesFloor(g, root, target);
    }
  }
}
