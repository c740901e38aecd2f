/** B-trees as a walk sees them. A graph says what each address decodes to and may be cyclic or broken
    in any way; a tree is what a well-formed part of a graph unfolds to. */
module NodeGraph {
  import opened Prelude
  import opened FsRecord

  datatype Entry = Entry(key: Bytes, value: Bytes)

  /** An index entry: separator key and decoded child address. */
  datatype Kid = Kid(key: Bytes, child: nat)

  /** Bad is a failed read, checksum or address lookup. A block too short to hold a node header is an
      empty leaf: every walk returns from it successfully without a visit. */
  datatype Node = Bad(error: Error) | Leaf(entries: seq<Entry>) | Index(kids: seq<Kid>)

  type Graph = nat -> Node

  const MAX_DEPTH: nat := 64

  datatype Tree = TLeaf(addr: nat, entries: seq<Entry>) | TIndex(addr: nat, branches: seq<Branch>)
  datatype Branch = Branch(key: Bytes, tree: Tree)

  function KidsOf(bs: seq<Branch>): (kids: seq<Kid>)
    ensures |kids| == |bs|
  {
    seq(|bs|, i requires 0 <= i < |bs| => Kid(bs[i].key, bs[i].tree.addr))
  }

  /** The graph, read from the tree's root address, unfolds to the tree. */
  ghost predicate Unfolds(g: Graph, t: Tree) {
    match t
    case TLeaf(a, es) => g(a) == Leaf(es)
    case TIndex(a, bs) =>
      g(a) == Index(KidsOf(bs)) && forall i :: 0 <= i < |bs| ==> Unfolds(g, bs[i].tree)
  }

  ghost predicate UnfoldsAll(g: Graph, bs: seq<Branch>) {
    forall i :: 0 <= i < |bs| ==> Unfolds(g, bs[i].tree)
  }

  function Height(t: Tree): (h: nat)
    ensures h >= 1
    decreases t, 0
  {
    match t
    case TLeaf(_, _) => 1
    case TIndex(_, bs) => 1 + HeightOf(bs)
  }

  function HeightOf(bs: seq<Branch>): nat
    decreases bs, 1
  {
    if bs == [] then 0 else Max(Height(bs[0].tree), HeightOf(bs[1..]))
  }

  /** src/dir.rs `child_may_contain_oid`. */
  predicate ChildMayContainOid(sepOid: nat, nextSepOid: Option<nat>, target: nat) {
    sepOid <= target && (nextSepOid.None? || nextSepOid.value >= target)
  }

  /** Whether a walk descends a child with this separator; a walk without a target descends them all. */
  predicate Descends(key: Bytes, next: Option<Bytes>, target: Option<nat>) {
    match target
    case None => true
    case Some(oid) =>
      ChildMayContainOid(KeyOid(key), if next.Some? then Some(KeyOid(next.value)) else None, oid)
  }

  function NextKid(kids: seq<Kid>): Option<Bytes> {
    if |kids| > 1 then Some(kids[1].key) else None
  }

  function NextBranch(bs: seq<Branch>): Option<Bytes> {
    if |bs| > 1 then Some(bs[1].key) else None
  }

  /** The leaf entries under the children a (keyed) walk descends, left to right. */
  function Visits(t: Tree, target: Option<nat>): seq<Entry>
    decreases t, 0
  {
    match t
    case TLeaf(_, es) => es
    case TIndex(_, bs) => VisitsOf(bs, target)
  }

  function VisitsOf(bs: seq<Branch>, target: Option<nat>): seq<Entry>
    decreases bs, 1
  {
    if bs == [] then []
    else (if Descends(bs[0].key, NextBranch(bs), target) then Visits(bs[0].tree, target) else [])
         + VisitsOf(bs[1..], target)
  }

  /** The addresses of the nodes a (keyed) walk descends, in preorder. */
  function Reads(t: Tree, target: Option<nat>): seq<nat>
    decreases t, 0
  {
    [t.addr] + if t.TLeaf? then [] else ReadsOf(t.branches, target)
  }

  function ReadsOf(bs: seq<Branch>, target: Option<nat>): seq<nat>
    decreases bs, 1
  {
    if bs == [] then []
    else (if Descends(bs[0].key, NextBranch(bs), target) then Reads(bs[0].tree, target) else [])
         + ReadsOf(bs[1..], target)
  }

  /** All leaf entries left to right, and all addresses in preorder. */
  function Leaves(t: Tree): seq<Entry> {
    Visits(t, None)
  }

  function LeavesOf(bs: seq<Branch>): seq<Entry> {
    VisitsOf(bs, None)
  }

  function Addrs(t: Tree): seq<nat> {
    Reads(t, None)
  }
}
