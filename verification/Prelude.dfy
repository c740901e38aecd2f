/** Vocabulary shared by every module: outcomes, errors, bytes, and facts about sequences. */
module Prelude {

  datatype Option<+T> = None | Some(value: T)

  /** The crate's error enum; payloads that only serve the message text are dropped. */
  datatype Error =
    | Io
    | ChecksumMismatch
    | CycleGuard
    | OmapUnresolved(oid: nat, xid: nat)
    | UnexpectedObjectType
    | NoValidSuperblock(checked: nat, lastMagic: nat)
    | CheckpointTreeUnsupported
    | UnsupportedSpacemanCab(count: nat)
    | FieldOutOfRange
    | Decmpfs

  datatype Result<+T> = Ok(value: T) | Err(error: Error) {
    predicate IsFailure() {
      Err?
    }

    function PropagateFailure<U>(): Result<U>
      requires Err?
    {
      Err(error)
    }

    function Extract(): T
      requires Ok?
    {
      value
    }
  }

  /** What a walk returns besides its visits. */
  datatype Unit = Unit

  datatype Ordering = Less | Equal | Greater

  type byte = n: nat | n < 0x100 witness 0
  type Bytes = seq<byte>

  const U16_SIZE := 0x1_0000
  const U32_SIZE := 0x1_0000_0000
  const U64_SIZE := 0x1_0000_0000_0000_0000

  function Min(a: nat, b: nat): nat {
    if a <= b then a else b
  }

  function Max(a: nat, b: nat): nat {
    if a <= b then b else a
  }

  function Zeros(n: nat): (z: Bytes)
    ensures |z| == n
  {
    seq(n, _ => 0)
  }

  ghost predicate NoDup<T>(s: seq<T>) {
    forall i, j :: 0 <= i < j < |s| ==> s[i] != s[j]
  }

  function Elems<T>(s: seq<T>): set<T> {
    set x | x in s
  }

  lemma Assoc<T>(a: seq<T>, b: seq<T>, c: seq<T>)
    ensures a + (b + c) == a + b + c
  {
  }

  /** The ways to bracket a list that has one more element set apart from the rest. */
  lemma Regroup<T>(before: seq<T>, here: seq<T>, later: seq<T>, after: seq<T>)
    ensures before + (here + later) + after == before + here + (later + after)
    ensures before + (here + later) + after == (before + here) + later + after
  {
  }

  /** A middle part set apart from what surrounds it, one level further out. */
  lemma RegroupMiddle<T>(l: seq<T>, a: seq<T>, m: seq<T>, b: seq<T>, r: seq<T>)
    ensures l + (a + m + b) + r == (l + a) + m + (b + r)
  {
  }

  lemma ElemsConcat<T>(a: seq<T>, b: seq<T>)
    ensures Elems(a + b) == Elems(a) + Elems(b)
  {
  }

  lemma NoDupConcat<T>(a: seq<T>, b: seq<T>)
    ensures NoDup(a + b) <==> NoDup(a) && NoDup(b) && Elems(a) !! Elems(b)
  {
    var s := a + b;
    assert forall i :: 0 <= i < |a| ==> s[i] == a[i];
    assert forall j :: 0 <= j < |b| ==> s[|a| + j] == b[j];
    if !(Elems(a) !! Elems(b)) {
      var x :| x in Elems(a) && x in Elems(b);
      var i :| 0 <= i < |a| && a[i] == x;
      var j :| 0 <= j < |b| && b[j] == x;
      assert s[i] == s[|a| + j];
      assert !NoDup(s);
    } else if !NoDup(a) {
      var i, j :| 0 <= i < j < |a| && a[i] == a[j];
      assert s[i] == s[j];
    } else if !NoDup(b) {
      var i, j :| 0 <= i < j < |b| && b[i] == b[j];
      assert s[|a| + i] == s[|a| + j];
    }
    if NoDup(a) && NoDup(b) && Elems(a) !! Elems(b) {
      forall i, j | 0 <= i < j < |s| ensures s[i] != s[j] {
        if i < |a| <= j {
          assert s[i] in Elems(a) && s[j] in Elems(b);
        }
      }
    }
  }
}
