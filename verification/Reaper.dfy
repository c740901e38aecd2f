/** src/reaper.rs: the objects pending deletion, read along the chain of reap lists. */
module Reaper {
  import opened Prelude
  import opened LittleEndian
  import opened Object
  import opened BlockReader
  import opened Checkpoint

  const MAX_REAP_LISTS: nat := 4096

  datatype ReapPending = ReapPending(oid: nat, objType: nat)

  /** The first mapping of an ephemeral object id. */
  function Lookup(mappings: seq<Mapping>, oid: nat): Option<nat> {
    if mappings == [] then None
    else if mappings[0].oid == oid then Some(mappings[0].paddr)
    else Lookup(mappings[1..], oid)
  }

  /** A reap list: mapped, read, checksum verified. */
  function ListAt(img: Image, mappings: seq<Mapping>, oid: nat): Result<Bytes> {
    match Lookup(mappings, oid)
    case None => Err(OmapUnresolved(oid, 0))
    case Some(paddr) => ReadObjBlock(img, paddr)
  }

  function NextOid(list: Bytes): nat {
    LeU64(list, 32)
  }

  function MaxEntries(img: Image): nat {
    if img.blockSize < 64 then 0 else (img.blockSize - 64) / 40
  }

  function EntryCount(img: Image, list: Bytes): nat {
    Min(LeU32(list, 48), MaxEntries(img))
  }

  /** The non-zero entries among a list's first n. */
  function EntriesUpTo(list: Bytes, n: nat): seq<ReapPending> {
    if n == 0 then []
    else
      var e := 64 + (n - 1) * 40;
      var oid := LeU64(list, e + 24);
      EntriesUpTo(list, n - 1) + if oid != 0 then [ReapPending(oid, LeU32(list, e + 8))] else []
  }

  function EntriesOf(img: Image, list: Bytes): seq<ReapPending> {
    EntriesUpTo(list, EntryCount(img, list))
  }

  /** The chain walk from an object id on. */
  function Follow(img: Image, mappings: seq<Mapping>, oid: nat, seen: set<nat>): Result<seq<ReapPending>>
    decreases MAX_REAP_LISTS + 1 - |seen|
  {
    if oid == 0 then Ok([])
    else if oid in seen || |seen| >= MAX_REAP_LISTS then Err(CycleGuard)
    else
      var list :- ListAt(img, mappings, oid);
      var rest :- Follow(img, mappings, NextOid(list), seen + {oid});
      Ok(EntriesOf(img, list) + rest)
  }

  /** The object whose reaping is in progress, if any. */
  function InProgress(reaper: Bytes): seq<ReapPending> {
    if LeU64(reaper, 88) != 0 then [ReapPending(LeU64(reaper, 88), LeU32(reaper, 72))] else []
  }

  function Pending(img: Image, reaperPaddr: nat, mappings: seq<Mapping>): Result<seq<ReapPending>> {
    var reaper :- ReadObjBlock(img, reaperPaddr);
    var queued :- Follow(img, mappings, LeU64(reaper, 48), {});
    Ok(InProgress(reaper) + queued)
  }

  /** `pending_objects`. */
  method PendingObjects(img: Image, reaperPaddr: nat, mappings: seq<Mapping>) returns (r: Result<seq<ReapPending>>)
    ensures r == Pending(img, reaperPaddr, mappings)
  {
    hide ReadObjBlock, LeU64, LeU32, ListAt, EntriesOf, Follow;
    var reaper :- ReadObjBlockInto(img, reaperPaddr);
    var out := InProgress(reaper);
    var seen, next := {}, LeU64(reaper, 48);
    while next != 0
      invariant |seen| <= MAX_REAP_LISTS
      invariant Pending(img, reaperPaddr, mappings) == Prepend(out, Follow(img, mappings, next, seen))
      decreases MAX_REAP_LISTS - |seen|
    {
      FollowStep(img, mappings, next, seen, out);
      if next in seen || |seen + {next}| > MAX_REAP_LISTS {
        return Err(CycleGuard);
      }
      seen := seen + {next};
      var list := ReadList(img, mappings, next);
      if list.Err? {
        return Err(list.error);
      }
      var entries := CollectEntries(img, list.value);
      out := out + entries;
      next := NextOid(list.value);
    }
    FollowEnds(img, mappings, seen, out);
    return Ok(out);
  }

  function Prepend(a: seq<ReapPending>, r: Result<seq<ReapPending>>): Result<seq<ReapPending>> {
    match r
    case Err(e) => Err(e)
    case Ok(b) => Ok(a + b)
  }

  lemma FollowEnds(img: Image, mappings: seq<Mapping>, seen: set<nat>, out: seq<ReapPending>)
    ensures Prepend(out, Follow(img, mappings, 0, seen)) == Ok(out)
  {
    assert out + [] == out;
  }

  lemma FollowStep(img: Image, mappings: seq<Mapping>, oid: nat, seen: set<nat>, out: seq<ReapPending>)
    requires oid != 0
    ensures oid !in seen ==> |seen + {oid}| == |seen| + 1
    ensures Prepend(out, Follow(img, mappings, oid, seen))
         == if oid in seen || |seen| >= MAX_REAP_LISTS then Err(CycleGuard)
            else
              var list := ListAt(img, mappings, oid);
              if list.Err? then Err(list.error)
              else Prepend(out + EntriesOf(img, list.value),
                           Follow(img, mappings, NextOid(list.value), seen + {oid}))
  {
    hide ListAt, EntriesOf, NextOid;
    var list := ListAt(img, mappings, oid);
    if list.Ok? {
      var rest := Follow(img, mappings, NextOid(list.value), seen + {oid});
      if rest.Ok? {
        Assoc(out, EntriesOf(img, list.value), rest.value);
      }
    }
  }

  method ReadList(img: Image, mappings: seq<Mapping>, oid: nat) returns (r: Result<Bytes>)
    ensures r == ListAt(img, mappings, oid)
  {
    hide ReadObjBlock;
    var i := 0;
    assert mappings[0..] == mappings;
    while i < |mappings| && mappings[i].oid != oid
      invariant 0 <= i <= |mappings| && Lookup(mappings, oid) == Lookup(mappings[i..], oid)
    {
      assert mappings[i..][1..] == mappings[i + 1..];
      i := i + 1;
    }
    if i == |mappings| {
      return Err(OmapUnresolved(oid, 0));
    }
    r := ReadObjBlockInto(img, mappings[i].paddr);
  }

  method CollectEntries(img: Image, list: Bytes) returns (out: seq<ReapPending>)
    ensures out == EntriesOf(img, list)
  {
    hide LeU64, LeU32;
    out := [];
    var count := EntryCount(img, list);
    for i := 0 to count
      invariant out == EntriesUpTo(list, i)
    {
      var e := 64 + i * 40;
      var oid := LeU64(list, e + 24);
      if oid != 0 {
        out := out + [ReapPending(oid, LeU32(list, e + 8))];
      }
    }
  }

  // ---- the chain ----

  /** These object ids, in this order, are the chain from head to 0: each mapped, readable and valid. */
  ghost predicate IsChain(img: Image, mappings: seq<Mapping>, head: nat, oids: seq<nat>)
    decreases oids
  {
    if oids == [] then head == 0
    else
      && head != 0 && oids[0] == head && ListAt(img, mappings, head).Ok?
      && IsChain(img, mappings, NextOid(ListAt(img, mappings, head).value), oids[1..])
  }

  /** The lists' entries in chain order. */
  function ChainEntries(img: Image, mappings: seq<Mapping>, oids: seq<nat>): seq<ReapPending> {
    if oids == [] then []
    else
      (match ListAt(img, mappings, oids[0]) case Ok(list) => EntriesOf(img, list) case Err(_) => [])
      + ChainEntries(img, mappings, oids[1..])
  }

  lemma {:induction false} ChainIsUnique(img: Image, mappings: seq<Mapping>, head: nat, oids: seq<nat>, oids': seq<nat>)
    requires IsChain(img, mappings, head, oids) && IsChain(img, mappings, head, oids')
    ensures oids == oids'
    decreases oids
  {
    hide ListAt;
    if oids != [] && oids' != [] {
      ChainIsUnique(img, mappings, NextOid(ListAt(img, mappings, head).value), oids[1..], oids'[1..]);
      assert oids == [head] + oids[1..] && oids' == [head] + oids'[1..];
    }
  }

  lemma {:induction false} ChainSuffix(img: Image, mappings: seq<Mapping>, head: nat, oids: seq<nat>, i: nat)
    requires IsChain(img, mappings, head, oids) && i < |oids|
    ensures IsChain(img, mappings, oids[i], oids[i..])
    decreases oids
  {
    hide ListAt;
    if i > 0 {
      ChainSuffix(img, mappings, NextOid(ListAt(img, mappings, head).value), oids[1..], i - 1);
      assert oids[1..][i - 1..] == oids[i..];
    }
  }

  /** A chain that reaches 0 passes no list twice. */
  lemma ChainIsDistinct(img: Image, mappings: seq<Mapping>, head: nat, oids: seq<nat>)
    requires IsChain(img, mappings, head, oids)
    ensures NoDup(oids)
  {
    forall i, j | 0 <= i < j < |oids| ensures oids[i] != oids[j] {
      ChainSuffix(img, mappings, head, oids, i);
      ChainSuffix(img, mappings, head, oids, j);
      if oids[i] == oids[j] {
        ChainIsUnique(img, mappings, oids[i], oids[i..], oids[j..]);
      }
    }
  }

  lemma {:induction false} FollowSucceedsOnChain(img: Image, mappings: seq<Mapping>, head: nat, seen: set<nat>,
                                                  oids: seq<nat>)
    requires IsChain(img, mappings, head, oids) && NoDup(oids)
    requires Elems(oids) !! seen && |seen| + |oids| <= MAX_REAP_LISTS
    ensures Follow(img, mappings, head, seen) == Ok(ChainEntries(img, mappings, oids))
    decreases oids
  {
    hide ListAt, EntriesOf;
    if oids != [] {
      assert head in Elems(oids);
      FollowSucceedsOnChain(img, mappings, NextOid(ListAt(img, mappings, head).value), seen + {head}, oids[1..]);
    }
  }

  lemma {:induction false} SuccessFollowsChain(img: Image, mappings: seq<Mapping>, head: nat, seen: set<nat>)
    returns (oids: seq<nat>)
    requires Follow(img, mappings, head, seen).Ok? && |seen| <= MAX_REAP_LISTS
    ensures IsChain(img, mappings, head, oids) && |seen| + |oids| <= MAX_REAP_LISTS
    decreases MAX_REAP_LISTS + 1 - |seen|
  {
    hide ListAt, EntriesOf;
    if head == 0 {
      oids := [];
    } else {
      var rest := SuccessFollowsChain(img, mappings, NextOid(ListAt(img, mappings, head).value), seen + {head});
      oids := [head] + rest;
      assert oids[1..] == rest;
    }
  }

  /** These lists are the chain, and no more than the limit. */
  ghost predicate IsShortChain(img: Image, mappings: seq<Mapping>, head: nat, oids: seq<nat>) {
    IsChain(img, mappings, head, oids) && |oids| <= 4096
  }

  ghost predicate HasShortChain(img: Image, mappings: seq<Mapping>, head: nat) {
    exists oids: seq<nat> :: IsShortChain(img, mappings, head, oids)
  }

  /** The walk from the head succeeds exactly when the chain reaches 0 through at most 4096 mapped, valid
      lists, which are then distinct, and returns the lists' non-zero entries in chain order. */
  lemma FollowIsTheChain(img: Image, mappings: seq<Mapping>, head: nat, oids: seq<nat>)
    ensures Follow(img, mappings, head, {}).Ok? <==> HasShortChain(img, mappings, head)
    ensures IsShortChain(img, mappings, head, oids) ==>
              NoDup(oids) && Follow(img, mappings, head, {}) == Ok(ChainEntries(img, mappings, oids))
  {
    hide Follow, IsChain, ChainEntries;
    if Follow(img, mappings, head, {}).Ok? {
      var chain := SuccessFollowsChain(img, mappings, head, {});
      assert IsShortChain(img, mappings, head, chain);
    }
    if HasShortChain(img, mappings, head) {
      var chain: seq<nat> :| IsShortChain(img, mappings, head, chain);
      ChainIsDistinct(img, mappings, head, chain);
      FollowSucceedsOnChain(img, mappings, head, {}, chain);
      if IsShortChain(img, mappings, head, oids) {
        ChainIsUnique(img, mappings, head, chain, oids);
      }
    }
  }

  /** The whole query succeeds exactly when the reaper block is valid and its chain is, and then returns the
      object in progress followed by the chain's entries. */
  lemma PendingIsTheChain(img: Image, reaperPaddr: nat, mappings: seq<Mapping>, oids: seq<nat>)
    ensures var reaper := ReadObjBlock(img, reaperPaddr);
            && (Pending(img, reaperPaddr, mappings).Ok? <==>
                  reaper.Ok? && HasShortChain(img, mappings, LeU64(reaper.value, 48)))
            && (reaper.Ok? && IsShortChain(img, mappings, LeU64(reaper.value, 48), oids) ==>
                  NoDup(oids) && Pending(img, reaperPaddr, mappings)
                                 == Ok(InProgress(reaper.value) + ChainEntries(img, mappings, oids)))
  {
    hide ReadObjBlock, LeU64, InProgress, Follow, IsShortChain, HasShortChain, ChainEntries;
    var reaper := ReadObjBlock(img, reaperPaddr);
    if reaper.Ok? {
      FollowIsTheChain(img, mappings, LeU64(reaper.value, 48), oids);
    }
  }

  /** These lists, in this order, are passed from the head on, and the last names the next. */
  ghost predicate LeadsOn(img: Image, mappings: seq<Mapping>, head: nat, oids: seq<nat>, next: nat)
    decreases oids
  {
    if oids == [] then head == next
    else
      && head != 0 && oids[0] == head && ListAt(img, mappings, head).Ok?
      && LeadsOn(img, mappings, NextOid(ListAt(img, mappings, head).value), oids[1..], next)
  }

  lemma {:induction false} FollowFails(img: Image, mappings: seq<Mapping>, head: nat, seen: set<nat>, oids: seq<nat>,
                                        next: nat)
    requires LeadsOn(img, mappings, head, oids, next) && next != 0
    requires NoDup(oids) && Elems(oids) !! seen && |seen| + |oids| <= MAX_REAP_LISTS
    ensures next in Elems(oids) + seen || |seen| + |oids| == MAX_REAP_LISTS ==>
              Follow(img, mappings, head, seen) == Err(CycleGuard)
    ensures next !in Elems(oids) + seen && |seen| + |oids| < MAX_REAP_LISTS && ListAt(img, mappings, next).Err? ==>
              Follow(img, mappings, head, seen) == Err(ListAt(img, mappings, next).error)
    decreases oids
  {
    hide ListAt, EntriesOf, NextOid;
    if oids != [] {
      hide Elems, NoDup, LeadsOn;
      FirstApart(head, oids, seen);
      FollowFails(img, mappings, NextOid(ListAt(img, mappings, head).value), seen + {head}, oids[1..], next);
    }
  }

  lemma FirstApart(head: nat, oids: seq<nat>, seen: set<nat>)
    requires oids != [] && oids[0] == head && NoDup(oids) && Elems(oids) !! seen
    ensures head !in seen && |seen + {head}| == |seen| + 1
    ensures NoDup(oids[1..]) && Elems(oids[1..]) !! seen + {head}
    ensures Elems(oids) + seen == Elems(oids[1..]) + (seen + {head})
  {
    assert oids == [head] + oids[1..];
    NoDupConcat([head], oids[1..]);
    ElemsConcat([head], oids[1..]);
    assert Elems([head]) == {head};
  }

  /** How the walk fails past lists it could read: as a cycle if it would pass one again or more than 4096, as
      unresolved if the next is not mapped, and otherwise as the next list's block does. */
  lemma BrokenChainIsReported(img: Image, mappings: seq<Mapping>, head: nat, oids: seq<nat>, next: nat)
    requires LeadsOn(img, mappings, head, oids, next) && next != 0 && NoDup(oids) && |oids| <= 4096
    ensures var r := Follow(img, mappings, head, {});
            if next in oids || |oids| == 4096 then r == Err(CycleGuard)
            else if forall i :: 0 <= i < |mappings| ==> mappings[i].oid != next then r == Err(OmapUnresolved(next, 0))
            else ListAt(img, mappings, next).Err? ==> r == Err(ListAt(img, mappings, next).error)
  {
    hide ReadObjBlock, EntriesOf, NextOid, Follow, LeadsOn;
    FollowFails(img, mappings, head, {}, oids, next);
    if forall i :: 0 <= i < |mappings| ==> mappings[i].oid != next {
      NotMapped(mappings, next);
    }
  }

  lemma {:induction false} NotMapped(mappings: seq<Mapping>, oid: nat)
    requires forall i :: 0 <= i < |mappings| ==> mappings[i].oid != oid
    ensures Lookup(mappings, oid) == None
    decreases mappings
  {
    if mappings != [] {
      NotMapped(mappings[1..], oid);
    }
  }

  // ---- reap lists as written ----

  /** A reap list as written: the next list's object id, a count, and entries of type and object id, as many as the
      count says and a block can hold. */
  ghost predicate IsReapList(img: Image, list: Bytes, next: nat, count: nat, entries: seq<ReapPending>) {
    && HasU64(list, 32, next) && HasU32(list, 48, count)
    && |entries| == Min(count, if img.blockSize < 64 then 0 else (img.blockSize - 64) / 40)
    && forall i :: 0 <= i < |entries| ==> HasEntry(list, i, entries[i])
  }

  predicate HasEntry(list: Bytes, i: nat, e: ReapPending) {
    HasU32(list, 64 + 40 * i + 8, e.objType) && HasU64(list, 64 + 40 * i + 24, e.oid)
  }

  /** The entries that name an object. */
  function Named(entries: seq<ReapPending>): seq<ReapPending> {
    if entries == [] then []
    else
      var last := entries[|entries| - 1];
      Named(entries[..|entries| - 1]) + if last.oid != 0 then [last] else []
  }

  lemma {:induction false} EntriesReadBack(list: Bytes, entries: seq<ReapPending>)
    requires forall i :: 0 <= i < |entries| ==> HasEntry(list, i, entries[i])
    ensures EntriesUpTo(list, |entries|) == Named(entries)
    decreases |entries|
  {
    hide LeU32, LeU64, HasU32, HasU64;
    if entries != [] {
      var n := |entries| - 1;
      EntriesReadBack(list, entries[..n]);
      assert HasEntry(list, n, entries[n]);
      FieldReadsBack(list, 64 + 40 * n + 8, entries[n].objType);
      FieldReadsBack(list, 64 + 40 * n + 24, entries[n].oid);
    }
  }

  lemma ReapListReadsBack(img: Image, list: Bytes, next: nat, count: nat, entries: seq<ReapPending>)
    requires IsReapList(img, list, next, count, entries)
    ensures NextOid(list) == next && EntriesOf(img, list) == Named(entries)
  {
    hide LeU32, LeU64, HasU32, HasU64, EntriesUpTo, Named, HasEntry;
    FieldReadsBack(list, 32, next);
    FieldReadsBack(list, 48, count);
    EntriesReadBack(list, entries);
  }

  /** A stored list: its object id, its block, and what is written in it. */
  datatype StoredList = StoredList(oid: nat, paddr: nat, block: Bytes, count: nat, entries: seq<ReapPending>)

  /** The object id of the first list, or 0. */
  function HeadOid(lists: seq<StoredList>): nat {
    if lists == [] then 0 else lists[0].oid
  }

  /** The lists are stored one after another: each mapped to its block, valid, and naming the next. */
  ghost predicate ChainStored(img: Image, mappings: seq<Mapping>, lists: seq<StoredList>)
    decreases lists
  {
    lists != [] ==>
      var l := lists[0];
      && l.oid != 0 && FirstMapping(mappings, l.oid, l.paddr)
      && BlockAt(img, l.paddr, l.block) && ChecksumValid(l.block)
      && IsReapList(img, l.block, HeadOid(lists[1..]), l.count, l.entries)
      && ChainStored(img, mappings, lists[1..])
  }

  ghost predicate FirstMapping(mappings: seq<Mapping>, oid: nat, paddr: nat) {
    exists i :: 0 <= i < |mappings| && mappings[i].oid == oid && mappings[i].paddr == paddr
                && forall j :: 0 <= j < i ==> mappings[j].oid != oid
  }

  lemma {:induction false} MappingIsFirst(mappings: seq<Mapping>, oid: nat, i: nat)
    requires i < |mappings| && mappings[i].oid == oid && forall j :: 0 <= j < i ==> mappings[j].oid != oid
    ensures Lookup(mappings, oid) == Some(mappings[i].paddr)
    decreases i
  {
    if i > 0 {
      assert mappings[1..][i - 1] == mappings[i];
      MappingIsFirst(mappings[1..], oid, i - 1);
    }
  }

  function OidsOf(lists: seq<StoredList>): seq<nat> {
    if lists == [] then [] else [lists[0].oid] + OidsOf(lists[1..])
  }

  function NamedIn(lists: seq<StoredList>): seq<ReapPending> {
    if lists == [] then [] else Named(lists[0].entries) + NamedIn(lists[1..])
  }

  lemma {:induction false} StoredChainIsChain(img: Image, mappings: seq<Mapping>, lists: seq<StoredList>)
    requires ChainStored(img, mappings, lists)
    ensures IsChain(img, mappings, HeadOid(lists), OidsOf(lists)) && |OidsOf(lists)| == |lists|
    ensures ChainEntries(img, mappings, OidsOf(lists)) == NamedIn(lists)
    decreases lists
  {
    hide IsReapList, ReadObjBlock, BlockAt, ChecksumValid, NextOid, EntriesOf, Named, Lookup;
    if lists != [] {
      var l := lists[0];
      var i :| 0 <= i < |mappings| && mappings[i].oid == l.oid && mappings[i].paddr == l.paddr
               && forall j :: 0 <= j < i ==> mappings[j].oid != l.oid;
      MappingIsFirst(mappings, l.oid, i);
      BlockIsRead(img, l.paddr, l.block);
      ReapListReadsBack(img, l.block, HeadOid(lists[1..]), l.count, l.entries);
      StoredChainIsChain(img, mappings, lists[1..]);
      assert OidsOf(lists)[1..] == OidsOf(lists[1..]);
    }
  }

  /** On a stored reaper and chain of at most 4096 lists the query returns the object in progress, if one is
      written, and then every list's named entries in order. */
  lemma StoredChainIsPending(img: Image, reaperPaddr: nat, mappings: seq<Mapping>, reaper: Bytes,
                             current: ReapPending, lists: seq<StoredList>)
    requires BlockAt(img, reaperPaddr, reaper) && ChecksumValid(reaper)
    requires HasU64(reaper, 48, HeadOid(lists))
    requires HasU32(reaper, 72, current.objType) && HasU64(reaper, 88, current.oid)
    requires ChainStored(img, mappings, lists) && |lists| <= 4096
    ensures Pending(img, reaperPaddr, mappings)
         == Ok((if current.oid != 0 then [current] else []) + NamedIn(lists))
  {
    hide LeU32, LeU64, HasU32, HasU64, ReadObjBlock, BlockAt, ChecksumValid, Follow, IsChain, ChainEntries, ChainStored;
    BlockIsRead(img, reaperPaddr, reaper);
    FieldReadsBack(reaper, 48, HeadOid(lists));
    FieldReadsBack(reaper, 72, current.objType);
    FieldReadsBack(reaper, 88, current.oid);
    StoredChainIsChain(img, mappings, lists);
    PendingIsTheChain(img, reaperPaddr, mappings, OidsOf(lists));
  }
}
