/** The inverse of the zlib resource-fork decoder: a front part naming its own size, a block count, a table of
    block offsets and sizes, and the deflated blocks. */
module ZlibForkLayout {
  import opened Prelude
  import opened LittleEndian
  import opened Compression
  import opened ForkLayout

  function Joined(parts: seq<Bytes>): Bytes {
    if parts == [] then [] else parts[0] + Joined(parts[1..])
  }

  function BlockData(parts: seq<Bytes>, enc: Encoder): Bytes {
    if parts == [] then [] else enc(parts[0]) + BlockData(parts[1..], enc)
  }

  /** Offset and size of each block, the first block lying at off. */
  function Table(parts: seq<Bytes>, enc: Encoder, off: nat): (b: Bytes)
    requires off + |BlockData(parts, enc)| < U32_SIZE
    ensures |b| == 8 * |parts|
  {
    if parts == [] then []
    else
      var e := enc(parts[0]);
      U32Bytes(off) + U32Bytes(|e|) + Table(parts[1..], enc, off + |e|)
  }

  /** Offsets count from the block count, which follows the front part. */
  ghost predicate ZlibFits(front: Bytes, parts: seq<Bytes>, enc: Encoder) {
    && |front| >= 4 && Digits([front[3], front[2], front[1], front[0]]) == |front| - 4
    && |parts| < U32_SIZE && 4 + 8 * |parts| + |BlockData(parts, enc)| < U32_SIZE
  }

  function ZlibForkBytes(front: Bytes, parts: seq<Bytes>, enc: Encoder): Bytes
    requires ZlibFits(front, parts, enc)
  {
    front + U32Bytes(|parts|) + Table(parts, enc, 4 + 8 * |parts|) + BlockData(parts, enc)
  }

  ghost predicate Inflates(c: Codecs, enc: Encoder, parts: seq<Bytes>) {
    forall p :: p in parts ==> c.inflate(enc(p)) == Some(p)
  }

  /** From block i and offset off on, the fork holds these blocks. */
  ghost predicate BlocksLaid(fork: Bytes, enc: Encoder, parts: seq<Bytes>, table: nat, i: nat, off: nat)
    decreases parts
  {
    parts != [] ==>
      var e := enc(parts[0]);
      && ReadLe32(fork, table + 4 + 8 * i) == Ok(off)
      && ReadLe32(fork, table + 4 + 8 * i + 4) == Ok(|e|)
      && Holds(fork, e, table + off)
      && BlocksLaid(fork, enc, parts[1..], table, i + 1, off + |e|)
  }

  lemma {:induction false} BlocksAreLaid(fork: Bytes, enc: Encoder, parts: seq<Bytes>, table: nat, i: nat,
                                          before: Bytes, off: nat, after: Bytes, left: Bytes)
    requires off + |BlockData(parts, enc)| < U32_SIZE
    requires fork == before + Table(parts, enc, off) + after && |before| == table + 4 + 8 * i
    requires fork == left + BlockData(parts, enc) && |left| == table + off
    ensures BlocksLaid(fork, enc, parts, table, i, off)
    decreases parts
  {
    hide ReadLe32, Table, BlockData;
    if parts != [] {
      var e := enc(parts[0]);
      FirstBlock(parts, enc, off);
      var entry := U32Bytes(off) + U32Bytes(|e|);
      var later, data := Table(parts[1..], enc, off + |e|), BlockData(parts[1..], enc);
      Assoc(left, e, data);
      HoldsMiddle(left, e, data);
      Regroup(before, entry, later, after);
      EntryReadsBack(fork, before, off, |e|, later + after);
      BlocksAreLaid(fork, enc, parts[1..], table, i + 1, before + entry, off + |e|, after, left + e);
    }
  }

  lemma FirstBlock(parts: seq<Bytes>, enc: Encoder, off: nat)
    requires parts != [] && off + |BlockData(parts, enc)| < U32_SIZE
    ensures var e := enc(parts[0]);
            && BlockData(parts, enc) == e + BlockData(parts[1..], enc)
            && Table(parts, enc, off) == U32Bytes(off) + U32Bytes(|e|) + Table(parts[1..], enc, off + |e|)
  {
  }

  lemma EntryReadsBack(fork: Bytes, before: Bytes, off: nat, size: nat, after: Bytes)
    requires off < U32_SIZE && size < U32_SIZE && fork == before + (U32Bytes(off) + U32Bytes(size)) + after
    ensures ReadLe32(fork, |before|) == Ok(off) && ReadLe32(fork, |before| + 4) == Ok(size)
  {
    hide ReadLe32;
    Regroup(before, U32Bytes(off), U32Bytes(size), after);
    EndReadsBack(fork, before, off, U32Bytes(size) + after);
    EndReadsBack(fork, before + U32Bytes(off), size, after);
  }

  lemma {:induction false} InflatesRest(c: Codecs, enc: Encoder, fork: Bytes, table: nat, count: nat, i: nat, off: nat,
                                         done: Bytes, parts: seq<Bytes>)
    requires i + |parts| == count && Inflates(c, enc, parts) && BlocksLaid(fork, enc, parts, table, i, off)
    ensures BlocksFrom(c, fork, table, count, i, done) == Ok(done + Joined(parts))
    decreases parts
  {
    hide ReadLe32;
    if parts == [] {
      assert done + Joined(parts) == done;
    } else {
      InflatesRest(c, enc, fork, table, count, i + 1, off + |enc(parts[0])|, done + parts[0], parts[1..]);
      Assoc(done, parts[0], Joined(parts[1..]));
    }
  }

  /** The first four bytes, most significant first. */
  lemma BigEndianIsReversed(d: Bytes)
    ensures |d| >= 4 ==> ReadBe32(d, 0) == Ok(Digits([d[3], d[2], d[1], d[0]]))
    ensures |d| < 4 ==> ReadBe32(d, 0) == Err(Decmpfs)
  {
    if |d| >= 4 {
      var r := [d[3], d[2], d[1], d[0]];
      DigitsFrom(r, 0, 4);
      DigitsFrom(r, 1, 3);
      DigitsFrom(r, 2, 2);
      DigitsFrom(r, 3, 1);
      DigitsFrom(r, 4, 0);
      assert r[0..4] == r;
    }
  }

  /** Any split of the content into blocks and any encoder `inflate` inverts: the fork decodes to the content. */
  lemma ZlibForkRoundTrip(c: Codecs, enc: Encoder, front: Bytes, parts: seq<Bytes>)
    requires ZlibFits(front, parts, enc) && Inflates(c, enc, parts)
    ensures ZlibFork(c, ZlibForkBytes(front, parts, enc)) == Ok(Joined(parts))
  {
    hide ReadLe32, BlocksFrom, Table, BlockData, Joined, BlocksLaid, Inflates;
    var count, table, data := U32Bytes(|parts|), Table(parts, enc, 4 + 8 * |parts|), BlockData(parts, enc);
    var fork := ZlibForkBytes(front, parts, enc);
    RegroupFork(front, count, table, data);
    assert ReadBe32(fork, 0) == Ok(|front| - 4) by {
      assert forall k :: 0 <= k < |front| ==> (front + (count + table + data))[k] == front[k];
      assert fork == front + (count + table + data);
      BigEndianIsReversed(fork);
    }
    assert fork == front + count + (table + data);
    EndReadsBack(fork, front, |parts|, table + data);
    BlocksAreLaid(fork, enc, parts, |front|, 0, front + count, 4 + 8 * |parts|, data, front + count + table);
    InflatesRest(c, enc, fork, |front|, |parts|, 0, 4 + 8 * |parts|, [], parts);
    assert [] + Joined(parts) == Joined(parts);
  }

  // ---- any fork at all ----

  /** The number four bytes of the fork write. */
  function NumberAt(fork: Bytes, off: nat): nat
    requires off + 4 <= |fork|
  {
    Digits(fork[off..off + 4])
  }

  /** Block j of the table at this offset lies in the fork and inflates to this. */
  ghost predicate InflatesTo(c: Codecs, fork: Bytes, table: nat, j: nat, part: Bytes) {
    var entry := table + 4 + 8 * j;
    && entry + 8 <= |fork|
    && var from, size := table + NumberAt(fork, entry), NumberAt(fork, entry + 4);
       from + size <= |fork| && c.inflate(fork[from..from + size]) == Some(part)
  }

  ghost predicate AllInflateTo(c: Codecs, fork: Bytes, table: nat, i: nat, parts: seq<Bytes>) {
    forall k :: 0 <= k < |parts| ==> InflatesTo(c, fork, table, i + k, parts[k])
  }

  lemma BlockStep(c: Codecs, fork: Bytes, table: nat, count: nat, i: nat, out: Bytes)
    requires i < count
    ensures forall part :: InflatesTo(c, fork, table, i, part) ==>
              BlocksFrom(c, fork, table, count, i, out) == BlocksFrom(c, fork, table, count, i + 1, out + part)
    ensures (forall part :: !InflatesTo(c, fork, table, i, part)) ==>
              BlocksFrom(c, fork, table, count, i, out) == Err(Decmpfs)
  {
    hide Digits, LeU32;
    var entry := table + 4 + 8 * i;
    ReadsAreDigits(fork, entry);
    ReadsAreDigits(fork, entry + 4);
    if entry + 8 <= |fork| {
      var from, size := table + NumberAt(fork, entry), NumberAt(fork, entry + 4);
      if from + size <= |fork| && c.inflate(fork[from..from + size]).Some? {
        assert InflatesTo(c, fork, table, i, c.inflate(fork[from..from + size]).value);
      }
    }
  }

  lemma {:induction false} BlocksDecode(c: Codecs, fork: Bytes, table: nat, count: nat, i: nat, out: Bytes,
                                         parts: seq<Bytes>)
    requires i + |parts| == count && AllInflateTo(c, fork, table, i, parts)
    ensures BlocksFrom(c, fork, table, count, i, out) == Ok(out + Joined(parts))
    decreases parts
  {
    hide InflatesTo;
    if parts == [] {
      assert out + Joined(parts) == out;
    } else {
      hide BlocksFrom;
      assert InflatesTo(c, fork, table, i + 0, parts[0]);
      BlockStep(c, fork, table, count, i, out);
      assert forall k :: 0 <= k < |parts[1..]| ==> parts[1..][k] == parts[k + 1];
      RestInflates(c, fork, table, i, parts);
      BlocksDecode(c, fork, table, count, i + 1, out + parts[0], parts[1..]);
      Assoc(out, parts[0], Joined(parts[1..]));
    }
  }

  lemma RestInflates(c: Codecs, fork: Bytes, table: nat, i: nat, parts: seq<Bytes>)
    requires parts != [] && AllInflateTo(c, fork, table, i, parts)
    ensures AllInflateTo(c, fork, table, i + 1, parts[1..])
  {
    hide InflatesTo;
    forall k | 0 <= k < |parts[1..]| ensures InflatesTo(c, fork, table, i + 1 + k, parts[1..][k]) {
      assert InflatesTo(c, fork, table, i + (k + 1), parts[k + 1]);
    }
  }

  lemma {:induction false} SuccessInflates(c: Codecs, fork: Bytes, table: nat, count: nat, i: nat, out: Bytes)
    returns (parts: seq<Bytes>)
    requires i <= count && BlocksFrom(c, fork, table, count, i, out).Ok?
    ensures i + |parts| == count && AllInflateTo(c, fork, table, i, parts)
    ensures BlocksFrom(c, fork, table, count, i, out) == Ok(out + Joined(parts))
    decreases count - i
  {
    if i == count {
      parts := [];
    } else {
      BlockStep(c, fork, table, count, i, out);
      hide InflatesTo, BlocksFrom;
      var part :| InflatesTo(c, fork, table, i, part);
      var rest := SuccessInflates(c, fork, table, count, i + 1, out + part);
      parts := [part] + rest;
      PrependPart(c, fork, table, i, part, rest);
    }
    BlocksDecode(c, fork, table, count, i, out, parts);
  }

  lemma PrependPart(c: Codecs, fork: Bytes, table: nat, i: nat, part: Bytes, rest: seq<Bytes>)
    requires InflatesTo(c, fork, table, i, part) && AllInflateTo(c, fork, table, i + 1, rest)
    ensures AllInflateTo(c, fork, table, i, [part] + rest)
  {
    hide InflatesTo;
    forall k | 0 <= k < |[part] + rest| ensures InflatesTo(c, fork, table, i + k, ([part] + rest)[k]) {
      if k > 0 {
        assert InflatesTo(c, fork, table, i + 1 + (k - 1), rest[k - 1]);
      }
    }
  }

  /** The fork's table: after the front part it names, and a block count that fits. */
  ghost predicate HasTable(fork: Bytes, table: nat, count: nat) {
    && |fork| >= 4 && table == Digits([fork[3], fork[2], fork[1], fork[0]]) + 4
    && table + 4 <= |fork| && count == NumberAt(fork, table)
  }

  /** These are all the blocks of the fork. */
  ghost predicate AreBlocksOf(c: Codecs, fork: Bytes, table: nat, count: nat, parts: seq<Bytes>) {
    HasTable(fork, table, count) && |parts| == count && AllInflateTo(c, fork, table, 0, parts)
  }

  /** On any fork: it decodes exactly when it has a table and every block of it lies in the fork and inflates, and
      then to the blocks end to end. */
  lemma ZlibForkDecodesIff(c: Codecs, fork: Bytes, r: Bytes)
    ensures ZlibFork(c, fork) == Ok(r) <==>
              exists table, count, parts :: AreBlocksOf(c, fork, table, count, parts) && r == Joined(parts)
  {
    hide BlocksFrom, AllInflateTo, LeU32, Digits, Joined;
    BigEndianIsReversed(fork);
    if ZlibFork(c, fork) == Ok(r) {
      var table := Digits([fork[3], fork[2], fork[1], fork[0]]) + 4;
      ReadsAreDigits(fork, table);
      var count := NumberAt(fork, table);
      var parts := SuccessInflates(c, fork, table, count, 0, []);
      assert [] + Joined(parts) == Joined(parts);
      assert AreBlocksOf(c, fork, table, count, parts);
    }
    forall table, count, parts | AreBlocksOf(c, fork, table, count, parts) && r == Joined(parts)
      ensures ZlibFork(c, fork) == Ok(r)
    {
      ReadsAreDigits(fork, table);
      BlocksDecode(c, fork, table, count, 0, [], parts);
      assert [] + Joined(parts) == Joined(parts);
    }
  }
}
