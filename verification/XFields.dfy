/** src/fsrecord.rs `parse_xfields`: the extended-field walk and its inverse. */
module XFields {
  import opened Prelude
  import opened LittleEndian

  const MAX_NUM_EXTS: nat := 4096

  datatype XField = XField(kind: byte, value: Bytes)

  /** The least multiple of 8 not below n. */
  function RoundUp8(n: nat): (r: nat)
    ensures n <= r < n + 8
  {
    (n + 7) / 8 * 8
  }

  lemma RoundedUpIsAMultiple(n: nat)
    ensures RoundUp8(n) % 8 == 0 && n <= RoundUp8(n) < n + 8
  {
  }

  function NumExts(data: Bytes): nat {
    Min(LeU16(data, 0), MAX_NUM_EXTS)
  }

  /** `x_size` of descriptor i. */
  function SizeAt(data: Bytes, i: nat): nat {
    LeU16(data, 4 + 4 * i + 2)
  }

  /** The fields from descriptor i on, the next value lying at off. */
  function FieldsFrom(data: Bytes, num: nat, i: nat, off: nat): seq<XField>
    requires 4 + 4 * num <= |data|
    decreases num - i
  {
    if i >= num || off + SizeAt(data, i) > |data| then []
    else [XField(data[4 + 4 * i], data[off..off + SizeAt(data, i)])]
         + FieldsFrom(data, num, i + 1, off + RoundUp8(SizeAt(data, i)))
  }

  function Parsed(data: Bytes): seq<XField> {
    if |data| < 4 || 4 + 4 * NumExts(data) > |data| then []
    else FieldsFrom(data, NumExts(data), 0, 4 + 4 * NumExts(data))
  }

  method ParseXFields(data: Bytes) returns (out: seq<XField>)
    ensures out == Parsed(data)
  {
    hide FieldsFrom, LeU16;
    if |data| < 4 {
      return [];
    }
    var num := Min(LeU16(data, 0), MAX_NUM_EXTS);
    var descEnd := 4 + 4 * num;
    if descEnd > |data| {
      return [];
    }
    out := CollectFields(data, num);
  }

  /** The loop over the descriptors. */
  method CollectFields(data: Bytes, num: nat) returns (out: seq<XField>)
    requires 4 + 4 * num <= |data|
    ensures out == FieldsFrom(data, num, 0, 4 + 4 * num)
  {
    hide SizeAt, RoundUp8, FieldsFrom;
    out := [];
    var valueOff: nat := 4 + 4 * num;
    for i := 0 to num
      invariant out + FieldsFrom(data, num, i, valueOff) == FieldsFrom(data, num, 0, 4 + 4 * num)
    {
      var size := SizeAt(data, i);
      if valueOff + size > |data| {
        FieldsStop(data, num, i, valueOff);
        break;
      }
      var field := XField(data[4 + 4 * i], data[valueOff..valueOff + size]);
      FieldsStep(data, num, i, valueOff, out);
      out := out + [field];
      valueOff := valueOff + RoundUp8(size);
    }
    FieldsStop(data, num, num, valueOff);
  }

  lemma FieldsStop(data: Bytes, num: nat, i: nat, off: nat)
    requires 4 + 4 * num <= |data| && (i >= num || off + SizeAt(data, i) > |data|)
    ensures FieldsFrom(data, num, i, off) == []
  {
  }

  lemma FieldsStep(data: Bytes, num: nat, i: nat, off: nat, out: seq<XField>)
    requires 4 + 4 * num <= |data| && i < num && off + SizeAt(data, i) <= |data|
    ensures out + FieldsFrom(data, num, i, off)
         == out + [XField(data[4 + 4 * i], data[off..off + SizeAt(data, i)])]
            + FieldsFrom(data, num, i + 1, off + RoundUp8(SizeAt(data, i)))
  {
    hide SizeAt, RoundUp8;
    var field := XField(data[4 + 4 * i], data[off..off + SizeAt(data, i)]);
    Assoc(out, [field], FieldsFrom(data, num, i + 1, off + RoundUp8(SizeAt(data, i))));
  }

  /** Where value i lies: after the table, each earlier value rounded up to a multiple of 8. */
  function ValueOffset(data: Bytes, num: nat, i: nat): nat {
    if i == 0 then 4 + 4 * num else ValueOffset(data, num, i - 1) + RoundUp8(SizeAt(data, i - 1))
  }

  /** Field i of the result is descriptor i and the slice of its size at its offset. */
  ghost predicate IsFieldAt(data: Bytes, num: nat, i: nat, f: XField) {
    var off := ValueOffset(data, num, i);
    && 4 + 4 * i < |data|
    && off + SizeAt(data, i) <= |data|
    && f == XField(data[4 + 4 * i], data[off..off + SizeAt(data, i)])
  }

  lemma {:induction false} FieldsAreSlices(data: Bytes, num: nat, i: nat)
    requires 4 + 4 * num <= |data| && i <= num
    ensures var fs := FieldsFrom(data, num, i, ValueOffset(data, num, i));
            && i + |fs| <= num && AreFieldsFrom(data, num, i, fs)
            && (i + |fs| < num ==> ValueOffset(data, num, i + |fs|) + SizeAt(data, i + |fs|) > |data|)
    decreases num - i
  {
    hide SizeAt, RoundUp8;
    var off := ValueOffset(data, num, i);
    if i < num && off + SizeAt(data, i) <= |data| {
      FieldsAreSlices(data, num, i + 1);
      var fs, rest := FieldsFrom(data, num, i, off), FieldsFrom(data, num, i + 1, ValueOffset(data, num, i + 1));
      assert fs[1..] == rest && IsFieldAt(data, num, i, fs[0]);
    }
  }

  ghost predicate AreFieldsFrom(data: Bytes, num: nat, i: nat, fs: seq<XField>)
    decreases fs
  {
    fs == [] || (IsFieldAt(data, num, i, fs[0]) && AreFieldsFrom(data, num, i + 1, fs[1..]))
  }

  lemma {:induction false} EachFieldIs(data: Bytes, num: nat, i: nat, fs: seq<XField>, k: nat)
    requires AreFieldsFrom(data, num, i, fs) && k < |fs|
    ensures IsFieldAt(data, num, i + k, fs[k])
    decreases k
  {
    hide IsFieldAt;
    if k > 0 {
      EachFieldIs(data, num, i + 1, fs[1..], k - 1);
    }
  }

  /** On any bytes the result is the longest prefix of the described fields that fits, in order, each value
      the slice of its described size at 4 + 4n + the sum of the earlier sizes rounded up to 8. */
  lemma ParsedFieldsAreSlices(data: Bytes)
    ensures var num, fs := Min(LeU16(data, 0), 4096), Parsed(data);
            && |fs| <= num
            && (if 4 + 4 * num > |data| then fs == []
                else |fs| < num ==> ValueOffset(data, num, |fs|) + SizeAt(data, |fs|) > |data|)
    ensures forall i :: 0 <= i < |Parsed(data)| ==>
              IsFieldAt(data, Min(LeU16(data, 0), 4096), i, Parsed(data)[i])
  {
    hide FieldsFrom, IsFieldAt, SizeAt;
    if 4 + 4 * NumExts(data) <= |data| {
      FieldsAreSlices(data, NumExts(data), 0);
      forall i | 0 <= i < |Parsed(data)| ensures IsFieldAt(data, NumExts(data), i, Parsed(data)[i]) {
        EachFieldIs(data, NumExts(data), 0, Parsed(data), i);
      }
    }
  }

  /** Values never overlap: each ends at or before the offset of every later one. */
  lemma {:induction false} OffsetsGrow(data: Bytes, num: nat, i: nat, j: nat)
    requires i < j
    ensures ValueOffset(data, num, i) + SizeAt(data, i) <= ValueOffset(data, num, j)
    decreases j
  {
    if i < j - 1 {
      OffsetsGrow(data, num, i, j - 1);
    }
  }

  // ---- the inverse ----

  /** A field to encode; the flags are stored but not part of what the walk returns. */
  datatype Described = Described(kind: byte, flags: byte, value: Bytes)

  function Returned(ds: seq<Described>): (fs: seq<XField>)
    ensures |fs| == |ds|
  {
    seq(|ds|, i requires 0 <= i < |ds| => XField(ds[i].kind, ds[i].value))
  }

  ghost predicate Encodable(ds: seq<Described>) {
    |ds| <= 4096 && forall i :: 0 <= i < |ds| ==> |ds[i].value| < U16_SIZE
  }

  function Descriptor(d: Described): (b: Bytes)
    requires |d.value| < U16_SIZE
    ensures |b| == 4
  {
    [d.kind, d.flags] + U16Bytes(|d.value|)
  }

  function Padded(value: Bytes): (b: Bytes)
    ensures |b| == RoundUp8(|value|) && |b| % 8 == 0 && |value| <= |b| < |value| + 8
  {
    RoundedUpIsAMultiple(|value|);
    value + Zeros(RoundUp8(|value|) - |value|)
  }

  function Descriptors(ds: seq<Described>): (b: Bytes)
    requires forall i :: 0 <= i < |ds| ==> |ds[i].value| < U16_SIZE
    ensures |b| == 4 * |ds|
  {
    if ds == [] then [] else Descriptor(ds[0]) + Descriptors(ds[1..])
  }

  function Values(ds: seq<Described>): Bytes {
    if ds == [] then [] else Padded(ds[0].value) + Values(ds[1..])
  }

  /** `xf_blob`: count, used size, descriptor table, values each padded to a multiple of 8, anything after. */
  function Encoded(ds: seq<Described>, used: nat, tail: Bytes): Bytes
    requires Encodable(ds) && used < U16_SIZE
  {
    U16Bytes(|ds|) + U16Bytes(used) + Descriptors(ds) + Values(ds) + tail
  }

  lemma DescriptorReadsBack(data: Bytes, before: Bytes, d: Described, after: Bytes, i: nat)
    requires |d.value| < U16_SIZE && data == before + Descriptor(d) + after && |before| == 4 + 4 * i
    ensures data[4 + 4 * i] == d.kind && SizeAt(data, i) == |d.value|
  {
    U16RoundTrip(|d.value|);
    var front := before + [d.kind, d.flags];
    assert data == front + U16Bytes(|d.value|) + after;
    ReadsInPlace(front, U16Bytes(|d.value|), after, 0);
  }

  lemma PaddedSlice(data: Bytes, left: Bytes, value: Bytes, right: Bytes)
    requires data == left + Padded(value) + right
    ensures |left| + |value| <= |data| && data[|left|..|left| + |value|] == value
  {
  }

  lemma {:induction false} ParsesRest(data: Bytes, num: nat, i: nat, ds: seq<Described>, before: Bytes, after: Bytes,
                                       left: Bytes, tail: Bytes)
    requires forall k :: 0 <= k < |ds| ==> |ds[k].value| < U16_SIZE
    requires i + |ds| == num && 4 + 4 * num <= |data|
    requires data == before + Descriptors(ds) + after && |before| == 4 + 4 * i
    requires data == left + Values(ds) + tail
    ensures FieldsFrom(data, num, i, |left|) == Returned(ds)
    decreases ds
  {
    hide *;
    if ds == [] {
      NothingReturned(data, num, |left|);
    } else {
      var d, rest := ds[0], ds[1..];
      FirstField(ds);
      Regroup(before, Descriptor(d), Descriptors(rest), after);
      Regroup(left, Padded(d.value), Values(rest), tail);
      DescriptorReadsBack(data, before, d, Descriptors(rest) + after, i);
      PaddedSlice(data, left, d.value, Values(rest) + tail);
      ParsesRest(data, num, i + 1, rest, before + Descriptor(d), after, left + Padded(d.value), tail);
      FieldsStep(data, num, i, |left|, []);
      assert [] + FieldsFrom(data, num, i, |left|) == FieldsFrom(data, num, i, |left|);
      assert [] + [XField(d.kind, d.value)] == [XField(d.kind, d.value)];
    }
  }

  lemma NothingReturned(data: Bytes, num: nat, off: nat)
    requires 4 + 4 * num <= |data|
    ensures FieldsFrom(data, num, num, off) == Returned([])
  {
  }

  lemma FirstField(ds: seq<Described>)
    requires ds != [] && forall k :: 0 <= k < |ds| ==> |ds[k].value| < U16_SIZE
    ensures Descriptors(ds) == Descriptor(ds[0]) + Descriptors(ds[1..])
    ensures Values(ds) == Padded(ds[0].value) + Values(ds[1..])
    ensures Returned(ds) == [XField(ds[0].kind, ds[0].value)] + Returned(ds[1..])
  {
  }

  lemma RegroupBlob(n: Bytes, u: Bytes, table: Bytes, values: Bytes, tail: Bytes)
    ensures n + u + table + values + tail == [] + n + (u + table + values + tail)
    ensures n + u + table + values + tail == (n + u) + table + (values + tail)
    ensures n + u + table + values + tail == (n + u + table) + values + tail
  {
  }

  /** Encoding any field list and walking it returns the list. */
  lemma XFieldRoundTrip(ds: seq<Described>, used: nat, tail: Bytes)
    requires Encodable(ds) && used < U16_SIZE
    ensures Parsed(Encoded(ds, used, tail)) == Returned(ds)
  {
    hide LeU16, FieldsFrom, Descriptors, Values, Returned, U16Bytes;
    var data := Encoded(ds, used, tail);
    var n, u, table, values := U16Bytes(|ds|), U16Bytes(used), Descriptors(ds), Values(ds);
    RegroupBlob(n, u, table, values, tail);
    U16RoundTrip(|ds|);
    ReadsInPlace([], n, u + table + values + tail, 0);
    ParsesRest(data, |ds|, 0, ds, n + u, values + tail, n + u + table, tail);
  }
}
