/** src/bytes.rs: bounds-checked little-endian reads; a read that runs past the data yields 0. */
module LittleEndian {
  import opened Prelude

  function LeU16(d: Bytes, off: nat): (n: nat)
    ensures n < U16_SIZE
  {
    if off + 2 <= |d| then (d[off] as nat) + 0x100 * (d[off + 1] as nat) else 0
  }

  function LeU32(d: Bytes, off: nat): (n: nat)
    ensures n < U32_SIZE
  {
    if off + 4 <= |d| then LeU16(d, off) + U16_SIZE * LeU16(d, off + 2) else 0
  }

  function LeU64(d: Bytes, off: nat): (n: nat)
    ensures n < U64_SIZE
  {
    if off + 8 <= |d| then LeU32(d, off) + U32_SIZE * LeU32(d, off + 4) else 0
  }

  /** The number some bytes write, least significant byte first. */
  function Digits(d: Bytes): nat {
    if d == [] then 0 else (d[0] as nat) + 0x100 * Digits(d[1..])
  }

  lemma {:induction false} DigitsFrom(d: Bytes, k: nat, n: nat)
    requires k + n <= |d|
    ensures Digits(d[k..k + n]) == if n == 0 then 0 else (d[k] as nat) + 0x100 * Digits(d[k + 1..k + n])
  {
    if n > 0 {
      assert d[k..k + n][1..] == d[k + 1..k + n];
    }
  }

  /** A read yields the number its 2, 4 or 8 bytes write, or 0 if it runs past the data. */
  lemma ReadsAreDigits(d: Bytes, off: nat)
    ensures LeU16(d, off) == if off + 2 <= |d| then Digits(d[off..off + 2]) else 0
    ensures LeU32(d, off) == if off + 4 <= |d| then Digits(d[off..off + 4]) else 0
    ensures LeU64(d, off) == if off + 8 <= |d| then Digits(d[off..off + 8]) else 0
  {
    hide Digits;
    if off + 2 <= |d| {
      TwoDigits(d, off);
    }
    if off + 4 <= |d| {
      ReadsHalf(d, off);
    }
    if off + 8 <= |d| {
      ReadsHalf(d, off);
      ReadsHalf(d, off + 4);
      HalvesAreDigits(d[off..off + 8], 4);
      assert d[off..off + 8][..4] == d[off..off + 4] && d[off..off + 8][4..] == d[off + 4..off + 8];
    }
  }

  lemma TwoDigits(d: Bytes, off: nat)
    requires off + 2 <= |d|
    ensures Digits(d[off..off + 2]) == LeU16(d, off)
  {
    DigitsFrom(d, off, 2);
    DigitsFrom(d, off + 1, 1);
    DigitsFrom(d, off + 2, 0);
  }

  lemma ReadsHalf(d: Bytes, off: nat)
    requires off + 4 <= |d|
    ensures LeU32(d, off) == Digits(d[off..off + 4])
  {
    TwoDigits(d, off);
    TwoDigits(d, off + 2);
    HalvesAreDigits(d[off..off + 4], 2);
    assert d[off..off + 4][..2] == d[off..off + 2] && d[off..off + 4][2..] == d[off + 2..off + 4];
  }

  function Weight(n: nat): nat {
    if n == 0 then 1 else 0x100 * Weight(n - 1)
  }

  lemma {:induction false} HalvesAreDigits(d: Bytes, n: nat)
    requires n <= |d|
    ensures Digits(d) == Digits(d[..n]) + Weight(n) * Digits(d[n..])
  {
    if n == 0 {
      assert d[0..] == d;
    } else {
      HalvesAreDigits(d[1..], n - 1);
      assert d[..n][1..] == d[1..][..n - 1] && d[1..][n - 1..] == d[n..];
      WeighMore(Weight(n - 1), Digits(d[n..]));
      Spread(d[0] as nat, Digits(d[1..][..n - 1]), Weight(n - 1) * Digits(d[n..]));
    }
  }

  lemma WeighMore(w: nat, x: nat)
    ensures 0x100 * (w * x) == (0x100 * w) * x
  {
  }

  lemma Spread(a: nat, x: nat, y: nat)
    ensures a + 0x100 * (x + y) == (a + 0x100 * x) + 0x100 * y
  {
  }

  /** `to_le_bytes`, as the layout builders use it. */
  function U16Bytes(n: nat): (b: Bytes)
    requires n < U16_SIZE
    ensures |b| == 2
  {
    [n % 0x100, n / 0x100]
  }

  function U32Bytes(n: nat): (b: Bytes)
    requires n < U32_SIZE
    ensures |b| == 4
  {
    U16Bytes(n % U16_SIZE) + U16Bytes(n / U16_SIZE)
  }

  function U64Bytes(n: nat): (b: Bytes)
    requires n < U64_SIZE
    ensures |b| == 8
  {
    U32Bytes(n % U32_SIZE) + U32Bytes(n / U32_SIZE)
  }

  /** A field read depends only on the bytes it covers, wherever they sit. */
  lemma ReadsInPlace(a: Bytes, d: Bytes, b: Bytes, off: nat)
    ensures off + 2 <= |d| ==> LeU16(a + d + b, |a| + off) == LeU16(d, off)
    ensures off + 4 <= |d| ==> LeU32(a + d + b, |a| + off) == LeU32(d, off)
    ensures off + 8 <= |d| ==> LeU64(a + d + b, |a| + off) == LeU64(d, off)
  {
    var s := a + d + b;
    assert forall i :: 0 <= i < |d| ==> s[|a| + i] == d[i];
  }

  lemma U16RoundTrip(n: nat)
    requires n < U16_SIZE
    ensures LeU16(U16Bytes(n), 0) == n
  {
  }

  lemma U32RoundTrip(n: nat)
    requires n < U32_SIZE
    ensures LeU32(U32Bytes(n), 0) == n
  {
    var lo, hi := U16Bytes(n % U16_SIZE), U16Bytes(n / U16_SIZE);
    ReadsInPlace([], lo, hi, 0);
    ReadsInPlace(lo, hi, [], 0);
    assert [] + lo + hi == lo + hi && lo + hi + [] == lo + hi;
    U16RoundTrip(n % U16_SIZE);
    U16RoundTrip(n / U16_SIZE);
  }

  lemma U64RoundTrip(n: nat)
    requires n < U64_SIZE
    ensures LeU64(U64Bytes(n), 0) == n
  {
    var lo, hi := U32Bytes(n % U32_SIZE), U32Bytes(n / U32_SIZE);
    ReadsInPlace([], lo, hi, 0);
    ReadsInPlace(lo, hi, [], 0);
    assert [] + lo + hi == lo + hi && lo + hi + [] == lo + hi;
    U32RoundTrip(n % U32_SIZE);
    U32RoundTrip(n / U32_SIZE);
  }

  /** A field written between other bytes reads back. */
  lemma FieldU16(a: Bytes, n: nat, b: Bytes)
    requires n < U16_SIZE
    ensures LeU16(a + U16Bytes(n) + b, |a|) == n
  {
    U16RoundTrip(n);
    ReadsInPlace(a, U16Bytes(n), b, 0);
  }

  lemma FieldU32(a: Bytes, n: nat, b: Bytes)
    requires n < U32_SIZE
    ensures LeU32(a + U32Bytes(n) + b, |a|) == n
  {
    U32RoundTrip(n);
    ReadsInPlace(a, U32Bytes(n), b, 0);
  }

  lemma FieldU64(a: Bytes, n: nat, b: Bytes)
    requires n < U64_SIZE
    ensures LeU64(a + U64Bytes(n) + b, |a|) == n
  {
    U64RoundTrip(n);
    ReadsInPlace(a, U64Bytes(n), b, 0);
  }

  /** The block holds this number at this offset, in 4 or 8 bytes. */
  predicate HasU32(block: Bytes, off: nat, n: nat) {
    off + 4 <= |block| && n < U32_SIZE && block[off..off + 4] == U32Bytes(n)
  }

  predicate HasU64(block: Bytes, off: nat, n: nat) {
    off + 8 <= |block| && n < U64_SIZE && block[off..off + 8] == U64Bytes(n)
  }

  lemma FieldReadsBack(block: Bytes, off: nat, n: nat)
    ensures HasU32(block, off, n) ==> LeU32(block, off) == n
    ensures HasU64(block, off, n) ==> LeU64(block, off) == n
  {
    hide U32Bytes, U64Bytes, LeU32, LeU64;
    if HasU32(block, off, n) {
      FieldU32(block[..off], n, block[off + 4..]);
      assert block == block[..off] + U32Bytes(n) + block[off + 4..];
    }
    if HasU64(block, off, n) {
      FieldU64(block[..off], n, block[off + 8..]);
      assert block == block[..off] + U64Bytes(n) + block[off + 8..];
    }
  }
}
