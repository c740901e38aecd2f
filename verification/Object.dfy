/** src/object.rs: the Fletcher-64 object checksum. */
module Object {
  import opened Prelude
  import opened LittleEndian

  const MOD: nat := 0xffff_ffff

  /** The block as 32-bit words, the two checksum words counted as zero, a trailing partial word ignored. */
  function Words(block: Bytes): (ws: seq<nat>)
    ensures |ws| == |block| / 4
    ensures forall i :: 0 <= i < |ws| ==> ws[i] < U32_SIZE
  {
    seq(|block| / 4, i requires 0 <= i => if i < 2 then 0 else LeU32(block, 4 * i))
  }

  /** Plain sum of the words. */
  function Sum(ws: seq<nat>): nat {
    if ws == [] then 0 else ws[0] + Sum(ws[1..])
  }

  /** Position-weighted sum: the first of n words counts n times, the last once. */
  function WeightedSum(ws: seq<nat>): nat {
    if ws == [] then 0 else |ws| * ws[0] + WeightedSum(ws[1..])
  }

  /** The two check words for a final pair of running sums. */
  function CheckLo(lo: nat, hi: nat): nat {
    MOD - (lo + hi) % MOD
  }

  function CheckHi(lo: nat, hi: nat): nat {
    MOD - (lo + CheckLo(lo, hi)) % MOD
  }

  function Fold(lo: nat, hi: nat): nat {
    U32_SIZE * CheckHi(lo, hi) + CheckLo(lo, hi)
  }

  function Fletcher64(block: Bytes): nat {
    Fold(Sum(Words(block)) % MOD, WeightedSum(Words(block)) % MOD)
  }

  function Stored(block: Bytes): nat {
    LeU64(block, 0)
  }

  /** `obj_type`: the object type without its storage flags. */
  function ObjectType(block: Bytes): nat {
    LeU32(block, 24) % U16_SIZE
  }

  /** The checksum-before-trust gate. */
  predicate ChecksumValid(block: Bytes) {
    Stored(block) == Fletcher64(block)
  }

  lemma {:induction false} SumSnoc(ws: seq<nat>, w: nat)
    ensures Sum(ws + [w]) == Sum(ws) + w
  {
    if ws == [] {
    } else {
      assert (ws + [w])[1..] == ws[1..] + [w];
      SumSnoc(ws[1..], w);
    }
  }

  lemma {:induction false} WeightedSumSnoc(ws: seq<nat>, w: nat)
    ensures WeightedSum(ws + [w]) == WeightedSum(ws) + Sum(ws + [w])
  {
    if ws == [] {
    } else {
      assert (ws + [w])[1..] == ws[1..] + [w];
      WeightedSumSnoc(ws[1..], w);
      assert (|ws| + 1) * ws[0] == |ws| * ws[0] + ws[0];
    }
  }

  lemma ModAdd(a: nat, b: nat)
    ensures (a % MOD + b) % MOD == (a + b) % MOD
  {
    var q := a / 0xffff_ffff;
    assert a == q * 0xffff_ffff + a % 0xffff_ffff;
    assert a + b == (a % 0xffff_ffff + b) + q * 0xffff_ffff;
  }

  /** The running sums of the loop are the closed form: plain and position-weighted sum modulo 2^32 - 1. */
  method Fletcher64Checksum(block: Bytes) returns (checksum: nat)
    ensures checksum == Fletcher64(block)
  {
    ghost var ws := Words(block);
    var sumLo: nat, sumHi: nat := 0, 0;
    for i := 0 to |block| / 4
      invariant sumLo == Sum(ws[..i]) % MOD
      invariant sumHi == WeightedSum(ws[..i]) % MOD
    {
      var v := if i < 2 then 0 else LeU32(block, 4 * i);
      assert ws[..i + 1] == ws[..i] + [v];
      SumSnoc(ws[..i], v);
      WeightedSumSnoc(ws[..i], v);
      ModAdd(Sum(ws[..i]), v);
      sumLo := (sumLo + v) % MOD;
      ModAdd(WeightedSum(ws[..i]), sumLo);
      ModAdd(Sum(ws[..i + 1]), WeightedSum(ws[..i]));
      sumHi := (sumHi + sumLo) % MOD;
    }
    assert ws[..|ws|] == ws;
    var checkLo := MOD - (sumLo + sumHi) % MOD;
    var checkHi := MOD - (sumLo + checkLo) % MOD;
    checksum := U32_SIZE * checkHi + checkLo;
  }

  /** Both check words fit in 32 bits, and feeding them to the running sums brings both sums to zero. */
  lemma CheckWordsCancel(lo: nat, hi: nat)
    ensures 1 <= CheckLo(lo, hi) < U32_SIZE && 1 <= CheckHi(lo, hi) < U32_SIZE
    ensures var lo1 := (lo + CheckLo(lo, hi)) % MOD;
            var hi1 := (hi + lo1) % MOD;
            var lo2 := (lo1 + CheckHi(lo, hi)) % MOD;
            var hi2 := (hi1 + lo2) % MOD;
            lo2 == 0 && hi2 == 0
  {
    var cl := CheckLo(lo, hi);
    var r := (lo + hi) % MOD;
    ModAdd(lo + hi, cl);
    assert r + cl == MOD;
    ModAdd(lo + cl, hi);
    assert ((lo + cl) % MOD + hi) % MOD == 0;
  }

  /** The checksum determines the final pair of sums. */
  lemma FoldInjective(lo: nat, hi: nat, lo': nat, hi': nat)
    requires lo < MOD && hi < MOD && lo' < MOD && hi' < MOD
    requires Fold(lo, hi) == Fold(lo', hi')
    ensures lo == lo' && hi == hi'
  {
    CheckWordsCancel(lo, hi);
    CheckWordsCancel(lo', hi');
    SplitWord(CheckHi(lo, hi), CheckLo(lo, hi), CheckHi(lo', hi'), CheckLo(lo', hi'));
    CancelMod(lo, lo', CheckLo(lo, hi));
    CancelMod(hi, hi', lo);
  }

  lemma SplitWord(hi: nat, lo: nat, hi': nat, lo': nat)
    requires lo < U32_SIZE && lo' < U32_SIZE && U32_SIZE * hi + lo == U32_SIZE * hi' + lo'
    ensures hi == hi' && lo == lo'
  {
  }

  lemma CancelMod(x: nat, y: nat, c: nat)
    requires x < MOD && y < MOD && (x + c) % MOD == (y + c) % MOD
    ensures x == y
  {
    var q, q' := (x + c) / MOD, (y + c) / MOD;
    assert x + c == q * MOD + (x + c) % MOD;
    assert y + c == q' * MOD + (y + c) % MOD;
  }

  /** Checksums agree exactly when both sums agree modulo 2^32 - 1. */
  lemma SameChecksumIffSameSums(a: Bytes, b: Bytes)
    ensures Fletcher64(a) == Fletcher64(b) <==>
              Sum(Words(a)) % MOD == Sum(Words(b)) % MOD &&
              WeightedSum(Words(a)) % MOD == WeightedSum(Words(b)) % MOD
  {
    if Fletcher64(a) == Fletcher64(b) {
      FoldInjective(Sum(Words(a)) % MOD, WeightedSum(Words(a)) % MOD,
                    Sum(Words(b)) % MOD, WeightedSum(Words(b)) % MOD);
    }
  }

  lemma {:induction false} SumsAfterUpdate(ws: seq<nat>, i: nat, w: nat)
    requires i < |ws|
    ensures Sum(ws[i := w]) == Sum(ws) + (w - ws[i])
    ensures WeightedSum(ws[i := w]) == WeightedSum(ws) + (|ws| - i) * (w - ws[i])
  {
    if i == 0 {
      assert ws[0 := w][1..] == ws[1..];
      assert |ws| * w == |ws| * ws[0] + |ws| * (w - ws[0]);
    } else {
      assert ws[i := w][1..] == ws[1..][i - 1 := w];
      SumsAfterUpdate(ws[1..], i - 1, w);
    }
  }

  lemma SameModIffMultiple(x: nat, y: nat)
    ensures x % MOD == y % MOD <==> (y - x) % MOD == 0
  {
    var q, q' := x / MOD, y / MOD;
    assert x == q * MOD + x % MOD && y == q' * MOD + y % MOD;
  }

  /** The words of b are those of a with words i and j replaced. */
  ghost predicate DiffersOnlyAt(a: Bytes, b: Bytes, i: nat, j: nat) {
    && |a| == |b| && i < |Words(a)| && j < |Words(a)|
    && Words(b) == Words(a)[i := Words(b)[i]][j := Words(b)[j]]
  }

  function Change(a: Bytes, b: Bytes, i: nat): int
    requires |a| == |b| && i < |Words(a)|
  {
    Words(b)[i] as int - Words(a)[i] as int
  }

  lemma SumsOfTwoChanges(a: Bytes, b: Bytes, i: nat, j: nat)
    requires i != j && DiffersOnlyAt(a, b, i, j)
    ensures var n := |Words(a)|;
            var di, dj := Change(a, b, i), Change(a, b, j);
            && Sum(Words(b)) == Sum(Words(a)) + di + dj
            && WeightedSum(Words(b)) == WeightedSum(Words(a)) + (n - i) * di + (n - j) * dj
  {
    SumsAfterUpdate(Words(a), i, Words(b)[i]);
    SumsAfterUpdate(Words(a)[i := Words(b)[i]], j, Words(b)[j]);
  }

  /** A word that went between 0 and 2^32 - 1, or did not change. */
  predicate Congruent(w: nat, w': nat) {
    w == w' || (w == 0 && w' == MOD) || (w == MOD && w' == 0)
  }

  lemma CongruentIff(w: nat, w': nat)
    requires w < U32_SIZE && w' < U32_SIZE
    ensures Congruent(w, w') <==> (w' - w) % MOD == 0
  {
  }

  /** A change confined to two adjacent words is missed exactly when each of them is unchanged or went
      between 0 and 0xffffffff. */
  lemma AdjacentChangeDetected(a: Bytes, b: Bytes, i: nat)
    requires DiffersOnlyAt(a, b, i, i + 1)
    ensures Fletcher64(a) == Fletcher64(b) <==>
              Congruent(Words(a)[i], Words(b)[i]) && Congruent(Words(a)[i + 1], Words(b)[i + 1])
  {
    var n := |Words(a)|;
    var di, dj := Change(a, b, i), Change(a, b, i + 1);
    SumsOfTwoChanges(a, b, i, i + 1);
    SameChecksumIffSameSums(a, b);
    SameModIffMultiple(Sum(Words(a)), Sum(Words(b)));
    SameModIffMultiple(WeightedSum(Words(a)), WeightedSum(Words(b)));
    CongruentIff(Words(a)[i], Words(b)[i]);
    CongruentIff(Words(a)[i + 1], Words(b)[i + 1]);
    TwoEquations(n - i - 1, di, dj);
  }

  lemma MultipleOf(k: int, x: int)
    requires x % MOD == 0
    ensures (k * x) % MOD == 0
  {
    var q := x / MOD;
    assert x == q * MOD;
    assert k * x == (k * q) * MOD;
    MultipleIsZero(k * q);
  }

  lemma MultipleIsZero(q: int)
    ensures (q * MOD) % MOD == 0
  {
  }

  lemma TwoEquations(k: int, x: int, y: int)
    ensures (x + y) % MOD == 0 && ((k + 1) * x + k * y) % MOD == 0 <==> x % MOD == 0 && y % MOD == 0
  {
    var both, kBoth := x + y, k * (x + y);
    assert (k + 1) * x + k * y == kBoth + x;
    if both % MOD == 0 {
      MultipleOf(k, both);
      DropMultiple(x, kBoth);
    }
    if x % MOD == 0 {
      DropMultiple(y, x);
    }
  }

  lemma DropMultiple(x: int, m: int)
    requires m % MOD == 0 || x % MOD == 0
    ensures m % MOD == 0 ==> ((m + x) % MOD == 0 <==> x % MOD == 0)
    ensures x % MOD == 0 ==> ((m + x) % MOD == 0 <==> m % MOD == 0)
  {
  }

  /** Swapping two words is missed exactly when distance times difference is 0 modulo 2^32 - 1. */
  lemma SwapDetected(a: Bytes, b: Bytes, i: nat, j: nat)
    requires i < j && DiffersOnlyAt(a, b, i, j)
    requires Words(b)[i] == Words(a)[j] && Words(b)[j] == Words(a)[i]
    ensures Fletcher64(a) == Fletcher64(b) <==> ((j - i) * (Words(a)[j] as int - Words(a)[i])) % MOD == 0
  {
    var n := |Words(a)|;
    var d := Change(a, b, i);
    SumsOfTwoChanges(a, b, i, j);
    SameChecksumIffSameSums(a, b);
    SameModIffMultiple(WeightedSum(Words(a)), WeightedSum(Words(b)));
    OppositeChanges(n - i, n - j, d);
    assert Change(a, b, j) == -d;
    var delta := (j - i) * d;
    assert WeightedSum(Words(b)) == WeightedSum(Words(a)) + delta;
  }

  lemma OppositeChanges(p: int, q: int, d: int)
    ensures p * d + q * -d == (p - q) * d
  {
  }

  /** Writing the checksum into the first eight bytes, as the image builders seal a block. */
  function Sealed(block: Bytes): Bytes
    requires |block| >= 8
  {
    ChecksumFits(block);
    U64Bytes(Fletcher64(block)) + block[8..]
  }

  lemma ChecksumFits(block: Bytes)
    ensures 0 < Fletcher64(block) < U64_SIZE
    ensures Stored(block) == 0 ==> !ChecksumValid(block)
  {
    CheckWordsCancel(Sum(Words(block)) % MOD, WeightedSum(Words(block)) % MOD);
  }

  /** A sealed block passes the gate with nothing past its checksum field changed; a block too short to
      hold a checksum never passes. */
  lemma SealedIsValid(block: Bytes)
    ensures |block| >= 8 ==> ChecksumValid(Sealed(block)) && Sealed(block)[8..] == block[8..]
    ensures |block| < 8 ==> !ChecksumValid(block)
  {
    ChecksumFits(block);
    if |block| >= 8 {
      var c := Fletcher64(block);
      var s := Sealed(block);
      U64RoundTrip(c);
      ReadsInPlace([], U64Bytes(c), block[8..], 0);
      assert [] + U64Bytes(c) + block[8..] == s;
      forall i | 2 <= i < |block| / 4 ensures LeU32(s, 4 * i) == LeU32(block, 4 * i) {
        assert forall k :: 8 <= k < |block| ==> s[k] == block[k];
      }
      assert Words(s) == Words(block);
    }
  }

  // ---- the checksum over bytes ----

  /** The two running sums carried on over the whole 32-bit words from an offset on. */
  function SumsFrom(block: Bytes, off: nat, lo: nat, hi: nat): (nat, nat)
    decreases |block| - off
  {
    if off + 4 > |block| then (lo, hi)
    else
      var next := lo + Digits(block[off..off + 4]);
      SumsFrom(block, off + 4, next, hi + next)
  }

  lemma {:induction false} SumsAreOfWords(block: Bytes, i: nat)
    requires 2 <= i <= |Words(block)|
    ensures SumsFrom(block, 4 * i, Sum(Words(block)[..i]), WeightedSum(Words(block)[..i]))
         == (Sum(Words(block)), WeightedSum(Words(block)))
    decreases |block| - 4 * i
  {
    hide Digits, Sum, WeightedSum, LeU32;
    var ws := Words(block);
    if i == |ws| {
      assert ws[..i] == ws;
    } else {
      ReadsAreDigits(block, 4 * i);
      assert ws[..i + 1] == ws[..i] + [ws[i]];
      SumSnoc(ws[..i], ws[i]);
      WeightedSumSnoc(ws[..i], ws[i]);
      SumsAreOfWords(block, i + 1);
    }
  }

  lemma SumsPastTheField(block: Bytes)
    requires |block| >= 8
    ensures SumsFrom(block, 8, 0, 0) == (Sum(Words(block)), WeightedSum(Words(block)))
  {
    var ws := Words(block);
    assert ws[..2] == [0, 0] && [0, 0][1..] == [0] && [0][1..] == [];
    assert Sum([]) == 0 && Sum([0]) == 0 && Sum([0, 0]) == 0;
    assert WeightedSum([]) == 0 && WeightedSum([0]) == 0 && WeightedSum([0, 0]) == 0;
    SumsAreOfWords(block, 2);
  }

  /** The checksum in terms of the block's bytes alone: carry two sums over the little-endian words at offsets 8,
      12, ..., and then over the stored low and high word; the block is valid exactly when both sums come out as
      0 modulo 2^32 - 1 and neither stored word is 0. */
  lemma ValidIffSumsVanish(block: Bytes)
    requires |block| >= 8
    ensures var (lo, hi) := SumsFrom(block, 8, 0, 0);
            var low, high := Digits(block[0..4]), Digits(block[4..8]);
            var lo1, hi1 := lo + low, hi + lo + low;
            var lo2, hi2 := lo1 + high, hi1 + lo1 + high;
            ChecksumValid(block) <==>
              low != 0 && high != 0 && lo2 % 0xffff_ffff == 0 && hi2 % 0xffff_ffff == 0
  {
    hide Digits, Sum, WeightedSum, SumsFrom, LeU32, Words;
    SumsPastTheField(block);
    ReadsAreDigits(block, 0);
    ReadsAreDigits(block, 4);
    var lo, hi := Sum(Words(block)), WeightedSum(Words(block));
    var low, high := LeU32(block, 0), LeU32(block, 4);
    ChecksumFits(block);
    CheckWordsCancel(lo % MOD, hi % MOD);
    if ChecksumValid(block) {
      SplitWord(high, low, CheckHi(lo % MOD, hi % MOD), CheckLo(lo % MOD, hi % MOD));
    }
    CheckLoIff(lo, hi, low);
    if low == CheckLo(lo % MOD, hi % MOD) {
      CheckHiIff(lo, hi, low, high);
    }
    BothVanish(lo + low + high, hi + lo + low);
  }

  lemma CheckLoIff(lo: nat, hi: nat, low: nat)
    requires low < U32_SIZE
    ensures low == CheckLo(lo % MOD, hi % MOD) <==> low != 0 && (hi + lo + low) % MOD == 0
  {
    SumOfRemainders(lo, hi);
    ComplementIff((lo + hi) % MOD, low);
    ModAdd(lo + hi, low);
  }

  lemma CheckHiIff(lo: nat, hi: nat, low: nat, high: nat)
    requires high < U32_SIZE && low == CheckLo(lo % MOD, hi % MOD)
    ensures high == CheckHi(lo % MOD, hi % MOD) <==> high != 0 && (lo + low + high) % MOD == 0
  {
    ModAdd(lo, low);
    ComplementIff((lo % MOD + low) % MOD, high);
    ModAdd(lo + low, high);
  }

  lemma SumOfRemainders(a: nat, b: nat)
    ensures (a % MOD + b % MOD) % MOD == (a + b) % MOD
  {
    ModAdd(a, b % MOD);
    ModAdd(b, a);
  }

  lemma ComplementIff(r: nat, w: nat)
    requires r < MOD && w < U32_SIZE
    ensures w == MOD - r <==> w != 0 && (r + w) % MOD == 0
  {
  }

  lemma BothVanish(x: nat, y: nat)
    ensures x % MOD == 0 && (y + x) % MOD == 0 <==> x % MOD == 0 && y % MOD == 0
  {
    if x % MOD == 0 {
      DropMultiple(y, x);
    }
  }

  // ---- changed bytes ----

  /** The object type is bytes 24 and 25. */
  lemma ObjectTypeIs(block: Bytes)
    ensures ObjectType(block) == if |block| < 28 then 0 else (block[24] as nat) + 0x100 * (block[25] as nat)
  {
  }

  /** Four bytes read as this number exactly when they write it. */
  lemma FourBytesAre(block: Bytes, off: nat)
    ensures LeU32(block, off) == if off + 4 > |block| then 0
                                 else (block[off] as nat) + 0x100 * (block[off + 1] as nat)
                                      + 0x1_0000 * (block[off + 2] as nat) + 0x100_0000 * (block[off + 3] as nat)
  {
  }

  /** The word at an offset, by its bytes. */
  function WordAt(block: Bytes, off: nat): nat
    requires off + 4 <= |block|
  {
    Digits(block[off..off + 4])
  }

  /** The same bytes, except perhaps the n from an offset on. */
  ghost predicate SameOutside(a: Bytes, b: Bytes, off: nat, n: nat) {
    |a| == |b| && forall k :: 0 <= k < |a| && !(off <= k < off + n) ==> a[k] == b[k]
  }

  lemma WordIsAt(block: Bytes, i: nat)
    requires 2 <= i < |Words(block)|
    ensures Words(block)[i] == WordAt(block, 4 * i) < U32_SIZE
  {
    hide Digits;
    ReadsAreDigits(block, 4 * i);
  }

  lemma ChangedBytesAreTwoWords(a: Bytes, b: Bytes, i: nat)
    requires i >= 2 && 4 * i + 8 <= |a| && SameOutside(a, b, 4 * i, 8)
    ensures DiffersOnlyAt(a, b, i, i + 1) && Stored(a) == Stored(b)
  {
    assert Words(b) == Words(a)[i := Words(b)[i]][i + 1 := Words(b)[i + 1]] by {
      forall k | 0 <= k < |Words(a)| && k != i && k != i + 1 ensures Words(a)[k] == Words(b)[k] {
      }
    }
  }

  /** Changing eight aligned bytes past the checksum field leaves the checksum as it was exactly when each of the
      two words is unchanged or went between 0 and 0xffffffff. */
  lemma ChangedBytesAreCaught(a: Bytes, b: Bytes, i: nat)
    requires i >= 2 && 4 * i + 8 <= |a| && SameOutside(a, b, 4 * i, 8) && ChecksumValid(a)
    ensures ChecksumValid(b) <==>
              Congruent(WordAt(a, 4 * i), WordAt(b, 4 * i)) &&
              Congruent(WordAt(a, 4 * i + 4), WordAt(b, 4 * i + 4))
  {
    hide Words, Fletcher64, Stored, Congruent, DiffersOnlyAt, WordAt;
    ChangedBytesAreTwoWords(a, b, i);
    AdjacentChangeDetected(a, b, i);
    WordsAt(a, i);
    WordsAt(b, i);
  }

  lemma WordsAt(block: Bytes, i: nat)
    requires i >= 2 && 4 * i + 8 <= |block|
    ensures Words(block)[i] == WordAt(block, 4 * i) && Words(block)[i + 1] == WordAt(block, 4 * i + 4)
  {
    WordIsAt(block, i);
    WordIsAt(block, i + 1);
  }

  /** Any single byte changed past the checksum field of a valid block, and within its whole words, makes it
      invalid. */
  lemma AnyByteIsCaught(a: Bytes, b: Bytes, k: nat)
    requires 8 <= k < |a| / 4 * 4 && SameOutside(a, b, k, 1) && a[k] != b[k] && ChecksumValid(a)
    ensures !ChecksumValid(b)
  {
    hide Words, Fletcher64, Stored;
    var i := k / 4;
    OneByteOfAWord(a, b, 4 * i, k);
    if |a| >= 4 * i + 8 {
      ChangedBytesAreCaught(a, b, i);
    } else if i > 2 {
      ChangedBytesAreCaught(a, b, i - 1);
    } else {
      OnlyWordIsCaught(a, b);
    }
  }

  lemma OneByteOfAWord(a: Bytes, b: Bytes, off: nat, k: nat)
    requires off <= k < off + 4 <= |a| && SameOutside(a, b, k, 1) && a[k] != b[k]
    ensures !Congruent(WordAt(a, off), WordAt(b, off))
  {
    FourDigits(a, off);
    FourDigits(b, off);
  }

  lemma FourDigits(d: Bytes, off: nat)
    requires off + 4 <= |d|
    ensures WordAt(d, off) == (d[off] as nat) + 0x100 * (d[off + 1] as nat) + 0x1_0000 * (d[off + 2] as nat)
                              + 0x100_0000 * (d[off + 3] as nat)
  {
    hide Digits;
    ReadsAreDigits(d, off);
    FourBytesAre(d, off);
  }

  lemma OnlyWordIsCaught(a: Bytes, b: Bytes)
    requires 12 <= |a| < 16 && SameOutside(a, b, 8, 4) && ChecksumValid(a)
    requires !Congruent(WordAt(a, 8), WordAt(b, 8))
    ensures !ChecksumValid(b)
  {
    hide Fletcher64, WordAt, Congruent;
    WordIsAt(a, 2);
    WordIsAt(b, 2);
    SumOfThree(Words(a));
    SumOfThree(Words(b));
    assert Stored(a) == Stored(b);
    SameChecksumIffSameSums(a, b);
    SameModIffMultiple(Sum(Words(a)), Sum(Words(b)));
    CongruentIff(Words(a)[2], Words(b)[2]);
  }

  lemma SumOfThree(ws: seq<nat>)
    requires |ws| == 3 && ws[0] == 0 && ws[1] == 0
    ensures Sum(ws) == ws[2]
  {
    var last := ws[2..];
    assert ws[1..][1..] == last && last[1..] == [];
    assert Sum(last) == last[0] + Sum([]);
    assert Sum(ws[1..]) == ws[1] + Sum(last);
  }
}
