/**
 * FastCDC format 1: the chunker, the local boundary verifier, and the proof that
 * checking boundaries locally is the same as running the chunker over the file.
 *
 * The gear table is a parameter. Nothing below depends on its contents.
 */
module FastCdc {
  import opened Bytes
  import opened Bits
  import opened Outcomes

  /** A 64-bit word; the shifts and sums below wrap explicitly. */
  type Word = w: int | 0 <= w <= U64_MAX

  type GearTable = g: seq<Word> | |g| == 256 witness seq(256, (i: int) => 0 as Word)

  const MASKS: seq<Word> := [
    0, 0, 0, 0, 0,
    0x0000000001804110, 0x0000000001803110, 0x0000000018035100, 0x0000001800035300,
    0x0000019000353000, 0x0000590003530000, 0x0000D90003530000, 0x0000D90103530000,
    0x0000D90303530000, 0x0000D90313530000, 0x0000D90F03530000, 0x0000D90303537000,
    0x0000D90703537000, 0x0000D90707537000, 0x0000D91707537000, 0x0000D91747537000,
    0x0000D91767537000, 0x0000D93767537000, 0x0000D93777537000, 0x0000D93777577000,
    0x0000DB3777577000]

  datatype Profile = Profile(algorithm: nat, revision: nat, normalization: nat,
                             minimum: nat, average: nat, maximum: nat, seed: nat)

  predicate PowerOfTwo(n: nat) {
    n == 1 || (n > 0 && n % 2 == 0 && PowerOfTwo(n / 2))
  }

  /** n.bit_length() */
  function BitLength(n: nat): nat {
    if n == 0 then 0 else 1 + BitLength(n / 2)
  }

  predicate ValidProfile(p: Profile) {
    && p.algorithm == 1 && p.revision == 1 && p.normalization == 1
    && 64 <= p.minimum <= 1_048_576
    && 256 <= p.average <= 4_194_304
    && 1024 <= p.maximum <= 16_777_216
    && p.minimum < p.average < p.maximum
    && PowerOfTwo(p.average)
    && p.seed <= U64_MAX
  }

  lemma {:induction false} BitLengthMonotone(m: nat, n: nat)
    requires m <= n
    ensures BitLength(m) <= BitLength(n)
  {
    if m > 0 { BitLengthMonotone(m / 2, n / 2); }
  }

  /** Both mask lookups stay inside the table. */
  lemma MaskIndices(p: Profile)
    requires ValidProfile(p)
    ensures 1 <= BitLength(p.average) - 1 - p.normalization
    ensures BitLength(p.average) - 1 + p.normalization < |MASKS|
  {
    BitLengthMonotone(256, p.average);
    BitLengthMonotone(p.average, 4_194_304);
    assert BitLength(256) == 9;
    assert BitLength(4_194_304) == 23;
  }

  function StrictMask(p: Profile): Word
    requires ValidProfile(p)
  {
    MaskIndices(p);
    MASKS[BitLength(p.average) - 1 + p.normalization]
  }

  function LooseMask(p: Profile): Word
    requires ValidProfile(p)
  {
    MaskIndices(p);
    MASKS[BitLength(p.average) - 1 - p.normalization]
  }

  function Wrap(n: nat): Word {
    n % (U64_MAX + 1)
  }

  lemma WrapMultiple(n: nat, k: nat)
    ensures Wrap(n + k * 0x1_0000_0000_0000_0000) == Wrap(n)
  {}

  lemma WrapTwice(a: nat, b: nat)
    ensures Wrap(2 * Wrap(a) + b) == Wrap(2 * a + b)
  {
    var q := a / 0x1_0000_0000_0000_0000;
    assert 2 * a + b == 2 * Wrap(a) + b + (2 * q) * 0x1_0000_0000_0000_0000;
    WrapMultiple(2 * Wrap(a) + b, 2 * q);
  }

  lemma WrapDouble(n: nat)
    ensures Wrap(2 * n) == 2 * (n % 0x8000_0000_0000_0000)
  {
    var q, r := n / 0x8000_0000_0000_0000, n % 0x8000_0000_0000_0000;
    assert 2 * n == 2 * r + q * 0x1_0000_0000_0000_0000;
    WrapMultiple(2 * r, q);
  }

  function Doubled(mask: Word): Word {
    Wrap(2 * mask)
  }

  /** Fingerprint update for the first byte of a pair. */
  function RollEven(g: GearTable, p: Profile, fingerprint: Word, b: byte): Word
    requires ValidProfile(p)
  {
    Wrap(4 * fingerprint + Xor(Doubled(g[b]), Doubled(p.seed)))
  }

  /** Fingerprint update for the second byte of a pair. */
  function RollOdd(g: GearTable, p: Profile, fingerprint: Word, b: byte): Word
    requires ValidProfile(p)
  {
    Wrap(fingerprint + Xor(g[b], p.seed))
  }

  predicate Masked(fingerprint: Word, mask: Word) {
    Disjoint(fingerprint, mask)
  }

  // ---------------------------------------------------------------- specification

  /** First position the scan looks at: the minimum rounded down to a pair. */
  function ScanStart(p: Profile): nat {
    p.minimum / 2 * 2
  }

  function Lesser(a: nat, b: nat): nat {
    if a <= b then a else b
  }

  /** Fingerprint after the bytes from ScanStart up to (not including) `end`. */
  function Roll(g: GearTable, p: Profile, s: seq<byte>, end: nat): Word
    requires ValidProfile(p) && end <= |s|
  {
    if end <= ScanStart(p) then 0
    else if end % 2 == 1 then RollEven(g, p, Roll(g, p, s, end - 1), s[end - 1])
    else RollOdd(g, p, Roll(g, p, s, end - 1), s[end - 1])
  }

  /** Position `c` is a cut point: the fingerprint just after byte c is masked out. */
  predicate Hit(g: GearTable, p: Profile, s: seq<byte>, c: nat)
    requires ValidProfile(p) && c < |s|
  {
    var mask := if c / 2 < p.average / 2 then StrictMask(p) else LooseMask(p);
    Masked(Roll(g, p, s, c + 1), if c % 2 == 0 then Doubled(mask) else mask)
  }

  /** The first cut point in [c, limit), or limit. */
  function FirstHit(g: GearTable, p: Profile, s: seq<byte>, c: nat, limit: nat): (h: nat)
    requires ValidProfile(p) && c <= limit <= |s|
    ensures c <= h <= limit
    ensures h < limit ==> Hit(g, p, s, h)
    ensures forall k :: c <= k < h ==> !Hit(g, p, s, k)
    decreases limit - c
  {
    if c == limit || Hit(g, p, s, c) then c else FirstHit(g, p, s, c + 1, limit)
  }

  /** Length of the first chunk of `s`. */
  function Cut(g: GearTable, p: Profile, s: seq<byte>): (c: nat)
    requires ValidProfile(p)
    ensures c <= |s| && c <= p.maximum
    ensures s != [] ==> c > 0
    ensures c == |s| || c >= ScanStart(p)
  {
    if |s| <= p.minimum then |s|
    else
      var remaining := Lesser(|s|, p.maximum);
      var limit := remaining / 2 * 2;
      var h := FirstHit(g, p, s, ScanStart(p), limit);
      if h < limit then h else remaining
  }

  /** Iterated cutting. */
  function CutAll(g: GearTable, p: Profile, s: seq<byte>): (lengths: seq<nat>)
    requires ValidProfile(p)
    decreases |s|
  {
    if s == [] then []
    else var c := Cut(g, p, s); [c] + CutAll(g, p, s[c..])
  }

  /** What chunk_lengths returns: a small file is one chunk. */
  function Chunking(g: GearTable, p: Profile, s: seq<byte>): seq<nat>
    requires ValidProfile(p)
  {
    if 0 < |s| <= p.maximum then [|s|] else CutAll(g, p, s)
  }

  predicate CanonicalBoundary(g: GearTable, p: Profile, left: seq<byte>, rightPrefix: seq<byte>)
    requires ValidProfile(p)
  {
    left != [] && 0 < |rightPrefix| <= 2 && Cut(g, p, left + rightPrefix) == |left|
  }

  // ---------------------------------------------------------------- what a cut point is

  /** The contribution of one byte to the gear hash. */
  function Gear(g: GearTable, p: Profile, b: byte): nat {
    Xor(g[b], p.seed)
  }

  /** The plain gear hash of s[from..end]: one byte at a time, shift and add, modulo 2^64. */
  function GearHash(g: GearTable, p: Profile, s: seq<byte>, from: nat, end: nat): Word
    requires end <= |s|
  {
    if end <= from then 0 else Wrap(2 * GearHash(g, p, s, from, end - 1) + Gear(g, p, s[end - 1]))
  }

  /** The same as a sum: byte i is weighted by the number of bytes behind it. */
  function GearSum(g: GearTable, p: Profile, s: seq<byte>, from: nat, end: nat): nat
    requires end <= |s|
    decreases end - from
  {
    if end <= from then 0 else Pow2(end - 1 - from) * Gear(g, p, s[from]) + GearSum(g, p, s, from + 1, end)
  }

  lemma {:induction false} GearSumExtends(g: GearTable, p: Profile, s: seq<byte>, from: nat, end: nat)
    requires from <= end < |s|
    ensures GearSum(g, p, s, from, end + 1) == 2 * GearSum(g, p, s, from, end) + Gear(g, p, s[end])
    decreases end - from
  {
    hide Gear;
    if from < end {
      GearSumExtends(g, p, s, from + 1, end);
      TwiceProduct(Pow2(end - 1 - from), Gear(g, p, s[from]));
    } else {
      assert GearSum(g, p, s, from + 1, end + 1) == 0 && Pow2(0) == 1;
    }
  }

  lemma {:induction false} GearHashIsSum(g: GearTable, p: Profile, s: seq<byte>, from: nat, end: nat)
    requires from <= end <= |s|
    ensures GearHash(g, p, s, from, end) == Wrap(GearSum(g, p, s, from, end))
    decreases end
  {
    hide Gear, Wrap;
    if from < end {
      GearHashIsSum(g, p, s, from, end - 1);
      GearSumExtends(g, p, s, from, end - 1);
      WrapTwice(GearSum(g, p, s, from, end - 1), Gear(g, p, s[end - 1]));
    } else {
      WrapZero();
    }
  }

  lemma WrapZero()
    ensures Wrap(0) == 0
  {}

  /** Shifting both operands first shifts the exclusive or. */
  lemma XorDoubled(a: Word, b: Word)
    ensures Xor(Doubled(a), Doubled(b)) == Wrap(2 * Xor(a, b))
  {
    hide Xor, Low, Wrap;
    Low63(a);
    Low63(b);
    Low63(Xor(a, b));
    XorLow(a, b, 63);
    WrapDouble(a);
    WrapDouble(b);
    WrapDouble(Xor(a, b));
    XorEven(Low(a, 63), Low(b, 63));
  }

  lemma XorEven(a: nat, b: nat)
    ensures Xor(2 * a, 2 * b) == 2 * Xor(a, b)
  {
    hide Xor;
    XorStep(2 * a, 2 * b);
  }

  /** Both updates add one byte to the gear hash; the first of a pair leaves the result doubled. */
  lemma RollStep(g: GearTable, p: Profile, hash: Word, b: byte)
    requires ValidProfile(p)
    ensures RollEven(g, p, hash, b) == Doubled(Wrap(2 * hash + Gear(g, p, b)))
    ensures RollOdd(g, p, Doubled(hash), b) == Wrap(2 * hash + Gear(g, p, b))
  {
    hide Xor, PowerOfTwo, Wrap;
    XorDoubled(g[b], p.seed);
    var x := Gear(g, p, b);
    WrapSum(4 * hash, 2 * x);
    WrapTwice(2 * hash + x, 0);
    WrapSum(x, 2 * hash);
  }

  lemma WrapSum(a: nat, b: nat)
    ensures Wrap(a + Wrap(b)) == Wrap(a + b)
  {
    WrapMultiple(a + Wrap(b), b / 0x1_0000_0000_0000_0000);
  }

  /** The two-step fingerprint is the gear hash, doubled in the middle of a pair. */
  lemma {:induction false} RollIsGear(g: GearTable, p: Profile, s: seq<byte>, end: nat)
    requires ValidProfile(p) && ScanStart(p) <= end <= |s|
    ensures var hash := GearHash(g, p, s, ScanStart(p), end);
            Roll(g, p, s, end) == if end % 2 == 0 then hash else Doubled(hash)
    decreases end
  {
    hide PowerOfTwo, RollEven, RollOdd, Gear, Wrap, Doubled;
    if end > ScanStart(p) {
      RollIsGear(g, p, s, end - 1);
      RollStep(g, p, GearHash(g, p, s, ScanStart(p), end - 1), s[end - 1]);
    } else {
      RollStart(g, p, s);
    }
  }

  /** log2 of a power of two. */
  lemma {:induction false} PowerBits(n: nat)
    requires PowerOfTwo(n)
    ensures BitLength(n) >= 1 && Pow2(BitLength(n) - 1) == n
  {
    if n > 1 { PowerBits(n / 2); } else { assert BitLength(1) == 1; }
  }

  /** The i-th mask has exactly i one bits, all below bit 63. */
  lemma MaskBits(i: nat)
    requires 5 <= i < 26
    ensures BitCount(MASKS[i]) == i && MASKS[i] < 0x8000_0000_0000_0000
  {
    hide BitCount;
    if i < 10 { MasksFrom5(i); } else if i < 15 { MasksFrom10(i); }
    else if i < 20 { MasksFrom15(i); } else { MasksFrom20(i); }
  }

  lemma MasksFrom5(i: nat)
    requires 5 <= i < 10
    ensures BitCount(MASKS[i]) == i
  {
    hide BitCount;
    match i
    case 5 => CountHex12(0, 0, 0, 0, 0, 1, 8, 0, 4, 1, 1, 0);
    case 6 => CountHex12(0, 0, 0, 0, 0, 1, 8, 0, 3, 1, 1, 0);
    case 7 => CountHex12(0, 0, 0, 0, 1, 8, 0, 3, 5, 1, 0, 0);
    case 8 => CountHex12(0, 0, 1, 8, 0, 0, 0, 3, 5, 3, 0, 0);
    case _ => CountHex12(0, 1, 9, 0, 0, 0, 3, 5, 3, 0, 0, 0);
  }

  lemma MasksFrom10(i: nat)
    requires 10 <= i < 15
    ensures BitCount(MASKS[i]) == i
  {
    hide BitCount;
    match i
    case 10 => CountHex12(5, 9, 0, 0, 0, 3, 5, 3, 0, 0, 0, 0);
    case 11 => CountHex12(0xD, 9, 0, 0, 0, 3, 5, 3, 0, 0, 0, 0);
    case 12 => CountHex12(0xD, 9, 0, 1, 0, 3, 5, 3, 0, 0, 0, 0);
    case 13 => CountHex12(0xD, 9, 0, 3, 0, 3, 5, 3, 0, 0, 0, 0);
    case _ => CountHex12(0xD, 9, 0, 3, 1, 3, 5, 3, 0, 0, 0, 0);
  }

  lemma MasksFrom15(i: nat)
    requires 15 <= i < 20
    ensures BitCount(MASKS[i]) == i
  {
    hide BitCount;
    match i
    case 15 => CountHex12(0xD, 9, 0, 0xF, 0, 3, 5, 3, 0, 0, 0, 0);
    case 16 => CountHex12(0xD, 9, 0, 3, 0, 3, 5, 3, 7, 0, 0, 0);
    case 17 => CountHex12(0xD, 9, 0, 7, 0, 3, 5, 3, 7, 0, 0, 0);
    case 18 => CountHex12(0xD, 9, 0, 7, 0, 7, 5, 3, 7, 0, 0, 0);
    case _ => CountHex12(0xD, 9, 1, 7, 0, 7, 5, 3, 7, 0, 0, 0);
  }

  lemma MasksFrom20(i: nat)
    requires 20 <= i < 26
    ensures BitCount(MASKS[i]) == i
  {
    hide BitCount;
    match i
    case 20 => CountHex12(0xD, 9, 1, 7, 4, 7, 5, 3, 7, 0, 0, 0);
    case 21 => CountHex12(0xD, 9, 1, 7, 6, 7, 5, 3, 7, 0, 0, 0);
    case 22 => CountHex12(0xD, 9, 3, 7, 6, 7, 5, 3, 7, 0, 0, 0);
    case 23 => CountHex12(0xD, 9, 3, 7, 7, 7, 5, 3, 7, 0, 0, 0);
    case 24 => CountHex12(0xD, 9, 3, 7, 7, 7, 5, 7, 7, 0, 0, 0);
    case _ => CountHex12(0xD, 0xB, 3, 7, 7, 7, 5, 7, 7, 0, 0, 0);
  }

  /** The mask a position is tested with, by how many bits it selects: more before the average than behind it. */
  ghost predicate IsMaskAt(p: Profile, c: nat, mask: Word) {
    exists bits: nat :: Pow2(bits) == p.average && MaskOf(if c < p.average then bits + 1 else bits - 1, mask)
  }

  /** The mask of the table with this many one bits. */
  ghost predicate MaskOf(ones: int, mask: Word) {
    5 <= ones < |MASKS| && mask == MASKS[ones] && BitCount(mask) == ones
  }

  /** The gear hash just behind byte c has no bit of the mask set. */
  ghost predicate CutPoint(g: GearTable, p: Profile, s: seq<byte>, c: nat)
    requires c < |s|
  {
    exists mask: Word :: IsMaskAt(p, c, mask) && NoSharedBit(GearHash(g, p, s, ScanStart(p), c + 1), mask)
  }

  lemma {:induction false} PowersDiffer(m: nat, n: nat)
    requires m < n
    ensures Pow2(m) < Pow2(n)
    decreases n
  {
    if m < n - 1 { PowersDiffer(m, n - 1); }
  }

  /** The mask of a position: one bit more, or one bit less, than the logarithm of the average. */
  lemma ProfileMask(p: Profile, c: nat)
    requires ValidProfile(p)
    ensures var mine := if c < p.average then StrictMask(p) else LooseMask(p);
            && mine < 0x8000_0000_0000_0000 && IsMaskAt(p, c, mine)
            && forall mask :: IsMaskAt(p, c, mask) ==> mask == mine
  {
    hide BitCount, PowerOfTwo, BitLength, Pow2;
    var bits := BitLength(p.average) - 1;
    PowerBits(p.average);
    AverageBits(p);
    MaskBits(bits + 1);
    MaskBits(bits - 1);
    var mine := if c < p.average then StrictMask(p) else LooseMask(p);
    assert Pow2(bits) == p.average && MaskOf(if c < p.average then bits + 1 else bits - 1, mine);
    forall mask | IsMaskAt(p, c, mask) ensures mask == mine {
      var other: nat :| Pow2(other) == p.average && MaskOf(if c < p.average then other + 1 else other - 1, mask);
      SamePower(other, bits);
    }
  }

  lemma SamePower(m: nat, n: nat)
    requires Pow2(m) == Pow2(n)
    ensures m == n
  {
    if m < n { PowersDiffer(m, n); }
    if n < m { PowersDiffer(n, m); }
  }

  lemma AverageBits(p: Profile)
    requires ValidProfile(p)
    ensures 9 <= BitLength(p.average) <= 23
  {
    BitLengthMonotone(256, p.average);
    BitLengthMonotone(p.average, 4_194_304);
    assert BitLength(256) == 9;
    assert BitLength(4_194_304) == 23;
  }

  /** Testing a doubled hash against the doubled mask tests the hash against the mask. */
  lemma DoubledTest(hash: Word, mask: Word)
    requires mask < 0x8000_0000_0000_0000
    ensures Masked(Doubled(hash), Doubled(mask)) <==> Masked(hash, mask)
  {
    hide Disjoint, Wrap, Low, Pow2;
    WrapDouble(hash);
    WrapDouble(mask);
    Low63(hash);
    Pow63();
    DisjointEven(Low(hash, 63), mask);
    DisjointLow(hash, mask, 63);
  }

  lemma DisjointEven(a: nat, b: nat)
    ensures Disjoint(2 * a, 2 * b) <==> Disjoint(a, b)
  {}

  /** A hit is a cut point of the plain gear hash. */
  lemma HitIsCutPoint(g: GearTable, p: Profile, s: seq<byte>, c: nat)
    requires ValidProfile(p) && ScanStart(p) <= c < |s|
    ensures Hit(g, p, s, c) <==> CutPoint(g, p, s, c)
  {
    hide StrictMask, LooseMask, Roll, GearHash, Doubled, Disjoint, NoSharedBit, IsMaskAt, PowerOfTwo;
    var mask := if c < p.average then StrictMask(p) else LooseMask(p);
    var hash := GearHash(g, p, s, ScanStart(p), c + 1);
    ProfileMask(p, c);
    EvenAverage(p);
    assert (c / 2 < p.average / 2) == (c < p.average);
    RollIsGear(g, p, s, c + 1);
    DoubledTest(hash, mask);
    DisjointBits(hash, mask);
  }

  lemma EvenAverage(p: Profile)
    requires ValidProfile(p)
    ensures p.average % 2 == 0
  {}

  ghost predicate NoCutPoint(g: GearTable, p: Profile, s: seq<byte>, from: nat, end: nat)
    requires end <= |s|
  {
    forall k :: from <= k < end ==> !CutPoint(g, p, s, k)
  }

  /**
   * What the first chunk is: everything, up to the minimum; otherwise up to the first cut point from the scan's start
   * on, or up to the end or the maximum if there is none among the whole pairs before it.
   */
  ghost predicate IsCut(g: GearTable, p: Profile, s: seq<byte>, c: nat) {
    if |s| <= p.minimum then c == |s|
    else
      var end := Lesser(|s|, p.maximum);
      || (ScanStart(p) <= c < end / 2 * 2 && CutPoint(g, p, s, c) && NoCutPoint(g, p, s, ScanStart(p), c))
      || (c == end && NoCutPoint(g, p, s, ScanStart(p), end / 2 * 2))
  }

  /** The cut is the first position at which the plain gear hash has all mask bits zero. */
  lemma CutIsFirstCutPoint(g: GearTable, p: Profile, s: seq<byte>, c: nat)
    requires ValidProfile(p)
    ensures c == Cut(g, p, s) <==> IsCut(g, p, s, c)
  {
    hide Hit, CutPoint, PowerOfTwo;
    if |s| > p.minimum {
      forall k | ScanStart(p) <= k < |s| ensures Hit(g, p, s, k) <==> CutPoint(g, p, s, k) {
        HitIsCutPoint(g, p, s, k);
      }
    }
  }

  // ---------------------------------------------------------------- the source's loops

  function PairMask(p: Profile, index: nat): Word
    requires ValidProfile(p)
  {
    if index < p.average / 2 then StrictMask(p) else LooseMask(p)
  }

  /** One loop iteration looks at the two positions of a pair. */
  lemma ScanPair(g: GearTable, p: Profile, s: seq<byte>, index: nat, limit: nat)
    requires ValidProfile(p) && p.minimum / 2 <= index && 2 * index + 2 <= limit <= |s|
    ensures Roll(g, p, s, 2 * index + 1) == RollEven(g, p, Roll(g, p, s, 2 * index), s[2 * index])
    ensures Roll(g, p, s, 2 * index + 2) == RollOdd(g, p, Roll(g, p, s, 2 * index + 1), s[2 * index + 1])
    ensures FirstHit(g, p, s, 2 * index, limit) ==
            if Masked(Roll(g, p, s, 2 * index + 1), Doubled(PairMask(p, index))) then 2 * index
            else if Masked(Roll(g, p, s, 2 * index + 2), PairMask(p, index)) then 2 * index + 1
            else FirstHit(g, p, s, 2 * index + 2, limit)
  {
    hide RollEven, RollOdd, Masked, StrictMask, LooseMask, Doubled, PowerOfTwo;
    assert Hit(g, p, s, 2 * index) == Masked(Roll(g, p, s, 2 * index + 1), Doubled(PairMask(p, index)));
    assert Hit(g, p, s, 2 * index + 1) == Masked(Roll(g, p, s, 2 * index + 2), PairMask(p, index));
  }

  lemma RollStart(g: GearTable, p: Profile, s: seq<byte>)
    requires ValidProfile(p) && ScanStart(p) <= |s|
    ensures Roll(g, p, s, ScanStart(p)) == 0
  {}

  /** The pairwise two-phase scan computes exactly the first cut point. */
  method CutIndexed(g: GearTable, s: seq<byte>, p: Profile) returns (at: nat)
    requires ValidProfile(p)
    ensures at == Cut(g, p, s) && IsCut(g, p, s, at)
  {
    hide Roll, RollEven, RollOdd, Hit, FirstHit, Masked, StrictMask, LooseMask, Doubled, PowerOfTwo, IsCut;
    CutIsFirstCutPoint(g, p, s, Cut(g, p, s));
    if |s| <= p.minimum { return |s|; }
    var remaining := Lesser(|s|, p.maximum);
    var center := Lesser(p.average, remaining);
    var strict, loose := StrictMask(p), LooseMask(p);
    var fingerprint: Word := 0;
    var index := p.minimum / 2;
    ghost var limit := remaining / 2 * 2;
    ghost var first := FirstHit(g, p, s, ScanStart(p), limit);
    RollStart(g, p, s);

    while index < center / 2
      invariant p.minimum / 2 <= index <= center / 2
      invariant fingerprint == Roll(g, p, s, 2 * index)
      invariant first == FirstHit(g, p, s, 2 * index, limit)
    {
      ScanPair(g, p, s, index, limit);
      var even := index * 2;
      fingerprint := RollEven(g, p, fingerprint, s[even]);
      if Masked(fingerprint, Doubled(strict)) { return even; }
      fingerprint := RollOdd(g, p, fingerprint, s[even + 1]);
      if Masked(fingerprint, strict) { return even + 1; }
      index := index + 1;
    }
    while index < remaining / 2
      invariant center / 2 <= index <= remaining / 2
      invariant fingerprint == Roll(g, p, s, 2 * index)
      invariant first == FirstHit(g, p, s, 2 * index, limit)
    {
      ScanPair(g, p, s, index, limit);
      var even := index * 2;
      fingerprint := RollEven(g, p, fingerprint, s[even]);
      if Masked(fingerprint, Doubled(loose)) { return even; }
      fingerprint := RollOdd(g, p, fingerprint, s[even + 1]);
      if Masked(fingerprint, loose) { return even + 1; }
      index := index + 1;
    }
    return remaining;
  }

  method ChunkLengths(g: GearTable, s: seq<byte>, p: Profile) returns (r: Result<seq<nat>>)
    ensures r == if ValidProfile(p) then Accepted(Chunking(g, p, s)) else Rejected
  {
    hide Cut, PowerOfTwo;
    if !ValidProfile(p) { return Rejected; }
    if s == [] { return Accepted([]); }
    if |s| <= p.maximum { return Accepted([|s|]); }
    var lengths: seq<nat>, offset := [], 0;
    while offset < |s|
      invariant offset <= |s|
      invariant CutAll(g, p, s) == lengths + CutAll(g, p, s[offset..])
    {
      var length := CutIndexed(g, s[offset..], p);
      assert length > 0; // the source's empty-chunk error is unreachable
      lengths := lengths + [length];
      assert s[offset..][length..] == s[offset + length..];
      offset := offset + length;
    }
    assert s[offset..] == [] && CutAll(g, p, []) == [];
    assert lengths == CutAll(g, p, s);
    assert Chunking(g, p, s) == CutAll(g, p, s);
    return Accepted(lengths);
  }

  // ---------------------------------------------------------------- locality of cuts

  lemma {:induction false} RollLocal(g: GearTable, p: Profile, s: seq<byte>, t: seq<byte>, end: nat)
    requires ValidProfile(p) && end <= |s| && end <= |t| && s[..end] == t[..end]
    ensures Roll(g, p, s, end) == Roll(g, p, t, end)
  {
    hide RollEven, RollOdd, PowerOfTwo;
    if end > ScanStart(p) {
      assert s[end - 1] == s[..end][end - 1] == t[..end][end - 1] == t[end - 1];
      assert s[..end - 1] == s[..end][..end - 1] == t[..end][..end - 1] == t[..end - 1];
      RollLocal(g, p, s, t, end - 1);
    }
  }

  /** Whether position c is a cut point depends on the bytes up to c only. */
  lemma HitLocal(g: GearTable, p: Profile, s: seq<byte>, t: seq<byte>, c: nat, end: nat)
    requires ValidProfile(p) && c < end <= |s| && end <= |t| && s[..end] == t[..end]
    ensures Hit(g, p, s, c) == Hit(g, p, t, c)
  {
    hide Roll, Masked, StrictMask, LooseMask, Doubled, PowerOfTwo;
    assert s[..c + 1] == s[..end][..c + 1] == t[..end][..c + 1] == t[..c + 1];
    RollLocal(g, p, s, t, c + 1);
  }

  lemma {:induction false} FirstHitIs(g: GearTable, p: Profile, s: seq<byte>, c: nat, limit: nat, h: nat)
    requires ValidProfile(p) && c <= h <= limit <= |s|
    requires forall k :: c <= k < h ==> !Hit(g, p, s, k)
    requires h < limit ==> Hit(g, p, s, h)
    ensures FirstHit(g, p, s, c, limit) == h
    decreases h - c
  {
    hide Hit, PowerOfTwo;
    if c < h { FirstHitIs(g, p, s, c + 1, limit, h); }
  }

  /** The first hit only depends on the bytes up to it. */
  lemma FirstHitLocal(g: GearTable, p: Profile, s: seq<byte>, t: seq<byte>, limit: nat, limit': nat)
    requires ValidProfile(p) && ScanStart(p) <= limit <= |s| && limit' <= |t|
    requires var h := FirstHit(g, p, s, ScanStart(p), limit);
             h <= limit' && (h == limit ==> limit' == limit) && (h < limit ==> h < limit')
    requires var h := FirstHit(g, p, s, ScanStart(p), limit);
             var seen := if h < limit then h + 1 else limit; s[..seen] == t[..seen]
    ensures FirstHit(g, p, t, ScanStart(p), limit') == FirstHit(g, p, s, ScanStart(p), limit)
  {
    hide Hit, PowerOfTwo;
    var h := FirstHit(g, p, s, ScanStart(p), limit);
    var seen := if h < limit then h + 1 else limit;
    forall k | ScanStart(p) <= k < seen
      ensures Hit(g, p, s, k) == Hit(g, p, t, k)
    {
      HitLocal(g, p, s, t, k, seen);
    }
    FirstHitIs(g, p, t, ScanStart(p), limit', h);
  }

  /** A cut strictly inside a source is unchanged by any extension of the source. */
  lemma CutExtends(g: GearTable, p: Profile, s: seq<byte>, t: seq<byte>)
    requires ValidProfile(p) && Cut(g, p, s) < |s|
    ensures Cut(g, p, s + t) == Cut(g, p, s)
  {
    hide Hit, FirstHit, PowerOfTwo;
    var limit := Lesser(|s|, p.maximum) / 2 * 2;
    var limit' := Lesser(|s + t|, p.maximum) / 2 * 2;
    FirstHitLocal(g, p, s, s + t, limit, limit');
  }

  /** A cut inside a source is reproduced by the bytes before it and at most two after it. */
  lemma CutFromPrefix(g: GearTable, p: Profile, s: seq<byte>)
    requires ValidProfile(p) && Cut(g, p, s) < |s|
    ensures var c := Cut(g, p, s); Cut(g, p, s[..c + Lesser(2, |s| - c)]) == c
  {
    hide Hit, FirstHit, PowerOfTwo;
    var c := Cut(g, p, s);
    var t := s[..c + Lesser(2, |s| - c)];
    FirstHitLocal(g, p, s, t, Lesser(|s|, p.maximum) / 2 * 2, Lesser(|t|, p.maximum) / 2 * 2);
  }

  function Head2(s: seq<byte>): seq<byte> {
    s[..Lesser(2, |s|)]
  }

  /** Two bytes of the right side decide the boundary, whatever follows them. */
  lemma BoundaryExact(g: GearTable, p: Profile, left: seq<byte>, right: seq<byte>)
    requires ValidProfile(p) && left != [] && right != []
    ensures CanonicalBoundary(g, p, left, Head2(right)) <==> Cut(g, p, left + right) == |left|
  {
    hide Cut, PowerOfTwo;
    if CanonicalBoundary(g, p, left, Head2(right)) {
      CutExtends(g, p, left + Head2(right), right[|Head2(right)|..]);
      assert left + Head2(right) + right[|Head2(right)|..] == left + right;
    }
    if Cut(g, p, left + right) == |left| {
      CutFromPrefix(g, p, left + right);
      assert (left + right)[..|left| + |Head2(right)|] == left + Head2(right);
    }
  }

  // ---------------------------------------------------------------- exactness of the verifier

  function Concat(chunks: seq<seq<byte>>): seq<byte> {
    if chunks == [] then [] else chunks[0] + Concat(chunks[1..])
  }

  function Lengths(chunks: seq<seq<byte>>): (r: seq<nat>)
    ensures |r| == |chunks|
  {
    if chunks == [] then [] else [|chunks[0]|] + Lengths(chunks[1..])
  }

  predicate BoundaryAt(g: GearTable, p: Profile, chunks: seq<seq<byte>>, i: nat)
    requires ValidProfile(p) && i + 1 < |chunks|
  {
    CanonicalBoundary(g, p, chunks[i], Head2(chunks[i + 1]))
  }

  predicate AllBoundaries(g: GearTable, p: Profile, chunks: seq<seq<byte>>)
    requires ValidProfile(p)
  {
    forall i :: 0 <= i < |chunks| - 1 ==> BoundaryAt(g, p, chunks, i)
  }

  /** What validate_boundaries accepts. */
  predicate BoundariesAccepted(g: GearTable, p: Profile, chunks: seq<seq<byte>>)
    requires ValidProfile(p)
  {
    AllBoundaries(g, p, chunks)
    && (|chunks| > 1 ==> Cut(g, p, chunks[|chunks| - 1]) == |chunks[|chunks| - 1]|)
  }

  method ValidateBoundaries(g: GearTable, chunks: seq<seq<byte>>, p: Profile) returns (r: Result<()>)
    ensures r.Accepted? <==> ValidProfile(p) && BoundariesAccepted(g, p, chunks)
  {
    hide Cut, PowerOfTwo;
    if !ValidProfile(p) { return Rejected; }
    if chunks == [] { return Accepted(()); }
    var index := 0;
    while index < |chunks| - 1
      invariant 0 <= index < |chunks|
      invariant forall i :: 0 <= i < index ==> BoundaryAt(g, p, chunks, i)
    {
      var left, rightPrefix := chunks[index], Head2(chunks[index + 1]);
      if left == [] || rightPrefix == [] {
        assert !BoundaryAt(g, p, chunks, index);
        return Rejected;
      }
      var at := CutIndexed(g, left + rightPrefix, p);
      if at != |left| {
        assert !BoundaryAt(g, p, chunks, index);
        return Rejected;
      }
      index := index + 1;
    }
    if |chunks| > 1 {
      var at := CutIndexed(g, chunks[|chunks| - 1], p);
      if at != |chunks[|chunks| - 1]| { return Rejected; }
    }
    return Accepted(());
  }

  lemma AllBoundariesCons(g: GearTable, p: Profile, chunks: seq<seq<byte>>)
    requires ValidProfile(p) && |chunks| > 1
    ensures AllBoundaries(g, p, chunks) <==> BoundaryAt(g, p, chunks, 0) && AllBoundaries(g, p, chunks[1..])
  {
    hide CanonicalBoundary, PowerOfTwo;
    forall i | 0 <= i < |chunks| - 2
      ensures BoundaryAt(g, p, chunks[1..], i) == BoundaryAt(g, p, chunks, i + 1)
    {}
    if BoundaryAt(g, p, chunks, 0) && AllBoundaries(g, p, chunks[1..]) {
      forall i | 1 <= i < |chunks| - 1 ensures BoundaryAt(g, p, chunks, i) {
        assert BoundaryAt(g, p, chunks[1..], i - 1);
      }
    }
  }

  /** In front of a canonically cut rest, the first boundary check is the first cut. */
  lemma HeadBoundary(g: GearTable, p: Profile, chunks: seq<seq<byte>>)
    requires ValidProfile(p) && |chunks| > 1
    requires Lengths(chunks[1..]) == CutAll(g, p, Concat(chunks[1..]))
    ensures BoundaryAt(g, p, chunks, 0) <==> chunks[0] != [] && Cut(g, p, Concat(chunks)) == |chunks[0]|
  {
    hide Cut, PowerOfTwo;
    var rest := chunks[1..];
    var right := Concat(rest);
    assert Lengths(rest)[0] == |rest[0]| == |chunks[1]|;
    assert right != [] && Cut(g, p, right) == |chunks[1]|;
    assert right == chunks[1] + Concat(rest[1..]);
    assert Head2(right) == Head2(chunks[1]);
    if chunks[0] != [] { BoundaryExact(g, p, chunks[0], right); }
  }

  /** The verifier's conditions on a chunk list say it was produced by iterated cutting. */
  lemma {:induction false} BoundariesAreCuts(g: GearTable, p: Profile, chunks: seq<seq<byte>>)
    requires ValidProfile(p) && chunks != []
    ensures var last := chunks[|chunks| - 1];
            AllBoundaries(g, p, chunks) && last != [] && Cut(g, p, last) == |last|
            <==> Lengths(chunks) == CutAll(g, p, Concat(chunks))
  {
    hide Cut, PowerOfTwo, BoundaryAt;
    var rest := chunks[1..];
    var whole := Concat(chunks);
    if rest == [] {
      assert Concat(rest) == [] && whole == chunks[0];
      if whole != [] {
        var c := Cut(g, p, whole);
        assert c == |whole| ==> whole[c..] == [];
        assert CutAll(g, p, whole) == [c] + CutAll(g, p, whole[c..]);
      }
    } else {
      BoundariesAreCuts(g, p, rest);
      AllBoundariesCons(g, p, chunks);
      assert whole[|chunks[0]|..] == Concat(rest);
      var canonicalRest := Lengths(rest) == CutAll(g, p, Concat(rest));
      if canonicalRest { HeadBoundary(g, p, chunks); }
      if whole != [] {
        var c := Cut(g, p, whole);
        var cuts := CutAll(g, p, whole);
        assert cuts == [c] + CutAll(g, p, whole[c..]);
        assert cuts[0] == c && cuts[1..] == CutAll(g, p, whole[c..]);
        assert Lengths(chunks)[0] == |chunks[0]| && Lengths(chunks)[1..] == Lengths(rest);
      }
    }
  }

  lemma {:induction false} ConcatLength(chunks: seq<seq<byte>>)
    requires chunks != []
    ensures |Concat(chunks)| >= |chunks[0]|
    ensures |chunks| == 1 ==> Concat(chunks) == chunks[0]
  {}

  /**
   * The local verifier is exact: a chunk list with content passes validate_boundaries and obeys
   * the File rule "one chunk exactly when the total is at most the maximum" if and only if its
   * lengths are what the chunker produces for the concatenated bytes.
   */
  lemma LocalVerifierExact(g: GearTable, p: Profile, chunks: seq<seq<byte>>)
    requires ValidProfile(p) && Concat(chunks) != []
    ensures BoundariesAccepted(g, p, chunks) && (|chunks| == 1 <==> |Concat(chunks)| <= p.maximum)
            <==> Lengths(chunks) == Chunking(g, p, Concat(chunks))
  {
    hide Cut, PowerOfTwo, BoundaryAt;
    var whole := Concat(chunks);
    var last := chunks[|chunks| - 1];
    ConcatLength(chunks);
    BoundariesAreCuts(g, p, chunks);
    if |chunks| == 1 {
      assert AllBoundaries(g, p, chunks);
      assert Lengths(chunks) == [|whole|];
    }
    if |whole| > p.maximum {
      var c := Cut(g, p, whole);
      assert CutAll(g, p, whole) == [c] + CutAll(g, p, whole[c..]);
      assert |CutAll(g, p, whole)| > 1;
    }
    if |chunks| > 1 && last == [] { LastNotEmpty(g, p, chunks); }
  }

  lemma LastNotEmpty(g: GearTable, p: Profile, chunks: seq<seq<byte>>)
    requires ValidProfile(p) && |chunks| > 1 && chunks[|chunks| - 1] == []
    ensures !AllBoundaries(g, p, chunks)
  {
    hide Cut, PowerOfTwo;
    assert !BoundaryAt(g, p, chunks, |chunks| - 2);
  }
}
