/**
 * The order of the keys in an accepted physical map. The validator compares only the outermost keys of each child,
 * so accepted maps may hold their keys out of order; they are in order exactly when every branch is nested in its
 * parent.
 */
module PhysicalMapOrder {
  import opened Bytes
  import opened Bits
  import opened Outcomes
  import opened Objects
  import opened Marks
  import opened PhysicalFields
  import opened PhysicalMapNodes
  import opened PhysicalMap
  import opened KeyTrees

  // ---------------------------------------------------------------- digits of a key

  /** Digit k of a byte: a nibble in a radix map, a bit in a binary one. */
  function DigitOf(radix: bool, b: byte, k: nat): nat
    requires k < if radix then 2 else 8
  {
    if !radix then BitOf(b, k) else if k == 0 then b / 16 else b % 16
  }

  function DigitsOf(radix: bool, key: seq<byte>): Digits {
    if radix then seq(2 * |key|, i requires 0 <= i < 2 * |key| => DigitOf(true, key[i / 2], i % 2))
    else seq(8 * |key|, i requires 0 <= i < 8 * |key| => DigitOf(false, key[i / 8], i % 8))
  }

  lemma DivTwice(n: nat, p: nat)
    requires p > 0
    ensures n / (2 * p) == n / p / 2
  {
    var q, s := n / p, n / p / 2;
    var r := n - s * (2 * p);
    assert n == q * p + n % p && q == 2 * s + q % 2;
    assert r == (q % 2) * p + n % p;
    assert 0 <= r < 2 * p;
    DivUnique(n, 2 * p, s, r);
  }

  lemma DivUnique(n: nat, d: nat, q: nat, r: nat)
    requires d > 0 && n == q * d + r && r < d
    ensures n / d == q
  {
    assert n == (n / d) * d + n % d;
    MultiplesApart(n / d, q, d);
    MultiplesApart(q, n / d, d);
  }

  /** The first k bits of two bytes as numbers compare as their bits do. */
  lemma {:induction false} TopsAgree(a: byte, b: byte, k: nat)
    requires k <= 8 && forall j :: 0 <= j < k ==> BitOf(a, j) == BitOf(b, j)
    ensures a / Pow2(8 - k) == b / Pow2(8 - k)
    decreases k
  {
    if k == 0 {
      assert Pow2(8) == 256 by { assert Pow2(4) == 16; assert Pow2(8) == 2 * (2 * (2 * (2 * Pow2(4)))); }
    } else {
      TopsAgree(a, b, k - 1);
      assert Pow2(9 - k) == 2 * Pow2(8 - k);
      DivTwice(a, Pow2(8 - k));
      DivTwice(b, Pow2(8 - k));
      assert BitOf(a, k - 1) == BitOf(b, k - 1);
    }
  }

  lemma BitDecides(a: byte, b: byte, k: nat)
    requires k < 8 && (forall j :: 0 <= j < k ==> BitOf(a, j) == BitOf(b, j)) && BitOf(a, k) < BitOf(b, k)
    ensures a < b
  {
    TopsAgree(a, b, k);
    var p := Pow2(7 - k);
    assert Pow2(8 - k) == 2 * p;
    DivTwice(a, p);
    DivTwice(b, p);
    assert a / p < b / p;
    if b <= a { DivMonotone(b, a, p); }
  }

  lemma DivMonotone(a: nat, b: nat, p: nat)
    requires a <= b && p > 0
    ensures a / p <= b / p
  {
    assert a == (a / p) * p + a % p && b == (b / p) * p + b % p;
    MultiplesApart(b / p, a / p, p);
  }

  lemma {:induction false} SharedBitsAre(a: byte, b: byte, k: nat)
    requires k <= 8 && forall j :: 0 <= j < k ==> BitOf(a, j) == BitOf(b, j)
    ensures var n := SharedBits(a, b, k);
            && k <= n <= 8 && (forall j :: 0 <= j < n ==> BitOf(a, j) == BitOf(b, j))
            && (n < 8 ==> BitOf(a, n) != BitOf(b, n)) && (n == 8 ==> a == b)
    decreases 8 - k
  {
    hide BitOf;
    if k < 8 && BitOf(a, k) == BitOf(b, k) {
      SharedBitsAre(a, b, k + 1);
    } else if k == 8 {
      TopsAgree(a, b, 8);
      assert Pow2(0) == 1;
    }
  }

  lemma ByteDecided(radix: bool, a: byte, b: byte) returns (k: nat)
    requires a < b
    ensures k < (if radix then 2 else 8) && DigitOf(radix, a, k) < DigitOf(radix, b, k)
    ensures forall j :: 0 <= j < k ==> DigitOf(radix, a, j) == DigitOf(radix, b, j)
  {
    if radix {
      k := if a / 16 == b / 16 then 1 else 0;
    } else {
      hide BitOf;
      k := SharedBits(a, b, 0);
      SharedBitsAre(a, b, 0);
      assert k < 8;
      if BitOf(b, k) < BitOf(a, k) { BitDecides(b, a, k); }
    }
  }

  lemma {:induction false} FirstDifference(a: seq<byte>, b: seq<byte>) returns (i: nat)
    requires |a| == |b| && Less(a, b)
    ensures i < |a| && a[..i] == b[..i] && a[i] < b[i]
  {
    if a[0] < b[0] {
      i := 0;
    } else {
      var n := FirstDifference(a[1..], b[1..]);
      i := n + 1;
      assert a[..i] == [a[0]] + a[1..][..n] == [b[0]] + b[1..][..n] == b[..i];
    }
  }

  /** Keys that agree up to byte i and, within it, up to digit k diverge at that digit. */
  lemma DivergeAt(radix: bool, a: seq<byte>, b: seq<byte>, i: nat, k: nat)
    requires |a| == |b| && i < |a| && a[..i] == b[..i] && k < (if radix then 2 else 8)
    requires DigitOf(radix, a[i], k) != DigitOf(radix, b[i], k)
    requires forall j :: 0 <= j < k ==> DigitOf(radix, a[i], j) == DigitOf(radix, b[i], j)
    ensures var d := (if radix then 2 * i else 8 * i) + k; var x, y := DigitsOf(radix, a), DigitsOf(radix, b);
            && Diverge(x, y, d) && x[d] == DigitOf(radix, a[i], k) && y[d] == DigitOf(radix, b[i], k)
  {
    hide DigitOf;
    var x, y := DigitsOf(radix, a), DigitsOf(radix, b);
    var d := (if radix then 2 * i else 8 * i) + k;
    forall j | 0 <= j < d ensures x[j] == y[j] {
      var byte := if radix then j / 2 else j / 8;
      if byte < i { assert a[byte] == a[..i][byte] == b[..i][byte] == b[byte]; }
    }
    assert x[..d] == y[..d];
  }

  lemma LessIsLower(radix: bool, a: seq<byte>, b: seq<byte>)
    requires |a| == |b| && Less(a, b)
    ensures Lower(DigitsOf(radix, a), DigitsOf(radix, b))
  {
    hide DigitOf, DigitsOf;
    var i := FirstDifference(a, b);
    var k := ByteDecided(radix, a[i], b[i]);
    DivergeAt(radix, a, b, i, k);
  }

  /** The order of byte strings is the order of their digits. */
  lemma ByteOrder(radix: bool, a: seq<byte>, b: seq<byte>)
    requires |a| == |b|
    ensures Less(a, b) <==> Lower(DigitsOf(radix, a), DigitsOf(radix, b))
  {
    hide Less, Lower, DigitsOf;
    LessTotal(a, b);
    if Less(a, b) { LessIsLower(radix, a, b); }
    if Less(b, a) { LessIsLower(radix, b, a); }
    if Lower(DigitsOf(radix, a), DigitsOf(radix, b)) { LowerAsymmetric(DigitsOf(radix, a), DigitsOf(radix, b)); }
  }

  // ---------------------------------------------------------------- the validator's tests on digits

  lemma {:induction false} PrefixBitsDiverge(left: seq<byte>, right: seq<byte>, i: nat)
    requires |left| == |right| && i <= |left| && left[..i] == right[..i] && PrefixBits(left, right, i) < 8 * |left|
    ensures Diverge(DigitsOf(false, left), DigitsOf(false, right), PrefixBits(left, right, i))
    decreases |left| - i
  {
    hide BitOf, DigitsOf, Diverge, SharedBits;
    if left[i] == right[i] {
      assert left[..i + 1] == left[..i] + [left[i]] == right[..i + 1];
      PrefixBitsDiverge(left, right, i + 1);
    } else {
      SharedBitsAre(left[i], right[i], 0);
      DivergeAt(false, left, right, i, SharedBits(left[i], right[i], 0));
    }
  }

  lemma {:induction false} CommonNibblesAre(left: seq<byte>, right: seq<byte>, offset: nat)
    requires offset <= 64 && forall j :: 0 <= j < offset ==> Nibble(left, j) == Nibble(right, j)
    ensures var n := CommonNibbles(left, right, offset);
            && offset <= n <= 64 && (forall j :: 0 <= j < n ==> Nibble(left, j) == Nibble(right, j))
            && (n < 64 ==> Nibble(left, n) != Nibble(right, n))
    decreases 64 - offset
  {
    hide Nibble;
    if offset < 64 && Nibble(left, offset) == Nibble(right, offset) { CommonNibblesAre(left, right, offset + 1); }
  }

  lemma NibbleIsDigit(key: seq<byte>, i: nat)
    requires i < 2 * |key|
    ensures Nibble(key, i) == Some(DigitsOf(true, key)[i])
  {}

  lemma BitIsDigit(key: seq<byte>, i: nat)
    requires i < 8 * |key|
    ensures KeyBit(key, i) == Some(DigitsOf(false, key)[i])
  {}

  lemma CommonNibblesDiverge(left: seq<byte>, right: seq<byte>)
    requires |left| == |right| == 32 && CommonNibbles(left, right, 0) < 64
    ensures Diverge(DigitsOf(true, left), DigitsOf(true, right), CommonNibbles(left, right, 0))
  {
    hide Nibble, CommonNibbles;
    var n := CommonNibbles(left, right, 0);
    CommonNibblesAre(left, right, 0);
    var x, y := DigitsOf(true, left), DigitsOf(true, right);
    NibbleIsDigit(left, n);
    NibbleIsDigit(right, n);
    forall j | 0 <= j < n ensures x[j] == y[j] {
      NibbleIsDigit(left, j);
      NibbleIsDigit(right, j);
    }
    assert x[..n] == y[..n];
  }

  lemma {:induction false} SelectorsRise(bitmap: nat, index: nat)
    requires index <= 16
    ensures Rising(Selectors(bitmap, index))
    ensures forall i :: 0 <= i < |Selectors(bitmap, index)| ==> index <= Selectors(bitmap, index)[i]
    decreases 16 - index
  {
    hide Selectors;
    SelectorsStep(bitmap, index);
    if index < 16 { SelectorsRise(bitmap, index + 1); }
  }

  lemma SelectorsStep(bitmap: nat, index: nat)
    ensures if index >= 16 then Selectors(bitmap, index) == []
            else Selectors(bitmap, index) ==
                 (if bitmap / Pow2(index) % 2 == 1 then [index] else []) + Selectors(bitmap, index + 1)
  {
    hide Pow2;
  }

  function Shifted(n: nat, k: nat): nat {
    if k == 0 then n else Shifted(n, k - 1) / 2
  }

  lemma {:induction false} ShiftedIs(n: nat, k: nat)
    ensures Shifted(n, k) == n / Pow2(k)
    decreases k
  {
    if k > 0 {
      ShiftedIs(n, k - 1);
      DivTwice(n, Pow2(k - 1));
    }
  }

  lemma {:induction false} SelectorsCount(bitmap: nat, index: nat)
    requires index <= 16 && bitmap < 0x1_0000
    ensures |Selectors(bitmap, index)| == BitCount(Shifted(bitmap, index))
    decreases 16 - index
  {
    hide Pow2;
    ShiftedIs(bitmap, index);
    if index < 16 {
      SelectorsCount(bitmap, index + 1);
      BitCountStep(Shifted(bitmap, index));
    } else {
      SixteenBits();
    }
  }

  lemma SixteenBits()
    ensures Pow2(16) == 0x1_0000
  {
    assert Pow2(4) == 16;
    assert Pow2(8) == 256;
    assert Pow2(12) == 4096;
  }

  lemma BitCountStep(n: nat)
    ensures BitCount(n) == n % 2 + BitCount(n / 2)
  {}

  /** Two keys have the same nibble prefix iff they agree on that many digits. */
  lemma NibblePrefixIs(a: seq<byte>, b: seq<byte>, n: nat)
    requires |a| == |b| == 32 && n < 64
    ensures CanonicalNibbles(a, n) == CanonicalNibbles(b, n) <==> DigitsOf(true, a)[..n] == DigitsOf(true, b)[..n]
  {
    hide CanonicalNibbles;
    var h := n / 2;
    var x, y := DigitsOf(true, a), DigitsOf(true, b);
    CanonicalParts(a, n);
    CanonicalParts(b, n);
    if x[..n] == y[..n] {
      PrefixAt(x, y, n);
      forall j | 0 <= j < h ensures a[j] == b[j] { assert x[2 * j] == y[2 * j] && x[2 * j + 1] == y[2 * j + 1]; }
      assert a[..h] == b[..h];
      if n % 2 == 1 { assert x[2 * h] == y[2 * h]; }
    }
    if a[..h] == b[..h] && (n % 2 == 1 ==> a[h] / 16 == b[h] / 16) {
      forall j | 0 <= j < n ensures x[j] == y[j] {
        if j / 2 < h { assert a[j / 2] == a[..h][j / 2] == b[..h][j / 2]; }
      }
      assert x[..n] == y[..n];
    }
    if CanonicalNibbles(a, n) == CanonicalNibbles(b, n) {
      assert CanonicalNibbles(a, n)[..h] == CanonicalNibbles(b, n)[..h];
    }
  }

  lemma CanonicalParts(key: seq<byte>, n: nat)
    requires |key| == 32 && n < 64
    ensures var prefix, h := CanonicalNibbles(key, n), n / 2;
            && |prefix| == (n + 1) / 2 && prefix[..h] == key[..h]
            && (n % 2 == 1 ==> prefix[h] == 16 * (key[h] / 16) && prefix == key[..h] + [16 * (key[h] / 16)])
            && (n % 2 == 0 ==> prefix == key[..h])
  {
    if n % 2 == 1 { assert key[..n / 2 + 1][..n / 2] == key[..n / 2]; }
  }

  // ---------------------------------------------------------------- maps as key trees

  function KeySize(radix: bool): nat {
    if radix then 32 else 44
  }

  function Width(radix: bool): nat {
    if radix then 64 else 352
  }

  /** Every node came out of the node decoder. */
  ghost predicate NodesValid(ctx: Context) {
    forall id :: id in ctx.nodes ==> ValidNode(ctx.nodes[id])
  }

  /** The keys in the leaves, in the order of the walk. */
  function KeysOf(ctx: Context, t: MapTree): seq<seq<byte>>
    decreases t
  {
    if t.id !in ctx.nodes then []
    else
      match ctx.nodes[t.id]
      case BitLeaf(_, entry) => [SearchKey(entry.key)]
      case RadixPage(_, entries) =>
        seq(|entries|, i requires 0 <= i < |entries| => entries[i].key.digest)
      case _ => KeysOfAll(ctx, t.children)
  }

  function KeysOfAll(ctx: Context, children: seq<MapTree>): seq<seq<byte>>
    decreases children
  {
    if children == [] then [] else KeysOf(ctx, children[0]) + KeysOfAll(ctx, children[1..])
  }

  function View(ctx: Context, radix: bool, t: MapTree): KeyTree
    decreases t
  {
    if t.id !in ctx.nodes then KeyLeaf([])
    else
      match ctx.nodes[t.id]
      case BitLeaf(_, entry) => KeyLeaf(DigitsOf(radix, SearchKey(entry.key)))
      case RadixPage(_, entries) => KeyLeaf(if entries == [] then [] else DigitsOf(radix, entries[0].key.digest))
      case BitBranch(_, bits, _, _, _, _) => KeyBranch(bits, [0, 1], ViewAll(ctx, radix, t.children))
      case RadixBranch(_, nibbles, _, bitmap, _, _) =>
        KeyBranch(nibbles, Selectors(bitmap, 0), ViewAll(ctx, radix, t.children))
  }

  function ViewAll(ctx: Context, radix: bool, children: seq<MapTree>): (views: seq<KeyTree>)
    ensures |views| == |children|
    decreases children
  {
    if children == [] then [] else [View(ctx, radix, children[0])] + ViewAll(ctx, radix, children[1..])
  }

  lemma {:induction false} ViewAllAt(ctx: Context, radix: bool, children: seq<MapTree>, i: nat)
    requires i < |children|
    ensures ViewAll(ctx, radix, children)[i] == View(ctx, radix, children[i])
    decreases |children|
  {
    hide View;
    if i > 0 { ViewAllAt(ctx, radix, children[1..], i - 1); }
  }

  lemma {:induction false} SummariesAt(ctx: Context, children: seq<MapTree>, i: nat)
    requires i < |children| && SummariesOf(ctx, children).Accepted?
    ensures SummaryOf(ctx, children[i]) == Accepted(SummariesOf(ctx, children).value[i])
    decreases |children|
  {
    hide SummaryOf;
    if i > 0 { SummariesAt(ctx, children[1..], i - 1); }
  }

  /** A well-formed subtree of one construction over decoded nodes. */
  ghost predicate Sub(ctx: Context, radix: bool, t: MapTree) {
    NodesValid(ctx) && TreeHolds(ctx, t) && radix == (NodeVersion(ctx.nodes[t.id]) == 2)
  }

  lemma SubChild(ctx: Context, radix: bool, t: MapTree, i: nat)
    requires Sub(ctx, radix, t) && i < |t.children|
    ensures Sub(ctx, radix, t.children[i])
  {
    hide SummaryOf, ValidNode;
    assert TreeHolds(ctx, t.children[i]);
    assert Children(ctx.nodes[t.id])[i] == t.children[i].id;
  }

  lemma SearchKeySize(id: ObjectId)
    requires InScheme(id, PHYSICAL)
    ensures |SearchKey(id)| == 44
  {
    hide LeBytes, BeBytes;
  }

  /** A child's summary and view speak of the same outer keys. */
  ghost predicate EndsMatch(radix: bool, v: KeyTree, summary: Summary) {
    && |summary.minimum| == |summary.maximum| == KeySize(radix)
    && First(v) == DigitsOf(radix, summary.minimum) && Last(v) == DigitsOf(radix, summary.maximum)
  }

  lemma DigitsSize(radix: bool, key: seq<byte>)
    requires |key| == KeySize(radix)
    ensures |DigitsOf(radix, key)| == Width(radix)
  {}

  lemma LeafView(ctx: Context, radix: bool, t: MapTree)
    requires Sub(ctx, radix, t) && (ctx.nodes[t.id].BitLeaf? || ctx.nodes[t.id].RadixPage?)
    ensures OuterOk(View(ctx, radix, t), Width(radix)) && EndsMatch(radix, View(ctx, radix, t), SummaryOf(ctx, t).value)
  {
    hide DigitsOf, SearchKey, EntriesOk;
    var node := ctx.nodes[t.id];
    assert ValidNode(node);
    if node.BitLeaf? {
      SearchKeySize(node.entry.key);
      DigitsSize(radix, SearchKey(node.entry.key));
    } else {
      assert ValidEntry(node.entries[0]);
      DigitsSize(radix, node.entries[0].key.digest);
    }
  }

  /** A binary branch that passes the validator's tests passes them as a key tree. */
  lemma BitBranchView(ctx: Context, node: MapNode, below: seq<Summary>, views: seq<KeyTree>)
    requires node.BitBranch? && Summarise(ctx, node, below).Accepted? && |views| == |below|
    requires forall i :: 0 <= i < |views| ==> OuterOk(views[i], 352) && EndsMatch(false, views[i], below[i])
    ensures var v := KeyBranch(node.prefixBits, [0, 1], views);
            OuterOk(v, 352) && EndsMatch(false, v, Summarise(ctx, node, below).value)
  {
    hide DigitsOf, CanonicalPrefix, PrefixBits, KeyBit, OuterOk;
    var v := KeyBranch(node.prefixBits, [0, 1], views);
    var zero, one, d := below[0], below[1], node.prefixBits;
    KeyBitBound(zero.minimum, d);
    PrefixBitsDiverge(zero.minimum, one.maximum, 0);
    BitIsDigit(zero.minimum, d);
    BitIsDigit(zero.maximum, d);
    BitIsDigit(one.minimum, d);
    BitIsDigit(one.maximum, d);
    DigitsSize(false, zero.minimum);
    DigitsSize(false, zero.maximum);
    DigitsSize(false, one.minimum);
    DigitsSize(false, one.maximum);
    assert Carries(views[0], d, 0) && Carries(views[1], d, 1);
    BranchOuterOk(v, 352);
  }

  lemma KeyBitBound(key: seq<byte>, d: nat)
    requires KeyBit(key, d).Some?
    ensures d < 8 * |key|
  {}

  lemma BranchOuterOk(v: KeyTree, width: nat)
    requires v.KeyBranch? && |v.children| == |v.selectors| >= 2 && Rising(v.selectors) && v.split < width
    requires forall i :: 0 <= i < |v.children| ==> OuterOk(v.children[i], width)
    requires |First(v)| == |Last(v)| == width && Diverge(First(v), Last(v), v.split)
    requires forall i :: 0 <= i < |v.children| ==> Carries(v.children[i], v.split, v.selectors[i])
    ensures OuterOk(v, width)
  {}

  /** A radix branch that passes the validator's tests passes them as a key tree. */
  lemma RadixBranchView(ctx: Context, node: MapNode, below: seq<Summary>, views: seq<KeyTree>)
    requires node.RadixBranch? && ValidNode(node) && Summarise(ctx, node, below).Accepted?
    requires |views| == |below| == |node.children|
    requires forall i :: 0 <= i < |views| ==> OuterOk(views[i], 64) && EndsMatch(true, views[i], below[i])
    ensures var v := KeyBranch(node.prefixNibbles, Selectors(node.childBitmap, 0), views);
            OuterOk(v, 64) && EndsMatch(true, v, Summarise(ctx, node, below).value)
  {
    hide DigitsOf, CanonicalNibbles, CommonNibbles, Nibble, OuterOk, Selectors, BitCount;
    var selectors, d := Selectors(node.childBitmap, 0), node.prefixNibbles;
    var v := KeyBranch(d, selectors, views);
    SelectorsRise(node.childBitmap, 0);
    SelectorsCount(node.childBitmap, 0);
    assert |selectors| == |below|;
    CommonNibblesDiverge(below[0].minimum, below[|below| - 1].maximum);
    forall i | 0 <= i < |views| ensures Carries(views[i], d, selectors[i]) {
      DigitsSize(true, below[i].minimum);
      DigitsSize(true, below[i].maximum);
      NibbleIsDigit(below[i].minimum, d);
      NibbleIsDigit(below[i].maximum, d);
    }
    DigitsSize(true, below[0].minimum);
    DigitsSize(true, below[|below| - 1].maximum);
    BranchOuterOk(v, 64);
  }

  /** The tests of the validator are exactly tests on the outer keys of the key tree. */
  lemma {:induction false} MapView(ctx: Context, radix: bool, t: MapTree)
    requires Sub(ctx, radix, t)
    ensures OuterOk(View(ctx, radix, t), Width(radix)) && EndsMatch(radix, View(ctx, radix, t), SummaryOf(ctx, t).value)
    decreases t
  {
    hide Summarise, OuterOk, EndsMatch, ValidNode, SameConstruction, Selectors, DigitsOf;
    var node := ctx.nodes[t.id];
    if node.BitLeaf? || node.RadixPage? {
      LeafView(ctx, radix, t);
    } else {
      var below, views := SummariesOf(ctx, t.children).value, ViewAll(ctx, radix, t.children);
      forall i | 0 <= i < |views| ensures OuterOk(views[i], Width(radix)) && EndsMatch(radix, views[i], below[i]) {
        SubChild(ctx, radix, t, i);
        MapView(ctx, radix, t.children[i]);
        ViewAllAt(ctx, radix, t.children, i);
        SummariesAt(ctx, t.children, i);
      }
      assert |Children(node)| == |Ids(t.children)|;
      if node.BitBranch? { BitBranchView(ctx, node, below, views); } else { RadixBranchView(ctx, node, below, views); }
    }
  }

  // ---------------------------------------------------------------- keys and leaves

  ghost predicate SameKeys(radix: bool, leaves: seq<Digits>, keys: seq<seq<byte>>) {
    && |leaves| == |keys|
    && forall i :: 0 <= i < |keys| ==> |keys[i]| == KeySize(radix) && leaves[i] == DigitsOf(radix, keys[i])
  }

  lemma {:induction false} KeysAreLeaves(ctx: Context, radix: bool, t: MapTree)
    requires Sub(ctx, radix, t)
    ensures SameKeys(radix, Leaves(View(ctx, radix, t)), KeysOf(ctx, t))
    decreases t
  {
    hide ValidNode, SameConstruction, Selectors, DigitsOf, SameKeys, SearchKey, SummaryOf;
    var node := ctx.nodes[t.id];
    if node.BitLeaf? || node.RadixPage? {
      LeafKeys(ctx, radix, t);
    } else {
      forall i | 0 <= i < |t.children| ensures Sub(ctx, radix, t.children[i]) { SubChild(ctx, radix, t, i); }
      KeysOfAllAreLeaves(ctx, radix, t.children);
    }
  }

  lemma LeafKeys(ctx: Context, radix: bool, t: MapTree)
    requires Sub(ctx, radix, t) && (ctx.nodes[t.id].BitLeaf? || ctx.nodes[t.id].RadixPage?)
    ensures SameKeys(radix, Leaves(View(ctx, radix, t)), KeysOf(ctx, t))
  {
    hide DigitsOf, SearchKey, SummaryOf;
    var node := ctx.nodes[t.id];
    assert ValidNode(node);
    if node.BitLeaf? { SearchKeySize(node.entry.key); } else { assert ValidEntry(node.entries[0]); }
  }

  lemma {:induction false} KeysOfAllAreLeaves(ctx: Context, radix: bool, children: seq<MapTree>)
    requires forall i :: 0 <= i < |children| ==> Sub(ctx, radix, children[i])
    ensures SameKeys(radix, LeavesAll(ViewAll(ctx, radix, children)), KeysOfAll(ctx, children))
    decreases children
  {
    hide Sub, View, KeysOf, Leaves, DigitsOf;
    if children != [] {
      KeysAreLeaves(ctx, radix, children[0]);
      KeysOfAllAreLeaves(ctx, radix, children[1..]);
      assert ViewAll(ctx, radix, children)[1..] == ViewAll(ctx, radix, children[1..]);
    }
  }

  ghost predicate Ascending(keys: seq<seq<byte>>) {
    forall i, j :: 0 <= i < j < |keys| ==> Less(keys[i], keys[j])
  }

  lemma SameOrder(radix: bool, leaves: seq<Digits>, keys: seq<seq<byte>>)
    requires SameKeys(radix, leaves, keys)
    ensures Ascending(keys) <==> Ascends(leaves)
  {
    hide Less, Lower, DigitsOf;
    forall i, j | 0 <= i < j < |keys| ensures Less(keys[i], keys[j]) <==> Lower(leaves[i], leaves[j]) {
      ByteOrder(radix, keys[i], keys[j]);
    }
  }

  // ---------------------------------------------------------------- the exact condition

  predicate IsBranch(node: MapNode) {
    node.BitBranch? || node.RadixBranch?
  }

  function SplitOf(node: MapNode): nat
    requires IsBranch(node)
  {
    if node.BitBranch? then node.prefixBits else node.prefixNibbles
  }

  /** Child nodes split later than their parent, and children of a radix branch start with the branch's own prefix. */
  ghost predicate NestedNodes(ctx: Context, t: MapTree)
    decreases t
  {
    t.id in ctx.nodes && IsBranch(ctx.nodes[t.id]) ==> forall i :: 0 <= i < |t.children| ==>
      && LaterSplit(ctx, ctx.nodes[t.id], t.children[i]) && StartsWith(ctx, ctx.nodes[t.id], t.children[i])
      && NestedNodes(ctx, t.children[i])
  }

  ghost predicate LaterSplit(ctx: Context, node: MapNode, child: MapTree)
    requires IsBranch(node)
  {
    child.id in ctx.nodes && IsBranch(ctx.nodes[child.id]) ==> SplitOf(ctx.nodes[child.id]) > SplitOf(node)
  }

  ghost predicate StartsWith(ctx: Context, node: MapNode, child: MapTree) {
    node.RadixBranch? && SummaryOf(ctx, child).Accepted? ==>
      CanonicalNibbles(SummaryOf(ctx, child).value.minimum, node.prefixNibbles) == node.prefix
  }

  lemma {:induction false} NestedIsNested(ctx: Context, radix: bool, t: MapTree)
    requires Sub(ctx, radix, t)
    ensures NestedNodes(ctx, t) <==> Nested(View(ctx, radix, t))
    decreases t
  {
    hide ValidNode, SameConstruction, Selectors, DigitsOf, LaterSplit, StartsWith, NestedUnder, SummaryOf;
    if IsBranch(ctx.nodes[t.id]) {
      var v := View(ctx, radix, t);
      assert v.KeyBranch? && v.children == ViewAll(ctx, radix, t.children);
      forall i | 0 <= i < |t.children|
        ensures v.children[i] == View(ctx, radix, t.children[i])
        ensures NestedNodes(ctx, t.children[i]) <==> Nested(v.children[i])
        ensures LaterSplit(ctx, ctx.nodes[t.id], t.children[i]) && StartsWith(ctx, ctx.nodes[t.id], t.children[i]) <==>
                NestedUnder(v, v.children[i])
      {
        SubChild(ctx, radix, t, i);
        ViewAllAt(ctx, radix, t.children, i);
        NestedIsNested(ctx, radix, t.children[i]);
        ChildNestedIs(ctx, radix, t, i);
      }
    }
  }

  lemma ChildNestedIs(ctx: Context, radix: bool, t: MapTree, i: nat)
    requires Sub(ctx, radix, t) && IsBranch(ctx.nodes[t.id]) && i < |t.children|
    ensures LaterSplit(ctx, ctx.nodes[t.id], t.children[i]) && StartsWith(ctx, ctx.nodes[t.id], t.children[i]) <==>
            NestedUnder(View(ctx, radix, t), View(ctx, radix, t.children[i]))
  {
    hide ValidNode, SameConstruction, Selectors, DigitsOf, SummaryOf, OuterOk, CanonicalNibbles, TreeHolds, First, Last;
    SubStored(ctx, radix, t);
    SubChild(ctx, radix, t, i);
    SubStored(ctx, radix, t.children[i]);
    var node, child := ctx.nodes[t.id], t.children[i];
    var v, c := View(ctx, radix, t), View(ctx, radix, child);
    MapView(ctx, radix, t);
    MapView(ctx, radix, child);
    var mine, least := SummaryOf(ctx, t).value.minimum, SummaryOf(ctx, child).value.minimum;
    DigitsSize(radix, mine);
    DigitsSize(radix, least);
    if radix {
      RadixPrefix(ctx, t);
      NibblePrefixIs(least, mine, node.prefixNibbles);
    } else {
      BitSplit(ctx, t);
      ViewAllAt(ctx, radix, t.children, i);
      if LaterSplit(ctx, node, child) { BinaryCarries(v, 352, i); }
    }
  }

  lemma SubStored(ctx: Context, radix: bool, t: MapTree)
    requires Sub(ctx, radix, t)
    ensures t.id in ctx.nodes && SummaryOf(ctx, t).Accepted? && radix == (NodeVersion(ctx.nodes[t.id]) == 2)
  {}

  lemma RadixPrefix(ctx: Context, t: MapTree)
    requires Sub(ctx, true, t) && IsBranch(ctx.nodes[t.id])
    ensures ctx.nodes[t.id].RadixBranch? && ctx.nodes[t.id].prefixNibbles < 64
    ensures CanonicalNibbles(SummaryOf(ctx, t).value.minimum, ctx.nodes[t.id].prefixNibbles) == ctx.nodes[t.id].prefix
  {
    hide CanonicalNibbles, CommonNibbles, SelectorsOk, SummariesOf, BitCount;
    assert ValidNode(ctx.nodes[t.id]);
  }

  lemma BitSplit(ctx: Context, t: MapTree)
    requires Sub(ctx, false, t) && IsBranch(ctx.nodes[t.id])
    ensures ctx.nodes[t.id].BitBranch? && ctx.nodes[t.id].prefixBits < 352
  {
    hide SummaryOf;
    assert ValidNode(ctx.nodes[t.id]);
  }

  /** With two children the parent's prefix is carried by itself once the child splits later. */
  lemma BinaryCarries(v: KeyTree, width: nat, i: nat)
    requires v.KeyBranch? && |v.selectors| == 2 && OuterOk(v, width) && i < |v.children|
    requires v.children[i].KeyBranch? ==> v.children[i].split > v.split
    ensures First(v.children[i])[..v.split] == First(v)[..v.split]
  {
    hide Rising, Carries;
    var child, d := v.children[i], v.split;
    assert OuterOk(child, width);
    if i == 1 {
      assert Last(v) == Last(child);
      if child.KeyBranch? {
        assert First(child)[..child.split][..d] == First(child)[..d];
        assert Last(child)[..child.split][..d] == Last(child)[..d];
      }
    }
  }

  /**
   * The keys of an accepted subtree ascend iff every child branch splits strictly later than its parent and every
   * child of a radix branch starts with the branch's prefix.
   */
  lemma KeysAscendIffNested(ctx: Context, t: MapTree)
    requires NodesValid(ctx) && TreeHolds(ctx, t)
    ensures Ascending(KeysOf(ctx, t)) <==> NestedNodes(ctx, t)
  {
    hide KeysOf, NestedNodes, Ascending, SameKeys, OuterOk, Ascends, Nested, EndsMatch, ValidNode;
    var radix := NodeVersion(ctx.nodes[t.id]) == 2;
    MapView(ctx, radix, t);
    KeysAreLeaves(ctx, radix, t);
    SameOrder(radix, Leaves(View(ctx, radix, t)), KeysOf(ctx, t));
    OrderedIffNested(View(ctx, radix, t), Width(radix));
    NestedIsNested(ctx, radix, t);
  }

  // ---------------------------------------------------------------- an accepted map out of order

  lemma TwoSelectors()
    ensures Selectors(3, 0) == [0, 1]
  {
    hide Selectors;
    SelectorsCount(3, 0);
    SelectorsStep(3, 0);
    SelectorsStep(3, 1);
  }

  lemma PageHolds(ctx: Context, id: ObjectId, e: MapEntry)
    requires id in ctx.nodes && ctx.nodes[id] == RadixPage(ctx.domain, [e]) && ctx.valueOk(e.key, e.value)
    ensures TreeHolds(ctx, MapTree(id, [])) && KeysOf(ctx, MapTree(id, [])) == [e.key.digest]
    ensures SummaryOf(ctx, MapTree(id, [])) == Accepted(Summary(1, e.key.digest, e.key.digest))
  {
    var t := MapTree(id, []);
    assert SummariesOf(ctx, t.children) == Accepted([]);
  }

  /** A branch over two subtrees that pass the tests on their outer keys. */
  lemma PairHolds(ctx: Context, id: ObjectId, left: MapTree, right: MapTree)
    requires TreeHolds(ctx, left) && TreeHolds(ctx, right) && id in ctx.nodes && ctx.nodes[id].RadixBranch?
    requires NodeVersion(ctx.nodes[left.id]) == NodeVersion(ctx.nodes[right.id]) == 2
    requires var node := ctx.nodes[id]; var l, r := SummaryOf(ctx, left).value, SummaryOf(ctx, right).value;
             && node.domain == ctx.domain && node.childBitmap == 3 && node.children == [left.id, right.id]
             && node.subtreeEntries == l.count + r.count && CommonNibbles(l.minimum, r.maximum, 0) == node.prefixNibbles
             && CanonicalNibbles(l.minimum, node.prefixNibbles) == node.prefix
             && Nibble(l.minimum, node.prefixNibbles) == Some(0) == Nibble(l.maximum, node.prefixNibbles)
             && Nibble(r.minimum, node.prefixNibbles) == Some(1) == Nibble(r.maximum, node.prefixNibbles)
    ensures var t := MapTree(id, [left, right]); var l, r := SummaryOf(ctx, left).value, SummaryOf(ctx, right).value;
            && TreeHolds(ctx, t) && KeysOf(ctx, t) == KeysOf(ctx, left) + KeysOf(ctx, right)
            && SummaryOf(ctx, t) == Accepted(Summary(l.count + r.count, l.minimum, r.maximum))
  {
    hide CommonNibbles, CanonicalNibbles, Nibble, Selectors, Summarise, SummariesOf, KeysOfAll;
    var t := MapTree(id, [left, right]);
    var l, r := SummaryOf(ctx, left).value, SummaryOf(ctx, right).value;
    PairLists(ctx, left, right);
    PairSummary(ctx, ctx.nodes[id], l, r);
    assert Ids(t.children) == [left.id, right.id];
  }

  lemma PairLists(ctx: Context, left: MapTree, right: MapTree)
    ensures KeysOfAll(ctx, [left, right]) == KeysOf(ctx, left) + KeysOf(ctx, right)
    ensures VisitsAll([left, right]) == Visits(left) + Visits(right)
    ensures SummaryOf(ctx, left).Accepted? && SummaryOf(ctx, right).Accepted? ==>
              SummariesOf(ctx, [left, right]) == Accepted([SummaryOf(ctx, left).value, SummaryOf(ctx, right).value])
  {
    hide KeysOf, Visits, SummaryOf;
    assert [left, right][1..] == [right] && [right][1..] == [];
    assert KeysOfAll(ctx, [right]) == KeysOf(ctx, right) + KeysOfAll(ctx, []) && KeysOfAll(ctx, []) == [];
    assert VisitsAll([right]) == Visits(right) + VisitsAll([]) && VisitsAll([]) == [];
    if SummaryOf(ctx, left).Accepted? && SummaryOf(ctx, right).Accepted? {
      var l, r := SummaryOf(ctx, left).value, SummaryOf(ctx, right).value;
      SummariesCons(ctx, right, []);
      SummariesCons(ctx, left, [right]);
      assert [right] + [] == [right] && [left] + [right] == [left, right] && [r] + [] == [r] && [l] + [r] == [l, r];
    }
  }

  lemma SummariesCons(ctx: Context, first: MapTree, rest: seq<MapTree>)
    requires SummaryOf(ctx, first).Accepted? && SummariesOf(ctx, rest).Accepted?
    ensures SummariesOf(ctx, [first] + rest) == Accepted([SummaryOf(ctx, first).value] + SummariesOf(ctx, rest).value)
  {
    hide SummaryOf;
    var all := [first] + rest;
    assert all[0] == first && all[1..] == rest;
  }

  lemma PairSummary(ctx: Context, node: MapNode, l: Summary, r: Summary)
    requires node.RadixBranch? && node.childBitmap == 3 && node.subtreeEntries == l.count + r.count
    requires CommonNibbles(l.minimum, r.maximum, 0) == node.prefixNibbles
    requires CanonicalNibbles(l.minimum, node.prefixNibbles) == node.prefix
    requires Nibble(l.minimum, node.prefixNibbles) == Some(0) == Nibble(l.maximum, node.prefixNibbles)
    requires Nibble(r.minimum, node.prefixNibbles) == Some(1) == Nibble(r.maximum, node.prefixNibbles)
    ensures Summarise(ctx, node, [l, r]) == Accepted(Summary(l.count + r.count, l.minimum, r.maximum))
  {
    hide CommonNibbles, CanonicalNibbles, Nibble, Selectors;
    TotalOfTwo([l, r]);
    TwoSelectors();
  }

  function ExampleNodes(domain: nat, a: MapEntry, b: MapEntry, c: MapEntry, ids: seq<ObjectId>): map<ObjectId, MapNode>
    requires |ids| == 5
  {
    map[ids[0] := RadixBranch(domain, 1, [0], 3, [ids[1], ids[4]], 3),
        ids[1] := RadixBranch(domain, 0, [], 3, [ids[2], ids[3]], 2),
        ids[2] := RadixPage(domain, [a]),
        ids[3] := RadixPage(domain, [b]),
        ids[4] := RadixPage(domain, [c])]
  }

  ghost predicate Distinct(ids: seq<ObjectId>) {
    forall i, j :: 0 <= i < j < |ids| ==> ids[i] != ids[j]
  }

  /**
   * A map the validator accepts although its keys are not in order: the inner branch splits at nibble 0 and its
   * parent at nibble 1. It takes any three entries whose keys start with 0x00, 0x10 and 0x01 and any five identities.
   */
  lemma OutOfOrderMap(domain: nat, valueOk: (ObjectId, seq<byte>) -> bool, a: MapEntry, b: MapEntry, c: MapEntry,
                      ids: seq<ObjectId>)
    returns (ctx: Context, t: MapTree)
    requires domain <= 2 && ValidEntry(a) && ValidEntry(b) && ValidEntry(c)
    requires a.key.digest[0] == 0x00 && b.key.digest[0] == 0x10 && c.key.digest[0] == 0x01
    requires valueOk(a.key, a.value) && valueOk(b.key, b.value) && valueOk(c.key, c.value)
    requires |ids| == 5 && Distinct(ids) && forall i :: 0 <= i < 5 ==> InScheme(ids[i], PHYSICAL)
    ensures ctx == Context(ExampleNodes(domain, a, b, c, ids), domain, valueOk) && NodesValid(ctx)
    ensures MapOk(ctx, Some(ids[0]), 3) && IsMap(ctx, ids[0], 3, t)
    ensures KeysOf(ctx, t) == [a.key.digest, b.key.digest, c.key.digest] && !Ascending(KeysOf(ctx, t))
  {
    hide Walk, TreeHolds, SummaryOf, KeysOf, Fresh, Visits, CommonNibbles, CanonicalNibbles, InScheme;
    ctx := Context(ExampleNodes(domain, a, b, c, ids), domain, valueOk);
    ExampleValid(ctx, domain, a, b, c, ids);
    PageHolds(ctx, ids[2], a);
    PageHolds(ctx, ids[3], b);
    PageHolds(ctx, ids[4], c);
    var left, right := MapTree(ids[2], []), MapTree(ids[3], []);
    NibblesOf(a.key, b.key, c.key);
    PairHolds(ctx, ids[1], left, right);
    var inner, last := MapTree(ids[1], [left, right]), MapTree(ids[4], []);
    PairHolds(ctx, ids[0], inner, last);
    t := MapTree(ids[0], [inner, last]);
    assert KeysOf(ctx, t) == [a.key.digest, b.key.digest, c.key.digest];
    SummaryCounts(ctx, t);
    ExampleVisits(ctx, ids, left, right, inner, last);
    assert IsMap(ctx, ids[0], 3, t);
    AcceptedMapsAreTrees(ctx, ids[0], 3);
    assert !Less(KeysOf(ctx, t)[1], KeysOf(ctx, t)[2]);
  }

  lemma NibblesOf(a: ObjectId, b: ObjectId, c: ObjectId)
    requires InScheme(a, PHYSICAL) && InScheme(b, PHYSICAL) && InScheme(c, PHYSICAL)
    requires a.digest[0] == 0x00 && b.digest[0] == 0x10 && c.digest[0] == 0x01
    ensures CommonNibbles(a.digest, b.digest, 0) == 0 && CanonicalNibbles(a.digest, 0) == []
    ensures CommonNibbles(a.digest, c.digest, 0) == 1 && CanonicalNibbles(a.digest, 1) == [0]
    ensures Nibble(a.digest, 0) == Some(0) && Nibble(b.digest, 0) == Some(1)
    ensures Nibble(a.digest, 1) == Nibble(b.digest, 1) == Some(0) && Nibble(c.digest, 1) == Some(1)
  {}

  lemma ExampleValid(ctx: Context, domain: nat, a: MapEntry, b: MapEntry, c: MapEntry, ids: seq<ObjectId>)
    requires |ids| == 5 && Distinct(ids) && domain <= 2 && ValidEntry(a) && ValidEntry(b) && ValidEntry(c)
    requires ctx.nodes == ExampleNodes(domain, a, b, c, ids)
    requires forall i :: 0 <= i < 5 ==> InScheme(ids[i], PHYSICAL)
    ensures NodesValid(ctx)
    ensures ctx.nodes[ids[0]] == RadixBranch(domain, 1, [0], 3, [ids[1], ids[4]], 3)
    ensures ctx.nodes[ids[1]] == RadixBranch(domain, 0, [], 3, [ids[2], ids[3]], 2)
    ensures ctx.nodes[ids[2]] == RadixPage(domain, [a]) && ctx.nodes[ids[3]] == RadixPage(domain, [b])
    ensures ctx.nodes[ids[4]] == RadixPage(domain, [c])
  {
    assert BitCount(3) == 2;
  }

  lemma ExampleVisits(ctx: Context, ids: seq<ObjectId>, left: MapTree, right: MapTree, inner: MapTree, last: MapTree)
    requires |ids| == 5 && Distinct(ids)
    requires left == MapTree(ids[2], []) && right == MapTree(ids[3], []) && last == MapTree(ids[4], [])
    requires inner == MapTree(ids[1], [left, right])
    ensures Fresh({}, Visits(MapTree(ids[0], [inner, last])))
  {
    PairLists(ctx, left, right);
    PairLists(ctx, inner, last);
    assert Visits(left) == [ids[2]] && Visits(right) == [ids[3]] && Visits(last) == [ids[4]];
    assert Visits(MapTree(ids[0], [inner, last])) == ids;
    DistinctIsFresh({}, ids);
  }

  lemma {:induction false} DistinctIsFresh(marks: set<ObjectId>, ids: seq<ObjectId>)
    requires Distinct(ids) && forall i :: 0 <= i < |ids| ==> ids[i] !in marks
    ensures Fresh(marks, ids)
    decreases |ids|
  {
    if ids != [] { DistinctIsFresh(marks + {ids[0]}, ids[1..]); }
  }
}
