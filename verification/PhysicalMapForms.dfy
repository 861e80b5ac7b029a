/**
 * What the map validator accepts, said about keys: a branch splits its keys at the first digit in which its first and
 * last key differ, carries their common digits as its prefix, and counts the keys below it. No summaries appear.
 */
module PhysicalMapForms {
  import opened Bytes
  import opened Outcomes
  import opened Objects
  import opened Bits
  import opened Marks
  import opened PhysicalFields
  import opened PhysicalMapNodes
  import opened PhysicalMap
  import opened KeyTrees
  import opened PhysicalMapOrder

  // ---------------------------------------------------------------- prefixes

  function Unit(radix: bool): nat {
    if radix then 2 else 8
  }

  /** The first n digits of a key in as few bytes as they need, padded with zeros. */
  ghost predicate IsPrefix(radix: bool, prefix: seq<byte>, key: seq<byte>, n: nat) {
    var u := Unit(radix); var x, y := DigitsOf(radix, prefix), DigitsOf(radix, key);
    && n <= |x| < n + u && n <= |y|
    && (forall j :: 0 <= j < n ==> x[j] == y[j]) && (forall j :: n <= j < |x| ==> x[j] == 0)
  }

  lemma DigitAt(radix: bool, key: seq<byte>, i: nat, k: nat)
    requires i < |key| && k < Unit(radix)
    ensures |DigitsOf(radix, key)| == Unit(radix) * |key|
    ensures Unit(radix) * i + k < |DigitsOf(radix, key)|
    ensures DigitsOf(radix, key)[Unit(radix) * i + k] == DigitOf(radix, key[i], k)
  {
    hide DigitOf;
    if radix {
      assert (2 * i + k) / 2 == i && (2 * i + k) % 2 == k;
    } else {
      assert (8 * i + k) / 8 == i && (8 * i + k) % 8 == k;
    }
  }

  /** A byte is determined by its digits. */
  lemma SameByte(radix: bool, a: byte, b: byte)
    requires forall k :: 0 <= k < Unit(radix) ==> DigitOf(radix, a, k) == DigitOf(radix, b, k)
    ensures a == b
  {
    if radix {
      assert DigitOf(true, a, 0) == DigitOf(true, b, 0) && DigitOf(true, a, 1) == DigitOf(true, b, 1);
    } else {
      forall j | 0 <= j < 8 ensures BitOf(a, j) == BitOf(b, j) { assert DigitOf(false, a, j) == DigitOf(false, b, j); }
      TopsAgree(a, b, 8);
    }
  }

  lemma PrefixUnique(radix: bool, p: seq<byte>, q: seq<byte>, key: seq<byte>, n: nat)
    requires IsPrefix(radix, p, key, n) && IsPrefix(radix, q, key, n)
    ensures p == q
  {
    var x, y := DigitsOf(radix, p), DigitsOf(radix, q);
    forall j | 0 <= j < |x| ensures x[j] == y[j] {}
    forall i | 0 <= i < |p| ensures p[i] == q[i] {
      forall k | 0 <= k < Unit(radix) ensures DigitOf(radix, p[i], k) == DigitOf(radix, q[i], k) {
        DigitAt(radix, p, i, k);
        DigitAt(radix, q, i, k);
      }
      SameByte(radix, p[i], q[i]);
    }
  }

  lemma DigitOfKey(radix: bool, key: seq<byte>, j: nat)
    requires j < |DigitsOf(radix, key)|
    ensures |DigitsOf(radix, key)| == Unit(radix) * |key| && j / Unit(radix) < |key|
    ensures DigitsOf(radix, key)[j] == DigitOf(radix, key[j / Unit(radix)], j % Unit(radix))
  {
    hide DigitOf;
  }

  function Doubled(q: nat, m: nat): nat {
    if m == 0 then q else 2 * Doubled(q, m - 1)
  }

  lemma {:induction false} DoubledIs(q: nat, m: nat)
    ensures Doubled(q, m) == q * Pow2(m)
  {
    if m > 0 {
      DoubledIs(q, m - 1);
      assert q * (2 * Pow2(m - 1)) == 2 * (q * Pow2(m - 1));
    }
  }

  lemma ClearedIs(b: nat, m: nat)
    ensures b - b % Pow2(m) == Doubled(Shifted(b, m), m)
  {
    hide Pow2;
    ShiftedIs(b, m);
    DoubledIs(b / Pow2(m), m);
  }

  lemma {:induction false} ShiftDoubled(q: nat, m: nat, k: nat)
    ensures Shifted(Doubled(q, m), k) == if k >= m then Shifted(q, k - m) else Doubled(q, m - k)
    decreases k
  {
    if k > 0 { ShiftDoubled(q, m, k - 1); }
  }

  lemma {:induction false} ShiftTwice(b: nat, m: nat, k: nat)
    requires m <= k
    ensures Shifted(Shifted(b, m), k - m) == Shifted(b, k)
    decreases k
  {
    if m < k { ShiftTwice(b, m, k - 1); }
  }

  lemma BitIsShift(b: byte, j: nat)
    requires j < 8
    ensures BitOf(b, j) == Shifted(b, 7 - j) % 2
  {
    hide Pow2;
    ShiftedIs(b, 7 - j);
  }

  lemma ClearedShift(b: nat, m: nat, k: nat)
    ensures Shifted(Doubled(Shifted(b, m), m), k) % 2 == if k >= m then Shifted(b, k) % 2 else 0
  {
    var q := Shifted(b, m);
    ShiftDoubled(q, m, k);
    if k >= m { ShiftTwice(b, m, k); } else { assert Doubled(q, m - k) == 2 * Doubled(q, m - k - 1); }
  }

  /** Clearing the low bits of a byte keeps its leading bits and zeroes the others. */
  lemma ClearedBits(b: byte, r: nat, j: nat)
    requires 0 < r < 8 && j < 8
    ensures var c := b - b % Pow2(8 - r);
            0 <= c < 256 && BitOf(c, j) == if j < r then BitOf(b, j) else 0
  {
    hide Pow2, BitOf, Shifted, Doubled;
    LowBitsCleared(b, Pow2(8 - r));
    ClearedIs(b, 8 - r);
    BitIsShift(b - b % Pow2(8 - r), j);
    BitIsShift(b, j);
    ClearedShift(b, 8 - r, 7 - j);
  }

  lemma CanonicalBits(key: seq<byte>, bits: nat)
    requires bits <= 8 * |key|
    ensures IsPrefix(false, CanonicalPrefix(key, bits), key, bits)
  {
    hide DigitsOf, BitOf, Pow2;
    var prefix, n := CanonicalPrefix(key, bits), (bits + 7) / 8;
    var x, y := DigitsOf(false, prefix), DigitsOf(false, key);
    assert |prefix| == n && |x| == 8 * n && |y| == 8 * |key| by { DigitCount(false, prefix); DigitCount(false, key); }
    forall j | 0 <= j < |x| ensures x[j] == if j < bits then y[j] else 0 {
      DigitOfKey(false, prefix, j);
      DigitOfKey(false, key, j);
      CanonicalBit(key, bits, j);
    }
  }

  lemma CanonicalBit(key: seq<byte>, bits: nat, j: nat)
    requires bits <= 8 * |key| && j < 8 * ((bits + 7) / 8)
    ensures |CanonicalPrefix(key, bits)| == (bits + 7) / 8
    ensures BitOf(CanonicalPrefix(key, bits)[j / 8], j % 8) == if j < bits then BitOf(key[j / 8], j % 8) else 0
  {
    hide BitOf, Pow2;
    var n, r := (bits + 7) / 8, bits % 8;
    if r > 0 && j / 8 == n - 1 { ClearedBits(key[n - 1], r, j % 8); }
  }

  lemma DigitCount(radix: bool, key: seq<byte>)
    ensures |DigitsOf(radix, key)| == Unit(radix) * |key|
  {}

  lemma CanonicalDigits(key: seq<byte>, n: nat)
    requires n <= 2 * |key|
    ensures IsPrefix(true, CanonicalNibbles(key, n), key, n)
  {
    hide DigitsOf;
    var prefix, h := CanonicalNibbles(key, n), (n + 1) / 2;
    var x, y := DigitsOf(true, prefix), DigitsOf(true, key);
    assert |prefix| == h && |x| == 2 * h && |y| == 2 * |key| by { DigitCount(true, prefix); DigitCount(true, key); }
    forall j | 0 <= j < |x| ensures x[j] == if j < n then y[j] else 0 {
      DigitOfKey(true, prefix, j);
      if j < 2 * |key| { DigitOfKey(true, key, j); }
    }
  }

  /** The stored prefix is the canonical one exactly when it holds the key's first digits and zeros. */
  lemma PrefixIs(key: seq<byte>, prefix: seq<byte>, n: nat)
    ensures n <= 8 * |key| ==> (CanonicalPrefix(key, n) == prefix <==> IsPrefix(false, prefix, key, n))
    ensures n <= 2 * |key| ==> (CanonicalNibbles(key, n) == prefix <==> IsPrefix(true, prefix, key, n))
  {
    hide CanonicalPrefix, CanonicalNibbles, IsPrefix;
    if n <= 8 * |key| {
      CanonicalBits(key, n);
      if IsPrefix(false, prefix, key, n) { PrefixUnique(false, prefix, CanonicalPrefix(key, n), key, n); }
    }
    if n <= 2 * |key| {
      CanonicalDigits(key, n);
      if IsPrefix(true, prefix, key, n) { PrefixUnique(true, prefix, CanonicalNibbles(key, n), key, n); }
    }
  }

  // ---------------------------------------------------------------- where keys part

  lemma {:induction false} SameBits(left: seq<byte>, right: seq<byte>, i: nat)
    requires |left| == |right| && i <= |left| && left[..i] == right[..i]
    ensures PrefixBits(left, right, i) < 8 * |left| <==> left != right
    decreases |left| - i
  {
    if i < |left| {
      if left[i] == right[i] {
        assert left[..i + 1] == left[..i] + [left[i]] == right[..i + 1];
        SameBits(left, right, i + 1);
      } else {
        SharedBitsAre(left[i], right[i], 0);
      }
    } else {
      assert left == left[..i] && right == right[..i];
    }
  }

  lemma DivergeDiffer(radix: bool, a: seq<byte>, b: seq<byte>, d: nat)
    requires Diverge(DigitsOf(radix, a), DigitsOf(radix, b), d)
    ensures a != b
  {}

  lemma PrefixBitsAre(left: seq<byte>, right: seq<byte>, d: nat)
    requires |left| == |right| && d < 8 * |left|
    ensures PrefixBits(left, right, 0) == d <==> Diverge(DigitsOf(false, left), DigitsOf(false, right), d)
  {
    hide PrefixBits, DigitsOf, Diverge;
    SameBits(left, right, 0);
    if PrefixBits(left, right, 0) < 8 * |left| { PrefixBitsDiverge(left, right, 0); }
    if Diverge(DigitsOf(false, left), DigitsOf(false, right), d) {
      DivergeDiffer(false, left, right, d);
      DivergeUnique(DigitsOf(false, left), DigitsOf(false, right), d, PrefixBits(left, right, 0));
    }
  }

  lemma CommonNibblesOf(left: seq<byte>, right: seq<byte>, d: nat)
    requires |left| == |right| == 32 && d < 64
    ensures CommonNibbles(left, right, 0) == d <==> Diverge(DigitsOf(true, left), DigitsOf(true, right), d)
  {
    hide CommonNibbles, DigitsOf;
    CommonNibblesAre(left, right, 0);
    if CommonNibbles(left, right, 0) < 64 { CommonNibblesDiverge(left, right); }
    if Diverge(DigitsOf(true, left), DigitsOf(true, right), d) {
      NibbleIsDigit(left, d);
      NibbleIsDigit(right, d);
      if CommonNibbles(left, right, 0) < 64 {
        DivergeUnique(DigitsOf(true, left), DigitsOf(true, right), d, CommonNibbles(left, right, 0));
      }
    }
  }

  // ---------------------------------------------------------------- branches over groups of keys

  type Keys = seq<seq<byte>>

  function Join(groups: seq<Keys>): Keys {
    if groups == [] then [] else groups[0] + Join(groups[1..])
  }

  ghost predicate Sized(radix: bool, keys: Keys) {
    keys != [] && forall i :: 0 <= i < |keys| ==> |keys[i]| == KeySize(radix)
  }

  function LastOf(keys: Keys): seq<byte>
    requires keys != []
  {
    keys[|keys| - 1]
  }

  /** A summary speaks for a list of keys: how many, the first and the last. */
  ghost predicate Speaks(radix: bool, s: Summary, keys: Keys) {
    Sized(radix, keys) && s == Summary(|keys|, keys[0], LastOf(keys))
  }

  ghost predicate AllSized(radix: bool, groups: seq<Keys>) {
    groups != [] && forall i :: 0 <= i < |groups| ==> Sized(radix, groups[i])
  }

  /** A branch over groups of keys, one group for each child. */
  ghost predicate BranchKeys(radix: bool, split: nat, prefix: seq<byte>, selectors: seq<nat>, count: nat,
                             groups: seq<Keys>)
    requires AllSized(radix, groups)
  {
    var first, last := groups[0][0], LastOf(groups[|groups| - 1]);
    && |selectors| == |groups| && count == |Join(groups)|
    && Diverge(DigitsOf(radix, first), DigitsOf(radix, last), split) && IsPrefix(radix, prefix, first, split)
    && forall i :: 0 <= i < |groups| ==> AtSplit(radix, split, selectors[i], groups[i])
  }

  /** The first and the last key of a group have the given digit at the split. */
  ghost predicate AtSplit(radix: bool, split: nat, selector: nat, keys: Keys) {
    && keys != []
    && split < |DigitsOf(radix, keys[0])| && DigitsOf(radix, keys[0])[split] == selector
    && split < |DigitsOf(radix, LastOf(keys))| && DigitsOf(radix, LastOf(keys))[split] == selector
  }

  lemma {:induction false} JoinSpeaks(radix: bool, below: seq<Summary>, groups: seq<Keys>)
    requires AllSized(radix, groups) && |below| == |groups|
    requires forall i :: 0 <= i < |groups| ==> Speaks(radix, below[i], groups[i])
    ensures Sized(radix, Join(groups)) && TotalCount(below) == |Join(groups)|
    ensures Join(groups)[0] == groups[0][0] && LastOf(Join(groups)) == LastOf(groups[|groups| - 1])
    decreases |groups|
  {
    var rest := groups[1..];
    if rest == [] {
      assert Join(groups) == groups[0] && below[1..] == [];
    } else {
      JoinSpeaks(radix, below[1..], rest);
      assert Join(groups) == groups[0] + Join(rest);
    }
  }

  lemma BitCarried(key: seq<byte>, other: seq<byte>, d: nat, selector: nat)
    requires |key| == |other| == 44
    ensures KeyBit(key, d) == Some(selector) && KeyBit(other, d) == Some(selector) <==>
            AtSplit(false, d, selector, [key, other])
  {
    hide DigitsOf;
    DigitCount(false, key);
    DigitCount(false, other);
    assert [key, other][0] == key && LastOf([key, other]) == other;
    if d < 352 {
      BitIsDigit(key, d);
      BitIsDigit(other, d);
    }
  }

  lemma NibbleCarried(key: seq<byte>, other: seq<byte>, d: nat, selector: nat)
    requires |key| == |other| == 32 && d < 64
    ensures Nibble(key, d) == Some(selector) == Nibble(other, d) <==> AtSplit(true, d, selector, [key, other])
  {
    hide DigitsOf;
    DigitCount(true, key);
    DigitCount(true, other);
    assert [key, other][0] == key && LastOf([key, other]) == other;
    NibbleIsDigit(key, d);
    NibbleIsDigit(other, d);
  }

  lemma OuterKeys(radix: bool, d: nat, selector: nat, keys: Keys)
    requires keys != []
    ensures AtSplit(radix, d, selector, keys) <==> AtSplit(radix, d, selector, [keys[0], LastOf(keys)])
  {
    hide DigitsOf;
    var ends := [keys[0], LastOf(keys)];
    assert ends[0] == keys[0] && LastOf(ends) == LastOf(keys);
  }

  /** The tests of a binary branch are exactly those on its groups of keys. */
  lemma BitBranchIs(ctx: Context, node: MapNode, below: seq<Summary>, groups: seq<Keys>)
    requires node.BitBranch? && |below| == |groups| == 2 && AllSized(false, groups)
    requires forall i :: 0 <= i < |groups| ==> Speaks(false, below[i], groups[i])
    ensures Summarise(ctx, node, below).Accepted? <==>
            BranchKeys(false, node.prefixBits, node.prefix, [0, 1], node.subtreeEntries, groups)
    ensures Summarise(ctx, node, below).Accepted? ==>
              Speaks(false, Summarise(ctx, node, below).value, Join(groups))
  {
    hide DigitsOf, CanonicalPrefix, PrefixBits, KeyBit, IsPrefix, Diverge, AtSplit, Join;
    var zero, one, d := below[0], below[1], node.prefixBits;
    JoinSpeaks(false, below, groups);
    TotalOfTwo(below);
    BitCarried(zero.minimum, zero.maximum, d, 0);
    BitCarried(one.minimum, one.maximum, d, 1);
    OuterKeys(false, d, 0, groups[0]);
    OuterKeys(false, d, 1, groups[1]);
    assert [0, 1][0] == 0 && [0, 1][1] == 1;
    if d < 352 {
      PrefixBitsAre(zero.minimum, one.maximum, d);
      PrefixIs(zero.minimum, node.prefix, d);
    } else {
      NotSplit(d, groups[0]);
    }
  }

  lemma NotSplit(d: nat, keys: Keys)
    requires d >= 352 && Sized(false, keys)
    ensures !AtSplit(false, d, 0, keys)
  {
    hide DigitOf;
    DigitCount(false, keys[0]);
  }

  /** The selectors of a bitmap are the places of its set bits, in rising order. */
  lemma {:induction false} SelectorsAre(bitmap: nat, index: nat, i: nat)
    requires index <= 16
    ensures Rising(Selectors(bitmap, index))
    ensures i in Selectors(bitmap, index) <==> index <= i < 16 && bitmap / Pow2(i) % 2 == 1
    decreases 16 - index
  {
    hide Pow2;
    SelectorsRise(bitmap, index);
    if index < 16 {
      SelectorsAre(bitmap, index + 1, i);
      SelectorsStep(bitmap, index);
    }
  }

  lemma SelectorsHold(node: MapNode, below: seq<Summary>, groups: seq<Keys>)
    requires node.RadixBranch? && node.prefixNibbles < 64 && AllSized(true, groups) && |below| == |groups|
    requires |Selectors(node.childBitmap, 0)| == |groups|
    requires forall i :: 0 <= i < |groups| ==> Speaks(true, below[i], groups[i])
    ensures SelectorsOk(node, below) <==>
            forall i :: 0 <= i < |groups| ==>
              AtSplit(true, node.prefixNibbles, Selectors(node.childBitmap, 0)[i], groups[i])
  {
    hide DigitsOf, Nibble, AtSplit, Selectors;
    var selectors, d := Selectors(node.childBitmap, 0), node.prefixNibbles;
    forall i | 0 <= i < |groups|
      ensures Nibble(below[i].minimum, d) == Some(selectors[i]) == Nibble(below[i].maximum, d) <==>
              AtSplit(true, d, selectors[i], groups[i])
    {
      NibbleCarried(below[i].minimum, below[i].maximum, d, selectors[i]);
      OuterKeys(true, d, selectors[i], groups[i]);
    }
  }

  /** The tests of a radix branch are exactly those on its groups of keys. */
  lemma RadixBranchIs(ctx: Context, node: MapNode, below: seq<Summary>, groups: seq<Keys>)
    requires node.RadixBranch? && ValidNode(node) && |below| == |groups| == |node.children| && AllSized(true, groups)
    requires forall i :: 0 <= i < |groups| ==> Speaks(true, below[i], groups[i])
    ensures Summarise(ctx, node, below).Accepted? <==>
            BranchKeys(true, node.prefixNibbles, node.prefix, Selectors(node.childBitmap, 0), node.subtreeEntries,
                       groups)
    ensures Summarise(ctx, node, below).Accepted? ==> Speaks(true, Summarise(ctx, node, below).value, Join(groups))
  {
    hide DigitsOf, CanonicalNibbles, CommonNibbles, Nibble, IsPrefix, Diverge, AtSplit, Join, Selectors, SelectorsOk,
         AllValid, BitCount;
    var d := node.prefixNibbles;
    JoinSpeaks(true, below, groups);
    SelectorsCount(node.childBitmap, 0);
    SelectorsHold(node, below, groups);
    var first, last := below[0].minimum, below[|below| - 1].maximum;
    CommonNibblesOf(first, last, d);
    PrefixIs(first, node.prefix, d);
  }

  // ---------------------------------------------------------------- trees over keys

  function Groups(ctx: Context, children: seq<MapTree>): (groups: seq<Keys>)
    ensures |groups| == |children| && forall i :: 0 <= i < |groups| ==> groups[i] == KeysOf(ctx, children[i])
  {
    seq(|children|, i requires 0 <= i < |children| => KeysOf(ctx, children[i]))
  }

  lemma {:induction false} KeysAreJoined(ctx: Context, children: seq<MapTree>)
    ensures KeysOfAll(ctx, children) == Join(Groups(ctx, children))
    decreases |children|
  {
    hide KeysOf;
    if children != [] {
      KeysAreJoined(ctx, children[1..]);
      assert Groups(ctx, children)[1..] == Groups(ctx, children[1..]);
    }
  }

  /** A leaf passes the value check; a branch is a branch over the keys of its children. */
  ghost predicate NodeKeyed(ctx: Context, node: MapNode, groups: seq<Keys>) {
    match node
    case BitLeaf(_, entry) => ctx.valueOk(entry.key, entry.value)
    case RadixPage(_, entries) =>
      forall i :: 0 <= i < |entries| ==> ctx.valueOk(entries[i].key, entries[i].value)
    case BitBranch(_, bits, prefix, _, _, count) =>
      AllSized(false, groups) && BranchKeys(false, bits, prefix, [0, 1], count, groups)
    case RadixBranch(_, nibbles, prefix, bitmap, _, count) =>
      AllSized(true, groups) && BranchKeys(true, nibbles, prefix, Selectors(bitmap, 0), count, groups)
  }

  /** Every node below stands where its parent says, in one domain and one construction, over the right keys. */
  ghost predicate Keyed(ctx: Context, t: MapTree)
    decreases t
  {
    t.id in ctx.nodes &&
    var node := ctx.nodes[t.id];
    && node.domain == ctx.domain && Children(node) == Ids(t.children)
    && (forall i :: 0 <= i < |t.children| ==>
          && Keyed(ctx, t.children[i])
          && t.children[i].id in ctx.nodes && NodeVersion(ctx.nodes[t.children[i].id]) == NodeVersion(node))
    && NodeKeyed(ctx, node, Groups(ctx, t.children))
  }

  ghost predicate IsRadix(ctx: Context, t: MapTree) {
    t.id in ctx.nodes && NodeVersion(ctx.nodes[t.id]) == 2
  }

  lemma {:induction false} SummariesAccepted(ctx: Context, children: seq<MapTree>)
    requires forall i :: 0 <= i < |children| ==> SummaryOf(ctx, children[i]).Accepted?
    ensures SummariesOf(ctx, children).Accepted?
    decreases |children|
  {
    hide SummaryOf;
    if children != [] { SummariesAccepted(ctx, children[1..]); }
  }

  /** A leaf's summary speaks for its key. */
  lemma LeafSpeaks(ctx: Context, node: MapNode, t: MapTree)
    requires NodesValid(ctx) && t.id in ctx.nodes && node == ctx.nodes[t.id] && (node.BitLeaf? || node.RadixPage?)
    ensures Summarise(ctx, node, []).Accepted? <==> NodeKeyed(ctx, node, [])
    ensures Summarise(ctx, node, []).Accepted? ==>
              Speaks(node.RadixPage?, Summarise(ctx, node, []).value, KeysOf(ctx, t))
  {
    hide SearchKey;
    assert ValidNode(node);
    if node.BitLeaf? { SearchKeySize(node.entry.key); } else { assert ValidEntry(node.entries[0]); }
  }

  /** What is known of the children once they hold: their summaries speak for their keys. */
  lemma ChildrenSpeak(ctx: Context, radix: bool, children: seq<MapTree>)
    requires forall i :: 0 <= i < |children| ==>
               SummaryOf(ctx, children[i]).Accepted?
               && Speaks(radix, SummaryOf(ctx, children[i]).value, KeysOf(ctx, children[i]))
    ensures SummariesOf(ctx, children).Accepted?
    ensures var below, groups := SummariesOf(ctx, children).value, Groups(ctx, children);
            && |below| == |groups|
            && forall i :: 0 <= i < |groups| ==> Speaks(radix, below[i], groups[i]) && Sized(radix, groups[i])
  {
    hide SummaryOf, KeysOf;
    SummariesAccepted(ctx, children);
    forall i | 0 <= i < |children|
      ensures SummaryOf(ctx, children[i]) == Accepted(SummariesOf(ctx, children).value[i])
    {
      SummariesAt(ctx, children, i);
    }
  }

  lemma BranchSpeaks(ctx: Context, t: MapTree)
    requires NodesValid(ctx) && t.id in ctx.nodes && (ctx.nodes[t.id].BitBranch? || ctx.nodes[t.id].RadixBranch?)
    requires Children(ctx.nodes[t.id]) == Ids(t.children)
    requires forall i :: 0 <= i < |t.children| ==>
               SummaryOf(ctx, t.children[i]).Accepted?
               && Speaks(ctx.nodes[t.id].RadixBranch?, SummaryOf(ctx, t.children[i]).value, KeysOf(ctx, t.children[i]))
    ensures SummaryOf(ctx, t).Accepted? <==> NodeKeyed(ctx, ctx.nodes[t.id], Groups(ctx, t.children))
    ensures SummaryOf(ctx, t).Accepted? ==>
              Speaks(ctx.nodes[t.id].RadixBranch?, SummaryOf(ctx, t).value, KeysOf(ctx, t))
  {
    hide Summarise, Speaks, BranchKeys, ValidNode, Sized;
    var node := ctx.nodes[t.id];
    ChildrenSpeak(ctx, node.RadixBranch?, t.children);
    var below, groups := SummariesOf(ctx, t.children).value, Groups(ctx, t.children);
    KeysAreJoined(ctx, t.children);
    assert |Ids(t.children)| == |groups|;
    if node.BitBranch? {
      BitBranchIs(ctx, node, below, groups);
    } else {
      assert ValidNode(node);
      ManyChildren(node);
      RadixBranchIs(ctx, node, below, groups);
    }
  }

  lemma ManyChildren(node: MapNode)
    requires node.RadixBranch? && ValidNode(node)
    ensures |node.children| >= 2
  {}

  /** The validator's trees are exactly the keyed ones, and a summary speaks for the keys below it. */
  lemma {:induction false} TreesAreKeyed(ctx: Context, t: MapTree)
    requires NodesValid(ctx)
    ensures TreeHolds(ctx, t) <==> Keyed(ctx, t)
    ensures TreeHolds(ctx, t) ==> Speaks(IsRadix(ctx, t), SummaryOf(ctx, t).value, KeysOf(ctx, t))
    decreases t
  {
    hide Summarise, Speaks, NodeKeyed, ValidNode, KeysOf;
    forall i | 0 <= i < |t.children|
      ensures TreeHolds(ctx, t.children[i]) <==> Keyed(ctx, t.children[i])
      ensures TreeHolds(ctx, t.children[i]) ==>
                SummaryOf(ctx, t.children[i]).Accepted?
                && Speaks(IsRadix(ctx, t.children[i]), SummaryOf(ctx, t.children[i]).value, KeysOf(ctx, t.children[i]))
    {
      TreesAreKeyed(ctx, t.children[i]);
    }
    if TreeHolds(ctx, t) || Keyed(ctx, t) { NodeIsKeyed(ctx, t); }
  }

  lemma NodeIsKeyed(ctx: Context, t: MapTree)
    requires NodesValid(ctx) && (TreeHolds(ctx, t) || Keyed(ctx, t))
    requires forall i :: 0 <= i < |t.children| ==>
               && (TreeHolds(ctx, t.children[i]) <==> Keyed(ctx, t.children[i]))
               && (TreeHolds(ctx, t.children[i]) ==>
                     SummaryOf(ctx, t.children[i]).Accepted?
                     && Speaks(IsRadix(ctx, t.children[i]), SummaryOf(ctx, t.children[i]).value,
                               KeysOf(ctx, t.children[i])))
    ensures TreeHolds(ctx, t) && Keyed(ctx, t)
    ensures Speaks(IsRadix(ctx, t), SummaryOf(ctx, t).value, KeysOf(ctx, t))
  {
    hide Summarise, Speaks, NodeKeyed, ValidNode, KeysOf;
    var node := ctx.nodes[t.id];
    OneConstruction(ctx, t);
    if node.BitLeaf? || node.RadixPage? {
      assert Children(node) == [] && |Ids(t.children)| == 0;
      assert t.children == [] && Groups(ctx, t.children) == [] && SummariesOf(ctx, t.children) == Accepted([]);
      LeafSpeaks(ctx, node, t);
    } else {
      BranchSpeaks(ctx, t);
    }
  }

  lemma OneConstruction(ctx: Context, t: MapTree)
    requires t.id in ctx.nodes && Children(ctx.nodes[t.id]) == Ids(t.children)
    requires forall i :: 0 <= i < |t.children| ==> t.children[i].id in ctx.nodes
    ensures SameConstruction(ctx, ctx.nodes[t.id]) <==>
            forall i :: 0 <= i < |t.children| ==>
              NodeVersion(ctx.nodes[t.children[i].id]) == NodeVersion(ctx.nodes[t.id])
  {
    var children := Children(ctx.nodes[t.id]);
    assert forall i :: 0 <= i < |children| ==> children[i] == t.children[i].id;
  }

  ghost predicate IsKeyedMap(ctx: Context, root: ObjectId, count: nat, t: MapTree) {
    t.id == root && Keyed(ctx, t) && Fresh({}, Visits(t)) && |KeysOf(ctx, t)| == count
  }

  /** A map is accepted exactly when its root heads a keyed tree of distinct nodes with that many keys. */
  lemma AcceptedMapsAreKeyed(ctx: Context, root: ObjectId, count: nat)
    requires NodesValid(ctx)
    ensures MapOk(ctx, Some(root), count) <==> exists t :: IsKeyedMap(ctx, root, count, t)
  {
    hide TreeHolds, Keyed, Fresh, Visits, EntryCount, KeysOf, MapOk, Speaks;
    AcceptedMapsAreTrees(ctx, root, count);
    if t :| IsMap(ctx, root, count, t) {
      KeyCount(ctx, t);
      assert IsKeyedMap(ctx, root, count, t);
    }
    if t :| IsKeyedMap(ctx, root, count, t) {
      TreesAreKeyed(ctx, t);
      KeyCount(ctx, t);
      assert IsMap(ctx, root, count, t);
    }
  }

  lemma KeyCount(ctx: Context, t: MapTree)
    requires NodesValid(ctx) && TreeHolds(ctx, t)
    ensures Keyed(ctx, t) && |KeysOf(ctx, t)| == EntryCount(ctx, t)
  {
    hide TreeHolds, Keyed, EntryCount, KeysOf;
    TreesAreKeyed(ctx, t);
    SummaryCounts(ctx, t);
  }
}
