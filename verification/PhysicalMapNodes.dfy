/** Physical map nodes, binary (version 1) and radix (version 2): parse and encode are inverse. */
module PhysicalMapNodes {
  import opened Bytes
  import opened Bits
  import opened Outcomes
  import opened Objects
  import opened PhysicalFields

  datatype MapEntry = MapEntry(key: ObjectId, value: seq<byte>)

  datatype MapNode =
    | BitLeaf(domain: nat, entry: MapEntry)
    | BitBranch(domain: nat, prefixBits: nat, prefix: seq<byte>, zero: ObjectId, one: ObjectId, subtreeEntries: nat)
    | RadixPage(domain: nat, entries: seq<MapEntry>)
    | RadixBranch(domain: nat, prefixNibbles: nat, prefix: seq<byte>, childBitmap: nat, children: seq<ObjectId>,
                  subtreeEntries: nat)

  // ---------------------------------------------------------------- parts

  /** The bits of the last byte behind the prefix are zero. */
  predicate BitPrefix(prefixBits: nat, prefix: seq<byte>) {
    && prefixBits < 352 && |prefix| == (prefixBits + 7) / 8
    && (prefixBits % 8 != 0 ==> prefix != [] && prefix[|prefix| - 1] % Pow2(8 - prefixBits % 8) == 0)
  }

  predicate NibblePrefix(prefixNibbles: nat, prefix: seq<byte>) {
    && prefixNibbles < 64 && |prefix| == (prefixNibbles + 1) / 2
    && (prefixNibbles % 2 != 0 ==> prefix != [] && prefix[|prefix| - 1] % 16 == 0)
  }

  function EntryBytes(e: MapEntry): seq<byte> {
    IdentityBytes(e.key) + StringBytes(e.value)
  }

  predicate ValidEntry(e: MapEntry) {
    InScheme(e.key, PHYSICAL) && |e.value| <= U64_MAX
  }

  function ParseEntry(s: seq<byte>): Parsed<MapEntry> {
    var (key, s) :- Identity(s, PHYSICAL);
    var (value, s) :- ByteString(s);
    Accepted((MapEntry(key, value), s))
  }

  lemma EntryExact(s: seq<byte>, e: MapEntry, rest: seq<byte>)
    ensures ParseEntry(s) == Accepted((e, rest)) <==> ValidEntry(e) && s == EntryBytes(e) + rest
  {
    hide Identity, IdentityBytes, InScheme, ByteString, StringBytes;
    var s1 := StringBytes(e.value) + rest;
    assert EntryBytes(e) + rest == IdentityBytes(e.key) + s1;
    IdentityExact(s, PHYSICAL, e.key, s1);
    ByteStringExact(s1, e.value, rest);
    if ParseEntry(s) == Accepted((e, rest)) {
      IdentityReads(s, PHYSICAL);
      ByteStringReads(Identity(s, PHYSICAL).value.1);
    }
  }

  lemma EntryReads(s: seq<byte>)
    ensures ParseEntry(s).Accepted? ==> var (e, rest) := ParseEntry(s).value; ValidEntry(e) && s == EntryBytes(e) + rest
  {
    hide ParseEntry, ValidEntry, EntryBytes;
    if ParseEntry(s).Accepted? { EntryExact(s, ParseEntry(s).value.0, ParseEntry(s).value.1); }
  }

  lemma EntryCodec()
    ensures IsCodec(ParseEntry, EntryBytes, ValidEntry)
  {
    hide ParseEntry, EntryBytes, ValidEntry;
    forall s, e, rest ensures ParseEntry(s) == Accepted((e, rest)) <==> ValidEntry(e) && s == EntryBytes(e) + rest {
      EntryExact(s, e, rest);
    }
  }

  function ParseChild(s: seq<byte>): Parsed<ObjectId> {
    Identity(s, PHYSICAL)
  }

  predicate ValidChild(id: ObjectId) {
    InScheme(id, PHYSICAL)
  }

  lemma ChildCodec()
    ensures IsCodec(ParseChild, IdentityBytes, ValidChild)
  {
    hide Identity, IdentityBytes, InScheme;
    forall s, id, rest
      ensures ParseChild(s) == Accepted((id, rest)) <==> ValidChild(id) && s == IdentityBytes(id) + rest
    {
      IdentityExact(s, PHYSICAL, id, rest);
    }
  }

  // ---------------------------------------------------------------- bodies

  function NodeVersion(n: MapNode): nat {
    if n.BitLeaf? || n.BitBranch? then 1 else 2
  }

  function NodeTag(n: MapNode): nat {
    if n.BitLeaf? || n.RadixPage? then 0 else 1
  }

  function NodeBody(n: MapNode): seq<byte> {
    match n
    case BitLeaf(_, entry) => EntryBytes(entry)
    case BitBranch(_, bits, prefix, zero, one, count) =>
      LeBytes(bits, 4) + (prefix + (IdentityBytes(zero) + (IdentityBytes(one) + LeBytes(count, 8))))
    case RadixPage(_, entries) => LeBytes(|entries|, 1) + ManyBytes(EntryBytes, entries)
    case RadixBranch(_, nibbles, prefix, bitmap, children, count) =>
      LeBytes(nibbles, 1) + (prefix + (LeBytes(bitmap, 2) + (ManyBytes(IdentityBytes, children) + LeBytes(count, 8))))
  }

  ghost predicate ValidNode(n: MapNode) {
    n.domain <= 2 &&
    match n
    case BitLeaf(_, entry) => ValidEntry(entry)
    case BitBranch(_, bits, prefix, zero, one, count) =>
      BitPrefix(bits, prefix) && InScheme(zero, PHYSICAL) && InScheme(one, PHYSICAL) && zero != one
      && 2 <= count <= U64_MAX
    case RadixPage(_, entries) => |entries| == 1 && AllValid(ValidEntry, entries)
    case RadixBranch(_, nibbles, prefix, bitmap, children, count) =>
      && NibblePrefix(nibbles, prefix) && bitmap < 0x1_0000 && |children| == BitCount(bitmap) && 2 <= |children|
      && AllValid(ValidChild, children) && 1 < count <= U64_MAX
  }

  function ParseBitBranch(domain: nat, s: seq<byte>): Parsed<MapNode> {
    var (bits, s) :- Integer(s, 4);
    var _ :- Check(bits < 352);
    var (prefix, s) :- Take(s, (bits + 7) / 8);
    var _ :- Check(BitPrefix(bits, prefix));
    var (zero, s) :- Identity(s, PHYSICAL);
    var (one, s) :- Identity(s, PHYSICAL);
    var (count, s) :- Integer(s, 8);
    var _ :- Check(zero != one && count >= 2);
    Accepted((BitBranch(domain, bits, prefix, zero, one, count), s))
  }

  /** The loop runs over the count just read, which must be one; the order test is then vacuous. */
  function ParseRadixPage(domain: nat, s: seq<byte>): Parsed<MapNode> {
    var (count, s) :- Integer(s, 1);
    var _ :- Check(count == 1);
    var (entries, s) :- Many(ParseEntry, s, count);
    var _ :- Check(forall i :: 0 < i < |entries| ==>
                     Less(IdentityBytes(entries[i - 1].key), IdentityBytes(entries[i].key)));
    Accepted((RadixPage(domain, entries), s))
  }

  function ParseRadixBranch(domain: nat, s: seq<byte>): Parsed<MapNode> {
    var (nibbles, s) :- Integer(s, 1);
    var _ :- Check(nibbles < 64);
    var (prefix, s) :- Take(s, (nibbles + 1) / 2);
    var _ :- Check(NibblePrefix(nibbles, prefix));
    var (bitmap, s) :- Integer(s, 2);
    var _ :- Check(BitCount(bitmap) >= 2);
    var (children, s) :- Many(ParseChild, s, BitCount(bitmap));
    var (count, s) :- Integer(s, 8);
    var _ :- Check(count > 1);
    Accepted((RadixBranch(domain, nibbles, prefix, bitmap, children, count), s))
  }

  function ParseBody(version: nat, domain: nat, tag: nat, s: seq<byte>): Parsed<MapNode> {
    if version == 1 && tag == 0 then
      var (entry, s) :- ParseEntry(s);
      Accepted((BitLeaf(domain, entry), s))
    else if version == 1 && tag == 1 then ParseBitBranch(domain, s)
    else if version == 2 && tag == 0 then ParseRadixPage(domain, s)
    else if version == 2 && tag == 1 then ParseRadixBranch(domain, s)
    else Rejected
  }

  lemma BitBranchExact(s: seq<byte>, n: MapNode, rest: seq<byte>)
    requires n.BitBranch? && n.domain <= 2
    ensures ParseBitBranch(n.domain, s) == Accepted((n, rest)) <==> ValidNode(n) && s == NodeBody(n) + rest
  {
    hide LeBytes, Radix, Le, Integer, Identity, IdentityBytes, InScheme, Take, BitPrefix;
    RadixWidths();
    var s4 := LeBytes(n.subtreeEntries, 8) + rest;
    var s3 := IdentityBytes(n.one) + s4;
    var s2 := IdentityBytes(n.zero) + s3;
    var s1 := n.prefix + s2;
    assert NodeBody(n) + rest == LeBytes(n.prefixBits, 4) + s1;
    PrefixSize(n.prefixBits, n.prefix);
    IntegerExact(s, 4, n.prefixBits, s1);
    TakeExact(s1, (n.prefixBits + 7) / 8, n.prefix, s2);
    IdentityExact(s2, PHYSICAL, n.zero, s3);
    IdentityExact(s3, PHYSICAL, n.one, s4);
    IntegerExact(s4, 8, n.subtreeEntries, rest);
    if ParseBitBranch(n.domain, s) == Accepted((n, rest)) {
      IntegerReads(s, 4);
      var r1 := Integer(s, 4).value.1;
      TakeReads(r1, (n.prefixBits + 7) / 8);
      var r2 := Take(r1, (n.prefixBits + 7) / 8).value.1;
      IdentityReads(r2, PHYSICAL);
      var r3 := Identity(r2, PHYSICAL).value.1;
      IdentityReads(r3, PHYSICAL);
      IntegerReads(Identity(r3, PHYSICAL).value.1, 8);
    }
  }

  lemma PrefixSize(bits: nat, prefix: seq<byte>)
    ensures BitPrefix(bits, prefix) ==> bits < 352 && |prefix| == (bits + 7) / 8
    ensures NibblePrefix(bits, prefix) ==> bits < 64 && |prefix| == (bits + 1) / 2
  {}

  lemma TakeReads(s: seq<byte>, n: nat)
    ensures Take(s, n).Accepted? ==> var (v, rest) := Take(s, n).value; |v| == n && s == v + rest
  {}

  lemma RadixPageExact(s: seq<byte>, n: MapNode, rest: seq<byte>)
    requires n.RadixPage? && n.domain <= 2
    ensures ParseRadixPage(n.domain, s) == Accepted((n, rest)) <==> ValidNode(n) && s == NodeBody(n) + rest
  {
    hide LeBytes, Radix, Le, Integer, Many, ManyBytes, AllValid, IsCodec, IdentityBytes, Less;
    RadixWidths();
    EntryCodec();
    var s1 := ManyBytes(EntryBytes, n.entries) + rest;
    assert NodeBody(n) + rest == LeBytes(|n.entries|, 1) + s1;
    IntegerExact(s, 1, |n.entries|, s1);
    ManyExact(ParseEntry, EntryBytes, ValidEntry, s1, 1, n.entries, rest);
    if ParseRadixPage(n.domain, s) == Accepted((n, rest)) {
      IntegerReads(s, 1);
      var r1 := Integer(s, 1).value.1;
      var read := Many(ParseEntry, r1, 1).value;
      ManyExact(ParseEntry, EntryBytes, ValidEntry, r1, 1, read.0, read.1);
    }
  }

  lemma RadixBranchExact(s: seq<byte>, n: MapNode, rest: seq<byte>)
    requires n.RadixBranch? && n.domain <= 2
    ensures ParseRadixBranch(n.domain, s) == Accepted((n, rest)) <==> ValidNode(n) && s == NodeBody(n) + rest
  {
    hide LeBytes, Radix, Le, Integer, Many, ManyBytes, AllValid, IsCodec, IdentityBytes, Take, NibblePrefix, BitCount;
    RadixWidths();
    ChildCodec();
    var s4 := LeBytes(n.subtreeEntries, 8) + rest;
    var s3 := ManyBytes(IdentityBytes, n.children) + s4;
    var s2 := LeBytes(n.childBitmap, 2) + s3;
    var s1 := n.prefix + s2;
    assert NodeBody(n) + rest == LeBytes(n.prefixNibbles, 1) + s1;
    PrefixSize(n.prefixNibbles, n.prefix);
    IntegerExact(s, 1, n.prefixNibbles, s1);
    TakeExact(s1, (n.prefixNibbles + 1) / 2, n.prefix, s2);
    IntegerExact(s2, 2, n.childBitmap, s3);
    ManyExact(ParseChild, IdentityBytes, ValidChild, s3, BitCount(n.childBitmap), n.children, s4);
    IntegerExact(s4, 8, n.subtreeEntries, rest);
    if ParseRadixBranch(n.domain, s) == Accepted((n, rest)) {
      IntegerReads(s, 1);
      var r1 := Integer(s, 1).value.1;
      TakeReads(r1, (n.prefixNibbles + 1) / 2);
      var r2 := Take(r1, (n.prefixNibbles + 1) / 2).value.1;
      IntegerReads(r2, 2);
      var r3 := Integer(r2, 2).value.1;
      var read := Many(ParseChild, r3, BitCount(n.childBitmap)).value;
      ManyExact(ParseChild, IdentityBytes, ValidChild, r3, BitCount(n.childBitmap), read.0, read.1);
      IntegerReads(read.1, 8);
    }
  }

  lemma BodyExact(s: seq<byte>, n: MapNode, rest: seq<byte>)
    requires n.domain <= 2
    ensures ParseBody(NodeVersion(n), n.domain, NodeTag(n), s) == Accepted((n, rest)) <==>
            ValidNode(n) && s == NodeBody(n) + rest
  {
    hide ParseBitBranch, ParseRadixPage, ParseRadixBranch, ParseEntry, EntryBytes, ValidEntry;
    match n
    case BitLeaf(_, entry) =>
      EntryExact(s, entry, rest);
      EntryReads(s);
      assert ValidNode(n) <==> ValidEntry(entry);
    case BitBranch(_, _, _, _, _, _) => BitBranchExact(s, n, rest);
    case RadixPage(_, _) => RadixPageExact(s, n, rest);
    case RadixBranch(_, _, _, _, _, _) => RadixBranchExact(s, n, rest);
  }

  // ---------------------------------------------------------------- whole nodes

  function EncodeMapNode(n: MapNode): seq<byte> {
    LeBytes(NodeVersion(n), 2) + (LeBytes(n.domain, 1) + (LeBytes(NodeTag(n), 1) + NodeBody(n)))
  }

  function ParseMapNode(data: seq<byte>): Result<MapNode> {
    var (version, s) :- Integer(data, 2);
    var (domain, s) :- Integer(s, 1);
    var (tag, s) :- Integer(s, 1);
    var _ :- Check((version == 1 || version == 2) && domain <= 2);
    var (node, s) :- ParseBody(version, domain, tag, s);
    var _ :- Check(s == []);
    Accepted(node)
  }

  lemma BodyKinds(version: nat, domain: nat, tag: nat, s: seq<byte>)
    ensures ParseBody(version, domain, tag, s).Accepted? ==>
              var n := ParseBody(version, domain, tag, s).value.0;
              NodeVersion(n) == version && NodeTag(n) == tag && n.domain == domain
  {
    hide Integer, Many, Take, Identity, ParseEntry, BitPrefix, NibblePrefix, BitCount;
  }

  lemma MapNodeExact(data: seq<byte>, n: MapNode)
    ensures ParseMapNode(data) == Accepted(n) <==> ValidNode(n) && data == EncodeMapNode(n)
  {
    hide LeBytes, Radix, Le, Integer, ParseBody, NodeBody;
    RadixWidths();
    var s3 := NodeBody(n);
    var s2 := LeBytes(NodeTag(n), 1) + s3;
    var s1 := LeBytes(n.domain, 1) + s2;
    IntegerExact(data, 2, NodeVersion(n), s1);
    IntegerExact(s1, 1, n.domain, s2);
    IntegerExact(s2, 1, NodeTag(n), s3);
    assert s3 + [] == s3;
    if n.domain <= 2 { BodyExact(s3, n, []); }
    if ParseMapNode(data) == Accepted(n) {
      IntegerReads(data, 2);
      var (version, r1) := Integer(data, 2).value;
      IntegerReads(r1, 1);
      var (domain, r2) := Integer(r1, 1).value;
      IntegerReads(r2, 1);
      var (tag, r3) := Integer(r2, 1).value;
      BodyKinds(version, domain, tag, r3);
      BodyExact(r3, n, []);
      var read := ParseBody(version, domain, tag, r3).value;
      assert read.0 == n && read.1 == [];
    }
  }
}
