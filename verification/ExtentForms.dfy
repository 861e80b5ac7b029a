/**
 * What the index pages of a volume are, said without the page decoder: a page is the encoding of its extents or of
 * its children's references, its record carries that page under its checksum, and its reference sums it up.
 */
module ExtentForms {
  import opened Bytes
  import opened Outcomes
  import opened Objects
  import opened FastCdc
  import ContentTree
  import opened ExtentIndex
  import opened VolumeCheckpoint

  // ---------------------------------------------------------------- page bytes

  predicate EqualWidths(slots: seq<seq<byte>>, width: nat) {
    forall i :: 0 <= i < |slots| ==> |slots[i]| == width
  }

  lemma {:induction false} SlotsSize(slots: seq<seq<byte>>, width: nat)
    requires EqualWidths(slots, width)
    ensures |Concat(slots)| == |slots| * width
  {
    if slots != [] {
      SlotsSize(slots[1..], width);
      assert |slots| * width == (|slots| - 1) * width + width;
    }
  }

  lemma {:induction false} SlotOfConcat(slots: seq<seq<byte>>, width: nat, i: nat)
    requires EqualWidths(slots, width) && i < |slots|
    ensures 0 <= i * width && i * width + width <= |Concat(slots)|
    ensures Concat(slots)[i * width..i * width + width] == slots[i]
  {
    SlotsSize(slots, width);
    SlotsSize(slots[1..], width);
    if i > 0 {
      SlotOfConcat(slots[1..], width, i - 1);
      assert i * width == (i - 1) * width + width;
      assert Concat(slots)[i * width..i * width + width] ==
             Concat(slots[1..])[(i - 1) * width..(i - 1) * width + width];
    }
  }

  /** A page: magic, level, slot count, the slots, and zeros up to its size. */
  function PageBytes(level: byte, slots: seq<seq<byte>>): seq<byte> {
    PAGE_MAGIC
    + ([level]
       + (Zeros(3)
          + (LeBytes(|slots|, 2)
             + (Zeros(2)
                + (Concat(slots) + Zeros(if |Concat(slots)| <= 4080 then 4080 - |Concat(slots)| else 0))))))
  }

  ghost predicate IsPage(payload: seq<byte>, level: nat, slots: seq<seq<byte>>) {
    && level < 64 && EqualWidths(slots, Width(level))
    && (if level == 0 then 1 <= |slots| <= 170 else 2 <= |slots| <= 51)
    && payload == PageBytes(level, slots)
  }

  function SlotsAt(payload: seq<byte>): (slots: seq<seq<byte>>)
    requires FramingOk(payload)
    ensures |slots| == PageCount(payload)
  {
    seq(PageCount(payload), i requires 0 <= i < PageCount(payload) => SlotAt(payload, i))
  }

  lemma PageParts(payload: seq<byte>, level: byte, slots: seq<seq<byte>>)
    requires |slots| < 256 && |Concat(slots)| <= 4080 && payload == PageBytes(level, slots)
    ensures |payload| == PAGE_BYTES && payload[..8] == PAGE_MAGIC && payload[8] == level
    ensures payload[9..12] == Zeros(3) && Le(payload[12..14]) == |slots| && payload[14..16] == Zeros(2)
    ensures payload[16..16 + |Concat(slots)|] == Concat(slots)
    ensures payload[16 + |Concat(slots)|..] == Zeros(4080 - |Concat(slots)|)
  {
    hide LeBytes, Le, Concat;
    RadixWidths();
    LeRoundTrip(|slots|, 2);
    assert payload[12..14] == LeBytes(|slots|, 2);
  }

  lemma CountBound(level: nat, count: nat)
    ensures count <= (PAGE_BYTES - 16) / Width(level) <==> count <= (if level == 0 then 170 else 51)
  {}

  lemma ZerosAre(s: seq<byte>)
    ensures AllZero(s) <==> s == Zeros(|s|)
  {}

  /** A page's encoding is framed and gives its slots back. */
  lemma PageIsFramed(payload: seq<byte>, level: nat, slots: seq<seq<byte>>)
    requires IsPage(payload, level, slots)
    ensures FramingOk(payload) && PageLevel(payload) == level && PageCount(payload) == |slots|
    ensures SlotsAt(payload) == slots
  {
    hide PageBytes, Concat, LeBytes, Le, AllZero;
    var width := Width(level);
    SlotsSize(slots, width);
    CountBound(level, |slots|);
    assert |slots| * width <= 4080 by { if level == 0 { assert |slots| * 24 <= 4080; } }
    PageParts(payload, level, slots);
    ZerosAre(payload[9..12]);
    ZerosAre(payload[14..16]);
    ZerosAre(payload[16 + |slots| * width..]);
    forall i | 0 <= i < |slots| ensures SlotAt(payload, i) == slots[i] {
      SlotInPage(payload, slots, width, i);
    }
  }

  lemma Slice(s: seq<byte>, a: nat, b: nat, c: nat, d: nat)
    requires a <= b <= |s| && c <= d <= b - a
    ensures s[a..b][c..d] == s[a + c..a + d]
  {
    assert forall i :: 0 <= i < d - c ==> s[a..b][c..d][i] == s[a + c..a + d][i];
  }

  lemma SlotInPage(payload: seq<byte>, slots: seq<seq<byte>>, width: nat, i: nat)
    requires EqualWidths(slots, width) && i < |slots| && 16 + |Concat(slots)| <= |payload|
    requires payload[16..16 + |Concat(slots)|] == Concat(slots)
    ensures 0 <= i * width && 16 + i * width + width <= |payload|
    ensures payload[16 + i * width..16 + i * width + width] == slots[i]
  {
    hide Concat;
    SlotOfConcat(slots, width, i);
    Slice(payload, 16, 16 + |Concat(slots)|, i * width, i * width + width);
  }

  lemma {:induction false} SlotsJoin(payload: seq<byte>, n: nat)
    requires FramingOk(payload) && n <= PageCount(payload)
    ensures var width := Width(PageLevel(payload));
            16 + n * width <= PAGE_BYTES && Concat(SlotsAt(payload)[..n]) == payload[16..16 + n * width]
  {
    hide FramingOk, PageCount, PageLevel, AllZero;
    var width, slots := Width(PageLevel(payload)), SlotsAt(payload);
    if n > 0 {
      SlotsJoin(payload, n - 1);
      var last := [slots[n - 1]];
      assert slots[..n] == slots[..n - 1] + last;
      ContentTree.ConcatAppend(slots[..n - 1], last);
      assert Concat(last) == last[0] + Concat(last[1..]) && last[1..] == [];
      SlotBoundsAt(payload, n - 1);
      assert n * width == (n - 1) * width + width;
      assert payload[16..16 + n * width] ==
             payload[16..16 + (n - 1) * width] + payload[16 + (n - 1) * width..16 + (n - 1) * width + width];
    }
  }

  lemma SlotBoundsAt(payload: seq<byte>, i: nat)
    requires FramingOk(payload) && i < PageCount(payload)
    ensures var width := Width(PageLevel(payload));
            16 + i * width + width <= PAGE_BYTES == |payload|
            && SlotAt(payload, i) == payload[16 + i * width..16 + i * width + width]
  {
    SlotBounds(PageCount(payload), Width(PageLevel(payload)), i);
  }

  /** Framed bytes are the encoding of their slots. */
  lemma FramedIsPage(payload: seq<byte>)
    requires FramingOk(payload)
    ensures IsPage(payload, PageLevel(payload), SlotsAt(payload))
  {
    hide Le, LeBytes, Concat, AllZero, SlotAt;
    var level, count, slots := PageLevel(payload), PageCount(payload), SlotsAt(payload);
    CountBound(level, count);
    SlotsJoin(payload, count);
    assert slots[..count] == slots;
    var body := payload[16..16 + count * Width(level)];
    ZerosAre(payload[9..12]);
    ZerosAre(payload[14..16]);
    ZerosAre(payload[16 + count * Width(level)..]);
    LeBytesOfLe(payload[12..14]);
    assert payload == payload[..8] + ([payload[8]] + (payload[9..12] + (payload[12..14] + (payload[14..16]
                      + (body + payload[16 + count * Width(level)..])))));
  }

  // ---------------------------------------------------------------- slots

  predicate ExtentFits(e: Extent) {
    e.start <= U64_MAX && e.end <= U64_MAX && e.physical <= U64_MAX
  }

  function ExtentBytes(e: Extent): (s: seq<byte>)
    ensures |s| == 24
  {
    LeBytes(e.start, 8) + (LeBytes(e.end, 8) + LeBytes(e.physical, 8))
  }

  lemma ExtentExact(raw: seq<byte>, e: Extent)
    requires |raw| == 24
    ensures Extent(Le(raw[0..8]), Le(raw[8..16]), Le(raw[16..24])) == e <==> ExtentFits(e) && raw == ExtentBytes(e)
  {
    hide Le, LeBytes;
    LeU64(raw[0..8]);
    LeU64(raw[8..16]);
    LeU64(raw[16..24]);
    LeBytesOfLe(raw[0..8]);
    LeBytesOfLe(raw[8..16]);
    LeBytesOfLe(raw[16..24]);
    assert raw == raw[0..8] + (raw[8..16] + raw[16..24]);
    if ExtentFits(e) && raw == ExtentBytes(e) {
      RadixWidths();
      LeRoundTrip(e.start, 8);
      LeRoundTrip(e.end, 8);
      LeRoundTrip(e.physical, 8);
      assert raw[0..8] == LeBytes(e.start, 8) && raw[8..16] == LeBytes(e.end, 8);
      assert raw[16..24] == LeBytes(e.physical, 8);
    }
  }

  lemma ReadFits(raw: seq<byte>)
    requires |raw| == 80 && AllZero(raw[73..])
    ensures Fits(ReadReference(raw)) && EncodeReference(ReadReference(raw)) == raw
  {
    hide Le, LeBytes, AllZero;
    LeU64(raw[0..8]);
    LeU64(raw[8..16]);
    LeU64(raw[48..56]);
    LeU64(raw[56..64]);
    LeU64(raw[64..72]);
    LeBytesOfLe(raw[0..8]);
    LeBytesOfLe(raw[8..16]);
    LeBytesOfLe(raw[48..56]);
    LeBytesOfLe(raw[56..64]);
    LeBytesOfLe(raw[64..72]);
    ZerosAre(raw[73..]);
    assert raw == raw[0..8] + raw[8..16] + raw[16..48] + raw[48..56] + raw[56..64] + raw[64..72] + [raw[72]]
                  + raw[73..];
  }

  /** A reference is read exactly from its encoding. */
  lemma ReferenceExact(raw: seq<byte>, r: IndexReference)
    ensures ParseReference(raw) == Accepted(r) <==> Fits(r) && SummaryOk(r) && raw == EncodeReference(r)
  {
    hide ReadReference, EncodeReference, Pow2;
    if |raw| == 80 && AllZero(raw[73..]) { ReadFits(raw); }
    if Fits(r) { ReferenceRoundTrip(r); }
  }

  function ExtentSlots(extents: seq<Extent>): (slots: seq<seq<byte>>)
    ensures |slots| == |extents| && EqualWidths(slots, 24)
  {
    seq(|extents|, i requires 0 <= i < |extents| => ExtentBytes(extents[i]))
  }

  ghost predicate AllFit(children: seq<IndexReference>) {
    forall i :: 0 <= i < |children| ==> Fits(children[i]) && SummaryOk(children[i])
  }

  ghost function ReferenceSlots(children: seq<IndexReference>): (slots: seq<seq<byte>>)
    requires AllFit(children)
    ensures |slots| == |children| && EqualWidths(slots, 80)
  {
    seq(|children|, i requires 0 <= i < |children| => EncodeReference(children[i]))
  }

  // ---------------------------------------------------------------- records

  /** The part of a page's record header that its checksum covers. */
  function Covered(sequence: nat): (s: seq<byte>)
    ensures |s| == 27
  {
    LeBytes(sequence, 8) + ([9] + (LeBytes(26, 2) + (LeBytes(0, 8) + LeBytes(PAGE_BYTES, 8))))
  }

  function PageRecordBytes(r: IndexReference, payload: seq<byte>): seq<byte> {
    RECORD_MAGIC
    + (LeBytes(INDEX_RECORD_BYTES, 8) + (Covered(r.sequence) + (r.checksum + (INDEX_PAGE_REGION + payload))))
  }

  /** The record of this page stands where its reference says, under a true checksum. */
  ghost predicate RecordStands(h: Hash, data: seq<byte>, r: IndexReference, payload: seq<byte>) {
    && OccursAt(data, PageRecordBytes(r, payload), r.offset)
    && r.checksum == h(Covered(r.sequence) + INDEX_PAGE_REGION + payload)
  }

  /** The checked fields of a record header are exactly the covered bytes. */
  lemma CoveredExact(s: seq<byte>, sequence: nat)
    requires |s| == 27 && sequence <= U64_MAX
    ensures s == Covered(sequence) <==>
            && Le(s[0..8]) == sequence && s[8] == 9 && Le(s[9..11]) == 26 && Le(s[11..19]) == 0
            && Le(s[19..27]) == PAGE_BYTES
  {
    hide Le, LeBytes;
    RadixWidths();
    LeBytesOfLe(s[0..8]);
    LeBytesOfLe(s[9..11]);
    LeBytesOfLe(s[11..19]);
    LeBytesOfLe(s[19..27]);
    assert s == s[0..8] + ([s[8]] + (s[9..11] + (s[11..19] + s[19..27])));
    LeRoundTrip(sequence, 8);
    LeRoundTrip(26, 2);
    LeRoundTrip(0, 8);
    LeRoundTrip(PAGE_BYTES, 8);
    if s == Covered(sequence) {
      assert s[0..8] == LeBytes(sequence, 8) && s[9..11] == LeBytes(26, 2);
      assert s[11..19] == LeBytes(0, 8) && s[19..27] == LeBytes(PAGE_BYTES, 8);
    }
  }

  lemma SizeExact(s: seq<byte>)
    requires |s| == 8
    ensures s == LeBytes(INDEX_RECORD_BYTES, 8) <==> Le(s) == INDEX_RECORD_BYTES
  {
    hide Le, LeBytes;
    RadixWidths();
    LeBytesOfLe(s);
    LeRoundTrip(INDEX_RECORD_BYTES, 8);
  }

  lemma RecordParts(record: seq<byte>, r: IndexReference, payload: seq<byte>)
    requires |record| == INDEX_RECORD_BYTES && |r.checksum| == 32 && |payload| == PAGE_BYTES
    ensures record == PageRecordBytes(r, payload) <==>
            && record[..8] == RECORD_MAGIC && record[8..16] == LeBytes(INDEX_RECORD_BYTES, 8)
            && record[16..43] == Covered(r.sequence) && record[43..75] == r.checksum
            && record[75..101] == INDEX_PAGE_REGION && record[101..] == payload
  {
    hide LeBytes, Covered;
    assert record == record[..8] + (record[8..16] + (record[16..43] + (record[43..75] + (record[75..101]
                     + record[101..]))));
  }

  /** The checks on a page's record hold exactly when the record of its payload stands there. */
  lemma EnvelopeExact(h: Hash, data: seq<byte>, r: IndexReference, payload: seq<byte>)
    requires r.sequence <= U64_MAX && |r.checksum| == 32 && |payload| == PAGE_BYTES
    ensures EnvelopeOk(h, data, r) && PagePayload(data, r) == payload <==> RecordStands(h, data, r, payload)
  {
    hide Le, LeBytes, Covered;
    assert |PageRecordBytes(r, payload)| == INDEX_RECORD_BYTES;
    if r.offset + INDEX_RECORD_BYTES <= |data| {
      var record := data[r.offset..r.offset + INDEX_RECORD_BYTES];
      RecordParts(record, r, payload);
      SizeExact(record[8..16]);
      var header := record[16..43];
      CoveredExact(header, r.sequence);
      Slice(record, 16, 43, 0, 8);
      Slice(record, 16, 43, 9, 11);
      Slice(record, 16, 43, 11, 19);
      Slice(record, 16, 43, 19, 27);
      assert PagePayload(data, r) == record[101..];
    }
  }

  // ---------------------------------------------------------------- nodes

  /** The extents of a leaf page, in order, before its record, summed up by its reference. */
  ghost predicate LeafNode(r: IndexReference, extents: seq<Extent>) {
    && 1 <= |extents| <= 170
    && (forall i :: 0 <= i < |extents| ==> ExtentFits(extents[i]) && ExtentOk(extents[i], r.offset))
    && (forall i :: 1 <= i < |extents| ==> extents[i - 1].end <= extents[i].start)
    && r.start == extents[0].start && r.end == extents[|extents| - 1].end && r.count == |extents|
  }

  /** The children of a branch page, in order, one level down and written before it, summed up by its reference. */
  ghost predicate BranchNode(r: IndexReference, children: seq<IndexReference>) {
    && 2 <= |children| <= 51 && AllFit(children)
    && (forall i :: 0 <= i < |children| ==>
          Precedes(children[i], r.offset, r.sequence) && children[i].level + 1 == r.level)
    && ChildRun(children, r.start, r.end) && r.count == CountSum(children)
  }

  ghost predicate NodeStands(h: Hash, data: seq<byte>, r: IndexReference, extents: seq<Extent>,
                             children: seq<IndexReference>)
  {
    && Fits(r) && 8 <= r.offset && 0 < r.sequence && r.level < 64
    && if r.level == 0
       then children == [] && LeafNode(r, extents) && RecordStands(h, data, r, PageBytes(0, ExtentSlots(extents)))
       else extents == [] && BranchNode(r, children)
            && RecordStands(h, data, r, PageBytes(r.level, ReferenceSlots(children)))
  }

  lemma LeafSlots(payload: seq<byte>)
    requires FramingOk(payload) && PageLevel(payload) == 0
    ensures SlotsAt(payload) == ExtentSlots(Extents(payload))
    ensures forall i :: 0 <= i < PageCount(payload) ==> ExtentFits(Extents(payload)[i])
  {
    hide FramingOk, Le, ExtentBytes;
    forall i | 0 <= i < PageCount(payload)
      ensures ExtentFits(Extents(payload)[i]) && SlotAt(payload, i) == ExtentBytes(Extents(payload)[i])
    {
      ExtentExact(SlotAt(payload, i), Extents(payload)[i]);
    }
  }

  lemma BranchSlots(payload: seq<byte>, offset: nat, sequence: nat)
    requires FramingOk(payload) && PageLevel(payload) > 0 && EntriesOk(payload, offset, sequence, PageCount(payload))
    ensures AllFit(Children(payload, offset, sequence))
    ensures SlotsAt(payload) == ReferenceSlots(Children(payload, offset, sequence))
  {
    hide FramingOk, ParseReference, EncodeReference, SummaryOk;
    var children := Children(payload, offset, sequence);
    forall i | 0 <= i < PageCount(payload)
      ensures Fits(children[i]) && SummaryOk(children[i]) && SlotAt(payload, i) == EncodeReference(children[i])
    {
      assert EntryOk(payload, offset, sequence, i);
      ReferenceExact(SlotAt(payload, i), children[i]);
    }
  }

  /** A decoded page is the node its record stands for. */
  lemma PageIsNode(h: Hash, data: seq<byte>, r: IndexReference)
    requires PageOf(h, data, r).Accepted?
    ensures var page := PageOf(h, data, r).value;
            page.summary == r && NodeStands(h, data, r, page.extents, page.children)
  {
    PageLevels(h, data, r);
    ReferenceOfPage(h, data, r);
    hide PageOf, FramingOk, EntriesOk, EnvelopeOk, RecordStands, PageBytes, ExtentSlots, ReferenceSlots, Extents,
         Children, RangeAt, TotalUpTo, SlotsAt, PageCount, PageLevel, AllFit, ChildRun, CountSum;
    var page, payload := PageOf(h, data, r).value, PagePayload(data, r);
    FramedIsPage(payload);
    EnvelopeExact(h, data, r, payload);
    if r.level == 0 {
      LeafSlots(payload);
      LeafSpans(payload, r.offset, r.sequence);
      LeafIsNode(payload, r);
    } else {
      BranchSlots(payload, r.offset, r.sequence);
      BranchRun(payload, r.offset, r.sequence);
      BranchIsNode(payload, r);
    }
  }

  lemma ReferenceOfPage(h: Hash, data: seq<byte>, r: IndexReference)
    requires PageOf(h, data, r).Accepted?
    ensures Fits(r) && SummaryOk(r) && EnvelopeOk(h, data, r) && |PagePayload(data, r)| == PAGE_BYTES
    ensures PageOf(h, data, r).value.summary == r
  {
    hide FramingOk, EntriesOk, EncodeReference, ReadReference;
    var payload := PagePayload(data, r);
    var summary := Summary(payload, r.offset, r.sequence, r.checksum);
    assert Fits(summary);
    ReferenceRoundTrip(summary);
  }

  lemma LeafIsNode(payload: seq<byte>, r: IndexReference)
    requires FramingOk(payload) && PageLevel(payload) == 0
    requires EntriesOk(payload, r.offset, r.sequence, PageCount(payload))
    requires r == Summary(payload, r.offset, r.sequence, r.checksum)
    ensures LeafNode(r, Extents(payload)) && |Extents(payload)| == PageCount(payload)
  {
    LeafSlots(payload);
    LeafTotal(payload, PageCount(payload));
    CountBound(0, PageCount(payload));
    hide Le, AllZero;
    var extents := Extents(payload);
    forall i | 0 <= i < |extents| ensures ExtentOk(extents[i], r.offset) {
      assert EntryOk(payload, r.offset, r.sequence, i);
    }
    forall i | 1 <= i < |extents| ensures extents[i - 1].end <= extents[i].start {
      assert RangeAt(payload, i - 1).1 <= RangeAt(payload, i).0;
    }
  }

  lemma BranchIsNode(payload: seq<byte>, r: IndexReference)
    requires FramingOk(payload) && PageLevel(payload) > 0
    requires EntriesOk(payload, r.offset, r.sequence, PageCount(payload))
    requires r == Summary(payload, r.offset, r.sequence, r.checksum)
    ensures BranchNode(r, Children(payload, r.offset, r.sequence))
  {
    BranchSlots(payload, r.offset, r.sequence);
    BranchRun(payload, r.offset, r.sequence);
    CountBound(PageLevel(payload), PageCount(payload));
    hide Le, AllZero, ParseReference, AllFit, ChildRun, CountSum, TotalUpTo;
    var children := Children(payload, r.offset, r.sequence);
    forall i | 0 <= i < |children|
      ensures Precedes(children[i], r.offset, r.sequence) && children[i].level + 1 == r.level
    {
      assert EntryOk(payload, r.offset, r.sequence, i);
    }
  }

  lemma LeafFrames(payload: seq<byte>, r: IndexReference, extents: seq<Extent>)
    requires LeafNode(r, extents) && r.level == 0 && payload == PageBytes(0, ExtentSlots(extents))
    ensures FramingOk(payload) && PageLevel(payload) == 0 && PageCount(payload) == |extents|
    ensures Extents(payload) == extents && EntriesOk(payload, r.offset, r.sequence, |extents|)
    ensures Summary(payload, r.offset, r.sequence, r.checksum) == r
    ensures Children(payload, r.offset, r.sequence) == []
  {
    hide PageBytes, FramingOk, Le, ExtentBytes, PageCount, PageLevel;
    var slots := ExtentSlots(extents);
    PageIsFramed(payload, 0, slots);
    forall i | 0 <= i < |extents| ensures ExtentAt(payload, i) == extents[i] {
      assert SlotAt(payload, i) == SlotsAt(payload)[i] == ExtentBytes(extents[i]);
      ExtentExact(SlotAt(payload, i), extents[i]);
    }
    LeafTotal(payload, |extents|);
  }

  lemma BranchFrames(payload: seq<byte>, r: IndexReference, children: seq<IndexReference>)
    requires BranchNode(r, children) && 0 < r.level < 64 && payload == PageBytes(r.level, ReferenceSlots(children))
    ensures FramingOk(payload) && PageLevel(payload) == r.level && PageCount(payload) == |children|
    ensures EntriesOk(payload, r.offset, r.sequence, |children|)
    ensures Children(payload, r.offset, r.sequence) == children && Extents(payload) == []
    ensures Summary(payload, r.offset, r.sequence, r.checksum) == r
  {
    hide PageBytes, FramingOk, Le, EncodeReference, PageCount, PageLevel, ParseReference, SummaryOk, CountSum, Fits;
    var slots := ReferenceSlots(children);
    PageIsFramed(payload, r.level, slots);
    forall i | 0 <= i < |children| ensures ChildAt(payload, i) == Accepted(children[i]) {
      assert SlotAt(payload, i) == SlotsAt(payload)[i] == EncodeReference(children[i]);
      ReferenceExact(SlotAt(payload, i), children[i]);
    }
    BranchTotal(payload, r.offset, r.sequence, children, |children|);
    assert children[..|children|] == children;
  }

  /** A node whose record stands is decoded as that node. */
  lemma NodeIsPage(h: Hash, data: seq<byte>, r: IndexReference, extents: seq<Extent>, children: seq<IndexReference>)
    requires NodeStands(h, data, r, extents, children)
    ensures PageOf(h, data, r) == Accepted(Page(r, extents, children))
  {
    hide PageBytes, FramingOk, EnvelopeOk, RecordStands, ExtentSlots, ReferenceSlots, LeafNode, EntriesOk,
         Extents, Children, Summary, IndexPage, PageCount, PageLevel;
    var payload;
    if r.level == 0 {
      payload := PageBytes(0, ExtentSlots(extents));
      LeafFrames(payload, r, extents);
    } else {
      payload := PageBytes(r.level, ReferenceSlots(children));
      BranchFrames(payload, r, children);
    }
    EnvelopeExact(h, data, r, payload);
    SummaryNeverRejects(payload, r.offset, r.sequence, r.checksum);
  }

  // ---------------------------------------------------------------- trees of pages

  /** A reference with the extents of its page, or with the trees of its page's children. */
  datatype ExtentTree = ExtentTree(r: IndexReference, extents: seq<Extent>, children: seq<ExtentTree>)

  function Roots(trees: seq<ExtentTree>): (rs: seq<IndexReference>)
    ensures |rs| == |trees| && forall i :: 0 <= i < |rs| ==> rs[i] == trees[i].r
  {
    seq(|trees|, i requires 0 <= i < |trees| => trees[i].r)
  }

  /** Every page of the tree stands in the file. */
  ghost predicate TreeStands(h: Hash, data: seq<byte>, t: ExtentTree)
    decreases t
  {
    NodeStands(h, data, t.r, t.extents, Roots(t.children))
    && forall i :: 0 <= i < |t.children| ==> TreeStands(h, data, t.children[i])
  }

  function Flat(t: ExtentTree): seq<Extent>
    decreases t, 0
  {
    t.extents + FlatAll(t.children)
  }

  function FlatAll(trees: seq<ExtentTree>): seq<Extent>
    decreases trees, 1
  {
    if trees == [] then [] else Flat(trees[0]) + FlatAll(trees[1..])
  }

  /** The file offsets of a tree's pages, in the order they are read. */
  function Offsets(t: ExtentTree): seq<nat>
    decreases t, 0
  {
    [t.r.offset] + OffsetsAll(t.children)
  }

  function OffsetsAll(trees: seq<ExtentTree>): seq<nat>
    decreases trees, 1
  {
    if trees == [] then [] else Offsets(trees[0]) + OffsetsAll(trees[1..])
  }

  function Among(offsets: seq<nat>): set<nat> {
    set x | x in offsets
  }

  /** Offsets of known pages, none used before and none used twice. */
  ghost predicate Free(offsets: seq<nat>, pages: set<nat>, owned: set<nat>) {
    && (forall i :: 0 <= i < |offsets| ==> offsets[i] in pages && offsets[i] !in owned)
    && (forall i, j :: 0 <= i < j < |offsets| ==> offsets[i] != offsets[j])
  }

  lemma FreeAppend(a: seq<nat>, b: seq<nat>, pages: set<nat>, owned: set<nat>)
    ensures Free(a + b, pages, owned) <==> Free(a, pages, owned) && Free(b, pages, owned + Among(a))
    ensures Among(a + b) == Among(a) + Among(b)
  {
    var all := a + b;
    if Free(all, pages, owned) {
      forall i | 0 <= i < |a| ensures a[i] in pages && a[i] !in owned { assert all[i] == a[i]; }
      forall i, j | 0 <= i < j < |a| ensures a[i] != a[j] { assert all[i] == a[i] && all[j] == a[j]; }
      forall i | 0 <= i < |b| ensures b[i] in pages && b[i] !in owned + Among(a) {
        assert all[|a| + i] == b[i];
        forall j | 0 <= j < |a| ensures a[j] != b[i] { assert all[j] == a[j]; }
      }
      forall i, j | 0 <= i < j < |b| ensures b[i] != b[j] { assert all[|a| + i] == b[i] && all[|a| + j] == b[j]; }
    }
  }

  /** A tree that stands, with pages of its own, is read as its extents. */
  lemma {:induction false} TreeIsRead(h: Hash, data: seq<byte>, t: ExtentTree, parentOffset: nat, parentSequence: nat,
                                      pages: set<nat>, owned: set<nat>)
    requires TreeStands(h, data, t) && Precedes(t.r, parentOffset, parentSequence)
    requires Free(Offsets(t), pages, owned)
    ensures IndexedExtents(h, data, t.r, parentOffset, parentSequence, pages, owned) ==
            Accepted((Flat(t), owned + Among(Offsets(t))))
    decreases t, 0
  {
    hide PageOf, Free, NodeStands, IndexedChildren, Precedes, FlatAll, OffsetsAll;
    NodeIsPage(h, data, t.r, t.extents, Roots(t.children));
    NodeFacts(h, data, t.r, t.extents, Roots(t.children));
    FreeAppend([t.r.offset], OffsetsAll(t.children), pages, owned);
    OneOffset(t.r.offset, pages, owned);
    if t.r.level == 0 {
      NothingBelow(t);
    } else {
      var own := owned + {t.r.offset};
      TreesAreRead(h, data, t.children, t.r.level - 1, t.r.offset, t.r.sequence, pages, own);
      assert own + Among(OffsetsAll(t.children)) == owned + Among(Offsets(t));
      assert Flat(t) == FlatAll(t.children);
    }
  }

  lemma NodeFacts(h: Hash, data: seq<byte>, r: IndexReference, extents: seq<Extent>, children: seq<IndexReference>)
    requires NodeStands(h, data, r, extents, children)
    ensures r.level == 0 ==> children == []
    ensures r.level > 0 ==> extents == [] && forall i :: 0 <= i < |children| ==>
              Precedes(children[i], r.offset, r.sequence) && children[i].level + 1 == r.level
  {
    hide RecordStands, PageBytes, LeafNode;
  }

  lemma NothingBelow(t: ExtentTree)
    requires t.children == []
    ensures Offsets(t) == [t.r.offset] && Flat(t) == t.extents
  {}

  lemma OneOffset(offset: nat, pages: set<nat>, owned: set<nat>)
    ensures Among([offset]) == {offset}
    ensures Free([offset], pages, owned) <==> offset in pages && offset !in owned
  {
    assert [offset][0] == offset;
  }

  lemma {:induction false} TreesAreRead(h: Hash, data: seq<byte>, trees: seq<ExtentTree>, level: nat,
                                        parentOffset: nat, parentSequence: nat, pages: set<nat>, owned: set<nat>)
    requires forall i :: 0 <= i < |trees| ==>
               TreeStands(h, data, trees[i]) && Precedes(trees[i].r, parentOffset, parentSequence)
               && trees[i].r.level == level
    requires Free(OffsetsAll(trees), pages, owned)
    ensures IndexedChildren(h, data, Roots(trees), level, parentOffset, parentSequence, pages, owned) ==
            Accepted((FlatAll(trees), owned + Among(OffsetsAll(trees))))
    decreases trees, 1
  {
    hide TreeStands, IndexedExtents, Free, Offsets, Flat;
    if trees == [] {
      assert Roots(trees) == [] && owned + Among([]) == owned;
    } else {
      var rest := trees[1..];
      FreeAppend(Offsets(trees[0]), OffsetsAll(rest), pages, owned);
      TreeIsRead(h, data, trees[0], parentOffset, parentSequence, pages, owned);
      var more := owned + Among(Offsets(trees[0]));
      TreesAreRead(h, data, rest, level, parentOffset, parentSequence, pages, more);
      assert Roots(trees)[0] == trees[0].r && Roots(trees)[1..] == Roots(rest);
      assert more + Among(OffsetsAll(rest)) == owned + Among(OffsetsAll(trees));
    }
  }

  /** What is read comes from a tree that stands, with pages of its own. */
  lemma {:induction false} ReadIsTree(h: Hash, data: seq<byte>, r: IndexReference, parentOffset: nat,
                                      parentSequence: nat, pages: set<nat>, owned: set<nat>)
    returns (t: ExtentTree)
    requires IndexedExtents(h, data, r, parentOffset, parentSequence, pages, owned).Accepted?
    ensures t.r == r && TreeStands(h, data, t) && Precedes(r, parentOffset, parentSequence)
    ensures Free(Offsets(t), pages, owned)
    ensures IndexedExtents(h, data, r, parentOffset, parentSequence, pages, owned) ==
            Accepted((Flat(t), owned + Among(Offsets(t))))
    decreases r.level, 0
  {
    hide PageOf, Free, NodeStands, IndexedChildren, FlatAll, OffsetsAll, FramingOk, EntriesOk;
    PageIsNode(h, data, r);
    PageLevels(h, data, r);
    var page := PageOf(h, data, r).value;
    OneOffset(r.offset, pages, owned);
    if r.level == 0 {
      t := ExtentTree(r, page.extents, []);
      NothingBelow(t);
      assert Roots([]) == page.children;
    } else {
      var own := owned + {r.offset};
      var trees := ReadAreTrees(h, data, page.children, r.level - 1, r.offset, r.sequence, pages, own);
      t := ExtentTree(r, [], trees);
      NodeFacts(h, data, r, page.extents, page.children);
      assert page.extents == [] && Flat(t) == FlatAll(trees);
      FreeAppend([r.offset], OffsetsAll(trees), pages, owned);
      assert own + Among(OffsetsAll(trees)) == owned + Among(Offsets(t));
    }
  }

  lemma {:induction false} ReadAreTrees(h: Hash, data: seq<byte>, children: seq<IndexReference>, level: nat,
                                        parentOffset: nat, parentSequence: nat, pages: set<nat>, owned: set<nat>)
    returns (trees: seq<ExtentTree>)
    requires forall i :: 0 <= i < |children| ==> children[i].level == level
    requires IndexedChildren(h, data, children, level, parentOffset, parentSequence, pages, owned).Accepted?
    ensures Roots(trees) == children && forall i :: 0 <= i < |trees| ==> TreeStands(h, data, trees[i])
    ensures Free(OffsetsAll(trees), pages, owned)
    ensures IndexedChildren(h, data, children, level, parentOffset, parentSequence, pages, owned) ==
            Accepted((FlatAll(trees), owned + Among(OffsetsAll(trees))))
    decreases level, 1 + |children|
  {
    hide TreeStands, IndexedExtents, Offsets, Flat;
    if children == [] {
      trees := [];
      assert owned + Among([]) == owned;
    } else {
      var first := ReadIsTree(h, data, children[0], parentOffset, parentSequence, pages, owned);
      var more := owned + Among(Offsets(first));
      var rest := ReadAreTrees(h, data, children[1..], level, parentOffset, parentSequence, pages, more);
      hide Free;
      trees := [first] + rest;
      assert trees[1..] == rest && Roots(trees) == [first.r] + Roots(rest) == children;
      FreeAppend(Offsets(first), OffsetsAll(rest), pages, owned);
      assert more + Among(OffsetsAll(rest)) == owned + Among(OffsetsAll(trees));
    }
  }
}
