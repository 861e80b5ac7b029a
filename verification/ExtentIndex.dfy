/**
 * Extent-index pages of the hosted volume: 4096-byte pages of extents, or of references to lower
 * pages. Each page's summary is recomputed from its entries.
 */
module ExtentIndex {
  import opened Bytes
  import opened Outcomes

  const PAGE_BYTES: nat := 4096
  const PAGE_MAGIC: seq<byte> := [65, 83, 84, 88, 80, 71, 49, 0]
  const INDEX_PAGE_REGION: seq<byte> := Ascii("system/volume-extent-index")
  const RECORD_BYTES: nat := 75
  const INDEX_RECORD_BYTES: nat := RECORD_BYTES + 26 + PAGE_BYTES

  datatype Extent = Extent(start: nat, end: nat, physical: nat)
  datatype IndexReference = IndexReference(offset: nat, sequence: nat, checksum: seq<byte>,
                                           start: nat, end: nat, count: nat, level: nat)
  datatype Page = Page(summary: IndexReference, extents: seq<Extent>, children: seq<IndexReference>)

  // ---------------------------------------------------------------- references

  /** The summary conditions every decoded reference satisfies. */
  predicate SummaryOk(r: IndexReference) {
    8 <= r.offset && 0 < r.sequence && r.start < r.end && r.level < 64
    && 1 <= r.count <= r.end - r.start && Pow2(r.level) <= r.count
  }

  function ReadReference(raw: seq<byte>): IndexReference
    requires |raw| == 80
  {
    IndexReference(Le(raw[0..8]), Le(raw[8..16]), raw[16..48], Le(raw[48..56]), Le(raw[56..64]), Le(raw[64..72]),
                   raw[72])
  }

  function ParseReference(raw: seq<byte>): (r: Result<IndexReference>)
    ensures r.Accepted? ==> SummaryOk(r.value) && |r.value.checksum| == 32
  {
    var _ :- Check(|raw| == 80 && AllZero(raw[73..]));
    var r := ReadReference(raw);
    var _ :- Check(SummaryOk(r));
    Accepted(r)
  }

  predicate Fits(r: IndexReference) {
    r.offset <= U64_MAX && r.sequence <= U64_MAX && |r.checksum| == 32
    && r.start <= U64_MAX && r.end <= U64_MAX && r.count <= U64_MAX && r.level < 256
  }

  function EncodeReference(r: IndexReference): (s: seq<byte>)
    requires Fits(r)
    ensures |s| == 80
  {
    LeBytes(r.offset, 8) + LeBytes(r.sequence, 8) + r.checksum
    + LeBytes(r.start, 8) + LeBytes(r.end, 8) + LeBytes(r.count, 8) + [r.level] + Zeros(7)
  }

  lemma ReferenceRoundTrip(r: IndexReference)
    requires Fits(r)
    ensures ReadReference(EncodeReference(r)) == r && AllZero(EncodeReference(r)[73..])
  {
    hide Le, LeBytes, Radix;
    var raw := EncodeReference(r);
    RadixWidths();
    LeRoundTrip(r.offset, 8);
    LeRoundTrip(r.sequence, 8);
    LeRoundTrip(r.start, 8);
    LeRoundTrip(r.end, 8);
    LeRoundTrip(r.count, 8);
    assert raw[0..8] == LeBytes(r.offset, 8);
    assert raw[8..16] == LeBytes(r.sequence, 8);
    assert raw[16..48] == r.checksum;
    assert raw[48..56] == LeBytes(r.start, 8);
    assert raw[56..64] == LeBytes(r.end, 8);
    assert raw[64..72] == LeBytes(r.count, 8);
    assert raw[72] == r.level;
    assert raw[73..] == Zeros(7);
  }

  // ---------------------------------------------------------------- pages

  function PageLevel(payload: seq<byte>): nat
    requires |payload| == PAGE_BYTES
  {
    payload[8]
  }

  function PageCount(payload: seq<byte>): nat
    requires |payload| == PAGE_BYTES
  {
    Le(payload[12..14])
  }

  function Width(level: nat): nat {
    if level == 0 then 24 else 80
  }

  predicate FramingOk(payload: seq<byte>): (ok: bool)
    ensures ok ==> |payload| == PAGE_BYTES && PageLevel(payload) < 64
    ensures ok ==> (if PageLevel(payload) == 0 then 1 else 2) <= PageCount(payload)
  {
    && |payload| == PAGE_BYTES && payload[..8] == PAGE_MAGIC
    && AllZero(payload[9..12]) && AllZero(payload[14..16])
    && var level := PageLevel(payload);
    var count := PageCount(payload);
    && (if level == 0 then 1 else 2) <= count <= (PAGE_BYTES - 16) / Width(level)
    && level < 64 && AllZero(payload[16 + count * Width(level)..])
  }

  /** The i-th slot of a page. */
  function SlotAt(payload: seq<byte>, i: nat): (raw: seq<byte>)
    requires FramingOk(payload) && i < PageCount(payload)
    ensures |raw| == Width(PageLevel(payload))
  {
    var width := Width(PageLevel(payload));
    SlotBounds(PageCount(payload), width, i);
    payload[16 + i * width..16 + i * width + width]
  }

  lemma SlotBounds(count: nat, width: nat, i: nat)
    requires i < count && width > 0 && count <= (PAGE_BYTES - 16) / width
    ensures 16 + i * width + width <= PAGE_BYTES
  {
    assert (i + 1) * width <= count * width;
    assert count * width <= (PAGE_BYTES - 16) / width * width <= PAGE_BYTES - 16;
  }

  function ExtentAt(payload: seq<byte>, i: nat): Extent
    requires FramingOk(payload) && i < PageCount(payload) && PageLevel(payload) == 0
  {
    var raw := SlotAt(payload, i);
    Extent(Le(raw[0..8]), Le(raw[8..16]), Le(raw[16..24]))
  }

  function ChildAt(payload: seq<byte>, i: nat): (r: Result<IndexReference>)
    requires FramingOk(payload) && i < PageCount(payload) && PageLevel(payload) > 0
    ensures r.Accepted? ==> SummaryOk(r.value)
  {
    ParseReference(SlotAt(payload, i))
  }

  /** A child record lies wholly before its parent and has a smaller sequence. */
  predicate Precedes(r: IndexReference, offset: nat, sequence: nat) {
    r.offset + INDEX_RECORD_BYTES <= offset && r.sequence < sequence
  }

  predicate ExtentOk(e: Extent, offset: nat) {
    e.start < e.end && 8 <= e.physical && e.physical + e.end - e.start <= offset
  }

  /** One slot passes its own checks. */
  predicate EntryOk(payload: seq<byte>, offset: nat, sequence: nat, i: nat)
    requires FramingOk(payload) && i < PageCount(payload)
  {
    if PageLevel(payload) == 0 then ExtentOk(ExtentAt(payload, i), offset)
    else
      var child := ChildAt(payload, i);
      child.Accepted? && Precedes(child.value, offset, sequence) && child.value.level + 1 == PageLevel(payload)
  }

  /** Logical range and number of extents below a slot. */
  function RangeAt(payload: seq<byte>, i: nat): (nat, nat, nat)
    requires FramingOk(payload) && i < PageCount(payload)
  {
    if PageLevel(payload) == 0 then
      var e := ExtentAt(payload, i); (e.start, e.end, 1)
    else
      match ChildAt(payload, i)
      case Accepted(c) => (c.start, c.end, c.count)
      case Rejected => (0, 0, 0)
  }

  /** Slots [0, end) pass their checks and do not overlap. */
  predicate EntriesOk(payload: seq<byte>, offset: nat, sequence: nat, end: nat)
    requires FramingOk(payload) && end <= PageCount(payload)
  {
    && (forall i :: 0 <= i < end ==> EntryOk(payload, offset, sequence, i))
    && (forall i :: 1 <= i < end ==> RangeAt(payload, i - 1).1 <= RangeAt(payload, i).0)
  }

  function TotalUpTo(payload: seq<byte>, end: nat): nat
    requires FramingOk(payload) && end <= PageCount(payload)
  {
    if end == 0 then 0 else TotalUpTo(payload, end - 1) + RangeAt(payload, end - 1).2
  }

  function Extents(payload: seq<byte>): (extents: seq<Extent>)
    requires FramingOk(payload)
  {
    if PageLevel(payload) == 0
    then seq(PageCount(payload), i requires 0 <= i < PageCount(payload) => ExtentAt(payload, i))
    else []
  }

  function Children(payload: seq<byte>, offset: nat, sequence: nat): (children: seq<IndexReference>)
    requires FramingOk(payload) && EntriesOk(payload, offset, sequence, PageCount(payload))
  {
    if PageLevel(payload) == 0 then []
    else seq(PageCount(payload),
             i requires 0 <= i < PageCount(payload) =>
               assert EntryOk(payload, offset, sequence, i); ChildAt(payload, i).value)
  }

  function Summary(payload: seq<byte>, offset: nat, sequence: nat, checksum: seq<byte>): IndexReference
    requires FramingOk(payload)
  {
    var count := PageCount(payload);
    IndexReference(offset, sequence, checksum, RangeAt(payload, 0).0, RangeAt(payload, count - 1).1,
                   TotalUpTo(payload, count), PageLevel(payload))
  }

  /** What index_page returns: the recomputed summary goes through the reference codec. */
  function IndexPage(payload: seq<byte>, offset: nat, sequence: nat, checksum: seq<byte>): (r: Result<Page>)
  {
    var _ :- Check(FramingOk(payload));
    var _ :- Check(EntriesOk(payload, offset, sequence, PageCount(payload)));
    var summary := Summary(payload, offset, sequence, checksum);
    var reference :- ParseReference(if Fits(summary) then EncodeReference(summary) else []);
    Accepted(Page(reference, Extents(payload), Children(payload, offset, sequence)))
  }

  // ---------------------------------------------------------------- the summary always re-encodes

  lemma LeU64(s: seq<byte>)
    requires |s| == 8
    ensures Le(s) <= U64_MAX
  {
    LeBound(s);
    RadixWidths();
  }

  /** One good slot covers a non-empty 64-bit range with at least 2^(level-1) extents, at most its length. */
  lemma RangeOk(payload: seq<byte>, offset: nat, sequence: nat, i: nat)
    requires FramingOk(payload) && i < PageCount(payload) && EntryOk(payload, offset, sequence, i)
    ensures var (start, end, count) := RangeAt(payload, i); var level := PageLevel(payload);
            start < end <= U64_MAX && 1 <= count <= end - start && (level > 0 ==> Pow2(level - 1) <= count)
  {
    hide FramingOk, Le, Pow2;
    var raw := SlotAt(payload, i);
    if PageLevel(payload) == 0 {
      LeU64(raw[8..16]);
    } else {
      LeU64(raw[56..64]);
    }
  }

  lemma {:induction false} TotalsGrow(payload: seq<byte>, offset: nat, sequence: nat, end: nat)
    requires FramingOk(payload) && 1 <= end <= PageCount(payload) && EntriesOk(payload, offset, sequence, end)
    ensures RangeAt(payload, 0).0 < RangeAt(payload, end - 1).1 <= U64_MAX
    ensures 1 <= TotalUpTo(payload, end) <= RangeAt(payload, end - 1).1 - RangeAt(payload, 0).0
    ensures var level := PageLevel(payload); level > 0 ==> end * Pow2(level - 1) <= TotalUpTo(payload, end)
  {
    hide FramingOk, EntryOk, RangeAt, Pow2, PageLevel, PageCount;
    RangeOk(payload, offset, sequence, end - 1);
    if end > 1 {
      TotalsGrow(payload, offset, sequence, end - 1);
      assert RangeAt(payload, end - 2).1 <= RangeAt(payload, end - 1).0;
      if PageLevel(payload) > 0 { OneMore(end, Pow2(PageLevel(payload) - 1)); }
    }
  }

  lemma OneMore(n: nat, m: nat)
    requires n > 0
    ensures n * m == (n - 1) * m + m
  {}

  /** A page at some level has two children or one extent, hence at least 2^level extents. */
  lemma PowerBound(level: nat, count: nat, total: nat)
    requires (if level == 0 then 1 else 2) <= count && 1 <= total
    requires level > 0 ==> count * Pow2(level - 1) <= total
    ensures Pow2(level) <= total
  {
    if level > 0 {
      assert 2 * Pow2(level - 1) <= count * Pow2(level - 1);
    }
  }

  /**
   * Page arithmetic: a page that passes framing, bounds and ordering satisfies
   * 2^level <= count <= end - start < 2^64, so its recomputed summary always encodes, decodes to
   * itself, and passes the reference checks: the last check of index_page never rejects.
   */
  lemma SummaryNeverRejects(payload: seq<byte>, offset: nat, sequence: nat, checksum: seq<byte>)
    requires 8 <= offset <= U64_MAX && 0 < sequence <= U64_MAX && |checksum| == 32
    requires FramingOk(payload) && EntriesOk(payload, offset, sequence, PageCount(payload))
    ensures var s := Summary(payload, offset, sequence, checksum);
            && Pow2(s.level) <= s.count <= s.end - s.start <= U64_MAX
            && Fits(s) && IndexPage(payload, offset, sequence, checksum)
                          == Accepted(Page(s, Extents(payload), Children(payload, offset, sequence)))
  {
    hide FramingOk, EntriesOk, RangeAt, EncodeReference, ReadReference, Extents, Children, TotalUpTo,
         PageLevel, PageCount, AllZero, Pow2;
    TotalsGrow(payload, offset, sequence, PageCount(payload));
    var s := Summary(payload, offset, sequence, checksum);
    PowerBound(PageLevel(payload), PageCount(payload), s.count);
    RangeOkStart(payload, offset, sequence);
    ReferenceRoundTrip(s);
  }

  lemma RangeOkStart(payload: seq<byte>, offset: nat, sequence: nat)
    requires FramingOk(payload) && EntriesOk(payload, offset, sequence, PageCount(payload))
    ensures RangeAt(payload, 0).0 <= U64_MAX
  {
    RangeOk(payload, offset, sequence, 0);
  }

  // ---------------------------------------------------------------- the source's loop

  lemma EntryChild(payload: seq<byte>, offset: nat, sequence: nat, i: nat)
    requires FramingOk(payload) && i < PageCount(payload) && EntryOk(payload, offset, sequence, i)
             && PageLevel(payload) > 0
    ensures ChildAt(payload, i).Accepted?
  {}

  /** The slot loop of index_page. */
  method ReadIndexPage(payload: seq<byte>, offset: nat, sequence: nat, checksum: seq<byte>) returns (r: Result<Page>)
    ensures r == IndexPage(payload, offset, sequence, checksum)
  {
    hide FramingOk, ParseReference, EncodeReference, Fits, EntryOk, RangeAt, ExtentAt, ChildAt, PageLevel, PageCount;
    if !FramingOk(payload) { return Rejected; }
    var level, count := PageLevel(payload), PageCount(payload);
    var extents: seq<Extent>, children: seq<IndexReference> := [], [];
    var previousEnd: Option<nat>, total, index := None, 0, 0;
    while index < count
      invariant 0 <= index <= count
      invariant EntriesOk(payload, offset, sequence, index)
      invariant total == TotalUpTo(payload, index)
      invariant previousEnd == if index == 0 then None else Some(RangeAt(payload, index - 1).1)
      invariant level == 0 ==> children == [] && extents == Extents(payload)[..index]
      invariant level > 0 ==> extents == [] && |children| == index
      invariant level > 0 ==> forall i :: 0 <= i < index ==> ChildAt(payload, i) == Accepted(children[i])
    {
      if !EntryOk(payload, offset, sequence, index) { return Rejected; }
      var range := RangeAt(payload, index);
      total := total + range.2;
      if level == 0 {
        extents := extents + [ExtentAt(payload, index)];
      } else {
        EntryChild(payload, offset, sequence, index);
        children := children + [ChildAt(payload, index).value];
      }
      if previousEnd.Some? && range.0 < previousEnd.value { return Rejected; }
      previousEnd := Some(range.1);
      index := index + 1;
    }
    assert extents == Extents(payload);
    assert children == Children(payload, offset, sequence);
    var summary := IndexReference(offset, sequence, checksum, RangeAt(payload, 0).0, previousEnd.value, total, level);
    var reference := ParseReference(if Fits(summary) then EncodeReference(summary) else []);
    if reference.Rejected? { return Rejected; }
    return Accepted(Page(reference.value, extents, children));
  }
}
