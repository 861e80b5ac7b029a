/**
 * Commit catalogues of the hosted volume. A paged catalogue names each region's root extent page; a
 * legacy one lists extents inline. Both are checked against the replayed namespace, and an accepted
 * catalogue rebuilds exactly that namespace.
 */
module VolumeCheckpoint {
  import opened Bytes
  import opened Outcomes
  import opened Objects
  import opened ExtentIndex

  const RECORD_MAGIC: seq<byte> := [65, 83, 84, 82, 69, 71, 49, 0]
  const PAGED_MAGIC: seq<byte> := [65, 83, 84, 77, 65, 80, 50, 0]
  const LEGACY_MAGIC: seq<byte> := [65, 83, 84, 77, 65, 80, 49, 0]
  const MAX_COMMIT_SNAPSHOT_BYTES: nat := 16 * 1024 * 1024

  type Regions = map<seq<byte>, seq<byte>>

  // ---------------------------------------------------------------- region names

  predicate Continuation(s: seq<byte>, i: nat) {
    i < |s| && 0x80 <= s[i] <= 0xBF
  }

  /** Length of the well-formed UTF-8 sequence at the front of s, or 0. */
  function Utf8Length(s: seq<byte>): (n: nat)
    ensures n <= |s|
  {
    if s == [] then 0
    else if s[0] < 0x80 then 1
    else if 0xC2 <= s[0] <= 0xDF && Continuation(s, 1) then 2
    else if 0xE0 <= s[0] <= 0xEF && Continuation(s, 1) && Continuation(s, 2)
            && (s[0] == 0xE0 ==> s[1] >= 0xA0) && (s[0] == 0xED ==> s[1] < 0xA0) then 3
    else if 0xF0 <= s[0] <= 0xF4 && Continuation(s, 1) && Continuation(s, 2) && Continuation(s, 3)
            && (s[0] == 0xF0 ==> s[1] >= 0x90) && (s[0] == 0xF4 ==> s[1] < 0x90) then 4
    else 0
  }

  predicate ValidUtf8(s: seq<byte>)
    decreases |s|
  {
    s == [] || (Utf8Length(s) > 0 && ValidUtf8(s[Utf8Length(s)..]))
  }

  /** name.split("/") */
  function Parts(s: seq<byte>, current: seq<byte>): seq<seq<byte>> {
    if s == [] then [current]
    else if s[0] == 0x2F then [current] + Parts(s[1..], [])
    else Parts(s[1..], current + [s[0]])
  }

  predicate ControlAt(s: seq<byte>, i: nat)
    requires i < |s|
  {
    s[i] < 0x20 || s[i] == 0x7F || (s[i] == 0xC2 && i + 1 < |s| && s[i + 1] < 0xA0)
  }

  /** What volume_region_name accepts; the name is identified with its UTF-8 bytes. */
  predicate ValidRegionName(raw: seq<byte>) {
    && ValidUtf8(raw) && 0 < |raw| <= 512
    && 0x5C !in raw
    && (forall part :: part in Parts(raw, []) ==> part != [] && part != [0x2E] && part != [0x2E, 0x2E])
    && (forall i :: 0 <= i < |raw| ==> !ControlAt(raw, i))
  }

  // ---------------------------------------------------------------- the extent tree

  /** The record of an index page: everything indexed_extents checks before decoding the page. */
  predicate EnvelopeOk(h: Hash, data: seq<byte>, r: IndexReference): (ok: bool)
    ensures ok ==> r.offset + INDEX_RECORD_BYTES <= |data|
  {
    && r.offset + INDEX_RECORD_BYTES <= |data|
    && var record := data[r.offset..r.offset + INDEX_RECORD_BYTES];
    && record[..8] == RECORD_MAGIC
    && Le(record[8..16]) == INDEX_RECORD_BYTES && Le(record[16..24]) == r.sequence
    && record[24] == 9 && Le(record[25..27]) == |INDEX_PAGE_REGION|
    && Le(record[27..35]) == 0 && Le(record[35..43]) == PAGE_BYTES
    && record[43..75] == r.checksum && record[75..101] == INDEX_PAGE_REGION
    && h(record[16..43] + INDEX_PAGE_REGION + record[101..]) == r.checksum
  }

  function PagePayload(data: seq<byte>, r: IndexReference): seq<byte>
    requires r.offset + INDEX_RECORD_BYTES <= |data|
  {
    data[r.offset + 101..r.offset + INDEX_RECORD_BYTES]
  }

  /** The decoded page of a reference, when its record and its summary agree with the reference. */
  function PageOf(h: Hash, data: seq<byte>, r: IndexReference): (page: Result<Page>)
    ensures page.Accepted? ==> r.offset + INDEX_RECORD_BYTES <= |data|
  {
    var _ :- Check(EnvelopeOk(h, data, r));
    var page :- IndexPage(PagePayload(data, r), r.offset, r.sequence, r.checksum);
    var _ :- Check(page.summary == r);
    Accepted(page)
  }

  lemma PageLevels(h: Hash, data: seq<byte>, r: IndexReference)
    requires PageOf(h, data, r).Accepted?
    ensures var page := PageOf(h, data, r).value; var payload := PagePayload(data, r);
            && FramingOk(payload) && PageLevel(payload) == r.level
            && EntriesOk(payload, r.offset, r.sequence, PageCount(payload))
            && page.extents == Extents(payload) && page.children == Children(payload, r.offset, r.sequence)
            && r == Summary(payload, r.offset, r.sequence, r.checksum)
            && (r.level == 0 ==> page.children == [])
            && (forall i :: 0 <= i < |page.children| ==> page.children[i].level + 1 == r.level
                                                         && SummaryOk(page.children[i]))
  {
    hide FramingOk, EnvelopeOk, EncodeReference, ReadReference;
    var payload := PagePayload(data, r);
    var summary := Summary(payload, r.offset, r.sequence, r.checksum);
    assert Fits(summary);
    ReferenceRoundTrip(summary);
    var page := PageOf(h, data, r).value;
    forall i | 0 <= i < |page.children| ensures page.children[i].level + 1 == r.level && SummaryOk(page.children[i]) {
      assert EntryOk(payload, r.offset, r.sequence, i);
    }
  }

  /** All extents below a reference, in page order, with the pages used so far. */
  function IndexedExtents(h: Hash, data: seq<byte>, r: IndexReference, parentOffset: nat, parentSequence: nat,
                          pages: set<nat>, owned: set<nat>): Result<(seq<Extent>, set<nat>)>
    decreases r.level, 0
  {
    var _ :- Check(Precedes(r, parentOffset, parentSequence));
    var _ :- Check(r.offset in pages && r.offset !in owned);
    var page :- PageOf(h, data, r);
    PageLevels(h, data, r);
    if r.level == 0 then Accepted((page.extents, owned + {r.offset}))
    else IndexedChildren(h, data, page.children, r.level - 1, r.offset, r.sequence, pages, owned + {r.offset})
  }

  function IndexedChildren(h: Hash, data: seq<byte>, children: seq<IndexReference>, level: nat, parentOffset: nat,
                           parentSequence: nat, pages: set<nat>, owned: set<nat>): Result<(seq<Extent>, set<nat>)>
    requires forall i :: 0 <= i < |children| ==> children[i].level == level
    decreases level, 1 + |children|
  {
    if children == [] then Accepted(([], owned))
    else
      var first :- IndexedExtents(h, data, children[0], parentOffset, parentSequence, pages, owned);
      var rest :- IndexedChildren(h, data, children[1..], level, parentOffset, parentSequence, pages, first.1);
      Accepted((first.0 + rest.0, rest.1))
  }

  /** `extents` are non-empty, ordered and disjoint, and cover start to end as a hull. */
  ghost predicate Spans(extents: seq<Extent>, start: nat, end: nat) {
    && extents != [] && extents[0].start == start && extents[|extents| - 1].end == end
    && (forall i :: 0 <= i < |extents| ==> extents[i].start < extents[i].end)
    && (forall i :: 1 <= i < |extents| ==> extents[i - 1].end <= extents[i].start)
  }

  /** Every extent's payload lies in the file body before `limit`. */
  ghost predicate Before(extents: seq<Extent>, limit: nat) {
    forall i :: 0 <= i < |extents| ==>
      8 <= extents[i].physical && extents[i].physical + extents[i].end - extents[i].start <= limit
  }

  lemma SpansJoin(a: seq<Extent>, b: seq<Extent>, s: nat, m: nat, m': nat, e: nat)
    requires Spans(a, s, m) && Spans(b, m', e) && m <= m'
    ensures Spans(a + b, s, e)
  {}

  lemma LeafSpans(payload: seq<byte>, offset: nat, sequence: nat)
    requires FramingOk(payload) && PageLevel(payload) == 0 && EntriesOk(payload, offset, sequence, PageCount(payload))
    ensures var extents := Extents(payload); var count := PageCount(payload);
            && |extents| == count == TotalUpTo(payload, count)
            && Spans(extents, RangeAt(payload, 0).0, RangeAt(payload, count - 1).1) && Before(extents, offset)
  {
    hide FramingOk, Le;
    var extents := Extents(payload);
    forall i | 0 <= i < |extents| ensures ExtentOk(extents[i], offset) {
      assert EntryOk(payload, offset, sequence, i);
    }
    forall i | 1 <= i < |extents| ensures extents[i - 1].end <= extents[i].start {
      assert RangeAt(payload, i - 1).1 <= RangeAt(payload, i).0;
    }
    LeafTotal(payload, PageCount(payload));
  }

  lemma {:induction false} LeafTotal(payload: seq<byte>, end: nat)
    requires FramingOk(payload) && PageLevel(payload) == 0 && end <= PageCount(payload)
    ensures TotalUpTo(payload, end) == end
  {
    hide FramingOk, ExtentAt;
    if end > 0 { LeafTotal(payload, end - 1); }
  }

  /** Consecutive children i.. of a page: ordered ranges, and the counts still to come. */
  ghost predicate ChildRun(children: seq<IndexReference>, start: nat, end: nat) {
    && children != [] && children[0].start == start && children[|children| - 1].end == end
    && (forall i :: 1 <= i < |children| ==> children[i - 1].end <= children[i].start)
  }

  function CountSum(children: seq<IndexReference>): nat {
    if children == [] then 0 else children[0].count + CountSum(children[1..])
  }

  /**
   * The extent tree flattens to exactly reference.count strictly ordered disjoint extents spanning
   * reference.start to reference.end.
   */
  lemma {:induction false} ExtentsSpan(h: Hash, data: seq<byte>, r: IndexReference, parentOffset: nat,
                                       parentSequence: nat, pages: set<nat>, owned: set<nat>)
    requires IndexedExtents(h, data, r, parentOffset, parentSequence, pages, owned).Accepted?
    ensures var (extents, _) := IndexedExtents(h, data, r, parentOffset, parentSequence, pages, owned).value;
            |extents| == r.count && Spans(extents, r.start, r.end) && Before(extents, parentOffset)
    decreases r.level, 0
  {
    hide FramingOk, EntriesOk, EnvelopeOk, PageOf, Spans, Before, Extents, Children, RangeAt, TotalUpTo;
    PageLevels(h, data, r);
    var page := PageOf(h, data, r).value;
    var payload := PagePayload(data, r);
    var (extents, _) := IndexedExtents(h, data, r, parentOffset, parentSequence, pages, owned).value;
    if r.level == 0 {
      LeafSpans(payload, r.offset, r.sequence);
    } else {
      BranchRun(payload, r.offset, r.sequence);
      ChildrenSpan(h, data, page.children, r.level - 1, r.offset, r.sequence, pages, owned + {r.offset}, r.start,
                   r.end);
    }
    BeforeWeaken(extents, r.offset, parentOffset);
  }

  lemma BeforeWeaken(extents: seq<Extent>, a: nat, b: nat)
    requires Before(extents, a) && a <= b
    ensures Before(extents, b)
  {}

  lemma BranchRun(payload: seq<byte>, offset: nat, sequence: nat)
    requires FramingOk(payload) && PageLevel(payload) > 0 && EntriesOk(payload, offset, sequence, PageCount(payload))
    ensures var children := Children(payload, offset, sequence); var count := PageCount(payload);
            && ChildRun(children, RangeAt(payload, 0).0, RangeAt(payload, count - 1).1)
            && CountSum(children) == TotalUpTo(payload, count)
  {
    hide FramingOk, Le;
    var children := Children(payload, offset, sequence);
    forall i | 0 <= i < |children|
      ensures RangeAt(payload, i) == (children[i].start, children[i].end, children[i].count)
    {
      assert EntryOk(payload, offset, sequence, i);
    }
    forall i | 1 <= i < |children| ensures children[i - 1].end <= children[i].start {
      assert RangeAt(payload, i - 1).1 <= RangeAt(payload, i).0;
    }
    BranchTotal(payload, offset, sequence, children, PageCount(payload));
    assert children[..PageCount(payload)] == children;
  }

  lemma {:induction false} BranchTotal(payload: seq<byte>, offset: nat, sequence: nat, children: seq<IndexReference>,
                                       end: nat)
    requires FramingOk(payload) && end <= PageCount(payload) == |children|
    requires forall i :: 0 <= i < |children| ==> RangeAt(payload, i).2 == children[i].count
    ensures CountSum(children[..end]) == TotalUpTo(payload, end)
  {
    hide FramingOk, RangeAt;
    if end > 0 {
      BranchTotal(payload, offset, sequence, children, end - 1);
      assert children[..end] == children[..end - 1] + [children[end - 1]];
      CountSumAppend(children[..end - 1], children[end - 1]);
    }
  }

  lemma {:induction false} CountSumAppend(children: seq<IndexReference>, c: IndexReference)
    ensures CountSum(children + [c]) == CountSum(children) + c.count
  {
    if children != [] {
      assert (children + [c])[1..] == children[1..] + [c];
      CountSumAppend(children[1..], c);
    }
  }

  lemma {:induction false} ChildrenSpan(h: Hash, data: seq<byte>, children: seq<IndexReference>, level: nat,
                                        parentOffset: nat, parentSequence: nat, pages: set<nat>, owned: set<nat>,
                                        start: nat, end: nat)
    requires forall i :: 0 <= i < |children| ==> children[i].level == level
    requires ChildRun(children, start, end)
    requires IndexedChildren(h, data, children, level, parentOffset, parentSequence, pages, owned).Accepted?
    ensures var (extents, _) :=
            IndexedChildren(h, data, children, level, parentOffset, parentSequence, pages, owned).value;
            |extents| == CountSum(children) && Spans(extents, start, end) && Before(extents, parentOffset)
    decreases level, 1 + |children|
  {
    hide IndexedExtents, Spans, Before;
    var first := IndexedExtents(h, data, children[0], parentOffset, parentSequence, pages, owned).value;
    ExtentsSpan(h, data, children[0], parentOffset, parentSequence, pages, owned);
    var rest := children[1..];
    if rest == [] {
      assert first.0 + [] == first.0;
    } else {
      ChildrenSpan(h, data, rest, level, parentOffset, parentSequence, pages, first.1, rest[0].start, end);
      var tail := IndexedChildren(h, data, rest, level, parentOffset, parentSequence, pages, first.1).value;
      SpansJoin(first.0, tail.0, start, children[0].end, rest[0].start, end);
      BeforeJoin(first.0, tail.0, parentOffset);
    }
  }

  lemma BeforeJoin(a: seq<Extent>, b: seq<Extent>, limit: nat)
    requires Before(a, limit) && Before(b, limit)
    ensures Before(a + b, limit)
  {}

  // ---------------------------------------------------------------- regions and their extents

  /** The region agrees with the extents from `from` on: payload bytes equal, holes and tail zero. */
  predicate RegionMatches(region: seq<byte>, extents: seq<Extent>, data: seq<byte>, from: nat) {
    if extents == [] then from <= |region| && AllZero(region[from..])
    else
      var e := extents[0];
      && from <= e.start <= e.end <= |region| && AllZero(region[from..e.start])
      && e.physical + e.end - e.start <= |data|
      && region[e.start..e.end] == data[e.physical..e.physical + e.end - e.start]
      && RegionMatches(region, extents[1..], data, e.end)
  }

  /** One extent's payload copied into a region. */
  function Place(region: seq<byte>, e: Extent, data: seq<byte>): (r: seq<byte>)
    ensures |r| == |region|
  {
    if e.start <= e.end <= |region| && e.physical + e.end - e.start <= |data|
    then region[..e.start] + data[e.physical..e.physical + e.end - e.start] + region[e.end..]
    else region
  }

  /** A region built from its extents. */
  function Overlay(region: seq<byte>, extents: seq<Extent>, data: seq<byte>): seq<byte>
    decreases |extents|
  {
    if extents == [] then region else Overlay(Place(region, extents[0], data), extents[1..], data)
  }

  lemma {:induction false} OverlayMatches(region: seq<byte>, base: seq<byte>, extents: seq<Extent>, data: seq<byte>,
                                          from: nat)
    requires RegionMatches(region, extents, data, from) && |base| == |region| && from <= |region|
    requires base[..from] == region[..from] && AllZero(base[from..])
    ensures Overlay(base, extents, data) == region
    decreases |extents|
  {
    if extents == [] {
      assert base[from..] == region[from..];
      assert base == base[..from] + base[from..] == region[..from] + region[from..] == region;
    } else {
      var e := extents[0];
      var next := Place(base, e, data);
      assert base[from..][..e.start - from] == base[from..e.start];
      assert base[from..e.start] == region[from..e.start];
      assert region[..e.end] == region[..from] + region[from..e.start] + region[e.start..e.end];
      assert base[..e.start] == base[..from] + base[from..e.start];
      assert next[..e.end] == base[..e.start] + data[e.physical..e.physical + e.end - e.start];
      assert next[e.end..] == base[e.end..] == base[from..][e.end - from..];
      OverlayMatches(region, next, extents[1..], data, e.end);
    }
  }

  /** A region that passed the checks is its extents over zero-filled bytes. */
  lemma RegionIsRebuilt(region: seq<byte>, extents: seq<Extent>, data: seq<byte>)
    requires RegionMatches(region, extents, data, 0)
    ensures Overlay(Zeros(|region|), extents, data) == region
  {
    assert Zeros(|region|)[0..] == Zeros(|region|);
    OverlayMatches(region, Zeros(|region|), extents, data, 0);
  }

  // ---------------------------------------------------------------- catalogues

  /** A catalogued region with the extents the catalogue gives it. */
  datatype Entry = Entry(name: seq<byte>, length: nat, extents: seq<Extent>)

  /** Cursor.take(n) at an offset: the bytes, when they are there. */
  function Take(payload: seq<byte>, at: nat, n: nat): Result<seq<byte>> {
    if at + n <= |payload| then Accepted(payload[at..at + n]) else Rejected
  }

  function Names(entries: seq<Entry>): set<seq<byte>> {
    set e | e in entries :: e.name
  }

  predicate RegionOk(regions: Regions, name: seq<byte>, length: nat) {
    ValidRegionName(name) && name in regions && |regions[name]| == length
  }

  datatype Located = Located(name: seq<byte>, length: nat, flag: nat, next: nat)

  /** The fixed part of one paged region entry. */
  function ReadPagedEntry(payload: seq<byte>, at: nat): Result<Located> {
    var nameLength :- ReadInteger(payload, at, 2);
    var name :- Take(payload, at + 2, nameLength);
    var length :- ReadInteger(payload, at + 2 + nameLength, 8);
    var flag :- ReadInteger(payload, at + 2 + nameLength + 8, 1);
    Accepted(Located(name, length, flag, at + 2 + nameLength + 9))
  }

  /** The extents a paged entry's flag and root reference give its region. */
  function EntryExtents(h: Hash, data: seq<byte>, payload: seq<byte>, e: Located, offset: nat, sequence: nat,
                        pages: set<nat>, owned: set<nat>): Result<(seq<Extent>, set<nat>)> {
    if e.flag == 0 then Accepted(([], owned))
    else PagedExtents(h, data, payload, e.next, e.length, offset, sequence, pages, owned)
  }

  /** The paged catalogue from a cursor position: `left` regions to go. */
  function PagedEntries(h: Hash, data: seq<byte>, payload: seq<byte>, at: nat, left: nat, previous: Option<seq<byte>>,
                        offset: nat, sequence: nat, regions: Regions, pages: set<nat>, owned: set<nat>)
    : Result<seq<Entry>>
    decreases left
  {
    if left == 0 then
      var _ :- Check(at == |payload|);
      Accepted([])
    else
      var e :- ReadPagedEntry(payload, at);
      var _ :- Check(previous.Some? ==> Less(previous.value, e.name));
      var _ :- Check(RegionOk(regions, e.name, e.length) && e.flag <= 1);
      var found :- EntryExtents(h, data, payload, e, offset, sequence, pages, owned);
      var _ :- Check(RegionMatches(regions[e.name], found.0, data, 0));
      var rest :- PagedEntries(h, data, payload, e.next + 80 * e.flag, left - 1, Some(e.name), offset, sequence,
                               regions, pages, found.1);
      Accepted([Entry(e.name, e.length, found.0)] + rest)
  }

  function PagedExtents(h: Hash, data: seq<byte>, payload: seq<byte>, at: nat, length: nat, offset: nat, sequence: nat,
                        pages: set<nat>, owned: set<nat>): Result<(seq<Extent>, set<nat>)>
  {
    var raw :- Take(payload, at, 80);
    var root :- ParseReference(raw);
    var _ :- Check(root.end <= length);
    IndexedExtents(h, data, root, offset, sequence, pages, owned)
  }

  /** validate_paged_checkpoint, returning the catalogue it accepted. */
  function PagedCatalogue(h: Hash, data: seq<byte>, payload: seq<byte>, offset: nat, sequence: nat,
                          regions: Regions, pages: set<nat>): Result<seq<Entry>>
  {
    var _ :- Check(|payload| <= MAX_COMMIT_SNAPSHOT_BYTES);
    var magic :- Take(payload, 0, 8);
    var _ :- Check(magic == PAGED_MAGIC);
    var count :- ReadInteger(payload, 8, 4);
    var entries :- PagedEntries(h, data, payload, 12, count, None, offset, sequence, regions, pages, {});
    var _ :- Check(Names(entries) == regions.Keys);
    Accepted(entries)
  }

  /** Inline extents of a legacy region: `left` to go. */
  function LegacyExtents(payload: seq<byte>, at: nat, left: nat, length: nat, commitOffset: nat, previousEnd: nat)
    : Result<seq<Extent>>
    decreases left
  {
    if left == 0 then Accepted([])
    else
      var start :- ReadInteger(payload, at, 8);
      var end :- ReadInteger(payload, at + 8, 8);
      var physical :- ReadInteger(payload, at + 16, 8);
      var _ :- Check(previousEnd <= start < end <= length);
      var _ :- Check(physical <= commitOffset && end - start <= commitOffset - physical);
      var rest :- LegacyExtents(payload, at + 24, left - 1, length, commitOffset, end);
      Accepted([Extent(start, end, physical)] + rest)
  }

  datatype LegacyRegion = LegacyRegion(name: seq<byte>, length: nat, count: nat, next: nat)

  /** The fixed part of one legacy region entry. */
  function ReadLegacyEntry(payload: seq<byte>, at: nat): Result<LegacyRegion> {
    var nameLength :- ReadInteger(payload, at, 2);
    var name :- Take(payload, at + 2, nameLength);
    var length :- ReadInteger(payload, at + 2 + nameLength, 8);
    var count :- ReadInteger(payload, at + 2 + nameLength + 8, 4);
    Accepted(LegacyRegion(name, length, count, at + 2 + nameLength + 12))
  }

  function LegacyEntries(data: seq<byte>, payload: seq<byte>, at: nat, left: nat, seen: set<seq<byte>>,
                         commitOffset: nat, regions: Regions): Result<seq<Entry>>
    decreases left
  {
    if left == 0 then
      var _ :- Check(at == |payload|);
      Accepted([])
    else
      var e :- ReadLegacyEntry(payload, at);
      var _ :- Check(e.name !in seen && RegionOk(regions, e.name, e.length));
      var extents :- LegacyExtents(payload, e.next, e.count, e.length, commitOffset, 0);
      var _ :- Check(RegionMatches(regions[e.name], extents, data, 0));
      var rest :- LegacyEntries(data, payload, e.next + 24 * e.count, left - 1, seen + {e.name}, commitOffset, regions);
      Accepted([Entry(e.name, e.length, extents)] + rest)
  }

  /** validate_legacy_snapshot, returning the catalogue it accepted. */
  function LegacyCatalogue(data: seq<byte>, payload: seq<byte>, commitOffset: nat, regions: Regions): Result<seq<Entry>>
  {
    var _ :- Check(12 <= |payload| <= MAX_COMMIT_SNAPSHOT_BYTES);
    var magic :- Take(payload, 0, 8);
    var _ :- Check(magic == LEGACY_MAGIC);
    var count :- ReadInteger(payload, 8, 4);
    var entries :- LegacyEntries(data, payload, 12, count, {}, commitOffset, regions);
    var _ :- Check(Names(entries) == regions.Keys);
    Accepted(entries)
  }

  predicate StartsWith(s: seq<byte>, prefix: seq<byte>) {
    |prefix| <= |s| && s[..|prefix|] == prefix
  }

  /** The catalogue check of a commit record; an empty payload carries no catalogue. */
  function Catalogue(h: Hash, data: seq<byte>, payload: seq<byte>, offset: nat, sequence: nat,
                     regions: Regions, pages: set<nat>): Result<seq<Entry>>
  {
    if StartsWith(payload, PAGED_MAGIC) then PagedCatalogue(h, data, payload, offset, sequence, regions, pages)
    else LegacyCatalogue(data, payload, offset, regions)
  }

  // ---------------------------------------------------------------- a catalogue rebuilds the namespace

  /** The namespace a catalogue describes, built from extents over zero-filled bytes only. */
  function Rebuild(entries: seq<Entry>, data: seq<byte>): Regions {
    if entries == [] then map[]
    else Rebuild(entries[1..], data)[entries[0].name := Overlay(Zeros(entries[0].length), entries[0].extents, data)]
  }

  ghost predicate EntriesAgree(entries: seq<Entry>, regions: Regions, data: seq<byte>) {
    forall i :: 0 <= i < |entries| ==>
      && entries[i].name in regions && entries[i].length == |regions[entries[i].name]|
      && RegionMatches(regions[entries[i].name], entries[i].extents, data, 0)
  }

  lemma {:induction false} PagedAgree(h: Hash, data: seq<byte>, payload: seq<byte>, at: nat, left: nat,
                                      previous: Option<seq<byte>>,
                                      offset: nat, sequence: nat, regions: Regions, pages: set<nat>, owned: set<nat>)
    requires PagedEntries(h, data, payload, at, left, previous, offset, sequence, regions, pages, owned).Accepted?
    ensures var entries := PagedEntries(h, data, payload, at, left, previous, offset, sequence, regions, pages,
                                        owned).value;
            && EntriesAgree(entries, regions, data) && |entries| == left
            && (forall i :: 1 <= i < |entries| ==> Less(entries[i - 1].name, entries[i].name))
            && (previous.Some? && entries != [] ==> Less(previous.value, entries[0].name))
    decreases left
  {
    hide RegionMatches, ValidRegionName, EntryExtents, Less, ReadPagedEntry;
    if left > 0 {
      var e := ReadPagedEntry(payload, at).value;
      var found := EntryExtents(h, data, payload, e, offset, sequence, pages, owned).value;
      PagedAgree(h, data, payload, e.next + 80 * e.flag, left - 1, Some(e.name), offset, sequence, regions, pages,
                 found.1);
      var rest := PagedEntries(h, data, payload, e.next + 80 * e.flag, left - 1, Some(e.name), offset, sequence,
                               regions, pages, found.1).value;
      assert PagedEntries(h, data, payload, at, left, previous, offset, sequence, regions, pages, owned).value ==
             [Entry(e.name, e.length, found.0)] + rest;
    }
  }

  lemma {:induction false} LegacyAgree(data: seq<byte>, payload: seq<byte>, at: nat, left: nat, seen: set<seq<byte>>,
                                       commitOffset: nat, regions: Regions)
    requires LegacyEntries(data, payload, at, left, seen, commitOffset, regions).Accepted?
    ensures var entries := LegacyEntries(data, payload, at, left, seen, commitOffset, regions).value;
            EntriesAgree(entries, regions, data) && |entries| == left
    decreases left
  {
    hide RegionMatches, ValidRegionName, LegacyExtents, ReadLegacyEntry;
    if left > 0 {
      var e := ReadLegacyEntry(payload, at).value;
      LegacyAgree(data, payload, e.next + 24 * e.count, left - 1, seen + {e.name}, commitOffset, regions);
    }
  }

  lemma {:induction false} AgreementRebuilds(entries: seq<Entry>, regions: Regions, data: seq<byte>)
    requires EntriesAgree(entries, regions, data)
    ensures var built := Rebuild(entries, data);
            && built.Keys == Names(entries)
            && forall name :: name in built ==> name in regions && built[name] == regions[name]
  {
    hide RegionMatches, Overlay;
    if entries != [] {
      assert EntriesAgree(entries[1..], regions, data) by {
        forall i | 0 <= i < |entries[1..]| ensures entries[1..][i] == entries[i + 1] {}
      }
      AgreementRebuilds(entries[1..], regions, data);
      RegionIsRebuilt(regions[entries[0].name], entries[0].extents, data);
      assert forall e :: e in entries <==> e == entries[0] || e in entries[1..];
    }
  }

  /**
   * Checkpoint refines replay: for every accepted catalogue, paged or legacy, building each region
   * from its extents over zero-filled bytes gives exactly the replayed namespace.
   */
  lemma CatalogueRebuildsNamespace(h: Hash, data: seq<byte>, payload: seq<byte>, offset: nat, sequence: nat,
                                   regions: Regions, pages: set<nat>)
    requires Catalogue(h, data, payload, offset, sequence, regions, pages).Accepted?
    ensures Rebuild(Catalogue(h, data, payload, offset, sequence, regions, pages).value, data) == regions
  {
    hide PagedEntries, LegacyEntries, Rebuild;
    var entries := Catalogue(h, data, payload, offset, sequence, regions, pages).value;
    var count := ReadInteger(payload, 8, 4).value;
    if StartsWith(payload, PAGED_MAGIC) {
      PagedAgree(h, data, payload, 12, count, None, offset, sequence, regions, pages, {});
    } else {
      LegacyAgree(data, payload, 12, count, {}, offset, regions);
    }
    AgreementRebuilds(entries, regions, data);
  }

  // ---------------------------------------------------------------- a catalogue only looks behind its commit

  lemma PageOfPrefix(h: Hash, data: seq<byte>, r: IndexReference, k: nat)
    requires r.offset + INDEX_RECORD_BYTES <= k <= |data|
    ensures PageOf(h, data[..k], r) == PageOf(h, data, r)
  {
    hide IndexPage;
    var end := r.offset + INDEX_RECORD_BYTES;
    assert data[..k][r.offset..end] == data[r.offset..end];
    assert data[..k][r.offset + 101..end] == data[r.offset + 101..end];
  }

  lemma {:induction false} ExtentsPrefix(h: Hash, data: seq<byte>, r: IndexReference, parentOffset: nat,
                                         parentSequence: nat, pages: set<nat>, owned: set<nat>, k: nat)
    requires parentOffset <= k <= |data|
    ensures IndexedExtents(h, data[..k], r, parentOffset, parentSequence, pages, owned)
            == IndexedExtents(h, data, r, parentOffset, parentSequence, pages, owned)
    decreases r.level, 0
  {
    hide PageOf;
    if Precedes(r, parentOffset, parentSequence) {
      PageOfPrefix(h, data, r, k);
      if PageOf(h, data, r).Accepted? {
        PageLevels(h, data, r);
        if r.level > 0 {
          ChildrenPrefix(h, data, PageOf(h, data, r).value.children, r.level - 1, r.offset, r.sequence, pages,
                         owned + {r.offset}, k);
        }
      }
    }
  }

  lemma {:induction false} ChildrenPrefix(h: Hash, data: seq<byte>, children: seq<IndexReference>, level: nat,
                                          parentOffset: nat, parentSequence: nat, pages: set<nat>, owned: set<nat>,
                                          k: nat)
    requires forall i :: 0 <= i < |children| ==> children[i].level == level
    requires parentOffset <= k <= |data|
    ensures IndexedChildren(h, data[..k], children, level, parentOffset, parentSequence, pages, owned)
            == IndexedChildren(h, data, children, level, parentOffset, parentSequence, pages, owned)
    decreases level, 1 + |children|
  {
    hide IndexedExtents;
    if children != [] {
      ExtentsPrefix(h, data, children[0], parentOffset, parentSequence, pages, owned, k);
      var first := IndexedExtents(h, data, children[0], parentOffset, parentSequence, pages, owned);
      if first.Accepted? {
        ChildrenPrefix(h, data, children[1..], level, parentOffset, parentSequence, pages, first.value.1, k);
      }
    }
  }

  lemma {:induction false} MatchesPrefix(region: seq<byte>, extents: seq<Extent>, data: seq<byte>, from: nat, k: nat)
    requires k <= |data|
    requires forall i :: 0 <= i < |extents| ==> extents[i].physical + extents[i].end - extents[i].start <= k
    ensures RegionMatches(region, extents, data[..k], from) == RegionMatches(region, extents, data, from)
    decreases |extents|
  {
    if extents != [] {
      var e := extents[0];
      if e.start <= e.end {
        var end := e.physical + e.end - e.start;
        assert data[..k][e.physical..end] == data[e.physical..end];
      }
      MatchesPrefix(region, extents[1..], data, e.end, k);
    }
  }

  lemma PagedExtentsPrefix(h: Hash, data: seq<byte>, payload: seq<byte>, at: nat, length: nat, offset: nat,
                           sequence: nat,
                           pages: set<nat>, owned: set<nat>, k: nat)
    requires offset <= k <= |data|
    ensures PagedExtents(h, data[..k], payload, at, length, offset, sequence, pages, owned)
            == PagedExtents(h, data, payload, at, length, offset, sequence, pages, owned)
    ensures var found := PagedExtents(h, data, payload, at, length, offset, sequence, pages, owned);
            found.Accepted? ==> Before(found.value.0, k)
  {
    hide IndexedExtents, ParseReference;
    var raw := Take(payload, at, 80);
    if raw.Accepted? && ParseReference(raw.value).Accepted? {
      var root := ParseReference(raw.value).value;
      ExtentsPrefix(h, data, root, offset, sequence, pages, owned, k);
      var found := IndexedExtents(h, data, root, offset, sequence, pages, owned);
      if found.Accepted? {
        ExtentsSpan(h, data, root, offset, sequence, pages, owned);
        BeforeWeaken(found.value.0, offset, k);
      }
    }
  }

  lemma {:induction false} PagedPrefix(h: Hash, data: seq<byte>, payload: seq<byte>, at: nat, left: nat,
                                       previous: Option<seq<byte>>,
                                       offset: nat, sequence: nat, regions: Regions, pages: set<nat>, owned: set<nat>,
                                       k: nat)
    requires offset <= k <= |data|
    ensures PagedEntries(h, data[..k], payload, at, left, previous, offset, sequence, regions, pages, owned)
            == PagedEntries(h, data, payload, at, left, previous, offset, sequence, regions, pages, owned)
    decreases left
  {
    hide RegionMatches, RegionOk, PagedExtents, Less, Before, ReadPagedEntry;
    if left > 0 && ReadPagedEntry(payload, at).Accepted? {
      var e := ReadPagedEntry(payload, at).value;
      PagedExtentsPrefix(h, data, payload, e.next, e.length, offset, sequence, pages, owned, k);
      var found := EntryExtents(h, data, payload, e, offset, sequence, pages, owned);
      if found.Accepted? && RegionOk(regions, e.name, e.length) {
        MatchesBefore(regions, e.name, e.length, found.value.0, data, k);
        PagedPrefix(h, data, payload, e.next + 80 * e.flag, left - 1, Some(e.name), offset, sequence, regions, pages,
                    found.value.1, k);
      }
    }
  }

  lemma MatchesBefore(regions: Regions, name: seq<byte>, length: nat, extents: seq<Extent>, data: seq<byte>, k: nat)
    requires RegionOk(regions, name, length) && k <= |data| && Before(extents, k)
    ensures name in regions
    ensures RegionMatches(regions[name], extents, data[..k], 0) == RegionMatches(regions[name], extents, data, 0)
  {
    MatchesPrefix(regions[name], extents, data, 0, k);
  }

  lemma {:induction false} LegacyExtentsBefore(payload: seq<byte>, at: nat, left: nat, length: nat, commitOffset: nat,
                                               previousEnd: nat)
    requires LegacyExtents(payload, at, left, length, commitOffset, previousEnd).Accepted?
    ensures var extents := LegacyExtents(payload, at, left, length, commitOffset, previousEnd).value;
            forall i :: 0 <= i < |extents| ==> extents[i].physical + extents[i].end - extents[i].start <= commitOffset
    decreases left
  {
    hide Le;
    if left > 0 {
      var end := ReadInteger(payload, at + 8, 8).value;
      LegacyExtentsBefore(payload, at + 24, left - 1, length, commitOffset, end);
    }
  }

  lemma {:induction false} LegacyPrefix(data: seq<byte>, payload: seq<byte>, at: nat, left: nat, seen: set<seq<byte>>,
                                        commitOffset: nat, regions: Regions, k: nat)
    requires commitOffset <= k <= |data|
    ensures LegacyEntries(data[..k], payload, at, left, seen, commitOffset, regions)
            == LegacyEntries(data, payload, at, left, seen, commitOffset, regions)
    decreases left
  {
    hide RegionMatches, LegacyExtents, ValidRegionName, ReadLegacyEntry;
    if left > 0 && ReadLegacyEntry(payload, at).Accepted? {
      var e := ReadLegacyEntry(payload, at).value;
      var extents := LegacyExtents(payload, e.next, e.count, e.length, commitOffset, 0);
      if extents.Accepted? && RegionOk(regions, e.name, e.length) {
        LegacyExtentsBefore(payload, e.next, e.count, e.length, commitOffset, 0);
        MatchesPrefix(regions[e.name], extents.value, data, 0, k);
        LegacyPrefix(data, payload, e.next + 24 * e.count, left - 1, seen + {e.name}, commitOffset, regions, k);
      }
    }
  }

  /** Cutting the file anywhere at or after a commit record's start leaves its catalogue check unchanged. */
  lemma CatalogueOfPrefix(h: Hash, data: seq<byte>, payload: seq<byte>, offset: nat, sequence: nat,
                          regions: Regions, pages: set<nat>, k: nat)
    requires offset <= k <= |data|
    ensures Catalogue(h, data[..k], payload, offset, sequence, regions, pages)
            == Catalogue(h, data, payload, offset, sequence, regions, pages)
  {
    hide PagedEntries, LegacyEntries, Le;
    var count := ReadInteger(payload, 8, 4);
    if count.Accepted? {
      PagedPrefix(h, data, payload, 12, count.value, None, offset, sequence, regions, pages, {}, k);
      LegacyPrefix(data, payload, 12, count.value, {}, offset, regions, k);
    }
  }
}
