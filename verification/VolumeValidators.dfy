/**
 * The checkpoint validators as loops: a cursor over the catalogue, a set of pages owned so far, and a
 * running end within each region. They accept exactly the catalogues VolumeCheckpoint describes.
 */
module VolumeValidators {
  import opened Bytes
  import opened Outcomes
  import opened Objects
  import opened ExtentIndex
  import opened VolumeCheckpoint

  // ---------------------------------------------------------------- extent trees

  /** Extents already found, in front of what the remaining children yield. */
  function AfterExtents(found: seq<Extent>, rest: Result<(seq<Extent>, set<nat>)>): Result<(seq<Extent>, set<nat>)> {
    if rest.Accepted? then Accepted((found + rest.value.0, rest.value.1)) else Rejected
  }

  lemma AfterNone(rest: Result<(seq<Extent>, set<nat>)>)
    ensures AfterExtents([], rest) == rest
  {
    if rest.Accepted? { assert [] + rest.value.0 == rest.value.0; }
  }

  lemma NextChild(h: Hash, data: seq<byte>, children: seq<IndexReference>, i: nat, level: nat, parentOffset: nat,
                  parentSequence: nat,
                  pages: set<nat>, owned: set<nat>, found: seq<Extent>)
    requires i < |children| && forall j :: 0 <= j < |children| ==> children[j].level == level
    ensures var first := IndexedExtents(h, data, children[i], parentOffset, parentSequence, pages, owned);
            AfterExtents(found, IndexedChildren(h, data, children[i..], level, parentOffset, parentSequence, pages,
                                                owned)) ==
            if first.Accepted?
            then AfterExtents(found + first.value.0,
                              IndexedChildren(h, data, children[i + 1..], level, parentOffset, parentSequence, pages,
                                              first.value.1))
            else Rejected
  {
    hide IndexedExtents;
    var first := IndexedExtents(h, data, children[i], parentOffset, parentSequence, pages, owned);
    assert children[i..][0] == children[i] && children[i..][1..] == children[i + 1..];
    if first.Accepted? {
      var rest := IndexedChildren(h, data, children[i + 1..], level, parentOffset, parentSequence, pages,
                                  first.value.1);
      if rest.Accepted? { assert found + (first.value.0 + rest.value.0) == found + first.value.0 + rest.value.0; }
    }
  }

  class OwnedPages {
    var owned: set<nat>

    constructor ()
      ensures owned == {}
    {
      owned := {};
    }

    /** indexed_extents: the extents below a reference; every page visited becomes owned. */
    method Collect(h: Hash, data: seq<byte>, r: IndexReference, parentOffset: nat, parentSequence: nat, pages: set<nat>)
      returns (extents: Result<seq<Extent>>)
      modifies this
      ensures var spec := IndexedExtents(h, data, r, parentOffset, parentSequence, pages, old(owned));
              && (extents.Accepted? <==> spec.Accepted?)
              && (extents.Accepted? ==> extents.value == spec.value.0 && owned == spec.value.1)
      decreases r.level, 0
    {
      hide PageOf, Precedes, IndexedChildren;
      if !Precedes(r, parentOffset, parentSequence) { return Rejected; }
      if r.offset !in pages || r.offset in owned { return Rejected; }
      owned := owned + {r.offset};
      var page :- PageOf(h, data, r);
      PageLevels(h, data, r);
      if r.level == 0 { return Accepted(page.extents); }
      extents := CollectChildren(h, data, page.children, r.level - 1, r.offset, r.sequence, pages);
    }

    method CollectChildren(h: Hash, data: seq<byte>, children: seq<IndexReference>, level: nat, parentOffset: nat,
                           parentSequence: nat, pages: set<nat>)
      returns (extents: Result<seq<Extent>>)
      requires forall i :: 0 <= i < |children| ==> children[i].level == level
      modifies this
      ensures var spec := IndexedChildren(h, data, children, level, parentOffset, parentSequence, pages, old(owned));
              && (extents.Accepted? <==> spec.Accepted?)
              && (extents.Accepted? ==> extents.value == spec.value.0 && owned == spec.value.1)
      decreases level, 1 + |children|
    {
      hide IndexedExtents, IndexedChildren, AfterExtents;
      var found: seq<Extent>, i := [], 0;
      ghost var spec := IndexedChildren(h, data, children, level, parentOffset, parentSequence, pages, owned);
      AfterNone(spec);
      assert children[0..] == children;
      while i < |children|
        invariant i <= |children|
        invariant spec == AfterExtents(found,
                                       IndexedChildren(h, data, children[i..], level, parentOffset, parentSequence,
                                                       pages, owned))
      {
        NextChild(h, data, children, i, level, parentOffset, parentSequence, pages, owned, found);
        var more := Collect(h, data, children[i], parentOffset, parentSequence, pages);
        if more.Rejected? { return Rejected; }
        found, i := found + more.value, i + 1;
      }
      NoChildren(h, data, children, level, parentOffset, parentSequence, pages, owned, found);
      return Accepted(found);
    }
  }

  lemma NoChildren(h: Hash, data: seq<byte>, children: seq<IndexReference>, level: nat, parentOffset: nat,
                   parentSequence: nat,
                   pages: set<nat>, owned: set<nat>, found: seq<Extent>)
    requires forall j :: 0 <= j < |children| ==> children[j].level == level
    ensures AfterExtents(found,
                         IndexedChildren(h, data, children[|children|..], level, parentOffset, parentSequence, pages,
                                         owned)) == Accepted((found, owned))
  {
    assert children[|children|..] == [] && found + [] == found;
  }

  // ---------------------------------------------------------------- region contents

  /** Extent by extent: no overlap, zero holes, equal payload bytes, zero tail. */
  method CheckRegion(region: seq<byte>, extents: seq<Extent>, data: seq<byte>) returns (ok: bool)
    ensures ok <==> RegionMatches(region, extents, data, 0)
  {
    hide AllZero;
    var end: nat, i := 0, 0;
    assert extents[0..] == extents;
    while i < |extents|
      invariant i <= |extents| && end <= |region|
      invariant RegionMatches(region, extents, data, 0) <==> RegionMatches(region, extents[i..], data, end)
    {
      var e := extents[i];
      assert extents[i..][0] == e && extents[i..][1..] == extents[i + 1..];
      if e.start < end || e.end < e.start || e.end > |region| { return false; }
      if !AllZero(region[end..e.start]) { return false; }
      if e.physical + e.end - e.start > |data|
          || region[e.start..e.end] != data[e.physical..e.physical + e.end - e.start]
      {
        return false;
      }
      end, i := e.end, i + 1;
    }
    return AllZero(region[end..]);
  }

  // ---------------------------------------------------------------- paged catalogues

  /** One turn of the catalogue loop, seen from the specification. */
  lemma PagedTurn(h: Hash, data: seq<byte>, payload: seq<byte>, at: nat, left: nat, previous: Option<seq<byte>>,
                  offset: nat, sequence: nat, regions: Regions, pages: set<nat>, owned: set<nat>)
    requires left > 0
    ensures var entry := ReadPagedEntry(payload, at);
            var spec := PagedEntries(h, data, payload, at, left, previous, offset, sequence, regions, pages, owned);
            if entry.Accepted? && (previous.Some? ==> Less(previous.value, entry.value.name))
               && RegionOk(regions, entry.value.name, entry.value.length) && entry.value.flag <= 1
            then
              var e := entry.value;
              var found := EntryExtents(h, data, payload, e, offset, sequence, pages, owned);
              if found.Accepted? && RegionMatches(regions[e.name], found.value.0, data, 0)
              then
                var rest := PagedEntries(h, data, payload, e.next + 80 * e.flag, left - 1, Some(e.name), offset,
                                         sequence, regions, pages, found.value.1);
                && (spec.Accepted? <==> rest.Accepted?)
                && (spec.Accepted? ==> Names(spec.value) == {e.name} + Names(rest.value))
              else spec.Rejected?
            else spec.Rejected?
  {
    hide ReadPagedEntry, RegionOk, EntryExtents, RegionMatches;
    var entry := ReadPagedEntry(payload, at);
    var spec := PagedEntries(h, data, payload, at, left, previous, offset, sequence, regions, pages, owned);
    if spec.Accepted? {
      var e := entry.value;
      var found := EntryExtents(h, data, payload, e, offset, sequence, pages, owned);
      var rest := PagedEntries(h, data, payload, e.next + 80 * e.flag, left - 1, Some(e.name), offset, sequence,
                               regions, pages, found.value.1);
      NamesCons(Entry(e.name, e.length, found.value.0), rest.value);
    }
  }

  lemma NamesCons(e: Entry, rest: seq<Entry>)
    ensures Names([e] + rest) == {e.name} + Names(rest)
  {
    assert forall x :: x in [e] + rest <==> x == e || x in rest;
  }

  /** validate_paged_checkpoint */
  method ValidatePagedCheckpoint(h: Hash, data: seq<byte>, payload: seq<byte>, offset: nat, sequence: nat,
                                 regions: Regions, pages: set<nat>)
    returns (ok: bool)
    ensures ok <==> PagedCatalogue(h, data, payload, offset, sequence, regions, pages).Accepted?
  {
    hide PagedEntries, Take, ReadInteger, RegionOk, RegionMatches, Names, IndexedExtents, ParseReference, Less,
         ReadPagedEntry;
    if |payload| > MAX_COMMIT_SNAPSHOT_BYTES { return false; }
    var magic := Take(payload, 0, 8);
    if magic != Accepted(PAGED_MAGIC) { return false; }
    var count := ReadInteger(payload, 8, 4);
    if count.Rejected? { return false; }
    var names: set<seq<byte>>, previous: Option<seq<byte>>, at: nat, left := {}, None, 12, count.value;
    var pagesOwned := new OwnedPages();
    ghost var spec := PagedEntries(h, data, payload, 12, left, None, offset, sequence, regions, pages, {});
    while left > 0
      invariant SeenSoFar(spec, names,
                          PagedEntries(h, data, payload, at, left, previous, offset, sequence, regions, pages,
                                       pagesOwned.owned))
    {
      PagedTurn(h, data, payload, at, left, previous, offset, sequence, regions, pages, pagesOwned.owned);
      var entry := ReadPagedEntry(payload, at);
      if entry.Rejected? { return false; }
      var e := entry.value;
      if previous.Some? && !Less(previous.value, e.name) { return false; }
      if !RegionOk(regions, e.name, e.length) || e.flag > 1 { return false; }
      var extents: seq<Extent> := [];
      if e.flag == 1 {
        var raw := Take(payload, e.next, 80);
        if raw.Rejected? { return false; }
        var root := ParseReference(raw.value);
        if root.Rejected? || root.value.end > e.length { return false; }
        var collected := pagesOwned.Collect(h, data, root.value, offset, sequence, pages);
        if collected.Rejected? { return false; }
        extents := collected.value;
      }
      RegionStored(regions, e.name, e.length);
      var matches := CheckRegion(regions[e.name], extents, data);
      if !matches { return false; }
      previous, names, at, left := Some(e.name), names + {e.name}, e.next + 80 * e.flag, left - 1;
    }
    PagedEnd(h, data, payload, at, previous, offset, sequence, regions, pages, pagesOwned.owned);
    return at == |payload| && names == regions.Keys;
  }

  lemma RegionStored(regions: Regions, name: seq<byte>, length: nat)
    requires RegionOk(regions, name, length)
    ensures name in regions
  {}

  /** The whole catalogue is accepted exactly when the rest is, and names what was seen and the rest. */
  ghost predicate SeenSoFar(spec: Result<seq<Entry>>, names: set<seq<byte>>, rest: Result<seq<Entry>>) {
    (spec.Accepted? <==> rest.Accepted?) && (spec.Accepted? ==> Names(spec.value) == names + Names(rest.value))
  }

  lemma PagedEnd(h: Hash, data: seq<byte>, payload: seq<byte>, at: nat, previous: Option<seq<byte>>,
                 offset: nat, sequence: nat, regions: Regions, pages: set<nat>, owned: set<nat>)
    ensures PagedEntries(h, data, payload, at, 0, previous, offset, sequence, regions, pages, owned) ==
            if at == |payload| then Accepted([]) else Rejected
    ensures Names([]) == {}
  {}

  // ---------------------------------------------------------------- legacy snapshots

  /** The inline extents of a region from a cursor position are acceptable and match the region from `end` on. */
  predicate LegacyMatches(data: seq<byte>, payload: seq<byte>, at: nat, left: nat, length: nat, commitOffset: nat,
                          region: seq<byte>, end: nat)
  {
    var extents := LegacyExtents(payload, at, left, length, commitOffset, end);
    extents.Accepted? && RegionMatches(region, extents.value, data, end)
  }

  lemma LegacyTurn(data: seq<byte>, payload: seq<byte>, at: nat, left: nat, length: nat, commitOffset: nat,
                   region: seq<byte>, end: nat)
    requires left > 0
    ensures var start, last, physical := ReadInteger(payload, at, 8), ReadInteger(payload, at + 8, 8),
            ReadInteger(payload, at + 16, 8);
            LegacyMatches(data, payload, at, left, length, commitOffset, region, end) <==>
            && start.Accepted? && last.Accepted? && physical.Accepted?
            && end <= start.value < last.value <= length
            && physical.value <= commitOffset && last.value - start.value <= commitOffset - physical.value
            && last.value <= |region| && AllZero(region[end..start.value])
            && physical.value + last.value - start.value <= |data|
            && region[start.value..last.value] == data[physical.value..physical.value + last.value - start.value]
            && LegacyMatches(data, payload, at + 24, left - 1, length, commitOffset, region, last.value)
  {
    hide ReadInteger, AllZero;
    var start, last := ReadInteger(payload, at, 8), ReadInteger(payload, at + 8, 8);
    var physical := ReadInteger(payload, at + 16, 8);
    if start.Accepted? && last.Accepted? && physical.Accepted? {
      var rest := LegacyExtents(payload, at + 24, left - 1, length, commitOffset, last.value);
      var all := LegacyExtents(payload, at, left, length, commitOffset, end);
      if all.Accepted? {
        assert all.value[0] == Extent(start.value, last.value, physical.value) && all.value[1..] == rest.value;
      }
    }
  }

  /** The inner loop: read, bound and compare one extent after the other. */
  method CheckLegacyRegion(data: seq<byte>, payload: seq<byte>, from: nat, count: nat, length: nat, commitOffset: nat,
                           region: seq<byte>)
    returns (ok: bool)
    ensures ok <==> LegacyMatches(data, payload, from, count, length, commitOffset, region, 0)
  {
    hide ReadInteger, AllZero, LegacyMatches;
    var at: nat, left: nat, end: nat := from, count, 0;
    while left > 0
      invariant LegacyMatches(data, payload, from, count, length, commitOffset, region, 0) <==>
                LegacyMatches(data, payload, at, left, length, commitOffset, region, end)
    {
      LegacyTurn(data, payload, at, left, length, commitOffset, region, end);
      var start, last := ReadInteger(payload, at, 8), ReadInteger(payload, at + 8, 8);
      var physical := ReadInteger(payload, at + 16, 8);
      if start.Rejected? || last.Rejected? || physical.Rejected? { return false; }
      if start.value >= last.value || start.value < end || last.value > length { return false; }
      if physical.value > commitOffset || last.value - start.value > commitOffset - physical.value { return false; }
      if last.value > |region| || !AllZero(region[end..start.value]) { return false; }
      if physical.value + last.value - start.value > |data|
         || region[start.value..last.value] !=
            data[physical.value..physical.value + last.value - start.value] { return false; }
      at, left, end := at + 24, left - 1, last.value;
    }
    LegacyDone(data, payload, at, length, commitOffset, region, end);
    return end <= |region| && AllZero(region[end..]);
  }

  lemma LegacyDone(data: seq<byte>, payload: seq<byte>, at: nat, length: nat, commitOffset: nat, region: seq<byte>,
                   end: nat)
    ensures LegacyMatches(data, payload, at, 0, length, commitOffset, region, end) <==>
            end <= |region| && AllZero(region[end..])
  {}

  lemma LegacyEntryTurn(data: seq<byte>, payload: seq<byte>, at: nat, left: nat, seen: set<seq<byte>>,
                        commitOffset: nat, regions: Regions)
    requires left > 0
    ensures var entry := ReadLegacyEntry(payload, at);
            var spec := LegacyEntries(data, payload, at, left, seen, commitOffset, regions);
            if entry.Accepted? && entry.value.name !in seen && RegionOk(regions, entry.value.name, entry.value.length)
               && LegacyMatches(data, payload, entry.value.next, entry.value.count, entry.value.length, commitOffset,
                                regions[entry.value.name], 0)
            then
              var e := entry.value;
              var rest := LegacyEntries(data, payload, e.next + 24 * e.count, left - 1, seen + {e.name}, commitOffset,
                                        regions);
              && (spec.Accepted? <==> rest.Accepted?)
              && (spec.Accepted? ==> Names(spec.value) == {e.name} + Names(rest.value))
            else spec.Rejected?
  {
    hide ReadLegacyEntry, RegionOk, LegacyExtents, RegionMatches;
    var entry := ReadLegacyEntry(payload, at);
    var spec := LegacyEntries(data, payload, at, left, seen, commitOffset, regions);
    if spec.Accepted? {
      var e := entry.value;
      var extents := LegacyExtents(payload, e.next, e.count, e.length, commitOffset, 0);
      var rest := LegacyEntries(data, payload, e.next + 24 * e.count, left - 1, seen + {e.name}, commitOffset, regions);
      NamesCons(Entry(e.name, e.length, extents.value), rest.value);
    }
  }

  /** validate_legacy_snapshot */
  method ValidateLegacySnapshot(data: seq<byte>, payload: seq<byte>, commitOffset: nat, regions: Regions)
    returns (ok: bool)
    ensures ok <==> LegacyCatalogue(data, payload, commitOffset, regions).Accepted?
  {
    hide LegacyEntries, Take, ReadInteger, RegionOk, RegionMatches, Names, ReadLegacyEntry, LegacyMatches;
    if |payload| > MAX_COMMIT_SNAPSHOT_BYTES || |payload| < 12 { return false; }
    var magic := Take(payload, 0, 8);
    if magic != Accepted(LEGACY_MAGIC) { return false; }
    var count := ReadInteger(payload, 8, 4);
    if count.Rejected? { return false; }
    var names: set<seq<byte>>, at: nat, left := {}, 12, count.value;
    ghost var spec := LegacyEntries(data, payload, 12, left, {}, commitOffset, regions);
    while left > 0
      invariant SeenSoFar(spec, names, LegacyEntries(data, payload, at, left, names, commitOffset, regions))
    {
      LegacyEntryTurn(data, payload, at, left, names, commitOffset, regions);
      var entry := ReadLegacyEntry(payload, at);
      if entry.Rejected? { return false; }
      var e := entry.value;
      if e.name in names || !RegionOk(regions, e.name, e.length) { return false; }
      RegionStored(regions, e.name, e.length);
      var matches := CheckLegacyRegion(data, payload, e.next, e.count, e.length, commitOffset, regions[e.name]);
      if !matches { return false; }
      names, at, left := names + {e.name}, e.next + 24 * e.count, left - 1;
    }
    LegacyEnd(data, payload, at, names, commitOffset, regions);
    return at == |payload| && names == regions.Keys;
  }

  lemma LegacyEnd(data: seq<byte>, payload: seq<byte>, at: nat, seen: set<seq<byte>>, commitOffset: nat,
                  regions: Regions)
    ensures LegacyEntries(data, payload, at, 0, seen, commitOffset, regions) ==
            if at == |payload| then Accepted([]) else Rejected
    ensures Names([]) == {}
  {}
}
