/**
 * What a commit catalogue is, said without its validators: its bytes list the regions by name and length, each with
 * a tree of index pages or with its extents, and those extents over zero-filled bytes are the region itself. A
 * catalogue is accepted exactly when it is one.
 */
module CatalogueForms {
  import opened Bytes
  import opened Outcomes
  import opened Objects
  import opened ExtentIndex
  import opened VolumeCheckpoint
  import opened ExtentForms

  // ---------------------------------------------------------------- a region and its extents

  /** The extents lie in order inside a region of this length and inside the file. */
  ghost predicate Laid(extents: seq<Extent>, from: nat, length: nat, size: nat) {
    && from <= length
    && (forall i :: 0 <= i < |extents| ==>
          && extents[i].start < extents[i].end <= length
          && extents[i].physical + extents[i].end - extents[i].start <= size)
    && (extents != [] ==> from <= extents[0].start)
    && (forall i :: 1 <= i < |extents| ==> extents[i - 1].end <= extents[i].start)
  }

  lemma {:induction false} OverlayKeeps(base: seq<byte>, extents: seq<Extent>, data: seq<byte>, from: nat)
    requires Laid(extents, from, |base|, |data|)
    ensures |Overlay(base, extents, data)| == |base| && Overlay(base, extents, data)[..from] == base[..from]
    decreases |extents|
  {
    if extents != [] {
      var e := extents[0];
      var next := Place(base, e, data);
      OverlayKeeps(next, extents[1..], data, e.end);
      assert Overlay(base, extents, data)[..from] == Overlay(base, extents, data)[..e.end][..from];
      assert next[..e.end][..from] == base[..from];
    }
  }

  /** Extents in order match a region exactly when laying them over zeros gives it. */
  lemma {:induction false} MatchesIs(region: seq<byte>, base: seq<byte>, extents: seq<Extent>, data: seq<byte>,
                                     from: nat)
    requires Laid(extents, from, |region|, |data|) && |base| == |region|
    requires base[..from] == region[..from] && AllZero(base[from..])
    ensures RegionMatches(region, extents, data, from) <==> Overlay(base, extents, data) == region
    decreases |extents|
  {
    if RegionMatches(region, extents, data, from) { OverlayMatches(region, base, extents, data, from); }
    if Overlay(base, extents, data) == region {
      if extents == [] {
        assert region == base;
      } else {
        var e := extents[0];
        var next := Place(base, e, data);
        OverlayKeeps(next, extents[1..], data, e.end);
        PlacedMatches(region, base, e, data, from);
        MatchesIs(region, next, extents[1..], data, e.end);
      }
    }
  }

  lemma PlacedMatches(region: seq<byte>, base: seq<byte>, e: Extent, data: seq<byte>, from: nat)
    requires from <= e.start < e.end <= |region| == |base| && e.physical + e.end - e.start <= |data|
    requires AllZero(base[from..]) && Place(base, e, data)[..e.end] == region[..e.end]
    ensures AllZero(region[from..e.start])
    ensures region[e.start..e.end] == data[e.physical..e.physical + e.end - e.start]
    ensures AllZero(Place(base, e, data)[e.end..])
  {
    var next := Place(base, e, data);
    forall i | 0 <= i < e.start - from ensures region[from..e.start][i] == 0 {
      assert region[from + i] == region[..e.end][from + i] == next[from + i] == base[from + i] == base[from..][i];
    }
    var copied := data[e.physical..e.physical + e.end - e.start];
    forall i | 0 <= i < |copied| ensures region[e.start..e.end][i] == copied[i] {
      assert region[e.start + i] == region[..e.end][e.start + i] == next[e.start + i];
    }
    forall i | 0 <= i < |next[e.end..]| ensures next[e.end..][i] == 0 {
      assert next[e.end + i] == base[e.end + i] == base[from..][e.end + i - from];
    }
  }

  /** A region is what its extents build over zeros. */
  ghost predicate Builds(regions: Regions, name: seq<byte>, length: nat, extents: seq<Extent>, data: seq<byte>) {
    && name in regions && ValidRegionName(name) && length == |regions[name]| && Laid(extents, 0, length, |data|)
    && Overlay(Zeros(length), extents, data) == regions[name]
  }

  lemma {:induction false} MatchesLaid(region: seq<byte>, extents: seq<Extent>, data: seq<byte>, from: nat)
    requires RegionMatches(region, extents, data, from)
    requires forall i :: 0 <= i < |extents| ==> extents[i].start < extents[i].end
    ensures Laid(extents, from, |region|, |data|)
    decreases |extents|
  {
    if extents != [] {
      MatchesLaid(region, extents[1..], data, extents[0].end);
      assert forall i :: 1 <= i < |extents| ==> extents[i] == extents[1..][i - 1];
    }
  }

  lemma BuildsIs(regions: Regions, name: seq<byte>, length: nat, extents: seq<Extent>, data: seq<byte>)
    requires forall i :: 0 <= i < |extents| ==> extents[i].start < extents[i].end
    ensures RegionOk(regions, name, length) && RegionMatches(regions[name], extents, data, 0) <==>
            Builds(regions, name, length, extents, data)
  {
    hide ValidRegionName, RegionMatches, Overlay, Laid;
    if RegionOk(regions, name, length) {
      var base := Zeros(length);
      assert base[0..] == base && base[..0] == regions[name][..0];
      if RegionMatches(regions[name], extents, data, 0) { MatchesLaid(regions[name], extents, data, 0); }
      if Laid(extents, 0, length, |data|) { MatchesIs(regions[name], base, extents, data, 0); }
    }
  }

  // ---------------------------------------------------------------- paged entries

  /** A region of a paged catalogue: without extents, or with a tree of index pages. */
  datatype Spec = Spec(name: seq<byte>, length: nat, tree: Option<ExtentTree>)

  function ExtentsOf(s: Spec): seq<Extent> {
    if s.tree.None? then [] else Flat(s.tree.value)
  }

  function PagesOf(s: Spec): seq<nat> {
    if s.tree.None? then [] else Offsets(s.tree.value)
  }

  function FixedBytes(name: seq<byte>, length: nat, flag: nat): seq<byte> {
    LeBytes(|name|, 2) + (name + (LeBytes(length, 8) + LeBytes(flag, 1)))
  }

  lemma ReadPagedExact(payload: seq<byte>, at: nat, e: Located)
    ensures ReadPagedEntry(payload, at) == Accepted(e) <==>
            && |e.name| < 0x1_0000 && e.length <= U64_MAX && e.flag < 256
            && OccursAt(payload, FixedBytes(e.name, e.length, e.flag), at) && e.next == at + |e.name| + 11
  {
    hide Le, LeBytes, ReadInteger, OccursAt;
    RadixWidths();
    var a, b, c := LeBytes(|e.name|, 2), LeBytes(e.length, 8), LeBytes(e.flag, 1);
    ReadIntegerExact(payload, at, 2, |e.name|);
    TakeIs(payload, at + 2, e.name);
    ReadIntegerExact(payload, at + 2 + |e.name|, 8, e.length);
    ReadIntegerExact(payload, at + 2 + |e.name| + 8, 1, e.flag);
    OccursJoin(payload, a, e.name + (b + c), at);
    OccursJoin(payload, e.name, b + c, at + 2);
    OccursJoin(payload, b, c, at + 2 + |e.name|);
    var length := ReadInteger(payload, at, 2);
    if length.Accepted? && Take(payload, at + 2, length.value).Accepted? {
      assert |Take(payload, at + 2, length.value).value| == length.value;
    }
  }

  lemma TakeIs(payload: seq<byte>, at: nat, v: seq<byte>)
    ensures Take(payload, at, |v|) == Accepted(v) <==> OccursAt(payload, v, at)
  {}

  function RootBytes(s: Spec): seq<byte> {
    if s.tree.None? || !Fits(s.tree.value.r) then [] else EncodeReference(s.tree.value.r)
  }

  /** The encoding of one region: name, length, and the reference to its root page if it has one. */
  function SpecBytes(s: Spec): seq<byte> {
    FixedBytes(s.name, s.length, if s.tree.None? then 0 else 1) + RootBytes(s)
  }

  ghost predicate SpecOk(h: Hash, data: seq<byte>, offset: nat, sequence: nat, regions: Regions, s: Spec) {
    && |s.name| < 0x1_0000 && s.length <= U64_MAX && Builds(regions, s.name, s.length, ExtentsOf(s), data)
    && (s.tree.Some? ==>
          var t := s.tree.value;
          && TreeStands(h, data, t) && SummaryOk(t.r) && Precedes(t.r, offset, sequence) && t.r.end <= s.length)
  }

  ghost predicate SpecsStand(payload: seq<byte>, specs: seq<Spec>, at: nat)
    decreases |specs|
  {
    if specs == [] then at == |payload|
    else OccursAt(payload, SpecBytes(specs[0]), at) && SpecsStand(payload, specs[1..], at + |SpecBytes(specs[0])|)
  }

  function PagesOfAll(specs: seq<Spec>): seq<nat> {
    if specs == [] then [] else PagesOf(specs[0]) + PagesOfAll(specs[1..])
  }

  function EntriesOf(specs: seq<Spec>): (entries: seq<Entry>)
    ensures |entries| == |specs|
  {
    seq(|specs|, i requires 0 <= i < |specs| => Entry(specs[i].name, specs[i].length, ExtentsOf(specs[i])))
  }

  ghost predicate NamesAscend(specs: seq<Spec>) {
    forall i :: 1 <= i < |specs| ==> Less(specs[i - 1].name, specs[i].name)
  }

  /** Regions in name order, each with pages of its own. */
  ghost predicate SpecsOk(h: Hash, data: seq<byte>, offset: nat, sequence: nat, regions: Regions, pages: set<nat>,
                          previous: Option<seq<byte>>, owned: set<nat>, specs: seq<Spec>)
  {
    && (forall i :: 0 <= i < |specs| ==> SpecOk(h, data, offset, sequence, regions, specs[i]))
    && NamesAscend(specs) && (previous.Some? && specs != [] ==> Less(previous.value, specs[0].name))
    && Free(PagesOfAll(specs), pages, owned)
  }

  lemma SpansPositive(extents: seq<Extent>, start: nat, end: nat)
    requires Spans(extents, start, end)
    ensures forall i :: 0 <= i < |extents| ==> extents[i].start < extents[i].end
  {}

  lemma TreePositive(h: Hash, data: seq<byte>, t: ExtentTree, offset: nat, sequence: nat, pages: set<nat>,
                     owned: set<nat>)
    requires TreeStands(h, data, t) && Precedes(t.r, offset, sequence) && Free(Offsets(t), pages, owned)
    ensures forall i :: 0 <= i < |Flat(t)| ==> Flat(t)[i].start < Flat(t)[i].end
  {
    hide TreeStands, IndexedExtents, Free, Spans, Before;
    TreeIsRead(h, data, t, offset, sequence, pages, owned);
    ExtentsSpan(h, data, t.r, offset, sequence, pages, owned);
    SpansPositive(Flat(t), t.r.start, t.r.end);
  }

  lemma RootOccurs(payload: seq<byte>, at: nat, r: IndexReference)
    requires Fits(r) && SummaryOk(r)
    ensures OccursAt(payload, EncodeReference(r), at) <==>
            Take(payload, at, 80).Accepted? && ParseReference(Take(payload, at, 80).value) == Accepted(r)
  {
    hide EncodeReference, ParseReference, SummaryOk;
    if Take(payload, at, 80).Accepted? { ReferenceExact(Take(payload, at, 80).value, r); }
  }

  lemma NoExtents(regions: Regions, name: seq<byte>, length: nat, data: seq<byte>)
    ensures RegionOk(regions, name, length) && RegionMatches(regions[name], [], data, 0) <==>
            Builds(regions, name, length, [], data)
  {
    BuildsIs(regions, name, length, [], data);
  }

  /** One region of a catalogue is read as it is written. */
  lemma SpecRead(h: Hash, data: seq<byte>, payload: seq<byte>, s: Spec, at: nat, offset: nat, sequence: nat,
                 regions: Regions, pages: set<nat>, owned: set<nat>)
    requires SpecOk(h, data, offset, sequence, regions, s) && OccursAt(payload, SpecBytes(s), at)
    requires Free(PagesOf(s), pages, owned)
    ensures var e := Located(s.name, s.length, if s.tree.None? then 0 else 1, at + |s.name| + 11);
            && ReadPagedEntry(payload, at) == Accepted(e) && at + |SpecBytes(s)| == e.next + 80 * e.flag
            && EntryExtents(h, data, payload, e, offset, sequence, pages, owned) ==
               Accepted((ExtentsOf(s), owned + Among(PagesOf(s))))
            && RegionOk(regions, s.name, s.length) && RegionMatches(regions[s.name], ExtentsOf(s), data, 0)
  {
    hide ReadPagedEntry, Le, LeBytes, OccursAt, TreeStands, IndexedExtents, Free, SummaryOk, Fits, Builds, RegionOk,
         RegionMatches, ParseReference, EncodeReference, Flat, Offsets;
    var e := Located(s.name, s.length, if s.tree.None? then 0 else 1, at + |s.name| + 11);
    OccursJoin(payload, FixedBytes(s.name, s.length, e.flag), RootBytes(s), at);
    ReadPagedExact(payload, at, e);
    if s.tree.None? {
      assert owned + Among([]) == owned;
      NoExtents(regions, s.name, s.length, data);
    } else {
      var t := s.tree.value;
      assert Fits(t.r) by { TreeFits(h, data, t); }
      RootOccurs(payload, e.next, t.r);
      TreeIsRead(h, data, t, offset, sequence, pages, owned);
      TreePositive(h, data, t, offset, sequence, pages, owned);
      BuildsIs(regions, s.name, s.length, Flat(t), data);
    }
  }

  lemma TreeFits(h: Hash, data: seq<byte>, t: ExtentTree)
    requires TreeStands(h, data, t)
    ensures Fits(t.r)
  {}

  /** What is read as one region is that region. */
  lemma ReadIsSpec(h: Hash, data: seq<byte>, payload: seq<byte>, at: nat, e: Located, offset: nat, sequence: nat,
                   regions: Regions, pages: set<nat>, owned: set<nat>)
    returns (s: Spec)
    requires ReadPagedEntry(payload, at) == Accepted(e) && RegionOk(regions, e.name, e.length) && e.flag <= 1
    requires EntryExtents(h, data, payload, e, offset, sequence, pages, owned).Accepted?
    requires RegionMatches(regions[e.name], EntryExtents(h, data, payload, e, offset, sequence, pages, owned).value.0,
                           data, 0)
    ensures s.name == e.name && s.length == e.length && SpecOk(h, data, offset, sequence, regions, s)
    ensures OccursAt(payload, SpecBytes(s), at) && Free(PagesOf(s), pages, owned)
    ensures at + |SpecBytes(s)| == e.next + 80 * e.flag
    ensures EntryExtents(h, data, payload, e, offset, sequence, pages, owned) ==
            Accepted((ExtentsOf(s), owned + Among(PagesOf(s))))
  {
    hide ReadPagedEntry, Le, LeBytes, OccursAt, TreeStands, IndexedExtents, SummaryOk, Fits, Builds, RegionOk,
         RegionMatches, ParseReference, EncodeReference, Flat, Offsets;
    ReadPagedExact(payload, at, e);
    if e.flag == 0 {
      s := Spec(e.name, e.length, None);
      assert SpecBytes(s) == FixedBytes(e.name, e.length, 0);
      assert owned + Among([]) == owned;
      NoExtents(regions, e.name, e.length, data);
    } else {
      hide Free;
      var raw := Take(payload, e.next, 80).value;
      var root := ParseReference(raw).value;
      ReferenceExact(raw, root);
      var t := ReadIsTree(h, data, root, offset, sequence, pages, owned);
      s := Spec(e.name, e.length, Some(t));
      RootOccurs(payload, e.next, root);
      OccursJoin(payload, FixedBytes(e.name, e.length, 1), RootBytes(s), at);
      TreePositive(h, data, t, offset, sequence, pages, owned);
      BuildsIs(regions, e.name, e.length, Flat(t), data);
    }
  }

  lemma {:induction false} SpecsAreRead(h: Hash, data: seq<byte>, payload: seq<byte>, specs: seq<Spec>, at: nat,
                                        previous: Option<seq<byte>>, offset: nat, sequence: nat, regions: Regions,
                                        pages: set<nat>, owned: set<nat>)
    requires SpecsOk(h, data, offset, sequence, regions, pages, previous, owned, specs)
    requires SpecsStand(payload, specs, at)
    ensures PagedEntries(h, data, payload, at, |specs|, previous, offset, sequence, regions, pages, owned) ==
            Accepted(EntriesOf(specs))
    decreases |specs|
  {
    hide SpecOk, Free, Less, OccursAt, SpecBytes, PagesOf, ExtentsOf, RegionOk, RegionMatches, ReadPagedEntry,
         EntryExtents;
    if specs == [] {
      assert EntriesOf(specs) == [];
    } else {
      var s, rest := specs[0], specs[1..];
      FreeAppend(PagesOf(s), PagesOfAll(rest), pages, owned);
      SpecRead(h, data, payload, s, at, offset, sequence, regions, pages, owned);
      assert SpecsOk(h, data, offset, sequence, regions, pages, Some(s.name), owned + Among(PagesOf(s)), rest);
      SpecsAreRead(h, data, payload, rest, at + |SpecBytes(s)|, Some(s.name), offset, sequence, regions, pages,
                   owned + Among(PagesOf(s)));
      assert EntriesOf(specs) == [Entry(s.name, s.length, ExtentsOf(s))] + EntriesOf(rest);
    }
  }

  lemma {:induction false} ReadAreSpecs(h: Hash, data: seq<byte>, payload: seq<byte>, at: nat, left: nat,
                                        previous: Option<seq<byte>>, offset: nat, sequence: nat, regions: Regions,
                                        pages: set<nat>, owned: set<nat>)
    returns (specs: seq<Spec>)
    requires PagedEntries(h, data, payload, at, left, previous, offset, sequence, regions, pages, owned).Accepted?
    ensures |specs| == left && SpecsOk(h, data, offset, sequence, regions, pages, previous, owned, specs)
    ensures SpecsStand(payload, specs, at)
    decreases left
  {
    hide SpecOk, Less, OccursAt, SpecBytes, PagesOf, ExtentsOf, RegionOk, RegionMatches, ReadPagedEntry, EntryExtents;
    if left == 0 {
      specs := [];
    } else {
      hide Free;
      var e := ReadPagedEntry(payload, at).value;
      var s := ReadIsSpec(h, data, payload, at, e, offset, sequence, regions, pages, owned);
      var more := owned + Among(PagesOf(s));
      var rest := ReadAreSpecs(h, data, payload, e.next + 80 * e.flag, left - 1, Some(e.name), offset, sequence,
                               regions, pages, more);
      specs := [s] + rest;
      assert specs[1..] == rest;
      FreeAppend(PagesOf(s), PagesOfAll(rest), pages, owned);
      forall i | 1 <= i < |specs| ensures Less(specs[i - 1].name, specs[i].name) {
        if i > 1 { assert specs[i - 1] == rest[i - 2] && specs[i] == rest[i - 1]; }
      }
    }
  }

  // ---------------------------------------------------------------- paged catalogues

  /** The payload is the paged catalogue of exactly the given regions. */
  ghost predicate IsPaged(h: Hash, data: seq<byte>, payload: seq<byte>, offset: nat, sequence: nat, regions: Regions,
                          pages: set<nat>, specs: seq<Spec>)
  {
    && |payload| <= MAX_COMMIT_SNAPSHOT_BYTES && |specs| < 0x1_0000_0000
    && OccursAt(payload, PAGED_MAGIC + LeBytes(|specs|, 4), 0) && SpecsStand(payload, specs, 12)
    && SpecsOk(h, data, offset, sequence, regions, pages, None, {}, specs)
    && forall name :: name in regions ==> exists i :: 0 <= i < |specs| && specs[i].name == name
  }

  lemma CountRead(payload: seq<byte>, magic: seq<byte>, n: nat)
    requires |magic| == 8
    ensures Take(payload, 0, 8) == Accepted(magic) && ReadInteger(payload, 8, 4) == Accepted(n) <==>
            n < 0x1_0000_0000 && OccursAt(payload, magic + LeBytes(n, 4), 0)
  {
    hide Le, LeBytes, ReadInteger;
    RadixWidths();
    ReadIntegerExact(payload, 8, 4, n);
    OccursJoin(payload, magic, LeBytes(n, 4), 0);
  }

  lemma NamesAre(h: Hash, data: seq<byte>, offset: nat, sequence: nat, regions: Regions, pages: set<nat>,
                 specs: seq<Spec>)
    requires SpecsOk(h, data, offset, sequence, regions, pages, None, {}, specs)
    ensures Names(EntriesOf(specs)) == regions.Keys <==>
            forall name :: name in regions ==> exists i :: 0 <= i < |specs| && specs[i].name == name
  {
    hide Free, NamesAscend, Laid, TreeStands, Overlay, ValidRegionName, ExtentsOf;
    var entries := EntriesOf(specs);
    forall e | e in entries ensures e.name in regions {
      var i :| 0 <= i < |entries| && entries[i] == e;
      assert SpecOk(h, data, offset, sequence, regions, specs[i]);
    }
    if Names(entries) == regions.Keys {
      forall name | name in regions ensures exists i :: 0 <= i < |specs| && specs[i].name == name {
        assert name in Names(entries);
        var e :| e in entries && e.name == name;
        var i :| 0 <= i < |entries| && entries[i] == e;
        assert specs[i].name == name;
      }
    }
    if forall name :: name in regions ==> exists i :: 0 <= i < |specs| && specs[i].name == name {
      forall name | name in regions ensures name in Names(entries) {
        var i :| 0 <= i < |specs| && specs[i].name == name;
        assert entries[i] in entries;
      }
    }
  }

  /** A paged catalogue is accepted exactly when its bytes are the catalogue of the replayed namespace. */
  lemma PagedExact(h: Hash, data: seq<byte>, payload: seq<byte>, offset: nat, sequence: nat, regions: Regions,
                   pages: set<nat>, entries: seq<Entry>)
    ensures PagedCatalogue(h, data, payload, offset, sequence, regions, pages) == Accepted(entries) <==>
            exists specs :: IsPaged(h, data, payload, offset, sequence, regions, pages, specs)
                            && entries == EntriesOf(specs)
  {
    hide PagedEntries, SpecsOk, SpecsStand, Names, EntriesOf, LeBytes, OccursAt, ReadInteger, Take;
    var read := PagedCatalogue(h, data, payload, offset, sequence, regions, pages);
    if read == Accepted(entries) {
      var n := ReadInteger(payload, 8, 4).value;
      CountRead(payload, PAGED_MAGIC, n);
      var specs := ReadAreSpecs(h, data, payload, 12, n, None, offset, sequence, regions, pages, {});
      SpecsAreRead(h, data, payload, specs, 12, None, offset, sequence, regions, pages, {});
      NamesAre(h, data, offset, sequence, regions, pages, specs);
      assert IsPaged(h, data, payload, offset, sequence, regions, pages, specs);
    }
    if specs :| IsPaged(h, data, payload, offset, sequence, regions, pages, specs) && entries == EntriesOf(specs) {
      CountRead(payload, PAGED_MAGIC, |specs|);
      SpecsAreRead(h, data, payload, specs, 12, None, offset, sequence, regions, pages, {});
      NamesAre(h, data, offset, sequence, regions, pages, specs);
    }
  }

  // ---------------------------------------------------------------- legacy catalogues

  ghost predicate ExtentsOccur(payload: seq<byte>, extents: seq<Extent>, at: nat)
    decreases |extents|
  {
    extents != [] ==> ExtentFits(extents[0]) && OccursAt(payload, ExtentBytes(extents[0]), at)
                      && ExtentsOccur(payload, extents[1..], at + 24)
  }

  /** Inline extents: in order inside the region, with payloads before the commit record. */
  ghost predicate Inline(extents: seq<Extent>, from: nat, length: nat, commitOffset: nat) {
    && (forall i :: 0 <= i < |extents| ==>
          && extents[i].start < extents[i].end <= length
          && extents[i].physical + extents[i].end - extents[i].start <= commitOffset)
    && (extents != [] ==> from <= extents[0].start)
    && (forall i :: 1 <= i < |extents| ==> extents[i - 1].end <= extents[i].start)
  }

  lemma InlineStep(e: Extent, rest: seq<Extent>, from: nat, length: nat, commitOffset: nat)
    ensures Inline([e] + rest, from, length, commitOffset) <==>
            && from <= e.start < e.end <= length && e.physical + e.end - e.start <= commitOffset
            && Inline(rest, e.end, length, commitOffset)
  {
    var all := [e] + rest;
    assert all[0] == e && forall i :: 1 <= i < |all| ==> all[i] == rest[i - 1];
    if Inline(all, from, length, commitOffset) {
      if rest != [] { assert all[1] == rest[0]; }
      forall i | 0 <= i < |rest|
        ensures rest[i].start < rest[i].end <= length
                && rest[i].physical + rest[i].end - rest[i].start <= commitOffset
      {
        assert all[i + 1] == rest[i];
      }
      forall i | 1 <= i < |rest| ensures rest[i - 1].end <= rest[i].start {
        assert all[i] == rest[i - 1] && all[i + 1] == rest[i];
      }
    }
  }

  lemma ExtentRead(payload: seq<byte>, at: nat, e: Extent)
    ensures ReadInteger(payload, at, 8) == Accepted(e.start) && ReadInteger(payload, at + 8, 8) == Accepted(e.end)
            && ReadInteger(payload, at + 16, 8) == Accepted(e.physical) <==>
            ExtentFits(e) && OccursAt(payload, ExtentBytes(e), at)
  {
    hide Le, LeBytes, ReadInteger, OccursAt;
    RadixWidths();
    ReadIntegerExact(payload, at, 8, e.start);
    ReadIntegerExact(payload, at + 8, 8, e.end);
    ReadIntegerExact(payload, at + 16, 8, e.physical);
    OccursJoin(payload, LeBytes(e.start, 8), LeBytes(e.end, 8) + LeBytes(e.physical, 8), at);
    OccursJoin(payload, LeBytes(e.end, 8), LeBytes(e.physical, 8), at + 8);
  }

  lemma {:induction false} LegacyExtentsExact(payload: seq<byte>, at: nat, left: nat, length: nat, commitOffset: nat,
                                              from: nat, extents: seq<Extent>)
    ensures LegacyExtents(payload, at, left, length, commitOffset, from) == Accepted(extents) <==>
            && |extents| == left && ExtentsOccur(payload, extents, at)
            && Inline(extents, from, length, commitOffset)
    decreases left
  {
    hide ReadInteger, OccursAt, ExtentBytes, Inline, ExtentFits;
    if left == 0 {
      if extents == [] { NoneInline(from, length, commitOffset); }
    } else {
      if extents != [] {
        var e, rest := extents[0], extents[1..];
        assert extents == [e] + rest;
        ExtentRead(payload, at, e);
        InlineStep(e, rest, from, length, commitOffset);
        LegacyExtentsExact(payload, at + 24, left - 1, length, commitOffset, e.end, rest);
      }
      LegacyExtentsFirst(payload, at, left, length, commitOffset, from);
    }
  }

  lemma NoneInline(from: nat, length: nat, commitOffset: nat)
    ensures Inline([], from, length, commitOffset)
  {}

  lemma LegacyExtentsFirst(payload: seq<byte>, at: nat, left: nat, length: nat, commitOffset: nat, from: nat)
    requires left > 0
    ensures var read := LegacyExtents(payload, at, left, length, commitOffset, from);
            read.Accepted? ==>
              && read.value != []
              && ReadInteger(payload, at, 8) == Accepted(read.value[0].start)
              && ReadInteger(payload, at + 8, 8) == Accepted(read.value[0].end)
              && ReadInteger(payload, at + 16, 8) == Accepted(read.value[0].physical)
              && from <= read.value[0].start < read.value[0].end <= length
              && read.value[0].physical + read.value[0].end - read.value[0].start <= commitOffset
              && LegacyExtents(payload, at + 24, left - 1, length, commitOffset, read.value[0].end) ==
                 Accepted(read.value[1..])
  {
    hide ReadInteger;
  }

  /** A region of a legacy catalogue with its inline extents. */
  function LegacyBytes(name: seq<byte>, length: nat, count: nat): seq<byte> {
    LeBytes(|name|, 2) + (name + (LeBytes(length, 8) + LeBytes(count, 4)))
  }

  lemma ReadLegacyExact(payload: seq<byte>, at: nat, e: LegacyRegion)
    ensures ReadLegacyEntry(payload, at) == Accepted(e) <==>
            && |e.name| < 0x1_0000 && e.length <= U64_MAX && e.count < 0x1_0000_0000
            && OccursAt(payload, LegacyBytes(e.name, e.length, e.count), at) && e.next == at + |e.name| + 14
  {
    hide Le, LeBytes, ReadInteger, OccursAt;
    RadixWidths();
    var a, b, c := LeBytes(|e.name|, 2), LeBytes(e.length, 8), LeBytes(e.count, 4);
    ReadIntegerExact(payload, at, 2, |e.name|);
    TakeIs(payload, at + 2, e.name);
    ReadIntegerExact(payload, at + 2 + |e.name|, 8, e.length);
    ReadIntegerExact(payload, at + 2 + |e.name| + 8, 4, e.count);
    OccursJoin(payload, a, e.name + (b + c), at);
    OccursJoin(payload, e.name, b + c, at + 2);
    OccursJoin(payload, b, c, at + 2 + |e.name|);
    var length := ReadInteger(payload, at, 2);
    if length.Accepted? && Take(payload, at + 2, length.value).Accepted? {
      assert |Take(payload, at + 2, length.value).value| == length.value;
    }
  }

  ghost predicate LegacyStands(payload: seq<byte>, entries: seq<Entry>, at: nat)
    decreases |entries|
  {
    if entries == [] then at == |payload|
    else
      var e := entries[0]; var next := at + |e.name| + 14;
      && OccursAt(payload, LegacyBytes(e.name, e.length, |e.extents|), at) && ExtentsOccur(payload, e.extents, next)
      && LegacyStands(payload, entries[1..], next + 24 * |e.extents|)
  }

  ghost predicate LegacyOk(data: seq<byte>, commitOffset: nat, regions: Regions, e: Entry) {
    && |e.name| < 0x1_0000 && e.length <= U64_MAX && |e.extents| < 0x1_0000_0000
    && Inline(e.extents, 0, e.length, commitOffset) && Builds(regions, e.name, e.length, e.extents, data)
  }

  ghost predicate LegacyAllOk(data: seq<byte>, commitOffset: nat, regions: Regions, seen: set<seq<byte>>,
                              entries: seq<Entry>)
  {
    && (forall i :: 0 <= i < |entries| ==> LegacyOk(data, commitOffset, regions, entries[i])
                                           && entries[i].name !in seen)
    && (forall i, j :: 0 <= i < j < |entries| ==> entries[i].name != entries[j].name)
  }

  lemma LegacyStep(data: seq<byte>, commitOffset: nat, regions: Regions, seen: set<seq<byte>>, e: Entry,
                   rest: seq<Entry>)
    ensures LegacyAllOk(data, commitOffset, regions, seen, [e] + rest) <==>
            && LegacyOk(data, commitOffset, regions, e) && e.name !in seen
            && LegacyAllOk(data, commitOffset, regions, seen + {e.name}, rest)
  {
    hide LegacyOk;
    var all := [e] + rest;
    assert all[0] == e && forall i :: 1 <= i < |all| ==> all[i] == rest[i - 1];
    if LegacyAllOk(data, commitOffset, regions, seen, all) {
      forall i | 0 <= i < |rest|
        ensures LegacyOk(data, commitOffset, regions, rest[i]) && rest[i].name !in seen + {e.name}
      {
        assert all[i + 1] == rest[i] && all[0].name != all[i + 1].name;
      }
      forall i, j | 0 <= i < j < |rest| ensures rest[i].name != rest[j].name {
        assert all[i + 1] == rest[i] && all[j + 1] == rest[j];
      }
    }
  }

  /** The first region: its fixed part, its extents and what they build. */
  lemma LegacyFirst(data: seq<byte>, payload: seq<byte>, at: nat, commitOffset: nat, regions: Regions, e: Entry)
    ensures var region := LegacyRegion(e.name, e.length, |e.extents|, at + |e.name| + 14);
            && ReadLegacyEntry(payload, at) == Accepted(region) && RegionOk(regions, e.name, e.length)
            && LegacyExtents(payload, region.next, region.count, e.length, commitOffset, 0) == Accepted(e.extents)
            && RegionMatches(regions[e.name], e.extents, data, 0) <==>
            && LegacyOk(data, commitOffset, regions, e)
            && OccursAt(payload, LegacyBytes(e.name, e.length, |e.extents|), at)
            && ExtentsOccur(payload, e.extents, region.next)
  {
    hide ReadLegacyEntry, LegacyExtents, OccursAt, ExtentsOccur, RegionMatches, RegionOk, Builds, LegacyBytes;
    var region := LegacyRegion(e.name, e.length, |e.extents|, at + |e.name| + 14);
    ReadLegacyExact(payload, at, region);
    LegacyExtentsExact(payload, region.next, region.count, e.length, commitOffset, 0, e.extents);
    if Inline(e.extents, 0, e.length, commitOffset) { BuildsIs(regions, e.name, e.length, e.extents, data); }
  }

  lemma {:induction false} LegacyEntriesExact(data: seq<byte>, payload: seq<byte>, at: nat, left: nat,
                                              seen: set<seq<byte>>, commitOffset: nat, regions: Regions,
                                              entries: seq<Entry>)
    ensures LegacyEntries(data, payload, at, left, seen, commitOffset, regions) == Accepted(entries) <==>
            && |entries| == left && LegacyAllOk(data, commitOffset, regions, seen, entries)
            && LegacyStands(payload, entries, at)
    decreases left
  {
    hide ReadLegacyEntry, LegacyExtents, OccursAt, ExtentsOccur, RegionMatches, RegionOk, LegacyOk, LegacyBytes;
    if left > 0 {
      if entries != [] {
        var e, rest := entries[0], entries[1..];
        assert entries == [e] + rest;
        LegacyFirst(data, payload, at, commitOffset, regions, e);
        LegacyStep(data, commitOffset, regions, seen, e, rest);
        hide LegacyAllOk;
        LegacyEntriesExact(data, payload, at + |e.name| + 14 + 24 * |e.extents|, left - 1, seen + {e.name},
                           commitOffset, regions, rest);
      }
      LegacyEntriesFirst(data, payload, at, left, seen, commitOffset, regions);
    }
  }

  lemma LegacyEntriesFirst(data: seq<byte>, payload: seq<byte>, at: nat, left: nat, seen: set<seq<byte>>,
                           commitOffset: nat, regions: Regions)
    requires left > 0
    ensures var read := LegacyEntries(data, payload, at, left, seen, commitOffset, regions);
            read.Accepted? ==>
              && read.value != []
              && var e, rest := read.value[0], read.value[1..];
              && e.name !in seen && RegionOk(regions, e.name, e.length)
              && var region := LegacyRegion(e.name, e.length, |e.extents|, at + |e.name| + 14);
              && ReadLegacyEntry(payload, at) == Accepted(region)
              && LegacyExtents(payload, region.next, region.count, e.length, commitOffset, 0) == Accepted(e.extents)
              && RegionMatches(regions[e.name], e.extents, data, 0)
              && LegacyEntries(data, payload, region.next + 24 * region.count, left - 1, seen + {e.name}, commitOffset,
                               regions) == Accepted(rest)
  {
    hide ReadLegacyEntry, LegacyExtents, RegionMatches, RegionOk, LegacyBytes, OccursAt;
    var read := LegacyEntries(data, payload, at, left, seen, commitOffset, regions);
    if read.Accepted? {
      var region, e := ReadLegacyEntry(payload, at).value, read.value[0];
      ReadLegacyExact(payload, at, region);
      LegacyExtentsExact(payload, region.next, region.count, region.length, commitOffset, 0, e.extents);
    }
  }

  /** The payload is the legacy catalogue of exactly the given regions. */
  ghost predicate IsLegacy(data: seq<byte>, payload: seq<byte>, commitOffset: nat, regions: Regions,
                           entries: seq<Entry>)
  {
    && |payload| <= MAX_COMMIT_SNAPSHOT_BYTES && |entries| < 0x1_0000_0000
    && OccursAt(payload, LEGACY_MAGIC + LeBytes(|entries|, 4), 0) && LegacyStands(payload, entries, 12)
    && LegacyAllOk(data, commitOffset, regions, {}, entries)
    && forall name :: name in regions ==> exists i :: 0 <= i < |entries| && entries[i].name == name
  }

  lemma LegacyNamesAre(data: seq<byte>, commitOffset: nat, regions: Regions, entries: seq<Entry>)
    requires LegacyAllOk(data, commitOffset, regions, {}, entries)
    ensures Names(entries) == regions.Keys <==>
            forall name :: name in regions ==> exists i :: 0 <= i < |entries| && entries[i].name == name
  {
    hide Inline, Laid, Overlay, ValidRegionName;
    forall e | e in entries ensures e.name in regions {
      var i :| 0 <= i < |entries| && entries[i] == e;
      assert LegacyOk(data, commitOffset, regions, entries[i]);
    }
    if Names(entries) == regions.Keys {
      forall name | name in regions ensures exists i :: 0 <= i < |entries| && entries[i].name == name {
        assert name in Names(entries);
        var e :| e in entries && e.name == name;
        var i :| 0 <= i < |entries| && entries[i] == e;
      }
    }
    if forall name :: name in regions ==> exists i :: 0 <= i < |entries| && entries[i].name == name {
      forall name | name in regions ensures name in Names(entries) {
        var i :| 0 <= i < |entries| && entries[i].name == name;
        assert entries[i] in entries;
      }
    }
  }

  /** A legacy catalogue is accepted exactly when its bytes are the catalogue of the replayed namespace. */
  lemma LegacyExact(data: seq<byte>, payload: seq<byte>, commitOffset: nat, regions: Regions, entries: seq<Entry>)
    ensures LegacyCatalogue(data, payload, commitOffset, regions) == Accepted(entries) <==>
            IsLegacy(data, payload, commitOffset, regions, entries)
  {
    hide LegacyEntries, LegacyAllOk, LegacyStands, Names, LeBytes, OccursAt, ReadInteger, Take;
    var read := LegacyCatalogue(data, payload, commitOffset, regions);
    CountRead(payload, LEGACY_MAGIC, |entries|);
    LegacyEntriesExact(data, payload, 12, |entries|, {}, commitOffset, regions, entries);
    if read == Accepted(entries) {
      var n := ReadInteger(payload, 8, 4).value;
      LegacyEntriesExact(data, payload, 12, n, {}, commitOffset, regions, entries);
      LegacyNamesAre(data, commitOffset, regions, entries);
    }
    if IsLegacy(data, payload, commitOffset, regions, entries) {
      LegacyNamesAre(data, commitOffset, regions, entries);
      OccursSize(payload, LEGACY_MAGIC + LeBytes(|entries|, 4));
    }
  }

  lemma OccursSize(payload: seq<byte>, s: seq<byte>)
    requires OccursAt(payload, s, 0)
    ensures |s| <= |payload|
  {}

  /** A commit's catalogue is accepted exactly when it is the paged or the legacy catalogue of the namespace. */
  lemma CatalogueExact(h: Hash, data: seq<byte>, payload: seq<byte>, offset: nat, sequence: nat, regions: Regions,
                       pages: set<nat>, entries: seq<Entry>)
    ensures Catalogue(h, data, payload, offset, sequence, regions, pages) == Accepted(entries) <==>
            IsLegacy(data, payload, offset, regions, entries)
            || exists specs :: IsPaged(h, data, payload, offset, sequence, regions, pages, specs)
                               && entries == EntriesOf(specs)
  {
    hide PagedCatalogue, LegacyCatalogue, SpecsOk, SpecsStand, EntriesOf, LegacyStands, LegacyAllOk;
    PagedExact(h, data, payload, offset, sequence, regions, pages, entries);
    LegacyExact(data, payload, offset, regions, entries);
    MagicsDiffer(payload);
  }

  lemma MagicsDiffer(payload: seq<byte>)
    ensures forall n: nat :: OccursAt(payload, PAGED_MAGIC + LeBytes(n, 4), 0) ==> StartsWith(payload, PAGED_MAGIC)
    ensures forall n: nat :: OccursAt(payload, LEGACY_MAGIC + LeBytes(n, 4), 0) ==> !StartsWith(payload, PAGED_MAGIC)
  {
    hide LeBytes;
    assert PAGED_MAGIC[6] != LEGACY_MAGIC[6];
    forall n: nat | OccursAt(payload, PAGED_MAGIC + LeBytes(n, 4), 0) ensures StartsWith(payload, PAGED_MAGIC) {
      OccursJoin(payload, PAGED_MAGIC, LeBytes(n, 4), 0);
    }
    forall n: nat | OccursAt(payload, LEGACY_MAGIC + LeBytes(n, 4), 0) ensures !StartsWith(payload, PAGED_MAGIC) {
      OccursJoin(payload, LEGACY_MAGIC, LeBytes(n, 4), 0);
      assert payload[..8][6] == LEGACY_MAGIC[6];
    }
  }
}
