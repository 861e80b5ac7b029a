/**
 * What recovery of a volume accepts, said without the replay: records stand end to end behind the header, each acts on
 * the state the one before it left, and nothing but a torn or a damaged tail follows them.
 */
module VolumeHistory {
  import opened Bytes
  import opened Outcomes
  import opened Objects
  import opened ExtentIndex
  import opened VolumeCheckpoint
  import opened VolumeRecords
  import opened VolumeMutations
  import opened VolumeReplay
  import opened ExtentForms
  import opened CatalogueForms

  // ---------------------------------------------------------------- index pages in the log

  /** A leaf page with extents before this record, or a branch page with children before it. */
  ghost predicate IsIndexPage(payload: seq<byte>, r: IndexReference, extents: seq<Extent>,
                              children: seq<IndexReference>)
  {
    && Fits(r) && 8 <= r.offset && 0 < r.sequence && r.level < 64
    && if r.level == 0
       then children == [] && LeafNode(r, extents) && payload == PageBytes(0, ExtentSlots(extents))
       else extents == [] && BranchNode(r, children) && payload == PageBytes(r.level, ReferenceSlots(children))
  }

  ghost predicate HoldsPage(payload: seq<byte>, offset: nat, sequence: nat, checksum: seq<byte>) {
    exists r, extents, children ::
      && IsIndexPage(payload, r, extents, children)
      && r.offset == offset && r.sequence == sequence && r.checksum == checksum
  }

  lemma PageRead(payload: seq<byte>, r: IndexReference, extents: seq<Extent>, children: seq<IndexReference>)
    requires IsIndexPage(payload, r, extents, children)
    ensures IndexPage(payload, r.offset, r.sequence, r.checksum).Accepted?
  {
    hide PageBytes, FramingOk, LeafNode, EntriesOk, Extents, Children, Summary, IndexPage, PageCount, PageLevel,
         ExtentSlots, ReferenceSlots;
    if r.level == 0 { LeafFrames(payload, r, extents); } else { BranchFrames(payload, r, children); }
    SummaryNeverRejects(payload, r.offset, r.sequence, r.checksum);
  }

  lemma ReadPage(payload: seq<byte>, offset: nat, sequence: nat, checksum: seq<byte>)
    requires IndexPage(payload, offset, sequence, checksum).Accepted?
    ensures HoldsPage(payload, offset, sequence, checksum)
  {
    PageSummary(payload, offset, sequence, checksum);
    hide IndexPage, FramingOk, EntriesOk, PageBytes, ExtentSlots, ReferenceSlots, LeafNode, BranchNode, SlotsAt,
         PageCount;
    var r := ExtentIndex.Summary(payload, offset, sequence, checksum);
    FramedIsPage(payload);
    if r.level == 0 {
      LeafSlots(payload);
      LeafIsNode(payload, r);
      assert IsIndexPage(payload, r, Extents(payload), []);
    } else {
      BranchSlots(payload, offset, sequence);
      BranchIsNode(payload, r);
      assert BranchNode(r, Children(payload, offset, sequence));
      BranchFits(r, Children(payload, offset, sequence));
      assert IsIndexPage(payload, r, [], Children(payload, offset, sequence));
    }
  }

  lemma BranchFits(r: IndexReference, children: seq<IndexReference>)
    requires BranchNode(r, children)
    ensures AllFit(children)
  {}

  lemma PageSummary(payload: seq<byte>, offset: nat, sequence: nat, checksum: seq<byte>)
    requires IndexPage(payload, offset, sequence, checksum).Accepted?
    ensures FramingOk(payload) && EntriesOk(payload, offset, sequence, PageCount(payload))
    ensures var r := ExtentIndex.Summary(payload, offset, sequence, checksum);
            Fits(r) && 8 <= r.offset && 0 < r.sequence && r.level < 64 && r.level == PageLevel(payload)
  {
    hide FramingOk, EntriesOk, EncodeReference, ReadReference, RangeAt, TotalUpTo;
    var summary := ExtentIndex.Summary(payload, offset, sequence, checksum);
    assert Fits(summary);
    ReferenceRoundTrip(summary);
  }

  // ---------------------------------------------------------------- one record

  /** The payload of a commit record: nothing, or a catalogue of the namespace. */
  ghost predicate Commits(h: Hash, data: seq<byte>, st: State, r: LogRecord) {
    && r.name == COMMIT_REGION && r.logicalOffset == 0
    && (r.payload == []
        || (exists entries :: IsLegacy(data, r.payload, r.offset, st.regions, entries))
        || (exists specs :: IsPaged(h, data, r.payload, r.offset, r.sequence, st.regions, st.pages, specs)))
  }

  /** What a record does to the state of a recovery. */
  ghost predicate Acts(h: Hash, data: seq<byte>, st: State, r: LogRecord, next: State) {
    && Effect(st.regions, r, next.regions) && next.sequence == r.sequence
    && (if r.operation == 8 then Commits(h, data, st, r) && next.committed == st.regions
        else next.committed == st.committed)
    && (if r.operation == 9
        then r.name == INDEX_PAGE_REGION && r.logicalOffset == 0
             && HoldsPage(r.payload, r.offset, r.sequence, r.checksum) && next.pages == st.pages + {r.offset}
        else next.pages == st.pages)
  }

  lemma CatalogueIs(h: Hash, data: seq<byte>, st: State, r: LogRecord)
    requires r.payload != []
    ensures |r.payload| <= MAX_COMMIT_SNAPSHOT_BYTES
            && Catalogue(h, data, r.payload, r.offset, r.sequence, st.regions, st.pages).Accepted? <==>
            (exists entries :: IsLegacy(data, r.payload, r.offset, st.regions, entries))
            || (exists specs :: IsPaged(h, data, r.payload, r.offset, r.sequence, st.regions, st.pages, specs))
  {
    hide Catalogue, SpecsOk, SpecsStand, LegacyStands, LegacyAllOk, EntriesOf, OccursAt;
    var read := Catalogue(h, data, r.payload, r.offset, r.sequence, st.regions, st.pages);
    if read.Accepted? { CatalogueExact(h, data, r.payload, r.offset, r.sequence, st.regions, st.pages, read.value); }
    if entries :| IsLegacy(data, r.payload, r.offset, st.regions, entries) {
      CatalogueExact(h, data, r.payload, r.offset, r.sequence, st.regions, st.pages, entries);
    }
    if specs :| IsPaged(h, data, r.payload, r.offset, r.sequence, st.regions, st.pages, specs) {
      CatalogueExact(h, data, r.payload, r.offset, r.sequence, st.regions, st.pages, EntriesOf(specs));
    }
  }

  /** A record is applied exactly as it acts. */
  lemma ApplyExact(h: Hash, data: seq<byte>, st: State, r: LogRecord, next: State)
    ensures Apply(h, data, st, r) == Accepted(next) <==> Acts(h, data, st, r, next)
  {
    hide IndexPage, Catalogue, Mutate, IsLegacy, IsPaged, HoldsPage, Effect;
    if r.operation == 9 {
      NoEffect(st.regions, r);
      OnlyThat(st.regions, r, next.regions);
      PageIs(r);
    } else if r.operation == 8 {
      NoEffect(st.regions, r);
      OnlyThat(st.regions, r, next.regions);
      if r.payload != [] { CatalogueIs(h, data, st, r); }
    } else {
      MutateExact(st.regions, r, next.regions);
    }
  }

  lemma OnlyThat(regions: Regions, r: LogRecord, after: Regions)
    requires r.operation > 7
    ensures Effect(regions, r, after) <==> after == regions
  {}

  lemma PageIs(r: LogRecord)
    ensures IndexPage(r.payload, r.offset, r.sequence, r.checksum).Accepted? <==>
            HoldsPage(r.payload, r.offset, r.sequence, r.checksum)
  {
    hide IndexPage, IsIndexPage;
    if IndexPage(r.payload, r.offset, r.sequence, r.checksum).Accepted? {
      ReadPage(r.payload, r.offset, r.sequence, r.checksum);
    }
    if HoldsPage(r.payload, r.offset, r.sequence, r.checksum) {
      var page, extents, children :| IsIndexPage(r.payload, page, extents, children) && page.offset == r.offset
                                     && page.sequence == r.sequence && page.checksum == r.checksum;
      PageRead(r.payload, page, extents, children);
    }
  }

  // ---------------------------------------------------------------- where records stand

  /** The n-th record stands here: in sequence, properly named, under a true checksum. */
  ghost predicate GoodAt(h: Hash, data: seq<byte>, at: nat, n: nat, r: LogRecord) {
    StandsChecked(h, data, at, r, true) && ValidRegionName(r.name) && r.sequence == n + 1
  }

  lemma GoodIs(h: Hash, data: seq<byte>, at: nat, n: nat, r: LogRecord)
    ensures Find(h, data, at, n) == Good(r) <==> GoodAt(h, data, at, n, r)
  {
    hide Find, Stands, ValidRegionName, RecordMaterial;
    RecordExact(h, data, at, n, r);
  }

  ghost predicate ValidFrom(h: Hash, data: seq<byte>, start: nat) {
    exists c: nat, r :: start <= c && StandsChecked(h, data, c, r, true) && ValidRegionName(r.name)
  }

  lemma ValidFromIs(h: Hash, data: seq<byte>, start: nat)
    ensures ValidRecordAfter(h, data, start) <==> ValidFrom(h, data, start)
  {
    hide PhysicallyValid, StandsChecked, ValidRegionName;
    if ValidRecordAfter(h, data, start) {
      var c: nat :| start <= c <= |data| && PhysicallyValid(h, data, c);
      ValidRecordExact(h, data, c);
    }
    if ValidFrom(h, data, start) {
      var c: nat, r :| start <= c && StandsChecked(h, data, c, r, true) && ValidRegionName(r.name);
      StandsInside(h, data, c, r);
      ValidRecordExact(h, data, c);
    }
  }

  lemma StandsInside(h: Hash, data: seq<byte>, at: nat, r: LogRecord)
    requires StandsChecked(h, data, at, r, true)
    ensures at <= |data|
  {
    hide FieldAt;
  }

  /** What may follow the records: too few bytes, a torn record, or a damaged one that no valid record follows. */
  ghost predicate Tail(h: Hash, data: seq<byte>, at: nat, n: nat) {
    || |data| < at + RECORD_BYTES || (exists a, b :: Torn(data, at, a, b))
    || ((exists r :: StandsChecked(h, data, at, r, false) && r.sequence == n + 1) && !ValidFrom(h, data, at + 1))
  }

  lemma TailIs(h: Hash, data: seq<byte>, at: nat, n: nat)
    ensures QuietEnd(h, data, at, n) <==> Tail(h, data, at, n)
  {
    hide Find, Torn, StandsChecked, ValidFrom, ValidRecordAfter;
    EndExact(h, data, at, n);
    DamagedExact(h, data, at, n);
    ValidFromIs(h, data, at + 1);
  }

  // ---------------------------------------------------------------- whole logs

  function OffsetFrom(start: nat, records: seq<LogRecord>, i: nat): nat
    requires i <= |records|
  {
    if i == 0 then start else OffsetFrom(start, records, i - 1) + records[i - 1].total
  }

  lemma {:induction false} OffsetBehind(start: nat, records: seq<LogRecord>, i: nat)
    requires 0 < i <= |records|
    ensures OffsetFrom(start, records, i) == OffsetFrom(start + records[0].total, records[1..], i - 1)
  {
    if i > 1 { OffsetBehind(start, records, i - 1); }
  }

  ghost predicate StepOk(h: Hash, data: seq<byte>, start: nat, n: nat, records: seq<LogRecord>, states: seq<State>,
                         i: nat)
    requires i < |records| < |states|
  {
    && GoodAt(h, data, OffsetFrom(start, records, i), n + i, records[i])
    && Acts(h, data, states[i], records[i], states[i + 1])
  }

  /** Records that stand end to end, the states they lead through, and a quiet tail. */
  ghost predicate Runs(h: Hash, data: seq<byte>, start: nat, n: nat, records: seq<LogRecord>, states: seq<State>) {
    && |states| == |records| + 1
    && (forall i :: 0 <= i < |records| ==> StepOk(h, data, start, n, records, states, i))
    && Tail(h, data, OffsetFrom(start, records, |records|), n + |records|)
  }

  lemma RunsBehind(h: Hash, data: seq<byte>, start: nat, n: nat, records: seq<LogRecord>, states: seq<State>)
    requires records != [] && |states| == |records| + 1
    ensures Runs(h, data, start, n, records, states) <==>
            StepOk(h, data, start, n, records, states, 0)
            && Runs(h, data, start + records[0].total, n + 1, records[1..], states[1..])
  {
    hide StepOk, Tail, OffsetFrom;
    var later, after, next, m := records[1..], states[1..], start + records[0].total, n + 1;
    OffsetBehind(start, records, |records|);
    if Runs(h, data, next, m, later, after) && StepOk(h, data, start, n, records, states, 0) {
      forall i | 0 <= i < |records| ensures StepOk(h, data, start, n, records, states, i) {
        if i > 0 { StepShifts(h, data, start, n, records, states, i - 1); }
      }
    }
    if Runs(h, data, start, n, records, states) {
      forall i | 0 <= i < |later| ensures StepOk(h, data, next, m, later, after, i) {
        StepShifts(h, data, start, n, records, states, i);
      }
    }
  }

  lemma StepShifts(h: Hash, data: seq<byte>, start: nat, n: nat, records: seq<LogRecord>, states: seq<State>, i: nat)
    requires i + 1 < |records| < |states|
    ensures StepOk(h, data, start, n, records, states, i + 1) <==>
            StepOk(h, data, start + records[0].total, n + 1, records[1..], states[1..], i)
  {
    hide GoodAt, Acts, OffsetFrom;
    OffsetBehind(start, records, i + 1);
  }

  lemma {:induction false} RunsAreReplayed(h: Hash, data: seq<byte>, start: nat, n: nat, records: seq<LogRecord>,
                                           states: seq<State>)
    requires Runs(h, data, start, n, records, states) && states[0].sequence == n
    ensures Replay(h, data, start, states[0]) == Accepted(states[|records|])
    decreases |records|
  {
    hide Find, Apply, GoodAt, Acts, ValidRecordAfter, Tail;
    if records == [] {
      assert OffsetFrom(start, records, 0) == start;
      TailIs(h, data, start, n);
    } else {
      RunsBehind(h, data, start, n, records, states);
      assert StepOk(h, data, start, n, records, states, 0) && OffsetFrom(start, records, 0) == start;
      GoodIs(h, data, start, n, records[0]);
      ApplyExact(h, data, states[0], records[0], states[1]);
      Sequenced(h, data, start, n, records[0], states[0], states[1]);
      RunsAreReplayed(h, data, start + records[0].total, n + 1, records[1..], states[1..]);
    }
  }

  lemma Sequenced(h: Hash, data: seq<byte>, at: nat, n: nat, r: LogRecord, st: State, next: State)
    requires GoodAt(h, data, at, n, r) && Acts(h, data, st, r, next)
    ensures next.sequence == n + 1
  {
    hide StandsChecked, Effect, Commits, HoldsPage;
  }

  lemma {:induction false} ReplayRuns(h: Hash, data: seq<byte>, start: nat, st: State)
    returns (records: seq<LogRecord>, states: seq<State>)
    requires Replay(h, data, start, st).Accepted?
    ensures Runs(h, data, start, st.sequence, records, states) && states[0] == st
    ensures Replay(h, data, start, st) == Accepted(states[|records|])
    decreases |data| - start
  {
    hide Find, Apply, GoodAt, Acts, ValidRecordAfter, Tail;
    var found := Find(h, data, start, st.sequence);
    if found.Good? {
      var r := found.record;
      var next := Apply(h, data, st, r).value;
      GoodIs(h, data, start, st.sequence, r);
      ApplyExact(h, data, st, r, next);
      Sequenced(h, data, start, st.sequence, r, st, next);
      var later, after := ReplayRuns(h, data, start + r.total, next);
      records, states := [r] + later, [st] + after;
      assert records[1..] == later && states[1..] == after && OffsetFrom(start, records, 0) == start;
      RunsBehind(h, data, start, st.sequence, records, states);
    } else {
      records, states := [], [st];
      assert OffsetFrom(start, records, 0) == start;
      TailIs(h, data, start, st.sequence);
    }
  }

  ghost predicate IsHistory(h: Hash, data: seq<byte>, records: seq<LogRecord>, states: seq<State>, regions: Regions) {
    && StartsWith(data, VOLUME_MAGIC) && Runs(h, data, 8, 0, records, states)
    && states[0] == State(map[], map[], {}, 0) && states[|records|].committed == regions
  }

  /** A volume is recovered as a namespace exactly when its bytes tell a history that committed it last. */
  lemma RecoveryExact(h: Hash, data: seq<byte>, regions: Regions)
    ensures Recover(h, data) == Accepted(regions) <==>
            exists records, states :: IsHistory(h, data, records, states, regions)
  {
    hide Replay, Runs, StartsWith;
    if Recover(h, data) == Accepted(regions) {
      var records, states := ReplayRuns(h, data, 8, Start());
      RunsCount(h, data, 8, 0, records, states);
      assert IsHistory(h, data, records, states, regions);
    }
    if records, states :| IsHistory(h, data, records, states, regions) {
      RunsCount(h, data, 8, 0, records, states);
      RunsAreReplayed(h, data, 8, 0, records, states);
    }
  }

  lemma RunsCount(h: Hash, data: seq<byte>, start: nat, n: nat, records: seq<LogRecord>, states: seq<State>)
    requires Runs(h, data, start, n, records, states)
    ensures |states| == |records| + 1
  {
    hide StepOk, Tail;
  }

  /** Interior damage is found: a damaged record that a valid one follows is never part of what recovery accepts. */
  lemma DamageIsFound(h: Hash, data: seq<byte>, records: seq<LogRecord>, states: seq<State>, r: LogRecord)
    requires |states| == |records| + 1 && states[0] == State(map[], map[], {}, 0)
    requires forall i :: 0 <= i < |records| ==> StepOk(h, data, 8, 0, records, states, i)
    requires StandsChecked(h, data, OffsetFrom(8, records, |records|), r, false) && r.sequence == |records| + 1
    requires ValidFrom(h, data, OffsetFrom(8, records, |records|) + 1)
    ensures Recover(h, data).Rejected?
  {
    hide Replay, StartsWith, StandsChecked, ValidFrom, StepOk;
    DamageRejects(h, data, 8, 0, records, states, r);
  }

  lemma {:induction false} DamageRejects(h: Hash, data: seq<byte>, start: nat, n: nat, records: seq<LogRecord>,
                                         states: seq<State>, r: LogRecord)
    requires |states| == |records| + 1 && states[0].sequence == n
    requires forall i :: 0 <= i < |records| ==> StepOk(h, data, start, n, records, states, i)
    requires StandsChecked(h, data, OffsetFrom(start, records, |records|), r, false)
    requires r.sequence == n + |records| + 1 && ValidFrom(h, data, OffsetFrom(start, records, |records|) + 1)
    ensures Replay(h, data, start, states[0]).Rejected?
    decreases |records|
  {
    hide Find, Apply, GoodAt, Acts, ValidRecordAfter, StandsChecked, ValidFrom;
    if records == [] {
      assert OffsetFrom(start, records, 0) == start;
      DamagedExact(h, data, start, n);
      ValidFromIs(h, data, start + 1);
    } else {
      var later, after, next, m := records[1..], states[1..], start + records[0].total, n + 1;
      assert StepOk(h, data, start, n, records, states, 0) && OffsetFrom(start, records, 0) == start;
      GoodIs(h, data, start, n, records[0]);
      ApplyExact(h, data, states[0], records[0], states[1]);
      Sequenced(h, data, start, n, records[0], states[0], states[1]);
      forall i | 0 <= i < |later| ensures StepOk(h, data, next, m, later, after, i) {
        StepShifts(h, data, start, n, records, states, i);
      }
      OffsetBehind(start, records, |records|);
      DamageRejects(h, data, next, m, later, after, r);
    }
  }
}
