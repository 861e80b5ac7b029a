/**
 * Recovery of the hosted volume: an append-only log of checksummed region mutations with commit
 * records. Recovery returns the namespace at the last commit; the main theorem says what that is on
 * every crash prefix of a recoverable file.
 */
module VolumeReplay {
  import opened Bytes
  import opened Outcomes
  import opened Objects
  import opened ExtentIndex
  import opened VolumeCheckpoint
  import opened VolumeRecords
  import opened VolumeMutations
  import VolumeValidators

  const VOLUME_MAGIC: seq<byte> := [65, 83, 84, 86, 79, 76, 49, 0]
  const COMMIT_REGION: seq<byte> := Ascii("system/volume-commit")

  datatype State = State(regions: Regions, committed: Regions, pages: set<nat>, sequence: nat)

  predicate IsCommit(record: LogRecord) {
    record.operation == 8
  }

  /** The checks and bookkeeping of index-page and commit records, then the mutation. */
  function Apply(h: Hash, data: seq<byte>, st: State, record: LogRecord): (r: Result<State>)
    ensures r.Accepted? ==> r.value.sequence == record.sequence
    ensures r.Accepted? ==> r.value.committed == if IsCommit(record) then r.value.regions else st.committed
  {
    var LogRecord(offset, _, sequence, operation, name, logicalOffset, payload, checksum) := record;
    if operation == 9 then
      var _ :- Check(name == INDEX_PAGE_REGION && logicalOffset == 0);
      var _ :- IndexPage(payload, offset, sequence, checksum);
      Accepted(st.(pages := st.pages + {offset}, sequence := sequence))
    else if operation == 8 then
      var _ :- Check(name == COMMIT_REGION && logicalOffset == 0 && |payload| <= MAX_COMMIT_SNAPSHOT_BYTES);
      var _ :- Check(payload != [] ==> Catalogue(h, data, payload, offset, sequence, st.regions, st.pages).Accepted?);
      Accepted(st.(committed := st.regions, sequence := sequence))
    else
      var regions :- Mutate(st.regions, record);
      Accepted(st.(regions := regions, sequence := sequence))
  }

  // ---------------------------------------------------------------- replay

  ghost function Replay(h: Hash, data: seq<byte>, offset: nat, st: State): Result<State>
    decreases |data| - offset
  {
    match Find(h, data, offset, st.sequence)
    case End => Accepted(st)
    case Malformed => Rejected
    case Damaged => if ValidRecordAfter(h, data, offset + 1) then Rejected else Accepted(st)
    case Good(record) =>
      var next :- Apply(h, data, st, record);
      Replay(h, data, offset + record.total, next)
  }

  function Start(): State {
    State(map[], map[], {}, 0)
  }

  /** The recovered namespace. */
  ghost function Recover(h: Hash, data: seq<byte>): Result<Regions> {
    var _ :- Check(StartsWith(data, VOLUME_MAGIC));
    var st :- Replay(h, data, 8, Start());
    Accepted(st.committed)
  }

  /** One record of the replay loop; catalogues and pages go through their own validators. */
  method ApplyRecord(h: Hash, data: seq<byte>, st: State, record: LogRecord) returns (r: Result<State>)
    ensures r == Apply(h, data, st, record)
    ensures r.Accepted? ==> Effect(st.regions, record, r.value.regions)
    ensures r.Rejected? && record.operation <= 7 ==> forall after :: !Effect(st.regions, record, after)
  {
    hide IndexPage, PagedCatalogue, LegacyCatalogue, Mutate, StartsWith, Effect;
    forall after ensures Mutate(st.regions, record) == Accepted(after) <==> Effect(st.regions, record, after) {
      MutateExact(st.regions, record, after);
    }
    if record.operation > 7 { NoEffect(st.regions, record); }
    var LogRecord(offset, _, sequence, operation, name, logicalOffset, payload, checksum) := record;
    if operation == 9 {
      if name != INDEX_PAGE_REGION || logicalOffset != 0 { return Rejected; }
      var page := ReadIndexPage(payload, offset, sequence, checksum);
      if page.Rejected? { return Rejected; }
      return Accepted(st.(pages := st.pages + {offset}, sequence := sequence));
    }
    if operation == 8 {
      if name != COMMIT_REGION || logicalOffset != 0 || |payload| > MAX_COMMIT_SNAPSHOT_BYTES { return Rejected; }
      if payload != [] {
        var ok;
        if StartsWith(payload, PAGED_MAGIC) {
          ok := VolumeValidators.ValidatePagedCheckpoint(h, data, payload, offset, sequence, st.regions, st.pages);
        } else {
          ok := VolumeValidators.ValidateLegacySnapshot(data, payload, offset, st.regions);
        }
        if !ok { return Rejected; }
      }
      return Accepted(st.(committed := st.regions, sequence := sequence));
    }
    var regions :- Mutate(st.regions, record);
    return Accepted(st.(regions := regions, sequence := sequence));
  }

  lemma NoEffect(regions: Regions, record: LogRecord)
    requires record.operation > 7
    ensures Effect(regions, record, regions)
  {}

  method RecoverVolume(h: Hash, data: seq<byte>) returns (r: Result<Regions>)
    ensures r == Recover(h, data)
    ensures forall regions :: r == Accepted(regions) <==> exists records :: IsRecovery(h, data, regions, records)
  {
    hide Find, Apply, StartsWith, ValidRecordAfter, IsRecovery, Effect;
    forall regions
      ensures Recover(h, data) == Accepted(regions) <==> exists records :: IsRecovery(h, data, regions, records)
    {
      RecoveryIs(h, data, regions);
    }
    if !StartsWith(data, VOLUME_MAGIC) { return Rejected; }
    var st, offset := Start(), 8;
    while offset < |data|
      invariant Replay(h, data, 8, Start()) == Replay(h, data, offset, st)
      decreases |data| - offset
    {
      match Find(h, data, offset, st.sequence) {
        case End => break;
        case Malformed => return Rejected;
        case Damaged =>
          var valid := HasValidRecordAfter(h, data, offset + 1);
          if valid { return Rejected; }
          break;
        case Good(record) =>
          var next := ApplyRecord(h, data, st, record);
          if next.Rejected? { return Rejected; }
          st, offset := next.value, offset + record.total;
      }
    }
    assert offset >= |data| ==> Find(h, data, offset, st.sequence) == End by {
      FindAtEnd(h, data, offset, st.sequence);
    }
    return Accepted(st.committed);
  }

  // ---------------------------------------------------------------- what is recovered

  /** Records standing end to end, each with the next sequence number. */
  ghost predicate RecordsStand(h: Hash, data: seq<byte>, offset: nat, sequence: nat, records: seq<LogRecord>)
    decreases |records|
  {
    records != [] ==>
      && Find(h, data, offset, sequence) == Good(records[0])
      && RecordsStand(h, data, offset + records[0].total, records[0].sequence, records[1..])
  }

  ghost function EndOf(offset: nat, records: seq<LogRecord>): nat
    decreases |records|
  {
    if records == [] then offset else EndOf(offset + records[0].total, records[1..])
  }

  /** The state after applying records one after the other. */
  ghost function ApplyAll(h: Hash, data: seq<byte>, st: State, records: seq<LogRecord>): Result<State>
    decreases |records|
  {
    if records == [] then Accepted(st)
    else
      var next :- Apply(h, data, st, records[0]);
      ApplyAll(h, data, next, records[1..])
  }

  /** What may stand behind the last record: a torn record, or damage that no valid record follows. */
  ghost predicate QuietEnd(h: Hash, data: seq<byte>, at: nat, sequence: nat) {
    var found := Find(h, data, at, sequence);
    found.End? || (found.Damaged? && !ValidRecordAfter(h, data, at + 1))
  }

  /** The replayed records of a volume. */
  ghost predicate IsReplay(h: Hash, data: seq<byte>, offset: nat, st: State, records: seq<LogRecord>, end: State) {
    && RecordsStand(h, data, offset, st.sequence, records) && ApplyAll(h, data, st, records) == Accepted(end)
    && QuietEnd(h, data, EndOf(offset, records), end.sequence)
  }

  /** Replay succeeds iff acceptable records stand end to end up to a quiet end. */
  lemma {:induction false} ReplayExact(h: Hash, data: seq<byte>, offset: nat, st: State, end: State)
    ensures Replay(h, data, offset, st) == Accepted(end) <==>
            exists records :: IsReplay(h, data, offset, st, records, end)
    decreases |data| - offset
  {
    hide Find, Apply, ValidRecordAfter;
    match Find(h, data, offset, st.sequence) {
      case Good(record) =>
        if Apply(h, data, st, record).Accepted? {
          var next := Apply(h, data, st, record).value;
          ReplayExact(h, data, offset + record.total, next, end);
          if Replay(h, data, offset, st) == Accepted(end) {
            var rest :| IsReplay(h, data, offset + record.total, next, rest, end);
            var records := [record] + rest;
            assert records[1..] == rest && IsReplay(h, data, offset, st, records, end);
          }
          forall records | IsReplay(h, data, offset, st, records, end)
            ensures IsReplay(h, data, offset + record.total, next, records[1..], end)
          {}
        } else {
          forall records ensures !IsReplay(h, data, offset, st, records, end) {}
        }
      case Malformed => forall records ensures !IsReplay(h, data, offset, st, records, end) {}
      case End => NoMoreRecords(h, data, offset, st, end);
      case Damaged => NoMoreRecords(h, data, offset, st, end);
    }
  }

  lemma NoMoreRecords(h: Hash, data: seq<byte>, offset: nat, st: State, end: State)
    requires !Find(h, data, offset, st.sequence).Good?
    ensures (exists records :: IsReplay(h, data, offset, st, records, end)) <==>
            end == st && QuietEnd(h, data, offset, st.sequence)
  {
    hide Find, Apply, QuietEnd;
    if end == st && QuietEnd(h, data, offset, st.sequence) { assert IsReplay(h, data, offset, st, [], end); }
    forall records | IsReplay(h, data, offset, st, records, end) ensures records == [] {}
  }

  /** How many of the first n records stand up to the last commit among them. */
  ghost function LastCommitted(records: seq<LogRecord>, n: nat): (k: nat)
    requires n <= |records|
    ensures k <= n && (k > 0 ==> IsCommit(records[k - 1])) && forall i :: k <= i < n ==> !IsCommit(records[i])
  {
    if n == 0 then 0 else if IsCommit(records[n - 1]) then n else LastCommitted(records, n - 1)
  }

  /** The state is what the first n records make of the empty volume. */
  ghost predicate Reached(records: seq<LogRecord>, n: nat, st: State)
    requires n <= |records|
  {
    RunAll(records, n) == Accepted(st.regions) && RunAll(records, LastCommitted(records, n)) == Accepted(st.committed)
  }

  lemma {:induction false} AppliedRuns(h: Hash, data: seq<byte>, records: seq<LogRecord>, n: nat, st: State)
    requires n <= |records| && Reached(records, n, st) && ApplyAll(h, data, st, records[n..]).Accepted?
    ensures Reached(records, |records|, ApplyAll(h, data, st, records[n..]).value)
    decreases |records| - n
  {
    hide Apply, Mutate;
    if n < |records| {
      var r := records[n];
      var next := Apply(h, data, st, r).value;
      assert records[n..][0] == r && records[n..][1..] == records[n + 1..];
      ApplyMutates(h, data, st, r);
      AppliedRuns(h, data, records, n + 1, next);
    } else {
      assert records[n..] == [];
    }
  }

  lemma ApplyMutates(h: Hash, data: seq<byte>, st: State, r: LogRecord)
    requires Apply(h, data, st, r).Accepted?
    ensures Mutate(st.regions, r) == Accepted(Apply(h, data, st, r).value.regions)
  {
    hide IndexPage, Catalogue;
  }

  /**
   * A recovery: acceptable records stand end to end from the header to a quiet end, the namespace is what they make of
   * an empty volume up to the last commit, and each byte of it was put there by the last record that wrote it.
   */
  ghost predicate IsRecovery(h: Hash, data: seq<byte>, regions: Regions, records: seq<LogRecord>) {
    && StartsWith(data, VOLUME_MAGIC) && (exists end :: IsReplay(h, data, 8, Start(), records, end))
    && var k := LastCommitted(records, |records|);
    && RunAll(records, k) == Accepted(regions)
    && forall name, i :: Explained(records, k, regions, name, i)
  }

  lemma RecoveryIs(h: Hash, data: seq<byte>, regions: Regions)
    ensures Recover(h, data) == Accepted(regions) <==> exists records :: IsRecovery(h, data, regions, records)
  {
    hide Replay, IsReplay, StartsWith, Explained, RunAll;
    if Recover(h, data) == Accepted(regions) {
      var end := Replay(h, data, 8, Start()).value;
      ReplayExact(h, data, 8, Start(), end);
      var records :| IsReplay(h, data, 8, Start(), records, end);
      ReplayReaches(h, data, records, end);
      assert IsRecovery(h, data, regions, records);
    }
    forall records | IsRecovery(h, data, regions, records) ensures Recover(h, data) == Accepted(regions) {
      var end :| IsReplay(h, data, 8, Start(), records, end);
      ReplayExact(h, data, 8, Start(), end);
      ReplayReaches(h, data, records, end);
    }
  }

  lemma ReplayReaches(h: Hash, data: seq<byte>, records: seq<LogRecord>, end: State)
    requires IsReplay(h, data, 8, Start(), records, end)
    ensures var k := LastCommitted(records, |records|);
            && RunAll(records, k) == Accepted(end.committed)
            && forall name, i :: Explained(records, k, end.committed, name, i)
  {
    hide RecordsStand, QuietEnd, Explained, Mutate, Apply;
    assert records[0..] == records;
    AppliedRuns(h, data, records, 0, Start());
    forall name, i: nat ensures Explained(records, LastCommitted(records, |records|), end.committed, name, i) {
      BytesHaveOrigins(records, LastCommitted(records, |records|), name, i);
    }
  }

  // ---------------------------------------------------------------- crash prefixes

  lemma ApplyOfPrefix(h: Hash, data: seq<byte>, st: State, record: LogRecord, k: nat)
    requires record.offset <= k <= |data|
    ensures Apply(h, data[..k], st, record) == Apply(h, data, st, record)
  {
    hide Catalogue, IndexPage, Mutate;
    CatalogueOfPrefix(h, data, record.payload, record.offset, record.sequence, st.regions, st.pages, k);
  }

  /** One replayed record: where it ends, whether it commits, and the namespace right after it. */
  datatype Event = Event(end: nat, commit: bool, regions: Regions)

  /** The replayed records of a file, in order. */
  ghost function Trace(h: Hash, data: seq<byte>, offset: nat, st: State): seq<Event>
    decreases |data| - offset
  {
    match Find(h, data, offset, st.sequence)
    case Good(record) =>
      (match Apply(h, data, st, record)
       case Accepted(next) =>
         [Event(offset + record.total, IsCommit(record), next.regions)]
         + Trace(h, data, offset + record.total, next)
       case Rejected => [])
    case _ => []
  }

  /** The namespace at the last commit record that ends within the first k bytes. */
  ghost function LastCommit(trace: seq<Event>, k: nat, before: Regions): Regions {
    if trace == [] then before
    else
      var e := trace[0];
      LastCommit(trace[1..], k, if e.commit && e.end <= k then e.regions else before)
  }

  lemma {:induction false} NoneFit(trace: seq<Event>, k: nat, before: Regions)
    requires forall i :: 0 <= i < |trace| ==> trace[i].end > k
    ensures LastCommit(trace, k, before) == before
  {
    if trace != [] { NoneFit(trace[1..], k, before); }
  }

  lemma {:induction false} TraceGrows(h: Hash, data: seq<byte>, offset: nat, st: State)
    ensures var trace := Trace(h, data, offset, st); forall i :: 0 <= i < |trace| ==> trace[i].end > offset
    decreases |data| - offset
  {
    hide Find, Apply;
    var found := Find(h, data, offset, st.sequence);
    if found.Good? && Apply(h, data, st, found.record).Accepted? {
      var next := Apply(h, data, st, found.record).value;
      TraceGrows(h, data, offset + found.record.total, next);
      var trace := Trace(h, data, offset, st);
      assert trace[1..] == Trace(h, data, offset + found.record.total, next);
      forall i | 0 <= i < |trace| ensures trace[i].end > offset {
        if i > 0 { assert trace[i] == trace[1..][i - 1]; }
      }
    }
  }

  /** Replaying a prefix of a replayable file succeeds and commits what the full replay had committed by then. */
  lemma {:induction false} ReplayOfPrefix(h: Hash, data: seq<byte>, offset: nat, st: State, k: nat)
    requires offset <= k <= |data| && Replay(h, data, offset, st).Accepted?
    ensures Replay(h, data[..k], offset, st).Accepted?
    ensures Replay(h, data[..k], offset, st).value.committed == LastCommit(Trace(h, data, offset, st), k, st.committed)
    decreases |data| - offset
  {
    hide Find, Apply, ValidRecordAfter;
    FindOfPrefix(h, data, offset, st.sequence, k);
    match Find(h, data, offset, st.sequence) {
      case Damaged => NoneAfterInPrefix(h, data, offset + 1, k);
      case Good(record) =>
        var next := Apply(h, data, st, record).value;
        var end := offset + record.total;
        var trace := Trace(h, data, offset, st);
        assert trace[1..] == Trace(h, data, end, next);
        ApplyOfPrefix(h, data, st, record, k);
        if end <= k {
          ReplayOfPrefix(h, data, end, next, k);
        } else {
          TraceGrows(h, data, end, next);
          forall i | 0 <= i < |trace| ensures trace[i].end > k {
            if i > 0 { assert trace[i] == trace[1..][i - 1]; }
          }
          NoneFit(trace, k, st.committed);
        }
      case _ =>
    }
  }

  /**
   * Crash-prefix recovery: if a volume is recoverable, so is every prefix that keeps its header, and
   * the result is exactly the namespace at the last commit record wholly inside the prefix.
   */
  lemma RecoveryOfPrefix(h: Hash, data: seq<byte>, k: nat)
    requires Recover(h, data).Accepted? && 8 <= k <= |data|
    ensures Recover(h, data[..k]) == Accepted(LastCommit(Trace(h, data, 8, Start()), k, map[]))
  {
    hide Replay, Trace;
    ReplayOfPrefix(h, data, 8, Start(), k);
    assert data[..k][..8] == data[..8];
  }
}
