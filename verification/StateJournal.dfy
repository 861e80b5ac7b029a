/**
 * The representation-state journal: a checkpoint followed by compare-and-swap frames. Over a whole accepted
 * run the state generation rises by one per frame, and the catalogue generation and the placement epoch rise
 * by exactly one each time the identity they belong to changes.
 */
module StateJournal {
  import opened Bytes
  import opened Outcomes
  import opened Objects
  import opened PhysicalFields
  import opened PhysicalRoots
  import opened PhysicalCodec
  import opened Frames

  /** Metadata values by kind and identity; what validates a checkpoint's maps is not looked into. */
  datatype Metadata = Metadata(values: map<(nat, ObjectId), seq<byte>>, validates: ObjectId -> bool)

  function Value(metadata: Metadata, kind: nat, id: ObjectId): Result<seq<byte>> {
    if (kind, id) in metadata.values then Accepted(metadata.values[(kind, id)]) else Rejected
  }

  function CatalogueAt(metadata: Metadata, id: ObjectId): Result<CatalogueRoot> {
    var bytes :- Value(metadata, 3, id);
    DecodeCatalogueRoot(bytes)
  }

  function PlacementsAt(metadata: Metadata, id: ObjectId): Result<PlacementSet> {
    var bytes :- Value(metadata, 4, id);
    DecodePlacementSet(bytes)
  }

  function StateAt(metadata: Metadata, id: ObjectId): Result<State> {
    var bytes :- Value(metadata, 5, id);
    DecodeState(bytes)
  }

  // ---------------------------------------------------------------- root generations

  function Bump(before: nat, reused: bool): nat {
    if reused then before else before + 1
  }

  /** validate_root_generations */
  predicate RootGenerations(metadata: Metadata, previous: Option<State>, current: State) {
    var catalogue, placements := CatalogueAt(metadata, current.catalogue), PlacementsAt(metadata, current.placements);
    catalogue.Accepted? && placements.Accepted? &&
    match previous
    case None => catalogue.value.generation == 1 && placements.value.epoch == 1
    case Some(prior) =>
      var catalogueBefore, placementsBefore := CatalogueAt(metadata, prior.catalogue),
          PlacementsAt(metadata, prior.placements);
      && catalogueBefore.Accepted? && placementsBefore.Accepted?
      && catalogue.value.generation == Bump(catalogueBefore.value.generation, prior.catalogue == current.catalogue)
      && placements.value.epoch == Bump(placementsBefore.value.epoch, prior.placements == current.placements)
  }

  // ---------------------------------------------------------------- frames

  datatype Checkpoint = Checkpoint(generation: nat, active: Option<ObjectId>, stateGeneration: nat,
                                   prior: Option<ObjectId>)
  datatype Swap = Swap(generation: nat, expected: Option<ObjectId>, replacement: ObjectId)

  function ParseCheckpoint(payload: seq<byte>): Result<Checkpoint> {
    var (tag, s) :- Integer(payload, 1);
    var (generation, s) :- Integer(s, 8);
    var _ :- Check(tag == 1);
    var (active, s) :- Optional(s, PHYSICAL);
    var (stateGeneration, s) :- Integer(s, 8);
    var (prior, s) :- Optional(s, PHYSICAL);
    var _ :- Check(s == []);
    Accepted(Checkpoint(generation, active, stateGeneration, prior))
  }

  function ParseSwap(payload: seq<byte>): Result<Swap> {
    var (tag, s) :- Integer(payload, 1);
    var (generation, s) :- Integer(s, 8);
    var _ :- Check(tag == 0);
    var (expected, s) :- Optional(s, PHYSICAL);
    var (replacement, s) :- Identity(s, PHYSICAL);
    var _ :- Check(s == []);
    Accepted(Swap(generation, expected, replacement))
  }

  /** recover_checkpoint: nothing yet, or an authenticated state of the right generation. */
  function RecoverCheckpoint(metadata: Metadata, c: Checkpoint): Result<Option<State>> {
    if c.generation == 1 && c.active.None? && c.stateGeneration == 0 && c.prior.None? then Accepted(None)
    else
      var _ :- Check(c.generation > 1 && c.active.Some? && c.prior.Some?);
      var state :- StateAt(metadata, c.active.value);
      var _ :- Check(metadata.validates(c.active.value));
      var _ :- Check(state.generation == c.stateGeneration);
      Accepted(Some(state))
  }

  // ---------------------------------------------------------------- runs

  /** Where a replay stands. */
  datatype Head = Head(active: Option<ObjectId>, stateGeneration: nat, state: Option<State>)

  function Advance(metadata: Metadata, generation: nat, head: Head, payload: seq<byte>): Result<Head> {
    var swap :- ParseSwap(payload);
    var _ :- Check(swap.generation == generation);
    var _ :- Check(swap.expected == head.active);
    var state :- StateAt(metadata, swap.replacement);
    var _ :- Check(state.previous == head.active && state.generation == head.stateGeneration + 1);
    var _ :- Check(RootGenerations(metadata, head.state, state));
    Accepted(Head(Some(swap.replacement), head.stateGeneration + 1, Some(state)))
  }

  /** The heads after each of the first k frames, as long as every frame is accepted. */
  function HeadAfter(metadata: Metadata, generation: nat, start: Head, payloads: seq<seq<byte>>, k: nat): Result<Head>
    requires k <= |payloads|
  {
    if k == 0 then Accepted(start)
    else
      var before :- HeadAfter(metadata, generation, start, payloads, k - 1);
      Advance(metadata, generation, before, payloads[k - 1])
  }

  /** The journal a set of bytes holds: its checkpoint and swap payloads, when the digest and tail budget allow. */
  ghost function JournalOf(h: Hash, derive: Hash, raw: seq<byte>, magic: seq<byte>, digest: ObjectId,
                           maxTailFrames: nat, maxTailBytes: nat): Result<seq<seq<byte>>>
  {
    var first := PhysicalFrame(h, raw, magic, 0);
    if !first.Whole? then Rejected
    else if ObjectId(1, 2, derive(raw[..first.end])) != digest then Rejected
    else
      var frames :- Scan(h, raw, magic, 0);
      if |frames| - 1 > maxTailFrames || |raw| - first.end > maxTailBytes then Rejected
      else Accepted(Payloads(frames))
  }

  function Payloads(frames: seq<Yield>): (s: seq<seq<byte>>)
    ensures |s| == |frames| && forall i :: 0 <= i < |s| ==> s[i] == frames[i].payload
  {
    seq(|frames|, i requires 0 <= i < |frames| => frames[i].payload)
  }

  ghost function FinalHead(metadata: Metadata, generation: nat, payloads: seq<seq<byte>>): Result<Head> {
    if payloads == [] then Rejected
    else
      var c :- ParseCheckpoint(payloads[0]);
      var _ :- Check(c.generation == generation);
      var state :- RecoverCheckpoint(metadata, c);
      var end :- HeadAfter(metadata, generation, Head(c.active, c.stateGeneration, state), payloads[1..],
                           |payloads| - 1);
      var _ :- Check(end.active.Some?);
      Accepted(end)
  }

  /** The first half of replay_state_journal: the frames, when the checkpoint is the expected one. */
  method ReadJournal(h: Hash, derive: Hash, raw: seq<byte>, magic: seq<byte>, digest: ObjectId, maxTailFrames: nat,
                     maxTailBytes: nat)
    returns (payloads: Result<seq<seq<byte>>>)
    ensures payloads == JournalOf(h, derive, raw, magic, digest, maxTailFrames, maxTailBytes)
    ensures payloads.Accepted? ==> payloads.value != []
  {
    hide PhysicalFrame, Scan, FrameFollows, EndToEnd, QuietEnd, Frames.EndOf;
    var first := PhysicalFrame(h, raw, magic, 0);
    if !first.Whole? { return Rejected; }
    if ObjectId(1, 2, derive(raw[..first.end])) != digest { return Rejected; }
    var frames :- FramesBytes(h, raw, magic);
    if |frames| - 1 > maxTailFrames || |raw| - first.end > maxTailBytes { return Rejected; }
    FirstFrame(h, raw, magic);
    return Accepted(Payloads(frames));
  }

  /** replay_state_journal */
  method ReplayStateJournal(h: Hash, derive: Hash, raw: seq<byte>, magic: seq<byte>, generation: nat, digest: ObjectId,
                            maxTailFrames: nat, maxTailBytes: nat, metadata: Metadata)
    returns (result: Result<ObjectId>)
    ensures var journal := JournalOf(h, derive, raw, magic, digest, maxTailFrames, maxTailBytes);
            var end := if journal.Accepted? then FinalHead(metadata, generation, journal.value) else Rejected;
            && (result.Accepted? <==> end.Accepted?)
            && (result.Accepted? ==> end.value.active == Some(result.value))
  {
    hide ParseCheckpoint, RecoverCheckpoint, Advance, JournalOf;
    var payloads :- ReadJournal(h, derive, raw, magic, digest, maxTailFrames, maxTailBytes);
    var c :- ParseCheckpoint(payloads[0]);
    if c.generation != generation { return Rejected; }
    var previous :- RecoverCheckpoint(metadata, c);
    var head, i := Head(c.active, c.stateGeneration, previous), 0;
    ghost var start := head;
    var tail := payloads[1..];
    while i < |tail|
      invariant i <= |tail| && HeadAfter(metadata, generation, start, tail, i) == Accepted(head)
    {
      var next := Advance(metadata, generation, head, tail[i]);
      if next.Rejected? {
        StaysRejected(metadata, generation, start, tail, i + 1, |tail|);
        return Rejected;
      }
      head, i := next.value, i + 1;
    }
    if head.active.None? { return Rejected; }
    return Accepted(head.active.value);
  }

  lemma FirstFrame(h: Hash, raw: seq<byte>, magic: seq<byte>)
    requires PhysicalFrame(h, raw, magic, 0).Whole? && Scan(h, raw, magic, 0).Accepted?
    ensures Scan(h, raw, magic, 0).value != []
  {
    hide FrameFollows, FrameChecksum, Le;
  }

  lemma {:induction false} StaysRejected(metadata: Metadata, generation: nat, start: Head, payloads: seq<seq<byte>>,
                                         k: nat, n: nat)
    requires k <= n <= |payloads| && HeadAfter(metadata, generation, start, payloads, k).Rejected?
    ensures HeadAfter(metadata, generation, start, payloads, n).Rejected?
    decreases n
  {
    hide Advance;
    if k < n { StaysRejected(metadata, generation, start, payloads, k, n - 1); }
  }

  // ---------------------------------------------------------------- what a whole run counts

  function CatalogueGeneration(metadata: Metadata, s: Option<State>): nat {
    if s.None? then 0
    else var c := CatalogueAt(metadata, s.value.catalogue); if c.Accepted? then c.value.generation else 0
  }

  function PlacementEpoch(metadata: Metadata, s: Option<State>): nat {
    if s.None? then 0
    else var p := PlacementsAt(metadata, s.value.placements); if p.Accepted? then p.value.epoch else 0
  }

  /** Whether frame k changed the catalogue (or placement) identity; a first state counts as a change. */
  function CatalogueChanges(metadata: Metadata, generation: nat, start: Head, payloads: seq<seq<byte>>, k: nat): nat
    requires k <= |payloads|
  {
    if k == 0 then 0
    else
      var before, after := HeadAfter(metadata, generation, start, payloads, k - 1),
          HeadAfter(metadata, generation, start, payloads, k);
      CatalogueChanges(metadata, generation, start, payloads, k - 1)
      + (if before.Accepted? && after.Accepted? && after.value.state.Some?
            && (before.value.state.None? || before.value.state.value.catalogue != after.value.state.value.catalogue)
               then 1 else 0)
  }

  function PlacementChanges(metadata: Metadata, generation: nat, start: Head, payloads: seq<seq<byte>>, k: nat): nat
    requires k <= |payloads|
  {
    if k == 0 then 0
    else
      var before, after := HeadAfter(metadata, generation, start, payloads, k - 1),
          HeadAfter(metadata, generation, start, payloads, k);
      PlacementChanges(metadata, generation, start, payloads, k - 1)
      + (if before.Accepted? && after.Accepted? && after.value.state.Some?
            && (before.value.state.None? || before.value.state.value.placements != after.value.state.value.placements)
               then 1 else 0)
  }

  /** A head is in step with its state: same generation, and the active identity names that state. */
  ghost predicate InStep(metadata: Metadata, head: Head) {
    && (head.active.Some? <==> head.state.Some?)
    && (head.state.Some? ==> head.state.value.generation == head.stateGeneration
                             && StateAt(metadata, head.active.value) == Accepted(head.state.value))
    && (head.state.None? ==> head.stateGeneration == 0)
  }

  lemma CheckpointInStep(metadata: Metadata, c: Checkpoint)
    requires RecoverCheckpoint(metadata, c).Accepted?
    ensures InStep(metadata, Head(c.active, c.stateGeneration, RecoverCheckpoint(metadata, c).value))
  {
    hide StateAt;
  }

  lemma AdvanceCounts(metadata: Metadata, generation: nat, head: Head, payload: seq<byte>)
    requires InStep(metadata, head) && Advance(metadata, generation, head, payload).Accepted?
    ensures var next := Advance(metadata, generation, head, payload).value;
            && InStep(metadata, next) && next.state.Some? && next.stateGeneration == head.stateGeneration + 1
            && next.state.value.previous == head.active
            && CatalogueGeneration(metadata, next.state) == CatalogueGeneration(metadata, head.state)
               + (if head.state.None? || head.state.value.catalogue != next.state.value.catalogue then 1 else 0)
            && PlacementEpoch(metadata, next.state) == PlacementEpoch(metadata, head.state)
               + (if head.state.None? || head.state.value.placements != next.state.value.placements then 1 else 0)
  {
    hide ParseSwap, StateAt, CatalogueAt, PlacementsAt;
  }

  /**
   * Over every accepted run: one state generation per frame, one catalogue generation and one epoch per identity
   * change, so none of the three ever falls.
   */
  lemma {:induction false} RunCounts(metadata: Metadata, generation: nat, start: Head, payloads: seq<seq<byte>>, k: nat)
    requires InStep(metadata, start) && k <= |payloads| && HeadAfter(metadata, generation, start, payloads, k).Accepted?
    ensures var end := HeadAfter(metadata, generation, start, payloads, k).value;
            && InStep(metadata, end)
            && end.stateGeneration == start.stateGeneration + k
            && CatalogueGeneration(metadata, end.state) ==
               CatalogueGeneration(metadata, start.state) + CatalogueChanges(metadata, generation, start, payloads, k)
            && PlacementEpoch(metadata, end.state) ==
               PlacementEpoch(metadata, start.state) + PlacementChanges(metadata, generation, start, payloads, k)
    decreases k
  {
    hide Advance, InStep, CatalogueGeneration, PlacementEpoch;
    if k > 0 {
      RunCounts(metadata, generation, start, payloads, k - 1);
      AdvanceCounts(metadata, generation, HeadAfter(metadata, generation, start, payloads, k - 1).value,
                    payloads[k - 1]);
    }
  }

  /** From one state to a later one: a counter that has not risen belongs to an identity that has not changed. */
  ghost predicate Kept(metadata: Metadata, earlier: Head, later: Head) {
    && earlier.stateGeneration <= later.stateGeneration
    && CatalogueGeneration(metadata, earlier.state) <= CatalogueGeneration(metadata, later.state)
    && PlacementEpoch(metadata, earlier.state) <= PlacementEpoch(metadata, later.state)
    && (earlier.state.Some? ==>
          && later.state.Some?
          && (CatalogueGeneration(metadata, earlier.state) == CatalogueGeneration(metadata, later.state) ==>
                earlier.state.value.catalogue == later.state.value.catalogue)
          && (PlacementEpoch(metadata, earlier.state) == PlacementEpoch(metadata, later.state) ==>
                earlier.state.value.placements == later.state.value.placements))
  }

  lemma {:induction false} CountersKeep(metadata: Metadata, generation: nat, start: Head, payloads: seq<seq<byte>>,
                                        i: nat, j: nat)
    requires InStep(metadata, start) && i <= j <= |payloads|
    requires HeadAfter(metadata, generation, start, payloads, j).Accepted?
    ensures HeadAfter(metadata, generation, start, payloads, i).Accepted?
    ensures Kept(metadata, HeadAfter(metadata, generation, start, payloads, i).value,
                 HeadAfter(metadata, generation, start, payloads, j).value)
    decreases j
  {
    hide Advance, InStep, CatalogueGeneration, PlacementEpoch;
    if i < j {
      CountersKeep(metadata, generation, start, payloads, i, j - 1);
      RunCounts(metadata, generation, start, payloads, j - 1);
      AdvanceCounts(metadata, generation, HeadAfter(metadata, generation, start, payloads, j - 1).value,
                    payloads[j - 1]);
    }
  }

  lemma SameRootSameCount(metadata: Metadata, a: Option<State>, b: Option<State>)
    requires a.Some? && b.Some?
    ensures a.value.catalogue == b.value.catalogue ==>
              CatalogueGeneration(metadata, a) == CatalogueGeneration(metadata, b)
    ensures a.value.placements == b.value.placements ==> PlacementEpoch(metadata, a) == PlacementEpoch(metadata, b)
  {}

  /**
   * What a run left never returns: if two of its states name the same catalogue (or placement set), so does every
   * state between them, and no state identity becomes active twice.
   */
  lemma LeftRootsNeverReturn(metadata: Metadata, generation: nat, start: Head, payloads: seq<seq<byte>>,
                             i: nat, j: nat, k: nat)
    requires InStep(metadata, start) && i <= j <= k <= |payloads|
    requires HeadAfter(metadata, generation, start, payloads, k).Accepted?
    requires HeadAfter(metadata, generation, start, payloads, i).Accepted?
    requires HeadAfter(metadata, generation, start, payloads, i).value.state.Some?
    ensures HeadAfter(metadata, generation, start, payloads, j).Accepted?
    ensures var at, between, later := HeadAfter(metadata, generation, start, payloads, i).value,
                HeadAfter(metadata, generation, start, payloads, j).value,
                HeadAfter(metadata, generation, start, payloads, k).value;
            && between.state.Some? && later.state.Some?
            && (at.state.value.catalogue == later.state.value.catalogue ==>
                  between.state.value.catalogue == at.state.value.catalogue)
            && (at.state.value.placements == later.state.value.placements ==>
                  between.state.value.placements == at.state.value.placements)
            && (i < k ==> at.active != later.active)
  {
    hide HeadAfter, CatalogueGeneration, PlacementEpoch, StateAt;
    CountersKeep(metadata, generation, start, payloads, i, k);
    CountersKeep(metadata, generation, start, payloads, j, k);
    CountersKeep(metadata, generation, start, payloads, i, j);
    var at, later := HeadAfter(metadata, generation, start, payloads, i).value,
        HeadAfter(metadata, generation, start, payloads, k).value;
    SameRootSameCount(metadata, at.state, later.state);
    RunCounts(metadata, generation, start, payloads, i);
    RunCounts(metadata, generation, start, payloads, k);
  }

  /**
   * An accepted journal's active state: its generation is the checkpoint's plus the number of swap frames, and
   * its catalogue generation and epoch are the checkpoint's plus the number of identity changes on the way.
   */
  lemma AcceptedJournalCounts(metadata: Metadata, generation: nat, payloads: seq<seq<byte>>)
    requires FinalHead(metadata, generation, payloads).Accepted?
    ensures payloads != [] && ParseCheckpoint(payloads[0]).Accepted?
    ensures var c := ParseCheckpoint(payloads[0]).value;
            && RecoverCheckpoint(metadata, c).Accepted?
            && var start := Head(c.active, c.stateGeneration, RecoverCheckpoint(metadata, c).value);
               var end := FinalHead(metadata, generation, payloads).value; var n := |payloads| - 1;
               && end.state.Some? && StateAt(metadata, end.active.value) == Accepted(end.state.value)
               && end.state.value.generation == c.stateGeneration + n
               && CatalogueGeneration(metadata, end.state) ==
                  CatalogueGeneration(metadata, start.state)
                  + CatalogueChanges(metadata, generation, start, payloads[1..], n)
               && PlacementEpoch(metadata, end.state) ==
                  PlacementEpoch(metadata, start.state)
                  + PlacementChanges(metadata, generation, start, payloads[1..], n)
  {
    hide Advance, ParseCheckpoint, RecoverCheckpoint, CatalogueGeneration, PlacementEpoch, CatalogueChanges,
         PlacementChanges, StateAt, HeadAfter;
    var c := ParseCheckpoint(payloads[0]).value;
    CheckpointInStep(metadata, c);
    RunCounts(metadata, generation, Head(c.active, c.stateGeneration, RecoverCheckpoint(metadata, c).value),
              payloads[1..], |payloads| - 1);
  }

  /** The first state of an empty journal starts its generation and both counters at one. */
  lemma FreshJournalStartsAtOne(metadata: Metadata, generation: nat, start: Head, payloads: seq<seq<byte>>)
    requires start == Head(None, 0, None) && payloads != []
             && HeadAfter(metadata, generation, start, payloads, 1).Accepted?
    ensures var end := HeadAfter(metadata, generation, start, payloads, 1).value;
            && end.state.Some? && end.state.value.generation == 1 && end.state.value.previous.None?
            && CatalogueGeneration(metadata, end.state) == 1 && PlacementEpoch(metadata, end.state) == 1
  {
    hide Advance, CatalogueGeneration, PlacementEpoch, StateAt;
    assert HeadAfter(metadata, generation, start, payloads, 0) == Accepted(start);
    AdvanceCounts(metadata, generation, start, payloads[0]);
    NoStateNoCount(metadata);
  }

  lemma NoStateNoCount(metadata: Metadata)
    ensures CatalogueGeneration(metadata, None) == 0 && PlacementEpoch(metadata, None) == 0
  {}
}
