/**
 * What the state journal's replay accepts, said without it: the frames are the encodings of a checkpoint and of one
 * swap per state, the states form a chain by identity and generation, and their counters follow identity changes.
 */
module StateHistory {
  import opened Bytes
  import opened Outcomes
  import opened Objects
  import opened PhysicalFields
  import opened PhysicalRoots
  import opened PhysicalCodec
  import opened Frames
  import opened StateJournal

  // ---------------------------------------------------------------- frame encodings

  function CheckpointBytes(c: Checkpoint): seq<byte> {
    LeBytes(1, 1)
    + (LeBytes(c.generation, 8)
       + (OptionalBytes(c.active) + (LeBytes(c.stateGeneration, 8) + OptionalBytes(c.prior))))
  }

  predicate CheckpointFits(c: Checkpoint) {
    && c.generation <= U64_MAX && c.stateGeneration <= U64_MAX
    && OptionalInScheme(c.active, PHYSICAL) && OptionalInScheme(c.prior, PHYSICAL)
  }

  lemma CheckpointExact(payload: seq<byte>, c: Checkpoint)
    ensures ParseCheckpoint(payload) == Accepted(c) <==> CheckpointFits(c) && payload == CheckpointBytes(c)
  {
    hide LeBytes, Radix, Le, Integer, Optional, OptionalBytes, OptionalInScheme;
    RadixWidths();
    var s4 := OptionalBytes(c.prior);
    var s3 := LeBytes(c.stateGeneration, 8) + s4;
    var s2 := OptionalBytes(c.active) + s3;
    var s1 := LeBytes(c.generation, 8) + s2;
    IntegerExact(payload, 1, 1, s1);
    IntegerExact(s1, 8, c.generation, s2);
    OptionalExact(s2, PHYSICAL, c.active, s3);
    IntegerExact(s3, 8, c.stateGeneration, s4);
    OptionalExact(s4, PHYSICAL, c.prior, []);
    assert s4 + [] == s4;
    if ParseCheckpoint(payload) == Accepted(c) {
      var r1 := Integer(payload, 1).value.1;
      IntegerReads(payload, 1);
      var r2 := Integer(r1, 8).value.1;
      IntegerReads(r1, 8);
      var r3 := Optional(r2, PHYSICAL).value.1;
      OptionalReads(r2, PHYSICAL);
      var r4 := Integer(r3, 8).value.1;
      IntegerReads(r3, 8);
      OptionalReads(r4, PHYSICAL);
    }
  }

  function SwapBytes(s: Swap): seq<byte> {
    LeBytes(0, 1) + (LeBytes(s.generation, 8) + (OptionalBytes(s.expected) + IdentityBytes(s.replacement)))
  }

  predicate SwapFits(s: Swap) {
    s.generation <= U64_MAX && OptionalInScheme(s.expected, PHYSICAL) && InScheme(s.replacement, PHYSICAL)
  }

  lemma SwapExact(payload: seq<byte>, s: Swap)
    ensures ParseSwap(payload) == Accepted(s) <==> SwapFits(s) && payload == SwapBytes(s)
  {
    hide LeBytes, Radix, Le, Integer, Optional, OptionalBytes, OptionalInScheme, Identity, IdentityBytes, InScheme;
    RadixWidths();
    var s3 := IdentityBytes(s.replacement);
    var s2 := OptionalBytes(s.expected) + s3;
    var s1 := LeBytes(s.generation, 8) + s2;
    IntegerExact(payload, 1, 0, s1);
    IntegerExact(s1, 8, s.generation, s2);
    OptionalExact(s2, PHYSICAL, s.expected, s3);
    IdentityExact(s3, PHYSICAL, s.replacement, []);
    assert s3 + [] == s3;
    if ParseSwap(payload) == Accepted(s) {
      var r1 := Integer(payload, 1).value.1;
      IntegerReads(payload, 1);
      var r2 := Integer(r1, 8).value.1;
      IntegerReads(r1, 8);
      var r3 := Optional(r2, PHYSICAL).value.1;
      OptionalReads(r2, PHYSICAL);
      IdentityReads(r3, PHYSICAL);
    }
  }

  // ---------------------------------------------------------------- stored values

  ghost predicate StateStored(metadata: Metadata, id: ObjectId, v: State) {
    (5, id) in metadata.values && ValidState(v) && metadata.values[(5, id)] == EncodeState(v)
  }

  ghost predicate CatalogueStored(metadata: Metadata, id: ObjectId, v: CatalogueRoot) {
    (3, id) in metadata.values && ValidCatalogueRoot(v) && metadata.values[(3, id)] == EncodeCatalogueRoot(v)
  }

  ghost predicate PlacementsStored(metadata: Metadata, id: ObjectId, v: PlacementSet) {
    (4, id) in metadata.values && ValidPlacementSet(v) && metadata.values[(4, id)] == EncodePlacementSet(v)
  }

  lemma StateStoredIs(metadata: Metadata, id: ObjectId, v: State)
    ensures StateAt(metadata, id) == Accepted(v) <==> StateStored(metadata, id, v)
  {
    hide DecodeState, EncodeState, ValidState;
    if (5, id) in metadata.values { StateRoundTrip(metadata.values[(5, id)], v); }
  }

  lemma CatalogueStoredIs(metadata: Metadata, id: ObjectId, v: CatalogueRoot)
    ensures CatalogueAt(metadata, id) == Accepted(v) <==> CatalogueStored(metadata, id, v)
  {
    hide DecodeCatalogueRoot, EncodeCatalogueRoot, ValidCatalogueRoot;
    if (3, id) in metadata.values { CatalogueRootRoundTrip(metadata.values[(3, id)], v); }
  }

  lemma PlacementsStoredIs(metadata: Metadata, id: ObjectId, v: PlacementSet)
    ensures PlacementsAt(metadata, id) == Accepted(v) <==> PlacementsStored(metadata, id, v)
  {
    hide DecodePlacementSet, EncodePlacementSet, ValidPlacementSet;
    if (4, id) in metadata.values { PlacementSetRoundTrip(metadata.values[(4, id)], v); }
  }

  // ---------------------------------------------------------------- histories

  /** A state a journal passes through, with the two roots it names. */
  datatype Point = Point(id: ObjectId, state: State, catalogue: CatalogueRoot, placements: PlacementSet)

  function NameOf(p: Option<Point>): Option<ObjectId> {
    if p.None? then None else Some(p.value.id)
  }

  ghost predicate RootsStored(metadata: Metadata, p: Point) {
    && CatalogueStored(metadata, p.state.catalogue, p.catalogue)
    && PlacementsStored(metadata, p.state.placements, p.placements)
  }

  /** A counter keeps its value under the same identity and rises by one under another; nothing counts as zero. */
  predicate Counted(before: Option<(ObjectId, nat)>, after: ObjectId, count: nat) {
    match before
    case None => count == 1
    case Some((id, n)) => if id == after then count == n else count == n + 1
  }

  /** A state that follows another one: linked to it, one generation on, with both counters in step. */
  predicate Follows(before: Option<Point>, p: Point) {
    match before
    case None =>
      p.state.previous.None? && p.state.generation == 1
      && Counted(None, p.state.catalogue, p.catalogue.generation)
      && Counted(None, p.state.placements, p.placements.epoch)
    case Some(b) =>
      p.state.previous == Some(b.id) && p.state.generation == b.state.generation + 1
      && Counted(Some((b.state.catalogue, b.catalogue.generation)), p.state.catalogue, p.catalogue.generation)
      && Counted(Some((b.state.placements, b.placements.epoch)), p.state.placements, p.placements.epoch)
  }

  /** The checkpoint starts a new journal, or resumes one at a stored and validated state. */
  ghost predicate Origin(metadata: Metadata, c: Checkpoint, origin: Option<Point>) {
    match origin
    case None => c == Checkpoint(1, None, 0, None)
    case Some(p) =>
      && c.generation > 1 && c.active == Some(p.id) && c.prior.Some? && c.stateGeneration == p.state.generation
      && StateStored(metadata, p.id, p.state) && metadata.validates(p.id)
  }

  function Before(origin: Option<Point>, points: seq<Point>, i: nat): Option<Point>
    requires i <= |points|
  {
    if i == 0 then origin else Some(points[i - 1])
  }

  /** The frame that makes `p` active. */
  ghost predicate Swaps(metadata: Metadata, generation: nat, before: Option<Point>, p: Point, payload: seq<byte>) {
    && (before.Some? ==> RootsStored(metadata, before.value))
    && StateStored(metadata, p.id, p.state) && RootsStored(metadata, p) && Follows(before, p)
    && SwapFits(Swap(generation, NameOf(before), p.id)) && payload == SwapBytes(Swap(generation, NameOf(before), p.id))
  }

  ghost predicate IsHistory(metadata: Metadata, generation: nat, payloads: seq<seq<byte>>, c: Checkpoint,
                            origin: Option<Point>, points: seq<Point>)
  {
    && |payloads| == |points| + 1
    && CheckpointFits(c) && payloads[0] == CheckpointBytes(c) && c.generation == generation
    && Origin(metadata, c, origin)
    && forall i :: 0 <= i < |points| ==>
         Swaps(metadata, generation, Before(origin, points, i), points[i], payloads[i + 1])
  }

  // ---------------------------------------------------------------- one frame

  /** Where a replay stands after a point. */
  function HeadOf(p: Option<Point>): Head {
    match p
    case None => Head(None, 0, None)
    case Some(v) => Head(Some(v.id), v.state.generation, Some(v.state))
  }

  lemma RootsStoredAre(metadata: Metadata, p: Point)
    ensures RootsStored(metadata, p) <==>
            CatalogueAt(metadata, p.state.catalogue) == Accepted(p.catalogue)
            && PlacementsAt(metadata, p.state.placements) == Accepted(p.placements)
  {
    hide CatalogueAt, PlacementsAt, CatalogueStored, PlacementsStored;
    CatalogueStoredIs(metadata, p.state.catalogue, p.catalogue);
    PlacementsStoredIs(metadata, p.state.placements, p.placements);
  }

  /** Root generations are in order exactly when both counters are in step. */
  lemma GenerationsFollow(metadata: Metadata, before: Option<Point>, p: Point)
    requires before.Some? ==> RootsStored(metadata, before.value)
    requires RootsStored(metadata, p)
    ensures RootGenerations(metadata, if before.None? then None else Some(before.value.state), p.state) <==>
            match before
            case None =>
              Counted(None, p.state.catalogue, p.catalogue.generation)
              && Counted(None, p.state.placements, p.placements.epoch)
            case Some(b) =>
              Counted(Some((b.state.catalogue, b.catalogue.generation)), p.state.catalogue, p.catalogue.generation)
              && Counted(Some((b.state.placements, b.placements.epoch)), p.state.placements, p.placements.epoch)
  {
    hide CatalogueAt, PlacementsAt, RootsStored;
    RootsStoredAre(metadata, p);
    if before.Some? { RootsStoredAre(metadata, before.value); }
  }

  /** A frame that swaps to a following state is accepted. */
  lemma SwapAccepted(metadata: Metadata, generation: nat, before: Option<Point>, p: Point, payload: seq<byte>)
    requires Swaps(metadata, generation, before, p, payload)
    ensures Advance(metadata, generation, HeadOf(before), payload) == Accepted(HeadOf(Some(p)))
  {
    hide ParseSwap, StateAt, RootsStored, StateStored, SwapFits, SwapBytes, RootGenerations, Counted;
    SwapExact(payload, Swap(generation, NameOf(before), p.id));
    StateStoredIs(metadata, p.id, p.state);
    GenerationsFollow(metadata, before, p);
  }

  /** The roots of a point are the ones its state names, whenever those can be read. */
  ghost predicate RootsFit(metadata: Metadata, p: Point) {
    && (CatalogueAt(metadata, p.state.catalogue).Accepted? ==>
          CatalogueAt(metadata, p.state.catalogue).value == p.catalogue)
    && (PlacementsAt(metadata, p.state.placements).Accepted? ==>
          PlacementsAt(metadata, p.state.placements).value == p.placements)
  }

  /** An accepted frame swaps to a following state. */
  lemma SwapFound(metadata: Metadata, generation: nat, before: Option<Point>, payload: seq<byte>) returns (p: Point)
    requires before.Some? ==> RootsFit(metadata, before.value)
    requires Advance(metadata, generation, HeadOf(before), payload).Accepted?
    ensures Swaps(metadata, generation, before, p, payload)
    ensures Advance(metadata, generation, HeadOf(before), payload) == Accepted(HeadOf(Some(p)))
    ensures RootsFit(metadata, p)
  {
    hide ParseSwap, StateAt, RootsStored, StateStored, SwapFits, SwapBytes, Counted, CatalogueAt, PlacementsAt;
    var swap := ParseSwap(payload).value;
    SwapExact(payload, swap);
    var state := StateAt(metadata, swap.replacement).value;
    StateStoredIs(metadata, swap.replacement, state);
    p := Point(swap.replacement, state, CatalogueAt(metadata, state.catalogue).value,
               PlacementsAt(metadata, state.placements).value);
    RootsStoredAre(metadata, p);
    if before.Some? { RootsStoredAre(metadata, before.value); }
    GenerationsFollow(metadata, before, p);
  }

  // ---------------------------------------------------------------- whole journals

  lemma OriginFound(metadata: Metadata, c: Checkpoint) returns (origin: Option<Point>)
    requires RecoverCheckpoint(metadata, c).Accepted?
    ensures Origin(metadata, c, origin) && (origin.Some? ==> RootsFit(metadata, origin.value))
    ensures HeadOf(origin) == Head(c.active, c.stateGeneration, RecoverCheckpoint(metadata, c).value)
  {
    hide StateAt, StateStored, CatalogueAt, PlacementsAt;
    var recovered := RecoverCheckpoint(metadata, c).value;
    if recovered.None? {
      origin := None;
    } else {
      var state := recovered.value;
      StateStoredIs(metadata, c.active.value, state);
      var catalogue, placements := CatalogueAt(metadata, state.catalogue), PlacementsAt(metadata, state.placements);
      origin := Some(Point(c.active.value, state,
                           if catalogue.Accepted? then catalogue.value else CatalogueRoot(0, 0, None, 0, None, 0),
                           if placements.Accepted? then placements.value else PlacementSet(0, 0, None, 0, 0)));
    }
  }

  lemma OriginRecovers(metadata: Metadata, c: Checkpoint, origin: Option<Point>)
    requires Origin(metadata, c, origin)
    ensures RecoverCheckpoint(metadata, c).Accepted?
    ensures HeadOf(origin) == Head(c.active, c.stateGeneration, RecoverCheckpoint(metadata, c).value)
  {
    hide StateAt, StateStored;
    if origin.Some? { StateStoredIs(metadata, origin.value.id, origin.value.state); }
  }

  lemma {:induction false} HistoryAccepted(metadata: Metadata, generation: nat, origin: Option<Point>,
                                           points: seq<Point>, tail: seq<seq<byte>>, k: nat)
    requires k <= |points| == |tail|
    requires forall i :: 0 <= i < |points| ==>
               Swaps(metadata, generation, Before(origin, points, i), points[i], tail[i])
    ensures HeadAfter(metadata, generation, HeadOf(origin), tail, k) == Accepted(HeadOf(Before(origin, points, k)))
    decreases k
  {
    hide Swaps, Advance;
    if k > 0 {
      HistoryAccepted(metadata, generation, origin, points, tail, k - 1);
      SwapAccepted(metadata, generation, Before(origin, points, k - 1), points[k - 1], tail[k - 1]);
    }
  }

  lemma {:induction false} HistoryFound(metadata: Metadata, generation: nat, origin: Option<Point>,
                                        tail: seq<seq<byte>>, k: nat) returns (points: seq<Point>)
    requires k <= |tail| && HeadAfter(metadata, generation, HeadOf(origin), tail, k).Accepted?
    requires origin.Some? ==> RootsFit(metadata, origin.value)
    ensures |points| == k && forall i :: 0 <= i < k ==>
              Swaps(metadata, generation, Before(origin, points, i), points[i], tail[i])
    ensures HeadAfter(metadata, generation, HeadOf(origin), tail, k) == Accepted(HeadOf(Before(origin, points, k)))
    ensures k > 0 ==> RootsFit(metadata, points[k - 1])
    decreases k
  {
    hide Swaps, Advance, RootsFit;
    if k == 0 {
      points := [];
    } else {
      var earlier := HistoryFound(metadata, generation, origin, tail, k - 1);
      var p := SwapFound(metadata, generation, Before(origin, earlier, k - 1), tail[k - 1]);
      points := earlier + [p];
      forall i | 0 <= i < k
        ensures Swaps(metadata, generation, Before(origin, points, i), points[i], tail[i])
      {
        assert Before(origin, points, i) == Before(origin, earlier, i);
      }
    }
  }

  /** The state that is active at the end of a history. */
  ghost predicate EndsAt(metadata: Metadata, generation: nat, payloads: seq<seq<byte>>, id: ObjectId) {
    exists c, origin, points ::
      && IsHistory(metadata, generation, payloads, c, origin, points)
      && NameOf(Before(origin, points, |points|)) == Some(id)
  }

  /** A journal is accepted with an active state exactly when its frames tell a history that ends there. */
  lemma AcceptedJournalsAreHistories(metadata: Metadata, generation: nat, payloads: seq<seq<byte>>, id: ObjectId)
    ensures var end := FinalHead(metadata, generation, payloads);
            end.Accepted? && end.value.active == Some(id) <==> EndsAt(metadata, generation, payloads, id)
  {
    var end := FinalHead(metadata, generation, payloads);
    if end.Accepted? && end.value.active == Some(id) { JournalTells(metadata, generation, payloads, id); }
    if EndsAt(metadata, generation, payloads, id) {
      var c, origin, points :| IsHistory(metadata, generation, payloads, c, origin, points)
                               && NameOf(Before(origin, points, |points|)) == Some(id);
      HistoryIsAccepted(metadata, generation, payloads, c, origin, points);
    }
  }

  lemma JournalTells(metadata: Metadata, generation: nat, payloads: seq<seq<byte>>, id: ObjectId)
    requires FinalHead(metadata, generation, payloads).Accepted?
             && FinalHead(metadata, generation, payloads).value.active == Some(id)
    ensures EndsAt(metadata, generation, payloads, id)
  {
    hide ParseCheckpoint, RecoverCheckpoint, HeadAfter, Swaps, Origin, RootsFit, CheckpointFits, CheckpointBytes;
    var c := ParseCheckpoint(payloads[0]).value;
    CheckpointExact(payloads[0], c);
    var origin := OriginFound(metadata, c);
    var points := HistoryFound(metadata, generation, origin, payloads[1..], |payloads| - 1);
    assert IsHistory(metadata, generation, payloads, c, origin, points);
  }

  lemma HistoryIsAccepted(metadata: Metadata, generation: nat, payloads: seq<seq<byte>>, c: Checkpoint,
                          origin: Option<Point>, points: seq<Point>)
    requires IsHistory(metadata, generation, payloads, c, origin, points) && Before(origin, points, |points|).Some?
    ensures FinalHead(metadata, generation, payloads) == Accepted(HeadOf(Before(origin, points, |points|)))
  {
    hide ParseCheckpoint, RecoverCheckpoint, HeadAfter, Swaps, Origin, CheckpointFits, CheckpointBytes;
    CheckpointExact(payloads[0], c);
    OriginRecovers(metadata, c, origin);
    HistoryAccepted(metadata, generation, origin, points, payloads[1..], |points|);
  }

  // ---------------------------------------------------------------- the bytes of a journal

  /** Whole frames end to end, the first of them the one CURRENT names, within its tail budget. */
  ghost predicate IsJournal(h: Hash, derive: Hash, raw: seq<byte>, magic: seq<byte>, digest: ObjectId,
                            maxTailFrames: nat, maxTailBytes: nat, frames: seq<Yield>)
  {
    && frames != [] && EndToEnd(h, raw, magic, 0, frames) && QuietEnd(h, raw, magic, EndOf(0, frames))
    && frames[0].end <= |raw| && digest == ObjectId(1, 2, derive(raw[..frames[0].end]))
    && |frames| <= maxTailFrames + 1 && |raw| <= frames[0].end + maxTailBytes
  }

  /** The payloads a journal is read as are those of its frames, and it is read exactly when it is a journal. */
  lemma JournalExact(h: Hash, derive: Hash, raw: seq<byte>, magic: seq<byte>, digest: ObjectId, maxTailFrames: nat,
                     maxTailBytes: nat, payloads: seq<seq<byte>>)
    ensures JournalOf(h, derive, raw, magic, digest, maxTailFrames, maxTailBytes) == Accepted(payloads) <==>
            exists frames :: IsJournal(h, derive, raw, magic, digest, maxTailFrames, maxTailBytes, frames)
                             && payloads == Payloads(frames)
  {
    hide PhysicalFrame, FrameFollows, QuietEnd;
    var journal := JournalOf(h, derive, raw, magic, digest, maxTailFrames, maxTailBytes);
    if journal.Accepted? {
      var frames := Scan(h, raw, magic, 0).value;
      FirstFrame(h, raw, magic);
      ScanExact(h, raw, magic, 0, frames);
      assert IsJournal(h, derive, raw, magic, digest, maxTailFrames, maxTailBytes, frames);
    }
    if frames :| IsJournal(h, derive, raw, magic, digest, maxTailFrames, maxTailBytes, frames)
                 && payloads == Payloads(frames) {
      ScanExact(h, raw, magic, 0, frames);
    }
  }
}
