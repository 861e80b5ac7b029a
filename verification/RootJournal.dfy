/**
 * The root journal: compare-and-swap transitions of each principal's root, optionally compacted into one
 * leading snapshot. Compaction preserves meaning, and a generation counts the transitions of its principal.
 */
module RootJournal {
  import opened Bytes
  import opened Outcomes
  import opened Objects
  import opened PhysicalFields
  import opened Frames

  const SNAPSHOT_SENTINEL: nat := U64_MAX
  const SNAPSHOT_RECORD: nat := 1

  type Principal = seq<byte>
  datatype RootState = RootState(generation: nat, root: ObjectId)
  datatype SnapshotEntry = SnapshotEntry(principal: Principal, state: RootState)
  datatype RootRecord =
    | Snapshot(entries: seq<SnapshotEntry>)
    | Transition(principal: Principal, expected: Option<RootState>, replacement: RootState)

  // ---------------------------------------------------------------- fields

  /** Any tagged identity without zero fields. */
  function AnyIdentity(s: seq<byte>): Parsed<ObjectId> {
    var (algorithm, s) :- Integer(s, 2);
    var (construction, s) :- Integer(s, 2);
    var (length, s) :- Integer(s, 4);
    var _ :- Check(algorithm != 0 && construction != 0 && length != 0);
    var (digest, s) :- Take(s, length);
    Accepted((ObjectId(algorithm, construction, digest), s))
  }

  predicate ValidIdentity(id: ObjectId) {
    0 < id.algorithm < 0x1_0000 && 0 < id.construction < 0x1_0000 && 0 < |id.digest| < 0x1_0000_0000
  }

  lemma AnyIdentityExact(s: seq<byte>, id: ObjectId, rest: seq<byte>)
    ensures AnyIdentity(s) == Accepted((id, rest)) <==> ValidIdentity(id) && s == IdentityBytes(id) + rest
  {
    hide LeBytes, Radix, Le, Integer, Take;
    RadixWidths();
    var s3 := id.digest + rest;
    var s2 := LeBytes(|id.digest|, 4) + s3;
    var s1 := LeBytes(id.construction, 2) + s2;
    assert IdentityBytes(id) + rest == LeBytes(id.algorithm, 2) + s1;
    IntegerExact(s, 2, id.algorithm, s1);
    IntegerExact(s1, 2, id.construction, s2);
    IntegerExact(s2, 4, |id.digest|, s3);
    TakeExact(s3, |id.digest|, id.digest, rest);
    if AnyIdentity(s) == Accepted((id, rest)) {
      IntegerReads(s, 2);
      var r1 := Integer(s, 2).value.1;
      IntegerReads(r1, 2);
      var r2 := Integer(r1, 2).value.1;
      IntegerReads(r2, 4);
      var (length, r3) := Integer(r2, 4).value;
      TakeExact(r3, length, Take(r3, length).value.0, Take(r3, length).value.1);
    }
  }

  function StateBytes(v: RootState): seq<byte> {
    LeBytes(v.generation, 8) + IdentityBytes(v.root)
  }

  predicate ValidState(v: RootState) {
    v.generation <= U64_MAX && ValidIdentity(v.root)
  }

  function ParseState(s: seq<byte>): Parsed<RootState> {
    var (generation, s) :- Integer(s, 8);
    var (root, s) :- AnyIdentity(s);
    Accepted((RootState(generation, root), s))
  }

  lemma StateExact(s: seq<byte>, v: RootState, rest: seq<byte>)
    ensures ParseState(s) == Accepted((v, rest)) <==> ValidState(v) && s == StateBytes(v) + rest
  {
    hide LeBytes, Radix, Le, Integer, AnyIdentity, IdentityBytes, ValidIdentity;
    RadixWidths();
    var s1 := IdentityBytes(v.root) + rest;
    assert StateBytes(v) + rest == LeBytes(v.generation, 8) + s1;
    IntegerExact(s, 8, v.generation, s1);
    AnyIdentityExact(s1, v.root, rest);
    if ParseState(s) == Accepted((v, rest)) {
      IntegerReads(s, 8);
      var r1 := Integer(s, 8).value.1;
      AnyIdentityExact(r1, AnyIdentity(r1).value.0, AnyIdentity(r1).value.1);
    }
  }

  lemma StateReads(s: seq<byte>)
    ensures ParseState(s).Accepted? ==> var (v, rest) := ParseState(s).value; ValidState(v) && s == StateBytes(v) + rest
  {
    hide ParseState, StateBytes, ValidState;
    if ParseState(s).Accepted? { StateExact(s, ParseState(s).value.0, ParseState(s).value.1); }
  }

  function EntryBytes(e: SnapshotEntry): seq<byte> {
    StringBytes(e.principal) + StateBytes(e.state)
  }

  predicate ValidEntry(e: SnapshotEntry) {
    |e.principal| <= U64_MAX && ValidState(e.state)
  }

  function ParseEntry(s: seq<byte>): Parsed<SnapshotEntry> {
    var (principal, s) :- ByteString(s);
    var (state, s) :- ParseState(s);
    Accepted((SnapshotEntry(principal, state), s))
  }

  lemma EntryCodec()
    ensures IsCodec(ParseEntry, EntryBytes, ValidEntry)
  {
    hide ByteString, StringBytes, ParseState, StateBytes, ValidState;
    forall s, e: SnapshotEntry, rest
      ensures ParseEntry(s) == Accepted((e, rest)) <==> ValidEntry(e) && s == EntryBytes(e) + rest
    {
      var s1 := StateBytes(e.state) + rest;
      assert EntryBytes(e) + rest == StringBytes(e.principal) + s1;
      ByteStringExact(s, e.principal, s1);
      StateExact(s1, e.state, rest);
      if ParseEntry(s) == Accepted((e, rest)) {
        ByteStringReads(s);
        StateReads(ByteString(s).value.1);
      }
    }
  }

  // ---------------------------------------------------------------- records

  function ExpectedBytes(v: Option<RootState>): seq<byte> {
    if v.None? then LeBytes(0, 1) else LeBytes(1, 1) + StateBytes(v.value)
  }

  function EncodeRoot(r: RootRecord): seq<byte> {
    match r
    case Snapshot(entries) =>
      LeBytes(SNAPSHOT_SENTINEL, 8) + (LeBytes(SNAPSHOT_RECORD, 1) + CountedBytes(EntryBytes, entries))
    case Transition(principal, expected, replacement) =>
      LeBytes(|principal|, 8) + (principal + (ExpectedBytes(expected) + StateBytes(replacement)))
  }

  /** Snapshot principals are in strictly ascending byte order. */
  predicate EntriesAscend(entries: seq<SnapshotEntry>) {
    forall i :: 0 < i < |entries| ==> Less(entries[i - 1].principal, entries[i].principal)
  }

  ghost predicate ValidRoot(r: RootRecord) {
    match r
    case Snapshot(entries) => |entries| <= U64_MAX && AllValid(ValidEntry, entries) && EntriesAscend(entries)
    case Transition(principal, expected, replacement) =>
      |principal| < SNAPSHOT_SENTINEL && (expected.Some? ==> ValidState(expected.value)) && ValidState(replacement)
  }

  function ParseExpected(s: seq<byte>): Parsed<Option<RootState>> {
    var (tag, s) :- Integer(s, 1);
    if tag == 0 then Accepted((None, s))
    else
      var _ :- Check(tag == 1);
      var (state, s) :- ParseState(s);
      Accepted((Some(state), s))
  }

  lemma ExpectedExact(s: seq<byte>, v: Option<RootState>, rest: seq<byte>)
    ensures ParseExpected(s) == Accepted((v, rest)) <==>
            (v.Some? ==> ValidState(v.value)) && s == ExpectedBytes(v) + rest
  {
    hide LeBytes, Radix, Le, Integer, ParseState, StateBytes, ValidState;
    RadixWidths();
    if v.None? { IntegerExact(s, 1, 0, rest); } else {
      var s1 := StateBytes(v.value) + rest;
      assert ExpectedBytes(v) + rest == LeBytes(1, 1) + s1;
      IntegerExact(s, 1, 1, s1);
      StateExact(s1, v.value, rest);
    }
    if ParseExpected(s) == Accepted((v, rest)) {
      IntegerReads(s, 1);
      StateReads(Integer(s, 1).value.1);
    }
  }

  function ParseSnapshot(s: seq<byte>): Result<RootRecord> {
    var (tag, s) :- Integer(s, 1);
    var _ :- Check(tag == SNAPSHOT_RECORD);
    var (entries, s) :- Counted(ParseEntry, s);
    var _ :- Check(EntriesAscend(entries));
    var _ :- Check(s == []);
    Accepted(Snapshot(entries))
  }

  function ParseTransition(length: nat, s: seq<byte>): Result<RootRecord> {
    var (principal, s) :- Take(s, length);
    var (expected, s) :- ParseExpected(s);
    var (replacement, s) :- ParseState(s);
    var _ :- Check(s == []);
    Accepted(Transition(principal, expected, replacement))
  }

  function DecodeRoot(payload: seq<byte>): Result<RootRecord> {
    var (prefix, s) :- Integer(payload, 8);
    if prefix == SNAPSHOT_SENTINEL then ParseSnapshot(s) else ParseTransition(prefix, s)
  }

  lemma SnapshotExact(s: seq<byte>, entries: seq<SnapshotEntry>)
    ensures ParseSnapshot(s) == Accepted(Snapshot(entries)) <==>
            ValidRoot(Snapshot(entries)) && s == LeBytes(SNAPSHOT_RECORD, 1) + CountedBytes(EntryBytes, entries)
    ensures ParseSnapshot(s).Accepted? ==> ParseSnapshot(s).value.Snapshot?
  {
    hide LeBytes, Radix, Le, Integer, Counted, CountedBytes, AllValid, EntriesAscend, IsCodec;
    RadixWidths();
    EntryCodec();
    var s1 := CountedBytes(EntryBytes, entries);
    IntegerExact(s, 1, SNAPSHOT_RECORD, s1);
    CountedExact(ParseEntry, EntryBytes, ValidEntry, s1, entries, []);
    assert s1 + [] == s1;
    if ParseSnapshot(s).Accepted? {
      IntegerReads(s, 1);
      var r1 := Integer(s, 1).value.1;
      CountedReads(ParseEntry, EntryBytes, ValidEntry, r1);
    }
  }

  lemma TransitionExact(length: nat, s: seq<byte>, r: RootRecord)
    requires r.Transition? && length < SNAPSHOT_SENTINEL
    ensures ParseTransition(length, s) == Accepted(r) <==>
            ValidRoot(r) && length == |r.principal|
            && s == r.principal + (ExpectedBytes(r.expected) + StateBytes(r.replacement))
    ensures ParseTransition(length, s).Accepted? ==> ParseTransition(length, s).value.Transition?
  {
    hide Take, ParseExpected, ExpectedBytes, ParseState, StateBytes, ValidState;
    var s2 := StateBytes(r.replacement);
    var s1 := ExpectedBytes(r.expected) + s2;
    TakeExact(s, length, r.principal, s1);
    ExpectedExact(s1, r.expected, s2);
    StateExact(s2, r.replacement, []);
    assert s2 + [] == s2;
    if ParseTransition(length, s) == Accepted(r) {
      var (principal, r1) := Take(s, length).value;
      TakeExact(s, length, principal, r1);
      var (expected, r2) := ParseExpected(r1).value;
      ExpectedExact(r1, expected, r2);
      StateReads(r2);
    }
  }

  /** The payload parse accepts exactly the encodings of valid records. */
  lemma RootExact(payload: seq<byte>, r: RootRecord)
    ensures DecodeRoot(payload) == Accepted(r) <==> ValidRoot(r) && payload == EncodeRoot(r)
  {
    hide LeBytes, Radix, Le, Integer, ParseSnapshot, ParseTransition, CountedBytes, ExpectedBytes, StateBytes,
         ValidState, AllValid, EntriesAscend;
    RadixWidths();
    if r.Snapshot? {
      var s1 := LeBytes(SNAPSHOT_RECORD, 1) + CountedBytes(EntryBytes, r.entries);
      IntegerExact(payload, 8, SNAPSHOT_SENTINEL, s1);
      SnapshotExact(s1, r.entries);
    } else {
      var s1 := r.principal + (ExpectedBytes(r.expected) + StateBytes(r.replacement));
      IntegerExact(payload, 8, |r.principal|, s1);
      if |r.principal| < SNAPSHOT_SENTINEL { TransitionExact(|r.principal|, s1, r); }
    }
    if DecodeRoot(payload) == Accepted(r) {
      IntegerReads(payload, 8);
      var (prefix, r1) := Integer(payload, 8).value;
      if prefix == SNAPSHOT_SENTINEL {
        SnapshotExact(r1, if r.Snapshot? then r.entries else []);
      } else {
        var none := Transition([], None, RootState(0, ObjectId(0, 0, [])));
        TransitionExact(prefix, r1, if r.Transition? then r else none);
      }
    }
  }

  // ---------------------------------------------------------------- replay

  datatype Owner = System | User(key: seq<byte>) | Fleet(key: seq<byte>)

  /** principal_text: the owner a principal names; every other encoding is an error. */
  function OwnerOf(principal: Principal): Result<Owner> {
    if principal == [0] then Accepted(System)
    else if |principal| == 33 && principal[0] == 1 then Accepted(User(principal[1..]))
    else if |principal| == 33 && principal[0] == 2 then Accepted(Fleet(principal[1..]))
    else Rejected
  }

  function OwnerBytes(o: Owner): Principal {
    match o
    case System => [0]
    case User(key) => [1] + key
    case Fleet(key) => [2] + key
  }

  /** A principal names an owner exactly when it is that owner's encoding. */
  lemma OwnerExact(principal: Principal, o: Owner)
    ensures OwnerOf(principal) == Accepted(o) <==> principal == OwnerBytes(o) && (o.System? || |o.key| == 32)
  {
    if |principal| == 33 { assert principal == [principal[0]] + principal[1..]; }
  }

  /** Owners and principals correspond one to one, so roots may be kept by principal. */
  lemma OwnersAreInjective(a: Principal, b: Principal)
    requires OwnerOf(a).Accepted? && OwnerOf(a) == OwnerOf(b)
    ensures a == b
  {
    assert a == [a[0]] + a[1..] && b == [b[0]] + b[1..];
  }

  type Roots = map<Principal, RootState>

  function AddEntries(roots: Roots, entries: seq<SnapshotEntry>): Result<Roots>
    decreases |entries|
  {
    if entries == [] then Accepted(roots)
    else
      var _ :- Check(OwnerOf(entries[0].principal).Accepted? && entries[0].principal !in roots);
      AddEntries(roots[entries[0].principal := entries[0].state], entries[1..])
  }

  function NextGeneration(roots: Roots, principal: Principal): nat {
    if principal in roots then roots[principal].generation + 1 else 0
  }

  function Current(roots: Roots, principal: Principal): Option<RootState> {
    if principal in roots then Some(roots[principal]) else None
  }

  /** One frame of the journal. */
  function ApplyFrame(roots: Roots, offset: nat, payload: seq<byte>): Result<Roots> {
    var record :- DecodeRoot(payload);
    match record
    case Snapshot(entries) =>
      var _ :- Check(offset == 0 && roots == map[]);
      AddEntries(roots, entries)
    case Transition(principal, expected, replacement) =>
      var _ :- Check(OwnerOf(principal).Accepted?);
      var _ :- Check(Current(roots, principal) == expected);
      var _ :- Check(replacement.generation == NextGeneration(roots, principal));
      Accepted(roots[principal := replacement])
  }

  function ReplayFrames(roots: Roots, frames: seq<Yield>): Result<Roots>
    decreases |frames|
  {
    if frames == [] then Accepted(roots)
    else
      var next :- ApplyFrame(roots, frames[0].offset, frames[0].payload);
      ReplayFrames(next, frames[1..])
  }

  ghost function RootsOf(h: Hash, journal: seq<byte>, magic: seq<byte>): Result<Roots> {
    var frames :- Scan(h, journal, magic, 0);
    ReplayFrames(map[], frames)
  }

  // ---------------------------------------------------------------- snapshots

  function MapOf(entries: seq<SnapshotEntry>): Roots {
    if entries == [] then map[]
    else
      var last := entries[|entries| - 1];
      MapOf(entries[..|entries| - 1])[last.principal := last.state]
  }

  /** The entries list exactly these roots, in the order a snapshot demands. */
  ghost predicate IsSnapshotOf(entries: seq<SnapshotEntry>, roots: Roots) {
    EntriesAscend(entries) && MapOf(entries) == roots
  }

  lemma {:induction false} EntriesOrdered(entries: seq<SnapshotEntry>, i: nat, j: nat)
    requires EntriesAscend(entries) && i < j < |entries|
    ensures Less(entries[i].principal, entries[j].principal)
    decreases j
  {
    if i < j - 1 {
      EntriesOrdered(entries, i, j - 1);
      LessTransitive(entries[i].principal, entries[j - 1].principal, entries[j].principal);
    }
  }

  lemma {:induction false} InMap(entries: seq<SnapshotEntry>, p: Principal) returns (i: nat)
    requires p in MapOf(entries)
    ensures i < |entries| && entries[i].principal == p
    decreases |entries|
  {
    var last := |entries| - 1;
    if entries[last].principal == p { i := last; } else { i := InMap(entries[..last], p); }
  }

  /** In ascending entries every entry keeps its own state. */
  lemma {:induction false} EntryKept(entries: seq<SnapshotEntry>, i: nat)
    requires EntriesAscend(entries) && i < |entries|
    ensures entries[i].principal in MapOf(entries) && MapOf(entries)[entries[i].principal] == entries[i].state
    decreases |entries|
  {
    var last := |entries| - 1;
    if i < last {
      EntryKept(entries[..last], i);
      EntriesOrdered(entries, i, last);
      LessIrreflexive(entries[i].principal);
    }
  }

  /** Replaying a snapshot's entries rebuilds the roots: the duplicate test never fires on ordered entries. */
  lemma {:induction false} AddEntriesRebuilds(entries: seq<SnapshotEntry>, k: nat)
    requires EntriesAscend(entries) && k <= |entries|
    requires forall i :: 0 <= i < |entries| ==> OwnerOf(entries[i].principal).Accepted?
    ensures AddEntries(MapOf(entries[..k]), entries[k..]) == Accepted(MapOf(entries))
    decreases |entries| - k
  {
    hide OwnerOf;
    if k == |entries| {
      assert entries[..k] == entries;
    } else {
      var p := entries[k].principal;
      if p in MapOf(entries[..k]) {
        var i := InMap(entries[..k], p);
        EntriesOrdered(entries, i, k);
        LessIrreflexive(p);
      }
      assert entries[k..][0] == entries[k] && entries[k..][1..] == entries[k + 1..]
             && entries[..k + 1][..k] == entries[..k];
      AddEntriesRebuilds(entries, k + 1);
    }
  }

  lemma {:induction false} LastPrincipal(roots: Roots) returns (p: Principal)
    requires roots != map[]
    ensures p in roots && forall q :: q in roots && q != p ==> Less(q, p)
    decreases |roots|
  {
    p :| p in roots;
    var others := roots - {p};
    if others != map[] {
      var q := LastPrincipal(others);
      LessTotal(p, q);
      if Less(p, q) { p := q; } else {
        forall r | r in roots && r != p ensures Less(r, p) {
          assert r in others;
          if r != q { LessTransitive(r, q, p); }
        }
      }
    }
  }

  /** Any set of roots has a snapshot. */
  lemma {:induction false} SnapshotExists(roots: Roots) returns (entries: seq<SnapshotEntry>)
    ensures IsSnapshotOf(entries, roots)
    decreases |roots|
  {
    if roots == map[] {
      entries := [];
    } else {
      var p := LastPrincipal(roots);
      var others := roots - {p};
      var rest := SnapshotExists(others);
      entries := rest + [SnapshotEntry(p, roots[p])];
      assert entries[..|rest|] == rest && others[p := roots[p]] == roots;
      forall i | 0 < i < |entries| ensures Less(entries[i - 1].principal, entries[i].principal) {
        if i == |rest| { EntryKept(rest, i - 1); }
      }
    }
  }

  // ---------------------------------------------------------------- what replay keeps

  ghost predicate Proper(roots: Roots) {
    forall p :: p in roots ==> OwnerOf(p).Accepted? && |p| <= 33 && ValidState(roots[p])
  }

  lemma {:induction false} AddKeepsProper(roots: Roots, entries: seq<SnapshotEntry>)
    requires Proper(roots) && AllValid(ValidEntry, entries) && AddEntries(roots, entries).Accepted?
    ensures Proper(AddEntries(roots, entries).value)
    decreases |entries|
  {
    hide ValidState;
    if entries != [] {
      assert ValidEntry(entries[0]);
      AddKeepsProper(roots[entries[0].principal := entries[0].state], entries[1..]);
    }
  }

  lemma ApplyKeepsProper(roots: Roots, offset: nat, payload: seq<byte>)
    requires Proper(roots) && ApplyFrame(roots, offset, payload).Accepted?
    ensures Proper(ApplyFrame(roots, offset, payload).value)
  {
    hide DecodeRoot, ValidState, EncodeRoot, AddEntries;
    var r := DecodeRoot(payload).value;
    RootExact(payload, r);
    if r.Snapshot? { AddKeepsProper(roots, r.entries); }
  }

  /** Every reachable root has a valid owner and a state a snapshot can carry. */
  lemma {:induction false} ReplayKeepsProper(roots: Roots, frames: seq<Yield>)
    requires Proper(roots) && ReplayFrames(roots, frames).Accepted?
    ensures Proper(ReplayFrames(roots, frames).value)
    decreases |frames|
  {
    hide ApplyFrame, Proper;
    if frames != [] {
      ApplyKeepsProper(roots, frames[0].offset, frames[0].payload);
      ReplayKeepsProper(ApplyFrame(roots, frames[0].offset, frames[0].payload).value, frames[1..]);
    }
  }

  function CountTransitions(frames: seq<Yield>, p: Principal): nat {
    if frames == [] then 0
    else
      var r := DecodeRoot(frames[0].payload);
      (if r.Accepted? && r.value.Transition? && r.value.principal == p then 1 else 0) + CountTransitions(frames[1..], p)
  }

  ghost predicate NoSnapshot(frames: seq<Yield>) {
    forall i :: 0 <= i < |frames| ==> DecodeRoot(frames[i].payload).Accepted? ==>
      DecodeRoot(frames[i].payload).value.Transition?
  }

  /**
   * Over any accepted run of transitions each principal's generation rises by exactly one per transition of its own.
   */
  lemma {:induction false} GenerationsCount(roots: Roots, frames: seq<Yield>, p: Principal)
    requires NoSnapshot(frames) && ReplayFrames(roots, frames).Accepted?
    ensures NextGeneration(ReplayFrames(roots, frames).value, p) ==
            NextGeneration(roots, p) + CountTransitions(frames, p)
    decreases |frames|
  {
    hide DecodeRoot;
    if frames != [] {
      var next := ApplyFrame(roots, frames[0].offset, frames[0].payload).value;
      assert DecodeRoot(frames[0].payload).value.Transition?;
      forall i | 0 <= i < |frames[1..]|
        ensures DecodeRoot(frames[1..][i].payload).Accepted? ==> DecodeRoot(frames[1..][i].payload).value.Transition?
      {
        assert frames[1..][i] == frames[i + 1];
      }
      GenerationsCount(next, frames[1..], p);
    }
  }

  // ---------------------------------------------------------------- which journals are accepted

  /** The records of the frames, one each. */
  ghost predicate Decodes(frames: seq<Yield>, records: seq<RootRecord>) {
    |records| == |frames| && forall i :: 0 <= i < |frames| ==> DecodeRoot(frames[i].payload) == Accepted(records[i])
  }

  /** A principal's root before record i: its last replacement, or what it started with. */
  ghost function RootBefore(start: Roots, records: seq<RootRecord>, i: nat, p: Principal): Option<RootState>
    requires i <= |records|
  {
    if i == 0 then (if p in start then Some(start[p]) else None)
    else if records[i - 1].Transition? && records[i - 1].principal == p then Some(records[i - 1].replacement)
    else RootBefore(start, records, i - 1, p)
  }

  /** A transition of a valid owner that expects exactly the principal's previous root and counts one up from it. */
  ghost predicate Follows(start: Roots, records: seq<RootRecord>, i: nat)
    requires i < |records|
  {
    var r := records[i];
    && r.Transition? && OwnerOf(r.principal).Accepted?
    && r.expected == RootBefore(start, records, i, r.principal)
    && r.replacement.generation == (if r.expected.None? then 0 else r.expected.value.generation + 1)
  }

  /** The roots are what the last replacements say. */
  ghost predicate RootsAre(roots: Roots, start: Roots, records: seq<RootRecord>) {
    forall p :: (if p in roots then Some(roots[p]) else None) == RootBefore(start, records, |records|, p)
  }

  lemma {:induction false} RootBeforeShifts(start: Roots, records: seq<RootRecord>, i: nat, p: Principal)
    requires records != [] && records[0].Transition? && i < |records|
    ensures RootBefore(start[records[0].principal := records[0].replacement], records[1..], i, p) ==
            RootBefore(start, records, i + 1, p)
    decreases i
  {
    if i > 0 { RootBeforeShifts(start, records, i - 1, p); }
  }

  /** The first of a run of transitions, and the rest over the roots it leaves. */
  lemma FollowsShifts(start: Roots, records: seq<RootRecord>)
    requires records != [] && records[0].Transition?
    ensures var next := start[records[0].principal := records[0].replacement];
            && (forall i :: 0 <= i < |records| - 1 ==>
                  (Follows(next, records[1..], i) <==> Follows(start, records, i + 1)))
            && forall p :: RootBefore(next, records[1..], |records| - 1, p) == RootBefore(start, records, |records|, p)
  {
    hide OwnerOf;
    var next := start[records[0].principal := records[0].replacement];
    forall i | 0 <= i < |records| - 1 ensures Follows(next, records[1..], i) <==> Follows(start, records, i + 1) {
      if records[i + 1].Transition? { RootBeforeShifts(start, records, i, records[i + 1].principal); }
    }
    forall p ensures RootBefore(next, records[1..], |records| - 1, p) == RootBefore(start, records, |records|, p) {
      RootBeforeShifts(start, records, |records| - 1, p);
    }
  }

  /**
   * Compare-and-swap over a whole run: transitions are accepted iff each expects exactly its principal's previous
   * root, with the generation one higher, and the roots are then the last replacements.
   */
  lemma {:induction false} TransitionsCompare(roots: Roots, frames: seq<Yield>, records: seq<RootRecord>)
    requires Decodes(frames, records) && forall i :: 0 <= i < |records| ==> records[i].Transition?
    ensures ReplayFrames(roots, frames).Accepted? <==> forall i :: 0 <= i < |records| ==> Follows(roots, records, i)
    ensures ReplayFrames(roots, frames).Accepted? ==> RootsAre(ReplayFrames(roots, frames).value, roots, records)
    decreases |frames|
  {
    hide DecodeRoot, OwnerOf, Follows, RootsAre;
    if frames == [] {
      NoRecords(roots, records);
    } else {
      var first := records[0];
      var next := roots[first.principal := first.replacement];
      assert DecodeRoot(frames[0].payload) == Accepted(first);
      FirstFollows(roots, frames[0], records);
      FollowsShifts(roots, records);
      TransitionsCompare(next, frames[1..], records[1..]);
      if forall i :: 0 <= i < |records| ==> Follows(roots, records, i) {
        forall i | 0 <= i < |records| - 1 ensures Follows(next, records[1..], i) {
          assert Follows(roots, records, i + 1);
        }
      }
      if Follows(roots, records, 0) && forall i :: 0 <= i < |records| - 1 ==> Follows(next, records[1..], i) {
        forall i | 0 <= i < |records| ensures Follows(roots, records, i) {
          if i > 0 { assert Follows(next, records[1..], i - 1); }
        }
      }
      if ReplayFrames(roots, frames).Accepted? {
        LastRoots(ReplayFrames(roots, frames).value, roots, records);
      }
    }
  }

  lemma NoRecords(roots: Roots, records: seq<RootRecord>)
    requires records == []
    ensures RootsAre(roots, roots, records)
  {}

  lemma FirstFollows(roots: Roots, frame: Yield, records: seq<RootRecord>)
    requires records != [] && records[0].Transition? && DecodeRoot(frame.payload) == Accepted(records[0])
    ensures ApplyFrame(roots, frame.offset, frame.payload) ==
            if Follows(roots, records, 0) then Accepted(roots[records[0].principal := records[0].replacement])
            else Rejected
  {
    hide DecodeRoot, OwnerOf;
  }

  lemma LastRoots(end: Roots, start: Roots, records: seq<RootRecord>)
    requires records != [] && records[0].Transition?
    requires RootsAre(end, start[records[0].principal := records[0].replacement], records[1..])
    ensures RootsAre(end, start, records)
  {
    hide Follows;
    FollowsShifts(start, records);
  }

  /** What a journal starts from: the snapshot it opens with, or nothing. */
  ghost function StartOf(records: seq<RootRecord>): Roots {
    if records != [] && records[0].Snapshot? then MapOf(records[0].entries) else map[]
  }

  /** A leading snapshot of valid owners at the very start, and otherwise transitions that follow. */
  ghost predicate JournalOk(frames: seq<Yield>, records: seq<RootRecord>) {
    && Decodes(frames, records)
    && (records != [] && records[0].Snapshot? ==>
          frames[0].offset == 0
          && forall i :: 0 <= i < |records[0].entries| ==> OwnerOf(records[0].entries[i].principal).Accepted?)
    && forall i :: 0 <= i < |records| ==>
         (i == 0 && records[0].Snapshot?) || Follows(StartOf(records), records, i)
  }

  /**
   * A journal is accepted iff every frame decodes, a snapshot stands only at the start, and every transition expects
   * what its principal had; the recovered roots are the snapshot's overlaid with the last replacements.
   */
  lemma AcceptedJournals(frames: seq<Yield>)
    requires forall i :: 0 < i < |frames| ==> frames[i].offset > 0
    ensures ReplayFrames(map[], frames).Accepted? <==> exists records :: JournalOk(frames, records)
    ensures forall records :: ReplayFrames(map[], frames).Accepted? && JournalOk(frames, records) ==>
              RootsAre(ReplayFrames(map[], frames).value, StartOf(records), records)
  {
    hide DecodeRoot, ReplayFrames, JournalOk, RootsAre, StartOf;
    if ReplayFrames(map[], frames).Accepted? {
      var records := RecordsOf(map[], frames);
      JournalReplays(frames, records);
    }
    forall records | JournalOk(frames, records)
      ensures ReplayFrames(map[], frames).Accepted?
      ensures RootsAre(ReplayFrames(map[], frames).value, StartOf(records), records)
    {
      assert Decodes(frames, records) by { JournalDecodes(frames, records); }
      JournalReplays(frames, records);
    }
  }

  lemma JournalDecodes(frames: seq<Yield>, records: seq<RootRecord>)
    requires JournalOk(frames, records)
    ensures Decodes(frames, records)
  {
    hide DecodeRoot, Follows, OwnerOf;
  }

  lemma {:induction false} RecordsOf(roots: Roots, frames: seq<Yield>) returns (records: seq<RootRecord>)
    requires ReplayFrames(roots, frames).Accepted?
    ensures Decodes(frames, records)
    decreases |frames|
  {
    hide DecodeRoot;
    if frames == [] {
      records := [];
    } else {
      var next := ApplyFrame(roots, frames[0].offset, frames[0].payload).value;
      var rest := RecordsOf(next, frames[1..]);
      records := [DecodeRoot(frames[0].payload).value] + rest;
      forall i | 0 <= i < |frames| ensures DecodeRoot(frames[i].payload) == Accepted(records[i]) {
        if i > 0 { assert frames[1..][i - 1] == frames[i]; }
      }
    }
  }

  lemma {:induction false} JournalReplays(frames: seq<Yield>, records: seq<RootRecord>)
    requires Decodes(frames, records) && forall i :: 0 < i < |frames| ==> frames[i].offset > 0
    ensures ReplayFrames(map[], frames).Accepted? <==> JournalOk(frames, records)
    ensures JournalOk(frames, records) ==> RootsAre(ReplayFrames(map[], frames).value, StartOf(records), records)
  {
    hide Decodes, ReplayFrames, Follows, RootsAre, OwnerOf, StartOf;
    DecodesParts(frames, records);
    var from := if records != [] && records[0].Snapshot? then 1 else 0;
    if i :| from <= i < |records| && records[i].Snapshot? {
      LateSnapshot(map[], frames, records, i);
      NotFollowing(StartOf(records), records, i);
    } else if from == 0 {
      NoStart(records);
      TransitionsCompare(map[], frames, records);
    } else {
      SnapshotStarts(frames, records);
      TransitionsCompare(StartOf(records), frames[1..], records[1..]);
      BehindSnapshot(StartOf(records), records);
      if ReplayFrames(map[], frames).Accepted? {
        SnapshotRoots(ReplayFrames(map[], frames).value, StartOf(records), records);
      }
    }
  }

  lemma DecodesParts(frames: seq<Yield>, records: seq<RootRecord>)
    requires Decodes(frames, records)
    ensures |records| == |frames|
    ensures frames != [] ==>
              Decodes(frames[1..], records[1..]) && DecodeRoot(frames[0].payload) == Accepted(records[0])
  {
    hide DecodeRoot;
  }

  lemma NoStart(records: seq<RootRecord>)
    requires records == [] || !records[0].Snapshot?
    ensures StartOf(records) == map[]
  {}

  lemma NotFollowing(start: Roots, records: seq<RootRecord>, i: nat)
    requires i < |records| && records[i].Snapshot?
    ensures !Follows(start, records, i)
  {}

  /** A snapshot behind the first frame is refused, whatever came before it. */
  lemma {:induction false} LateSnapshot(roots: Roots, frames: seq<Yield>, records: seq<RootRecord>, i: nat)
    requires Decodes(frames, records) && i < |records| && records[i].Snapshot? && frames[i].offset > 0
    ensures ReplayFrames(roots, frames).Rejected?
    decreases i
  {
    hide DecodeRoot, OwnerOf;
    assert DecodeRoot(frames[i].payload) == Accepted(records[i]);
    if i > 0 {
      var next := ApplyFrame(roots, frames[0].offset, frames[0].payload);
      if next.Accepted? { LateSnapshot(next.value, frames[1..], records[1..], i - 1); }
    }
  }

  /** The leading snapshot is accepted iff it stands at the start and its owners are valid. */
  lemma {:induction false} SnapshotStarts(frames: seq<Yield>, records: seq<RootRecord>)
    requires frames != [] && records != [] && records[0].Snapshot?
    requires DecodeRoot(frames[0].payload) == Accepted(records[0])
    ensures ReplayFrames(map[], frames) ==
            if frames[0].offset == 0
               && forall i :: 0 <= i < |records[0].entries| ==> OwnerOf(records[0].entries[i].principal).Accepted?
            then ReplayFrames(StartOf(records), frames[1..]) else Rejected
  {
    hide DecodeRoot, OwnerOf, EncodeRoot, ValidState, MapOf, AddEntries;
    var entries := records[0].entries;
    RootExact(frames[0].payload, records[0]);
    assert entries[0..] == entries && entries[..0] == [];
    NoEntries();
    if forall i :: 0 <= i < |entries| ==> OwnerOf(entries[i].principal).Accepted? {
      AddEntriesRebuilds(entries, 0);
    } else {
      var i :| 0 <= i < |entries| && OwnerOf(entries[i].principal).Rejected?;
      BadOwner(map[], entries, i);
    }
  }

  lemma NoEntries()
    ensures MapOf([]) == map[]
  {}

  lemma {:induction false} BadOwner(roots: Roots, entries: seq<SnapshotEntry>, i: nat)
    requires i < |entries| && OwnerOf(entries[i].principal).Rejected?
    ensures AddEntries(roots, entries).Rejected?
    decreases i
  {
    hide OwnerOf;
    if i > 0 && OwnerOf(entries[0].principal).Accepted? && entries[0].principal !in roots {
      BadOwner(roots[entries[0].principal := entries[0].state], entries[1..], i - 1);
    }
  }

  lemma {:induction false} RootBeforeBehind(start: Roots, records: seq<RootRecord>, i: nat, p: Principal)
    requires records != [] && records[0].Snapshot? && i < |records|
    ensures RootBefore(start, records[1..], i, p) == RootBefore(start, records, i + 1, p)
    decreases i
  {
    if i > 0 { RootBeforeBehind(start, records, i - 1, p); }
  }

  lemma BehindSnapshot(start: Roots, records: seq<RootRecord>)
    requires records != [] && records[0].Snapshot?
    ensures (forall i :: 0 <= i < |records| - 1 ==> Follows(start, records[1..], i)) <==>
            (forall i :: 0 <= i < |records| ==> (i == 0 && records[0].Snapshot?) || Follows(start, records, i))
  {
    hide OwnerOf;
    forall i | 0 <= i < |records| - 1 ensures Follows(start, records[1..], i) <==> Follows(start, records, i + 1) {
      if records[i + 1].Transition? { RootBeforeBehind(start, records, i, records[i + 1].principal); }
    }
    hide Follows;
    if forall i :: 0 <= i < |records| - 1 ==> Follows(start, records[1..], i) {
      forall i | 0 < i < |records| ensures Follows(start, records, i) { assert Follows(start, records[1..], i - 1); }
    }
    if forall i :: 0 <= i < |records| ==> (i == 0 && records[0].Snapshot?) || Follows(start, records, i) {
      forall i | 0 <= i < |records| - 1 ensures Follows(start, records[1..], i) {
        assert Follows(start, records, i + 1);
      }
    }
  }

  lemma SnapshotRoots(end: Roots, start: Roots, records: seq<RootRecord>)
    requires records != [] && records[0].Snapshot? && RootsAre(end, start, records[1..])
    ensures RootsAre(end, start, records)
  {
    forall p ensures RootBefore(start, records[1..], |records| - 1, p) == RootBefore(start, records, |records|, p) {
      RootBeforeBehind(start, records, |records| - 1, p);
    }
  }

  /** Frames behind the first start behind it. */
  lemma LaterOffsets(h: Hash, journal: seq<byte>, magic: seq<byte>, j: nat)
    requires Scan(h, journal, magic, 0).Accepted? && 0 < j < |Scan(h, journal, magic, 0).value|
    ensures Scan(h, journal, magic, 0).value[j].offset > 0
  {
    hide PhysicalFrame, FrameFollows;
    var frames := Scan(h, journal, magic, 0).value;
    ScanSplits(h, journal, magic, 0, 0);
    ScanMoves(h, journal, frames[0].end, journal, frames[0].end, magic);
    assert frames[1..][j - 1] == frames[j];
  }

  /** The answer to recovering a journal: its frames hold an accepted run, and the roots are what that run leaves. */
  ghost predicate IsRecovery(h: Hash, journal: seq<byte>, magic: seq<byte>, result: Result<Roots>) {
    var frames := Scan(h, journal, magic, 0);
    && (result.Accepted? <==> frames.Accepted? && exists records :: JournalOk(frames.value, records))
    && (result.Accepted? ==> forall records :: JournalOk(frames.value, records) ==>
          RootsAre(result.value, StartOf(records), records))
  }

  lemma RecoveryIs(h: Hash, journal: seq<byte>, magic: seq<byte>)
    ensures IsRecovery(h, journal, magic, RootsOf(h, journal, magic))
  {
    hide Scan, ReplayFrames, JournalOk, RootsAre, StartOf;
    if Scan(h, journal, magic, 0).Accepted? {
      var frames := Scan(h, journal, magic, 0).value;
      forall i | 0 < i < |frames| ensures frames[i].offset > 0 { LaterOffsets(h, journal, magic, i); }
      AcceptedJournals(frames);
    }
  }

  /** The root replay loop of recover. */
  method RecoverRoots(h: Hash, journal: seq<byte>, magic: seq<byte>) returns (result: Result<Roots>)
    ensures result == RootsOf(h, journal, magic) && IsRecovery(h, journal, magic, result)
  {
    hide ApplyFrame, Scan, IsRecovery;
    RecoveryIs(h, journal, magic);
    var frames :- FramesBytes(h, journal, magic);
    var roots: Roots, i := map[], 0;
    assert frames[0..] == frames;
    while i < |frames|
      invariant i <= |frames| && ReplayFrames(roots, frames[i..]) == ReplayFrames(map[], frames)
    {
      assert frames[i..][1..] == frames[i + 1..];
      roots :- ApplyFrame(roots, frames[i].offset, frames[i].payload);
      i := i + 1;
    }
    return Accepted(roots);
  }

  // ---------------------------------------------------------------- compaction

  lemma {:induction false} ReplaySplits(roots: Roots, frames: seq<Yield>, k: nat)
    requires k <= |frames|
    ensures ReplayFrames(roots, frames) ==
            var first := ReplayFrames(roots, frames[..k]);
            if first.Accepted? then ReplayFrames(first.value, frames[k..]) else Rejected
    decreases k
  {
    hide ApplyFrame;
    if k > 0 {
      var next := ApplyFrame(roots, frames[0].offset, frames[0].payload);
      assert frames[..k][0] == frames[0] && frames[..k][1..] == frames[1..][..k - 1]
             && frames[k..] == frames[1..][k - 1..];
      if next.Accepted? { ReplaySplits(next.value, frames[1..], k - 1); }
    } else {
      assert frames[0..] == frames && frames[..0] == [];
    }
  }

  predicate IsSnapshot(payload: seq<byte>) {
    DecodeRoot(payload).Accepted? && DecodeRoot(payload).value.Snapshot?
  }

  /** Moving a frame changes what it does only if it is a snapshot at the start of the journal. */
  ghost predicate SameEffect(a: Yield, b: Yield) {
    a.payload == b.payload && ((a.offset > 0 && b.offset > 0) || !IsSnapshot(a.payload))
  }

  ghost predicate SamePayloads(a: seq<Yield>, b: seq<Yield>) {
    |a| == |b| && forall i :: 0 <= i < |a| ==> SameEffect(a[i], b[i])
  }

  lemma {:induction false} ReplayMoves(roots: Roots, a: seq<Yield>, b: seq<Yield>)
    requires SamePayloads(a, b)
    ensures ReplayFrames(roots, a) == ReplayFrames(roots, b)
    decreases |a|
  {
    hide DecodeRoot;
    if a != [] {
      assert SameEffect(a[0], b[0]);
      var next := ApplyFrame(roots, a[0].offset, a[0].payload);
      assert SamePayloads(a[1..], b[1..]) by {
        forall i | 0 <= i < |a[1..]| ensures SameEffect(a[1..][i], b[1..][i]) {
          assert a[1..][i] == a[i + 1] && b[1..][i] == b[i + 1];
        }
      }
      if next.Accepted? { ReplayMoves(next.value, a[1..], b[1..]); }
    }
  }

  /** A snapshot frame in front of the remaining frames replays to the same roots as the whole journal. */
  lemma SnapshotReplacesPrefix(frames: seq<Yield>, k: nat, roots: Roots, entries: seq<SnapshotEntry>, snapshot: Yield,
                               rest: seq<Yield>)
    requires k <= |frames| && ReplayFrames(map[], frames[..k]) == Accepted(roots)
    requires IsSnapshotOf(entries, roots) && |entries| <= U64_MAX
    requires snapshot.offset == 0 && snapshot.payload == EncodeRoot(Snapshot(entries))
    ensures ReplayFrames(map[], [snapshot] + rest) == ReplayFrames(roots, rest)
    ensures SamePayloads(frames[k..], rest) ==> ReplayFrames(map[], [snapshot] + rest) == ReplayFrames(map[], frames)
  {
    hide DecodeRoot, EncodeRoot, OwnerOf, ValidState, SamePayloads;
    ReplaySplits(map[], frames, k);
    if SamePayloads(frames[k..], rest) { ReplayMoves(roots, frames[k..], rest); }
    assert Proper(map[]);
    ReplayKeepsProper(map[], frames[..k]);
    forall i | 0 <= i < |entries| ensures ValidEntry(entries[i]) && OwnerOf(entries[i].principal).Accepted? {
      EntryKept(entries, i);
    }
    RootExact(snapshot.payload, Snapshot(entries));
    AddEntriesRebuilds(entries, 0);
    assert entries[0..] == entries && entries[..0] == [];
    assert ([snapshot] + rest)[0] == snapshot && ([snapshot] + rest)[1..] == rest;
  }

  /** Where the first k frames of a journal end. */
  function CutAfter(frames: seq<Yield>, k: nat): nat
    requires k <= |frames|
  {
    if k == 0 then 0 else frames[k - 1].end
  }

  /** The journal does not itself open with a snapshot that the cut would push away from its start. */
  ghost predicate Movable(frames: seq<Yield>, k: nat) {
    k > 0 || frames == [] || !IsSnapshot(frames[0].payload)
  }

  /**
   * Compacting a journal file: writing one snapshot frame of the roots after the first k frames in front of the
   * untouched remaining bytes recovers exactly what the whole file recovers, or fails when it fails. The one
   * exception is to keep a snapshot the journal opens with: it is no longer the first frame and is refused.
   */
  lemma CompactionPreservesMeaning(h: Hash, magic: seq<byte>, journal: seq<byte>, k: nat, roots: Roots,
                                   entries: seq<SnapshotEntry>)
    requires |magic| == 8 && Scan(h, journal, magic, 0).Accepted? && k <= |Scan(h, journal, magic, 0).value|
    requires ReplayFrames(map[], Scan(h, journal, magic, 0).value[..k]) == Accepted(roots)
    requires IsSnapshotOf(entries, roots) && |entries| <= U64_MAX && |EncodeRoot(Snapshot(entries))| <= U64_MAX
    ensures var frames := Scan(h, journal, magic, 0).value; var cut := CutAfter(frames, k);
            && cut <= |journal|
            && var compacted := FrameBytes(h, magic, EncodeRoot(Snapshot(entries))) + journal[cut..];
            && (RootsOf(h, compacted, magic) == RootsOf(h, journal, magic) <==>
                  Movable(frames, k) || RootsOf(h, journal, magic).Rejected?)
            && (!Movable(frames, k) ==> RootsOf(h, compacted, magic).Rejected?)
  {
    hide PhysicalFrame, FrameFollows, ReplayFrames, EncodeRoot, IsSnapshotOf, FrameBytes, MapOf, IsSnapshot;
    var frames := Scan(h, journal, magic, 0).value;
    var payload := EncodeRoot(Snapshot(entries));
    var first := FrameBytes(h, magic, payload);
    if k > 0 { ScanSplits(h, journal, magic, 0, k - 1); }
    var cut := CutAfter(frames, k);
    var compacted := first + journal[cut..];
    FrameReadsBack(h, magic, payload, journal[cut..]);
    WholeIsLong(h, compacted, magic);
    assert compacted[|first|..] == journal[cut..];
    ScanMoves(h, journal, cut, compacted, |first|, magic);
    var rest := Scan(h, compacted, magic, |first|).value;
    assert Moved(frames[k..], cut, rest, |first|);
    SnapshotReplacesPrefix(frames, k, roots, entries, Yield(0, |first|, payload), rest);
    if Movable(frames, k) {
      forall j | 0 <= j < |rest| ensures SameEffect(frames[k..][j], rest[j]) {
        if k == 0 && j > 0 { LaterOffsets(h, journal, magic, j); }
      }
    } else {
      LateSnapshotFails(roots, rest);
    }
  }

  lemma LateSnapshotFails(roots: Roots, rest: seq<Yield>)
    requires rest != [] && rest[0].offset > 0 && IsSnapshot(rest[0].payload)
    ensures ReplayFrames(roots, rest).Rejected?
  {
    hide DecodeRoot;
  }

  lemma WholeIsLong(h: Hash, data: seq<byte>, magic: seq<byte>)
    ensures PhysicalFrame(h, data, magic, 0).Whole? ==> 0 < PhysicalFrame(h, data, magic, 0).end <= |data|
  {
    hide Le, FrameChecksum;
  }
}
