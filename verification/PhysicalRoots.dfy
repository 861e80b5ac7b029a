/** Representation states, placement sets, catalogue roots and placement entries: parse and encode are inverse. */
module PhysicalRoots {
  import opened Bytes
  import opened Outcomes
  import opened Objects
  import opened PhysicalFields

  // ---------------------------------------------------------------- representation state

  datatype State = State(version: nat, generation: nat, previous: Option<ObjectId>, catalogue: ObjectId,
                         placements: ObjectId)

  function EncodeState(v: State): seq<byte> {
    LeBytes(v.version, 2)
    + (LeBytes(v.generation, 8)
       + (OptionalBytes(v.previous) + (IdentityBytes(v.catalogue) + IdentityBytes(v.placements))))
  }

  predicate ValidState(v: State) {
    && v.version == 1 && 0 < v.generation <= U64_MAX && (v.generation == 1 <==> v.previous.None?)
    && OptionalInScheme(v.previous, PHYSICAL) && InScheme(v.catalogue, PHYSICAL) && InScheme(v.placements, PHYSICAL)
  }

  /** decode_representation_state up to, but without, the final re-encoding test. */
  function ParseState(data: seq<byte>): Result<State> {
    var (version, s) :- Integer(data, 2);
    var _ :- Check(version == 1);
    var (generation, s) :- Integer(s, 8);
    var (previous, s) :- Optional(s, PHYSICAL);
    var (catalogue, s) :- Identity(s, PHYSICAL);
    var (placements, s) :- Identity(s, PHYSICAL);
    var _ :- Check(s == []);
    var _ :- Check(generation != 0 && (generation == 1 <==> previous.None?));
    Accepted(State(version, generation, previous, catalogue, placements))
  }

  /** The parse accepts exactly the encodings of valid states. */
  lemma StateExact(data: seq<byte>, v: State)
    ensures ParseState(data) == Accepted(v) <==> ValidState(v) && data == EncodeState(v)
  {
    hide LeBytes, Radix, Le, Integer, Optional, Identity, IdentityBytes, OptionalBytes, InScheme, OptionalInScheme;
    RadixWidths();
    var s4 := IdentityBytes(v.placements);
    var s3 := IdentityBytes(v.catalogue) + s4;
    var s2 := OptionalBytes(v.previous) + s3;
    var s1 := LeBytes(v.generation, 8) + s2;
    IntegerExact(data, 2, v.version, s1);
    IntegerExact(s1, 8, v.generation, s2);
    OptionalExact(s2, PHYSICAL, v.previous, s3);
    IdentityExact(s3, PHYSICAL, v.catalogue, s4);
    IdentityExact(s4, PHYSICAL, v.placements, []);
    assert s4 + [] == s4;
    if ParseState(data) == Accepted(v) {
      var r1 := Integer(data, 2).value.1;
      IntegerReads(data, 2);
      var r2 := Integer(r1, 8).value.1;
      IntegerReads(r1, 8);
      var r3 := Optional(r2, PHYSICAL).value.1;
      OptionalReads(r2, PHYSICAL);
      var r4 := Identity(r3, PHYSICAL).value.1;
      IdentityReads(r3, PHYSICAL);
      IdentityReads(r4, PHYSICAL);
    }
  }

  // ---------------------------------------------------------------- placement set

  datatype PlacementSet = PlacementSet(version: nat, epoch: nat, entriesRoot: Option<ObjectId>, blobCount: nat,
                                       replicaExtentCount: nat)

  function EncodePlacementSet(v: PlacementSet): seq<byte> {
    LeBytes(v.version, 2)
    + (LeBytes(v.epoch, 8) + (OptionalBytes(v.entriesRoot)
                              + (LeBytes(v.blobCount, 8) + LeBytes(v.replicaExtentCount, 8))))
  }

  predicate PlacementShape(v: PlacementSet) {
    && (v.entriesRoot.None? <==> v.blobCount == 0)
    && (v.blobCount == 0 <==> v.replicaExtentCount == 0)
    && v.replicaExtentCount >= v.blobCount
  }

  predicate ValidPlacementSet(v: PlacementSet) {
    && v.version == 1 && v.epoch <= U64_MAX && OptionalInScheme(v.entriesRoot, PHYSICAL)
    && v.blobCount <= U64_MAX && v.replicaExtentCount <= U64_MAX && PlacementShape(v)
  }

  function ParsePlacementSet(data: seq<byte>): Result<PlacementSet> {
    var (version, s) :- Integer(data, 2);
    var _ :- Check(version == 1);
    var (epoch, s) :- Integer(s, 8);
    var (entriesRoot, s) :- Optional(s, PHYSICAL);
    var (blobCount, s) :- Integer(s, 8);
    var (replicaExtentCount, s) :- Integer(s, 8);
    var _ :- Check(s == []);
    var v := PlacementSet(version, epoch, entriesRoot, blobCount, replicaExtentCount);
    var _ :- Check(PlacementShape(v));
    Accepted(v)
  }

  lemma PlacementSetExact(data: seq<byte>, v: PlacementSet)
    ensures ParsePlacementSet(data) == Accepted(v) <==> ValidPlacementSet(v) && data == EncodePlacementSet(v)
  {
    hide LeBytes, Radix, Le, Integer, Optional, OptionalBytes, OptionalInScheme, PlacementShape;
    RadixWidths();
    var s4 := LeBytes(v.replicaExtentCount, 8);
    var s3 := LeBytes(v.blobCount, 8) + s4;
    var s2 := OptionalBytes(v.entriesRoot) + s3;
    var s1 := LeBytes(v.epoch, 8) + s2;
    IntegerExact(data, 2, v.version, s1);
    IntegerExact(s1, 8, v.epoch, s2);
    OptionalExact(s2, PHYSICAL, v.entriesRoot, s3);
    IntegerExact(s3, 8, v.blobCount, s4);
    IntegerExact(s4, 8, v.replicaExtentCount, []);
    assert s4 + [] == s4;
    if ParsePlacementSet(data) == Accepted(v) {
      var r1 := Integer(data, 2).value.1;
      IntegerReads(data, 2);
      var r2 := Integer(r1, 8).value.1;
      IntegerReads(r1, 8);
      var r3 := Optional(r2, PHYSICAL).value.1;
      OptionalReads(r2, PHYSICAL);
      var r4 := Integer(r3, 8).value.1;
      IntegerReads(r3, 8);
      IntegerReads(r4, 8);
    }
  }

  // ---------------------------------------------------------------- catalogue root

  datatype CatalogueRoot = CatalogueRoot(version: nat, generation: nat, profilesRoot: Option<ObjectId>,
                                         profileCount: nat,
                                         representationsRoot: Option<ObjectId>, representationCount: nat)

  function EncodeCatalogueRoot(v: CatalogueRoot): seq<byte> {
    LeBytes(v.version, 2) + (LeBytes(v.generation, 8) + (OptionalBytes(v.profilesRoot) + (LeBytes(v.profileCount, 8)
    + (OptionalBytes(v.representationsRoot) + LeBytes(v.representationCount, 8)))))
  }

  predicate ValidCatalogueRoot(v: CatalogueRoot) {
    && v.version == 1 && v.generation <= U64_MAX && v.profileCount <= U64_MAX && v.representationCount <= U64_MAX
    && OptionalInScheme(v.profilesRoot, PHYSICAL) && OptionalInScheme(v.representationsRoot, PHYSICAL)
    && (v.profilesRoot.None? <==> v.profileCount == 0) && (v.representationsRoot.None? <==> v.representationCount == 0)
  }

  function ParseCatalogueRoot(data: seq<byte>): Result<CatalogueRoot> {
    var (version, s) :- Integer(data, 2);
    var _ :- Check(version == 1);
    var (generation, s) :- Integer(s, 8);
    var (profilesRoot, s) :- Optional(s, PHYSICAL);
    var (profileCount, s) :- Integer(s, 8);
    var (representationsRoot, s) :- Optional(s, PHYSICAL);
    var (representationCount, s) :- Integer(s, 8);
    var _ :- Check(s == []);
    var _ :- Check(profilesRoot.None? <==> profileCount == 0);
    var _ :- Check(representationsRoot.None? <==> representationCount == 0);
    Accepted(CatalogueRoot(version, generation, profilesRoot, profileCount, representationsRoot, representationCount))
  }

  lemma CatalogueRootExact(data: seq<byte>, v: CatalogueRoot)
    ensures ParseCatalogueRoot(data) == Accepted(v) <==> ValidCatalogueRoot(v) && data == EncodeCatalogueRoot(v)
  {
    hide LeBytes, Radix, Le, Integer, Optional, OptionalBytes, OptionalInScheme;
    RadixWidths();
    var s5 := LeBytes(v.representationCount, 8);
    var s4 := OptionalBytes(v.representationsRoot) + s5;
    var s3 := LeBytes(v.profileCount, 8) + s4;
    var s2 := OptionalBytes(v.profilesRoot) + s3;
    var s1 := LeBytes(v.generation, 8) + s2;
    IntegerExact(data, 2, v.version, s1);
    IntegerExact(s1, 8, v.generation, s2);
    OptionalExact(s2, PHYSICAL, v.profilesRoot, s3);
    IntegerExact(s3, 8, v.profileCount, s4);
    OptionalExact(s4, PHYSICAL, v.representationsRoot, s5);
    IntegerExact(s5, 8, v.representationCount, []);
    assert s5 + [] == s5;
    if ParseCatalogueRoot(data) == Accepted(v) {
      var r1 := Integer(data, 2).value.1;
      IntegerReads(data, 2);
      var r2 := Integer(r1, 8).value.1;
      IntegerReads(r1, 8);
      var r3 := Optional(r2, PHYSICAL).value.1;
      OptionalReads(r2, PHYSICAL);
      var r4 := Integer(r3, 8).value.1;
      IntegerReads(r3, 8);
      var r5 := Optional(r4, PHYSICAL).value.1;
      OptionalReads(r4, PHYSICAL);
      IntegerReads(r5, 8);
    }
  }

  // ---------------------------------------------------------------- replica locators and placement entries

  /** An arena (tag 0) or pack (tag 2) extent with its checksum. */
  datatype Locator = Locator(tag: nat, segment: nat, offset: nat, length: nat, checksum: seq<byte>)
  datatype Replica = Replica(store: nat, locator: Locator)
  datatype PlacementEntry = PlacementEntry(blob: ObjectId, profile: ObjectId, encodedLength: nat,
                                           replicas: seq<Replica>)

  function LocatorBytes(v: Locator): seq<byte> {
    LeBytes(v.tag, 1) + (LeBytes(v.segment, 8) + (LeBytes(v.offset, 8) + (LeBytes(v.length, 8) + v.checksum)))
  }

  predicate LocatorShape(tag: nat, length: nat) {
    (tag == 0 && length != 0) || (tag == 2 && length > 52)
  }

  predicate ValidLocator(v: Locator) {
    LocatorShape(v.tag, v.length) && v.segment <= U64_MAX && v.offset <= U64_MAX && v.length <= U64_MAX
    && |v.checksum| == 32
  }

  function ParseLocator(s: seq<byte>): Parsed<Locator> {
    var (tag, s) :- Integer(s, 1);
    var _ :- Check(tag == 0 || tag == 2);
    var (segment, s) :- Integer(s, 8);
    var (offset, s) :- Integer(s, 8);
    var (length, s) :- Integer(s, 8);
    var (checksum, s) :- Take(s, 32);
    var _ :- Check(LocatorShape(tag, length));
    Accepted((Locator(tag, segment, offset, length, checksum), s))
  }

  lemma LocatorExact(s: seq<byte>, v: Locator, rest: seq<byte>)
    ensures ParseLocator(s) == Accepted((v, rest)) <==> ValidLocator(v) && s == LocatorBytes(v) + rest
  {
    hide LeBytes, Radix, Le, Integer, Take;
    RadixWidths();
    var s4 := v.checksum + rest;
    var s3 := LeBytes(v.length, 8) + s4;
    var s2 := LeBytes(v.offset, 8) + s3;
    var s1 := LeBytes(v.segment, 8) + s2;
    assert LocatorBytes(v) + rest == LeBytes(v.tag, 1) + s1;
    IntegerExact(s, 1, v.tag, s1);
    IntegerExact(s1, 8, v.segment, s2);
    IntegerExact(s2, 8, v.offset, s3);
    IntegerExact(s3, 8, v.length, s4);
    TakeExact(s4, 32, v.checksum, rest);
    if ParseLocator(s) == Accepted((v, rest)) {
      var r1 := Integer(s, 1).value.1;
      IntegerReads(s, 1);
      var r2 := Integer(r1, 8).value.1;
      IntegerReads(r1, 8);
      var r3 := Integer(r2, 8).value.1;
      IntegerReads(r2, 8);
      var r4 := Integer(r3, 8).value.1;
      IntegerReads(r3, 8);
      TakeExact(r4, 32, Take(r4, 32).value.0, Take(r4, 32).value.1);
    }
  }

  function ParseReplica(s: seq<byte>): Parsed<Replica> {
    var (store, s) :- Integer(s, 4);
    var (locator, s) :- ParseLocator(s);
    Accepted((Replica(store, locator), s))
  }

  function ReplicaBytes(v: Replica): seq<byte> {
    LeBytes(v.store, 4) + LocatorBytes(v.locator)
  }

  predicate ValidReplica(v: Replica) {
    v.store < 0x1_0000_0000 && ValidLocator(v.locator)
  }

  lemma ReplicaExact(s: seq<byte>, v: Replica, rest: seq<byte>)
    ensures ParseReplica(s) == Accepted((v, rest)) <==> ValidReplica(v) && s == ReplicaBytes(v) + rest
  {
    hide LeBytes, Radix, Le, Integer, ParseLocator, LocatorBytes, ValidLocator;
    RadixWidths();
    var s1 := LocatorBytes(v.locator) + rest;
    assert ReplicaBytes(v) + rest == LeBytes(v.store, 4) + s1;
    IntegerExact(s, 4, v.store, s1);
    LocatorExact(s1, v.locator, rest);
    if ParseReplica(s) == Accepted((v, rest)) {
      var r1 := Integer(s, 4).value.1;
      IntegerReads(s, 4);
      LocatorExact(r1, ParseLocator(r1).value.0, ParseLocator(r1).value.1);
    }
  }

  lemma ReplicaCodec()
    ensures IsCodec(ParseReplica, ReplicaBytes, ValidReplica)
  {
    hide ParseReplica, ReplicaBytes, ValidReplica;
    forall s, v, rest
      ensures ParseReplica(s) == Accepted((v, rest)) <==> ValidReplica(v) && s == ReplicaBytes(v) + rest
    {
      ReplicaExact(s, v, rest);
    }
  }

  /** Replicas sort by store, then locator tag, then encoding. */
  predicate ReplicaLess(a: Replica, b: Replica) {
    || a.store < b.store
    || (a.store == b.store && a.locator.tag < b.locator.tag)
    || (a.store == b.store && a.locator.tag == b.locator.tag && Less(LocatorBytes(a.locator), LocatorBytes(b.locator)))
  }

  /** The order of replicas is strict and total. */
  lemma ReplicaOrder(a: Replica, b: Replica, c: Replica)
    requires ValidReplica(a) && ValidReplica(b) && ValidReplica(c)
    ensures a == b || ReplicaLess(a, b) || ReplicaLess(b, a)
    ensures ReplicaLess(a, b) ==> a != b && !ReplicaLess(b, a)
    ensures ReplicaLess(a, b) && ReplicaLess(b, c) ==> ReplicaLess(a, c)
  {
    hide LocatorBytes, ValidLocator, Less;
    var x, y, z := LocatorBytes(a.locator), LocatorBytes(b.locator), LocatorBytes(c.locator);
    LessTotal(x, y);
    LessIrreflexive(x);
    if Less(x, y) { LessAsymmetric(x, y); }
    if Less(x, y) && Less(y, z) { LessTransitive(x, y, z); }
    if x == y {
      LocatorExact(x, a.locator, []);
      LocatorExact(x, b.locator, []);
      assert x + [] == x && y + [] == y;
    }
  }

  predicate ReplicasAscend(replicas: seq<Replica>) {
    replicas != [] && forall i :: 0 < i < |replicas| ==> ReplicaLess(replicas[i - 1], replicas[i])
  }

  function EncodePlacementEntry(v: PlacementEntry): seq<byte> {
    IdentityBytes(v.blob)
    + (IdentityBytes(v.profile) + (LeBytes(v.encodedLength, 8) + CountedBytes(ReplicaBytes, v.replicas)))
  }

  ghost predicate ValidPlacementEntry(v: PlacementEntry) {
    && InScheme(v.blob, PHYSICAL) && InScheme(v.profile, PHYSICAL) && v.encodedLength <= U64_MAX
    && |v.replicas| <= U64_MAX && AllValid(ValidReplica, v.replicas) && ReplicasAscend(v.replicas)
  }

  function ParsePlacementEntry(data: seq<byte>): Result<PlacementEntry> {
    var (blob, s) :- Identity(data, PHYSICAL);
    var (profile, s) :- Identity(s, PHYSICAL);
    var (encodedLength, s) :- Integer(s, 8);
    var (replicas, s) :- Counted(ParseReplica, s);
    var _ :- Check(s == []);
    var _ :- Check(ReplicasAscend(replicas));
    Accepted(PlacementEntry(blob, profile, encodedLength, replicas))
  }

  lemma PlacementEntryExact(data: seq<byte>, v: PlacementEntry)
    ensures ParsePlacementEntry(data) == Accepted(v) <==> ValidPlacementEntry(v) && data == EncodePlacementEntry(v)
  {
    hide LeBytes, Radix, Le, Integer, Identity, IdentityBytes, InScheme, Counted, CountedBytes, AllValid,
         ReplicasAscend, IsCodec;
    RadixWidths();
    ReplicaCodec();
    var s3 := CountedBytes(ReplicaBytes, v.replicas);
    var s2 := LeBytes(v.encodedLength, 8) + s3;
    var s1 := IdentityBytes(v.profile) + s2;
    IdentityExact(data, PHYSICAL, v.blob, s1);
    IdentityExact(s1, PHYSICAL, v.profile, s2);
    IntegerExact(s2, 8, v.encodedLength, s3);
    CountedExact(ParseReplica, ReplicaBytes, ValidReplica, s3, v.replicas, []);
    assert s3 + [] == s3;
    if ParsePlacementEntry(data) == Accepted(v) {
      var r1 := Identity(data, PHYSICAL).value.1;
      IdentityReads(data, PHYSICAL);
      var r2 := Identity(r1, PHYSICAL).value.1;
      IdentityReads(r1, PHYSICAL);
      var r3 := Integer(r2, 8).value.1;
      IntegerReads(r2, 8);
      CountedReads(ParseReplica, ReplicaBytes, ValidReplica, r3);
    }
  }
}
