/** Representation profiles: parse and encode are inverse. */
module PhysicalProfiles {
  import opened Bytes
  import opened Outcomes
  import opened Objects
  import opened PhysicalFields

  datatype Dependency = Dependency(tag: nat, id: ObjectId)
  datatype Bounds = Bounds(dependencyDepth: nat, dependencyFanout: nat, encodedBytes: nat, outputBytes: nat, fuel: nat,
                           residentBytes: nat, elapsedMicros: nat)

  /** The pinned decoder, contract and runtime of a transform. */
  datatype Pins = Pins(decoder: Option<ObjectId>, contract: Option<ObjectId>, runtime: Option<ObjectId>)
  datatype Profile = Profile(version: nat, kind: nat, pins: Pins, parameters: seq<byte>, dependencies: seq<Dependency>,
                             boundsVersion: nat, bounds: Bounds, specification: ObjectId)

  // ---------------------------------------------------------------- dependencies

  function DependencyBytes(d: Dependency): seq<byte> {
    LeBytes(d.tag, 1) + IdentityBytes(d.id)
  }

  /** The identity scheme a dependency tag demands, if the tag is known. */
  type Schemes = nat -> Option<Scheme>

  function ProfileSchemes(tag: nat): Option<Scheme> {
    if tag == 0 then Some(LOGICAL) else if tag == 1 then Some(PHYSICAL) else None
  }

  function RepresentationSchemes(tag: nat): Option<Scheme> {
    if tag == 0 || tag == 4 || tag == 5 then Some(LOGICAL)
    else if tag == 1 || tag == 2 || tag == 3 then Some(PHYSICAL) else None
  }

  ghost predicate KnownSchemes(schemes: Schemes) {
    forall tag :: schemes(tag).Some? ==> tag < 256 && Supported(schemes(tag).value)
  }

  function ParseDependency(schemes: Schemes, s: seq<byte>): Parsed<Dependency> {
    var (tag, s) :- Integer(s, 1);
    var _ :- Check(schemes(tag).Some?);
    var (id, s) :- Identity(s, schemes(tag).value);
    Accepted((Dependency(tag, id), s))
  }

  predicate ValidDependency(schemes: Schemes, d: Dependency) {
    schemes(d.tag).Some? && InScheme(d.id, schemes(d.tag).value)
  }

  lemma DependencyExact(schemes: Schemes, s: seq<byte>, d: Dependency, rest: seq<byte>)
    requires KnownSchemes(schemes)
    ensures ParseDependency(schemes, s) == Accepted((d, rest)) <==>
            ValidDependency(schemes, d) && s == DependencyBytes(d) + rest
  {
    hide LeBytes, Radix, Le, Integer, Identity, IdentityBytes, InScheme;
    RadixWidths();
    var s1 := IdentityBytes(d.id) + rest;
    assert DependencyBytes(d) + rest == LeBytes(d.tag, 1) + s1;
    IntegerExact(s, 1, d.tag, s1);
    if schemes(d.tag).Some? { IdentityExact(s1, schemes(d.tag).value, d.id, rest); }
    if ParseDependency(schemes, s) == Accepted((d, rest)) {
      IntegerReads(s, 1);
      IdentityReads(Integer(s, 1).value.1, schemes(d.tag).value);
    }
  }

  lemma DependencyCodec(schemes: Schemes)
    requires KnownSchemes(schemes)
    ensures IsCodec(s => ParseDependency(schemes, s), DependencyBytes, d => ValidDependency(schemes, d))
  {
    hide ParseDependency, DependencyBytes, ValidDependency;
    forall s, d, rest
      ensures ParseDependency(schemes, s) == Accepted((d, rest)) <==>
              ValidDependency(schemes, d) && s == DependencyBytes(d) + rest
    {
      DependencyExact(schemes, s, d, rest);
    }
  }

  function ParseDependencies(schemes: Schemes, s: seq<byte>): Parsed<seq<Dependency>> {
    Counted(s => ParseDependency(schemes, s), s)
  }

  ghost predicate ValidDependencies(schemes: Schemes, ds: seq<Dependency>) {
    |ds| <= U64_MAX && AllValid(d => ValidDependency(schemes, d), ds)
  }

  function DependenciesBytes(ds: seq<Dependency>): seq<byte> {
    CountedBytes(DependencyBytes, ds)
  }

  lemma DependenciesExact(schemes: Schemes, s: seq<byte>, ds: seq<Dependency>, rest: seq<byte>)
    requires KnownSchemes(schemes)
    ensures ParseDependencies(schemes, s) == Accepted((ds, rest)) <==>
            ValidDependencies(schemes, ds) && s == DependenciesBytes(ds) + rest
  {
    hide IsCodec, Counted, CountedBytes, AllValid;
    DependencyCodec(schemes);
    CountedExact(s => ParseDependency(schemes, s), DependencyBytes, d => ValidDependency(schemes, d), s, ds, rest);
  }

  lemma DependenciesRead(schemes: Schemes, s: seq<byte>)
    requires KnownSchemes(schemes)
    ensures ParseDependencies(schemes, s).Accepted? ==>
              var (ds, rest) := ParseDependencies(schemes, s).value;
              ValidDependencies(schemes, ds) && s == DependenciesBytes(ds) + rest
  {
    hide ParseDependencies, ValidDependencies, DependenciesBytes;
    if ParseDependencies(schemes, s).Accepted? {
      DependenciesExact(schemes, s, ParseDependencies(schemes, s).value.0, ParseDependencies(schemes, s).value.1);
    }
  }

  // ---------------------------------------------------------------- pins and bounds

  function PinsBytes(p: Pins): seq<byte> {
    OptionalBytes(p.decoder) + (OptionalBytes(p.contract) + OptionalBytes(p.runtime))
  }

  predicate ValidPins(p: Pins) {
    OptionalInScheme(p.decoder, LOGICAL) && OptionalInScheme(p.contract, LOGICAL)
    && OptionalInScheme(p.runtime, LOGICAL)
  }

  function ParsePins(s: seq<byte>): Parsed<Pins> {
    var (decoder, s) :- Optional(s, LOGICAL);
    var (contract, s) :- Optional(s, LOGICAL);
    var (runtime, s) :- Optional(s, LOGICAL);
    Accepted((Pins(decoder, contract, runtime), s))
  }

  lemma PinsExact(s: seq<byte>, p: Pins, rest: seq<byte>)
    ensures ParsePins(s) == Accepted((p, rest)) <==> ValidPins(p) && s == PinsBytes(p) + rest
  {
    hide Optional, OptionalBytes, OptionalInScheme;
    var s2 := OptionalBytes(p.runtime) + rest;
    var s1 := OptionalBytes(p.contract) + s2;
    assert PinsBytes(p) + rest == OptionalBytes(p.decoder) + s1;
    OptionalExact(s, LOGICAL, p.decoder, s1);
    OptionalExact(s1, LOGICAL, p.contract, s2);
    OptionalExact(s2, LOGICAL, p.runtime, rest);
    if ParsePins(s) == Accepted((p, rest)) {
      OptionalReads(s, LOGICAL);
      var r1 := Optional(s, LOGICAL).value.1;
      OptionalReads(r1, LOGICAL);
      OptionalReads(Optional(r1, LOGICAL).value.1, LOGICAL);
    }
  }

  lemma PinsRead(s: seq<byte>)
    ensures ParsePins(s).Accepted? ==> var (p, rest) := ParsePins(s).value; ValidPins(p) && s == PinsBytes(p) + rest
  {
    hide ParsePins, PinsBytes, ValidPins;
    if ParsePins(s).Accepted? { PinsExact(s, ParsePins(s).value.0, ParsePins(s).value.1); }
  }

  function BoundsBytes(b: Bounds): seq<byte> {
    LeBytes(b.dependencyDepth, 4)
    + (LeBytes(b.dependencyFanout, 4) + (LeBytes(b.encodedBytes, 8) + (LeBytes(b.outputBytes, 8)
    + (LeBytes(b.fuel, 8) + (LeBytes(b.residentBytes, 8) + LeBytes(b.elapsedMicros, 8))))))
  }

  predicate ValidBounds(b: Bounds) {
    && b.dependencyDepth < 0x1_0000_0000 && b.dependencyFanout < 0x1_0000_0000 && b.encodedBytes <= U64_MAX
    && b.outputBytes <= U64_MAX
    && b.fuel <= U64_MAX && b.residentBytes <= U64_MAX && b.elapsedMicros <= U64_MAX
  }

  predicate NonZeroBounds(b: Bounds) {
    && b.dependencyDepth > 0 && b.dependencyFanout > 0 && b.encodedBytes > 0 && b.outputBytes > 0
    && b.fuel > 0 && b.residentBytes > 0 && b.elapsedMicros > 0
  }

  function ParseBounds(s: seq<byte>): Parsed<Bounds> {
    var (dependencyDepth, s) :- Integer(s, 4);
    var (dependencyFanout, s) :- Integer(s, 4);
    var (encodedBytes, s) :- Integer(s, 8);
    var (outputBytes, s) :- Integer(s, 8);
    var (fuel, s) :- Integer(s, 8);
    var (residentBytes, s) :- Integer(s, 8);
    var (elapsedMicros, s) :- Integer(s, 8);
    Accepted((Bounds(dependencyDepth, dependencyFanout, encodedBytes, outputBytes, fuel, residentBytes, elapsedMicros),
              s))
  }

  lemma BoundsExact(s: seq<byte>, b: Bounds, rest: seq<byte>)
    ensures ParseBounds(s) == Accepted((b, rest)) <==> ValidBounds(b) && s == BoundsBytes(b) + rest
  {
    hide LeBytes, Radix, Le, Integer;
    RadixWidths();
    var s6 := LeBytes(b.elapsedMicros, 8) + rest;
    var s5 := LeBytes(b.residentBytes, 8) + s6;
    var s4 := LeBytes(b.fuel, 8) + s5;
    var s3 := LeBytes(b.outputBytes, 8) + s4;
    var s2 := LeBytes(b.encodedBytes, 8) + s3;
    var s1 := LeBytes(b.dependencyFanout, 4) + s2;
    assert BoundsBytes(b) + rest == LeBytes(b.dependencyDepth, 4) + s1;
    IntegerExact(s, 4, b.dependencyDepth, s1);
    IntegerExact(s1, 4, b.dependencyFanout, s2);
    IntegerExact(s2, 8, b.encodedBytes, s3);
    IntegerExact(s3, 8, b.outputBytes, s4);
    IntegerExact(s4, 8, b.fuel, s5);
    IntegerExact(s5, 8, b.residentBytes, s6);
    IntegerExact(s6, 8, b.elapsedMicros, rest);
    if ParseBounds(s) == Accepted((b, rest)) {
      IntegerReads(s, 4);
      var r1 := Integer(s, 4).value.1;
      IntegerReads(r1, 4);
      var r2 := Integer(r1, 4).value.1;
      IntegerReads(r2, 8);
      var r3 := Integer(r2, 8).value.1;
      IntegerReads(r3, 8);
      var r4 := Integer(r3, 8).value.1;
      IntegerReads(r4, 8);
      var r5 := Integer(r4, 8).value.1;
      IntegerReads(r5, 8);
      IntegerReads(Integer(r5, 8).value.1, 8);
    }
  }

  lemma BoundsRead(s: seq<byte>)
    ensures ParseBounds(s).Accepted? ==> var (b, rest) := ParseBounds(s).value;
                                         ValidBounds(b) && s == BoundsBytes(b) + rest
  {
    hide ParseBounds, BoundsBytes, ValidBounds;
    if ParseBounds(s).Accepted? { BoundsExact(s, ParseBounds(s).value.0, ParseBounds(s).value.1); }
  }

  // ---------------------------------------------------------------- whole profiles

  function EncodeProfile(v: Profile): seq<byte> {
    LeBytes(v.version, 2)
    + (LeBytes(v.kind, 1) + (PinsBytes(v.pins) + (StringBytes(v.parameters) + (DependenciesBytes(v.dependencies)
    + (LeBytes(v.boundsVersion, 2) + (BoundsBytes(v.bounds) + IdentityBytes(v.specification)))))))
  }

  /** A transform pins everything it needs; a built-in profile carries nothing but its specification. */
  predicate ProfileShape(v: Profile) {
    && NonZeroBounds(v.bounds) && |v.dependencies| <= v.bounds.dependencyFanout
    && EncodingsAscend(DependencyBytes, v.dependencies)
    && (if v.kind == 3 then
          && v.pins.decoder.Some? && v.pins.contract.Some? && v.pins.runtime.Some?
          && Dependency(0, v.specification) in v.dependencies && Dependency(0, v.pins.decoder.value) in v.dependencies
          && Dependency(0, v.pins.contract.value) in v.dependencies
          && Dependency(0, v.pins.runtime.value) in v.dependencies
        else v.pins == Pins(None, None, None) && v.parameters == []
             && v.dependencies == [Dependency(0, v.specification)])
  }

  predicate KnownKind(kind: nat) {
    kind == 0 || kind == 1 || kind == 3
  }

  ghost predicate ValidProfile(v: Profile) {
    && v.version == 1 && KnownKind(v.kind) && ValidPins(v.pins) && |v.parameters| <= U64_MAX
    && ValidDependencies(ProfileSchemes, v.dependencies) && v.boundsVersion == 1 && ValidBounds(v.bounds)
    && InScheme(v.specification, LOGICAL) && ProfileShape(v)
  }

  function ParseProfile(data: seq<byte>): Result<Profile> {
    var (version, s) :- Integer(data, 2);
    var _ :- Check(version == 1);
    var (kind, s) :- Integer(s, 1);
    var _ :- Check(KnownKind(kind));
    var (pins, s) :- ParsePins(s);
    var (parameters, s) :- ByteString(s);
    var (dependencies, s) :- ParseDependencies(ProfileSchemes, s);
    var (boundsVersion, s) :- Integer(s, 2);
    var _ :- Check(boundsVersion == 1);
    var (bounds, s) :- ParseBounds(s);
    var (specification, s) :- Identity(s, LOGICAL);
    var _ :- Check(s == []);
    var v := Profile(version, kind, pins, parameters, dependencies, boundsVersion, bounds, specification);
    var _ :- Check(ProfileShape(v));
    Accepted(v)
  }

  lemma ProfileExact(data: seq<byte>, v: Profile)
    ensures ParseProfile(data) == Accepted(v) <==> ValidProfile(v) && data == EncodeProfile(v)
  {
    hide LeBytes, Radix, Le, Integer, Identity, IdentityBytes, InScheme, ParsePins, PinsBytes, ValidPins, ByteString,
         StringBytes,
         ParseDependencies, DependenciesBytes, ValidDependencies, ParseBounds, BoundsBytes, ValidBounds, ProfileShape,
         ProfileSchemes;
    RadixWidths();
    ProfileTags();
    var s7 := IdentityBytes(v.specification);
    var s6 := BoundsBytes(v.bounds) + s7;
    var s5 := LeBytes(v.boundsVersion, 2) + s6;
    var s4 := DependenciesBytes(v.dependencies) + s5;
    var s3 := StringBytes(v.parameters) + s4;
    var s2 := PinsBytes(v.pins) + s3;
    var s1 := LeBytes(v.kind, 1) + s2;
    IntegerExact(data, 2, v.version, s1);
    IntegerExact(s1, 1, v.kind, s2);
    PinsExact(s2, v.pins, s3);
    ByteStringExact(s3, v.parameters, s4);
    DependenciesExact(ProfileSchemes, s4, v.dependencies, s5);
    IntegerExact(s5, 2, v.boundsVersion, s6);
    BoundsExact(s6, v.bounds, s7);
    IdentityExact(s7, LOGICAL, v.specification, []);
    assert s7 + [] == s7;
    if ParseProfile(data) == Accepted(v) { ProfileReads(data); }
  }

  lemma ProfileTags()
    ensures KnownSchemes(ProfileSchemes) && KnownSchemes(RepresentationSchemes)
  {}

  lemma ProfileReads(data: seq<byte>)
    requires ParseProfile(data).Accepted?
    ensures ValidProfile(ParseProfile(data).value) && data == EncodeProfile(ParseProfile(data).value)
  {
    hide LeBytes, Radix, Le, Integer, Identity, IdentityBytes, InScheme, ParsePins, PinsBytes, ValidPins, ByteString,
         StringBytes,
         ParseDependencies, DependenciesBytes, ValidDependencies, ParseBounds, BoundsBytes, ValidBounds, ProfileShape,
         ProfileSchemes;
    RadixWidths();
    ProfileTags();
    IntegerReads(data, 2);
    var r1 := Integer(data, 2).value.1;
    IntegerReads(r1, 1);
    var r2 := Integer(r1, 1).value.1;
    PinsRead(r2);
    var r3 := ParsePins(r2).value.1;
    ByteStringReads(r3);
    var r4 := ByteString(r3).value.1;
    DependenciesRead(ProfileSchemes, r4);
    var r5 := ParseDependencies(ProfileSchemes, r4).value.1;
    IntegerReads(r5, 2);
    var r6 := Integer(r5, 2).value.1;
    BoundsRead(r6);
    var r7 := ParseBounds(r6).value.1;
    IdentityReads(r7, LOGICAL);
  }
}
