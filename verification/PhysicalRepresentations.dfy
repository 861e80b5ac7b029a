/** Representation records: parse and encode are inverse, and the dependency list is forced by the recipe. */
module PhysicalRepresentations {
  import opened Bytes
  import opened Outcomes
  import opened Objects
  import opened PhysicalFields
  import opened PhysicalProfiles

  /** The one coverage tag in use: an exact canonical record of a known length. */
  datatype Coverage = Exact(id: ObjectId, length: nat)

  datatype Recipe =
    | Direct(blob: ObjectId)
    | PackedSlice(blob: ObjectId, offset: nat, length: nat)
    | Compressed(blob: ObjectId, dictionary: Option<ObjectId>)
    | Delta(patch: ObjectId, base: ObjectId)
    | Generated(invocation: ObjectId, ordinal: nat, evidence: ObjectId)

  datatype Representation = Representation(
    version: nat, profile: ObjectId, coverage: Coverage, recipe: Recipe, dependencies: seq<Dependency>,
    canonicalOutputBytes: nat, maximumReconstructionBytes: nat, evidence: Option<ObjectId>)

  // ---------------------------------------------------------------- coverage

  function CoverageBytes(c: Coverage): seq<byte> {
    LeBytes(0, 1) + (IdentityBytes(c.id) + LeBytes(c.length, 8))
  }

  predicate ValidCoverage(c: Coverage) {
    InScheme(c.id, LOGICAL) && 0 < c.length <= U64_MAX
  }

  function ParseCoverage(s: seq<byte>): Parsed<Coverage> {
    var (tag, s) :- Integer(s, 1);
    var _ :- Check(tag == 0);
    var (id, s) :- Identity(s, LOGICAL);
    var (length, s) :- Integer(s, 8);
    var _ :- Check(length != 0);
    Accepted((Exact(id, length), s))
  }

  lemma CoverageExact(s: seq<byte>, c: Coverage, rest: seq<byte>)
    ensures ParseCoverage(s) == Accepted((c, rest)) <==> ValidCoverage(c) && s == CoverageBytes(c) + rest
  {
    hide LeBytes, Radix, Le, Integer, Identity, IdentityBytes, InScheme;
    RadixWidths();
    var s2 := LeBytes(c.length, 8) + rest;
    var s1 := IdentityBytes(c.id) + s2;
    assert CoverageBytes(c) + rest == LeBytes(0, 1) + s1;
    IntegerExact(s, 1, 0, s1);
    IdentityExact(s1, LOGICAL, c.id, s2);
    IntegerExact(s2, 8, c.length, rest);
    if ParseCoverage(s) == Accepted((c, rest)) {
      IntegerReads(s, 1);
      var r1 := Integer(s, 1).value.1;
      IdentityReads(r1, LOGICAL);
      IntegerReads(Identity(r1, LOGICAL).value.1, 8);
    }
  }

  lemma CoverageReads(s: seq<byte>)
    ensures ParseCoverage(s).Accepted? ==> var (c, rest) := ParseCoverage(s).value;
                                           ValidCoverage(c) && s == CoverageBytes(c) + rest
  {
    hide ParseCoverage, ValidCoverage, CoverageBytes;
    if ParseCoverage(s).Accepted? { CoverageExact(s, ParseCoverage(s).value.0, ParseCoverage(s).value.1); }
  }

  // ---------------------------------------------------------------- recipes

  function RecipeTag(r: Recipe): nat {
    match r
    case Direct(_) => 0
    case PackedSlice(_, _, _) => 1
    case Compressed(_, _) => 3
    case Delta(_, _) => 4
    case Generated(_, _, _) => 5
  }

  /** The bytes after the tag. */
  function RecipeBody(r: Recipe): seq<byte> {
    match r
    case Direct(blob) => IdentityBytes(blob)
    case PackedSlice(blob, offset, length) => IdentityBytes(blob) + (LeBytes(offset, 8) + LeBytes(length, 8))
    case Compressed(blob, dictionary) => IdentityBytes(blob) + OptionalBytes(dictionary)
    case Delta(patch, base) => IdentityBytes(patch) + IdentityBytes(base)
    case Generated(invocation, ordinal, evidence) =>
      IdentityBytes(invocation) + (LeBytes(ordinal, 4) + IdentityBytes(evidence))
  }

  function RecipeBytes(r: Recipe): seq<byte> {
    LeBytes(RecipeTag(r), 1) + RecipeBody(r)
  }

  predicate ValidRecipe(r: Recipe) {
    match r
    case Direct(blob) => InScheme(blob, PHYSICAL)
    case PackedSlice(blob, offset, length) => InScheme(blob, PHYSICAL) && 0 < length && offset + length <= U64_MAX
    case Compressed(blob, dictionary) => InScheme(blob, PHYSICAL) && OptionalInScheme(dictionary, PHYSICAL)
    case Delta(patch, base) => InScheme(patch, PHYSICAL) && InScheme(base, LOGICAL)
    case Generated(invocation, ordinal, evidence) =>
      InScheme(invocation, LOGICAL) && ordinal < 0x1_0000_0000 && InScheme(evidence, LOGICAL)
  }

  function ParseRecipe(s: seq<byte>): Parsed<Recipe> {
    var (tag, s) :- Integer(s, 1);
    ParseRecipeBody(tag, s)
  }

  function ParseRecipeBody(tag: nat, s: seq<byte>): Parsed<Recipe> {
    if tag == 0 then
      var (blob, s) :- Identity(s, PHYSICAL);
      Accepted((Direct(blob), s))
    else if tag == 1 then
      var (blob, s) :- Identity(s, PHYSICAL);
      var (offset, s) :- Integer(s, 8);
      var (length, s) :- Integer(s, 8);
      var _ :- Check(length != 0 && offset + length <= U64_MAX);
      Accepted((PackedSlice(blob, offset, length), s))
    else if tag == 3 then
      var (blob, s) :- Identity(s, PHYSICAL);
      var (dictionary, s) :- Optional(s, PHYSICAL);
      Accepted((Compressed(blob, dictionary), s))
    else if tag == 4 then
      var (patch, s) :- Identity(s, PHYSICAL);
      var (base, s) :- Identity(s, LOGICAL);
      Accepted((Delta(patch, base), s))
    else if tag == 5 then
      var (invocation, s) :- Identity(s, LOGICAL);
      var (ordinal, s) :- Integer(s, 4);
      var (evidence, s) :- Identity(s, LOGICAL);
      Accepted((Generated(invocation, ordinal, evidence), s))
    else Rejected
  }

  lemma RecipeBodyWrites(r: Recipe, rest: seq<byte>)
    requires ValidRecipe(r)
    ensures ParseRecipeBody(RecipeTag(r), RecipeBody(r) + rest) == Accepted((r, rest))
  {
    hide LeBytes, Radix, Le, Integer, Identity, IdentityBytes, Optional, OptionalBytes, InScheme, OptionalInScheme;
    RadixWidths();
    var s := RecipeBody(r) + rest;
    match r
    case Direct(blob) => IdentityExact(s, PHYSICAL, blob, rest);
    case PackedSlice(blob, offset, length) =>
      var s2 := LeBytes(length, 8) + rest;
      var s1 := LeBytes(offset, 8) + s2;
      assert s == IdentityBytes(blob) + s1;
      IdentityExact(s, PHYSICAL, blob, s1);
      IntegerExact(s1, 8, offset, s2);
      IntegerExact(s2, 8, length, rest);
    case Compressed(blob, dictionary) =>
      var s1 := OptionalBytes(dictionary) + rest;
      assert s == IdentityBytes(blob) + s1;
      IdentityExact(s, PHYSICAL, blob, s1);
      OptionalExact(s1, PHYSICAL, dictionary, rest);
    case Delta(patch, base) =>
      var s1 := IdentityBytes(base) + rest;
      assert s == IdentityBytes(patch) + s1;
      IdentityExact(s, PHYSICAL, patch, s1);
      IdentityExact(s1, LOGICAL, base, rest);
    case Generated(invocation, ordinal, evidence) =>
      var s2 := IdentityBytes(evidence) + rest;
      var s1 := LeBytes(ordinal, 4) + s2;
      assert s == IdentityBytes(invocation) + s1;
      IdentityExact(s, LOGICAL, invocation, s1);
      IntegerExact(s1, 4, ordinal, s2);
      IdentityExact(s2, LOGICAL, evidence, rest);
  }

  lemma RecipeBodyReads(tag: nat, s: seq<byte>)
    requires ParseRecipeBody(tag, s).Accepted?
    ensures var (r, rest) := ParseRecipeBody(tag, s).value;
            ValidRecipe(r) && RecipeTag(r) == tag && s == RecipeBody(r) + rest
  {
    hide LeBytes, Radix, Le, Integer, Identity, IdentityBytes, Optional, OptionalBytes, InScheme, OptionalInScheme;
    RadixWidths();
    var scheme := if tag == 5 then LOGICAL else PHYSICAL;
    IdentityReads(s, scheme);
    var r1 := Identity(s, scheme).value.1;
    if tag == 1 {
      IntegerReads(r1, 8);
      IntegerReads(Integer(r1, 8).value.1, 8);
    } else if tag == 3 {
      OptionalReads(r1, PHYSICAL);
    } else if tag == 4 {
      IdentityReads(r1, LOGICAL);
    } else if tag == 5 {
      IntegerReads(r1, 4);
      IdentityReads(Integer(r1, 4).value.1, LOGICAL);
    }
  }

  lemma RecipeExact(s: seq<byte>, r: Recipe, rest: seq<byte>)
    ensures ParseRecipe(s) == Accepted((r, rest)) <==> ValidRecipe(r) && s == RecipeBytes(r) + rest
  {
    hide LeBytes, Radix, Le, Integer, ParseRecipeBody, RecipeBody, ValidRecipe;
    RadixWidths();
    var s1 := RecipeBody(r) + rest;
    assert RecipeBytes(r) + rest == LeBytes(RecipeTag(r), 1) + s1;
    IntegerExact(s, 1, RecipeTag(r), s1);
    if ValidRecipe(r) { RecipeBodyWrites(r, rest); }
    if ParseRecipe(s) == Accepted((r, rest)) {
      IntegerReads(s, 1);
      var (tag, r1) := Integer(s, 1).value;
      RecipeBodyReads(tag, r1);
    }
  }

  lemma RecipeReads(s: seq<byte>)
    ensures ParseRecipe(s).Accepted? ==> var (r, rest) := ParseRecipe(s).value;
                                         ValidRecipe(r) && s == RecipeBytes(r) + rest
  {
    hide ParseRecipe, ValidRecipe, RecipeBytes;
    if ParseRecipe(s).Accepted? { RecipeExact(s, ParseRecipe(s).value.0, ParseRecipe(s).value.1); }
  }

  // ---------------------------------------------------------------- derived dependencies

  /** Insertion by encoding; an equal encoding is replaced. */
  function Insert(ds: seq<Dependency>, d: Dependency): seq<Dependency> {
    if ds == [] then [d]
    else if Less(DependencyBytes(d), DependencyBytes(ds[0])) then [d] + ds
    else if DependencyBytes(d) == DependencyBytes(ds[0]) then [d] + ds[1..]
    else [ds[0]] + Insert(ds[1..], d)
  }

  function SortedUnique(ds: seq<Dependency>): seq<Dependency> {
    if ds == [] then [] else Insert(SortedUnique(ds[..|ds| - 1]), ds[|ds| - 1])
  }

  function RecipeDependencies(recipe: Recipe): seq<Dependency> {
    match recipe
    case Direct(blob) => [Dependency(1, blob)]
    case PackedSlice(blob, _, _) => [Dependency(1, blob)]
    case Compressed(blob, dictionary) =>
      [Dependency(1, blob)] + (if dictionary.None? then [] else [Dependency(1, dictionary.value)])
    case Delta(patch, base) => [Dependency(1, patch), Dependency(0, base)]
    case Generated(invocation, _, evidence) => [Dependency(4, invocation), Dependency(5, evidence)]
  }

  function DerivedDependencies(profile: ObjectId, recipe: Recipe, evidence: Option<ObjectId>): seq<Dependency> {
    SortedUnique([Dependency(3, profile)] + RecipeDependencies(recipe)
                 + (if evidence.None? then [] else [Dependency(5, evidence.value)]))
  }

  lemma {:induction false} InsertAscends(ds: seq<Dependency>, d: Dependency)
    requires EncodingsAscend(DependencyBytes, ds)
    ensures EncodingsAscend(DependencyBytes, Insert(ds, d))
    ensures Insert(ds, d) != [] && (Insert(ds, d)[0] == d || (ds != [] && Insert(ds, d)[0] == ds[0]))
    decreases |ds|
  {
    hide DependencyBytes, Less;
    if ds != [] {
      var rest := ds[1..];
      forall i | 0 < i < |rest| ensures Less(DependencyBytes(rest[i - 1]), DependencyBytes(rest[i])) {
        assert Less(DependencyBytes(ds[i]), DependencyBytes(ds[i + 1]));
      }
      LessTotal(DependencyBytes(d), DependencyBytes(ds[0]));
      InsertAscends(rest, d);
      if rest != [] { assert Less(DependencyBytes(ds[0]), DependencyBytes(ds[1])); }
      AscendsCons(d, ds);
      AscendsCons(d, rest);
      AscendsCons(ds[0], Insert(rest, d));
    }
  }

  lemma AscendsCons(d: Dependency, ds: seq<Dependency>)
    requires EncodingsAscend(DependencyBytes, ds)
    ensures ds == [] || Less(DependencyBytes(d), DependencyBytes(ds[0])) ==> EncodingsAscend(DependencyBytes, [d] + ds)
  {
    hide DependencyBytes, Less;
    var grown := [d] + ds;
    if ds == [] || Less(DependencyBytes(d), DependencyBytes(ds[0])) {
      forall i | 0 < i < |grown| ensures Less(DependencyBytes(grown[i - 1]), DependencyBytes(grown[i])) {
        if i > 1 { assert grown[i - 1] == ds[i - 2] && grown[i] == ds[i - 1]; }
      }
    }
  }

  /** Derived dependencies are strictly ordered, so the order test is implied by the forgery test. */
  lemma {:induction false} SortedUniqueAscends(ds: seq<Dependency>)
    ensures EncodingsAscend(DependencyBytes, SortedUnique(ds))
    decreases |ds|
  {
    hide DependencyBytes, Less;
    if ds != [] {
      SortedUniqueAscends(ds[..|ds| - 1]);
      InsertAscends(SortedUnique(ds[..|ds| - 1]), ds[|ds| - 1]);
    }
  }

  ghost predicate Encoded(ds: seq<Dependency>, s: seq<byte>) {
    exists i :: 0 <= i < |ds| && DependencyBytes(ds[i]) == s
  }

  lemma EncodedCons(d: Dependency, ds: seq<Dependency>, s: seq<byte>)
    ensures Encoded([d] + ds, s) <==> DependencyBytes(d) == s || Encoded(ds, s)
  {
    hide DependencyBytes;
    var all := [d] + ds;
    assert all[0] == d && forall i :: 1 <= i < |all| ==> all[i] == ds[i - 1];
    if Encoded(ds, s) {
      var i :| 0 <= i < |ds| && DependencyBytes(ds[i]) == s;
      assert all[i + 1] == ds[i];
    }
  }

  lemma {:induction false} InsertHolds(ds: seq<Dependency>, d: Dependency, s: seq<byte>)
    ensures Encoded(Insert(ds, d), s) <==> DependencyBytes(d) == s || Encoded(ds, s)
    decreases |ds|
  {
    hide DependencyBytes, Less, Encoded;
    EncodedCons(d, [], s);
    NothingEncoded(s);
    assert [d] + [] == [d];
    if ds != [] {
      var rest := ds[1..];
      assert ds == [ds[0]] + rest;
      EncodedCons(ds[0], rest, s);
      EncodedCons(d, ds, s);
      EncodedCons(d, rest, s);
      InsertHolds(rest, d, s);
      EncodedCons(ds[0], Insert(rest, d), s);
    }
  }

  lemma NothingEncoded(s: seq<byte>)
    ensures !Encoded([], s)
  {}

  /** Sorting keeps exactly the encodings it is given; in strict order they can be listed in one way only. */
  lemma {:induction false} SortedUniqueHolds(ds: seq<Dependency>, s: seq<byte>)
    ensures Encoded(SortedUnique(ds), s) <==> Encoded(ds, s)
    decreases |ds|
  {
    hide DependencyBytes, Insert;
    if ds != [] {
      var n := |ds| - 1;
      SortedUniqueHolds(ds[..n], s);
      InsertHolds(SortedUnique(ds[..n]), ds[n], s);
      if Encoded(ds[..n], s) {
        var i :| 0 <= i < n && DependencyBytes(ds[..n][i]) == s;
        assert ds[i] == ds[..n][i];
      }
      if Encoded(ds, s) {
        var i :| 0 <= i <= n && DependencyBytes(ds[i]) == s;
        if i < n { assert ds[..n][i] == ds[i]; }
      }
    }
  }

  // ---------------------------------------------------------------- whole records

  function EncodeRepresentation(v: Representation): seq<byte> {
    LeBytes(v.version, 2)
    + (IdentityBytes(v.profile)
       + (CoverageBytes(v.coverage) + (RecipeBytes(v.recipe) + (DependenciesBytes(v.dependencies)
    + (LeBytes(v.canonicalOutputBytes, 8) + (LeBytes(v.maximumReconstructionBytes, 8) + OptionalBytes(v.evidence)))))))
  }

  predicate RepresentationShape(v: Representation) {
    && EncodingsAscend(DependencyBytes, v.dependencies)
    && v.dependencies == DerivedDependencies(v.profile, v.recipe, v.evidence)
    && 0 < v.maximumReconstructionBytes && v.canonicalOutputBytes <= v.maximumReconstructionBytes
    && v.canonicalOutputBytes == v.coverage.length
    && match v.recipe
       case Direct(_) => true
       case Generated(_, _, evidence) => v.evidence == Some(evidence)
       case PackedSlice(_, _, length) => v.evidence.Some? && length == v.canonicalOutputBytes
       case _ => v.evidence.Some?
  }

  ghost predicate ValidRepresentation(v: Representation) {
    && v.version == 1 && InScheme(v.profile, PHYSICAL) && ValidCoverage(v.coverage) && ValidRecipe(v.recipe)
    && ValidDependencies(RepresentationSchemes, v.dependencies) && v.canonicalOutputBytes <= U64_MAX
    && v.maximumReconstructionBytes <= U64_MAX
    && OptionalInScheme(v.evidence, LOGICAL) && RepresentationShape(v)
  }

  function ParseRepresentation(data: seq<byte>): Result<Representation> {
    var (version, s) :- Integer(data, 2);
    var _ :- Check(version == 1);
    var (profile, s) :- Identity(s, PHYSICAL);
    var (coverage, s) :- ParseCoverage(s);
    var (recipe, s) :- ParseRecipe(s);
    var (dependencies, s) :- ParseDependencies(RepresentationSchemes, s);
    var (canonicalOutputBytes, s) :- Integer(s, 8);
    var (maximumReconstructionBytes, s) :- Integer(s, 8);
    var (evidence, s) :- Optional(s, LOGICAL);
    var _ :- Check(s == []);
    var v := Representation(version, profile, coverage, recipe, dependencies, canonicalOutputBytes,
                            maximumReconstructionBytes, evidence);
    var _ :- Check(RepresentationShape(v));
    Accepted(v)
  }

  lemma RepresentationExact(data: seq<byte>, v: Representation)
    ensures ParseRepresentation(data) == Accepted(v) <==> ValidRepresentation(v) && data == EncodeRepresentation(v)
  {
    hide LeBytes, Radix, Le, Integer, Identity, IdentityBytes, InScheme, ParseCoverage, CoverageBytes, ValidCoverage,
         ParseRecipe, RecipeBytes, ValidRecipe,
         ParseDependencies, DependenciesBytes, ValidDependencies, Optional, OptionalBytes, OptionalInScheme,
         RepresentationShape, RepresentationSchemes;
    RadixWidths();
    ProfileTags();
    var s7 := OptionalBytes(v.evidence);
    var s6 := LeBytes(v.maximumReconstructionBytes, 8) + s7;
    var s5 := LeBytes(v.canonicalOutputBytes, 8) + s6;
    var s4 := DependenciesBytes(v.dependencies) + s5;
    var s3 := RecipeBytes(v.recipe) + s4;
    var s2 := CoverageBytes(v.coverage) + s3;
    var s1 := IdentityBytes(v.profile) + s2;
    IntegerExact(data, 2, v.version, s1);
    IdentityExact(s1, PHYSICAL, v.profile, s2);
    CoverageExact(s2, v.coverage, s3);
    RecipeExact(s3, v.recipe, s4);
    DependenciesExact(RepresentationSchemes, s4, v.dependencies, s5);
    IntegerExact(s5, 8, v.canonicalOutputBytes, s6);
    IntegerExact(s6, 8, v.maximumReconstructionBytes, s7);
    OptionalExact(s7, LOGICAL, v.evidence, []);
    assert s7 + [] == s7;
    if ParseRepresentation(data) == Accepted(v) { RepresentationReads(data); }
  }

  lemma RepresentationReads(data: seq<byte>)
    requires ParseRepresentation(data).Accepted?
    ensures ValidRepresentation(ParseRepresentation(data).value)
            && data == EncodeRepresentation(ParseRepresentation(data).value)
  {
    hide LeBytes, Radix, Le, Integer, Identity, IdentityBytes, InScheme, ParseCoverage, CoverageBytes, ValidCoverage,
         ParseRecipe, RecipeBytes, ValidRecipe,
         ParseDependencies, DependenciesBytes, ValidDependencies, Optional, OptionalBytes, OptionalInScheme,
         RepresentationShape, RepresentationSchemes;
    RadixWidths();
    ProfileTags();
    IntegerReads(data, 2);
    var r1 := Integer(data, 2).value.1;
    IdentityReads(r1, PHYSICAL);
    var r2 := Identity(r1, PHYSICAL).value.1;
    CoverageReads(r2);
    var r3 := ParseCoverage(r2).value.1;
    RecipeReads(r3);
    var r4 := ParseRecipe(r3).value.1;
    DependenciesRead(RepresentationSchemes, r4);
    var r5 := ParseDependencies(RepresentationSchemes, r4).value.1;
    IntegerReads(r5, 8);
    var r6 := Integer(r5, 8).value.1;
    IntegerReads(r6, 8);
    OptionalReads(Integer(r6, 8).value.1, LOGICAL);
  }
}
