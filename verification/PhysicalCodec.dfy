/**
 * The physical decoders as the source runs them, ending in a test that re-encodes the value. The test can
 * never reject: every parse is exact, so decoding and encoding are inverse in both directions.
 */
module PhysicalCodec {
  import opened Bytes
  import opened Outcomes
  import opened PhysicalRoots
  import opened PhysicalProfiles
  import opened PhysicalRepresentations
  import opened PhysicalMapNodes

  function DecodeState(data: seq<byte>): Result<State> {
    var v :- ParseState(data);
    var _ :- Check(EncodeState(v) == data);
    Accepted(v)
  }

  lemma StateRoundTrip(data: seq<byte>, v: State)
    ensures DecodeState(data) == ParseState(data)
    ensures ValidState(v) ==> DecodeState(EncodeState(v)) == Accepted(v)
    ensures DecodeState(data) == Accepted(v) ==> ValidState(v) && EncodeState(v) == data
  {
    hide ParseState, EncodeState, ValidState;
    StateExact(data, v);
    StateExact(EncodeState(v), v);
    if ParseState(data).Accepted? { StateExact(data, ParseState(data).value); }
  }

  function DecodePlacementSet(data: seq<byte>): Result<PlacementSet> {
    var v :- ParsePlacementSet(data);
    var _ :- Check(EncodePlacementSet(v) == data);
    Accepted(v)
  }

  lemma PlacementSetRoundTrip(data: seq<byte>, v: PlacementSet)
    ensures DecodePlacementSet(data) == ParsePlacementSet(data)
    ensures ValidPlacementSet(v) ==> DecodePlacementSet(EncodePlacementSet(v)) == Accepted(v)
    ensures DecodePlacementSet(data) == Accepted(v) ==> ValidPlacementSet(v) && EncodePlacementSet(v) == data
  {
    hide ParsePlacementSet, EncodePlacementSet, ValidPlacementSet;
    PlacementSetExact(data, v);
    PlacementSetExact(EncodePlacementSet(v), v);
    if ParsePlacementSet(data).Accepted? { PlacementSetExact(data, ParsePlacementSet(data).value); }
  }

  function DecodeCatalogueRoot(data: seq<byte>): Result<CatalogueRoot> {
    var v :- ParseCatalogueRoot(data);
    var _ :- Check(EncodeCatalogueRoot(v) == data);
    Accepted(v)
  }

  lemma CatalogueRootRoundTrip(data: seq<byte>, v: CatalogueRoot)
    ensures DecodeCatalogueRoot(data) == ParseCatalogueRoot(data)
    ensures ValidCatalogueRoot(v) ==> DecodeCatalogueRoot(EncodeCatalogueRoot(v)) == Accepted(v)
    ensures DecodeCatalogueRoot(data) == Accepted(v) ==> ValidCatalogueRoot(v) && EncodeCatalogueRoot(v) == data
  {
    hide ParseCatalogueRoot, EncodeCatalogueRoot, ValidCatalogueRoot;
    CatalogueRootExact(data, v);
    CatalogueRootExact(EncodeCatalogueRoot(v), v);
    if ParseCatalogueRoot(data).Accepted? { CatalogueRootExact(data, ParseCatalogueRoot(data).value); }
  }

  function DecodePlacementEntry(data: seq<byte>): Result<PlacementEntry> {
    var v :- ParsePlacementEntry(data);
    var _ :- Check(EncodePlacementEntry(v) == data);
    Accepted(v)
  }

  lemma PlacementEntryRoundTrip(data: seq<byte>, v: PlacementEntry)
    ensures DecodePlacementEntry(data) == ParsePlacementEntry(data)
    ensures ValidPlacementEntry(v) ==> DecodePlacementEntry(EncodePlacementEntry(v)) == Accepted(v)
    ensures DecodePlacementEntry(data) == Accepted(v) ==> ValidPlacementEntry(v) && EncodePlacementEntry(v) == data
  {
    hide ParsePlacementEntry, EncodePlacementEntry, ValidPlacementEntry;
    PlacementEntryExact(data, v);
    PlacementEntryExact(EncodePlacementEntry(v), v);
    if ParsePlacementEntry(data).Accepted? { PlacementEntryExact(data, ParsePlacementEntry(data).value); }
  }

  function DecodeProfile(data: seq<byte>): Result<Profile> {
    var v :- ParseProfile(data);
    var _ :- Check(EncodeProfile(v) == data);
    Accepted(v)
  }

  lemma ProfileRoundTrip(data: seq<byte>, v: Profile)
    ensures DecodeProfile(data) == ParseProfile(data)
    ensures ValidProfile(v) ==> DecodeProfile(EncodeProfile(v)) == Accepted(v)
    ensures DecodeProfile(data) == Accepted(v) ==> ValidProfile(v) && EncodeProfile(v) == data
  {
    hide ParseProfile, EncodeProfile, ValidProfile;
    ProfileExact(data, v);
    ProfileExact(EncodeProfile(v), v);
    if ParseProfile(data).Accepted? { ProfileExact(data, ParseProfile(data).value); }
  }

  function DecodeRepresentation(data: seq<byte>): Result<Representation> {
    var v :- ParseRepresentation(data);
    var _ :- Check(EncodeRepresentation(v) == data);
    Accepted(v)
  }

  lemma RepresentationRoundTrip(data: seq<byte>, v: Representation)
    ensures DecodeRepresentation(data) == ParseRepresentation(data)
    ensures ValidRepresentation(v) ==> DecodeRepresentation(EncodeRepresentation(v)) == Accepted(v)
    ensures DecodeRepresentation(data) == Accepted(v) ==> ValidRepresentation(v) && EncodeRepresentation(v) == data
  {
    hide ParseRepresentation, EncodeRepresentation, ValidRepresentation;
    RepresentationExact(data, v);
    RepresentationExact(EncodeRepresentation(v), v);
    if ParseRepresentation(data).Accepted? { RepresentationExact(data, ParseRepresentation(data).value); }
  }

  function DecodeMapNode(data: seq<byte>): Result<MapNode> {
    var v :- ParseMapNode(data);
    var _ :- Check(EncodeMapNode(v) == data);
    Accepted(v)
  }

  lemma MapNodeRoundTrip(data: seq<byte>, v: MapNode)
    ensures DecodeMapNode(data) == ParseMapNode(data)
    ensures ValidNode(v) ==> DecodeMapNode(EncodeMapNode(v)) == Accepted(v)
    ensures DecodeMapNode(data) == Accepted(v) ==> ValidNode(v) && EncodeMapNode(v) == data
  {
    hide ParseMapNode, EncodeMapNode, ValidNode;
    MapNodeExact(data, v);
    MapNodeExact(EncodeMapNode(v), v);
    if ParseMapNode(data).Accepted? { MapNodeExact(data, ParseMapNode(data).value); }
  }
}
