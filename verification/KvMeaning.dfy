/**
 * What the parts the key-value decoders share mean, said without them: composite keys, the one reference of a name,
 * accounting sums, spilled and chunked values, page and payload sizes.
 */
module KvMeaning {
  import opened Bytes
  import opened Outcomes
  import opened Objects
  import opened FastCdc
  import opened ContentTree
  import opened ContentIdentity
  import opened FileIdentity
  import opened Marks
  import opened KvValues
  import opened KvTree
  import opened KvDelta
  import opened KvLegacy

  // ---------------------------------------------------------------- composite keys

  lemma {:induction false} ZerosAppend(a: Key, b: Key)
    ensures CountZeros(a + b) == CountZeros(a) + CountZeros(b)
  {
    if a == [] {
      assert a + b == b;
    } else {
      assert (a + b)[1..] == a[1..] + b;
      ZerosAppend(a[1..], b);
    }
  }

  lemma {:induction false} NoZeros(key: Key)
    ensures CountZeros(key) == 0 <==> 0 !in key
  {
    if key != [] {
      NoZeros(key[1..]);
      assert key == [key[0]] + key[1..];
    }
  }

  lemma {:induction false} UpToZero(key: Key)
    ensures var n := |BeforeZero(key)|;
            BeforeZero(key) == key[..n] && 0 !in key[..n] && (n < |key| ==> key[n] == 0)
  {
    if key != [] && key[0] != 0 {
      UpToZero(key[1..]);
      var n := |BeforeZero(key[1..])|;
      assert key[..n + 1] == [key[0]] + key[1..][..n];
    }
  }

  /** A namespace and a name around the only zero byte. */
  ghost predicate IsComposite(reader: Reader, key: Key, namespace: Key, name: Key) {
    && key == namespace + [0] + name && 0 !in namespace && 0 !in name
    && namespace != [] && name != [] && reader.utf8(namespace) && reader.utf8(name)
  }

  lemma CompositeKeyIs(reader: Reader, key: Key)
    ensures CompositeKey(reader, key) <==> exists namespace, name :: IsComposite(reader, key, namespace, name)
  {
    hide CountZeros, BeforeZero;
    UpToZero(key);
    NoZeros(key);
    if CompositeKey(reader, key) {
      var n := |BeforeZero(key)|;
      assert key[..|key|] == key;
      var namespace, name := key[..n], key[n + 1..];
      assert key == namespace + [0] + name;
      SplitsAtZero(namespace, name);
      assert IsComposite(reader, key, namespace, name);
    }
    if namespace, name :| IsComposite(reader, key, namespace, name) {
      SplitsAtZero(namespace, name);
      ZeroPlace(key, namespace, name);
    }
  }

  lemma SplitsAtZero(namespace: Key, name: Key)
    ensures CountZeros(namespace + [0] + name) == 1 + CountZeros(namespace) + CountZeros(name)
    ensures CountZeros(namespace) == 0 <==> 0 !in namespace
    ensures CountZeros(name) == 0 <==> 0 !in name
  {
    ZerosAppend(namespace + [0], name);
    ZerosAppend(namespace, [0]);
    assert CountZeros([0]) == 1;
    NoZeros(namespace);
    NoZeros(name);
  }

  lemma ZeroPlace(key: Key, namespace: Key, name: Key)
    requires key == namespace + [0] + name && 0 !in namespace
    ensures BeforeZero(key) == namespace && |namespace| < |key| && key[|namespace| + 1..] == name
  {
    hide BeforeZero;
    UpToZero(key);
    var n := |BeforeZero(key)|;
    assert key[|namespace|] == 0;
    forall i | 0 <= i < |namespace| ensures key[i] != 0 { assert namespace[i] in namespace; }
    forall i | 0 <= i < n ensures key[i] != 0 { assert key[..n][i] in key[..n]; }
    assert n == |namespace| && key[..|namespace|] == namespace;
  }

  // ---------------------------------------------------------------- references by name

  /** The target of the only reference with this name, which has the given kind, or no such reference at all. */
  ghost predicate Refers(references: seq<Reference>, name: seq<byte>, kind: nat, target: Option<ObjectId>) {
    match target
    case None => forall i :: 0 <= i < |references| ==> references[i].name != name
    case Some(t) => exists i :: IsOnly(references, name, kind, t, i)
  }

  ghost predicate IsOnly(references: seq<Reference>, name: seq<byte>, kind: nat, t: ObjectId, i: int) {
    && 0 <= i < |references| && references[i] == Reference(name, t, kind)
    && forall j :: 0 <= j < |references| && j != i ==> references[j].name != name
  }

  lemma {:induction false} NamedNone(references: seq<Reference>, name: seq<byte>)
    ensures Named(references, name) == [] <==> Refers(references, name, 0, None)
  {
    if references != [] {
      NamedNone(references[1..], name);
      assert forall i :: 1 <= i < |references| ==> references[i] == references[1..][i - 1];
    }
  }

  lemma {:induction false} NamedOne(references: seq<Reference>, name: seq<byte>, kind: nat, t: ObjectId)
    ensures Named(references, name) == [Reference(name, t, kind)] <==> Refers(references, name, kind, Some(t))
  {
    if references != [] {
      var rest := references[1..];
      assert forall i :: 1 <= i < |references| ==> references[i] == rest[i - 1];
      NamedNone(rest, name);
      NamedOne(rest, name, kind, t);
      hide Named;
      NamedStep(references, name, Reference(name, t, kind));
      if references[0].name == name {
        if Named(references, name) == [Reference(name, t, kind)] { assert IsOnly(references, name, kind, t, 0); }
      } else {
        if Refers(rest, name, kind, Some(t)) {
          var i :| IsOnly(rest, name, kind, t, i);
          assert IsOnly(references, name, kind, t, i + 1);
        }
        if Refers(references, name, kind, Some(t)) {
          var i :| IsOnly(references, name, kind, t, i);
          assert IsOnly(rest, name, kind, t, i - 1);
        }
      }
    }
  }

  lemma NamedStep(references: seq<Reference>, name: seq<byte>, only: Reference)
    requires references != []
    ensures references[0].name != name ==> Named(references, name) == Named(references[1..], name)
    ensures references[0].name == name ==>
              (Named(references, name) == [only] <==> references[0] == only && Named(references[1..], name) == [])
  {
    var rest := Named(references[1..], name);
    if references[0].name == name {
      var all := [references[0]] + rest;
      assert all[0] == references[0] && all[1..] == rest;
      if rest == [] { assert all == [references[0]]; }
    }
  }

  lemma {:induction false} NamedHaveName(references: seq<Reference>, name: seq<byte>, i: nat)
    requires i < |Named(references, name)|
    ensures Named(references, name)[i].name == name
  {
    if references[0].name != name { NamedHaveName(references[1..], name, i); }
    else if i > 0 { NamedHaveName(references[1..], name, i - 1); }
  }

  /** The lookup finds exactly the one reference of that name and kind. */
  lemma ExactReferenceIs(r: Record, name: seq<byte>, kind: nat, required: bool, target: Option<ObjectId>)
    ensures ExactReference(r, name, kind, required) == Accepted(target) <==>
            Refers(r.references, name, kind, target) && (required ==> target.Some?)
  {
    hide Named, Refers;
    var found := Named(r.references, name);
    if found != [] { NamedHaveName(r.references, name, 0); }
    match target
    case None =>
      NamedNone(r.references, name);
      AnyKind(r.references, name, kind);
    case Some(t) =>
      NamedOne(r.references, name, kind, t);
      if |found| == 1 { assert found == [found[0]]; }
  }

  lemma AnyKind(references: seq<Reference>, name: seq<byte>, kind: nat)
    ensures Refers(references, name, kind, None) <==> Refers(references, name, 0, None)
  {}

  // ---------------------------------------------------------------- accounting

  function KeysOf(entries: Entries): seq<seq<byte>> {
    seq(|entries|, i requires 0 <= i < |entries| => entries[i].key)
  }

  function ValuesOf(entries: Entries): seq<seq<byte>> {
    seq(|entries|, i requires 0 <= i < |entries| => entries[i].value)
  }

  /** Totals count the entries, the bytes of all values, and the bytes of all keys and values. */
  lemma {:induction false} SumsAre(entries: Entries)
    ensures Sums(entries) == Totals(|entries|, |Concat(ValuesOf(entries))|,
                                    |Concat(KeysOf(entries))| + |Concat(ValuesOf(entries))|)
  {
    if entries != [] {
      SumsAre(entries[1..]);
      assert KeysOf(entries)[1..] == KeysOf(entries[1..]) && ValuesOf(entries)[1..] == ValuesOf(entries[1..]);
    }
  }

  /** A mutation as an entry: a removal carries no value. */
  function Carried(mutations: seq<Mutation>): Entries {
    seq(|mutations|, i requires 0 <= i < |mutations| =>
      Entry(mutations[i].key, if mutations[i].value.None? then [] else mutations[i].value.value))
  }

  /** A delta's payload is what its keys and values would count against a quota. */
  lemma {:induction false} PayloadIs(mutations: seq<Mutation>)
    ensures PayloadBytes(mutations) == Sums(Carried(mutations)).quota
  {
    if mutations == [] {
      assert Carried(mutations) == [];
    } else {
      var n := |mutations| - 1;
      PayloadIs(mutations[..n]);
      var last := Carried(mutations)[n];
      assert Carried(mutations) == Carried(mutations[..n]) + [last];
      BytesAppend(Carried(mutations[..n]), [last]);
      assert QuotaBytes([last]) == |last.key| + |last.value| + QuotaBytes([]) by { assert [last][1..] == []; }
    }
  }

  // ---------------------------------------------------------------- sizes

  lemma {:induction false} LabelsAre(references: seq<Reference>)
    requires forall i :: 0 <= i < |references| ==> |references[i].target.digest| == 32
    ensures |ReferenceMaterial(references)| == LabelBytes(references) + 8 * |references|
  {
    if references != [] { LabelsAre(references[1..]); }
  }

  /** A page's retained size is that of its hashed bytes with every length eight bytes shorter. */
  lemma RetainedIs(r: Record)
    requires forall i :: 0 <= i < |r.references| ==> |r.references[i].target.digest| == 32
    ensures |Material(r)| == RetainedBytes(r) + 8 * (2 + |r.references|)
  {
    hide LeBytes;
    LabelsAre(r.references);
  }

  /** A page may pass 4096 bytes of that size only if it has too few slots to be split. */
  lemma PageSizeIs(r: Record, slots: nat, unsplittable: nat)
    requires forall i :: 0 <= i < |r.references| ==> |r.references[i].target.digest| == 32
    ensures PageFits(r, slots, unsplittable) <==>
            |Material(r)| <= 4096 + 8 * (2 + |r.references|) || slots <= unsplittable
  {
    hide Material, RetainedBytes;
    RetainedIs(r);
  }

  // ---------------------------------------------------------------- values

  /** The record of a value that is kept in one object. */
  ghost predicate IsPlain(r: Record, v: Value, version: nat) {
    r == Record(5, version, 0, 0, v, []) && (version == 4 ==> |v| > INLINE_MAX)
  }

  /** The record of a value that is kept as a File: its length, and the File built from its bytes. */
  ghost predicate IsChunked(h: Hash, reader: Reader, r: Record, v: Value, file: ObjectId) {
    && r == Record(5, 5, 0, 0, LeBytes(|v|, 8), [Reference(CONTENT_LABEL, file, 0)])
    && |v| > ASTRID_V1.maximum && file in reader.objects
    && HoldsFile(h, reader.gear, reader.objects, reader.objects[file], ASTRID_V1, v)
  }

  lemma ContentReference(r: Record, file: ObjectId)
    requires |r.references| == 1
    ensures ExactReference(r, CONTENT_LABEL, 0, true) == Accepted(Some(file)) <==>
            r.references == [Reference(CONTENT_LABEL, file, 0)]
  {
    hide ExactReference;
    ExactReferenceIs(r, CONTENT_LABEL, 0, true, Some(file));
    if r.references == [Reference(CONTENT_LABEL, file, 0)] { assert IsOnly(r.references, CONTENT_LABEL, 0, file, 0); }
  }

  lemma ChunkedIs(h: Hash, reader: Reader, r: Record, v: Value)
    requires Verified(h, reader.objects) && |v| <= U64_MAX && r.kind == 5 && r.version == 5
    ensures var file := ChunkedFile(reader, r, |v|);
            file.Accepted? && FileBytes(reader.objects, file.value) == v <==>
            exists id :: IsChunked(h, reader, r, v, id)
  {
    hide LeBytes, Verified, FileAccepted, DecodeFile, HoldsFile, FileBytes, ExactReference;
    var chunked := ChunkedFile(reader, r, |v|);
    if chunked.Accepted? && FileBytes(reader.objects, chunked.value) == v {
      var id := ExactReference(r, CONTENT_LABEL, 0, true).value.value;
      ContentReference(r, id);
      AcceptedIffBuilt(h, reader.gear, reader.objects, reader.objects[id], ASTRID_V1, v);
      assert IsChunked(h, reader, r, v, id);
    }
    if id :| IsChunked(h, reader, r, v, id) {
      ContentReference(r, id);
      AcceptedIffBuilt(h, reader.gear, reader.objects, reader.objects[id], ASTRID_V1, v);
      FileSize(reader.gear, reader.objects, reader.objects[id]);
    }
  }

  lemma FileSize(g: GearTable, objects: Store, r: Record)
    requires FileAccepted(g, objects, r)
    ensures DecodeFile(r).Accepted? && DecodeFile(r).value.logicalBytes == |FileBytes(objects, r)|
  {
    hide Cut, AllBoundaries, ShapeOk, PowerOfTwo, TreeDepthFrom, Leaves, ValidProfile, FinalChunkOk;
    var f := DecodeFile(r).value;
    if f.content.Some? { ShapeTotals(objects, f.content.value, FileShape(f)); }
  }

  /** A value is read exactly when the store keeps it in one object or, in format 4, as the File of its bytes. */
  lemma ValueIs(h: Hash, reader: Reader, id: ObjectId, version: nat, v: Value)
    requires Verified(h, reader.objects) && |v| <= U64_MAX
    ensures ValueOf(reader, id, |v|, version) == Accepted(v) <==>
            id in reader.objects &&
            var r := reader.objects[id];
            IsPlain(r, v, version) || (version == 4 && exists file :: IsChunked(h, reader, r, v, file))
  {
    hide ChunkedFile, IsChunked, Verified, FileBytes;
    if id in reader.objects {
      var r := reader.objects[id];
      if r.kind == 5 && r.version == 5 { ChunkedIs(h, reader, r, v); } else { NotChunked(h, reader, r, v); }
    }
  }

  lemma NotChunked(h: Hash, reader: Reader, r: Record, v: Value)
    requires r.kind != 5 || r.version != 5
    ensures forall file :: !IsChunked(h, reader, r, v, file)
  {}

  // ---------------------------------------------------------------- references of a delta

  /** The names of the references a delta's mutations use. */
  function SpillLabels(mutations: seq<Mutation>): seq<seq<byte>> {
    if mutations == [] then []
    else
      var n := |mutations| - 1;
      SpillLabels(mutations[..n])
      + (if mutations[n].value.Some? && |mutations[n].value.value| > INLINE_MAX then [MutationLabel(n)] else [])
  }

  lemma {:induction false} SpillLabelAt(mutations: seq<Mutation>, i: nat) returns (n: nat)
    requires i < |SpillLabels(mutations)|
    ensures n < |mutations| && SpillLabels(mutations)[i] == MutationLabel(n)
    ensures mutations[n].value.Some? && |mutations[n].value.value| > INLINE_MAX
    decreases |mutations|
  {
    hide MutationLabel;
    n := |mutations| - 1;
    if i < |SpillLabels(mutations[..n])| { n := SpillLabelAt(mutations[..n], i); }
  }

  ghost predicate AllDiffer(names: seq<seq<byte>>) {
    forall i, j :: 0 <= i < j < |names| ==> names[i] != names[j]
  }

  lemma {:induction false} SpillLabelsDistinct(mutations: seq<Mutation>)
    requires |mutations| < 0x1_0000_0000
    ensures |SpillLabels(mutations)| == SpilledCount(mutations)
    ensures AllDiffer(SpillLabels(mutations))
    decreases |mutations|
  {
    hide MutationLabel;
    if mutations != [] {
      var n := |mutations| - 1;
      SpillLabelsDistinct(mutations[..n]);
      var labels, before := SpillLabels(mutations), SpillLabels(mutations[..n]);
      forall i, j | 0 <= i < j < |labels| ensures labels[i] != labels[j] {
        if j == |before| {
          var m := SpillLabelAt(mutations[..n], i);
          LabelsDiffer(m, n);
        }
      }
    }
  }

  lemma LabelsDiffer(m: nat, n: nat)
    requires m != n && m < 0x1_0000_0000 && n < 0x1_0000_0000
    ensures MutationLabel(m) != MutationLabel(n)
  {
    hide BeBytes;
    RadixWidths();
    assert MutationLabel(m)[6..] == BeBytes(m, 4) && MutationLabel(n)[6..] == BeBytes(n, 4);
    if BeBytes(m, 4) == BeBytes(n, 4) { BeBytesInjective(m, n, 4); }
  }

  /** As many different names as references, each of them used, leave no other name. */
  lemma NamesUsed(references: seq<Reference>, names: seq<seq<byte>>, j: nat)
    requires |names| == |references| && AllDiffer(names) && j < |references|
    requires forall i :: 0 <= i < |names| ==> Occurs(references, names[i])
    ensures references[j].name in names
  {
    var all := set k | 0 <= k < |references| :: references[k].name;
    var mine := set k | 0 <= k < |names| :: names[k];
    NamesCount(names, mine);
    AtMost(references, |references|, all);
    forall name | name in mine ensures name in all {
      var k :| 0 <= k < |names| && names[k] == name;
      assert Occurs(references, names[k]);
    }
    if references[j].name !in mine { SmallerSet(mine, all, references[j].name); }
  }

  ghost predicate Occurs(references: seq<Reference>, name: seq<byte>) {
    exists k :: 0 <= k < |references| && references[k].name == name
  }

  lemma SmallerSet(a: set<seq<byte>>, b: set<seq<byte>>, x: seq<byte>)
    requires a <= b && x in b && x !in a
    ensures |a| < |b|
  {
    assert a <= b - {x};
    SubsetSize(a, b - {x});
  }

  lemma {:induction false} NamesCount(names: seq<seq<byte>>, all: set<seq<byte>>)
    requires AllDiffer(names) && all == set k | 0 <= k < |names| :: names[k]
    ensures |all| == |names|
    decreases |names|
  {
    if names != [] {
      var n := |names| - 1;
      var rest := set k | 0 <= k < n :: names[..n][k];
      NamesCount(names[..n], rest);
      assert all == rest + {names[n]};
    }
  }

  lemma {:induction false} AtMost(references: seq<Reference>, n: nat, all: set<seq<byte>>)
    requires n <= |references| && all == set k | 0 <= k < n :: references[k].name
    ensures |all| <= n
    decreases n
  {
    if n > 0 {
      var rest := set k | 0 <= k < n - 1 :: references[k].name;
      AtMost(references, n - 1, rest);
      assert all == rest + {references[n - 1].name};
    }
  }

  lemma {:induction false} OperationOf(reader: Reader, r: Record, mutations: seq<Mutation>, index: nat, offset: nat,
                                       n: nat)
    requires MutationsHold(reader, r, mutations, index, offset) && n < |mutations|
    ensures OperationHolds(reader, r, mutations[n].value, index + n)
    decreases n
  {
    hide OperationHolds, CompositeKey, MutationBytes, OccursAt;
    if n > 0 {
      OperationOf(reader, r, mutations[1..], index + 1, offset + |MutationBytes(mutations[0])|, n - 1);
    }
  }

  lemma FoundOccurs(r: Record, name: seq<byte>, required: bool)
    requires ExactReference(r, name, 0, required).Accepted? && ExactReference(r, name, 0, required).value.Some?
    ensures Occurs(r.references, name)
  {
    hide ExactReference;
    var t := ExactReference(r, name, 0, required).value.value;
    ExactReferenceIs(r, name, 0, required, Some(t));
    var i :| IsOnly(r.references, name, 0, t, i);
  }

  /** A delta carries no reference but the one to its predecessor and those of its spilled values. */
  lemma DeltaReferencesUsed(reader: Reader, r: Record, d: Delta, j: nat)
    requires DeltaHolds(reader, r, d) && j < |r.references|
    ensures r.references[j].name in SpillLabels(d.mutations)
            || (r.references[j].name == PREVIOUS_LABEL && d.previous.Some?)
  {
    hide MutationsHold, Sorted, ExactReference, OccursAt, DeltaHeader, PayloadBytes, MutationLabel;
    SpillLabelsDistinct(d.mutations);
    var spilled := SpillLabels(d.mutations);
    var names := (if d.previous.Some? then [PREVIOUS_LABEL] else []) + spilled;
    forall i | 0 <= i < |names| ensures Occurs(r.references, names[i]) {
      if d.previous.Some? && i == 0 {
        FoundOccurs(r, PREVIOUS_LABEL, false);
      } else {
        var n := SpillLabelAt(d.mutations, i - (if d.previous.Some? then 1 else 0));
        OperationOf(reader, r, d.mutations, 0, DELTA_HEADER_SIZE, n);
        FoundOccurs(r, MutationLabel(n), true);
      }
    }
    forall i, k | 0 <= i < k < |names| ensures names[i] != names[k] {
      if d.previous.Some? && i == 0 {
        var n := SpillLabelAt(d.mutations, k - 1);
        LabelSize(n);
      }
    }
    NamesUsed(r.references, names, j);
  }

  lemma LabelSize(n: nat)
    ensures |MutationLabel(n)| == 10 && |PREVIOUS_LABEL| == 8
  {}

  // ---------------------------------------------------------------- legacy nodes

  /** The object is the legacy node with these fields, its value and its children, and has no other reference. */
  ghost predicate NodeHolds(reader: Reader, id: ObjectId, info: NodeInfo, value: ObjectId) {
    id in reader.objects &&
    var r := reader.objects[id];
    && r.kind == 6 && r.version == 3 && r.objectClass == 1 && r.logicalBytes == 0
    && info.height < 0x1_0000_0000 && info.logical <= U64_MAX && info.quota <= U64_MAX && |info.value| <= U64_MAX
    && r.canonical == NodeBytes(info) && CompositeKey(reader, info.key)
    && Refers(r.references, Ascii("value"), 0, Some(value))
    && ValueOf(reader, value, |info.value|, 3) == Accepted(info.value)
    && Refers(r.references, Ascii("left"), 0, info.left) && Refers(r.references, Ascii("right"), 0, info.right)
    && |r.references| == 1 + (if info.left.Some? then 1 else 0) + (if info.right.Some? then 1 else 0)
  }

  lemma NodeReads(info: NodeInfo)
    requires info.height < 0x1_0000_0000 && info.logical <= U64_MAX && info.quota <= U64_MAX && |info.value| <= U64_MAX
    ensures var c := NodeBytes(info);
            && |c| >= 28 && Le(c[0..4]) == info.height && Le(c[4..12]) == info.logical && Le(c[12..20]) == info.quota
            && Le(c[20..28]) == |info.value| && c[28..] == info.key
  {
    hide Le, LeBytes, Radix;
    RadixWidths();
    LeRoundTrip(info.height, 4);
    LeRoundTrip(info.logical, 8);
    LeRoundTrip(info.quota, 8);
    LeRoundTrip(|info.value|, 8);
    var c := NodeBytes(info);
    assert c[0..4] == LeBytes(info.height, 4) && c[4..12] == LeBytes(info.logical, 8);
    assert c[12..20] == LeBytes(info.quota, 8) && c[20..28] == LeBytes(|info.value|, 8);
  }

  lemma NodeFields(c: seq<byte>)
    requires |c| >= 28
    ensures Le(c[0..4]) < 0x1_0000_0000 && Le(c[4..12]) <= U64_MAX && Le(c[12..20]) <= U64_MAX
    ensures Le(c[20..28]) <= U64_MAX
  {
    RadixWidths();
    LeBound(c[0..4]);
    LeBound(c[4..12]);
    LeBound(c[12..20]);
    LeBound(c[20..28]);
  }

  /** A legacy node is read exactly when the object is that node. */
  lemma NodeIs(reader: Reader, id: ObjectId, info: NodeInfo)
    ensures ReadNode(reader, id) == Accepted(info) <==> exists value :: NodeHolds(reader, id, info, value)
  {
    hide CompositeKey, ExactReference, ValueOf, LeBytes, Le, Refers, NodeBytes;
    if id in reader.objects {
      var r := reader.objects[id];
      ExactReferenceIs(r, Ascii("left"), 0, false, info.left);
      ExactReferenceIs(r, Ascii("right"), 0, false, info.right);
      if ReadNode(reader, id) == Accepted(info) {
        NodeIsCanonical(reader, id);
        NodeFields(r.canonical);
        var value := ExactReference(r, Ascii("value"), 0, true).value.value;
        ExactReferenceIs(r, Ascii("value"), 0, true, Some(value));
        assert NodeHolds(reader, id, info, value);
      }
      if value :| NodeHolds(reader, id, info, value) {
        NodeReads(info);
        ExactReferenceIs(r, Ascii("value"), 0, true, Some(value));
      }
    }
  }
}
