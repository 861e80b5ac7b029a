/**
 * The converse of content identity: the reader accepts what the canonical builder makes, exactly
 * when the 64-bit bound it puts on a full subtree is not exceeded.
 */
module ContentCompleteness {
  import opened Bytes
  import opened Bits
  import opened Outcomes
  import opened Objects
  import opened FastCdc
  import opened ContentTree
  import opened ContentIdentity

  /** The store holds the built subtree over `chunks`. */
  ghost predicate Holds(h: Hash, objects: Store, chunks: seq<seq<byte>>, depth: nat)
    decreases depth, 0
  {
    var r := NodeRecord(h, chunks, depth);
    IdOf(h, r) in objects && objects[IdOf(h, r)] == r
    && (depth > 0 ==> HoldsGroups(h, objects, chunks, depth - 1))
  }

  ghost predicate HoldsGroups(h: Hash, objects: Store, chunks: seq<seq<byte>>, depth: nat)
    decreases depth, 1 + |chunks|
  {
    var capacity := Capacity(depth);
    if |chunks| <= capacity then Holds(h, objects, chunks, depth)
    else Holds(h, objects, chunks[..capacity], depth) && HoldsGroups(h, objects, chunks[capacity..], depth)
  }

  /** Chunk sizes a chunker can produce: only the last chunk of a file may be short. */
  ghost predicate Sized(p: Profile, chunks: seq<seq<byte>>, endsFile: bool) {
    forall i :: 0 <= i < |chunks| ==>
      && |chunks[i]| <= p.maximum
      && (if endsFile && i + 1 == |chunks| then 1 else ScanStart(p)) <= |chunks[i]|
  }

  lemma Distribute(n: nat, x: nat)
    ensures (n + 1) * x == n * x + x
  {}

  lemma SizedRest(p: Profile, chunks: seq<seq<byte>>, endsFile: bool)
    requires Sized(p, chunks, endsFile) && |chunks| > 1
    ensures Sized(p, chunks[1..], endsFile) && ScanStart(p) <= |chunks[0]| <= p.maximum
    ensures |Concat(chunks)| == |chunks[0]| + |Concat(chunks[1..])|
  {
    var rest := chunks[1..];
    assert forall i :: 0 <= i < |rest| ==> rest[i] == chunks[i + 1];
  }

  lemma SizedOne(p: Profile, chunks: seq<seq<byte>>, endsFile: bool)
    requires Sized(p, chunks, endsFile) && |chunks| == 1
    ensures |Concat(chunks)| == |chunks[0]| && (if endsFile then 1 else ScanStart(p)) <= |chunks[0]| <= p.maximum
  {
    assert Concat(chunks) == chunks[0] + Concat([]) == chunks[0];
  }

  lemma {:induction false} SizedUpper(p: Profile, chunks: seq<seq<byte>>, endsFile: bool)
    requires Sized(p, chunks, endsFile) && chunks != []
    ensures |Concat(chunks)| <= |chunks| * p.maximum
  {
    hide Sized, Concat, ScanStart;
    if |chunks| == 1 { SizedOne(p, chunks, endsFile); } else {
      SizedRest(p, chunks, endsFile);
      SizedUpper(p, chunks[1..], endsFile);
      Distribute(|chunks| - 1, p.maximum);
    }
  }

  lemma {:induction false} SizedLower(p: Profile, chunks: seq<seq<byte>>, endsFile: bool, full: nat)
    requires Sized(p, chunks, endsFile) && chunks != [] && full == if endsFile then |chunks| - 1 else |chunks|
    ensures full * ScanStart(p) + (if endsFile then 1 else 0) <= |Concat(chunks)|
  {
    hide Sized, Concat, ScanStart;
    if |chunks| == 1 { SizedOne(p, chunks, endsFile); } else {
      SizedRest(p, chunks, endsFile);
      SizedLower(p, chunks[1..], endsFile, full - 1);
      Distribute(full - 1, ScanStart(p));
    }
  }

  /** Sized chunks hold between the minimum and the maximum each, save for a short last chunk. */
  lemma SizedTotals(p: Profile, chunks: seq<seq<byte>>, endsFile: bool)
    requires Sized(p, chunks, endsFile) && chunks != []
    ensures |Concat(chunks)| <= |chunks| * p.maximum
    ensures (if endsFile then |chunks| - 1 else |chunks|) * ScanStart(p) + (if endsFile then 1 else 0)
            <= |Concat(chunks)|
  {
    hide Sized, Concat, ScanStart;
    SizedUpper(p, chunks, endsFile);
    SizedLower(p, chunks, endsFile, if endsFile then |chunks| - 1 else |chunks|);
  }

  lemma SizedBounds(p: Profile, chunks: seq<seq<byte>>, endsFile: bool, limit: nat)
    requires Sized(p, chunks, endsFile) && ValidProfile(p) && 0 < |chunks| <= limit
    requires limit * p.maximum <= U64_MAX
    ensures ProfileBounds(|Concat(chunks)|, |chunks|, p, endsFile)
  {
    hide PowerOfTwo, Sized, Concat, ScanStart;
    SizedTotals(p, chunks, endsFile);
    MulMonotone(|chunks|, limit, p.maximum);
  }

  lemma MulMonotone(a: nat, b: nat, c: nat)
    requires a <= b
    ensures a * c <= b * c
  {}

  lemma {:induction false} ReferenceCount(h: Hash, chunks: seq<seq<byte>>, depth: nat, index: nat, limit: nat)
    requires limit > 0 && |chunks| <= limit * Capacity(depth)
    ensures 1 <= |NodeReferences(h, chunks, depth, index)| <= limit
    decreases limit
  {
    hide NodeRecord, Material;
    if |chunks| > Capacity(depth) {
      assert limit * Capacity(depth) == (limit - 1) * Capacity(depth) + Capacity(depth);
      ReferenceCount(h, chunks[Capacity(depth)..], depth, index + 1, limit - 1);
    }
  }

  lemma {:induction false} TableLength(h: Hash, chunks: seq<seq<byte>>, depth: nat, index: nat)
    ensures |NodeTable(chunks, Capacity(depth))| == 16 * |NodeReferences(h, chunks, depth, index)|
    decreases |chunks|
  {
    hide NodeRecord, Material, TableEntry;
    if |chunks| > Capacity(depth) {
      TableLength(h, chunks[Capacity(depth)..], depth, index + 1);
    }
  }

  /** Fixed-width fields written at an offset are read back from it. */
  lemma EntryReads(c: seq<byte>, i: nat, chunks: seq<seq<byte>>)
    requires 18 + 16 * i + 16 <= |c| && c[18 + 16 * i..18 + 16 * i + 16] == TableEntry(chunks)
    requires |Concat(chunks)| <= U64_MAX && |chunks| <= U64_MAX
    ensures ChildBytes(c, i) == |Concat(chunks)| && ChildChunks(c, i) == |chunks|
  {
    hide Le, LeBytes, Concat;
    var at := 18 + 16 * i;
    RadixWidths();
    LeRoundTrip(|Concat(chunks)|, 8);
    LeRoundTrip(|chunks|, 8);
    assert c[at..at + 8] == c[at..at + 16][..8] == LeBytes(|Concat(chunks)|, 8);
    assert c[at + 8..at + 16] == c[at..at + 16][8..] == LeBytes(|chunks|, 8);
  }

  /** The part of a built node from reference i on, over the chunks that part covers. */
  ghost predicate BuiltAt(h: Hash, objects: Store, r: Record, shape: Shape, chunks: seq<seq<byte>>, i: nat) {
    && shape.depth > 0 && i < |r.references| && |r.canonical| == 18 + |r.references| * 16
    && r.references[i..] == NodeReferences(h, chunks, shape.depth - 1, i)
    && r.canonical[18 + 16 * i..] == NodeTable(chunks, Capacity(shape.depth - 1))
    && chunks != [] && |Concat(chunks)| <= U64_MAX && |chunks| <= U64_MAX
    && ValidProfile(shape.profile) && Sized(shape.profile, chunks, shape.endsFile)
    && HoldsGroups(h, objects, chunks, shape.depth - 1)
    && Capacity(shape.depth - 1) * shape.profile.maximum <= U64_MAX
  }

  function Group(chunks: seq<seq<byte>>, capacity: nat): seq<seq<byte>> {
    if |chunks| <= capacity then chunks else chunks[..capacity]
  }

  lemma GroupSplit(p: Profile, chunks: seq<seq<byte>>, capacity: nat, endsFile: bool)
    requires chunks != [] && capacity > 0 && Sized(p, chunks, endsFile)
    ensures Sized(p, Group(chunks, capacity), endsFile && |chunks| <= capacity)
    ensures |Concat(Group(chunks, capacity))| <= |Concat(chunks)|
    ensures |chunks| > capacity ==>
              Sized(p, chunks[capacity..], endsFile) && chunks == Group(chunks, capacity) + chunks[capacity..]
              && Concat(chunks) == Concat(Group(chunks, capacity)) + Concat(chunks[capacity..])
  {
    if |chunks| > capacity {
      ConcatAppend(chunks[..capacity], chunks[capacity..]);
      assert chunks == chunks[..capacity] + chunks[capacity..];
    }
  }

  /** Stepping over one reference of a built node. */
  lemma BuiltStep(h: Hash, objects: Store, r: Record, shape: Shape, chunks: seq<seq<byte>>, i: nat)
    requires BuiltAt(h, objects, r, shape, chunks, i)
    ensures var capacity := Capacity(shape.depth - 1); var group := Group(chunks, capacity);
            && ChildBytes(r.canonical, i) == |Concat(group)| && ChildChunks(r.canonical, i) == |group|
            && r.references[i] == Reference(BeBytes(i, 2), IdOf(h, NodeRecord(h, group, shape.depth - 1)), 0)
            && (|chunks| <= capacity <==> i + 1 == |r.references|)
            && (i + 1 < |r.references| ==> BuiltAt(h, objects, r, shape, chunks[capacity..], i + 1))
  {
    hide *;
    BuiltEntry(h, objects, r, shape, chunks, i);
    BuiltRest(h, objects, r, shape, chunks, i);
  }

  /** Reference i and its table entry describe the first group of the chunks left. */
  lemma BuiltEntry(h: Hash, objects: Store, r: Record, shape: Shape, chunks: seq<seq<byte>>, i: nat)
    requires BuiltAt(h, objects, r, shape, chunks, i)
    ensures shape.depth > 0 && i < |r.references| && 18 + 16 * (i + 1) <= |r.canonical|
    ensures var group := Group(chunks, Capacity(shape.depth - 1));
            && ChildBytes(r.canonical, i) == |Concat(group)| && ChildChunks(r.canonical, i) == |group|
            && r.references[i] == Reference(BeBytes(i, 2), IdOf(h, NodeRecord(h, group, shape.depth - 1)), 0)
  {
    hide NodeRecord, Material, TableEntry, Sized, Holds, HoldsGroups, PowerOfTwo, Capacity, BeBytes, Concat;
    var group := Group(chunks, Capacity(shape.depth - 1));
    var table := r.canonical[18 + 16 * i..];
    GroupSplit(shape.profile, chunks, Capacity(shape.depth - 1), shape.endsFile);
    assert r.references[i] == r.references[i..][0];
    assert r.canonical[18 + 16 * i..18 + 16 * i + 16] == table[..16] == TableEntry(group);
    EntryReads(r.canonical, i, group);
  }

  /** Behind reference i the node is built from the chunks behind the first group. */
  lemma BuiltRest(h: Hash, objects: Store, r: Record, shape: Shape, chunks: seq<seq<byte>>, i: nat)
    requires BuiltAt(h, objects, r, shape, chunks, i)
    ensures var capacity := Capacity(shape.depth - 1);
            && (|chunks| <= capacity <==> i + 1 == |r.references|)
            && (i + 1 < |r.references| ==> BuiltAt(h, objects, r, shape, chunks[capacity..], i + 1))
  {
    hide NodeReferences, NodeTable, HoldsGroups, Sized, ValidProfile, Capacity, Concat, Group;
    var capacity := Capacity(shape.depth - 1);
    GroupSplit(shape.profile, chunks, capacity, shape.endsFile);
    GroupsUnfold(h, objects, chunks, shape.depth - 1, i);
    assert |r.references[i..]| == |r.references| - i;
    if |chunks| > capacity {
      assert r.references[i + 1..] == r.references[i..][1..];
      assert r.canonical[18 + 16 * (i + 1)..] == r.canonical[18 + 16 * i..][16..];
    }
  }

  /** References, table and stored groups of the chunks behind the first group. */
  lemma GroupsUnfold(h: Hash, objects: Store, chunks: seq<seq<byte>>, depth: nat, i: nat)
    requires HoldsGroups(h, objects, chunks, depth)
    ensures var capacity := Capacity(depth); var references := NodeReferences(h, chunks, depth, i);
            if |chunks| <= capacity then |references| == 1
            else
              && |references| > 1 && references[1..] == NodeReferences(h, chunks[capacity..], depth, i + 1)
              && |NodeTable(chunks, capacity)| >= 16
              && NodeTable(chunks, capacity)[16..] == NodeTable(chunks[capacity..], capacity)
              && HoldsGroups(h, objects, chunks[capacity..], depth)
  {
    hide NodeRecord, TableEntry, Holds, Capacity, BeBytes, IdOf;
    if |chunks| > Capacity(depth) { NodeHasReferences(h, chunks[Capacity(depth)..], depth, i + 1); }
  }

  lemma NodeHasReferences(h: Hash, chunks: seq<seq<byte>>, depth: nat, i: nat)
    ensures |NodeReferences(h, chunks, depth, i)| > 0
  {
    hide NodeRecord, Capacity, BeBytes, IdOf;
  }

  /** All children of a built node from reference i on are well formed and well shaped. */
  lemma {:induction false} BuiltChildren(h: Hash, objects: Store, r: Record, shape: Shape, chunks: seq<seq<byte>>,
                                         i: nat)
    requires BuiltAt(h, objects, r, shape, chunks, i)
    ensures forall j :: i <= j < |r.references| ==>
              ChildOk(r, shape, j) && ShapeOk(objects, r.references[j].target, ChildShape(r, shape, j))
    ensures SumBytes(r, i) == |Concat(chunks)| && SumChunks(r, i) == |chunks|
    ensures LeavesFrom(objects, r.references, i, shape.depth - 1) == chunks
    decreases shape.depth - 1, 1 + |r.references| - i
  {
    hide *;
    SuffixUnfold(h, objects, r, shape, chunks, i);
    BuiltStep(h, objects, r, shape, chunks, i);
    BuiltChild(h, objects, r, shape, chunks, i);
    if i + 1 < |r.references| {
      BuiltChildren(h, objects, r, shape, chunks[Capacity(shape.depth - 1)..], i + 1);
    }
  }

  /** The sums and leaves from reference i on, split into child i and the rest. */
  lemma SuffixUnfold(h: Hash, objects: Store, r: Record, shape: Shape, chunks: seq<seq<byte>>, i: nat)
    requires BuiltAt(h, objects, r, shape, chunks, i)
    ensures shape.depth > 0 && i < |r.references| && |r.canonical| == 18 + |r.references| * 16
    ensures SumBytes(r, i) == ChildBytes(r.canonical, i) + (if i + 1 < |r.references| then SumBytes(r, i + 1) else 0)
    ensures SumChunks(r, i) == ChildChunks(r.canonical, i) + (if i + 1 < |r.references| then SumChunks(r, i + 1) else 0)
    ensures LeavesFrom(objects, r.references, i, shape.depth - 1) ==
            Leaves(objects, r.references[i].target, shape.depth - 1)
            + (if i + 1 < |r.references| then LeavesFrom(objects, r.references, i + 1, shape.depth - 1) else [])
    ensures var capacity := Capacity(shape.depth - 1); var group := Group(chunks, capacity);
            && (|chunks| <= capacity ==> chunks == group == group + [])
            && (|chunks| > capacity ==> chunks == group + chunks[capacity..])
            && (|chunks| > capacity ==> |Concat(chunks)| == |Concat(group)| + |Concat(chunks[capacity..])|)
  {
    hide NodeReferences, NodeTable, HoldsGroups, PowerOfTwo, Capacity, Leaves, ChildBytes, ChildChunks;
    GroupSplit(shape.profile, chunks, Capacity(shape.depth - 1), shape.endsFile);
    assert SumBytes(r, |r.references|) == 0 && SumChunks(r, |r.references|) == 0;
    assert LeavesFrom(objects, r.references, |r.references|, shape.depth - 1) == [];
  }

  lemma {:induction false} BuiltChild(h: Hash, objects: Store, r: Record, shape: Shape, chunks: seq<seq<byte>>, i: nat)
    requires BuiltAt(h, objects, r, shape, chunks, i)
    ensures ChildOk(r, shape, i) && ShapeOk(objects, r.references[i].target, ChildShape(r, shape, i))
    ensures Leaves(objects, r.references[i].target, shape.depth - 1) == Group(chunks, Capacity(shape.depth - 1))
    decreases shape.depth - 1, 1
  {
    BuiltStep(h, objects, r, shape, chunks, i);
    BuiltGroup(h, objects, r, shape, chunks, i);
    hide NodeRecord, Material, TableEntry, PowerOfTwo, BeBytes, NodeReferences, NodeTable, HoldsGroups, Sized,
         Concat, Leaves, ShapeOk, ProfileBounds, Holds, ChildBytes, ChildChunks, BuiltAt;
    var group := Group(chunks, Capacity(shape.depth - 1));
    BuiltShape(h, objects, shape.profile, group, shape.depth - 1, shape.endsFile && i + 1 == |r.references|);
  }

  lemma BuiltGroup(h: Hash, objects: Store, r: Record, shape: Shape, chunks: seq<seq<byte>>, i: nat)
    requires BuiltAt(h, objects, r, shape, chunks, i)
    requires |chunks| <= Capacity(shape.depth - 1) <==> i + 1 == |r.references|
    ensures var capacity := Capacity(shape.depth - 1); var group := Group(chunks, capacity);
            var ends := shape.endsFile && i + 1 == |r.references|;
            && shape.depth > 0 && i < |r.references| && |r.canonical| == 18 + |r.references| * 16
            && ValidProfile(shape.profile)
            && 0 < |group| <= capacity && |group| <= U64_MAX && 0 < |Concat(group)| <= U64_MAX
            && (i + 1 < |r.references| ==> |group| == capacity)
            && Sized(shape.profile, group, ends) && Holds(h, objects, group, shape.depth - 1)
            && ProfileBounds(|Concat(group)|, |group|, shape.profile, ends)
            && (shape.depth > 1 ==> Capacity(shape.depth - 2) * shape.profile.maximum <= U64_MAX)
  {
    hide NodeRecord, NodeReferences, NodeTable, PowerOfTwo, Holds, Capacity;
    var capacity := Capacity(shape.depth - 1);
    var group := Group(chunks, capacity);
    var ends := shape.endsFile && i + 1 == |r.references|;
    GroupSplit(shape.profile, chunks, capacity, shape.endsFile);
    hide Sized;
    SizedBounds(shape.profile, group, ends, capacity);
    CapacityBound(shape.profile, shape.depth - 1);
    NonEmptyConcat(shape.profile, group, ends);
  }

  lemma NonEmptyConcat(p: Profile, chunks: seq<seq<byte>>, endsFile: bool)
    requires ValidProfile(p) && chunks != [] && Sized(p, chunks, endsFile)
    ensures |Concat(chunks)| > 0
  {
    hide PowerOfTwo;
    ConcatLength(chunks);
  }

  lemma CapacityBound(p: Profile, depth: nat)
    requires Capacity(depth) * p.maximum <= U64_MAX
    ensures depth > 0 ==> Capacity(depth - 1) * p.maximum <= U64_MAX
  {
    if depth > 0 {
      assert Capacity(depth) * p.maximum == FANOUT * (Capacity(depth - 1) * p.maximum);
    }
  }

  lemma BuiltLeaf(h: Hash, objects: Store, p: Profile, chunks: seq<seq<byte>>, endsFile: bool)
    requires ValidProfile(p) && |chunks| == 1 && Sized(p, chunks, endsFile) && Holds(h, objects, chunks, 0)
    requires |Concat(chunks)| <= U64_MAX
    ensures var id := IdOf(h, NodeRecord(h, chunks, 0));
            && ShapeOk(objects, id, Shape(|Concat(chunks)|, 1, 0, p, endsFile)) && Leaves(objects, id, 0) == chunks
  {
    hide PowerOfTwo, Material, Sized, ProfileBounds;
    SizedBounds(p, chunks, endsFile, 1);
    assert Concat(chunks) == chunks[0] + Concat([]) == chunks[0];
  }

  /** A held built subtree is well shaped and its leaves are the chunks it was built from. */
  lemma {:induction false} BuiltShape(h: Hash, objects: Store, p: Profile, chunks: seq<seq<byte>>, depth: nat,
                                      endsFile: bool)
    requires ValidProfile(p) && 0 < |chunks| <= Capacity(depth) && |chunks| <= U64_MAX
    requires Sized(p, chunks, endsFile) && |Concat(chunks)| <= U64_MAX && Holds(h, objects, chunks, depth)
    requires depth > 0 ==> Capacity(depth - 1) * p.maximum <= U64_MAX
    ensures var id := IdOf(h, NodeRecord(h, chunks, depth));
            && ShapeOk(objects, id, Shape(|Concat(chunks)|, |chunks|, depth, p, endsFile))
            && Leaves(objects, id, depth) == chunks
    decreases depth, 0
  {
    hide NodeRecord, PowerOfTwo, Material, TreeHeader, ChildOk, Sized, Concat, HoldsGroups, BuiltAt;
    var r := NodeRecord(h, chunks, depth);
    var shape := Shape(|Concat(chunks)|, |chunks|, depth, p, endsFile);
    if depth == 0 {
      BuiltLeaf(h, objects, p, chunks, endsFile);
    } else {
      BuiltStart(h, objects, p, chunks, depth, endsFile);
      NodeSize(r, shape);
      BuiltChildren(h, objects, r, shape, chunks, 0);
    }
  }

  lemma BuiltStart(h: Hash, objects: Store, p: Profile, chunks: seq<seq<byte>>, depth: nat, endsFile: bool)
    requires ValidProfile(p) && depth > 0 && 0 < |chunks| <= Capacity(depth) && |chunks| <= U64_MAX
    requires Sized(p, chunks, endsFile) && |Concat(chunks)| <= U64_MAX && Holds(h, objects, chunks, depth)
    requires Capacity(depth - 1) * p.maximum <= U64_MAX
    ensures var shape := Shape(|Concat(chunks)|, |chunks|, depth, p, endsFile); var r := NodeRecord(h, chunks, depth);
            TreeHeader(r, shape) && r.kind == 1 && BuiltAt(h, objects, r, shape, chunks, 0)
  {
    hide NodeRecord, NodeReferences, NodeTable, PowerOfTwo, Material, Sized, Concat, HoldsGroups, Field, Capacity;
    var r := NodeRecord(h, chunks, depth);
    BuiltNodeHeader(h, p, chunks, depth, endsFile);
    assert r.references[0..] == r.references;
  }

  lemma BuiltNodeHeader(h: Hash, p: Profile, chunks: seq<seq<byte>>, depth: nat, endsFile: bool)
    requires depth > 0 && 0 < |chunks| <= Capacity(depth) && |chunks| <= U64_MAX && |Concat(chunks)| <= U64_MAX
    ensures var r := NodeRecord(h, chunks, depth);
            && r.kind == 1 && TreeHeader(r, Shape(|Concat(chunks)|, |chunks|, depth, p, endsFile))
            && r.references == NodeReferences(h, chunks, depth - 1, 0)
            && r.canonical[18 + 16 * 0..] == NodeTable(chunks, Capacity(depth - 1))
  {
    hide NodeReferences, NodeTable, Material, LeBytes, Concat;
    var r := NodeRecord(h, chunks, depth);
    ReferenceCount(h, chunks, depth - 1, 0, FANOUT);
    TableLength(h, chunks, depth - 1, 0);
    RadixWidths();
    HeaderReads(r.canonical, |r.references|, |Concat(chunks)|, |chunks|, NodeTable(chunks, Capacity(depth - 1)));
  }

  lemma HeaderReads(c: seq<byte>, count: nat, bytes: nat, chunks: nat, table: seq<byte>)
    requires c == LeBytes(count, 2) + LeBytes(bytes, 8) + LeBytes(chunks, 8) + table
    requires count < Radix(2) && bytes < Radix(8) && chunks < Radix(8)
    ensures Field(c, 0, 2) == count && Field(c, 2, 10) == bytes && Field(c, 10, 18) == chunks && c[18..] == table
  {
    hide Le, LeBytes, Radix;
    LeRoundTrip(count, 2);
    LeRoundTrip(bytes, 8);
    LeRoundTrip(chunks, 8);
    assert c[0..2] == LeBytes(count, 2);
    assert c[2..10] == LeBytes(bytes, 8);
    assert c[10..18] == LeBytes(chunks, 8);
  }

  // ---------------------------------------------------------------- files

  lemma {:induction false} CutsAreSized(g: GearTable, p: Profile, data: seq<byte>)
    requires ValidProfile(p)
    ensures var chunks := Split(data, CutAll(g, p, data));
            Lengths(chunks) == CutAll(g, p, data) && Concat(chunks) == data && Sized(p, chunks, true)
    decreases |data|
  {
    hide Cut, PowerOfTwo;
    if data != [] {
      var c := Cut(g, p, data);
      var cuts := CutAll(g, p, data);
      CutsAreSized(g, p, data[c..]);
      assert cuts == [c] + CutAll(g, p, data[c..]);
      assert cuts[0] == c && cuts[1..] == CutAll(g, p, data[c..]);
      var chunks := Split(data, cuts);
      var rest := Split(data[c..], cuts[1..]);
      assert chunks == [data[..c]] + rest;
      assert chunks[1..] == rest;
      assert data == data[..c] + data[c..];
      assert c == |data| ==> rest == [];
    }
  }

  /** The chunks of a byte string are what the verifier expects of a File's leaves. */
  lemma ChunksAreChunking(g: GearTable, p: Profile, data: seq<byte>)
    requires ValidProfile(p) && data != []
    ensures var chunks := Chunks(g, p, data);
            && Lengths(chunks) == Chunking(g, p, data) && Concat(chunks) == data && Sized(p, chunks, true)
            && chunks != [] && (|chunks| == 1 <==> |data| <= p.maximum)
  {
    hide Cut, PowerOfTwo, Sized;
    if |data| <= p.maximum {
      var chunks := Split(data, [|data|]);
      assert data[..|data|] == data && [|data|][1..] == [] && chunks == [data] + Split(data[|data|..], []) == [data];
      assert Concat([data]) == data + Concat([]) == data;
      assert Lengths([data]) == [|data|] + Lengths([]) == [|data|];
      assert Sized(p, [data], true) by { SingleSized(p, data); }
    } else {
      CutsAreSized(g, p, data);
      var c := Cut(g, p, data);
      assert CutAll(g, p, data) == [c] + CutAll(g, p, data[c..]);
      assert data[c..] != [];
    }
  }

  lemma SingleSized(p: Profile, data: seq<byte>)
    requires 0 < |data| <= p.maximum
    ensures Sized(p, [data], true)
  {}

  /** The exact condition under which the reader's 64-bit bound admits a file of this many chunks. */
  predicate FitsReader(p: Profile, chunkCount: nat) {
    chunkCount <= 1 || Capacity(TreeDepth(chunkCount) - 1) * p.maximum <= U64_MAX
  }

  lemma {:induction false} CountAtMostBytes(p: Profile, chunks: seq<seq<byte>>)
    requires ValidProfile(p) && Sized(p, chunks, true)
    ensures |chunks| <= |Concat(chunks)|
  {
    hide PowerOfTwo;
    if chunks != [] {
      assert forall i :: 0 <= i < |chunks[1..]| ==> chunks[1..][i] == chunks[i + 1];
      CountAtMostBytes(p, chunks[1..]);
    }
  }

  lemma ProfileReads(c: seq<byte>, p: Profile, bytes: nat, chunks: nat)
    requires ValidProfile(p) && bytes <= U64_MAX && chunks <= U64_MAX
    requires c == ProfileBytes(p) + LeBytes(bytes, 8) + LeBytes(chunks, 8)
    ensures FileProfile(c) == p && Field(c, 24, 32) == bytes && Field(c, 32, 40) == chunks
  {
    hide Le, LeBytes, PowerOfTwo, Radix;
    RadixWidths();
    LeRoundTrip(p.algorithm, 1);
    LeRoundTrip(p.revision, 2);
    LeRoundTrip(p.normalization, 1);
    LeRoundTrip(p.minimum, 4);
    LeRoundTrip(p.average, 4);
    LeRoundTrip(p.maximum, 4);
    LeRoundTrip(p.seed, 8);
    LeRoundTrip(bytes, 8);
    LeRoundTrip(chunks, 8);
    assert c[0..1] == LeBytes(p.algorithm, 1);
    assert c[1..3] == LeBytes(p.revision, 2);
    assert c[3..4] == LeBytes(p.normalization, 1);
    assert c[4..8] == LeBytes(p.minimum, 4);
    assert c[8..12] == LeBytes(p.average, 4);
    assert c[12..16] == LeBytes(p.maximum, 4);
    assert c[16..24] == LeBytes(p.seed, 8);
    assert c[24..32] == LeBytes(bytes, 8);
    assert c[32..40] == LeBytes(chunks, 8);
  }

  lemma BuiltFileDecodes(h: Hash, g: GearTable, p: Profile, data: seq<byte>)
    requires ValidProfile(p) && |data| <= U64_MAX
    ensures var chunks := Chunks(g, p, data);
            DecodeFile(FileRecord(h, g, p, data)) ==
            Accepted(FileInfo(p, |data|, |chunks|,
                              if data == [] then None else Some(IdOf(h, NodeRecord(h, chunks, TreeDepth(|chunks|))))))
  {
    hide NodeRecord, PowerOfTwo, TreeDepthFrom, ProfileBytes, LeBytes, FileProfile, Field, IdOf, Cut, Sized;
    var chunks := Chunks(g, p, data);
    if data != [] {
      ChunksAreChunking(g, p, data);
      CountAtMostBytes(p, chunks);
    }
    ProfileReads(FileRecord(h, g, p, data).canonical, p, |data|, |chunks|);
  }

  /** Any accepted tree of more than one chunk starts with a full child, which must fit. */
  lemma AcceptedTreesFit(objects: Store, id: ObjectId, shape: Shape)
    requires ShapeOk(objects, id, shape) && shape.chunkCount > 1 && shape.depth == TreeDepth(shape.chunkCount)
    ensures FitsReader(shape.profile, shape.chunkCount)
  {
    hide PowerOfTwo, TreeDepthFrom, SumBytes, Capacity, Field;
    var r := objects[id];
    NodeSize(r, shape);
    assert ChildOk(r, shape, 0);
    assert SumChunks(r, 0) == ChildChunks(r.canonical, 0) + SumChunks(r, 1);
    assert SumChunks(r, |r.references|) == 0;
    assert shape.depth > 0 && Capacity(shape.depth - 1) < shape.chunkCount;
  }

  /**
   * The reader accepts the File built from any byte string, and reads those bytes back from it,
   * exactly when a full subtree of that file stays inside the reader's 64-bit bound.
   */
  lemma BuiltFilesAreAccepted(h: Hash, g: GearTable, objects: Store, p: Profile, data: seq<byte>)
    requires ValidProfile(p) && |data| <= U64_MAX
    requires data != [] ==> Holds(h, objects, Chunks(g, p, data), TreeDepth(|Chunks(g, p, data)|))
    ensures FileAccepted(g, objects, FileRecord(h, g, p, data)) <==> FitsReader(p, |Chunks(g, p, data)|)
    ensures FileAccepted(g, objects, FileRecord(h, g, p, data)) ==>
              FileBytes(objects, FileRecord(h, g, p, data)) == data
  {
    hide NodeRecord, PowerOfTwo, TreeDepthFrom, Cut, Sized, Holds, FileRecord, Chunks, ShapeOk, Leaves, AllBoundaries,
         DecodeFile, Capacity;
    var chunks := Chunks(g, p, data);
    var r := FileRecord(h, g, p, data);
    BuiltFileDecodes(h, g, p, data);
    var f := DecodeFile(r).value;
    if data == [] {
      assert chunks == [] by { EmptyChunks(g, p); }
    } else {
      ChunksAreChunking(g, p, data);
      CountAtMostBytes(p, chunks);
      if FitsReader(p, |chunks|) {
        DepthOfFew(|chunks|);
        BuiltShape(h, objects, p, chunks, TreeDepth(|chunks|), true);
        AcceptedFilesAreChunkings(g, objects, r);
      }
      if FileAccepted(g, objects, r) {
        if |chunks| > 1 { AcceptedTreesFit(objects, f.content.value, FileShape(f)); }
      }
    }
  }

  lemma DepthOfFew(n: nat)
    ensures n <= 1 ==> TreeDepth(n) == 0
  {}

  lemma EmptyChunks(g: GearTable, p: Profile)
    requires ValidProfile(p)
    ensures Chunks(g, p, []) == []
  {}

  // ---------------------------------------------------------------- a file the reader refuses

  /** Under the seed that cancels the gear value of byte zero, a run of zero bytes ends where the scan starts. */
  lemma ZeroRunCut(g: GearTable, p: Profile, s: seq<byte>)
    requires ValidProfile(p) && p.seed == g[0] && p.minimum % 2 == 0
    requires |s| >= p.minimum + 2 && s[p.minimum] == 0
    ensures Cut(g, p, s) == p.minimum
  {
    hide PowerOfTwo, StrictMask, LooseMask, Xor;
    var c := p.minimum;
    XorSelf(Doubled(g[0]));
    assert Roll(g, p, s, c) == 0;
    assert Roll(g, p, s, c + 1) == RollEven(g, p, 0, s[c]) == 0;
    assert Hit(g, p, s, c);
  }

  lemma {:induction false} ZeroRunCount(g: GearTable, p: Profile, s: seq<byte>, k: nat)
    requires ValidProfile(p) && p.seed == g[0] && p.minimum == 64
    requires |s| == 64 * k && forall i :: 0 <= i < |s| ==> s[i] == 0
    ensures |CutAll(g, p, s)| == k
    decreases k
  {
    hide PowerOfTwo, Cut;
    if k > 0 {
      if k > 1 { ZeroRunCut(g, p, s); } else { ShortIsWhole(g, p, s); }
      ZeroRunCount(g, p, s[64..], k - 1);
    }
  }

  lemma ShortIsWhole(g: GearTable, p: Profile, s: seq<byte>)
    requires ValidProfile(p) && |s| <= p.minimum
    ensures Cut(g, p, s) == |s|
  {}

  /** More chunks than six levels hold, of up to sixteen mebibytes each, can outgrow sixty-four bits. */
  lemma ManyChunksDoNotFit(p: Profile, chunkCount: nat)
    requires p.maximum == 16_777_216 && chunkCount > 4_398_046_511_104
    ensures !FitsReader(p, chunkCount)
  {
    hide TreeDepth;
    var depth := TreeDepth(chunkCount);
    assert Capacity(2) == 16_384;
    assert Capacity(4) == 268_435_456;
    assert Capacity(6) == 4_398_046_511_104;
    if depth <= 6 { CapacityMonotone(depth, 6); }
    CapacityMonotone(6, depth - 1);
  }

  lemma LengthsCount(chunks: seq<seq<byte>>)
    ensures |Lengths(chunks)| == |chunks|
  {}

  /**
   * Whatever the gear table, there is a profile and a file of 64-bit length whose own canonical objects the reader
   * refuses in every store.
   */
  lemma OutgrownFileExample(h: Hash, g: GearTable) returns (p: Profile, data: seq<byte>)
    ensures ValidProfile(p) && 0 < |data| <= U64_MAX && !FitsReader(p, |Chunks(g, p, data)|)
    ensures forall objects :: Holds(h, objects, Chunks(g, p, data), TreeDepth(|Chunks(g, p, data)|)) ==>
                                !FileAccepted(g, objects, FileRecord(h, g, p, data))
  {
    hide Cut, TreeDepth, Holds, FileAccepted, FileRecord, Chunks, FitsReader;
    p := Profile(1, 1, 1, 64, 256, 16_777_216, g[0]);
    assert ValidProfile(p);
    var k := 4_398_046_511_105;
    data := Zeros(64 * k);
    ZeroRunCount(g, p, data, k);
    ChunksAreChunking(g, p, data);
    LengthsCount(Chunks(g, p, data));
    ManyChunksDoNotFit(p, |Chunks(g, p, data)|);
    forall objects | Holds(h, objects, Chunks(g, p, data), TreeDepth(|Chunks(g, p, data)|))
      ensures !FileAccepted(g, objects, FileRecord(h, g, p, data))
    {
      BuiltFilesAreAccepted(h, g, objects, p, data);
    }
  }
}
