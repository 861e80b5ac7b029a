/**
 * What the key-value projection decoders share: cursor reads, keys, dictionaries in insertion order,
 * accounting totals, named references and spilled values, including values stored as chunked Files.
 */
module KvValues {
  import opened Bytes
  import opened Outcomes
  import opened Objects
  import opened FastCdc
  import opened ContentTree
  import opened ContentIdentity

  const INLINE_MAX: nat := 1024
  const ASTRID_V1: Profile := Profile(1, 1, 1, 16 * 1024, 64 * 1024, 256 * 1024, 0)

  type Key = seq<byte>
  type Value = seq<byte>

  /** The object store with the two things this model does not look inside: the gear table and UTF-8 validity. */
  datatype Reader = Reader(objects: Store, gear: GearTable, utf8: seq<byte> -> bool)

  // ---------------------------------------------------------------- cursor reads

  /** cursor.take(cursor.integer(4)): a length-prefixed key and the offset behind it. */
  function ReadKey(data: seq<byte>, offset: nat): Result<(Key, nat)> {
    var length :- ReadInteger(data, offset, 4);
    var _ :- Check(offset + 4 + length <= |data|);
    Accepted((data[offset + 4..offset + 4 + length], offset + 4 + length))
  }

  function KeyBytes(key: Key): seq<byte> {
    LeBytes(|key|, 4) + key
  }

  /** A read returns v exactly when v's encoding is there. */
  lemma IntegerFits(data: seq<byte>, offset: nat, v: nat)
    requires ReadInteger(data, offset, 8) == Accepted(v)
    ensures v <= U64_MAX
  {
    hide LeBytes;
    RadixWidths();
    ReadIntegerExact(data, offset, 8, v);
  }

  lemma ReadByte(data: seq<byte>, offset: nat)
    ensures offset < |data| ==> ReadInteger(data, offset, 1) == Accepted(data[offset])
    ensures offset >= |data| ==> ReadInteger(data, offset, 1).Rejected?
  {
    if offset < |data| {
      var s := data[offset..offset + 1];
      assert Le(s) == s[0] + 256 * Le(s[1..]) && s[1..] == [];
    }
  }

  lemma ReadKeyExact(data: seq<byte>, offset: nat, key: Key, next: nat)
    ensures ReadKey(data, offset) == Accepted((key, next)) <==>
            |key| < Radix(4) && OccursAt(data, KeyBytes(key), offset) && next == offset + |KeyBytes(key)|
  {
    hide Le, LeBytes, Radix;
    ReadIntegerExact(data, offset, 4, |key|);
    OccursJoin(data, LeBytes(|key|, 4), key, offset);
  }

  // ---------------------------------------------------------------- keys

  function CountZeros(key: Key): nat {
    if key == [] then 0 else (if key[0] == 0 then 1 else 0) + CountZeros(key[1..])
  }

  /** Everything before the first zero byte. */
  function BeforeZero(key: Key): (s: Key)
    ensures |s| <= |key|
  {
    if key == [] || key[0] == 0 then [] else [key[0]] + BeforeZero(key[1..])
  }

  /** A namespace and a name, both non-empty UTF-8, around exactly one zero byte. */
  predicate CompositeKey(reader: Reader, key: Key) {
    CountZeros(key) == 1 &&
    var namespace := BeforeZero(key);
    var name := if |namespace| < |key| then key[|namespace| + 1..] else [];
    namespace != [] && name != [] && reader.utf8(namespace) && reader.utf8(name)
  }

  // ---------------------------------------------------------------- dictionaries and totals

  /** A dictionary keeps its items in insertion order. */
  datatype Entry = Entry(key: Key, value: Value)
  type Entries = seq<Entry>

  /** entries.get(key) */
  function Lookup(entries: Entries, key: Key): Option<Value> {
    if entries == [] then None
    else if entries[0].key == key then Some(entries[0].value)
    else Lookup(entries[1..], key)
  }

  ghost predicate Distinct(entries: Entries) {
    forall i, j :: 0 <= i < j < |entries| ==> entries[i].key != entries[j].key
  }

  ghost predicate Ascending(entries: Entries) {
    forall i, j :: 0 <= i < j < |entries| ==> Less(entries[i].key, entries[j].key)
  }

  lemma AscendingIsDistinct(entries: Entries)
    requires Ascending(entries)
    ensures Distinct(entries)
  {
    forall i, j | 0 <= i < j < |entries| ensures entries[i].key != entries[j].key {
      LessIrreflexive(entries[i].key);
    }
  }

  /** entries[key] = value: replace in place or append. */
  function Put(entries: Entries, key: Key, value: Value): Entries {
    if entries == [] then [Entry(key, value)]
    else if entries[0].key == key then [Entry(key, value)] + entries[1..]
    else [entries[0]] + Put(entries[1..], key, value)
  }

  /** entries.pop(key, None) */
  function Remove(entries: Entries, key: Key): Entries {
    if entries == [] then []
    else if entries[0].key == key then entries[1..]
    else [entries[0]] + Remove(entries[1..], key)
  }

  /** Writing a key changes what is read under that key and nothing else. */
  lemma {:induction false} LookupPut(entries: Entries, key: Key, value: Value, other: Key)
    ensures Lookup(Put(entries, key, value), other) == if other == key then Some(value) else Lookup(entries, other)
  {
    if entries != [] && entries[0].key != key { LookupPut(entries[1..], key, value, other); }
  }

  lemma {:induction false} LookupAbsent(entries: Entries, key: Key)
    requires forall i :: 0 <= i < |entries| ==> entries[i].key != key
    ensures Lookup(entries, key) == None
  {
    if entries != [] { LookupAbsent(entries[1..], key); }
  }

  lemma {:induction false} LookupRemove(entries: Entries, key: Key, other: Key)
    requires Distinct(entries)
    ensures Lookup(Remove(entries, key), other) == if other == key then None else Lookup(entries, other)
  {
    if entries != [] {
      if entries[0].key == key { LookupAbsent(entries[1..], key); } else { LookupRemove(entries[1..], key, other); }
    }
  }

  lemma {:induction false} PutKeys(entries: Entries, key: Key, value: Value)
    requires Distinct(entries)
    ensures Distinct(Put(entries, key, value))
    ensures forall e :: e in Put(entries, key, value) ==> e.key == key || e in entries
  {
    if entries != [] && entries[0].key != key {
      PutKeys(entries[1..], key, value);
      var rest := Put(entries[1..], key, value);
      forall i | 0 <= i < |rest| ensures rest[i].key != entries[0].key { assert rest[i] in rest; }
    }
  }

  lemma {:induction false} RemoveKeys(entries: Entries, key: Key)
    requires Distinct(entries)
    ensures Distinct(Remove(entries, key))
    ensures forall e :: e in Remove(entries, key) ==> e in entries
  {
    if entries != [] && entries[0].key != key {
      RemoveKeys(entries[1..], key);
      var rest := Remove(entries[1..], key);
      forall i | 0 <= i < |rest| ensures rest[i].key != entries[0].key { assert rest[i] in rest; }
    }
  }

  /** entries.update(other) */
  function Merge(entries: Entries, other: Entries): Entries
    decreases |other|
  {
    if other == [] then entries else Merge(Put(entries, other[0].key, other[0].value), other[1..])
  }

  function LogicalBytes(entries: Entries): nat {
    if entries == [] then 0 else |entries[0].value| + LogicalBytes(entries[1..])
  }

  function QuotaBytes(entries: Entries): nat {
    if entries == [] then 0 else |entries[0].key| + |entries[0].value| + QuotaBytes(entries[1..])
  }

  datatype Totals = Totals(count: nat, logical: nat, quota: nat)

  function Sums(entries: Entries): Totals {
    Totals(|entries|, LogicalBytes(entries), QuotaBytes(entries))
  }

  predicate FitsU64(t: Totals) {
    t.count <= U64_MAX && t.logical <= U64_MAX && t.quota <= U64_MAX
  }

  /** totals: the sums, or an error when one overflows u64. */
  function TotalsOf(entries: Entries): Result<Totals> {
    if FitsU64(Sums(entries)) then Accepted(Sums(entries)) else Rejected
  }

  function AddTotals(a: Totals, b: Totals): Totals {
    Totals(a.count + b.count, a.logical + b.logical, a.quota + b.quota)
  }

  lemma {:induction false} BytesAppend(a: Entries, b: Entries)
    ensures LogicalBytes(a + b) == LogicalBytes(a) + LogicalBytes(b)
    ensures QuotaBytes(a + b) == QuotaBytes(a) + QuotaBytes(b)
  {
    if a == [] {
      assert a + b == b;
    } else {
      var rest := a[1..] + b;
      assert a + b == [a[0]] + rest;
      assert (a + b)[1..] == rest;
      BytesAppend(a[1..], b);
    }
  }

  lemma SumsAppend(a: Entries, b: Entries)
    ensures Sums(a + b) == AddTotals(Sums(a), Sums(b))
  {
    hide LogicalBytes, QuotaBytes;
    BytesAppend(a, b);
  }

  /** Writing a key that is not there appends it. */
  lemma {:induction false} PutFresh(entries: Entries, key: Key, value: Value)
    requires forall i :: 0 <= i < |entries| ==> entries[i].key != key
    ensures Put(entries, key, value) == entries + [Entry(key, value)]
  {
    if entries != [] { PutFresh(entries[1..], key, value); }
  }

  /** Merging dictionaries with no key in common is concatenation: nothing is overwritten. */
  lemma {:induction false} MergeDisjoint(entries: Entries, other: Entries)
    requires Distinct(entries + other)
    ensures Merge(entries, other) == entries + other
    decreases |other|
  {
    if other == [] {
      assert entries + other == entries;
    } else {
      assert (entries + other)[|entries|] == other[0];
      forall i | 0 <= i < |entries| ensures entries[i].key != other[0].key {
        assert (entries + other)[i] == entries[i];
      }
      PutFresh(entries, other[0].key, other[0].value);
      assert entries + [Entry(other[0].key, other[0].value)] + other[1..] == entries + other;
      MergeDisjoint(entries + [other[0]], other[1..]);
    }
  }

  // ---------------------------------------------------------------- objects and references

  function ObjectAt(objects: Store, id: ObjectId, kind: nat, version: nat): Result<Record> {
    var _ :- Check(id in objects);
    var _ :- Check(objects[id].kind == kind && objects[id].version == version);
    Accepted(objects[id])
  }

  function Named(references: seq<Reference>, name: seq<byte>): seq<Reference> {
    if references == [] then []
    else if references[0].name == name then [references[0]] + Named(references[1..], name)
    else Named(references[1..], name)
  }

  function ExactReference(r: Record, name: seq<byte>, kind: nat, required: bool): Result<Option<ObjectId>> {
    var found := Named(r.references, name);
    var _ :- Check(|found| <= 1 && (required ==> |found| == 1));
    if found == [] then Accepted(None)
    else
      var _ :- Check(found[0].kind == kind);
      Accepted(Some(found[0].target))
  }

  function LabelBytes(references: seq<Reference>): nat {
    if references == [] then 0 else 41 + |references[0].name| + LabelBytes(references[1..])
  }

  function RetainedBytes(r: Record): nat {
    29 + |r.canonical| + LabelBytes(r.references)
  }

  // ---------------------------------------------------------------- values

  /** The File a chunked wrapper names, when the wrapper and the File are valid for `length`. */
  function ChunkedFile(reader: Reader, r: Record, length: nat): Result<Record>
    requires length <= U64_MAX
  {
    var _ :- Check(r.objectClass == 0 && r.logicalBytes == 0 && length > ASTRID_V1.maximum
                   && r.canonical == LeBytes(length, 8) && |r.references| == 1);
    var target :- ExactReference(r, CONTENT_LABEL, 0, true);
    var _ :- Check(target.Some? && target.value in reader.objects);
    var file := reader.objects[target.value];
    var info :- DecodeFile(file);
    var _ :- Check(info.profile == ASTRID_V1 && info.logicalBytes == length);
    var _ :- Check(FileAccepted(reader.gear, reader.objects, file));
    Accepted(file)
  }

  /** The value bytes an object stands for. */
  function ValueOf(reader: Reader, id: ObjectId, length: nat, version: nat): (v: Result<Value>)
    requires length <= U64_MAX
    ensures v.Accepted? ==> |v.value| == length
  {
    if version == 4 && id in reader.objects && reader.objects[id].kind == 5 && reader.objects[id].version == 5 then
      var file :- ChunkedFile(reader, reader.objects[id], length);
      ChunkedLength(reader, reader.objects[id], length);
      Accepted(FileBytes(reader.objects, file))
    else
      var r :- ObjectAt(reader.objects, id, 5, version);
      var _ :- Check(r.objectClass == 0 && r.logicalBytes == 0 && r.references == [] && |r.canonical| == length
                     && !(version == 4 && length <= INLINE_MAX));
      Accepted(r.canonical)
  }

  /** The reconstructed length never disagrees with the declared one. */
  lemma ChunkedLength(reader: Reader, r: Record, length: nat)
    requires length <= U64_MAX && ChunkedFile(reader, r, length).Accepted?
    ensures var file := ChunkedFile(reader, r, length).value;
            && DecodeFile(file).Accepted? && DecodeFile(file).value.content.Some?
            && ShapeOk(reader.objects, DecodeFile(file).value.content.value, FileShape(DecodeFile(file).value))
            && |FileBytes(reader.objects, file)| == length
  {
    hide Cut, AllBoundaries, ShapeOk, PowerOfTwo, TreeDepthFrom, Leaves, ExactReference, LeBytes;
    var file := ChunkedFile(reader, r, length).value;
    var info := DecodeFile(file).value;
    ShapeTotals(reader.objects, info.content.value, FileShape(info));
  }

  // ---------------------------------------------------------------- the explicit-stack chunk walk

  /** Nodes below an object, itself included: the walk's termination measure. */
  function NodeCount(objects: Store, id: ObjectId, depth: nat): (n: nat)
    ensures n >= 1
    decreases depth, 0
  {
    if id !in objects || depth == 0 then 1 else 1 + NodeCountFrom(objects, objects[id].references, 0, depth - 1)
  }

  function NodeCountFrom(objects: Store, references: seq<Reference>, i: nat, depth: nat): nat
    requires i <= |references|
    decreases depth, 1 + |references| - i
  {
    if i == |references| then 0
    else NodeCount(objects, references[i].target, depth) + NodeCountFrom(objects, references, i + 1, depth)
  }

  /** A stack of subtrees still to visit, top last, with the shape each must have. */
  ghost predicate Pending(objects: Store, stack: seq<ObjectId>, shapes: seq<Shape>) {
    |stack| == |shapes| && forall i :: 0 <= i < |stack| ==> ShapeOk(objects, stack[i], shapes[i])
  }

  ghost function PendingLeaves(objects: Store, stack: seq<ObjectId>, shapes: seq<Shape>): seq<seq<byte>>
    requires |stack| == |shapes|
  {
    if stack == [] then []
    else
      var top := |stack| - 1;
      Leaves(objects, stack[top], shapes[top].depth) + PendingLeaves(objects, stack[..top], shapes[..top])
  }

  ghost function PendingNodes(objects: Store, stack: seq<ObjectId>, shapes: seq<Shape>): nat
    requires |stack| == |shapes|
  {
    if stack == [] then 0
    else
      var top := |stack| - 1;
      NodeCount(objects, stack[top], shapes[top].depth) + PendingNodes(objects, stack[..top], shapes[..top])
  }

  function TargetsReversed(references: seq<Reference>): (ids: seq<ObjectId>)
    ensures |ids| == |references|
    ensures forall i :: 0 <= i < |ids| ==> ids[i] == references[|references| - 1 - i].target
  {
    seq(|references|, i requires 0 <= i < |references| => references[|references| - 1 - i].target)
  }

  ghost function ShapesReversed(r: Record, shape: Shape): (shapes: seq<Shape>)
    requires |r.canonical| == 18 + |r.references| * 16 && shape.depth > 0
    ensures |shapes| == |r.references|
    ensures forall i :: 0 <= i < |shapes| ==> shapes[i] == ChildShape(r, shape, |r.references| - 1 - i)
  {
    seq(|r.references|, i requires 0 <= i < |r.references| => ChildShape(r, shape, |r.references| - 1 - i))
  }

  /** Pushing children from i on, in reverse, puts child i on top of the later ones. */
  lemma PushTop(r: Record, shape: Shape, rest: seq<ObjectId>, shapes: seq<Shape>, i: nat)
    requires |r.canonical| == 18 + |r.references| * 16 && shape.depth > 0
    requires |rest| == |shapes| && i < |r.references|
    ensures var n := |r.references| - i; var top := |rest| + n - 1;
            var stack := rest + TargetsReversed(r.references)[..n]; var marks := shapes + ShapesReversed(r, shape)[..n];
            && |stack| == |marks| == top + 1
            && stack[..top] == rest + TargetsReversed(r.references)[..n - 1]
            && marks[..top] == shapes + ShapesReversed(r, shape)[..n - 1]
            && stack[top] == r.references[i].target && marks[top] == ChildShape(r, shape, i)
  {
    hide ChildShape;
  }

  lemma {:induction false} PushChildren(objects: Store, r: Record, shape: Shape, rest: seq<ObjectId>,
                                        shapes: seq<Shape>, i: nat)
    requires |r.canonical| == 18 + |r.references| * 16 && shape.depth > 0
    requires |rest| == |shapes| && i <= |r.references|
    ensures var n := |r.references| - i;
            && PendingLeaves(objects, rest + TargetsReversed(r.references)[..n], shapes + ShapesReversed(r, shape)[..n])
               == LeavesFrom(objects, r.references, i, shape.depth - 1) + PendingLeaves(objects, rest, shapes)
            && PendingNodes(objects, rest + TargetsReversed(r.references)[..n], shapes + ShapesReversed(r, shape)[..n])
               == NodeCountFrom(objects, r.references, i, shape.depth - 1) + PendingNodes(objects, rest, shapes)
    decreases |r.references| - i
  {
    hide Leaves, NodeCount, PendingLeaves, PendingNodes, TargetsReversed, ShapesReversed;
    var n := |r.references| - i;
    var stack, marks := rest + TargetsReversed(r.references)[..n], shapes + ShapesReversed(r, shape)[..n];
    if n == 0 {
      assert stack == rest && marks == shapes;
      assert LeavesFrom(objects, r.references, i, shape.depth - 1) == [];
    } else {
      PushTop(r, shape, rest, shapes, i);
      PushChildren(objects, r, shape, rest, shapes, i + 1);
      PendingTop(objects, stack, marks);
    }
  }

  lemma PendingTop(objects: Store, stack: seq<ObjectId>, shapes: seq<Shape>)
    requires |stack| == |shapes| && stack != []
    ensures var top := |stack| - 1;
            && PendingLeaves(objects, stack, shapes) == Leaves(objects, stack[top], shapes[top].depth)
               + PendingLeaves(objects, stack[..top], shapes[..top])
            && PendingNodes(objects, stack, shapes) == NodeCount(objects, stack[top], shapes[top].depth)
               + PendingNodes(objects, stack[..top], shapes[..top])
  {}

  lemma PopLeaf(objects: Store, stack: seq<ObjectId>, shapes: seq<Shape>)
    requires Pending(objects, stack, shapes) && stack != [] && objects[stack[|stack| - 1]].kind == 0
    ensures var top := |stack| - 1;
            && Pending(objects, stack[..top], shapes[..top])
            && PendingLeaves(objects, stack, shapes) == [objects[stack[top]].canonical]
               + PendingLeaves(objects, stack[..top], shapes[..top])
            && PendingNodes(objects, stack[..top], shapes[..top]) < PendingNodes(objects, stack, shapes)
  {
    assert ShapeOk(objects, stack[|stack| - 1], shapes[|stack| - 1]);
  }

  lemma PopBranch(objects: Store, stack: seq<ObjectId>, shapes: seq<Shape>) returns (below: seq<Shape>)
    requires Pending(objects, stack, shapes) && stack != [] && objects[stack[|stack| - 1]].kind != 0
    ensures var top := |stack| - 1; var pushed := stack[..top] + TargetsReversed(objects[stack[top]].references);
            && Pending(objects, pushed, below)
            && PendingLeaves(objects, stack, shapes) == PendingLeaves(objects, pushed, below)
            && PendingNodes(objects, pushed, below) < PendingNodes(objects, stack, shapes)
  {
    hide TreeHeader, ChildOk, PendingLeaves, PendingNodes, ChunkOk, Leaves, NodeCount, SumBytes, SumChunks;
    var top := |stack| - 1;
    var id, shape := stack[top], shapes[top];
    var r := objects[id];
    assert ShapeOk(objects, id, shape);
    NodeSize(r, shape);
    below := shapes[..top] + ShapesReversed(r, shape);
    var pushed := stack[..top] + TargetsReversed(r.references);
    PendingPushed(objects, id, shape, stack[..top], shapes[..top]);
    PushChildren(objects, r, shape, stack[..top], shapes[..top], 0);
    assert TargetsReversed(r.references)[..|r.references|] == TargetsReversed(r.references);
    assert ShapesReversed(r, shape)[..|r.references|] == ShapesReversed(r, shape);
    PopCounts(objects, stack, shapes);
  }

  lemma PendingPushed(objects: Store, id: ObjectId, shape: Shape, rest: seq<ObjectId>, shapes: seq<Shape>)
    requires ShapeOk(objects, id, shape) && objects[id].kind != 0 && shape.depth > 0 && Pending(objects, rest, shapes)
    requires |objects[id].canonical| == 18 + |objects[id].references| * 16
    ensures Pending(objects, rest + TargetsReversed(objects[id].references),
                    shapes + ShapesReversed(objects[id], shape))
  {
    hide TreeNodeOk, ChunkOk, ChildShape;
    var r := objects[id];
    var pushed, below := rest + TargetsReversed(r.references), shapes + ShapesReversed(r, shape);
    forall i | 0 <= i < |pushed| ensures ShapeOk(objects, pushed[i], below[i]) {
      if i >= |rest| {
        var j := |r.references| - 1 - (i - |rest|);
        assert ShapeOk(objects, r.references[j].target, ChildShape(r, shape, j));
      }
    }
  }

  lemma PopCounts(objects: Store, stack: seq<ObjectId>, shapes: seq<Shape>)
    requires |stack| == |shapes| && stack != [] && stack[|stack| - 1] in objects && shapes[|stack| - 1].depth > 0
    ensures var top := |stack| - 1; var refs := objects[stack[top]].references;
            && PendingLeaves(objects, stack, shapes)
               == LeavesFrom(objects, refs, 0, shapes[top].depth - 1)
               + PendingLeaves(objects, stack[..top], shapes[..top])
            && PendingNodes(objects, stack, shapes)
               == 1 + NodeCountFrom(objects, refs, 0, shapes[top].depth - 1)
               + PendingNodes(objects, stack[..top], shapes[..top])
  {}

  /** The explicit-stack walk collects exactly the leaves, left to right. */
  method CollectChunks(objects: Store, content: ObjectId, ghost shape: Shape) returns (chunks: seq<seq<byte>>)
    requires ShapeOk(objects, content, shape)
    ensures chunks == Leaves(objects, content, shape.depth)
  {
    hide ShapeOk, Leaves, NodeCount, PendingLeaves, PendingNodes;
    chunks := [];
    var pending := [content];
    ghost var shapes := [shape];
    Alone(objects, content, shape);
    while pending != []
      invariant Pending(objects, pending, shapes)
      invariant chunks + PendingLeaves(objects, pending, shapes) == Leaves(objects, content, shape.depth)
      decreases PendingNodes(objects, pending, shapes)
    {
      var top := |pending| - 1;
      assert pending[top] in objects by { Present(objects, pending[top], shapes[top]); }
      var node := objects[pending[top]];
      if node.kind == 0 {
        PopLeaf(objects, pending, shapes);
        chunks := chunks + [node.canonical];
        pending, shapes := pending[..top], shapes[..top];
      } else {
        ghost var below := PopBranch(objects, pending, shapes);
        pending := pending[..top] + TargetsReversed(node.references);
        shapes := below;
      }
    }
    NothingPending(objects);
  }

  lemma Alone(objects: Store, content: ObjectId, shape: Shape)
    ensures PendingLeaves(objects, [content], [shape]) == Leaves(objects, content, shape.depth)
  {
    assert [content][..0] == [] && [shape][..0] == [];
  }

  lemma NothingPending(objects: Store)
    ensures PendingLeaves(objects, [], []) == []
  {}

  lemma Present(objects: Store, id: ObjectId, shape: Shape)
    requires ShapeOk(objects, id, shape)
    ensures id in objects
  {}

  /** The wrapper checks, File validation and the stack walk together give the File's bytes. */
  method DecodeChunkedValue(reader: Reader, r: Record, length: nat) returns (v: Result<Value>)
    requires length <= U64_MAX
    ensures v.Accepted? <==> ChunkedFile(reader, r, length).Accepted?
    ensures v.Accepted? ==> v.value == FileBytes(reader.objects, ChunkedFile(reader, r, length).value)
  {
    hide Cut, AllBoundaries, ShapeOk, PowerOfTwo, TreeDepthFrom, Leaves, Named, LeBytes, FileAccepted, DecodeFile;
    if !(r.objectClass == 0 && r.logicalBytes == 0 && length > ASTRID_V1.maximum
         && r.canonical == LeBytes(length, 8) && |r.references| == 1) { return Rejected; }
    var target :- ExactReference(r, CONTENT_LABEL, 0, true);
    if target.None? || target.value !in reader.objects { return Rejected; }
    var file := reader.objects[target.value];
    var info :- DecodeFile(file);
    if info.profile != ASTRID_V1 || info.logicalBytes != length { return Rejected; }
    var valid := ValidateFile(reader.gear, reader.objects, file);
    if valid.Rejected? { return Rejected; }
    ChunkedLength(reader, r, length);
    var chunks := CollectChunks(reader.objects, info.content.value, FileShape(info));
    var value := Concat(chunks);
    if |value| != length { return Rejected; }
    return Accepted(value);
  }

  method DecodeValue(reader: Reader, id: ObjectId, length: nat, version: nat) returns (v: Result<Value>)
    requires length <= U64_MAX
    ensures v == ValueOf(reader, id, length, version)
  {
    hide ChunkedFile, FileBytes;
    if version == 4 && id in reader.objects && reader.objects[id].kind == 5 && reader.objects[id].version == 5 {
      v := DecodeChunkedValue(reader, reader.objects[id], length);
      return;
    }
    var r :- ObjectAt(reader.objects, id, 5, version);
    if r.objectClass != 0 || r.logicalBytes != 0 || r.references != [] || |r.canonical| != length
       || (version == 4 && length <= INLINE_MAX) { return Rejected; }
    return Accepted(r.canonical);
  }

  // ---------------------------------------------------------------- totals on the wire

  function TotalsBytes(t: Totals): (s: seq<byte>)
    ensures |s| == 24
  {
    LeBytes(t.count, 8) + LeBytes(t.logical, 8) + LeBytes(t.quota, 8)
  }

  function ReadTotals(data: seq<byte>, offset: nat): Result<Totals> {
    var count :- ReadInteger(data, offset, 8);
    var logical :- ReadInteger(data, offset + 8, 8);
    var quota :- ReadInteger(data, offset + 16, 8);
    Accepted(Totals(count, logical, quota))
  }

  lemma ReadTotalsExact(data: seq<byte>, offset: nat, t: Totals)
    ensures ReadTotals(data, offset) == Accepted(t) <==> FitsU64(t) && OccursAt(data, TotalsBytes(t), offset)
  {
    hide ReadInteger, Radix, LeBytes, OccursAt;
    RadixWidths();
    ReadIntegerExact(data, offset, 8, t.count);
    ReadIntegerExact(data, offset + 8, 8, t.logical);
    ReadIntegerExact(data, offset + 16, 8, t.quota);
    OccursJoin(data, LeBytes(t.count, 8), LeBytes(t.logical, 8), offset);
    OccursJoin(data, LeBytes(t.count, 8) + LeBytes(t.logical, 8), LeBytes(t.quota, 8), offset);
  }
}
