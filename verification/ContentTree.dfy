/**
 * The File grammar of the reader: a File names a 128-way tree of chunks. The validator walks the
 * tree with memo tables and passes only a small summary between subtrees. The contracts say that
 * this equals the flat check over all chunks, and the lemmas that the accepted objects are a
 * function of the profile and the bytes alone.
 */
module ContentTree {
  import opened Bytes
  import opened Outcomes
  import opened Objects
  import opened FastCdc

  const FANOUT: nat := 128
  const CONTENT_LABEL: seq<byte> := [99, 111, 110, 116, 101, 110, 116]

  datatype Shape = Shape(logicalBytes: nat, chunkCount: nat, depth: nat, profile: Profile, endsFile: bool)
  datatype Summary = Summary(firstPrefix: seq<byte>, lastObject: ObjectId, lastBytes: seq<byte>)
  datatype FileInfo = FileInfo(profile: Profile, logicalBytes: nat, chunkCount: nat, content: Option<ObjectId>)

  function Field(s: seq<byte>, start: nat, end: nat): nat
    requires start <= end <= |s|
  {
    Le(s[start..end])
  }

  predicate MetadataSchema(r: Record, kind: nat, canonicalLength: nat) {
    r.kind == kind && r.version == 1 && r.objectClass == 1 && r.logicalBytes == 0
    && |r.canonical| == canonicalLength
  }

  // ---------------------------------------------------------------- File header

  function FileProfile(c: seq<byte>): Profile
    requires |c| == 40
  {
    Profile(Field(c, 0, 1), Field(c, 1, 3), Field(c, 3, 4), Field(c, 4, 8),
            Field(c, 8, 12), Field(c, 12, 16), Field(c, 16, 24))
  }

  function DecodeFile(r: Record): (f: Result<FileInfo>)
    ensures f.Accepted? ==> ValidProfile(f.value.profile)
    ensures f.Accepted? && f.value.content.None? ==> f.value.logicalBytes == 0
    ensures f.Accepted? && f.value.content.Some? ==>
              f.value.logicalBytes > 0 && f.value.chunkCount > 0
              && (f.value.chunkCount == 1 <==> f.value.logicalBytes <= f.value.profile.maximum)
  {
    var _ :- Check(MetadataSchema(r, 2, 40));
    var profile := FileProfile(r.canonical);
    var logicalBytes, chunkCount := Field(r.canonical, 24, 32), Field(r.canonical, 32, 40);
    var _ :- Check(ValidProfile(profile));
    if logicalBytes == 0 then
      var _ :- Check(chunkCount == 0 && r.references == []);
      Accepted(FileInfo(profile, 0, 0, None))
    else
      var _ :- Check(chunkCount != 0);
      var _ :- Check((chunkCount == 1) == (logicalBytes <= profile.maximum));
      var _ :- Check(|r.references| == 1 && r.references[0].name == CONTENT_LABEL && r.references[0].kind == 0);
      Accepted(FileInfo(profile, logicalBytes, chunkCount, Some(r.references[0].target)))
  }

  // ---------------------------------------------------------------- tree arithmetic

  function Capacity(depth: nat): (c: nat)
    ensures c >= 1
  {
    if depth == 0 then 1 else FANOUT * Capacity(depth - 1)
  }

  ghost predicate IsTreeDepth(depth: nat, chunkCount: nat) {
    Capacity(depth) >= chunkCount && (depth > 0 ==> Capacity(depth - 1) < chunkCount)
  }

  lemma {:induction false} CapacityMonotone(a: nat, b: nat)
    requires a <= b
    ensures Capacity(a) <= Capacity(b)
    decreases b - a
  {
    if a < b { CapacityMonotone(a, b - 1); }
  }

  lemma TreeDepthUnique(a: nat, b: nat, chunkCount: nat)
    requires IsTreeDepth(a, chunkCount) && IsTreeDepth(b, chunkCount)
    ensures a == b
  {
    if a < b { CapacityMonotone(a, b - 1); }
    if b < a { CapacityMonotone(b, a - 1); }
  }

  function TreeDepth(chunkCount: nat): (depth: nat)
    ensures IsTreeDepth(depth, chunkCount)
  {
    TreeDepthFrom(chunkCount, 0)
  }

  function TreeDepthFrom(chunkCount: nat, from: nat): (depth: nat)
    requires from > 0 ==> Capacity(from - 1) < chunkCount
    ensures IsTreeDepth(depth, chunkCount)
    decreases chunkCount - Capacity(from)
  {
    if Capacity(from) >= chunkCount then from else TreeDepthFrom(chunkCount, from + 1)
  }

  /** The least depth whose capacity holds all chunks. */
  method CanonicalTreeDepth(chunkCount: nat) returns (depth: nat)
    ensures depth == TreeDepth(chunkCount)
  {
    depth := 0;
    var capacity := 1;
    while capacity < chunkCount
      invariant capacity == Capacity(depth)
      invariant depth > 0 ==> Capacity(depth - 1) < chunkCount
      decreases chunkCount - capacity
    {
      capacity := capacity * FANOUT;
      depth := depth + 1;
    }
    TreeDepthUnique(depth, TreeDepth(chunkCount), chunkCount);
  }

  predicate ProfileBounds(logicalBytes: nat, chunkCount: nat, p: Profile, endsFile: bool) {
    var minimum := ScanStart(p);
    var maximumTotal := chunkCount * p.maximum;
    var minimumTotal := (if endsFile then chunkCount - 1 else chunkCount) * minimum
                        + (if endsFile then 1 else 0);
    && logicalBytes <= U64_MAX && maximumTotal <= U64_MAX && minimumTotal <= U64_MAX
    && minimumTotal <= logicalBytes <= maximumTotal
  }

  // ---------------------------------------------------------------- tree nodes

  function ChildBytes(c: seq<byte>, i: nat): nat
    requires 18 + 16 * i + 16 <= |c|
  {
    Field(c, 18 + 16 * i, 18 + 16 * i + 8)
  }

  function ChildChunks(c: seq<byte>, i: nat): nat
    requires 18 + 16 * i + 16 <= |c|
  {
    Field(c, 18 + 16 * i + 8, 18 + 16 * i + 16)
  }

  predicate TreeHeader(r: Record, shape: Shape) {
    && r.kind == 1 && r.version == 1 && r.objectClass == 1 && r.logicalBytes == 0
    && |r.canonical| >= 18
    && 1 <= Field(r.canonical, 0, 2) <= FANOUT
    && |r.references| == Field(r.canonical, 0, 2)
    && |r.canonical| == 18 + |r.references| * 16
    && Field(r.canonical, 2, 10) == shape.logicalBytes
    && Field(r.canonical, 10, 18) == shape.chunkCount
  }

  function ChildShape(r: Record, shape: Shape, i: nat): Shape
    requires |r.canonical| == 18 + |r.references| * 16 && i < |r.references| && shape.depth > 0
  {
    Shape(ChildBytes(r.canonical, i), ChildChunks(r.canonical, i), shape.depth - 1, shape.profile,
          shape.endsFile && i + 1 == |r.references|)
  }

  predicate ChildOk(r: Record, shape: Shape, i: nat)
    requires |r.canonical| == 18 + |r.references| * 16 && i < |r.references| && shape.depth > 0
  {
    var child := ChildShape(r, shape, i);
    && r.references[i].name == BeBytes(i, 2) && r.references[i].kind == 0
    && child.logicalBytes != 0 && child.chunkCount != 0
    && child.chunkCount <= Capacity(shape.depth - 1)
    && (i + 1 < |r.references| ==> child.chunkCount == Capacity(shape.depth - 1))
    && ProfileBounds(child.logicalBytes, child.chunkCount, shape.profile, child.endsFile)
  }

  function SumBytes(r: Record, i: nat): nat
    requires |r.canonical| == 18 + |r.references| * 16 && i <= |r.references|
    decreases |r.references| - i
  {
    if i == |r.references| then 0 else ChildBytes(r.canonical, i) + SumBytes(r, i + 1)
  }

  function SumChunks(r: Record, i: nat): nat
    requires |r.canonical| == 18 + |r.references| * 16 && i <= |r.references|
    decreases |r.references| - i
  {
    if i == |r.references| then 0 else ChildChunks(r.canonical, i) + SumChunks(r, i + 1)
  }

  /** What decode_tree accepts. */
  predicate TreeNodeOk(r: Record, shape: Shape)
    requires shape.depth > 0
  {
    && TreeHeader(r, shape)
    && ChildrenOk(r, shape, |r.references|)
    && SumBytes(r, 0) == shape.logicalBytes && SumChunks(r, 0) == shape.chunkCount
  }

  predicate ChildrenOk(r: Record, shape: Shape, end: nat)
    requires |r.canonical| == 18 + |r.references| * 16 && end <= |r.references| && shape.depth > 0
  {
    forall i :: 0 <= i < end ==> ChildOk(r, shape, i)
  }

  function TreeChildren(r: Record, shape: Shape): (children: seq<(ObjectId, Shape)>)
    requires |r.canonical| == 18 + |r.references| * 16 && shape.depth > 0
  {
    seq(|r.references|, i requires 0 <= i < |r.references| => (r.references[i].target, ChildShape(r, shape, i)))
  }

  /** A header's totals are two 64-bit fields, and it fixes the size of the table. */
  lemma HeaderFits(r: Record, shape: Shape)
    requires TreeHeader(r, shape)
    ensures shape.logicalBytes <= U64_MAX && shape.chunkCount <= U64_MAX
    ensures |r.canonical| == 18 + |r.references| * 16
  {
    LeBound(r.canonical[2..10]);
    LeBound(r.canonical[10..18]);
    RadixWidths();
  }

  /**
   * The child loop of decode_tree. Its running overflow checks never decide the outcome: the
   * totals only grow and must end up equal to two 64-bit header fields.
   */
  method DecodeTree(r: Record, shape: Shape) returns (children: Result<seq<(ObjectId, Shape)>>)
    requires shape.depth > 0
    ensures children.Accepted? <==> TreeNodeOk(r, shape)
    ensures children.Accepted? ==> children.value == TreeChildren(r, shape)
  {
    hide TreeHeader, ChildOk, ChildBytes, ChildChunks, Field, Capacity;
    if !TreeHeader(r, shape) { return Rejected; }
    HeaderFits(r, shape);
    var result: seq<(ObjectId, Shape)>, totalBytes, totalChunks, index := [], 0, 0, 0;
    while index < |r.references|
      invariant 0 <= index <= |r.references|
      invariant result == TreeChildren(r, shape)[..index]
      invariant ChildrenOk(r, shape, index)
      invariant totalBytes + SumBytes(r, index) == SumBytes(r, 0)
      invariant totalChunks + SumChunks(r, index) == SumChunks(r, 0)
    {
      if !ChildOk(r, shape, index) { return Rejected; }
      var child := ChildShape(r, shape, index);
      totalBytes, totalChunks := totalBytes + child.logicalBytes, totalChunks + child.chunkCount;
      if totalBytes > U64_MAX || totalChunks > U64_MAX { return Rejected; }
      result := result + [(r.references[index].target, child)];
      index := index + 1;
    }
    if totalBytes != shape.logicalBytes || totalChunks != shape.chunkCount { return Rejected; }
    return Accepted(result);
  }

  // ---------------------------------------------------------------- the flat meaning of a tree

  /** The chunks below an object, left to right. */
  function Leaves(objects: Store, id: ObjectId, depth: nat): (leaves: seq<seq<byte>>)
    decreases depth, 0
  {
    if id !in objects then []
    else if depth == 0 then [objects[id].canonical]
    else LeavesFrom(objects, objects[id].references, 0, depth - 1)
  }

  function LeavesFrom(objects: Store, references: seq<Reference>, i: nat, depth: nat): (leaves: seq<seq<byte>>)
    requires i <= |references|
    decreases depth, 1 + |references| - i
  {
    if i == |references| then []
    else Leaves(objects, references[i].target, depth) + LeavesFrom(objects, references, i + 1, depth)
  }

  predicate ChunkOk(r: Record, shape: Shape) {
    && r.kind == 0 && r.version == 1 && r.objectClass == 0 && r.logicalBytes == 0 && r.references == []
    && |r.canonical| == shape.logicalBytes && shape.chunkCount == 1 && shape.depth == 0
    && ProfileBounds(shape.logicalBytes, 1, shape.profile, shape.endsFile)
  }

  /** Every object below `id` is present and has the shape its parent declares. */
  predicate ShapeOk(objects: Store, id: ObjectId, shape: Shape)
    decreases shape.depth
  {
    id in objects &&
    var r := objects[id];
    if r.kind == 0 then ChunkOk(r, shape)
    else
      shape.depth > 0 && TreeNodeOk(r, shape)
      && forall i :: 0 <= i < |r.references| ==> ShapeOk(objects, r.references[i].target, ChildShape(r, shape, i))
  }

  /** A well-shaped subtree holds as many chunks and bytes as its shape declares. */
  lemma {:induction false} ShapeTotals(objects: Store, id: ObjectId, shape: Shape)
    requires ShapeOk(objects, id, shape)
    ensures |Leaves(objects, id, shape.depth)| == shape.chunkCount
    ensures |Concat(Leaves(objects, id, shape.depth))| == shape.logicalBytes
    decreases shape.depth, 0
  {
    hide TreeHeader, ChildOk, ProfileBounds;
    var r := objects[id];
    if r.kind == 0 {
      assert Concat([r.canonical]) == r.canonical + Concat([]) == r.canonical;
    } else {
      assert |r.canonical| == 18 + |r.references| * 16 by { NodeSize(r, shape); }
      ShapeTotalsFrom(objects, id, shape, 0);
    }
  }

  lemma NodeSize(r: Record, shape: Shape)
    requires TreeHeader(r, shape)
    ensures |r.canonical| == 18 + |r.references| * 16 && 1 <= |r.references| <= FANOUT
  {}

  lemma {:induction false} ShapeTotalsFrom(objects: Store, id: ObjectId, shape: Shape, i: nat)
    requires ShapeOk(objects, id, shape) && shape.depth > 0 && objects[id].kind != 0
    requires |objects[id].canonical| == 18 + |objects[id].references| * 16 && i <= |objects[id].references|
    ensures |LeavesFrom(objects, objects[id].references, i, shape.depth - 1)| == SumChunks(objects[id], i)
    ensures |Concat(LeavesFrom(objects, objects[id].references, i, shape.depth - 1))| == SumBytes(objects[id], i)
    decreases shape.depth - 1, 1 + |objects[id].references| - i
  {
    hide TreeNodeOk;
    var r := objects[id];
    if i < |r.references| {
      ShapeTotals(objects, r.references[i].target, ChildShape(r, shape, i));
      ShapeTotalsFrom(objects, id, shape, i + 1);
      ConcatAppend(Leaves(objects, r.references[i].target, shape.depth - 1),
                   LeavesFrom(objects, r.references, i + 1, shape.depth - 1));
    }
  }

  lemma {:induction false} ConcatAppend(a: seq<seq<byte>>, b: seq<seq<byte>>)
    ensures Concat(a + b) == Concat(a) + Concat(b)
  {
    if a == [] {
      assert a + b == b;
    } else {
      assert (a + b)[1..] == a[1..] + b;
      ConcatAppend(a[1..], b);
    }
  }

  /** A well-shaped, non-empty subtree: what content_summary is asked to establish. */
  predicate ContentOk(g: GearTable, objects: Store, id: ObjectId, shape: Shape)
    requires ValidProfile(shape.profile)
  {
    ShapeOk(objects, id, shape) && AllBoundaries(g, shape.profile, Leaves(objects, id, shape.depth))
  }

  /** A summary speaks for a chunk list: its first two bytes, its last chunk and that chunk's object. */
  predicate Summarises(objects: Store, s: Summary, leaves: seq<seq<byte>>) {
    && leaves != [] && s.firstPrefix == Head2(leaves[0])
    && s.lastBytes == leaves[|leaves| - 1]
    && s.lastObject in objects && objects[s.lastObject].canonical == s.lastBytes
  }

  lemma AllBoundariesSlice(g: GearTable, p: Profile, leaves: seq<seq<byte>>, lo: nat, hi: nat)
    requires ValidProfile(p) && lo <= hi <= |leaves| && AllBoundaries(g, p, leaves)
    ensures AllBoundaries(g, p, leaves[lo..hi])
  {
    hide CanonicalBoundary, PowerOfTwo;
    forall i | 0 <= i < |leaves[lo..hi]| - 1 ensures BoundaryAt(g, p, leaves[lo..hi], i) {
      assert BoundaryAt(g, p, leaves, lo + i);
    }
  }

  /** Joining two chunk lists needs exactly one more boundary check. */
  lemma AllBoundariesJoin(g: GearTable, p: Profile, a: seq<seq<byte>>, b: seq<seq<byte>>)
    requires ValidProfile(p) && a != [] && b != []
    ensures AllBoundaries(g, p, a + b) <==>
            AllBoundaries(g, p, a) && AllBoundaries(g, p, b) && CanonicalBoundary(g, p, a[|a| - 1], Head2(b[0]))
  {
    hide CanonicalBoundary, PowerOfTwo;
    var whole := a + b;
    if AllBoundaries(g, p, whole) {
      AllBoundariesSlice(g, p, whole, 0, |a|);
      AllBoundariesSlice(g, p, whole, |a|, |whole|);
      assert whole[0..|a|] == a && whole[|a|..|whole|] == b;
      assert BoundaryAt(g, p, whole, |a| - 1);
    }
    if AllBoundaries(g, p, a) && AllBoundaries(g, p, b) && CanonicalBoundary(g, p, a[|a| - 1], Head2(b[0])) {
      forall i | 0 <= i < |whole| - 1 ensures BoundaryAt(g, p, whole, i) {
        if i < |a| - 1 { assert BoundaryAt(g, p, a, i); }
        if i > |a| - 1 { assert BoundaryAt(g, p, b, i - |a|); }
      }
    }
  }

  /** A failed boundary check between two parts of a chunk list condemns the whole list. */
  lemma JoinFails(g: GearTable, p: Profile, a: seq<seq<byte>>, b: seq<seq<byte>>, rest: seq<seq<byte>>)
    requires ValidProfile(p) && a != [] && b != []
    requires !CanonicalBoundary(g, p, a[|a| - 1], Head2(b[0]))
    ensures !AllBoundaries(g, p, a + b + rest)
  {
    hide CanonicalBoundary, PowerOfTwo;
    assert !BoundaryAt(g, p, a + b + rest, |a| - 1);
  }

  /** Some child of an accepted node starts at some offset of the node's chunk list. */
  lemma {:induction false} ChildLeavesAt(objects: Store, references: seq<Reference>, depth: nat, j: nat, i: nat)
    returns (lo: nat)
    requires j <= i < |references|
    ensures var all := LeavesFrom(objects, references, j, depth);
            var child := Leaves(objects, references[i].target, depth);
            lo + |child| <= |all| && all[lo..lo + |child|] == child
    decreases i - j
  {
    var first := Leaves(objects, references[j].target, depth);
    var all := LeavesFrom(objects, references, j, depth);
    if i == j {
      lo := 0;
    } else {
      var k := ChildLeavesAt(objects, references, depth, j + 1, i);
      lo := |first| + k;
      var tail := LeavesFrom(objects, references, j + 1, depth);
      var n := |Leaves(objects, references[i].target, depth)|;
      assert (first + tail)[|first| + k..|first| + k + n] == tail[k..k + n];
    }
  }

  lemma ContentOkChild(g: GearTable, objects: Store, id: ObjectId, shape: Shape, i: nat)
    requires ValidProfile(shape.profile) && ContentOk(g, objects, id, shape)
    requires objects[id].kind != 0 && i < |objects[id].references|
    ensures |objects[id].canonical| == 18 + |objects[id].references| * 16 && shape.depth > 0
    ensures ContentOk(g, objects, objects[id].references[i].target, ChildShape(objects[id], shape, i))
  {
    hide AllBoundaries, PowerOfTwo, ChildOk;
    var r := objects[id];
    var lo := ChildLeavesAt(objects, r.references, shape.depth - 1, 0, i);
    AllBoundariesSlice(g, shape.profile, Leaves(objects, id, shape.depth), lo,
                       lo + |Leaves(objects, r.references[i].target, shape.depth - 1)|);
  }

  /** The chunks below the first `end` references. */
  function LeavesUpTo(objects: Store, references: seq<Reference>, end: nat, depth: nat): seq<seq<byte>>
    requires end <= |references|
  {
    if end == 0 then []
    else LeavesUpTo(objects, references, end - 1, depth) + Leaves(objects, references[end - 1].target, depth)
  }

  lemma {:induction false} LeavesSplit(objects: Store, references: seq<Reference>, end: nat, depth: nat)
    requires end <= |references|
    ensures LeavesFrom(objects, references, 0, depth)
            == LeavesUpTo(objects, references, end, depth) + LeavesFrom(objects, references, end, depth)
  {
    hide Leaves;
    if end > 0 { LeavesSplit(objects, references, end - 1, depth); }
  }

  ghost predicate Branch(objects: Store, id: ObjectId, shape: Shape) {
    id in objects && objects[id].kind == 1 && shape.depth > 0 && ValidProfile(shape.profile)
    && TreeNodeOk(objects[id], shape)
  }

  /** State of the child loop after `index` children. */
  ghost predicate WalkedTo(g: GearTable, objects: Store, id: ObjectId, shape: Shape, index: nat, last: Option<Summary>)
    requires Branch(objects, id, shape)
  {
    var r := objects[id];
    && index <= |r.references|
    && (forall i :: 0 <= i < index ==> ShapeOk(objects, r.references[i].target, ChildShape(r, shape, i)))
    && var seen := LeavesUpTo(objects, r.references, index, shape.depth - 1);
    && AllBoundaries(g, shape.profile, seen)
    && (index == 0 <==> last.None?)
    && (last.Some? ==> Summarises(objects, last.value, seen))
  }

  /** One more child, with one more boundary check, extends the walked prefix. */
  lemma WalkStep(g: GearTable, objects: Store, id: ObjectId, shape: Shape, index: nat, last: Option<Summary>,
                 child: Summary)
    requires Branch(objects, id, shape) && WalkedTo(g, objects, id, shape, index, last)
    requires index < |objects[id].references|
    requires ContentOk(g, objects, objects[id].references[index].target, ChildShape(objects[id], shape, index))
    requires Summarises(objects, child, Leaves(objects, objects[id].references[index].target, shape.depth - 1))
    requires last.Some? ==> CanonicalBoundary(g, shape.profile, last.value.lastBytes, child.firstPrefix)
    ensures WalkedTo(g, objects, id, shape, index + 1,
                     Some(Summary(if last.Some? then last.value.firstPrefix else child.firstPrefix,
                                  child.lastObject, child.lastBytes)))
  {
    hide TreeNodeOk, CanonicalBoundary, AllBoundaries, PowerOfTwo, ShapeOk, Leaves;
    var r := objects[id];
    var seen := LeavesUpTo(objects, r.references, index, shape.depth - 1);
    var leaves := Leaves(objects, r.references[index].target, shape.depth - 1);
    if last.Some? {
      AllBoundariesJoin(g, shape.profile, seen, leaves);
    } else {
      assert seen + leaves == leaves;
    }
  }

  lemma WalkFails(g: GearTable, objects: Store, id: ObjectId, shape: Shape, index: nat, last: Option<Summary>,
                  child: Summary)
    requires Branch(objects, id, shape) && WalkedTo(g, objects, id, shape, index, last)
    requires index < |objects[id].references| && last.Some?
    requires Summarises(objects, child, Leaves(objects, objects[id].references[index].target, shape.depth - 1))
    requires !CanonicalBoundary(g, shape.profile, last.value.lastBytes, child.firstPrefix)
    ensures !ContentOk(g, objects, id, shape)
  {
    hide TreeNodeOk, CanonicalBoundary, AllBoundaries, PowerOfTwo, ShapeOk, LeavesUpTo;
    var r := objects[id];
    var seen := LeavesUpTo(objects, r.references, index, shape.depth - 1);
    var leaves := Leaves(objects, r.references[index].target, shape.depth - 1);
    var rest := LeavesFrom(objects, r.references, index + 1, shape.depth - 1);
    LeavesSplit(objects, r.references, index, shape.depth - 1);
    assert Leaves(objects, id, shape.depth) == seen + (leaves + rest) == seen + leaves + rest;
    JoinFails(g, shape.profile, seen, leaves, rest);
  }

  lemma WalkDone(g: GearTable, objects: Store, id: ObjectId, shape: Shape, last: Option<Summary>)
    requires Branch(objects, id, shape) && WalkedTo(g, objects, id, shape, |objects[id].references|, last)
    ensures ContentOk(g, objects, id, shape) && last.Some?
    ensures Summarises(objects, last.value, Leaves(objects, id, shape.depth))
  {
    hide CanonicalBoundary, AllBoundaries, PowerOfTwo, LeavesUpTo, ChildrenOk, SumBytes, SumChunks;
    var r := objects[id];
    NodeSize(r, shape);
    WalkedShapes(g, objects, id, shape, last);
    LeavesSplit(objects, r.references, |r.references|, shape.depth - 1);
    assert Leaves(objects, id, shape.depth) == LeavesUpTo(objects, r.references, |r.references|, shape.depth - 1);
  }

  lemma WalkedShapes(g: GearTable, objects: Store, id: ObjectId, shape: Shape, last: Option<Summary>)
    requires Branch(objects, id, shape) && WalkedTo(g, objects, id, shape, |objects[id].references|, last)
    ensures ShapeOk(objects, id, shape)
  {
    hide ChildrenOk, AllBoundaries, PowerOfTwo, LeavesUpTo, SumBytes, SumChunks, Summarises;
    var r := objects[id];
    assert forall i :: 0 <= i < |r.references| ==> ShapeOk(objects, r.references[i].target, ChildShape(r, shape, i));
  }

  lemma WalkStart(g: GearTable, objects: Store, id: ObjectId, shape: Shape, children: seq<(ObjectId, Shape)>)
    requires Branch(objects, id, shape) && children == TreeChildren(objects[id], shape)
    ensures WalkedTo(g, objects, id, shape, 0, None)
    ensures |children| == |objects[id].references| && objects[id].kind == 1 && ValidProfile(shape.profile)
  {}

  lemma WalkedLast(g: GearTable, objects: Store, id: ObjectId, shape: Shape, index: nat, last: Option<Summary>)
    requires Branch(objects, id, shape) && WalkedTo(g, objects, id, shape, index, last) && last.Some?
    ensures last.value.lastObject in objects && objects[last.value.lastObject].canonical == last.value.lastBytes
  {}

  lemma BranchChild(objects: Store, id: ObjectId, shape: Shape, children: seq<(ObjectId, Shape)>, i: nat)
    requires Branch(objects, id, shape) && children == TreeChildren(objects[id], shape) && i < |children|
    ensures i < |objects[id].references| == |children|
    ensures children[i] == (objects[id].references[i].target, ChildShape(objects[id], shape, i))
    ensures children[i].1.depth == shape.depth - 1 && ValidProfile(children[i].1.profile)
  {}

  lemma WrongKind(objects: Store, id: ObjectId, shape: Shape)
    requires id in objects && objects[id].kind != 0 && (objects[id].kind != 1 || shape.depth == 0)
    ensures !ShapeOk(objects, id, shape)
  {}

  // ---------------------------------------------------------------- the memoised walk

  /** The two memo dictionaries of one validate_file call. */
  class SummaryMemo {
    var summaries: map<(ObjectId, Shape), Summary>
    var boundaries: map<(ObjectId, seq<byte>, Profile), bool>

    constructor ()
      ensures summaries == map[] && boundaries == map[]
    {
      summaries, boundaries := map[], map[];
    }

    ghost predicate Sound(g: GearTable, objects: Store)
      reads this
    {
      && (forall key :: key in summaries ==>
            ValidProfile(key.1.profile) && ContentOk(g, objects, key.0, key.1)
            && Summarises(objects, summaries[key], Leaves(objects, key.0, key.1.depth)))
      && (forall key :: key in boundaries ==>
            key.0 in objects && ValidProfile(key.2)
            && boundaries[key] == CanonicalBoundary(g, key.2, objects[key.0].canonical, key.1))
    }

    /** The boundary memo is keyed by object, so it is sound because an object fixes its bytes. */
    method ValidateContentBoundary(g: GearTable, objects: Store, leftObject: ObjectId, left: seq<byte>,
                                   rightPrefix: seq<byte>, p: Profile) returns (valid: bool)
      requires ValidProfile(p) && Sound(g, objects)
      requires leftObject in objects && objects[leftObject].canonical == left
      modifies this`boundaries
      ensures Sound(g, objects)
      ensures valid == CanonicalBoundary(g, p, left, rightPrefix)
    {
      hide CanonicalBoundary, ContentOk, Summarises, PowerOfTwo;
      var key := (leftObject, rightPrefix, p);
      if key in boundaries {
        return boundaries[key];
      }
      valid := CanonicalBoundary(g, p, left, rightPrefix);
      boundaries := boundaries[key := valid];
    }

    /** The child loop of the walk: one boundary check between neighbouring subtrees. */
    method BranchSummary(g: GearTable, objects: Store, id: ObjectId, shape: Shape,
                         children: seq<(ObjectId, Shape)>) returns (r: Result<Summary>)
      requires Branch(objects, id, shape) && Sound(g, objects)
      requires children == TreeChildren(objects[id], shape)
      modifies this
      ensures Sound(g, objects)
      ensures r.Accepted? <==> ContentOk(g, objects, id, shape)
      ensures r.Accepted? ==> Summarises(objects, r.value, Leaves(objects, id, shape.depth))
      decreases shape.depth, 0
    {
      var last: Option<Summary> := None;
      var index := 0;
      hide *;
      WalkStart(g, objects, id, shape, children);
      while index < |children|
        invariant 0 <= index <= |children|
        invariant Sound(g, objects)
        invariant WalkedTo(g, objects, id, shape, index, last)
      {
        BranchChild(objects, id, shape, children, index);
        var (childId, childShape) := children[index];
        var child := ContentSummary(g, objects, childId, childShape);
        if child.Rejected? {
          if ContentOk(g, objects, id, shape) { ContentOkChild(g, objects, id, shape, index); }
          return Rejected;
        }
        if last.Some? {
          WalkedLast(g, objects, id, shape, index, last);
          var valid := ValidateContentBoundary(g, objects, last.value.lastObject, last.value.lastBytes,
                                               child.value.firstPrefix, shape.profile);
          if !valid {
            WalkFails(g, objects, id, shape, index, last, child.value);
            return Rejected;
          }
        }
        WalkStep(g, objects, id, shape, index, last, child.value);
        last := Some(Summary(if last.Some? then last.value.firstPrefix else child.value.firstPrefix,
                             child.value.lastObject, child.value.lastBytes));
        index := index + 1;
      }
      WalkDone(g, objects, id, shape, last);
      return Accepted(last.value);
    }

    /**
     * The memoised walk accepts exactly the well-shaped subtrees whose flat chunk list passes
     * every adjacent boundary check, and its summary speaks for that list.
     */
    method ContentSummary(g: GearTable, objects: Store, id: ObjectId, shape: Shape)
      returns (r: Result<Summary>)
      requires ValidProfile(shape.profile) && Sound(g, objects)
      modifies this
      ensures Sound(g, objects)
      ensures r.Accepted? <==> ContentOk(g, objects, id, shape)
      ensures r.Accepted? ==> Summarises(objects, r.value, Leaves(objects, id, shape.depth))
      decreases shape.depth, 1
    {
      hide CanonicalBoundary, PowerOfTwo, TreeNodeOk, ProfileBounds;
      var key := (id, shape);
      if key in summaries { return Accepted(summaries[key]); }
      if id !in objects { return Rejected; }
      var record := objects[id];
      if record.kind == 0 {
        if !ChunkOk(record, shape) { return Rejected; }
        var summary := Summary(Head2(record.canonical), id, record.canonical);
        summaries := summaries[key := summary];
        return Accepted(summary);
      }
      if record.kind != 1 || shape.depth == 0 {
        WrongKind(objects, id, shape);
        return Rejected;
      }
      var decoded := DecodeTree(record, shape);
      if decoded.Rejected? { return Rejected; }
      r := BranchSummary(g, objects, id, shape, decoded.value);
      if r.Accepted? { summaries := summaries[key := r.value]; }
    }
  }

  // ---------------------------------------------------------------- whole files

  function FileShape(f: FileInfo): Shape {
    Shape(f.logicalBytes, f.chunkCount, TreeDepth(f.chunkCount), f.profile, true)
  }

  function FileLeaves(objects: Store, f: FileInfo): seq<seq<byte>> {
    if f.content.None? then [] else Leaves(objects, f.content.value, TreeDepth(f.chunkCount))
  }

  predicate FinalChunkOk(g: GearTable, p: Profile, leaves: seq<seq<byte>>)
    requires ValidProfile(p)
  {
    |leaves| > 1 ==> Cut(g, p, leaves[|leaves| - 1]) == |leaves[|leaves| - 1]|
  }

  /** What validate_file accepts, in flat terms. */
  predicate FileAccepted(g: GearTable, objects: Store, r: Record) {
    DecodeFile(r).Accepted? &&
    var f := DecodeFile(r).value;
    f.content.None?
    || (ContentOk(g, objects, f.content.value, FileShape(f)) && FinalChunkOk(g, f.profile, FileLeaves(objects, f)))
  }

  method ValidateFile(g: GearTable, objects: Store, r: Record) returns (result: Result<()>)
    ensures result.Accepted? <==> FileAccepted(g, objects, r)
  {
    hide Cut, AllBoundaries, ShapeOk, PowerOfTwo, TreeDepthFrom, Leaves;
    var decoded := DecodeFile(r);
    if decoded.Rejected? { return Rejected; }
    var f := decoded.value;
    if f.content.None? { return Accepted(()); }
    var depth := CanonicalTreeDepth(f.chunkCount);
    var shape := Shape(f.logicalBytes, f.chunkCount, depth, f.profile, true);
    var memo := new SummaryMemo();
    var summary := memo.ContentSummary(g, objects, f.content.value, shape);
    if summary.Rejected? { return Rejected; }
    ShapeTotals(objects, f.content.value, shape);
    if f.chunkCount > 1 {
      var at := CutIndexed(g, summary.value.lastBytes, f.profile);
      if at != |summary.value.lastBytes| { return Rejected; }
    }
    return Accepted(());
  }

  /**
   * A well-shaped File has exactly chunk_count leaves whose lengths sum to logical_bytes, and it is
   * accepted exactly when those leaves are the chunks the chunker cuts from the whole content.
   */
  lemma AcceptedFilesAreChunkings(g: GearTable, objects: Store, r: Record)
    requires DecodeFile(r).Accepted? && DecodeFile(r).value.content.Some?
    requires ShapeOk(objects, DecodeFile(r).value.content.value, FileShape(DecodeFile(r).value))
    ensures var f := DecodeFile(r).value; var leaves := FileLeaves(objects, f);
            && |leaves| == f.chunkCount && |Concat(leaves)| == f.logicalBytes
            && (FileAccepted(g, objects, r) <==> Lengths(leaves) == Chunking(g, f.profile, Concat(leaves)))
  {
    hide Cut, AllBoundaries, ShapeOk, PowerOfTwo, TreeDepthFrom, Leaves, Chunking;
    var f := DecodeFile(r).value;
    ShapeTotals(objects, f.content.value, FileShape(f));
    LocalVerifierExact(g, f.profile, FileLeaves(objects, f));
  }
}
