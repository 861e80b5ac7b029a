/**
 * Content identity is canonical: an independent builder makes the one tree of objects a byte string
 * has under a profile, and every accepted File is that tree, whatever store it was found in.
 */
module ContentIdentity {
  import opened Bytes
  import opened Outcomes
  import opened Objects
  import opened FastCdc
  import opened ContentTree

  // ---------------------------------------------------------------- the canonical builder

  function ChunkRecord(chunk: seq<byte>): Record {
    Record(0, 1, 0, 0, chunk, [])
  }

  /** The object of a subtree of the given depth over `chunks`. */
  function NodeRecord(h: Hash, chunks: seq<seq<byte>>, depth: nat): Record
    decreases depth, 0
  {
    if depth == 0 then ChunkRecord(if chunks == [] then [] else chunks[0])
    else
      var references := NodeReferences(h, chunks, depth - 1, 0);
      Record(1, 1, 1, 0,
             LeBytes(|references|, 2) + LeBytes(|Concat(chunks)|, 8) + LeBytes(|chunks|, 8)
             + NodeTable(chunks, Capacity(depth - 1)),
             references)
  }

  /** Children are full subtrees, in order, and one possibly smaller last one. */
  function NodeReferences(h: Hash, chunks: seq<seq<byte>>, depth: nat, index: nat): seq<Reference>
    decreases depth, 1 + |chunks|
  {
    var capacity := Capacity(depth);
    var group := if |chunks| <= capacity then chunks else chunks[..capacity];
    var reference := Reference(BeBytes(index, 2), IdOf(h, NodeRecord(h, group, depth)), 0);
    if |chunks| <= capacity then [reference]
    else [reference] + NodeReferences(h, chunks[capacity..], depth, index + 1)
  }

  function TableEntry(chunks: seq<seq<byte>>): (s: seq<byte>)
    ensures |s| == 16
  {
    LeBytes(|Concat(chunks)|, 8) + LeBytes(|chunks|, 8)
  }

  function NodeTable(chunks: seq<seq<byte>>, capacity: nat): seq<byte>
    requires capacity > 0
    decreases |chunks|
  {
    if |chunks| <= capacity then TableEntry(chunks)
    else TableEntry(chunks[..capacity]) + NodeTable(chunks[capacity..], capacity)
  }

  function ProfileBytes(p: Profile): (s: seq<byte>)
    ensures |s| == 24
  {
    LeBytes(p.algorithm, 1) + LeBytes(p.revision, 2) + LeBytes(p.normalization, 1)
    + LeBytes(p.minimum, 4) + LeBytes(p.average, 4) + LeBytes(p.maximum, 4) + LeBytes(p.seed, 8)
  }

  function Split(data: seq<byte>, lengths: seq<nat>): seq<seq<byte>> {
    if lengths == [] || lengths[0] > |data| then []
    else [data[..lengths[0]]] + Split(data[lengths[0]..], lengths[1..])
  }

  /** The chunks of a byte string under a profile. */
  function Chunks(g: GearTable, p: Profile, data: seq<byte>): seq<seq<byte>>
    requires ValidProfile(p)
  {
    Split(data, Chunking(g, p, data))
  }

  /** The File object of a byte string under a profile. */
  function FileRecord(h: Hash, g: GearTable, p: Profile, data: seq<byte>): Record
    requires ValidProfile(p)
  {
    var chunks := Chunks(g, p, data);
    Record(2, 1, 1, 0, ProfileBytes(p) + LeBytes(|data|, 8) + LeBytes(|chunks|, 8),
           if data == [] then []
           else [Reference(CONTENT_LABEL, IdOf(h, NodeRecord(h, chunks, TreeDepth(|chunks|))), 0)])
  }

  // ---------------------------------------------------------------- stored nodes are built nodes

  /** What a stored node says about child i, in terms of that child's chunks. */
  lemma ChildFacts(objects: Store, id: ObjectId, shape: Shape, i: nat)
    requires Branch(objects, id, shape) && ShapeOk(objects, id, shape) && i < |objects[id].references|
    ensures |objects[id].canonical| == 18 + |objects[id].references| * 16
    ensures var r := objects[id]; var mine := Leaves(objects, r.references[i].target, shape.depth - 1);
            && r.references[i].name == BeBytes(i, 2) && r.references[i].kind == 0
            && ShapeOk(objects, r.references[i].target, ChildShape(r, shape, i))
            && ChildBytes(r.canonical, i) == |Concat(mine)| && ChildChunks(r.canonical, i) == |mine|
            && 0 < |mine| <= Capacity(shape.depth - 1)
            && (i + 1 < |r.references| ==> |mine| == Capacity(shape.depth - 1))
  {
    hide PowerOfTwo, ProfileBounds, TreeHeader, SumBytes, SumChunks, Capacity, Field, Leaves;
    var r := objects[id];
    NodeSize(r, shape);
    assert ChildOk(r, shape, i);
    ShapeTotals(objects, r.references[i].target, ChildShape(r, shape, i));
  }

  lemma ChildGroup(objects: Store, id: ObjectId, shape: Shape, i: nat)
    requires Branch(objects, id, shape) && ShapeOk(objects, id, shape) && i < |objects[id].references|
    ensures var r := objects[id];
            var all := LeavesFrom(objects, r.references, i, shape.depth - 1);
            var mine := Leaves(objects, r.references[i].target, shape.depth - 1);
            var rest := LeavesFrom(objects, r.references, i + 1, shape.depth - 1);
            var capacity := Capacity(shape.depth - 1);
            && (i + 1 == |r.references| ==> all == mine && |all| <= capacity)
            && (i + 1 < |r.references| ==> |all| > capacity && all[..capacity] == mine && all[capacity..] == rest)
  {
    hide ShapeOk, TreeNodeOk, Capacity, Leaves;
    var r := objects[id];
    ChildFacts(objects, id, shape, i);
    if i + 1 < |r.references| { ChildFacts(objects, id, shape, i + 1); }
  }

  lemma TableEntryAt(c: seq<byte>, i: nat, chunks: seq<seq<byte>>)
    requires 18 + 16 * i + 16 <= |c|
    requires ChildBytes(c, i) == |Concat(chunks)| && ChildChunks(c, i) == |chunks|
    ensures c[18 + 16 * i..18 + 16 * i + 16] == TableEntry(chunks)
  {
    hide Le, LeBytes, Concat;
    var at := 18 + 16 * i;
    LeBytesOfLe(c[at..at + 8]);
    LeBytesOfLe(c[at + 8..at + 16]);
    assert c[at..at + 16] == c[at..at + 8] + c[at + 8..at + 16];
  }

  /** From child i on, a stored node is the built node. */
  lemma {:induction false} NodeIsBuiltFrom(h: Hash, objects: Store, id: ObjectId, shape: Shape, i: nat)
    requires Verified(h, objects) && Branch(objects, id, shape) && ShapeOk(objects, id, shape)
    requires i < |objects[id].references| && |objects[id].canonical| == 18 + |objects[id].references| * 16
    ensures var r := objects[id]; var all := LeavesFrom(objects, r.references, i, shape.depth - 1);
            && r.references[i..] == NodeReferences(h, all, shape.depth - 1, i)
            && r.canonical[18 + 16 * i..] == NodeTable(all, Capacity(shape.depth - 1))
    decreases shape.depth - 1, 1 + |objects[id].references| - i
  {
    hide ShapeOk, TreeNodeOk, PowerOfTwo, Capacity, Leaves, LeavesFrom, NodeRecord, TableEntry, Verified, BeBytes,
         Material, ChildBytes, ChildChunks, Concat;
    var r := objects[id];
    var d := shape.depth - 1;
    var child := r.references[i];
    ChildFacts(objects, id, shape, i);
    ChildGroup(objects, id, shape, i);
    NodeIsBuilt(h, objects, child.target, ChildShape(r, shape, i));
    TableEntryAt(r.canonical, i, Leaves(objects, child.target, d));
    assert child == Reference(BeBytes(i, 2), IdOf(h, NodeRecord(h, Leaves(objects, child.target, d), d)), 0);
    if i + 1 < |r.references| {
      NodeIsBuiltFrom(h, objects, id, shape, i + 1);
      assert r.references[i..] == [child] + r.references[i + 1..];
      assert r.canonical[18 + 16 * i..] == r.canonical[18 + 16 * i..18 + 16 * i + 16]
             + r.canonical[18 + 16 * (i + 1)..];
    } else {
      assert r.references[i..] == [child];
      assert r.canonical[18 + 16 * i..] == r.canonical[18 + 16 * i..18 + 16 * i + 16];
    }
  }

  lemma NodeHeader(r: Record, shape: Shape)
    requires TreeHeader(r, shape)
    ensures r.canonical == LeBytes(|r.references|, 2) + LeBytes(shape.logicalBytes, 8)
                           + LeBytes(shape.chunkCount, 8) + r.canonical[18..]
  {
    var c := r.canonical;
    LeBytesOfLe(c[0..2]);
    LeBytesOfLe(c[2..10]);
    LeBytesOfLe(c[10..18]);
    assert c == c[0..2] + c[2..10] + c[10..18] + c[18..];
  }

  /** A well-shaped subtree in a verified store is the built one, and so is its identity. */
  lemma {:induction false} NodeIsBuilt(h: Hash, objects: Store, id: ObjectId, shape: Shape)
    requires Verified(h, objects) && ValidProfile(shape.profile) && ShapeOk(objects, id, shape)
    ensures objects[id] == NodeRecord(h, Leaves(objects, id, shape.depth), shape.depth)
    ensures id == IdOf(h, objects[id])
    decreases shape.depth, 0
  {
    var r := objects[id];
    if r.kind != 0 {
      NodeSize(r, shape);
      NodeHeader(r, shape);
      hide TreeHeader, ChildrenOk, Field, PowerOfTwo;
      ShapeTotals(objects, id, shape);
      NodeIsBuiltFrom(h, objects, id, shape, 0);
    }
  }

  // ---------------------------------------------------------------- files

  lemma {:induction false} SplitConcat(chunks: seq<seq<byte>>)
    ensures Split(Concat(chunks), Lengths(chunks)) == chunks
  {
    if chunks != [] {
      var data := Concat(chunks);
      SplitConcat(chunks[1..]);
      assert data[..|chunks[0]|] == chunks[0] && data[|chunks[0]|..] == Concat(chunks[1..]);
      assert Lengths(chunks)[1..] == Lengths(chunks[1..]);
    }
  }

  lemma FileCanonicalBytes(r: Record)
    requires |r.canonical| == 40
    ensures var c := r.canonical;
            c == ProfileBytes(FileProfile(c)) + LeBytes(Field(c, 24, 32), 8) + LeBytes(Field(c, 32, 40), 8)
  {
    var c := r.canonical;
    LeBytesOfLe(c[0..1]);
    LeBytesOfLe(c[1..3]);
    LeBytesOfLe(c[3..4]);
    LeBytesOfLe(c[4..8]);
    LeBytesOfLe(c[8..12]);
    LeBytesOfLe(c[12..16]);
    LeBytesOfLe(c[16..24]);
    LeBytesOfLe(c[24..32]);
    LeBytesOfLe(c[32..40]);
    assert c == c[0..1] + c[1..3] + c[3..4] + c[4..8] + c[8..12] + c[12..16] + c[16..24] + c[24..32] + c[32..40];
  }

  /** The bytes an accepted File stands for. */
  function FileBytes(objects: Store, r: Record): seq<byte> {
    if DecodeFile(r).Accepted? then Concat(FileLeaves(objects, DecodeFile(r).value)) else []
  }

  /** Every accepted File record is the canonical record of its profile and bytes. */
  lemma AcceptedFilesAreCanonical(h: Hash, g: GearTable, objects: Store, r: Record)
    requires Verified(h, objects) && FileAccepted(g, objects, r)
    ensures r == FileRecord(h, g, DecodeFile(r).value.profile, FileBytes(objects, r))
  {
    hide Cut, AllBoundaries, ShapeOk, PowerOfTwo, TreeDepthFrom, Leaves, NodeRecord, ProfileBytes, Field, LeBytes,
         FileProfile, Chunks, FinalChunkOk, IdOf;
    var f := DecodeFile(r).value;
    FileCanonicalBytes(r);
    SameLeaves(g, objects, r);
    if f.content.Some? {
      AcceptedFilesAreChunkings(g, objects, r);
      NodeIsBuilt(h, objects, f.content.value, FileShape(f));
      assert r.references == [Reference(CONTENT_LABEL, f.content.value, 0)];
    }
  }

  /** Both stores hold the same record under this identity, and under every identity below it. */
  ghost predicate SameTree(objects: Store, objects': Store, id: ObjectId, depth: nat)
    decreases depth
  {
    && id in objects && id in objects' && objects[id] == objects'[id]
    && (depth > 0 ==> forall i :: 0 <= i < |objects[id].references| ==>
          SameTree(objects, objects', objects[id].references[i].target, depth - 1))
  }

  /** Equal leaves below two stored copies of one node are equal from every child on. */
  lemma {:induction false} SuffixesAgree(objects: Store, objects': Store, id: ObjectId, shape: Shape, i: nat)
    requires Branch(objects, id, shape) && ShapeOk(objects, id, shape)
    requires Branch(objects', id, shape) && ShapeOk(objects', id, shape) && objects[id] == objects'[id]
    requires Leaves(objects, id, shape.depth) == Leaves(objects', id, shape.depth) && i <= |objects[id].references|
    ensures LeavesFrom(objects, objects[id].references, i, shape.depth - 1) ==
            LeavesFrom(objects', objects[id].references, i, shape.depth - 1)
    decreases i
  {
    hide ShapeOk, Leaves, Concat, ChildBytes, ChildChunks;
    if i == 0 {
      LeavesOfNode(objects, id, shape.depth);
      LeavesOfNode(objects', id, shape.depth);
    } else {
      SuffixesAgree(objects, objects', id, shape, i - 1);
      ChildFacts(objects, id, shape, i - 1);
      ChildFacts(objects', id, shape, i - 1);
      SplitAgrees(objects, objects', objects[id].references, i - 1, shape.depth - 1);
    }
  }

  lemma LeavesOfNode(objects: Store, id: ObjectId, depth: nat)
    requires id in objects && depth > 0
    ensures Leaves(objects, id, depth) == LeavesFrom(objects, objects[id].references, 0, depth - 1)
  {}

  /** Two equal suffixes that begin with equally many leaves of child i agree on child i and behind it. */
  lemma SplitAgrees(objects: Store, objects': Store, references: seq<Reference>, i: nat, depth: nat)
    requires i < |references| && LeavesFrom(objects, references, i, depth) == LeavesFrom(objects', references, i, depth)
    requires |Leaves(objects, references[i].target, depth)| == |Leaves(objects', references[i].target, depth)|
    ensures Leaves(objects, references[i].target, depth) == Leaves(objects', references[i].target, depth)
    ensures LeavesFrom(objects, references, i + 1, depth) == LeavesFrom(objects', references, i + 1, depth)
  {
    hide Leaves;
    var mine, mine' := Leaves(objects, references[i].target, depth), Leaves(objects', references[i].target, depth);
    var rest, rest' := LeavesFrom(objects, references, i + 1, depth), LeavesFrom(objects', references, i + 1, depth);
    assert mine + rest == mine' + rest';
    assert mine == (mine + rest)[..|mine|] && mine' == (mine' + rest')[..|mine|];
    assert rest == (mine + rest)[|mine|..] && rest' == (mine' + rest')[|mine|..];
  }

  /** Equal leaves give equal records and identities at every level, in any two verified stores. */
  lemma {:induction false} TreesAgree(h: Hash, objects: Store, objects': Store, id: ObjectId, shape: Shape)
    requires Verified(h, objects) && Verified(h, objects') && ValidProfile(shape.profile)
    requires ShapeOk(objects, id, shape) && ShapeOk(objects', id, shape)
    requires Leaves(objects, id, shape.depth) == Leaves(objects', id, shape.depth)
    ensures SameTree(objects, objects', id, shape.depth)
    decreases shape.depth
  {
    hide Leaves, TreeNodeOk, ChunkOk, NodeRecord, IdOf, Verified, PowerOfTwo;
    NodeIsBuilt(h, objects, id, shape);
    NodeIsBuilt(h, objects', id, shape);
    var r := objects[id];
    if shape.depth > 0 {
      NodeBelow(objects, id, shape);
      NodeBelow(objects', id, shape);
      forall i | 0 <= i < |r.references| ensures SameTree(objects, objects', r.references[i].target, shape.depth - 1) {
        SuffixesAgree(objects, objects', id, shape, i);
        ChildFacts(objects, id, shape, i);
        ChildFacts(objects', id, shape, i);
        SplitAgrees(objects, objects', r.references, i, shape.depth - 1);
        TreesAgree(h, objects, objects', r.references[i].target, ChildShape(r, shape, i));
      }
    }
  }

  lemma NodeBelow(objects: Store, id: ObjectId, shape: Shape)
    requires ShapeOk(objects, id, shape) && shape.depth > 0 && ValidProfile(shape.profile)
    ensures Branch(objects, id, shape)
  {
    hide PowerOfTwo;
  }

  /**
   * Two accepted Files with the same profile and bytes are the same object, with the same content
   * tree, even when they come from different stores.
   */
  lemma ContentIdentityIsCanonical(h: Hash, g: GearTable, objects: Store, r: Record, objects': Store, r': Record)
    requires Verified(h, objects) && FileAccepted(g, objects, r)
    requires Verified(h, objects') && FileAccepted(g, objects', r')
    requires DecodeFile(r).value.profile == DecodeFile(r').value.profile
    requires FileBytes(objects, r) == FileBytes(objects', r')
    ensures r == r' && IdOf(h, r) == IdOf(h, r')
    ensures FileLeaves(objects, DecodeFile(r).value) == FileLeaves(objects', DecodeFile(r').value)
    ensures var f := DecodeFile(r).value;
            f.content.Some? ==> SameTree(objects, objects', f.content.value, TreeDepth(f.chunkCount))
  {
    hide *;
    AcceptedFilesAreCanonical(h, g, objects, r);
    AcceptedFilesAreCanonical(h, g, objects', r');
    SameLeaves(g, objects, r);
    SameLeaves(g, objects', r');
    if DecodeFile(r).value.content.Some? { ContentAgrees(h, g, objects, objects', r); }
  }

  lemma ContentAgrees(h: Hash, g: GearTable, objects: Store, objects': Store, r: Record)
    requires Verified(h, objects) && Verified(h, objects') && FileAccepted(g, objects, r)
             && FileAccepted(g, objects', r)
    requires DecodeFile(r).value.content.Some?
    requires FileLeaves(objects, DecodeFile(r).value) == FileLeaves(objects', DecodeFile(r).value)
    ensures SameTree(objects, objects', DecodeFile(r).value.content.value, TreeDepth(DecodeFile(r).value.chunkCount))
  {
    hide Cut, AllBoundaries, ShapeOk, PowerOfTwo, TreeDepthFrom, Leaves, FinalChunkOk, Verified, SameTree, Field;
    var f := DecodeFile(r).value;
    TreesAgree(h, objects, objects', f.content.value, FileShape(f));
  }

  lemma SameLeaves(g: GearTable, objects: Store, r: Record)
    requires FileAccepted(g, objects, r)
    ensures DecodeFile(r).Accepted? && ValidProfile(DecodeFile(r).value.profile)
    ensures FileLeaves(objects, DecodeFile(r).value) == Chunks(g, DecodeFile(r).value.profile, FileBytes(objects, r))
  {
    hide Cut, AllBoundaries, ShapeOk, PowerOfTwo, TreeDepthFrom, Leaves, Field;
    var f := DecodeFile(r).value;
    if f.content.Some? {
      AcceptedFilesAreChunkings(g, objects, r);
      SplitConcat(FileLeaves(objects, f));
    }
  }
}
