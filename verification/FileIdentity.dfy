/**
 * What an object identity says about a File: a verified store holds an accepted File exactly when it holds the built
 * File of its bytes, and equal identities mean equal profiles and bytes unless two hashed inputs collide.
 */
module FileIdentity {
  import opened Bytes
  import opened Outcomes
  import opened Objects
  import opened FastCdc
  import opened ContentTree
  import opened ContentIdentity
  import opened ContentCompleteness

  // ---------------------------------------------------------------- accepted means built

  /** A verified store that holds a well-shaped subtree holds every node of the built one. */
  lemma {:induction false} StoredTreeIsHeld(h: Hash, objects: Store, id: ObjectId, shape: Shape)
    requires Verified(h, objects) && ValidProfile(shape.profile) && ShapeOk(objects, id, shape)
    ensures Holds(h, objects, Leaves(objects, id, shape.depth), shape.depth)
    decreases shape.depth, 0
  {
    hide NodeRecord, Verified, Material, PowerOfTwo;
    NodeIsBuilt(h, objects, id, shape);
    if shape.depth > 0 {
      NodeBelow(objects, id, shape);
      assert |objects[id].references| > 0 by { NodeSize(objects[id], shape); }
      StoredGroupsAreHeld(h, objects, id, shape, 0);
      LeavesOfNode(objects, id, shape.depth);
    }
  }

  lemma {:induction false} StoredGroupsAreHeld(h: Hash, objects: Store, id: ObjectId, shape: Shape, i: nat)
    requires Verified(h, objects) && ValidProfile(shape.profile) && ShapeOk(objects, id, shape)
    requires Branch(objects, id, shape) && i < |objects[id].references|
    ensures HoldsGroups(h, objects, LeavesFrom(objects, objects[id].references, i, shape.depth - 1), shape.depth - 1)
    decreases shape.depth - 1, 1 + |objects[id].references| - i
  {
    hide ShapeOk, TreeNodeOk, Capacity, Leaves, LeavesFrom, NodeRecord, Verified, Material, PowerOfTwo, Holds;
    ChildFacts(objects, id, shape, i);
    ChildGroup(objects, id, shape, i);
    StoredTreeIsHeld(h, objects, objects[id].references[i].target, ChildShape(objects[id], shape, i));
    if i + 1 < |objects[id].references| { StoredGroupsAreHeld(h, objects, id, shape, i + 1); }
  }

  /** The record is the File built from these bytes, its tree is stored, and the tree stays inside 64 bits. */
  ghost predicate HoldsFile(h: Hash, g: GearTable, objects: Store, r: Record, p: Profile, data: seq<byte>) {
    && ValidProfile(p) && |data| <= U64_MAX && r == FileRecord(h, g, p, data)
    && FitsReader(p, |Chunks(g, p, data)|)
    && (data != [] ==> Holds(h, objects, Chunks(g, p, data), TreeDepth(|Chunks(g, p, data)|)))
  }

  /** In a verified store a record is accepted as the File of some bytes exactly when it is the one built from them. */
  lemma AcceptedIffBuilt(h: Hash, g: GearTable, objects: Store, r: Record, p: Profile, data: seq<byte>)
    requires Verified(h, objects)
    ensures FileAccepted(g, objects, r) && DecodeFile(r).value.profile == p && FileBytes(objects, r) == data <==>
            HoldsFile(h, g, objects, r, p, data)
  {
    assert FileAccepted(g, objects, r) ==> DecodeFile(r).Accepted?;
    hide NodeRecord, PowerOfTwo, TreeDepthFrom, Cut, Holds, FileRecord, Chunks, ShapeOk, Leaves, AllBoundaries,
         DecodeFile, Capacity, Verified, FinalChunkOk, ContentOk, FileAccepted, FitsReader, FileBytes;
    if FileAccepted(g, objects, r) && DecodeFile(r).value.profile == p && FileBytes(objects, r) == data {
      AcceptedIsHeld(h, g, objects, r);
    }
    if HoldsFile(h, g, objects, r, p, data) {
      BuiltFilesAreAccepted(h, g, objects, p, data);
      BuiltFileDecodes(h, g, p, data);
    }
  }

  lemma AcceptedIsHeld(h: Hash, g: GearTable, objects: Store, r: Record)
    requires Verified(h, objects) && FileAccepted(g, objects, r)
    ensures DecodeFile(r).Accepted?
    ensures HoldsFile(h, g, objects, r, DecodeFile(r).value.profile, FileBytes(objects, r))
  {
    hide NodeRecord, PowerOfTwo, TreeDepthFrom, Cut, Holds, FileRecord, Chunks, ShapeOk, Leaves, AllBoundaries,
         Capacity, Verified, FinalChunkOk, Field;
    var f := DecodeFile(r).value;
    AcceptedFilesAreCanonical(h, g, objects, r);
    SameLeaves(g, objects, r);
    SizeFits(r);
    if f.content.Some? {
      ShapeTotals(objects, f.content.value, FileShape(f));
      StoredTreeIsHeld(h, objects, f.content.value, FileShape(f));
      if f.chunkCount > 1 { AcceptedTreesFit(objects, f.content.value, FileShape(f)); }
    }
  }

  lemma SizeFits(r: Record)
    requires DecodeFile(r).Accepted?
    ensures DecodeFile(r).value.logicalBytes <= U64_MAX
  {
    hide PowerOfTwo, ValidProfile;
    LeBound(r.canonical[24..32]);
    RadixWidths();
  }

  // ---------------------------------------------------------------- an identity binds its record

  predicate EncodableReference(r: Reference) {
    |r.name| < Radix(16) && r.kind < Radix(1)
    && r.target.algorithm == 1 && r.target.construction == 1 && |r.target.digest| == 32
  }

  /** The fields of a record fit the widths they are hashed with, and its references name construction 1. */
  ghost predicate Encodable(r: Record) {
    && r.kind < Radix(2) && r.version < Radix(2) && r.objectClass < Radix(1) && r.logicalBytes < Radix(8)
    && |r.canonical| < Radix(16) && |r.references| < Radix(16)
    && forall i :: 0 <= i < |r.references| ==> EncodableReference(r.references[i])
  }

  lemma SamePrefix(a: seq<byte>, x: seq<byte>, b: seq<byte>, y: seq<byte>)
    requires a + x == b + y && |a| == |b|
    ensures a == b && x == y
  {
    assert a == (a + x)[..|a|] && b == (b + y)[..|a|];
    assert x == (a + x)[|a|..] && y == (b + y)[|a|..];
  }

  /** A fixed-width number at the front of two equal byte strings is the same number. */
  lemma SameNumber(v: nat, x: seq<byte>, w: nat, y: seq<byte>, n: nat)
    requires LeBytes(v, n) + x == LeBytes(w, n) + y && v < Radix(n) && w < Radix(n)
    ensures v == w && x == y
  {
    hide LeBytes, Radix;
    SamePrefix(LeBytes(v, n), x, LeBytes(w, n), y);
    LeRoundTrip(v, n);
    LeRoundTrip(w, n);
  }

  lemma {:induction false} SameReferences(a: seq<Reference>, b: seq<Reference>)
    requires |a| == |b| && ReferenceMaterial(a) == ReferenceMaterial(b)
    requires forall i :: 0 <= i < |a| ==> EncodableReference(a[i]) && EncodableReference(b[i])
    ensures a == b
    decreases |a|
  {
    hide LeBytes, Radix;
    if a != [] {
      var x, y := a[0], b[0];
      SplitReference(a);
      SplitReference(b);
      var s3, t3 := ReferenceMaterial(a[1..]), ReferenceMaterial(b[1..]);
      var s2, t2 := LeBytes(x.kind, 1) + s3, LeBytes(y.kind, 1) + t3;
      var s1, t1 := x.target.digest + s2, y.target.digest + t2;
      SameNumber(|x.name|, x.name + s1, |y.name|, y.name + t1, 16);
      SamePrefix(x.name, s1, y.name, t1);
      SamePrefix(x.target.digest, s2, y.target.digest, t2);
      SameNumber(x.kind, s3, y.kind, t3, 1);
      SameReferences(a[1..], b[1..]);
      assert a == [x] + a[1..] && b == [y] + b[1..];
    }
  }

  lemma SplitReference(a: seq<Reference>)
    requires a != []
    ensures ReferenceMaterial(a) ==
            LeBytes(|a[0].name|, 16)
            + (a[0].name + (a[0].target.digest + (LeBytes(a[0].kind, 1) + ReferenceMaterial(a[1..]))))
  {
    hide LeBytes;
  }

  /** The hashed bytes of a record determine it. */
  lemma MaterialInjective(a: Record, b: Record)
    requires Encodable(a) && Encodable(b) && Material(a) == Material(b)
    ensures a == b
  {
    hide LeBytes, Radix, ReferenceMaterial;
    SplitMaterial(a);
    SplitMaterial(b);
    var s6, t6 := ReferenceMaterial(a.references), ReferenceMaterial(b.references);
    var s5, t5 := LeBytes(|a.references|, 16) + s6, LeBytes(|b.references|, 16) + t6;
    var s4, t4 := LeBytes(a.objectClass, 1) + s5, LeBytes(b.objectClass, 1) + t5;
    var s3, t3 := LeBytes(a.logicalBytes, 8) + s4, LeBytes(b.logicalBytes, 8) + t4;
    var s2, t2 := LeBytes(|a.canonical|, 16) + (a.canonical + s3), LeBytes(|b.canonical|, 16) + (b.canonical + t3);
    var s1, t1 := LeBytes(a.version, 2) + s2, LeBytes(b.version, 2) + t2;
    SameNumber(a.kind, s1, b.kind, t1, 2);
    SameNumber(a.version, s2, b.version, t2, 2);
    SameNumber(|a.canonical|, a.canonical + s3, |b.canonical|, b.canonical + t3, 16);
    SamePrefix(a.canonical, s3, b.canonical, t3);
    SameNumber(a.logicalBytes, s4, b.logicalBytes, t4, 8);
    SameNumber(a.objectClass, s5, b.objectClass, t5, 1);
    SameNumber(|a.references|, s6, |b.references|, t6, 16);
    SameReferences(a.references, b.references);
  }

  lemma SplitMaterial(r: Record)
    ensures Material(r) ==
            LeBytes(r.kind, 2)
            + (LeBytes(r.version, 2)
               + (LeBytes(|r.canonical|, 16)
                  + (r.canonical
                     + (LeBytes(r.logicalBytes, 8)
                        + (LeBytes(r.objectClass, 1)
                           + (LeBytes(|r.references|, 16) + ReferenceMaterial(r.references)))))))
  {
    hide LeBytes, ReferenceMaterial;
  }

  // ---------------------------------------------------------------- an identity binds a File's bytes

  /** Two different inputs with one hash, each the hashed bytes of a given record or of one in a store. */
  ghost predicate Collision(h: Hash, x: seq<byte>, y: seq<byte>) {
    x != y && h(x) == h(y)
  }

  ghost predicate HashedIn(objects: Store, x: seq<byte>) {
    exists id :: id in objects && x == Material(objects[id])
  }

  lemma WideRadix()
    ensures Radix(16) > U64_MAX && Radix(1) == 256
  {
    RadixWidths();
    assert Radix(12) >= Radix(11) >= Radix(10) >= Radix(9) >= Radix(8);
    assert Radix(16) >= Radix(15) >= Radix(14) >= Radix(13) >= Radix(12);
    assert Radix(9) == 256 * Radix(8);
  }

  lemma TargetInScheme(h: Hash, objects: Store, id: ObjectId)
    requires Verified(h, objects) && id in objects
    ensures id.algorithm == 1 && id.construction == 1 && |id.digest| == 32
  {
    assert id == IdOf(h, objects[id]);
  }

  lemma NodeEncodable(h: Hash, objects: Store, id: ObjectId, shape: Shape)
    requires Verified(h, objects) && ShapeOk(objects, id, shape)
    ensures Encodable(objects[id])
  {
    hide Radix, LeBytes, Material, Verified, SumBytes, SumChunks, Capacity;
    RadixWidths();
    WideRadix();
    var r := objects[id];
    if r.kind != 0 {
      NodeSize(r, shape);
      forall i | 0 <= i < |r.references| ensures EncodableReference(r.references[i]) {
        assert ChildOk(r, shape, i) && ShapeOk(objects, r.references[i].target, ChildShape(r, shape, i));
        TargetInScheme(h, objects, r.references[i].target);
      }
    }
  }

  /** One identity over two verified stores: the same subtree below it, or a collision. */
  lemma {:induction false} TreesBind(h: Hash, objects: Store, objects': Store, id: ObjectId, shape: Shape)
    returns (x: seq<byte>, y: seq<byte>)
    requires Verified(h, objects) && Verified(h, objects') && ValidProfile(shape.profile)
    requires ShapeOk(objects, id, shape) && ShapeOk(objects', id, shape)
    ensures Leaves(objects, id, shape.depth) == Leaves(objects', id, shape.depth)
            || (Collision(h, x, y) && HashedIn(objects, x) && HashedIn(objects', y))
    decreases shape.depth, 0
  {
    hide TreeNodeOk, ChunkOk, Material, Encodable, PowerOfTwo;
    x, y := Material(objects[id]), Material(objects'[id]);
    assert IdOf(h, objects[id]) == id == IdOf(h, objects'[id]);
    if x == y {
      NodeEncodable(h, objects, id, shape);
      NodeEncodable(h, objects', id, shape);
      MaterialInjective(objects[id], objects'[id]);
      if shape.depth > 0 {
        NodeBelow(objects, id, shape);
        NodeBelow(objects', id, shape);
        LeavesOfNode(objects, id, shape.depth);
        LeavesOfNode(objects', id, shape.depth);
        x, y := SubtreesBind(h, objects, objects', id, shape, 0);
      }
    }
  }

  lemma {:induction false} SubtreesBind(h: Hash, objects: Store, objects': Store, id: ObjectId, shape: Shape, i: nat)
    returns (x: seq<byte>, y: seq<byte>)
    requires Verified(h, objects) && Verified(h, objects') && ValidProfile(shape.profile)
    requires ShapeOk(objects, id, shape) && ShapeOk(objects', id, shape) && objects[id] == objects'[id]
    requires Branch(objects, id, shape) && Branch(objects', id, shape) && i <= |objects[id].references|
    ensures LeavesFrom(objects, objects[id].references, i, shape.depth - 1)
            == LeavesFrom(objects', objects[id].references, i, shape.depth - 1)
            || (Collision(h, x, y) && HashedIn(objects, x) && HashedIn(objects', y))
    decreases shape.depth - 1, 1 + |objects[id].references| - i
  {
    hide ShapeOk, TreeNodeOk, Material, PowerOfTwo, Leaves, Collision, HashedIn, Verified;
    x, y := [], [];
    if i < |objects[id].references| {
      ChildFacts(objects, id, shape, i);
      ChildFacts(objects', id, shape, i);
      var target := objects[id].references[i].target;
      x, y := TreesBind(h, objects, objects', target, ChildShape(objects[id], shape, i));
      if Leaves(objects, target, shape.depth - 1) == Leaves(objects', target, shape.depth - 1) {
        x, y := SubtreesBind(h, objects, objects', id, shape, i + 1);
      }
    }
  }

  ghost predicate HashedFor(objects: Store, r: Record, x: seq<byte>) {
    x == Material(r) || HashedIn(objects, x)
  }

  lemma FileEncodable(h: Hash, g: GearTable, objects: Store, r: Record)
    requires Verified(h, objects) && FileAccepted(g, objects, r)
    ensures Encodable(r)
  {
    hide Radix, LeBytes, Material, Verified, PowerOfTwo, ValidProfile, AllBoundaries, FinalChunkOk, Cut;
    RadixWidths();
    WideRadix();
    if r.references != [] { TargetInScheme(h, objects, r.references[0].target); }
  }

  /**
   * Two accepted Files with one identity, in any two verified stores, have the same profile and the same bytes;
   * otherwise two different inputs that were hashed for them have the same hash.
   */
  lemma IdentityBindsBytes(h: Hash, g: GearTable, objects: Store, r: Record, objects': Store, r': Record)
    returns (x: seq<byte>, y: seq<byte>)
    requires Verified(h, objects) && FileAccepted(g, objects, r)
    requires Verified(h, objects') && FileAccepted(g, objects', r') && IdOf(h, r) == IdOf(h, r')
    ensures (DecodeFile(r).value.profile == DecodeFile(r').value.profile
             && FileBytes(objects, r) == FileBytes(objects', r'))
            || (Collision(h, x, y) && HashedFor(objects, r, x) && HashedFor(objects', r', y))
  {
    hide Material, PowerOfTwo, AllBoundaries, ShapeOk, Cut, FinalChunkOk, Verified, Leaves, TreeDepthFrom, Encodable,
         HashedIn;
    x, y := Material(r), Material(r');
    if x == y {
      FileEncodable(h, g, objects, r);
      FileEncodable(h, g, objects', r');
      MaterialInjective(r, r');
      var f := DecodeFile(r).value;
      if f.content.Some? { x, y := TreesBind(h, objects, objects', f.content.value, FileShape(f)); }
    }
  }
}
