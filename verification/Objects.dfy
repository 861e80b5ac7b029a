/** Tagged identities, object records and the bytes an object identity is derived from. */
module Objects {
  import opened Bytes

  datatype ObjectId = ObjectId(algorithm: nat, construction: nat, digest: seq<byte>)
  datatype Reference = Reference(name: seq<byte>, target: ObjectId, kind: nat)
  datatype Record = Record(kind: nat, version: nat, objectClass: nat, logicalBytes: nat,
                           canonical: seq<byte>, references: seq<Reference>)

  /** The reader keys objects by the text of their identity, which is injective. */
  type Store = map<ObjectId, Record>

  /** A keyed hash of fixed width; nothing assumes it is free of collisions. */
  type Digest = s: seq<byte> | |s| == 32 witness Zeros(32)
  type Hash = seq<byte> -> Digest

  function ReferenceMaterial(references: seq<Reference>): seq<byte> {
    if references == [] then []
    else
      var r := references[0];
      LeBytes(|r.name|, 16) + r.name + r.target.digest + LeBytes(r.kind, 1)
      + ReferenceMaterial(references[1..])
  }

  /** The hashed bytes of an object. */
  function Material(r: Record): seq<byte> {
    LeBytes(r.kind, 2) + LeBytes(r.version, 2)
    + LeBytes(|r.canonical|, 16) + r.canonical
    + LeBytes(r.logicalBytes, 8) + LeBytes(r.objectClass, 1)
    + LeBytes(|r.references|, 16) + ReferenceMaterial(r.references)
  }

  function IdOf(h: Hash, r: Record): ObjectId {
    ObjectId(1, 1, h(Material(r)))
  }

  /** Every stored object passed decode_object's identity check. */
  ghost predicate Verified(h: Hash, objects: Store) {
    forall id :: id in objects ==> id == IdOf(h, objects[id])
  }
}
