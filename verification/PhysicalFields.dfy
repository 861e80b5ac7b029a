/**
 * The fields physical records are made of. A cursor is the bytes still to be read; each reader returns a
 * value and the rest, and is exact: it returns (v, rest) if and only if v is valid and the bytes are v's
 * encoding followed by rest.
 */
module PhysicalFields {
  import opened Bytes
  import opened Outcomes
  import opened Objects

  datatype Scheme = Scheme(algorithm: nat, construction: nat, width: nat)
  const LOGICAL: Scheme := Scheme(1, 1, 32)
  const PHYSICAL: Scheme := Scheme(1, 2, 32)

  type Parsed<T> = Result<(T, seq<byte>)>

  // ---------------------------------------------------------------- integers and byte strings

  function Take(s: seq<byte>, n: nat): Parsed<seq<byte>> {
    if n <= |s| then Accepted((s[..n], s[n..])) else Rejected
  }

  function Integer(s: seq<byte>, width: nat): Parsed<nat> {
    if width <= |s| then Accepted((Le(s[..width]), s[width..])) else Rejected
  }

  function ByteString(s: seq<byte>): Parsed<seq<byte>> {
    var (length, rest) :- Integer(s, 8);
    Take(rest, length)
  }

  function StringBytes(v: seq<byte>): seq<byte> {
    LeBytes(|v|, 8) + v
  }

  lemma TakeExact(s: seq<byte>, n: nat, v: seq<byte>, rest: seq<byte>)
    ensures Take(s, n) == Accepted((v, rest)) <==> |v| == n && s == v + rest
  {}

  lemma IntegerExact(s: seq<byte>, width: nat, v: nat, rest: seq<byte>)
    ensures Integer(s, width) == Accepted((v, rest)) <==> v < Radix(width) && s == LeBytes(v, width) + rest
  {
    hide Le, LeBytes, Radix;
    if width <= |s| {
      LeBytesOfLe(s[..width]);
      LeBound(s[..width]);
    }
    if v < Radix(width) {
      LeRoundTrip(v, width);
      assert (LeBytes(v, width) + rest)[..width] == LeBytes(v, width);
    }
  }

  lemma ByteStringExact(s: seq<byte>, v: seq<byte>, rest: seq<byte>)
    ensures ByteString(s) == Accepted((v, rest)) <==> |v| <= U64_MAX && s == StringBytes(v) + rest
  {
    hide LeBytes, Radix, Le;
    RadixWidths();
    IntegerExact(s, 8, |v|, v + rest);
    TakeExact(v + rest, |v|, v, rest);
    assert StringBytes(v) + rest == LeBytes(|v|, 8) + (v + rest);
    var read := Integer(s, 8);
    if read.Accepted? {
      IntegerExact(s, 8, read.value.0, read.value.1);
      TakeExact(read.value.1, read.value.0, v, rest);
    }
  }

  /** The same facts about whatever was read. */
  lemma IntegerReads(s: seq<byte>, width: nat)
    ensures Integer(s, width).Accepted? ==> var (v, rest) := Integer(s, width).value;
                                            v < Radix(width) && s == LeBytes(v, width) + rest
  {
    if Integer(s, width).Accepted? { IntegerExact(s, width, Integer(s, width).value.0, Integer(s, width).value.1); }
  }

  lemma ByteStringReads(s: seq<byte>)
    ensures ByteString(s).Accepted? ==> var (v, rest) := ByteString(s).value;
                                        |v| <= U64_MAX && s == StringBytes(v) + rest
  {
    if ByteString(s).Accepted? { ByteStringExact(s, ByteString(s).value.0, ByteString(s).value.1); }
  }

  // ---------------------------------------------------------------- tagged identities

  function Identity(s: seq<byte>, scheme: Scheme): Parsed<ObjectId> {
    var (algorithm, s) :- Integer(s, 2);
    var (construction, s) :- Integer(s, 2);
    var (length, s) :- Integer(s, 4);
    var _ :- Check(algorithm != 0 && construction != 0 && length != 0);
    var (digest, s) :- Take(s, length);
    var _ :- Check(Scheme(algorithm, construction, length) == scheme);
    Accepted((ObjectId(algorithm, construction, digest), s))
  }

  function IdentityBytes(id: ObjectId): seq<byte> {
    LeBytes(id.algorithm, 2) + (LeBytes(id.construction, 2) + (LeBytes(|id.digest|, 4) + id.digest))
  }

  predicate InScheme(id: ObjectId, scheme: Scheme) {
    id.algorithm == scheme.algorithm && id.construction == scheme.construction && |id.digest| == scheme.width
  }

  predicate Supported(scheme: Scheme) {
    scheme == LOGICAL || scheme == PHYSICAL
  }

  lemma IdentityExact(s: seq<byte>, scheme: Scheme, id: ObjectId, rest: seq<byte>)
    requires Supported(scheme)
    ensures Identity(s, scheme) == Accepted((id, rest)) <==> InScheme(id, scheme) && s == IdentityBytes(id) + rest
  {
    hide LeBytes, Radix, Le, Integer, Take;
    RadixWidths();
    var s3 := id.digest + rest;
    var s2 := LeBytes(|id.digest|, 4) + s3;
    var s1 := LeBytes(id.construction, 2) + s2;
    assert IdentityBytes(id) + rest == LeBytes(id.algorithm, 2) + s1;
    IntegerExact(s, 2, id.algorithm, s1);
    IntegerExact(s1, 2, id.construction, s2);
    IntegerExact(s2, 4, |id.digest|, s3);
    TakeExact(s3, |id.digest|, id.digest, rest);
    if Identity(s, scheme) == Accepted((id, rest)) {
      var (algorithm, r1) := Integer(s, 2).value;
      var (construction, r2) := Integer(r1, 2).value;
      var (length, r3) := Integer(r2, 4).value;
      IntegerExact(s, 2, algorithm, r1);
      IntegerExact(r1, 2, construction, r2);
      IntegerExact(r2, 4, length, r3);
      var taken := Take(r3, length).value;
      TakeExact(r3, length, taken.0, taken.1);
      assert taken.0 == id.digest && taken.1 == rest;
    }
  }

  lemma IdentityReads(s: seq<byte>, scheme: Scheme)
    requires Supported(scheme)
    ensures Identity(s, scheme).Accepted? ==> var (v, rest) := Identity(s, scheme).value;
                                              InScheme(v, scheme) && s == IdentityBytes(v) + rest
  {
    hide Identity, IdentityBytes, InScheme;
    if Identity(s, scheme).Accepted? {
      IdentityExact(s, scheme, Identity(s, scheme).value.0, Identity(s, scheme).value.1);
    }
  }

  function Optional(s: seq<byte>, scheme: Scheme): Parsed<Option<ObjectId>> {
    var (tag, s) :- Integer(s, 1);
    if tag == 0 then Accepted((None, s))
    else
      var _ :- Check(tag == 1);
      var (id, s) :- Identity(s, scheme);
      Accepted((Some(id), s))
  }

  function OptionalBytes(v: Option<ObjectId>): seq<byte> {
    if v.None? then LeBytes(0, 1) else LeBytes(1, 1) + IdentityBytes(v.value)
  }

  predicate OptionalInScheme(v: Option<ObjectId>, scheme: Scheme) {
    v.Some? ==> InScheme(v.value, scheme)
  }

  lemma OptionalExact(s: seq<byte>, scheme: Scheme, v: Option<ObjectId>, rest: seq<byte>)
    requires Supported(scheme)
    ensures Optional(s, scheme) == Accepted((v, rest)) <==> OptionalInScheme(v, scheme) && s == OptionalBytes(v) + rest
  {
    hide LeBytes, Radix, Le, Integer, Identity, IdentityBytes, InScheme;
    RadixWidths();
    if v.None? {
      IntegerExact(s, 1, 0, rest);
    } else {
      var s1 := IdentityBytes(v.value) + rest;
      assert OptionalBytes(v) + rest == LeBytes(1, 1) + s1;
      IntegerExact(s, 1, 1, s1);
      IdentityExact(s1, scheme, v.value, rest);
    }
    if Optional(s, scheme) == Accepted((v, rest)) {
      var (tag, r1) := Integer(s, 1).value;
      IntegerExact(s, 1, tag, r1);
      if v.Some? {
        var read := Identity(r1, scheme).value;
        IdentityExact(r1, scheme, read.0, read.1);
        assert read.0 == v.value && read.1 == rest;
      }
    }
  }

  lemma OptionalReads(s: seq<byte>, scheme: Scheme)
    requires Supported(scheme)
    ensures Optional(s, scheme).Accepted? ==> var (v, rest) := Optional(s, scheme).value;
                                              OptionalInScheme(v, scheme) && s == OptionalBytes(v) + rest
  {
    hide Optional, OptionalBytes, OptionalInScheme;
    if Optional(s, scheme).Accepted? {
      OptionalExact(s, scheme, Optional(s, scheme).value.0, Optional(s, scheme).value.1);
    }
  }

  // ---------------------------------------------------------------- repetition

  /** A reader, its encoder and the values it accepts fit together exactly. */
  ghost predicate IsCodec<T(!new)>(read: seq<byte> -> Parsed<T>, write: T -> seq<byte>, valid: T -> bool) {
    forall s, v, rest :: read(s) == Accepted((v, rest)) <==> valid(v) && s == write(v) + rest
  }

  /** [read(cursor) for _ in range(n)] */
  function Many<T>(read: seq<byte> -> Parsed<T>, s: seq<byte>, n: nat): Parsed<seq<T>>
    decreases n
  {
    if n == 0 then Accepted(([], s))
    else
      var (first, s) :- read(s);
      var (others, s) :- Many(read, s, n - 1);
      Accepted(([first] + others, s))
  }

  function ManyBytes<T>(write: T -> seq<byte>, vs: seq<T>): seq<byte> {
    if vs == [] then [] else write(vs[0]) + ManyBytes(write, vs[1..])
  }

  ghost predicate AllValid<T>(valid: T -> bool, vs: seq<T>) {
    forall i :: 0 <= i < |vs| ==> valid(vs[i])
  }

  lemma {:induction false} ManyExact<T(!new)>(read: seq<byte> -> Parsed<T>, write: T -> seq<byte>, valid: T -> bool,
                                              s: seq<byte>, n: nat, vs: seq<T>, rest: seq<byte>)
    requires IsCodec(read, write, valid)
    ensures Many(read, s, n) == Accepted((vs, rest)) <==>
            |vs| == n && AllValid(valid, vs) && s == ManyBytes(write, vs) + rest
    decreases n
  {
    hide IsCodec;
    if n == 0 {
      assert [] + rest == rest;
    } else {
      if vs != [] {
        var s1 := ManyBytes(write, vs[1..]) + rest;
        assert ManyBytes(write, vs) + rest == write(vs[0]) + s1;
        CodecExact(read, write, valid, s, vs[0], s1);
        ManyExact(read, write, valid, s1, n - 1, vs[1..], rest);
        assert vs == [vs[0]] + vs[1..];
      }
      if Many(read, s, n) == Accepted((vs, rest)) {
        var (first, r1) := read(s).value;
        CodecExact(read, write, valid, s, first, r1);
        ManyExact(read, write, valid, r1, n - 1, vs[1..], rest);
      }
    }
  }

  lemma CodecExact<T(!new)>(read: seq<byte> -> Parsed<T>, write: T -> seq<byte>, valid: T -> bool, s: seq<byte>, v: T,
                            rest: seq<byte>)
    requires IsCodec(read, write, valid)
    ensures read(s) == Accepted((v, rest)) <==> valid(v) && s == write(v) + rest
  {}

  /** A counted list: an 8-byte count and that many items. */
  function Counted<T>(read: seq<byte> -> Parsed<T>, s: seq<byte>): Parsed<seq<T>> {
    var (n, s) :- Integer(s, 8);
    Many(read, s, n)
  }

  function CountedBytes<T>(write: T -> seq<byte>, vs: seq<T>): seq<byte> {
    LeBytes(|vs|, 8) + ManyBytes(write, vs)
  }

  lemma CountedExact<T(!new)>(read: seq<byte> -> Parsed<T>, write: T -> seq<byte>, valid: T -> bool, s: seq<byte>,
                              vs: seq<T>, rest: seq<byte>)
    requires IsCodec(read, write, valid)
    ensures Counted(read, s) == Accepted((vs, rest)) <==>
            |vs| <= U64_MAX && AllValid(valid, vs) && s == CountedBytes(write, vs) + rest
  {
    hide IsCodec, LeBytes, Radix, Integer, Many, ManyBytes, AllValid;
    RadixWidths();
    var s1 := ManyBytes(write, vs) + rest;
    assert CountedBytes(write, vs) + rest == LeBytes(|vs|, 8) + s1;
    IntegerExact(s, 8, |vs|, s1);
    ManyExact(read, write, valid, s1, |vs|, vs, rest);
    var read1 := Integer(s, 8);
    if read1.Accepted? {
      IntegerExact(s, 8, read1.value.0, read1.value.1);
      ManyExact(read, write, valid, read1.value.1, read1.value.0, vs, rest);
    }
  }

  lemma CountedReads<T(!new)>(read: seq<byte> -> Parsed<T>, write: T -> seq<byte>, valid: T -> bool, s: seq<byte>)
    requires IsCodec(read, write, valid)
    ensures Counted(read, s).Accepted? ==> var (vs, rest) := Counted(read, s).value;
                                           |vs| <= U64_MAX && AllValid(valid, vs) && s == CountedBytes(write, vs) + rest
  {
    hide IsCodec, Counted, CountedBytes, AllValid;
    if Counted(read, s).Accepted? {
      CountedExact(read, write, valid, s, Counted(read, s).value.0, Counted(read, s).value.1);
    }
  }

  // ---------------------------------------------------------------- order of encodings

  /** Strictly ascending by encoding: the order test every dependency list must pass. */
  predicate EncodingsAscend<T>(write: T -> seq<byte>, vs: seq<T>) {
    forall i :: 0 < i < |vs| ==> Less(write(vs[i - 1]), write(vs[i]))
  }
}
