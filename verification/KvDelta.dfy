/**
 * Delta chains over a checkpoint. Every accepted delta is the canonical difference of the dictionaries
 * before and after it: its mutation list is the sorted list of exactly the keys whose value changes.
 */
module KvDelta {
  import opened Bytes
  import opened Outcomes
  import opened Objects
  import opened KvValues

  datatype Mutation = Mutation(key: Key, value: Option<Value>)
  datatype Delta = Delta(previous: Option<ObjectId>, depth: nat, deltaBytes: nat, declared: Totals,
                         mutations: seq<Mutation>)

  // ---------------------------------------------------------------- replay

  function ApplyOne(entries: Entries, m: Mutation): Entries {
    match m.value
    case None => Remove(entries, m.key)
    case Some(value) => Put(entries, m.key, value)
  }

  function ApplyAll(entries: Entries, mutations: seq<Mutation>): Entries
    decreases |mutations|
  {
    if mutations == [] then entries
    else ApplyOne(ApplyAll(entries, mutations[..|mutations| - 1]), mutations[|mutations| - 1])
  }

  /** No mutation leaves the dictionary as it finds it. */
  ghost predicate NoOpFree(entries: Entries, mutations: seq<Mutation>) {
    forall i :: 0 <= i < |mutations| ==>
      Lookup(ApplyAll(entries, mutations[..i]), mutations[i].key) != mutations[i].value
  }

  ghost predicate Sorted(mutations: seq<Mutation>) {
    forall i, j :: 0 <= i < j < |mutations| ==> Less(mutations[i].key, mutations[j].key)
  }

  function PayloadBytes(mutations: seq<Mutation>): nat {
    if mutations == [] then 0
    else
      var m := mutations[|mutations| - 1];
      PayloadBytes(mutations[..|mutations| - 1]) + |m.key| + (if m.value.None? then 0 else |m.value.value|)
  }

  /** Two dictionaries differ under exactly the mutated keys, and the mutations carry the new values, in key order. */
  ghost predicate IsDiff(before: Entries, after: Entries, mutations: seq<Mutation>) {
    && Sorted(mutations)
    && (forall i :: 0 <= i < |mutations| ==>
          Lookup(after, mutations[i].key) == mutations[i].value
          && Lookup(before, mutations[i].key) != mutations[i].value)
    && (forall key :: Lookup(before, key) != Lookup(after, key) ==>
          exists i :: 0 <= i < |mutations| && mutations[i].key == key)
  }

  lemma LookupOne(entries: Entries, m: Mutation, key: Key)
    requires Distinct(entries)
    ensures Distinct(ApplyOne(entries, m))
    ensures Lookup(ApplyOne(entries, m), key) == if key == m.key then m.value else Lookup(entries, key)
  {
    hide Put, Remove, Lookup, Distinct;
    match m.value {
      case None =>
        LookupRemove(entries, m.key, key);
        RemoveKeys(entries, m.key);
      case Some(value) =>
        LookupPut(entries, m.key, value, key);
        PutKeys(entries, m.key, value);
    }
  }

  /** Sorted mutations touch each key once, so each key ends with its own mutation's value or unchanged. */
  lemma {:induction false} LookupAll(entries: Entries, mutations: seq<Mutation>, key: Key)
    requires Distinct(entries) && Sorted(mutations)
    ensures Distinct(ApplyAll(entries, mutations))
    ensures (forall i :: 0 <= i < |mutations| ==> mutations[i].key != key) ==>
              Lookup(ApplyAll(entries, mutations), key) == Lookup(entries, key)
    ensures forall i :: 0 <= i < |mutations| && mutations[i].key == key ==>
              Lookup(ApplyAll(entries, mutations), key) == mutations[i].value
    decreases |mutations|
  {
    hide Distinct, Lookup, ApplyOne;
    if mutations != [] {
      var last := |mutations| - 1;
      LookupAll(entries, mutations[..last], key);
      LookupOne(ApplyAll(entries, mutations[..last]), mutations[last], key);
      forall i | 0 <= i < last ensures mutations[i].key != mutations[last].key { LessIrreflexive(mutations[i].key); }
    }
  }

  /** A sorted list without no-ops is the difference of the two dictionaries, and only that. */
  lemma DeltaIsDiff(entries: Entries, mutations: seq<Mutation>)
    requires Distinct(entries) && Sorted(mutations)
    ensures NoOpFree(entries, mutations) <==> IsDiff(entries, ApplyAll(entries, mutations), mutations)
  {
    hide Distinct, Lookup, ApplyAll;
    forall i | 0 <= i < |mutations|
      ensures Lookup(ApplyAll(entries, mutations), mutations[i].key) == mutations[i].value
      ensures Lookup(ApplyAll(entries, mutations[..i]), mutations[i].key) == Lookup(entries, mutations[i].key)
    {
      LookupAll(entries, mutations, mutations[i].key);
      LookupAll(entries, mutations[..i], mutations[i].key);
      forall j | 0 <= j < i ensures mutations[..i][j].key != mutations[i].key { LessIrreflexive(mutations[i].key); }
    }
    forall key | Lookup(entries, key) != Lookup(ApplyAll(entries, mutations), key)
      ensures exists i :: 0 <= i < |mutations| && mutations[i].key == key
    {
      LookupAll(entries, mutations, key);
    }
  }

  /** Two dictionaries have at most one difference: equal contents before and after give the same mutation list. */
  lemma {:induction false} DiffIsUnique(before: Entries, after: Entries, a: seq<Mutation>, b: seq<Mutation>, k: nat)
    requires IsDiff(before, after, a) && IsDiff(before, after, b) && k <= |a|
    ensures k <= |b| && a[..k] == b[..k]
    decreases k
  {
    hide Lookup;
    if k > 0 {
      DiffIsUnique(before, after, a, b, k - 1);
      var i := MutationAt(before, after, a, b, k - 1);
      if i < k - 1 { assert a[..k - 1][i] == b[..k - 1][i]; LessIrreflexive(a[i].key); }
      if i > k - 1 {
        var j := MutationAt(before, after, b, a, k - 1);
        if j < k - 1 { assert a[..k - 1][j] == b[..k - 1][j]; LessIrreflexive(b[j].key); }
        if j > k - 1 { LessTransitive(a[k - 1].key, a[j].key, b[i].key); LessIrreflexive(a[k - 1].key); }
        LessIrreflexive(a[k - 1].key);
      }
      assert a[..k] == a[..k - 1] + [a[k - 1]] && b[..k] == b[..k - 1] + [b[k - 1]];
    }
  }

  /** Every mutation of one difference occurs in the other. */
  lemma MutationAt(before: Entries, after: Entries, a: seq<Mutation>, b: seq<Mutation>, k: nat) returns (i: nat)
    requires IsDiff(before, after, a) && IsDiff(before, after, b) && k < |a|
    ensures i < |b| && b[i] == a[k]
  {
    hide Lookup;
    assert Lookup(before, a[k].key) != Lookup(after, a[k].key);
    i :| 0 <= i < |b| && b[i].key == a[k].key;
  }

  lemma DeltasAreUnique(before: Entries, after: Entries, a: seq<Mutation>, b: seq<Mutation>)
    requires IsDiff(before, after, a) && IsDiff(before, after, b)
    ensures a == b
  {
    hide IsDiff;
    DiffIsUnique(before, after, a, b, |a|);
    DiffIsUnique(before, after, b, a, |b|);
    assert a[..|a|] == a && b[..|b|] == b;
  }

  // ---------------------------------------------------------------- the byte parse

  function MutationLabel(index: nat): seq<byte> {
    Ascii("value/") + BeBytes(index, 4)
  }

  function OperationBytes(value: Option<Value>): seq<byte> {
    match value
    case None => [0]
    case Some(v) => if |v| <= INLINE_MAX then [1] + (LeBytes(|v|, 8) + v) else [2] + LeBytes(|v|, 8)
  }

  function MutationBytes(m: Mutation): seq<byte> {
    KeyBytes(m.key) + OperationBytes(m.value)
  }

  /** A length and that many bytes, at most the inline limit. */
  function ReadInlineValue(data: seq<byte>, offset: nat): Result<(Value, nat)> {
    var length :- ReadInteger(data, offset, 8);
    var _ :- Check(length <= INLINE_MAX);
    var _ :- Check(offset + 8 + length <= |data|);
    Accepted((data[offset + 8..offset + 8 + length], offset + 8 + length))
  }

  lemma ReadInlineValueExact(data: seq<byte>, offset: nat, v: Value, next: nat)
    ensures ReadInlineValue(data, offset) == Accepted((v, next)) <==>
            |v| <= INLINE_MAX && OccursAt(data, LeBytes(|v|, 8) + v, offset) && next == offset + 8 + |v|
  {
    hide LeBytes, Radix, ReadInteger;
    RadixWidths();
    ReadIntegerExact(data, offset, 8, |v|);
    OccursJoin(data, LeBytes(|v|, 8), v, offset);
  }

  function ReadOperation(reader: Reader, r: Record, offset: nat, index: nat): Result<(Option<Value>, nat)> {
    var operation :- ReadInteger(r.canonical, offset, 1);
    if operation == 0 then Accepted((None, offset + 1))
    else if operation == 1 then
      var (value, next) :- ReadInlineValue(r.canonical, offset + 1);
      Accepted((Some(value), next))
    else
      var _ :- Check(operation == 2);
      var length :- ReadInteger(r.canonical, offset + 1, 8);
      var reference :- ExactReference(r, MutationLabel(index), 0, true);
      var _ :- Check(reference.Some? && length > INLINE_MAX);
      IntegerFits(r.canonical, offset + 1, length);
      var value :- ValueOf(reader, reference.value, length, 4);
      Accepted((Some(value), offset + 9))
  }

  ghost predicate OperationHolds(reader: Reader, r: Record, value: Option<Value>, index: nat) {
    value.Some? ==>
      && |value.value| <= U64_MAX
      && (|value.value| > INLINE_MAX ==>
            var reference := ExactReference(r, MutationLabel(index), 0, true);
            && reference.Accepted? && reference.value.Some?
            && ValueOf(reader, reference.value.value, |value.value|, 4) == Accepted(value.value))
  }

  lemma ReadRemoval(reader: Reader, r: Record, offset: nat, index: nat)
    ensures var operation := ReadOperation(reader, r, offset, index);
            operation.Accepted? && operation.value.0.None? <==> OccursAt(r.canonical, [0], offset)
    ensures OccursAt(r.canonical, [0], offset) ==>
              ReadOperation(reader, r, offset, index) == Accepted((None, offset + 1))
  {
    hide ValueOf, ExactReference, MutationLabel, Le, ReadInlineValue;
    ReadByte(r.canonical, offset);
  }

  lemma ByteOccurs(data: seq<byte>, b: byte, at: nat)
    ensures OccursAt(data, [b], at) <==> at < |data| && data[at] == b
  {}

  lemma ReadInline(reader: Reader, r: Record, offset: nat, index: nat, v: Value, next: nat)
    requires |v| <= INLINE_MAX
    ensures ReadOperation(reader, r, offset, index) == Accepted((Some(v), next)) <==>
            OccursAt(r.canonical, [1] + (LeBytes(|v|, 8) + v), offset) && next == offset + 9 + |v|
  {
    hide ValueOf, LeBytes, ExactReference, MutationLabel, ReadInteger, ReadInlineValue, OccursAt;
    var data := r.canonical;
    ReadByte(data, offset);
    ByteOccurs(data, 1, offset);
    ReadInlineValueExact(data, offset + 1, v, next);
    OccursJoin(data, [1], LeBytes(|v|, 8) + v, offset);
    var read := ReadInlineValue(data, offset + 1);
    if read.Accepted? { ReadInlineValueExact(data, offset + 1, read.value.0, read.value.1); }
  }

  lemma ReadSpilled(reader: Reader, r: Record, offset: nat, index: nat, v: Value, next: nat)
    requires |v| > INLINE_MAX
    ensures ReadOperation(reader, r, offset, index) == Accepted((Some(v), next)) <==>
            && OperationHolds(reader, r, Some(v), index)
            && OccursAt(r.canonical, [2] + LeBytes(|v|, 8), offset) && next == offset + 9
  {
    hide ValueOf, LeBytes, Le, ExactReference, MutationLabel, Radix, ReadInteger, ReadInlineValue, OccursAt;
    var data := r.canonical;
    ReadByte(data, offset);
    ByteOccurs(data, 2, offset);
    RadixWidths();
    ReadIntegerExact(data, offset + 1, 8, |v|);
    OccursJoin(data, [2], LeBytes(|v|, 8), offset);
    var read := ReadInlineValue(data, offset + 1);
    if read.Accepted? { ReadInlineValueExact(data, offset + 1, read.value.0, read.value.1); }
  }

  lemma ReadOperationExact(reader: Reader, r: Record, offset: nat, value: Option<Value>, index: nat, next: nat)
    ensures ReadOperation(reader, r, offset, index) == Accepted((value, next)) <==>
            && OperationHolds(reader, r, value, index) && OccursAt(r.canonical, OperationBytes(value), offset)
            && next == offset + |OperationBytes(value)|
  {
    hide ReadOperation, OccursAt, LeBytes, ValueOf, ExactReference, MutationLabel, OperationHolds;
    if value.None? {
      ReadRemoval(reader, r, offset, index);
      RemovalHolds(reader, r, index);
      assert OperationBytes(value) == [0] by { RemovalBytes(); }
    } else if |value.value| <= INLINE_MAX {
      ReadInline(reader, r, offset, index, value.value, next);
      InlineHolds(reader, r, value.value, index);
    } else {
      ReadSpilled(reader, r, offset, index, value.value, next);
    }
  }

  lemma RemovalBytes()
    ensures OperationBytes(None) == [0]
  {}

  lemma RemovalHolds(reader: Reader, r: Record, index: nat)
    ensures OperationHolds(reader, r, None, index)
  {}

  lemma InlineHolds(reader: Reader, r: Record, v: Value, index: nat)
    requires |v| <= INLINE_MAX
    ensures OperationHolds(reader, r, Some(v), index)
  {}

  function ReadMutation(reader: Reader, r: Record, offset: nat, index: nat): Result<(Mutation, nat)> {
    var (key, afterKey) :- ReadKey(r.canonical, offset);
    var _ :- Check(CompositeKey(reader, key));
    var (value, next) :- ReadOperation(reader, r, afterKey, index);
    Accepted((Mutation(key, value), next))
  }

  ghost predicate MutationHolds(reader: Reader, r: Record, m: Mutation, offset: nat, index: nat) {
    && |m.key| < Radix(4) && CompositeKey(reader, m.key) && OperationHolds(reader, r, m.value, index)
    && OccursAt(r.canonical, MutationBytes(m), offset)
  }

  lemma ReadMutationExact(reader: Reader, r: Record, m: Mutation, offset: nat, index: nat, next: nat)
    ensures ReadMutation(reader, r, offset, index) == Accepted((m, next)) <==>
            MutationHolds(reader, r, m, offset, index) && next == offset + |MutationBytes(m)|
  {
    hide ReadKey, CompositeKey, ReadOperation, OperationHolds, Radix, OccursAt, KeyBytes, OperationBytes;
    var afterKey := offset + |KeyBytes(m.key)|;
    ReadKeyExact(r.canonical, offset, m.key, afterKey);
    ReadOperationExact(reader, r, afterKey, m.value, index, next);
    OccursJoin(r.canonical, KeyBytes(m.key), OperationBytes(m.value), offset);
    if ReadMutation(reader, r, offset, index) == Accepted((m, next)) {
      var read := ReadKey(r.canonical, offset).value;
      ReadKeyExact(r.canonical, offset, read.0, read.1);
      assert read == (m.key, afterKey);
      var operation := ReadOperation(reader, r, afterKey, index);
      assert operation.Accepted? && operation.value.0 == m.value && operation.value.1 == next;
      assert operation == Accepted((m.value, next));
    }
  }

  ghost predicate MutationsHold(reader: Reader, r: Record, mutations: seq<Mutation>, index: nat, offset: nat)
    decreases |mutations|
  {
    if mutations == [] then offset == |r.canonical|
    else MutationHolds(reader, r, mutations[0], offset, index)
         && MutationsHold(reader, r, mutations[1..], index + 1, offset + |MutationBytes(mutations[0])|)
  }

  function ReadMutations(reader: Reader, r: Record, index: nat, count: nat, offset: nat): Result<seq<Mutation>>
    requires index <= count
    decreases count - index
  {
    if index == count then
      if offset == |r.canonical| then Accepted([]) else Rejected
    else
      var (mutation, next) :- ReadMutation(reader, r, offset, index);
      Prepend([mutation], ReadMutations(reader, r, index + 1, count, next))
  }

  lemma {:induction false} ReadMutationsExact(reader: Reader, r: Record, mutations: seq<Mutation>, index: nat,
                                              count: nat, offset: nat)
    requires index <= count
    ensures ReadMutations(reader, r, index, count, offset) == Accepted(mutations) <==>
            |mutations| == count - index && MutationsHold(reader, r, mutations, index, offset)
    decreases count - index
  {
    hide ReadMutation, MutationHolds, MutationBytes;
    if index < count && mutations != [] {
      var next := offset + |MutationBytes(mutations[0])|;
      ReadMutationExact(reader, r, mutations[0], offset, index, next);
      ReadMutationsExact(reader, r, mutations[1..], index + 1, count, next);
      assert mutations == [mutations[0]] + mutations[1..];
      var read := ReadMutation(reader, r, offset, index);
      if read.Accepted? { ReadMutationExact(reader, r, read.value.0, offset, index, read.value.1); }
    }
  }

  // ---------------------------------------------------------------- whole deltas

  const DELTA_HEADER_SIZE: nat := 37

  function DeltaHeader(d: Delta): (s: seq<byte>)
    ensures |s| == DELTA_HEADER_SIZE
  {
    [1] + (LeBytes(d.depth, 8) + (LeBytes(d.deltaBytes, 8) + (LeBytes(d.declared.count, 8)
    + (LeBytes(d.declared.quota, 8) + LeBytes(|d.mutations|, 4)))))
  }

  function SpilledCount(mutations: seq<Mutation>): nat {
    if mutations == [] then 0
    else
      var value := mutations[|mutations| - 1].value;
      SpilledCount(mutations[..|mutations| - 1]) + (if value.Some? && |value.value| > INLINE_MAX then 1 else 0)
  }

  /** The record is exactly this delta. */
  ghost predicate DeltaHolds(reader: Reader, r: Record, d: Delta) {
    && HeaderFits(d) && OccursAt(r.canonical, DeltaHeader(d), 0) && d.declared.logical == r.logicalBytes
    && d.depth > 0 && d.mutations != []
    && ExactReference(r, PREVIOUS_LABEL, 0, false) == Accepted(d.previous)
    && MutationsHold(reader, r, d.mutations, 0, DELTA_HEADER_SIZE) && Sorted(d.mutations)
    && |r.references| == (if d.previous.Some? then 1 else 0) + SpilledCount(d.mutations)
    && PayloadBytes(d.mutations) <= d.deltaBytes
  }

  const PREVIOUS_LABEL: seq<byte> := Ascii("previous")

  predicate HeaderFits(d: Delta) {
    d.depth <= U64_MAX && d.deltaBytes <= U64_MAX && d.declared.count <= U64_MAX && d.declared.quota <= U64_MAX
    && |d.mutations| < 0x1_0000_0000
  }

  datatype Header = Header(depth: nat, deltaBytes: nat, count: nat, quota: nat, mutations: nat)

  function ReadHeader(data: seq<byte>): Result<Header> {
    var tag :- ReadInteger(data, 0, 1);
    var _ :- Check(tag == 1);
    var depth :- ReadInteger(data, 1, 8);
    var deltaBytes :- ReadInteger(data, 9, 8);
    var count :- ReadInteger(data, 17, 8);
    var quota :- ReadInteger(data, 25, 8);
    var mutations :- ReadInteger(data, 33, 4);
    Accepted(Header(depth, deltaBytes, count, quota, mutations))
  }

  lemma ReadHeaderExact(data: seq<byte>, d: Delta)
    ensures ReadHeader(data) ==
            Accepted(Header(d.depth, d.deltaBytes, d.declared.count, d.declared.quota, |d.mutations|)) <==>
            HeaderFits(d) && OccursAt(data, DeltaHeader(d), 0)
  {
    hide LeBytes, Radix, OccursAt, ReadInteger;
    RadixWidths();
    var depth, deltaBytes, count, quota, n := LeBytes(d.depth, 8), LeBytes(d.deltaBytes, 8),
        LeBytes(d.declared.count, 8), LeBytes(d.declared.quota, 8), LeBytes(|d.mutations|, 4);
    ReadTagExact(data, 1);
    ReadIntegerExact(data, 1, 8, d.depth);
    ReadIntegerExact(data, 9, 8, d.deltaBytes);
    ReadIntegerExact(data, 17, 8, d.declared.count);
    ReadIntegerExact(data, 25, 8, d.declared.quota);
    ReadIntegerExact(data, 33, 4, |d.mutations|);
    OccursJoin(data, [1], depth + (deltaBytes + (count + (quota + n))), 0);
    OccursJoin(data, depth, deltaBytes + (count + (quota + n)), 1);
    OccursJoin(data, deltaBytes, count + (quota + n), 9);
    OccursJoin(data, count, quota + n, 17);
    OccursJoin(data, quota, n, 25);
  }

  /** A leading tag byte. */
  lemma ReadTagExact(data: seq<byte>, tag: byte)
    ensures ReadInteger(data, 0, 1) == Accepted(tag) <==> OccursAt(data, [tag], 0)
  {
    ReadByte(data, 0);
  }

  lemma DeltaExact(reader: Reader, r: Record)
    ensures forall d :: DeltaHolds(reader, r, d) <==>
              && ReadHeader(r.canonical) ==
                 Accepted(Header(d.depth, d.deltaBytes, d.declared.count, d.declared.quota, |d.mutations|))
              && d.declared.logical == r.logicalBytes && d.depth > 0 && d.mutations != []
              && ExactReference(r, PREVIOUS_LABEL, 0, false) == Accepted(d.previous)
              && ReadMutations(reader, r, 0, |d.mutations|, DELTA_HEADER_SIZE) == Accepted(d.mutations)
              && Sorted(d.mutations)
              && |r.references| == (if d.previous.Some? then 1 else 0) + SpilledCount(d.mutations)
              && PayloadBytes(d.mutations) <= d.deltaBytes
  {
    hide ReadHeader, ReadMutations, MutationsHold, Sorted, SpilledCount, PayloadBytes, OccursAt, DeltaHeader,
         HeaderFits, ExactReference;
    forall d: Delta
      ensures ReadHeader(r.canonical) ==
              Accepted(Header(d.depth, d.deltaBytes, d.declared.count, d.declared.quota, |d.mutations|))
              <==> HeaderFits(d) && OccursAt(r.canonical, DeltaHeader(d), 0)
      ensures ReadMutations(reader, r, 0, |d.mutations|, DELTA_HEADER_SIZE) == Accepted(d.mutations) <==>
              MutationsHold(reader, r, d.mutations, 0, DELTA_HEADER_SIZE)
    {
      ReadHeaderExact(r.canonical, d);
      ReadMutationsExact(reader, r, d.mutations, 0, |d.mutations|, DELTA_HEADER_SIZE);
    }
  }

  lemma SortedGrows(mutations: seq<Mutation>, m: Mutation)
    requires Sorted(mutations)
    ensures Sorted(mutations + [m]) <==> mutations == [] || Less(mutations[|mutations| - 1].key, m.key)
  {
    var grown := mutations + [m];
    if mutations != [] {
      var last := |mutations| - 1;
      assert grown[last] == mutations[last] && grown[|mutations|] == m;
      if Less(mutations[last].key, m.key) {
        forall i, j | 0 <= i < j < |grown| ensures Less(grown[i].key, grown[j].key) {
          if j == |mutations| && i < last { LessTransitive(mutations[i].key, mutations[last].key, m.key); }
        }
      }
    }
  }

  lemma SortedPrefix(mutations: seq<Mutation>, rest: seq<Mutation>)
    requires Sorted(mutations + rest)
    ensures Sorted(mutations)
  {
    forall i, j | 0 <= i < j < |mutations| ensures Less(mutations[i].key, mutations[j].key) {
      assert (mutations + rest)[i] == mutations[i] && (mutations + rest)[j] == mutations[j];
    }
  }

  lemma MutationsNext(reader: Reader, r: Record, read: seq<Mutation>, count: nat, offset: nat)
    requires |read| < count
    ensures var next := ReadMutation(reader, r, offset, |read|);
            Prepend(read, ReadMutations(reader, r, |read|, count, offset)) ==
            if next.Accepted?
            then Prepend(read + [next.value.0], ReadMutations(reader, r, |read| + 1, count, next.value.1)) else Rejected
  {
    hide ReadMutation, Prepend;
    var next := ReadMutation(reader, r, offset, |read|);
    if next.Accepted? { PrependOne(read, next.value.0, ReadMutations(reader, r, |read| + 1, count, next.value.1)); }
    else { PrependRejected(read); }
  }

  lemma PrependRejected(read: seq<Mutation>)
    ensures Prepend(read, Rejected) == Rejected
  {}

  /** An out-of-order key rules out every delta. */
  lemma Unsorted(mutations: seq<Mutation>, rest: Result<seq<Mutation>>, whole: Result<seq<Mutation>>)
    requires whole == Prepend(mutations, rest) && !Sorted(mutations)
    ensures forall s :: whole == Accepted(s) ==> !Sorted(s)
  {
    hide Sorted;
    if rest.Accepted? && Sorted(mutations + rest.value) { SortedPrefix(mutations, rest.value); }
  }

  lemma CountsGrow(mutations: seq<Mutation>, m: Mutation)
    ensures PayloadBytes(mutations + [m]) == PayloadBytes(mutations) + |m.key|
            + (if m.value.None? then 0 else |m.value.value|)
    ensures SpilledCount(mutations + [m]) == SpilledCount(mutations) + (if m.value.Some?
        && |m.value.value| > INLINE_MAX then 1 else 0)
  {
    assert (mutations + [m])[..|mutations|] == mutations;
  }

  /** What the mutation loop gathers: the list, its payload bytes and how many values it spilled. */
  datatype Gathered = Gathered(mutations: seq<Mutation>, payload: nat, spilled: nat)

  /** The mutation loop of decode_delta: accepts exactly the readable lists in strictly ascending key order. */
  method GatherMutations(reader: Reader, r: Record, count: nat) returns (result: Result<Gathered>)
    ensures var whole := ReadMutations(reader, r, 0, count, DELTA_HEADER_SIZE);
            && (result.Accepted? <==> whole.Accepted? && Sorted(whole.value))
            && (result.Accepted? ==>
                  result.value == Gathered(whole.value, PayloadBytes(whole.value), SpilledCount(whole.value)))
  {
    hide ReadMutation, ReadMutations, Sorted, Prepend, PayloadBytes, SpilledCount;
    var mutations: seq<Mutation>, offset, payload, spilled := [], DELTA_HEADER_SIZE, 0, 0;
    ghost var whole := ReadMutations(reader, r, 0, count, offset);
    PrependNothing(whole);
    NothingSorted();
    NothingCounted();
    while |mutations| < count
      invariant |mutations| <= count && Sorted(mutations)
      invariant whole == Prepend(mutations, ReadMutations(reader, r, |mutations|, count, offset))
      invariant payload == PayloadBytes(mutations) && spilled == SpilledCount(mutations)
    {
      MutationsNext(reader, r, mutations, count, offset);
      var read := ReadMutation(reader, r, offset, |mutations|);
      if read.Rejected? { return Rejected; }
      var m := read.value.0;
      SortedGrows(mutations, m);
      if mutations != [] && !Less(mutations[|mutations| - 1].key, m.key) {
        Unsorted(mutations + [m], ReadMutations(reader, r, |mutations| + 1, count, read.value.1), whole);
        return Rejected;
      }
      CountsGrow(mutations, m);
      payload := payload + |m.key| + (if m.value.None? then 0 else |m.value.value|);
      spilled := spilled + (if m.value.Some? && |m.value.value| > INLINE_MAX then 1 else 0);
      mutations, offset := mutations + [m], read.value.1;
    }
    MutationsEnd(reader, r, mutations, count, offset);
    if offset != |r.canonical| { return Rejected; }
    return Accepted(Gathered(mutations, payload, spilled));
  }

  lemma NothingCounted()
    ensures PayloadBytes([]) == 0 && SpilledCount([]) == 0
  {}

  /** decode_delta: accepts exactly the delta records and returns the delta with its payload size. */
  method DecodeDelta(reader: Reader, r: Record) returns (result: Result<(Delta, nat)>)
    ensures result.Accepted? ==> DeltaHolds(reader, r, result.value.0)
                                 && result.value.1 == PayloadBytes(result.value.0.mutations)
    ensures forall d :: DeltaHolds(reader, r, d) ==> result.Accepted? && result.value.0 == d
  {
    hide ReadHeader, ReadMutations, Sorted, DeltaHolds, ExactReference, PayloadBytes, SpilledCount;
    DeltaExact(reader, r);
    var header :- ReadHeader(r.canonical);
    if header.depth == 0 || header.mutations == 0 { return Rejected; }
    var previous :- ExactReference(r, PREVIOUS_LABEL, 0, false);
    var gathered :- GatherMutations(reader, r, header.mutations);
    MutationsCounted(reader, r, header.mutations);
    var referenced := (if previous.Some? then 1 else 0) + gathered.spilled;
    if |r.references| != referenced || gathered.payload > header.deltaBytes { return Rejected; }
    var delta := Delta(previous, header.depth, header.deltaBytes, Totals(header.count, r.logicalBytes, header.quota),
                       gathered.mutations);
    return Accepted((delta, gathered.payload));
  }

  lemma MutationsCounted(reader: Reader, r: Record, count: nat)
    ensures ReadMutations(reader, r, 0, count, DELTA_HEADER_SIZE).Accepted? ==>
              |ReadMutations(reader, r, 0, count, DELTA_HEADER_SIZE).value| == count
  {
    hide ReadMutations, MutationsHold;
    var whole := ReadMutations(reader, r, 0, count, DELTA_HEADER_SIZE);
    if whole.Accepted? { ReadMutationsExact(reader, r, whole.value, 0, count, DELTA_HEADER_SIZE); }
  }

  lemma NothingSorted()
    ensures Sorted([])
  {}

  lemma MutationsEnd(reader: Reader, r: Record, read: seq<Mutation>, count: nat, offset: nat)
    requires |read| == count
    ensures Prepend(read, ReadMutations(reader, r, count, count, offset)) ==
            if offset == |r.canonical| then Accepted(read) else Rejected
  {
    assert read + [] == read;
  }
}
