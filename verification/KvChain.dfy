/**
 * The whole projection of format 4: follow a chain of deltas back to a checkpoint, then replay it forward.
 * A head is accepted exactly when such a chain exists and every replayed delta is what its counters,
 * totals and no-op checks demand; the lemmas say that each delta is then the difference it makes.
 */
module KvChain {
  import opened Bytes
  import opened Outcomes
  import opened Objects
  import opened Marks
  import opened KvValues
  import opened KvTree
  import opened KvDelta

  const ROOT_LABEL: seq<byte> := Ascii("root")

  // ---------------------------------------------------------------- checkpoints

  function CheckpointBytes(t: Totals): seq<byte> {
    [0] + (LeBytes(t.count, 8) + LeBytes(t.quota, 8))
  }

  /** The object is a checkpoint of exactly these entries. */
  ghost predicate CheckpointHolds(reader: Reader, r: Record, entries: Entries) {
    && FitsU64(Sums(entries)) && r.canonical == CheckpointBytes(Sums(entries))
    && r.logicalBytes == Sums(entries).logical
    && (if r.references == [] then entries == []
        else
          && |r.references| == 1 && r.references[0].name == ROOT_LABEL && r.references[0].kind == 0
          && exists t :: PageHolds(reader, r.references[0].target, t) && Fresh({}, Visits(r.references[0].target, t))
                         && entries == Flatten(t))
  }

  /** The one reference a checkpoint may have is its root. */
  lemma RootReference(r: Record)
    ensures var root := ExactReference(r, ROOT_LABEL, 0, false);
            (root.Accepted? && |r.references| == (if root.value.Some? then 1 else 0)) <==>
            r.references == [] || (|r.references| == 1 && r.references[0].name == ROOT_LABEL
                                   && r.references[0].kind == 0)
    ensures |r.references| == 1 && r.references[0].name == ROOT_LABEL && r.references[0].kind == 0 ==>
            ExactReference(r, ROOT_LABEL, 0, false) == Accepted(Some(r.references[0].target))
    ensures r.references == [] ==> ExactReference(r, ROOT_LABEL, 0, false) == Accepted(None)
  {
    if |r.references| == 1 {
      assert r.references[1..] == [] && r.references == [r.references[0]];
      assert Named(r.references[1..], ROOT_LABEL) == [];
    }
  }

  lemma CheckpointBytesExact(data: seq<byte>, t: Totals)
    requires t.count <= U64_MAX && t.quota <= U64_MAX
    ensures data == CheckpointBytes(t) <==>
            |data| == 17 && ReadInteger(data, 0, 1) == Accepted(0) && ReadInteger(data, 1, 8) == Accepted(t.count)
            && ReadInteger(data, 9, 8) == Accepted(t.quota)
  {
    hide LeBytes, Radix, ReadInteger;
    RadixWidths();
    ReadTagExact(data, 0);
    ReadIntegerExact(data, 1, 8, t.count);
    ReadIntegerExact(data, 9, 8, t.quota);
    OccursJoin(data, LeBytes(t.count, 8), LeBytes(t.quota, 8), 1);
    OccursJoin(data, [0], LeBytes(t.count, 8) + LeBytes(t.quota, 8), 0);
    if |data| == 17 { assert data[0..0 + |CheckpointBytes(t)|] == data; }
  }

  method DecodeCheckpoint(reader: Reader, r: Record) returns (result: Result<Entries>)
    ensures result.Accepted? ==> CheckpointHolds(reader, r, result.value) && Distinct(result.value)
    ensures forall e :: CheckpointHolds(reader, r, e) ==> result == Accepted(e)
  {
    hide PageHolds, Fresh, Visits, Flatten, CheckpointBytes, ReadInteger, LeBytes, Distinct, ExactReference, Sums;
    CheckpointParts(reader, r);
    var tag :- ReadInteger(r.canonical, 0, 1);
    if tag != 0 { return Rejected; }
    var count :- ReadInteger(r.canonical, 1, 8);
    var quota :- ReadInteger(r.canonical, 9, 8);
    if |r.canonical| != 17 { return Rejected; }
    RootReference(r);
    var root :- ExactReference(r, ROOT_LABEL, 0, false);
    if |r.references| != (if root.Some? then 1 else 0) { return Rejected; }
    var entries: Entries := [];
    if root.Some? {
      var page, marked;
      ghost var tree;
      page, marked, tree := DecodePage(reader, root.value, {});
      if page.Rejected? { return Rejected; }
      entries := page.value.entries;
      PageAscends(reader, root.value, tree);
      AscendingIsDistinct(entries);
    } else {
      NothingDistinct();
    }
    if TotalsOf(entries) != Accepted(Totals(count, r.logicalBytes, quota)) { return Rejected; }
    CheckpointBytesExact(r.canonical, Sums(entries));
    return Accepted(entries);
  }

  lemma NothingDistinct()
    ensures Distinct([])
  {}

  lemma CheckpointParts(reader: Reader, r: Record)
    ensures forall e :: CheckpointHolds(reader, r, e) ==>
              && FitsU64(Sums(e)) && |r.canonical| == 17 && ReadInteger(r.canonical, 0, 1) == Accepted(0)
              && ReadInteger(r.canonical, 1, 8) == Accepted(Sums(e).count)
              && ReadInteger(r.canonical, 9, 8) == Accepted(Sums(e).quota)
              && r.logicalBytes == Sums(e).logical
  {
    hide PageHolds, Fresh, Visits, Flatten, CheckpointBytes, ReadInteger, LeBytes;
    forall e | CheckpointHolds(reader, r, e)
      ensures |r.canonical| == 17 && ReadInteger(r.canonical, 0, 1) == Accepted(0)
              && ReadInteger(r.canonical, 1, 8) == Accepted(Sums(e).count)
              && ReadInteger(r.canonical, 9, 8) == Accepted(Sums(e).quota)
    {
      CheckpointBytesExact(r.canonical, Sums(e));
    }
  }

  // ---------------------------------------------------------------- following the chain back

  /** The deltas from `cursor` back, newest first, ending in a checkpoint of `base` or in nothing. */
  ghost predicate ChainFrom(reader: Reader, cursor: Option<ObjectId>, visited: set<ObjectId>, base: Entries,
                            deltas: seq<Delta>)
    decreases |deltas|
  {
    if cursor.None? then base == [] && deltas == []
    else
      && cursor.value !in visited && ObjectAt(reader.objects, cursor.value, 7, 4).Accepted?
      && var r := reader.objects[cursor.value];
         if IsCheckpoint(r) then deltas == [] && CheckpointHolds(reader, r, base)
         else deltas != [] && DeltaHolds(reader, r, deltas[0])
              && ChainFrom(reader, deltas[0].previous, visited + {cursor.value}, base, deltas[1..])
  }

  predicate IsCheckpoint(r: Record) {
    r.canonical != [] && r.canonical[0] == 0
  }

  /** The chain read so far, in front of any continuation, is the whole chain; there is no other way to read it. */
  ghost predicate WalkedTo(reader: Reader, head: Option<ObjectId>, cursor: Option<ObjectId>, visited: set<ObjectId>,
                           chain: seq<Delta>)
  {
    && (forall base, rest :: ChainFrom(reader, cursor, visited, base, rest) ==>
          ChainFrom(reader, head, {}, base, chain + rest))
    && (forall base, deltas :: ChainFrom(reader, head, {}, base, deltas) ==>
          |chain| <= |deltas| && deltas[..|chain|] == chain
          && ChainFrom(reader, cursor, visited, base, deltas[|chain|..]))
  }

  lemma WalkStart(reader: Reader, head: Option<ObjectId>)
    ensures WalkedTo(reader, head, head, {}, [])
  {
    hide ChainFrom;
    forall base: Entries, rest: seq<Delta> | ChainFrom(reader, head, {}, base, rest)
      ensures ChainFrom(reader, head, {}, base, [] + rest)
    {
      assert [] + rest == rest;
    }
    forall base: Entries, deltas: seq<Delta> | ChainFrom(reader, head, {}, base, deltas)
      ensures ChainFrom(reader, head, {}, base, deltas[0..])
    {
      assert deltas[0..] == deltas;
    }
  }

  lemma WalkDelta(reader: Reader, head: Option<ObjectId>, id: ObjectId, visited: set<ObjectId>, chain: seq<Delta>,
                  d: Delta)
    requires WalkedTo(reader, head, Some(id), visited, chain) && id !in visited
             && ObjectAt(reader.objects, id, 7, 4).Accepted?
    requires !IsCheckpoint(reader.objects[id]) && DeltaHolds(reader, reader.objects[id], d)
    requires forall other :: DeltaHolds(reader, reader.objects[id], other) ==> other == d
    ensures WalkedTo(reader, head, d.previous, visited + {id}, chain + [d])
  {
    hide DeltaHolds, CheckpointHolds;
    forall base, rest | ChainFrom(reader, d.previous, visited + {id}, base, rest)
      ensures ChainFrom(reader, head, {}, base, chain + [d] + rest)
    {
      assert ([d] + rest)[1..] == rest && chain + ([d] + rest) == chain + [d] + rest;
      assert ChainFrom(reader, Some(id), visited, base, [d] + rest);
    }
    forall base, deltas | ChainFrom(reader, head, {}, base, deltas)
      ensures |chain| + 1 <= |deltas| && deltas[..|chain| + 1] == chain + [d]
              && ChainFrom(reader, d.previous, visited + {id}, base, deltas[|chain| + 1..])
    {
      var tail := deltas[|chain|..];
      assert ChainFrom(reader, Some(id), visited, base, tail);
      assert tail[0] == d && tail[1..] == deltas[|chain| + 1..];
    }
  }

  /** At the end of the walk the chain and its base are what was read, or there is no chain. */
  lemma WalkEnds(reader: Reader, head: Option<ObjectId>, cursor: Option<ObjectId>, visited: set<ObjectId>,
                 chain: seq<Delta>, base: Entries)
    requires WalkedTo(reader, head, cursor, visited, chain) && ChainFrom(reader, cursor, visited, base, [])
    requires forall b, rest :: ChainFrom(reader, cursor, visited, b, rest) ==> b == base && rest == []
    ensures ChainFrom(reader, head, {}, base, chain)
    ensures forall b, deltas :: ChainFrom(reader, head, {}, b, deltas) ==> b == base && deltas == chain
  {
    hide ChainFrom;
    assert chain + [] == chain;
    forall b, deltas | ChainFrom(reader, head, {}, b, deltas) ensures b == base && deltas == chain {
      assert deltas == deltas[..|chain|] + deltas[|chain|..];
    }
  }

  lemma WalkFails(reader: Reader, head: Option<ObjectId>, cursor: Option<ObjectId>, visited: set<ObjectId>,
                  chain: seq<Delta>)
    requires WalkedTo(reader, head, cursor, visited, chain)
    requires forall base, rest :: !ChainFrom(reader, cursor, visited, base, rest)
    ensures forall base, deltas :: !ChainFrom(reader, head, {}, base, deltas)
  {
    hide ChainFrom;
  }

  /** The first loop of decode_v4. Termination: every turn visits a new object. */
  method WalkChain(reader: Reader, head: Option<ObjectId>) returns (result: Result<(Entries, seq<Delta>)>)
    ensures result.Accepted? ==> ChainFrom(reader, head, {}, result.value.0, result.value.1) && Distinct(result.value.0)
    ensures forall base, deltas :: ChainFrom(reader, head, {}, base, deltas) ==> result == Accepted((base, deltas))
  {
    hide WalkedTo, ChainFrom, DeltaHolds, CheckpointHolds, Distinct;
    var cursor, chain: seq<Delta>, visited: set<ObjectId> := head, [], {};
    WalkStart(reader, head);
    while cursor.Some?
      invariant WalkedTo(reader, head, cursor, visited, chain) && visited <= reader.objects.Keys
      decreases |reader.objects.Keys - visited|
    {
      var id := cursor.value;
      ChainStep(reader, id, visited);
      if id in visited || ObjectAt(reader.objects, id, 7, 4).Rejected? {
        WalkFails(reader, head, cursor, visited, chain);
        return Rejected;
      }
      var r := reader.objects[id];
      if IsCheckpoint(r) {
        var entries := DecodeCheckpoint(reader, r);
        if entries.Rejected? {
          WalkFails(reader, head, cursor, visited, chain);
          return Rejected;
        }
        WalkEnds(reader, head, cursor, visited, chain, entries.value);
        return Accepted((entries.value, chain));
      }
      var delta := DecodeDelta(reader, r);
      if delta.Rejected? {
        WalkFails(reader, head, cursor, visited, chain);
        return Rejected;
      }
      WalkDelta(reader, head, id, visited, chain, delta.value.0);
      NewlyVisited(reader, visited, id);
      chain, cursor, visited := chain + [delta.value.0], delta.value.0.previous, visited + {id};
    }
    NothingBefore(reader, visited);
    NothingDistinct();
    WalkEnds(reader, head, cursor, visited, chain, []);
    return Accepted(([], chain));
  }

  lemma NewlyVisited(reader: Reader, visited: set<ObjectId>, id: ObjectId)
    requires id in reader.objects && id !in visited
    ensures |reader.objects.Keys - (visited + {id})| < |reader.objects.Keys - visited|
  {
    assert reader.objects.Keys - (visited + {id}) == (reader.objects.Keys - visited) - {id};
  }

  lemma NothingBefore(reader: Reader, visited: set<ObjectId>)
    ensures ChainFrom(reader, None, visited, [], [])
    ensures forall b, rest :: ChainFrom(reader, None, visited, b, rest) ==> b == [] && rest == []
  {}

  lemma ChainStep(reader: Reader, id: ObjectId, visited: set<ObjectId>)
    ensures forall base, rest :: ChainFrom(reader, Some(id), visited, base, rest) ==>
              && id !in visited && ObjectAt(reader.objects, id, 7, 4).Accepted?
              && (if IsCheckpoint(reader.objects[id])
                  then rest == [] && CheckpointHolds(reader, reader.objects[id], base)
                  else rest != [] && DeltaHolds(reader, reader.objects[id], rest[0]))
    ensures id !in visited && ObjectAt(reader.objects, id, 7, 4).Accepted? && IsCheckpoint(reader.objects[id]) ==>
              forall base :: CheckpointHolds(reader, reader.objects[id], base) ==>
                ChainFrom(reader, Some(id), visited, base, [])
  {
    hide CheckpointHolds, DeltaHolds;
  }

  // ---------------------------------------------------------------- replaying it forward

  /** The k-th delta after the checkpoint; the chain itself is newest first. */
  function Oldest(chain: seq<Delta>, k: nat): Delta
    requires k < |chain|
  {
    chain[|chain| - 1 - k]
  }

  /** The dictionary after the first k deltas. */
  function StateAfter(base: Entries, chain: seq<Delta>, k: nat): Entries
    requires k <= |chain|
  {
    if k == 0 then base else ApplyAll(StateAfter(base, chain, k - 1), Oldest(chain, k - 1).mutations)
  }

  function BytesBefore(chain: seq<Delta>, k: nat): nat
    requires k <= |chain|
  {
    if k == 0 then 0 else BytesBefore(chain, k - 1) + PayloadBytes(Oldest(chain, k - 1).mutations)
  }

  /** Delta k counts the chain and its payload so far, contains no no-op, and declares the totals it leaves. */
  ghost predicate DeltaFits(base: Entries, chain: seq<Delta>, k: nat)
    requires k < |chain|
  {
    var d := Oldest(chain, k);
    && d.depth == k + 1 && d.deltaBytes == BytesBefore(chain, k + 1)
    && NoOpFree(StateAfter(base, chain, k), d.mutations)
    && TotalsOf(StateAfter(base, chain, k + 1)) == Accepted(d.declared)
  }

  ghost predicate Replayable(base: Entries, chain: seq<Delta>) {
    forall k :: 0 <= k < |chain| ==> DeltaFits(base, chain, k)
  }

  /** The mutations of one delta, each checked against the dictionary it is about to change. */
  method ApplyMutations(before: Entries, mutations: seq<Mutation>) returns (result: Result<Entries>)
    ensures result.Accepted? <==> NoOpFree(before, mutations)
    ensures result.Accepted? ==> result.value == ApplyAll(before, mutations)
  {
    hide ApplyOne, Lookup;
    var entries, i := before, 0;
    assert mutations[..0] == [];
    while i < |mutations|
      invariant i <= |mutations| && entries == ApplyAll(before, mutations[..i])
      invariant forall j :: 0 <= j < i ==>
                  Lookup(ApplyAll(before, mutations[..j]), mutations[j].key) != mutations[j].value
    {
      if Lookup(entries, mutations[i].key) == mutations[i].value { return Rejected; }
      assert mutations[..i + 1][..i] == mutations[..i];
      entries := ApplyOne(entries, mutations[i]);
      i := i + 1;
    }
    assert mutations[..i] == mutations;
    return Accepted(entries);
  }

  /** The second loop of decode_v4. */
  method ReplayChain(base: Entries, chain: seq<Delta>) returns (result: Result<Entries>)
    ensures result.Accepted? <==> Replayable(base, chain)
    ensures result.Accepted? ==> result.value == StateAfter(base, chain, |chain|)
  {
    hide ApplyAll, NoOpFree, PayloadBytes, TotalsOf;
    var entries, priorDepth, priorBytes, k := base, 0, 0, 0;
    while k < |chain|
      invariant k <= |chain| && entries == StateAfter(base, chain, k) && priorDepth == k
                && priorBytes == BytesBefore(chain, k)
      invariant forall j :: 0 <= j < k ==> DeltaFits(base, chain, j)
    {
      var d := chain[|chain| - 1 - k];
      assert d == Oldest(chain, k);
      if d.depth != priorDepth + 1 || d.deltaBytes != priorBytes + PayloadBytes(d.mutations) {
        assert !DeltaFits(base, chain, k);
        return Rejected;
      }
      var applied := ApplyMutations(entries, d.mutations);
      if applied.Rejected? {
        assert !DeltaFits(base, chain, k);
        return Rejected;
      }
      entries := applied.value;
      if TotalsOf(entries) != Accepted(d.declared) {
        assert !DeltaFits(base, chain, k);
        return Rejected;
      }
      assert DeltaFits(base, chain, k);
      priorDepth, priorBytes, k := d.depth, d.deltaBytes, k + 1;
    }
    return Accepted(entries);
  }

  /** decode_v4: accepted exactly for a replayable chain, whose final dictionary it returns. */
  method DecodeV4(reader: Reader, head: Option<ObjectId>) returns (result: Result<Entries>)
    ensures result.Accepted? ==>
      exists base, chain :: ChainFrom(reader, head, {}, base, chain) && Distinct(base) && Replayable(base, chain)
                            && result.value == StateAfter(base, chain, |chain|)
    ensures forall base, chain :: ChainFrom(reader, head, {}, base, chain) && Replayable(base, chain) ==>
              result == Accepted(StateAfter(base, chain, |chain|))
  {
    hide ChainFrom, Replayable, StateAfter, Distinct;
    var walked :- WalkChain(reader, head);
    result := ReplayChain(walked.0, walked.1);
  }

  /** Every delta of a chain is well-formed. */
  lemma {:induction false} ChainDeltas(reader: Reader, cursor: Option<ObjectId>, visited: set<ObjectId>, base: Entries,
                                       chain: seq<Delta>, i: nat)
    requires ChainFrom(reader, cursor, visited, base, chain) && i < |chain|
    ensures Sorted(chain[i].mutations) && chain[i].mutations != [] && chain[i].depth > 0
    decreases |chain|
  {
    hide CheckpointHolds, Sorted, OccursAt, MutationsHold;
    if i > 0 { ChainDeltas(reader, chain[0].previous, visited + {cursor.value}, base, chain[1..], i - 1); }
  }

  /** Dictionaries stay dictionaries throughout the replay. */
  lemma {:induction false} StatesDistinct(reader: Reader, head: Option<ObjectId>, base: Entries, chain: seq<Delta>,
                                          k: nat)
    requires ChainFrom(reader, head, {}, base, chain) && Distinct(base) && k <= |chain|
    ensures Distinct(StateAfter(base, chain, k))
    decreases k
  {
    hide ChainFrom, Distinct, ApplyAll, Sorted;
    if k > 0 {
      StatesDistinct(reader, head, base, chain, k - 1);
      ChainDeltas(reader, head, {}, base, chain, |chain| - k);
      LookupAll(StateAfter(base, chain, k - 1), Oldest(chain, k - 1).mutations, []);
    }
  }

  /**
   * In every accepted chain each delta is exactly the sorted difference of the dictionaries before and
   * after it and really changes something, and the newest delta counts the chain and all its payload.
   */
  lemma AcceptedDeltasAreDiffs(reader: Reader, head: Option<ObjectId>, base: Entries, chain: seq<Delta>, k: nat)
    requires ChainFrom(reader, head, {}, base, chain) && Distinct(base) && Replayable(base, chain) && k < |chain|
    ensures IsDiff(StateAfter(base, chain, k), StateAfter(base, chain, k + 1), Oldest(chain, k).mutations)
    ensures exists key :: Lookup(StateAfter(base, chain, k), key) != Lookup(StateAfter(base, chain, k + 1), key)
    ensures chain[0].depth == |chain| && chain[0].deltaBytes == BytesBefore(chain, |chain|)
    ensures TotalsOf(StateAfter(base, chain, |chain|)) == Accepted(chain[0].declared)
  {
    hide ChainFrom, Distinct, ApplyAll, Sorted, NoOpFree, TotalsOf, Lookup, BytesBefore;
    var d := Oldest(chain, k);
    assert DeltaFits(base, chain, k) && DeltaFits(base, chain, |chain| - 1);
    StatesDistinct(reader, head, base, chain, k);
    ChainDeltas(reader, head, {}, base, chain, |chain| - 1 - k);
    DeltaIsDiff(StateAfter(base, chain, k), d.mutations);
    assert Lookup(StateAfter(base, chain, k), d.mutations[0].key) !=
           Lookup(StateAfter(base, chain, k + 1), d.mutations[0].key);
  }
}
