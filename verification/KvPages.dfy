/** B+ leaf pages and branch headers: the byte parse, shown exact against the encoding it accepts. */
module KvPages {
  import opened Bytes
  import opened Outcomes
  import opened Objects
  import opened KvValues

  const LEAF_MAGIC: seq<byte> := Ascii("astrid-kv-bplus-leaf-v1") + [0]
  const BRANCH_MAGIC: seq<byte> := Ascii("astrid-kv-bplus-branch-v1") + [0]
  const PAGE_SLOTS: nat := 64
  const MAX_LEVEL: nat := 16

  // ---------------------------------------------------------------- leaf slots

  function SlotLabel(index: nat): seq<byte> {
    Ascii("value/") + BeBytes(index, 2)
  }

  function StoredBytes(value: Value): seq<byte> {
    if |value| <= INLINE_MAX then [0] + value else [1]
  }

  /** The encoding of one leaf entry. */
  function SlotBytes(e: Entry): seq<byte> {
    KeyBytes(e.key) + (LeBytes(|e.value|, 8) + StoredBytes(e.value))
  }

  function Spilled(e: Entry): nat {
    if |e.value| <= INLINE_MAX then 0 else 1
  }

  datatype Slot = Slot(entry: Entry, next: nat, references: nat)

  function ReadStored(reader: Reader, r: Record, offset: nat, length: nat, index: nat,
                      references: nat): Result<(Value, nat, nat)>
    requires length <= U64_MAX
  {
    var storage :- ReadInteger(r.canonical, offset, 1);
    if storage == 0 then
      var _ :- Check(length <= INLINE_MAX);
      var _ :- Check(offset + 1 + length <= |r.canonical|);
      Accepted((r.canonical[offset + 1..offset + 1 + length], offset + 1 + length, references))
    else
      var _ :- Check(storage == 1);
      var _ :- Check(length > INLINE_MAX && references < |r.references|);
      var reference := r.references[references];
      var _ :- Check(reference.name == SlotLabel(index) && reference.kind == 0);
      var value :- ValueOf(reader, reference.target, length, 4);
      Accepted((value, offset + 1, references + 1))
  }

  /** One turn of decode_leaf's loop, without the order check. */
  function ReadSlot(reader: Reader, r: Record, offset: nat, index: nat, references: nat): Result<Slot> {
    var (key, afterKey) :- ReadKey(r.canonical, offset);
    var _ :- Check(CompositeKey(reader, key));
    var length :- ReadInteger(r.canonical, afterKey, 8);
    IntegerFits(r.canonical, afterKey, length);
    var (value, next, used) :- ReadStored(reader, r, afterKey + 8, length, index, references);
    Accepted(Slot(Entry(key, value), next, used))
  }

  /** The value of a slot is inline, or is what the next reference of the record stands for. */
  ghost predicate StoredHolds(reader: Reader, r: Record, value: Value, index: nat, references: nat) {
    && |value| <= U64_MAX
    && (|value| > INLINE_MAX ==>
          && references < |r.references|
          && r.references[references].name == SlotLabel(index) && r.references[references].kind == 0
          && ValueOf(reader, r.references[references].target, |value|, 4) == Accepted(value))
  }

  ghost predicate SlotHolds(reader: Reader, r: Record, e: Entry, offset: nat, index: nat, references: nat) {
    && |e.key| < Radix(4) && CompositeKey(reader, e.key)
    && OccursAt(r.canonical, SlotBytes(e), offset)
    && StoredHolds(reader, r, e.value, index, references)
  }

  lemma ReadStoredInline(reader: Reader, r: Record, offset: nat, value: Value, index: nat, references: nat, next: nat,
                         used: nat)
    requires |value| <= INLINE_MAX
    ensures ReadStored(reader, r, offset, |value|, index, references) == Accepted((value, next, used)) <==>
            OccursAt(r.canonical, [0] + value, offset) && next == offset + 1 + |value| && used == references
  {
    hide ValueOf, Le, SlotLabel, ReadInteger;
    ReadByte(r.canonical, offset);
    OccursJoin(r.canonical, [0], value, offset);
  }

  lemma ReadStoredSpilled(reader: Reader, r: Record, offset: nat, value: Value, index: nat, references: nat, next: nat,
                          used: nat)
    requires INLINE_MAX < |value| <= U64_MAX
    ensures ReadStored(reader, r, offset, |value|, index, references) == Accepted((value, next, used)) <==>
            OccursAt(r.canonical, [1], offset) && StoredHolds(reader, r, value, index, references) && next == offset + 1
            && used == references + 1
  {
    hide ValueOf, Le, SlotLabel, ReadInteger;
    ReadByte(r.canonical, offset);
  }

  lemma ReadStoredExact(reader: Reader, r: Record, offset: nat, value: Value, index: nat, references: nat, next: nat,
                        used: nat)
    requires |value| <= U64_MAX
    ensures ReadStored(reader, r, offset, |value|, index, references) == Accepted((value, next, used)) <==>
            && OccursAt(r.canonical, StoredBytes(value), offset) && StoredHolds(reader, r, value, index, references)
            && next == offset + |StoredBytes(value)| && used == references + (if |value| <= INLINE_MAX then 0 else 1)
  {
    hide ReadStored, OccursAt, ValueOf, SlotLabel;
    if |value| <= INLINE_MAX { ReadStoredInline(reader, r, offset, value, index, references, next, used); }
    else { ReadStoredSpilled(reader, r, offset, value, index, references, next, used); }
  }

  /** Reading a slot gives e exactly when e's encoding is at the offset and its value checks out. */
  lemma ReadSlotExact(reader: Reader, r: Record, e: Entry, offset: nat, index: nat, references: nat, next: nat,
                      used: nat)
    ensures ReadSlot(reader, r, offset, index, references) == Accepted(Slot(e, next, used)) <==>
            SlotHolds(reader, r, e, offset, index, references) && next == offset + |SlotBytes(e)|
            && used == references + Spilled(e)
  {
    hide ReadInteger, ReadKey, ReadStored, CompositeKey, Radix, LeBytes, StoredHolds, OccursAt, KeyBytes, StoredBytes;
    var data := r.canonical;
    var afterKey := offset + |KeyBytes(e.key)|;
    ReadKeyExact(data, offset, e.key, afterKey);
    ReadIntegerExact(data, afterKey, 8, |e.value|);
    RadixWidths();
    OccursJoin(data, KeyBytes(e.key), LeBytes(|e.value|, 8) + StoredBytes(e.value), offset);
    OccursJoin(data, LeBytes(|e.value|, 8), StoredBytes(e.value), afterKey);
    if |e.value| <= U64_MAX {
      ReadStoredExact(reader, r, afterKey + 8, e.value, index, references, next, used);
    }
    if ReadSlot(reader, r, offset, index, references) == Accepted(Slot(e, next, used)) {
      ReadSlotParts(reader, r, e, offset, index, references, next, used);
    }
    if SlotHolds(reader, r, e, offset, index, references) { StoredLength(reader, r, e.value, index, references); }
  }

  lemma StoredLength(reader: Reader, r: Record, value: Value, index: nat, references: nat)
    requires StoredHolds(reader, r, value, index, references)
    ensures |value| <= U64_MAX
  {}

  lemma ReadSlotParts(reader: Reader, r: Record, e: Entry, offset: nat, index: nat, references: nat, next: nat,
                      used: nat)
    requires ReadSlot(reader, r, offset, index, references) == Accepted(Slot(e, next, used))
    ensures ReadKey(r.canonical, offset) == Accepted((e.key, offset + |KeyBytes(e.key)|)) && CompositeKey(reader, e.key)
    ensures |e.value| <= U64_MAX && ReadInteger(r.canonical, offset + |KeyBytes(e.key)|, 8) == Accepted(|e.value|)
    ensures ReadStored(reader, r, offset + |KeyBytes(e.key)| + 8, |e.value|, index, references) ==
            Accepted((e.value, next, used))
  {
    hide CompositeKey, ValueOf, LeBytes, Radix, ReadInteger;
    var (key, afterKey) := ReadKey(r.canonical, offset).value;
    ReadKeyExact(r.canonical, offset, key, afterKey);
    var length := ReadInteger(r.canonical, afterKey, 8).value;
    IntegerFits(r.canonical, afterKey, length);
  }

  // ---------------------------------------------------------------- whole leaves

  /** Entries k.. are encoded from `offset` to the end of the page, in key order, using up all references. */
  ghost predicate SlotsHold(reader: Reader, r: Record, entries: Entries, k: nat, offset: nat, references: nat)
    requires k <= |entries|
    decreases |entries| - k
  {
    if k == |entries| then offset == |r.canonical| && references == |r.references|
    else
      && SlotHolds(reader, r, entries[k], offset, k, references)
      && (k > 0 ==> Less(entries[k - 1].key, entries[k].key))
      && SlotsHold(reader, r, entries, k + 1, offset + |SlotBytes(entries[k])|, references + Spilled(entries[k]))
  }

  function LeafHeader(count: nat, totals: Totals): seq<byte> {
    LEAF_MAGIC + (LeBytes(count, 2) + TotalsBytes(totals))
  }

  const LEAF_HEADER_SIZE: nat := 50

  /** The record is the leaf page of exactly these entries. */
  ghost predicate LeafHolds(reader: Reader, r: Record, entries: Entries) {
    && 1 <= |entries| <= PAGE_SLOTS && FitsU64(Sums(entries))
    && OccursAt(r.canonical, LeafHeader(|entries|, Sums(entries)), 0)
    && SlotsHold(reader, r, entries, 0, LEAF_HEADER_SIZE, 0)
  }

  function ReadLeafHeader(r: Record): Result<(nat, Totals)> {
    var _ :- Check(OccursAt(r.canonical, LEAF_MAGIC, 0));
    var count :- ReadInteger(r.canonical, |LEAF_MAGIC|, 2);
    var declared :- ReadTotals(r.canonical, |LEAF_MAGIC| + 2);
    Accepted((count, declared))
  }

  lemma ReadLeafHeaderExact(r: Record, count: nat, totals: Totals)
    requires count <= PAGE_SLOTS
    ensures |LeafHeader(count, totals)| == LEAF_HEADER_SIZE
    ensures ReadLeafHeader(r) == Accepted((count, totals)) <==>
            FitsU64(totals) && OccursAt(r.canonical, LeafHeader(count, totals), 0)
  {
    hide ReadInteger, ReadTotals, LeBytes, Radix, OccursAt;
    RadixWidths();
    ReadIntegerExact(r.canonical, |LEAF_MAGIC|, 2, count);
    ReadTotalsExact(r.canonical, |LEAF_MAGIC| + 2, totals);
    OccursJoin(r.canonical, LEAF_MAGIC, LeBytes(count, 2) + TotalsBytes(totals), 0);
    OccursJoin(r.canonical, LeBytes(count, 2), TotalsBytes(totals), |LEAF_MAGIC|);
  }

  /** Slots 0..k have been read as `entries`, and every reading of the page must begin with them. */
  ghost predicate LeafReadTo(reader: Reader, r: Record, count: nat, declared: Totals, entries: Entries, offset: nat,
                             references: nat)
  {
    && (forall i :: 0 <= i < |entries| ==> SlotsHoldStep(reader, r, entries, i))
    && offset == OffsetAt(entries, |entries|) && references == SpilledBefore(entries, |entries|)
    && (forall e :: LeafHolds(reader, r, e) ==>
          |e| == count && Sums(e) == declared && |entries| <= |e| && e[..|entries|] == entries
          && SlotsHold(reader, r, e, |entries|, offset, references))
  }

  /** Where entry k starts, and how many references precede it. */
  ghost function OffsetAt(entries: Entries, k: nat): nat
    requires k <= |entries|
  {
    if k == 0 then LEAF_HEADER_SIZE else OffsetAt(entries, k - 1) + |SlotBytes(entries[k - 1])|
  }

  ghost function SpilledBefore(entries: Entries, k: nat): nat
    requires k <= |entries|
  {
    if k == 0 then 0 else SpilledBefore(entries, k - 1) + Spilled(entries[k - 1])
  }

  ghost predicate SlotsHoldStep(reader: Reader, r: Record, entries: Entries, i: nat)
    requires i < |entries|
  {
    && SlotHolds(reader, r, entries[i], OffsetAt(entries, i), i, SpilledBefore(entries, i))
    && (i > 0 ==> Less(entries[i - 1].key, entries[i].key))
  }

  lemma {:induction false} OffsetsOfPrefix(entries: Entries, e: Entry, k: nat)
    requires k <= |entries|
    ensures OffsetAt(entries + [e], k) == OffsetAt(entries, k)
            && SpilledBefore(entries + [e], k) == SpilledBefore(entries, k)
  {
    hide SlotBytes;
    if k > 0 { OffsetsOfPrefix(entries, e, k - 1); }
  }

  lemma {:induction false} SlotsFromSteps(reader: Reader, r: Record, entries: Entries, k: nat)
    requires k <= |entries| && forall i :: 0 <= i < |entries| ==> SlotsHoldStep(reader, r, entries, i)
    requires OffsetAt(entries, |entries|) == |r.canonical| && SpilledBefore(entries, |entries|) == |r.references|
    ensures SlotsHold(reader, r, entries, k, OffsetAt(entries, k), SpilledBefore(entries, k))
    decreases |entries| - k
  {
    hide SlotHolds, SlotBytes;
    if k < |entries| {
      assert SlotsHoldStep(reader, r, entries, k);
      SlotsFromSteps(reader, r, entries, k + 1);
    }
  }

  lemma {:induction false} KeysAscend(entries: Entries, i: nat, j: nat)
    requires forall k :: 0 < k < |entries| ==> Less(entries[k - 1].key, entries[k].key)
    requires i < j < |entries|
    ensures Less(entries[i].key, entries[j].key)
    decreases j
  {
    if i < j - 1 {
      KeysAscend(entries, i, j - 1);
      LessTransitive(entries[i].key, entries[j - 1].key, entries[j].key);
    }
  }

  lemma StepsAscend(reader: Reader, r: Record, entries: Entries)
    requires forall i :: 0 <= i < |entries| ==> SlotsHoldStep(reader, r, entries, i)
    ensures Ascending(entries)
  {
    hide SlotHolds, OffsetAt, SpilledBefore;
    forall k | 0 < k < |entries| ensures Less(entries[k - 1].key, entries[k].key) {
      assert SlotsHoldStep(reader, r, entries, k);
    }
    forall i, j | 0 <= i < j < |entries| ensures Less(entries[i].key, entries[j].key) { KeysAscend(entries, i, j); }
  }

  /** A larger key is a new key. */
  lemma AppendsInOrder(entries: Entries, key: Key, value: Value)
    requires Ascending(entries) && (entries != [] ==> Less(entries[|entries| - 1].key, key))
    ensures Put(entries, key, value) == entries + [Entry(key, value)]
  {
    forall i | 0 <= i < |entries| ensures entries[i].key != key {
      if i < |entries| - 1 { LessTransitive(entries[i].key, entries[|entries| - 1].key, key); }
      LessIrreflexive(key);
    }
    PutFresh(entries, key, value);
  }

  lemma LeafStart(reader: Reader, r: Record, count: nat, declared: Totals)
    requires ReadLeafHeader(r) == Accepted((count, declared))
    ensures LeafReadTo(reader, r, count, declared, [], LEAF_HEADER_SIZE, 0)
  {
    hide SlotsHold, ReadLeafHeader, LeafHeader;
    forall e | LeafHolds(reader, r, e)
      ensures |e| == count && Sums(e) == declared
    {
      ReadLeafHeaderExact(r, |e|, Sums(e));
    }
  }

  /** Reading one more slot, in order, extends the reading; every alternative reading extends with it. */
  lemma LeafAdvance(reader: Reader, r: Record, count: nat, declared: Totals, entries: Entries, offset: nat,
                    references: nat)
    requires LeafReadTo(reader, r, count, declared, entries, offset, references) && |entries| < count
    ensures var slot := ReadSlot(reader, r, offset, |entries|, references);
            if slot.Accepted? && (entries == [] || Less(entries[|entries| - 1].key, slot.value.entry.key))
            then LeafReadTo(reader, r, count, declared, entries + [slot.value.entry], slot.value.next,
                            slot.value.references)
            else forall e :: !LeafHolds(reader, r, e)
  {
    hide SlotHolds, SlotBytes, ReadSlot, LeafHolds, Spilled;
    var slot := ReadSlot(reader, r, offset, |entries|, references);
    var ok := slot.Accepted? && (entries == [] || Less(entries[|entries| - 1].key, slot.value.entry.key));
    forall e | LeafHolds(reader, r, e)
      ensures ok && e[..|entries| + 1] == entries + [slot.value.entry]
              && SlotsHold(reader, r, e, |entries| + 1, slot.value.next, slot.value.references)
    {
      LeafNext(reader, r, count, declared, entries, offset, references, e);
      assert e[..|entries| + 1] == entries + [e[|entries|]];
    }
    if ok {
      var grown := entries + [slot.value.entry];
      ReadSlotExact(reader, r, slot.value.entry, offset, |entries|, references, slot.value.next, slot.value.references);
      forall i | 0 <= i < |grown| ensures SlotsHoldStep(reader, r, grown, i) {
        OffsetsOfPrefix(entries, slot.value.entry, i);
        if i < |entries| { assert SlotsHoldStep(reader, r, entries, i); }
      }
      OffsetsOfPrefix(entries, slot.value.entry, |entries|);
    }
  }

  lemma LeafNext(reader: Reader, r: Record, count: nat, declared: Totals, entries: Entries, offset: nat,
                 references: nat, e: Entries)
    requires LeafReadTo(reader, r, count, declared, entries, offset, references) && |entries| < count
             && LeafHolds(reader, r, e)
    ensures |entries| < |e| && e[..|entries|] == entries
            && (|entries| > 0 ==> Less(entries[|entries| - 1].key, e[|entries|].key))
    ensures ReadSlot(reader, r, offset, |entries|, references)
            == Accepted(Slot(e[|entries|], offset + |SlotBytes(e[|entries|])|, references + Spilled(e[|entries|])))
    ensures SlotsHold(reader, r, e, |entries| + 1, offset + |SlotBytes(e[|entries|])|,
                      references + Spilled(e[|entries|]))
  {
    hide SlotHolds, SlotBytes, ReadSlot, LeafHolds, Spilled;
    var k := |entries|;
    assert SlotsHold(reader, r, e, k, offset, references);
    ReadSlotExact(reader, r, e[k], offset, k, references, offset + |SlotBytes(e[k])|, references + Spilled(e[k]));
    if k > 0 { assert e[..k][k - 1] == e[k - 1]; }
  }

  /** All slots read: the page holds exactly these entries when the totals and the ends agree, and none otherwise. */
  lemma LeafFinish(reader: Reader, r: Record, count: nat, declared: Totals, entries: Entries, offset: nat,
                   references: nat)
    requires LeafReadTo(reader, r, count, declared, entries, offset, references)
    requires ReadLeafHeader(r) == Accepted((count, declared)) && |entries| == count && 1 <= count <= PAGE_SLOTS
    ensures var good := offset == |r.canonical| && references == |r.references|
            && TotalsOf(entries) == Accepted(declared);
            && (good ==> LeafHolds(reader, r, entries) && Ascending(entries))
            && forall e :: LeafHolds(reader, r, e) ==> good && e == entries
  {
    hide SlotHolds, SlotBytes, ReadLeafHeader, LeafHeader;
    ReadLeafHeaderExact(r, count, declared);
    forall e | LeafHolds(reader, r, e)
      ensures e == entries && offset == |r.canonical| && references == |r.references|
    {
      assert e[..|entries|] == e;
    }
    if offset == |r.canonical| && references == |r.references| && TotalsOf(entries) == Accepted(declared) {
      SlotsFromSteps(reader, r, entries, 0);
      StepsAscend(reader, r, entries);
    }
  }

  /** decode_leaf: accepts exactly the leaf pages and returns the entries they hold. */
  method DecodeLeaf(reader: Reader, r: Record) returns (result: Result<Entries>)
    ensures result.Accepted? ==> LeafHolds(reader, r, result.value) && Ascending(result.value)
    ensures forall e :: LeafHolds(reader, r, e) ==> result == Accepted(e)
  {
    hide SlotsHoldStep, ReadSlot, LeafReadTo, ReadLeafHeader, LeafHolds, Ascending, OffsetAt, SpilledBefore;
    var header := ReadLeafHeader(r);
    if header.Rejected? {
      NoHeader(reader, r);
      return Rejected;
    }
    var (count, declared) := header.value;
    LeafStart(reader, r, count, declared);
    if !(1 <= count <= PAGE_SLOTS) {
      BadCount(reader, r, count, declared);
      return Rejected;
    }
    var entries: Entries, offset, references := [], LEAF_HEADER_SIZE, 0;
    while |entries| < count
      invariant |entries| <= count && LeafReadTo(reader, r, count, declared, entries, offset, references)
    {
      LeafAdvance(reader, r, count, declared, entries, offset, references);
      var slot := ReadSlot(reader, r, offset, |entries|, references);
      if slot.Rejected? { return Rejected; }
      if entries != [] && !Less(entries[|entries| - 1].key, slot.value.entry.key) { return Rejected; }
      InOrder(reader, r, count, declared, entries, offset, references);
      AppendsInOrder(entries, slot.value.entry.key, slot.value.entry.value);
      entries := Put(entries, slot.value.entry.key, slot.value.entry.value);
      offset, references := slot.value.next, slot.value.references;
    }
    LeafFinish(reader, r, count, declared, entries, offset, references);
    if offset != |r.canonical| { return Rejected; }
    if references != |r.references| || TotalsOf(entries) != Accepted(declared) { return Rejected; }
    return Accepted(entries);
  }

  lemma InOrder(reader: Reader, r: Record, count: nat, declared: Totals, entries: Entries, offset: nat, references: nat)
    requires LeafReadTo(reader, r, count, declared, entries, offset, references)
    ensures Ascending(entries)
  {
    hide SlotsHoldStep, OffsetAt, SpilledBefore;
    StepsAscend(reader, r, entries);
  }

  lemma NoHeader(reader: Reader, r: Record)
    requires ReadLeafHeader(r).Rejected?
    ensures forall e :: !LeafHolds(reader, r, e)
  {
    hide SlotsHold, ReadLeafHeader, LeafHeader;
    forall e ensures !LeafHolds(reader, r, e) {
      if LeafHolds(reader, r, e) { ReadLeafHeaderExact(r, |e|, Sums(e)); }
    }
  }

  lemma BadCount(reader: Reader, r: Record, count: nat, declared: Totals)
    requires ReadLeafHeader(r) == Accepted((count, declared)) && !(1 <= count <= PAGE_SLOTS)
    ensures forall e :: !LeafHolds(reader, r, e)
  {
    hide SlotsHold, ReadLeafHeader, LeafHeader;
    forall e ensures !LeafHolds(reader, r, e) {
      if LeafHolds(reader, r, e) { ReadLeafHeaderExact(r, |e|, Sums(e)); }
    }
  }

  // ---------------------------------------------------------------- branch headers

  datatype Pointer = Pointer(lower: Key, totals: Totals, target: ObjectId)

  function ChildLabel(index: nat): seq<byte> {
    Ascii("child/") + BeBytes(index, 2)
  }

  function PointerBytes(p: Pointer): seq<byte> {
    KeyBytes(p.lower) + TotalsBytes(p.totals)
  }

  function ReadPointer(reader: Reader, r: Record, offset: nat, index: nat): Result<(Pointer, nat)>
    requires index < |r.references|
  {
    var (lower, next) :- ReadKey(r.canonical, offset);
    var _ :- Check(CompositeKey(reader, lower));
    var totals :- ReadTotals(r.canonical, next);
    var reference := r.references[index];
    var _ :- Check(reference.name == ChildLabel(index) && reference.kind == 0 && totals.count != 0);
    Accepted((Pointer(lower, totals, reference.target), next + 24))
  }

  ghost predicate PointerHolds(reader: Reader, r: Record, p: Pointer, offset: nat, index: nat) {
    && |p.lower| < Radix(4) && CompositeKey(reader, p.lower) && FitsU64(p.totals) && p.totals.count > 0
    && OccursAt(r.canonical, PointerBytes(p), offset)
    && index < |r.references| && r.references[index] == Reference(ChildLabel(index), p.target, 0)
  }

  lemma ReadPointerExact(reader: Reader, r: Record, p: Pointer, offset: nat, index: nat, next: nat)
    requires index < |r.references|
    ensures ReadPointer(reader, r, offset, index) == Accepted((p, next)) <==>
            PointerHolds(reader, r, p, offset, index) && next == offset + |PointerBytes(p)|
  {
    hide ReadKey, ReadTotals, CompositeKey, Radix, OccursAt, KeyBytes, TotalsBytes, FitsU64;
    var data, afterKey := r.canonical, offset + |KeyBytes(p.lower)|;
    ReadKeyExact(data, offset, p.lower, afterKey);
    ReadTotalsExact(data, afterKey, p.totals);
    OccursJoin(data, KeyBytes(p.lower), TotalsBytes(p.totals), offset);
    if ReadPointer(reader, r, offset, index) == Accepted((p, next)) {
      ReadKeyExact(data, offset, p.lower, ReadKey(data, offset).value.1);
    }
  }

  /** Pointers index.. are encoded from `offset` to the end of the page. */
  ghost predicate PointersHold(reader: Reader, r: Record, pointers: seq<Pointer>, index: nat, offset: nat)
    decreases |pointers|
  {
    if pointers == [] then index == |r.references| && offset == |r.canonical|
    else PointerHolds(reader, r, pointers[0], offset, index)
         && PointersHold(reader, r, pointers[1..], index + 1, offset + |PointerBytes(pointers[0])|)
  }

  function ReadPointers(reader: Reader, r: Record, index: nat, offset: nat): Result<seq<Pointer>>
    requires index <= |r.references|
    decreases |r.references| - index
  {
    if index == |r.references| then
      var _ :- Check(offset == |r.canonical|);
      Accepted([])
    else
      var (pointer, next) :- ReadPointer(reader, r, offset, index);
      var rest :- ReadPointers(reader, r, index + 1, next);
      Accepted([pointer] + rest)
  }

  lemma {:induction false} ReadPointersExact(reader: Reader, r: Record, pointers: seq<Pointer>, index: nat, offset: nat)
    requires index <= |r.references|
    ensures ReadPointers(reader, r, index, offset) == Accepted(pointers) <==>
            PointersHold(reader, r, pointers, index, offset)
    decreases |r.references| - index
  {
    hide ReadPointer, PointerHolds, PointerBytes;
    if index < |r.references| {
      if pointers != [] {
        var next := offset + |PointerBytes(pointers[0])|;
        ReadPointerExact(reader, r, pointers[0], offset, index, next);
        ReadPointersExact(reader, r, pointers[1..], index + 1, next);
        assert pointers == [pointers[0]] + pointers[1..];
      }
      var read := ReadPointers(reader, r, index, offset);
      if read.Accepted? {
        var (pointer, next) := ReadPointer(reader, r, offset, index).value;
        ReadPointerExact(reader, r, pointer, offset, index, next);
      }
    } else if pointers != [] {
      NoMorePointers(reader, r, pointers[0], offset, index);
    }
  }

  lemma NoMorePointers(reader: Reader, r: Record, p: Pointer, offset: nat, index: nat)
    requires index >= |r.references|
    ensures !PointerHolds(reader, r, p, offset, index)
  {}

  function BranchHeader(level: nat, count: nat, totals: Totals): seq<byte> {
    BRANCH_MAGIC + (LeBytes(level, 2) + (LeBytes(count, 2) + TotalsBytes(totals)))
  }

  const BRANCH_HEADER_SIZE: nat := 54

  function ReadBranchHeader(r: Record): Result<(nat, nat, Totals)> {
    var _ :- Check(OccursAt(r.canonical, BRANCH_MAGIC, 0));
    var level :- ReadInteger(r.canonical, |BRANCH_MAGIC|, 2);
    var count :- ReadInteger(r.canonical, |BRANCH_MAGIC| + 2, 2);
    var declared :- ReadTotals(r.canonical, |BRANCH_MAGIC| + 4);
    Accepted((level, count, declared))
  }

  lemma ReadBranchHeaderExact(r: Record, level: nat, count: nat, totals: Totals)
    requires level <= MAX_LEVEL && count <= PAGE_SLOTS
    ensures |BranchHeader(level, count, totals)| == BRANCH_HEADER_SIZE
    ensures ReadBranchHeader(r) == Accepted((level, count, totals)) <==>
            FitsU64(totals) && OccursAt(r.canonical, BranchHeader(level, count, totals), 0)
  {
    hide ReadInteger, ReadTotals, LeBytes, Radix, OccursAt;
    RadixWidths();
    var data, at := r.canonical, |BRANCH_MAGIC|;
    ReadIntegerExact(data, at, 2, level);
    ReadIntegerExact(data, at + 2, 2, count);
    ReadTotalsExact(data, at + 4, totals);
    OccursJoin(data, BRANCH_MAGIC, LeBytes(level, 2) + (LeBytes(count, 2) + TotalsBytes(totals)), 0);
    OccursJoin(data, LeBytes(level, 2), LeBytes(count, 2) + TotalsBytes(totals), at);
    OccursJoin(data, LeBytes(count, 2), TotalsBytes(totals), at + 2);
  }

  ghost predicate LowersAscend(pointers: seq<Pointer>) {
    forall i :: 0 < i < |pointers| ==> Less(pointers[i - 1].lower, pointers[i].lower)
  }

  /** The record is the branch page with exactly this level, these totals and these pointers. */
  ghost predicate BranchHolds(reader: Reader, r: Record, level: nat, declared: Totals, pointers: seq<Pointer>) {
    && 1 <= level <= MAX_LEVEL && 2 <= |pointers| <= PAGE_SLOTS && |r.references| == |pointers| && FitsU64(declared)
    && OccursAt(r.canonical, BranchHeader(level, |pointers|, declared), 0)
    && PointersHold(reader, r, pointers, 0, BRANCH_HEADER_SIZE) && LowersAscend(pointers)
  }

  datatype BranchInfo = BranchInfo(level: nat, declared: Totals, pointers: seq<Pointer>)

  /** The byte parse of decode_branch: accepts exactly the branch pages and returns what they hold. */
  method DecodePointers(reader: Reader, r: Record) returns (result: Result<BranchInfo>)
    ensures result.Accepted? ==>
              BranchHolds(reader, r, result.value.level, result.value.declared, result.value.pointers)
    ensures forall level: nat, declared, pointers :: BranchHolds(reader, r, level, declared, pointers) ==>
              result == Accepted(BranchInfo(level, declared, pointers))
  {
    hide ReadBranchHeader, ReadPointer, BranchHolds, BranchHeader, PointersHold, ReadPointers, Prepend;
    BranchExact(reader, r);
    var header :- ReadBranchHeader(r);
    var (level, count, declared) := header;
    if !(1 <= level <= MAX_LEVEL) || !(2 <= count <= PAGE_SLOTS) || |r.references| != count { return Rejected; }
    var pointers: seq<Pointer>, offset := [], BRANCH_HEADER_SIZE;
    ghost var whole := ReadPointers(reader, r, 0, offset);
    PrependNothing(whole);
    while |pointers| < count
      invariant |pointers| <= count
      invariant whole == Prepend(pointers, ReadPointers(reader, r, |pointers|, offset))
    {
      PointersNext(reader, r, pointers, offset);
      var read :- ReadPointer(reader, r, offset, |pointers|);
      pointers, offset := pointers + [read.0], read.1;
    }
    PointersEnd(reader, r, pointers, offset);
    if offset != |r.canonical| { return Rejected; }
    var i := 1;
    while i < |pointers|
      invariant 1 <= i
      invariant forall j :: 0 < j < i && j < |pointers| ==> Less(pointers[j - 1].lower, pointers[j].lower)
    {
      if !Less(pointers[i - 1].lower, pointers[i].lower) { return Rejected; }
      i := i + 1;
    }
    return Accepted(BranchInfo(level, declared, pointers));
  }

  lemma PointersNext(reader: Reader, r: Record, read: seq<Pointer>, offset: nat)
    requires |read| < |r.references|
    ensures var next := ReadPointer(reader, r, offset, |read|);
            Prepend(read, ReadPointers(reader, r, |read|, offset)) ==
            if next.Accepted? then Prepend(read + [next.value.0], ReadPointers(reader, r, |read| + 1, next.value.1))
            else Rejected
  {
    hide ReadPointer;
    var next := ReadPointer(reader, r, offset, |read|);
    if next.Accepted? { PrependOne(read, next.value.0, ReadPointers(reader, r, |read| + 1, next.value.1)); }
  }

  lemma PointersEnd(reader: Reader, r: Record, read: seq<Pointer>, offset: nat)
    requires |read| == |r.references|
    ensures Prepend(read, ReadPointers(reader, r, |read|, offset)) ==
            if offset == |r.canonical| then Accepted(read) else Rejected
  {
    assert read + [] == read;
  }

  lemma BranchExact(reader: Reader, r: Record)
    ensures forall level: nat, declared, pointers :: BranchHolds(reader, r, level, declared, pointers) <==>
              && 1 <= level <= MAX_LEVEL && 2 <= |pointers| <= PAGE_SLOTS && |r.references| == |pointers|
              && ReadBranchHeader(r) == Accepted((level, |pointers|, declared))
              && ReadPointers(reader, r, 0, BRANCH_HEADER_SIZE) == Accepted(pointers) && LowersAscend(pointers)
  {
    hide ReadBranchHeader, BranchHeader, ReadPointers, PointersHold, LowersAscend, OccursAt;
    forall level: nat, declared, pointers
      ensures BranchHolds(reader, r, level, declared, pointers) <==>
              && 1 <= level <= MAX_LEVEL && 2 <= |pointers| <= PAGE_SLOTS && |r.references| == |pointers|
              && ReadBranchHeader(r) == Accepted((level, |pointers|, declared))
              && ReadPointers(reader, r, 0, BRANCH_HEADER_SIZE) == Accepted(pointers) && LowersAscend(pointers)
    {
      if 1 <= level <= MAX_LEVEL && 2 <= |pointers| <= PAGE_SLOTS {
        ReadBranchHeaderExact(r, level, |pointers|, declared);
        ReadPointersExact(reader, r, pointers, 0, BRANCH_HEADER_SIZE);
      }
    }
  }
}
