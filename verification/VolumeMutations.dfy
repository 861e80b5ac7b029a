/**
 * What a record of the hosted volume does to the namespace, and where every byte of the namespace comes from.
 */
module VolumeMutations {
  import opened Bytes
  import opened Outcomes
  import opened VolumeCheckpoint
  import opened VolumeRecords

  const TRANSACTION_REGION: seq<byte> := Ascii("system/volume-metadata-transaction")

  // ---------------------------------------------------------------- mutations

  datatype Mutation = Mutation(replace: bool, source: seq<byte>, destination: seq<byte>)

  /** A rename needs a free destination, a replacement an occupied one. */
  function Rename(regions: Regions, m: Mutation): Result<Regions> {
    if m.source !in regions || (m.destination in regions) != m.replace then Rejected
    else Accepted((regions - {m.source})[m.destination := regions[m.source]])
  }

  function RenameAll(regions: Regions, mutations: seq<Mutation>): Result<Regions>
    decreases |mutations|
  {
    if mutations == [] then Accepted(regions)
    else
      var next :- Rename(regions, mutations[0]);
      RenameAll(next, mutations[1..])
  }

  /** One mutation and the offset behind it. */
  function ParseMutation(payload: seq<byte>, at: nat): Result<(Mutation, nat)> {
    var kind :- ReadInteger(payload, at, 1);
    var sourceLength :- ReadInteger(payload, at + 1, 2);
    var source :- Take(payload, at + 3, sourceLength);
    var destinationLength :- ReadInteger(payload, at + 3 + sourceLength, 2);
    var destination :- Take(payload, at + 5 + sourceLength, destinationLength);
    var _ :- Check(ValidRegionName(source) && ValidRegionName(destination) && 1 <= kind <= 2);
    Accepted((Mutation(kind == 2, source, destination), at + 5 + sourceLength + destinationLength))
  }

  function ParseMutations(payload: seq<byte>, at: nat, left: nat): Result<seq<Mutation>>
    decreases left
  {
    if left == 0 then
      var _ :- Check(at == |payload|);
      Accepted([])
    else
      var (first, next) :- ParseMutation(payload, at);
      var rest :- ParseMutations(payload, next, left - 1);
      Accepted([first] + rest)
  }

  function MetadataMutations(payload: seq<byte>): Result<seq<Mutation>> {
    var count :- ReadInteger(payload, 0, 2);
    var _ :- Check(1 <= count <= 1024);
    ParseMutations(payload, 2, count)
  }

  /** region.extend(zeros); region[at:at+len] = payload */
  function WriteAt(region: seq<byte>, at: nat, payload: seq<byte>): (r: seq<byte>)
    ensures |r| == if at + |payload| > |region| then at + |payload| else |region|
    ensures r[at..at + |payload|] == payload
    ensures forall i :: 0 <= i < |r| && (i < at || i >= at + |payload|) ==>
              r[i] == if i < |region| then region[i] else 0
  {
    var end := at + |payload|;
    var extended := if end > |region| then region + Zeros(end - |region|) else region;
    extended[..at] + payload + extended[end..]
  }

  function Truncate(region: seq<byte>, length: nat): (r: seq<byte>)
    ensures |r| == length
    ensures forall i :: 0 <= i < length ==> r[i] == if i < |region| then region[i] else 0
  {
    if length < |region| then region[..length] else region + Zeros(length - |region|)
  }

  /** The effect of one record on the namespace; commits and index pages have none. */
  function Mutate(regions: Regions, record: LogRecord): Result<Regions> {
    var LogRecord(_, _, _, operation, name, logicalOffset, payload, _) := record;
    match operation
    case 1 =>
      var _ :- Check(payload == [] && name !in regions);
      Accepted(regions[name := []])
    case 2 =>
      var _ :- Check(payload != [] && name in regions);
      Accepted(regions[name := WriteAt(regions[name], logicalOffset, payload)])
    case 3 =>
      var _ :- Check(payload == [] && name in regions);
      Accepted(regions[name := Truncate(regions[name], logicalOffset)])
    case 4 =>
      var _ :- Check(payload == [] && name in regions);
      Accepted(regions - {name})
    case 5 =>
      var _ :- Check(ValidRegionName(payload));
      Rename(regions, Mutation(false, name, payload))
    case 6 =>
      var _ :- Check(ValidRegionName(payload));
      Rename(regions, Mutation(true, name, payload))
    case 7 =>
      var _ :- Check(name == TRANSACTION_REGION && logicalOffset == 0);
      var mutations :- MetadataMutations(payload);
      RenameAll(regions, mutations)
    case _ => Accepted(regions)
  }

  // ---------------------------------------------------------------- what a record does

  /** The bytes of a region, if there is one of this name. */
  function At(regions: Regions, name: seq<byte>): Option<seq<byte>> {
    if name in regions then Some(regions[name]) else None
  }

  /** Byte i is the payload's inside the written range, the old one outside it, and zero behind the old end. */
  ghost predicate Written(was: seq<byte>, at: nat, payload: seq<byte>, now: seq<byte>) {
    && |now| == (if at + |payload| > |was| then at + |payload| else |was|)
    && forall i :: 0 <= i < |now| ==>
         now[i] == if at <= i < at + |payload| then payload[i - at] else if i < |was| then was[i] else 0
  }

  /** Byte i is the old one, or zero behind the old end. */
  ghost predicate Truncated(was: seq<byte>, length: nat, now: seq<byte>) {
    |now| == length && forall i :: 0 <= i < length ==> now[i] == if i < |was| then was[i] else 0
  }

  /** The region of this name is now what is given, and every other name keeps its bytes. */
  ghost predicate Changed(before: Regions, name: seq<byte>, now: Option<seq<byte>>, after: Regions) {
    forall n :: At(after, n) == if n == name then now else At(before, n)
  }

  /** The source's bytes are under the destination, its own name is gone, and every other name keeps its bytes. */
  ghost predicate Renamed(before: Regions, m: Mutation, after: Regions) {
    && At(before, m.source).Some? && At(before, m.destination).Some? == m.replace
    && forall n :: At(after, n) ==
         if n == m.destination then At(before, m.source) else if n == m.source then None else At(before, n)
  }

  ghost predicate RenamedAll(before: Regions, mutations: seq<Mutation>, after: Regions)
    decreases |mutations|
  {
    if mutations == [] then before == after
    else exists next :: Renamed(before, mutations[0], next) && RenamedAll(next, mutations[1..], after)
  }

  /** Which records are accepted on a namespace, and what the namespace is afterwards. */
  ghost predicate Effect(before: Regions, r: LogRecord, after: Regions) {
    match r.operation
    case 1 => r.payload == [] && At(before, r.name).None? && Changed(before, r.name, Some([]), after)
    case 2 =>
      && r.payload != [] && r.name in before && r.name in after
      && Written(before[r.name], r.logicalOffset, r.payload, after[r.name])
      && Changed(before, r.name, Some(after[r.name]), after)
    case 3 =>
      && r.payload == [] && r.name in before && r.name in after
      && Truncated(before[r.name], r.logicalOffset, after[r.name])
      && Changed(before, r.name, Some(after[r.name]), after)
    case 4 => r.payload == [] && At(before, r.name).Some? && Changed(before, r.name, None, after)
    case 5 => ValidRegionName(r.payload) && Renamed(before, Mutation(false, r.name, r.payload), after)
    case 6 => ValidRegionName(r.payload) && Renamed(before, Mutation(true, r.name, r.payload), after)
    case 7 =>
      && r.name == TRANSACTION_REGION && r.logicalOffset == 0
      && exists mutations :: IsTransaction(r.payload, mutations) && RenamedAll(before, mutations, after)
    case _ => after == before
  }

  lemma SameRegions(a: Regions, b: Regions)
    requires forall n :: At(a, n) == At(b, n)
    ensures a == b
  {
    assert forall n :: n in a <==> n in b by {
      forall n ensures n in a <==> n in b { assert At(a, n) == At(b, n); }
    }
    forall n | n in a ensures a[n] == b[n] { assert At(a, n) == At(b, n); }
  }

  lemma ChangedIs(before: Regions, name: seq<byte>, now: seq<byte>, after: Regions)
    ensures Changed(before, name, Some(now), after) <==> after == before[name := now]
    ensures Changed(before, name, None, after) <==> after == before - {name}
  {
    if Changed(before, name, Some(now), after) { SameRegions(after, before[name := now]); }
    if Changed(before, name, None, after) { SameRegions(after, before - {name}); }
  }

  lemma RenameIs(before: Regions, m: Mutation, after: Regions)
    ensures Rename(before, m) == Accepted(after) <==> Renamed(before, m, after)
  {
    if m.source in before {
      var moved := (before - {m.source})[m.destination := before[m.source]];
      assert forall n ::
          At(moved, n) ==
          if n == m.destination then At(before, m.source) else if n == m.source then None else At(before, n);
      if Renamed(before, m, after) { SameRegions(after, moved); }
    }
  }

  lemma {:induction false} RenameAllIs(before: Regions, mutations: seq<Mutation>, after: Regions)
    ensures RenameAll(before, mutations) == Accepted(after) <==> RenamedAll(before, mutations, after)
    decreases |mutations|
  {
    hide Rename, Renamed;
    if mutations != [] {
      var m := mutations[0];
      if Rename(before, m).Accepted? {
        var next := Rename(before, m).value;
        RenameIs(before, m, next);
        RenameAllIs(next, mutations[1..], after);
      }
      if RenamedAll(before, mutations, after) {
        var next :| Renamed(before, m, next) && RenamedAll(next, mutations[1..], after);
        RenameIs(before, m, next);
        RenameAllIs(next, mutations[1..], after);
      }
    }
  }

  lemma SameBytes(a: seq<byte>, b: seq<byte>)
    requires |a| == |b| && forall i :: 0 <= i < |a| ==> a[i] == b[i]
    ensures a == b
  {}

  lemma WriteIs(was: seq<byte>, at: nat, payload: seq<byte>, now: seq<byte>)
    ensures now == WriteAt(was, at, payload) <==> Written(was, at, payload, now)
  {
    var w := WriteAt(was, at, payload);
    forall i | at <= i < at + |payload| ensures w[i] == payload[i - at] {
      assert w[i] == w[at..at + |payload|][i - at];
    }
    if Written(was, at, payload, now) { SameBytes(now, w); }
  }

  lemma TruncateIs(was: seq<byte>, length: nat, now: seq<byte>)
    ensures now == Truncate(was, length) <==> Truncated(was, length, now)
  {
    if Truncated(was, length, now) { SameBytes(now, Truncate(was, length)); }
  }

  // ---------------------------------------------------------------- transactions on the wire

  function MutationBytes(m: Mutation): seq<byte> {
    LeBytes(if m.replace then 2 else 1, 1)
    + (LeBytes(|m.source|, 2) + (m.source + (LeBytes(|m.destination|, 2) + m.destination)))
  }

  function MutationsBytes(mutations: seq<Mutation>): seq<byte> {
    if mutations == [] then [] else MutationBytes(mutations[0]) + MutationsBytes(mutations[1..])
  }

  predicate ValidMutations(mutations: seq<Mutation>) {
    forall i :: 0 <= i < |mutations| ==> ValidMutation(mutations[i])
  }

  /** The payload is the encoding of this list of one to 1024 valid mutations. */
  ghost predicate IsTransaction(payload: seq<byte>, mutations: seq<Mutation>) {
    && 1 <= |mutations| <= 1024 && ValidMutations(mutations)
    && payload == LeBytes(|mutations|, 2) + MutationsBytes(mutations)
  }

  lemma TakeIs(payload: seq<byte>, at: nat, v: seq<byte>)
    ensures Take(payload, at, |v|) == Accepted(v) <==> OccursAt(payload, v, at)
    ensures forall n :: Take(payload, at, n).Accepted? ==> |Take(payload, at, n).value| == n
  {}

  predicate ValidMutation(m: Mutation) {
    ValidRegionName(m.source) && ValidRegionName(m.destination)
  }

  lemma NameFits(name: seq<byte>)
    requires ValidRegionName(name)
    ensures |name| < 0x1_0000
  {}

  /** A mutation is read exactly when its encoding stands there. */
  lemma MutationExact(payload: seq<byte>, at: nat, m: Mutation, next: nat)
    ensures ParseMutation(payload, at) == Accepted((m, next)) <==>
            ValidMutation(m) && OccursAt(payload, MutationBytes(m), at) && next == at + |MutationBytes(m)|
  {
    hide LeBytes, Radix, Le, ReadInteger, Take, OccursAt, ValidRegionName;
    RadixWidths();
    var n, k := |m.source|, |m.destination|;
    var tail := LeBytes(k, 2) + m.destination;
    MutationOccurs(payload, at, m);
    ReadIntegerExact(payload, at, 1, if m.replace then 2 else 1);
    ReadIntegerExact(payload, at + 1, 2, n);
    TakeIs(payload, at + 3, m.source);
    ReadIntegerExact(payload, at + 3 + n, 2, k);
    TakeIs(payload, at + 5 + n, m.destination);
    if ValidMutation(m) {
      NameFits(m.source);
      NameFits(m.destination);
    }
    if ParseMutation(payload, at) == Accepted((m, next)) {
      var length := ReadInteger(payload, at + 1, 2).value;
      TakeIs(payload, at + 3, Take(payload, at + 3, length).value);
      TakeIs(payload, at + 5 + n, m.destination);
    }
  }

  lemma MutationOccurs(payload: seq<byte>, at: nat, m: Mutation)
    ensures |MutationBytes(m)| == 5 + |m.source| + |m.destination|
    ensures OccursAt(payload, MutationBytes(m), at) <==>
            && OccursAt(payload, LeBytes(if m.replace then 2 else 1, 1), at)
            && OccursAt(payload, LeBytes(|m.source|, 2), at + 1) && OccursAt(payload, m.source, at + 3)
            && OccursAt(payload, LeBytes(|m.destination|, 2), at + 3 + |m.source|)
            && OccursAt(payload, m.destination, at + 5 + |m.source|)
  {
    hide LeBytes, OccursAt;
    var kind, a, b := LeBytes(if m.replace then 2 else 1, 1), LeBytes(|m.source|, 2), LeBytes(|m.destination|, 2);
    OccursJoin(payload, b, m.destination, at + 3 + |m.source|);
    OccursJoin(payload, m.source, b + m.destination, at + 3);
    OccursJoin(payload, a, m.source + (b + m.destination), at + 1);
    OccursJoin(payload, kind, a + (m.source + (b + m.destination)), at);
  }

  lemma {:induction false} MutationsExact(payload: seq<byte>, at: nat, mutations: seq<Mutation>)
    requires at <= |payload|
    ensures ParseMutations(payload, at, |mutations|) == Accepted(mutations) <==>
            ValidMutations(mutations) && payload[at..] == MutationsBytes(mutations)
    decreases |mutations|
  {
    hide ParseMutation, MutationBytes, ValidRegionName;
    if mutations == [] {
      assert payload[at..] == [] <==> at == |payload|;
    } else {
      var m, rest := mutations[0], mutations[1..];
      var next := at + |MutationBytes(m)|;
      MutationExact(payload, at, m, next);
      ValidFirst(mutations);
      assert mutations == [m] + rest;
      if next <= |payload| {
        MutationsExact(payload, next, rest);
        if payload[at..next] == MutationBytes(m) {
          assert payload[at..] == MutationBytes(m) + payload[next..];
          SamePrefix(MutationBytes(m), payload[next..], MutationsBytes(rest));
        } else {
          assert payload[at..][..|MutationBytes(m)|] == payload[at..next];
          assert MutationsBytes(mutations)[..|MutationBytes(m)|] == MutationBytes(m);
        }
      }
      if ParseMutations(payload, at, |mutations|) == Accepted(mutations) {
        var (first, then') := ParseMutation(payload, at).value;
        assert mutations == [first] + ParseMutations(payload, then', |mutations| - 1).value;
        assert first == m && ParseMutations(payload, then', |mutations| - 1).value == rest;
        MutationExact(payload, at, m, then');
      }
    }
  }

  lemma SamePrefix(a: seq<byte>, b: seq<byte>, c: seq<byte>)
    ensures a + b == a + c <==> b == c
  {
    if a + b == a + c { assert b == (a + b)[|a|..] && c == (a + c)[|a|..]; }
  }

  lemma ValidFirst(mutations: seq<Mutation>)
    requires mutations != []
    ensures ValidMutations(mutations) <==> ValidMutation(mutations[0]) && ValidMutations(mutations[1..])
  {
    hide ValidRegionName;
    if ValidMutation(mutations[0]) && ValidMutations(mutations[1..]) {
      forall i | 0 <= i < |mutations| ensures ValidMutation(mutations[i]) {
        if i > 0 { assert mutations[i] == mutations[1..][i - 1]; }
      }
    }
  }

  /** A transaction payload is accepted exactly as the encoding of its mutations. */
  lemma TransactionExact(payload: seq<byte>, mutations: seq<Mutation>)
    ensures MetadataMutations(payload) == Accepted(mutations) <==> IsTransaction(payload, mutations)
  {
    hide LeBytes, Radix, Le, ParseMutations, ReadInteger, ValidMutations;
    RadixWidths();
    var n := |mutations|;
    ReadIntegerExact(payload, 0, 2, n);
    if |payload| >= 2 {
      MutationsExact(payload, 2, mutations);
      assert payload == payload[..2] + payload[2..];
      if payload == LeBytes(n, 2) + MutationsBytes(mutations) {
        assert payload[..2] == LeBytes(n, 2) && payload[2..] == MutationsBytes(mutations);
      }
    }
    if MetadataMutations(payload).Accepted? {
      ParsedCount(payload, 2, ReadInteger(payload, 0, 2).value);
    }
  }

  lemma {:induction false} ParsedCount(payload: seq<byte>, at: nat, left: nat)
    ensures ParseMutations(payload, at, left).Accepted? ==> |ParseMutations(payload, at, left).value| == left
    decreases left
  {
    hide ParseMutation;
    if left > 0 && ParseMutation(payload, at).Accepted? {
      ParsedCount(payload, ParseMutation(payload, at).value.1, left - 1);
    }
  }

  /** A record is accepted, with this namespace behind it, exactly when its effect says so. */
  lemma MutateExact(before: Regions, r: LogRecord, after: Regions)
    ensures Mutate(before, r) == Accepted(after) <==> Effect(before, r, after)
  {
    hide Rename, RenameAll, RenamedAll, Renamed, Changed, WriteAt, Truncate, Written, Truncated, ValidRegionName,
         MetadataMutations, IsTransaction;
    match r.operation
    case 1 => ChangedIs(before, r.name, [], after);
    case 2 =>
      if r.name in before {
        var now := WriteAt(before[r.name], r.logicalOffset, r.payload);
        ChangedIs(before, r.name, now, after);
        if r.name in after {
          ChangedIs(before, r.name, after[r.name], after);
          WriteIs(before[r.name], r.logicalOffset, r.payload, after[r.name]);
        }
      }
    case 3 =>
      if r.name in before {
        var now := Truncate(before[r.name], r.logicalOffset);
        ChangedIs(before, r.name, now, after);
        if r.name in after {
          ChangedIs(before, r.name, after[r.name], after);
          TruncateIs(before[r.name], r.logicalOffset, after[r.name]);
        }
      }
    case 4 => ChangedIs(before, r.name, [], after);
    case 5 => RenameIs(before, Mutation(false, r.name, r.payload), after);
    case 6 => RenameIs(before, Mutation(true, r.name, r.payload), after);
    case 7 => TransactionIs(before, r.payload, after);
    case _ =>
  }

  lemma TransactionIs(before: Regions, payload: seq<byte>, after: Regions)
    ensures var parsed := MetadataMutations(payload);
            parsed.Accepted? && RenameAll(before, parsed.value) == Accepted(after) <==>
            exists mutations :: IsTransaction(payload, mutations) && RenamedAll(before, mutations, after)
  {
    hide RenameAll, RenamedAll, MetadataMutations, IsTransaction;
    if MetadataMutations(payload).Accepted? {
      var mutations := MetadataMutations(payload).value;
      TransactionExact(payload, mutations);
      RenameAllIs(before, mutations, after);
    }
    forall mutations | IsTransaction(payload, mutations) && RenamedAll(before, mutations, after)
      ensures MetadataMutations(payload) == Accepted(mutations) && RenameAll(before, mutations) == Accepted(after)
    {
      TransactionExact(payload, mutations);
      RenameAllIs(before, mutations, after);
    }
  }

  // ---------------------------------------------------------------- where every byte comes from

  /** The namespace after the first n records. */
  function RunAll(records: seq<LogRecord>, n: nat): Result<Regions>
    requires n <= |records|
  {
    if n == 0 then Accepted(map[])
    else
      var before :- RunAll(records, n - 1);
      Mutate(before, records[n - 1])
  }

  /** Nothing wrote the byte since it came to be, or byte `position` of a record's payload was the last to. */
  datatype Origin = Zero | FromRecord(index: nat, position: nat)

  /** The name a region had before a list of renames, or None if the name is free after it. */
  function NameBefore(mutations: seq<Mutation>, n: nat, name: seq<byte>): Option<seq<byte>>
    requires n <= |mutations|
  {
    if n == 0 then Some(name)
    else if name == mutations[n - 1].destination then NameBefore(mutations, n - 1, mutations[n - 1].source)
    else if name == mutations[n - 1].source then None
    else NameBefore(mutations, n - 1, name)
  }

  /** The name a region had before a record, or None if there was none to have it. */
  ghost function NameBeforeRecord(r: LogRecord, name: seq<byte>): Option<seq<byte>> {
    match r.operation
    case 1 => if name == r.name then None else Some(name)
    case 4 => if name == r.name then None else Some(name)
    case 5 => NameBefore([Mutation(false, r.name, r.payload)], 1, name)
    case 6 => NameBefore([Mutation(true, r.name, r.payload)], 1, name)
    case 7 =>
      var mutations := MetadataMutations(r.payload);
      if mutations.Accepted? then NameBefore(mutations.value, |mutations.value|, name) else Some(name)
    case _ => Some(name)
  }

  /** The last write that reached byte i of a region, followed back through renames, truncations and removals. */
  ghost function OriginOf(records: seq<LogRecord>, n: nat, name: seq<byte>, i: nat): Origin
    requires n <= |records|
  {
    if n == 0 then Zero
    else
      var r := records[n - 1];
      if r.operation == 2 && r.name == name && r.logicalOffset <= i < r.logicalOffset + |r.payload| then
        FromRecord(n - 1, i - r.logicalOffset)
      else if r.operation == 3 && r.name == name && i >= r.logicalOffset then Zero
      else
        var before := NameBeforeRecord(r, name);
        if before.None? then Zero else OriginOf(records, n - 1, before.value, i)
  }

  ghost predicate HasByte(regions: Regions, name: seq<byte>, i: nat) {
    name in regions && i < |regions[name]|
  }

  /** The byte is the one its origin says; where there is no byte there is no origin. */
  ghost predicate Explained(records: seq<LogRecord>, n: nat, regions: Regions, name: seq<byte>, i: nat)
    requires n <= |records|
  {
    match OriginOf(records, n, name, i)
    case Zero => HasByte(regions, name, i) ==> regions[name][i] == 0
    case FromRecord(k, j) =>
      && HasByte(regions, name, i) && k < n && records[k].operation == 2 && j < |records[k].payload|
      && regions[name][i] == records[k].payload[j]
  }

  lemma {:induction false} RenamesMove(before: Regions, mutations: seq<Mutation>, after: Regions, name: seq<byte>)
    requires RenameAll(before, mutations) == Accepted(after)
    ensures var source := NameBefore(mutations, |mutations|, name);
            At(after, name) == if source.None? then None else At(before, source.value)
    decreases |mutations|
  {
    hide Rename;
    if mutations != [] {
      var n := |mutations| - 1;
      var middle := RenameSplits(before, mutations, after);
      RenameIs(middle, mutations[n], after);
      var earlier := mutations[..n];
      RenamesMove(before, earlier, middle, name);
      RenamesMove(before, earlier, middle, mutations[n].source);
      NameBeforePrefix(mutations, n, name);
      NameBeforePrefix(mutations, n, mutations[n].source);
    }
  }

  lemma {:induction false} NameBeforePrefix(mutations: seq<Mutation>, n: nat, name: seq<byte>)
    requires n <= |mutations|
    ensures NameBefore(mutations[..n], n, name) == NameBefore(mutations, n, name)
  {
    NameBeforeAgrees(mutations[..n], mutations, n, name);
  }

  lemma {:induction false} NameBeforeAgrees(a: seq<Mutation>, b: seq<Mutation>, n: nat, name: seq<byte>)
    requires n <= |a| && n <= |b| && forall i :: 0 <= i < n ==> a[i] == b[i]
    ensures NameBefore(a, n, name) == NameBefore(b, n, name)
    decreases n
  {
    if n > 0 {
      NameBeforeAgrees(a, b, n - 1, name);
      NameBeforeAgrees(a, b, n - 1, a[n - 1].source);
    }
  }

  /** All but the last rename, then the last. */
  lemma {:induction false} RenameSplits(before: Regions, mutations: seq<Mutation>, after: Regions)
    returns (middle: Regions)
    requires mutations != [] && RenameAll(before, mutations) == Accepted(after)
    ensures RenameAll(before, mutations[..|mutations| - 1]) == Accepted(middle)
    ensures Rename(middle, mutations[|mutations| - 1]) == Accepted(after)
    decreases |mutations|
  {
    hide Rename;
    var n := |mutations| - 1;
    if n == 0 {
      middle := before;
    } else {
      var next := Rename(before, mutations[0]).value;
      middle := RenameSplits(next, mutations[1..], after);
      assert mutations[..n][1..] == mutations[1..][..n - 1] && mutations[..n][0] == mutations[0];
    }
  }

  /** A region keeps its bytes, under the name it had before, except where the record wrote or cut it. */
  lemma RecordMoves(before: Regions, r: LogRecord, after: Regions, name: seq<byte>)
    requires Mutate(before, r) == Accepted(after)
    ensures var source := NameBeforeRecord(r, name);
            if r.operation == 1 && r.name == name then At(after, name) == Some([])
            else if (r.operation == 2 || r.operation == 3) && r.name == name then
              source == Some(name) && name in before && name in after
            else At(after, name) == if source.None? then None else At(before, source.value)
  {
    hide WriteAt, Truncate, ValidRegionName, MetadataMutations;
    if r.operation == 7 { RenamesMove(before, MetadataMutations(r.payload).value, after, name); }
    if r.operation == 5 { OneRename(before, Mutation(false, r.name, r.payload), after, name); }
    if r.operation == 6 { OneRename(before, Mutation(true, r.name, r.payload), after, name); }
  }

  lemma OneRename(before: Regions, m: Mutation, after: Regions, name: seq<byte>)
    requires Rename(before, m) == Accepted(after)
    ensures var source := NameBefore([m], 1, name);
            At(after, name) == if source.None? then None else At(before, source.value)
  {
    assert NameBefore([m], 0, m.source) == Some(m.source) && NameBefore([m], 0, name) == Some(name);
  }

  /** Over every accepted run each byte of the namespace is the one its last surviving write put there, or zero. */
  lemma {:induction false} BytesHaveOrigins(records: seq<LogRecord>, n: nat, name: seq<byte>, i: nat)
    requires n <= |records| && RunAll(records, n).Accepted?
    ensures Explained(records, n, RunAll(records, n).value, name, i)
    decreases n
  {
    hide Mutate, NameBeforeRecord;
    if n > 0 {
      var before, after := RunAll(records, n - 1).value, RunAll(records, n).value;
      var r := records[n - 1];
      RecordMoves(before, r, after, name);
      BytesHaveOrigins(records, n - 1, name, i);
      var source := NameBeforeRecord(r, name);
      if source.Some? { BytesHaveOrigins(records, n - 1, source.value, i); }
      if r.operation == 1 && r.name == name { CreateForgets(r); }
      if (r.operation == 2 || r.operation == 3) && r.name == name { WrittenByte(before, r, after, i); }
    }
  }

  lemma CreateForgets(r: LogRecord)
    requires r.operation == 1
    ensures NameBeforeRecord(r, r.name).None?
  {}

  lemma WrittenByte(before: Regions, r: LogRecord, after: Regions, i: nat)
    requires Mutate(before, r) == Accepted(after) && (r.operation == 2 || r.operation == 3)
    ensures r.name in before && r.name in after
    ensures r.operation == 2 ==> r.logicalOffset + |r.payload| <= |after[r.name]| && |before[r.name]| <= |after[r.name]|
    ensures r.operation == 3 ==> |after[r.name]| == r.logicalOffset
    ensures i < |after[r.name]| ==>
              after[r.name][i] ==
              if r.operation == 2 && r.logicalOffset <= i < r.logicalOffset + |r.payload|
              then r.payload[i - r.logicalOffset]
              else if i < |before[r.name]| then before[r.name][i] else 0
  {
    hide Mutate;
    MutateExact(before, r, after);
  }
}
