/**
 * The records of the hosted volume: checksummed, sequenced and named. A record is found at an offset exactly when its
 * encoding stands there.
 */
module VolumeRecords {
  import opened Bytes
  import opened Outcomes
  import opened Objects
  import opened ExtentIndex
  import opened VolumeCheckpoint

  datatype LogRecord = LogRecord(offset: nat, total: nat, sequence: nat, operation: nat, name: seq<byte>,
                                 logicalOffset: nat, payload: seq<byte>, checksum: seq<byte>)

  // ---------------------------------------------------------------- records

  function HeaderField(data: seq<byte>, offset: nat, start: nat, end: nat): nat
    requires start <= end <= RECORD_BYTES && offset + RECORD_BYTES <= |data|
  {
    Le(data[offset + start..offset + end])
  }

  function Total(data: seq<byte>, offset: nat): nat
    requires offset + RECORD_BYTES <= |data|
  {
    HeaderField(data, offset, 8, 16)
  }

  predicate LengthsOk(data: seq<byte>, offset: nat)
    requires offset + RECORD_BYTES <= |data|
  {
    1 <= HeaderField(data, offset, 25, 27) <= 512
    && Total(data, offset) == RECORD_BYTES + HeaderField(data, offset, 25, 27) + HeaderField(data, offset, 35, 43)
  }

  predicate MagicOk(data: seq<byte>, offset: nat)
    requires offset + RECORD_BYTES <= |data|
  {
    data[offset..offset + 8] == RECORD_MAGIC
  }

  function RecordAt(data: seq<byte>, offset: nat): LogRecord
    requires offset + RECORD_BYTES <= |data| && LengthsOk(data, offset) && offset + Total(data, offset) <= |data|
  {
    var payloadStart := offset + RECORD_BYTES + HeaderField(data, offset, 25, 27);
    LogRecord(offset, Total(data, offset), HeaderField(data, offset, 16, 24), HeaderField(data, offset, 24, 25),
              data[offset + RECORD_BYTES..payloadStart], HeaderField(data, offset, 27, 35),
              data[payloadStart..offset + Total(data, offset)], data[offset + 43..offset + 75])
  }

  /** The hashed bytes: sequence, operation, name length, logical offset, payload length, name, payload. */
  predicate ChecksumOk(h: Hash, data: seq<byte>, offset: nat)
    requires offset + RECORD_BYTES <= |data| && LengthsOk(data, offset) && offset + Total(data, offset) <= |data|
  {
    h(data[offset + 16..offset + 43] + data[offset + RECORD_BYTES..offset + Total(data, offset)])
    == data[offset + 43..offset + 75]
  }

  predicate OperationOk(operation: nat) {
    1 <= operation <= 9
  }

  predicate PhysicallyValid(h: Hash, data: seq<byte>, offset: nat) {
    && offset + RECORD_BYTES <= |data| && MagicOk(data, offset)
    && LengthsOk(data, offset) && offset + Total(data, offset) <= |data|
    && OperationOk(HeaderField(data, offset, 24, 25))
    && ValidRegionName(RecordAt(data, offset).name) && ChecksumOk(h, data, offset)
  }

  ghost predicate ValidRecordAfter(h: Hash, data: seq<byte>, start: nat) {
    exists c :: start <= c <= |data| && PhysicallyValid(h, data, c)
  }

  /** What the replay loop finds at an offset. */
  datatype Found =
    | End                      // too few bytes left: stop
    | Malformed                // format error
    | Damaged                  // whole record, wrong checksum
    | Good(record: LogRecord)

  function Find(h: Hash, data: seq<byte>, offset: nat, sequence: nat): (f: Found)
    ensures f.Good? ==> offset + RECORD_BYTES <= offset + f.record.total <= |data| && f.record.offset == offset
    ensures f.Good? ==> f.record.sequence == sequence + 1
  {
    if |data| < offset + RECORD_BYTES then End
    else if !MagicOk(data, offset) || !LengthsOk(data, offset) then Malformed
    else if offset + Total(data, offset) > |data| then End
    else
      var record := RecordAt(data, offset);
      if record.sequence != sequence + 1 || !OperationOk(record.operation) then Malformed
      else if !ChecksumOk(h, data, offset) then Damaged
      else if !ValidRegionName(record.name) then Malformed
      else Good(record)
  }

  lemma ValidHasMagic(h: Hash, data: seq<byte>, c: nat)
    requires PhysicallyValid(h, data, c)
    ensures OccursAt(data, RECORD_MAGIC, c)
  {}

  /** Looking only at occurrences of the record magic finds every valid record. */
  method HasValidRecordAfter(h: Hash, data: seq<byte>, start: nat) returns (found: bool)
    ensures found <==> ValidRecordAfter(h, data, start)
  {
    hide PhysicallyValid, OccursAt;
    forall c: nat | PhysicallyValid(h, data, c) ensures OccursAt(data, RECORD_MAGIC, c) {
      ValidHasMagic(h, data, c);
    }
    var candidate := FindBytes(data, RECORD_MAGIC, start);
    MagicInBounds(data, candidate);
    ghost var from := start;
    while candidate >= 0
      invariant start <= from
      invariant forall c: nat :: start <= c < from ==> !PhysicallyValid(h, data, c)
      invariant candidate >= 0 ==> from <= candidate <= |data|
      invariant forall c: nat :: from <= c && (candidate >= 0 ==> c < candidate) ==> !OccursAt(data, RECORD_MAGIC, c)
      decreases |data| + 1 - from
    {
      if PhysicallyValid(h, data, candidate) { return true; }
      from := candidate + 1;
      candidate := FindBytes(data, RECORD_MAGIC, candidate + 1);
      MagicInBounds(data, candidate);
    }
    return false;
  }

  lemma MagicInBounds(data: seq<byte>, at: int)
    requires at >= 0 ==> OccursAt(data, RECORD_MAGIC, at)
    ensures at <= |data|
  {}

  lemma FindAtEnd(h: Hash, data: seq<byte>, offset: nat, sequence: nat)
    ensures offset >= |data| ==> Find(h, data, offset, sequence) == End
  {}

  // ---------------------------------------------------------------- what stands where a record is found

  /** The hashed material of a record. */
  function RecordMaterial(r: LogRecord): seq<byte> {
    LeBytes(r.sequence, 8) + LeBytes(r.operation, 1) + LeBytes(|r.name|, 2) + LeBytes(r.logicalOffset, 8)
    + LeBytes(|r.payload|, 8) + r.name + r.payload
  }

  /** Field by field, the record's bytes stand at its offset. */
  ghost predicate Stands(data: seq<byte>, r: LogRecord) {
    var at, nameEnd := r.offset, r.offset + RECORD_BYTES + |r.name|;
    && r.total == RECORD_BYTES + |r.name| + |r.payload| && at + r.total <= |data|
    && data[at..at + 8] == RECORD_MAGIC && FieldAt(data, at + 8, r.total, 8) && FieldAt(data, at + 16, r.sequence, 8)
    && FieldAt(data, at + 24, r.operation, 1) && FieldAt(data, at + 25, |r.name|, 2)
    && FieldAt(data, at + 27, r.logicalOffset, 8) && FieldAt(data, at + 35, |r.payload|, 8)
    && data[at + 43..at + 75] == r.checksum
    && data[at + RECORD_BYTES..nameEnd] == r.name && data[nameEnd..at + r.total] == r.payload
  }

  ghost predicate FieldAt(data: seq<byte>, at: nat, v: nat, width: nat) {
    at + width <= |data| && v < Radix(width) && data[at..at + width] == LeBytes(v, width)
  }

  lemma FieldIs(data: seq<byte>, offset: nat, start: nat, end: nat, v: nat)
    requires start <= end <= RECORD_BYTES && offset + RECORD_BYTES <= |data|
    ensures HeaderField(data, offset, start, end) == v <==> FieldAt(data, offset + start, v, end - start)
  {
    hide Le, LeBytes, Radix;
    var s := data[offset + start..offset + end];
    LeBytesOfLe(s);
    LeBound(s);
    if v < Radix(end - start) { LeRoundTrip(v, end - start); }
  }

  lemma FieldsAre(data: seq<byte>, r: LogRecord)
    requires r.offset + RECORD_BYTES <= |data|
    ensures HeaderField(data, r.offset, 8, 16) == r.total <==> FieldAt(data, r.offset + 8, r.total, 8)
    ensures HeaderField(data, r.offset, 16, 24) == r.sequence <==> FieldAt(data, r.offset + 16, r.sequence, 8)
    ensures HeaderField(data, r.offset, 24, 25) == r.operation <==> FieldAt(data, r.offset + 24, r.operation, 1)
    ensures HeaderField(data, r.offset, 25, 27) == |r.name| <==> FieldAt(data, r.offset + 25, |r.name|, 2)
    ensures HeaderField(data, r.offset, 27, 35) == r.logicalOffset <==> FieldAt(data, r.offset + 27, r.logicalOffset, 8)
    ensures HeaderField(data, r.offset, 35, 43) == |r.payload| <==> FieldAt(data, r.offset + 35, |r.payload|, 8)
  {
    hide HeaderField, FieldAt;
    FieldIs(data, r.offset, 8, 16, r.total);
    FieldIs(data, r.offset, 16, 24, r.sequence);
    FieldIs(data, r.offset, 24, 25, r.operation);
    FieldIs(data, r.offset, 25, 27, |r.name|);
    FieldIs(data, r.offset, 27, 35, r.logicalOffset);
    FieldIs(data, r.offset, 35, 43, |r.payload|);
  }

  /** The checksum covers exactly the sequence, operation, lengths, logical offset, name and payload. */
  lemma MaterialStands(data: seq<byte>, r: LogRecord)
    requires Stands(data, r)
    ensures data[r.offset + 16..r.offset + 43] + data[r.offset + RECORD_BYTES..r.offset + r.total] == RecordMaterial(r)
  {
    hide LeBytes, Radix;
    var at := r.offset;
    assert data[at + 16..at + 43] == data[at + 16..at + 24] + data[at + 24..at + 25] + data[at + 25..at + 27]
                                     + data[at + 27..at + 35] + data[at + 35..at + 43];
    assert data[at + RECORD_BYTES..at + r.total] == r.name + r.payload;
  }

  /**
   * A record is found iff it carries the next sequence number, a known operation, a valid region name and the
   * checksum of its own material, and its bytes stand there.
   */
  lemma RecordExact(h: Hash, data: seq<byte>, offset: nat, sequence: nat, r: LogRecord)
    ensures Find(h, data, offset, sequence) == Good(r) <==>
            && r.offset == offset && Stands(data, r) && r.sequence == sequence + 1 && 1 <= r.operation <= 9
            && 1 <= |r.name| <= 512 && ValidRegionName(r.name) && r.checksum == h(RecordMaterial(r))
  {
    hide Le, LeBytes, Radix, FieldAt, HeaderField, ValidRegionName, RecordMaterial;
    if offset + RECORD_BYTES <= |data| && r.offset == offset {
      FieldsAre(data, r);
      if Find(h, data, offset, sequence) == Good(r) {
        assert Stands(data, r);
        MaterialStands(data, r);
      }
      if Stands(data, r) && 1 <= |r.name| <= 512 {
        MaterialStands(data, r);
        assert RecordAt(data, offset) == r;
      }
    }
  }

  /** A record with a known operation, a name length in bounds and the given verdict on its checksum stands here. */
  ghost predicate StandsChecked(h: Hash, data: seq<byte>, at: nat, r: LogRecord, valid: bool) {
    && r.offset == at && Stands(data, r) && 1 <= r.operation <= 9 && 1 <= |r.name| <= 512
    && (r.checksum == h(RecordMaterial(r)) <==> valid)
  }

  lemma StandsIsRead(h: Hash, data: seq<byte>, at: nat, r: LogRecord, valid: bool)
    requires StandsChecked(h, data, at, r, valid)
    ensures at + RECORD_BYTES <= |data| && MagicOk(data, at) && LengthsOk(data, at) && at + Total(data, at) <= |data|
    ensures RecordAt(data, at) == r && (ChecksumOk(h, data, at) <==> valid)
    ensures HeaderField(data, at, 24, 25) == r.operation
  {
    hide Le, LeBytes, Radix, FieldAt, HeaderField, RecordMaterial;
    FieldsAre(data, r);
    MaterialStands(data, r);
  }

  lemma ReadStands(h: Hash, data: seq<byte>, at: nat)
    requires at + RECORD_BYTES <= |data| && MagicOk(data, at) && LengthsOk(data, at) && at + Total(data, at) <= |data|
    requires OperationOk(HeaderField(data, at, 24, 25))
    ensures StandsChecked(h, data, at, RecordAt(data, at), ChecksumOk(h, data, at))
  {
    hide Le, LeBytes, Radix, FieldAt, HeaderField, RecordMaterial;
    var r := RecordAt(data, at);
    FieldsAre(data, r);
    assert Stands(data, r);
    MaterialStands(data, r);
  }

  /** The search for later records looks for records that stand with a proper name and a true checksum. */
  lemma ValidRecordExact(h: Hash, data: seq<byte>, at: nat)
    ensures PhysicallyValid(h, data, at) <==>
            exists r :: StandsChecked(h, data, at, r, true) && ValidRegionName(r.name)
  {
    hide ValidRegionName, StandsChecked, ChecksumOk, RecordAt, HeaderField;
    if PhysicallyValid(h, data, at) { ReadStands(h, data, at); }
    if r :| StandsChecked(h, data, at, r, true) && ValidRegionName(r.name) {
      StandsIsRead(h, data, at, r, true);
      KnownOperation(h, data, at, r, true);
    }
  }

  lemma KnownOperation(h: Hash, data: seq<byte>, at: nat, r: LogRecord, valid: bool)
    requires StandsChecked(h, data, at, r, valid)
    ensures OperationOk(r.operation)
  {}

  /** A damaged record stands in full, in sequence, under a false checksum. */
  lemma DamagedExact(h: Hash, data: seq<byte>, at: nat, sequence: nat)
    ensures Find(h, data, at, sequence).Damaged? <==>
            exists r :: StandsChecked(h, data, at, r, false) && r.sequence == sequence + 1
  {
    hide ValidRegionName, StandsChecked, ChecksumOk;
    if Find(h, data, at, sequence).Damaged? {
      ReadStands(h, data, at);
      assert StandsChecked(h, data, at, RecordAt(data, at), false);
    }
    if r :| StandsChecked(h, data, at, r, false) && r.sequence == sequence + 1 {
      StandsIsRead(h, data, at, r, false);
      KnownOperation(h, data, at, r, false);
    }
  }

  /** A header stands here that announces more bytes than the file has. */
  ghost predicate Torn(data: seq<byte>, at: nat, nameLength: nat, payloadLength: nat) {
    && at + RECORD_BYTES <= |data| < at + RECORD_BYTES + nameLength + payloadLength
    && data[at..at + 8] == RECORD_MAGIC && 1 <= nameLength <= 512
    && FieldAt(data, at + 8, RECORD_BYTES + nameLength + payloadLength, 8)
    && FieldAt(data, at + 25, nameLength, 2) && FieldAt(data, at + 35, payloadLength, 8)
  }

  /** The log ends where no header fits or where one announces more than there is. */
  lemma EndExact(h: Hash, data: seq<byte>, at: nat, sequence: nat)
    ensures Find(h, data, at, sequence).End? <==>
            |data| < at + RECORD_BYTES || exists n, m :: Torn(data, at, n, m)
  {
    hide ValidRegionName, ChecksumOk, FieldAt, HeaderField, RecordAt;
    if |data| >= at + RECORD_BYTES {
      var n, m := HeaderField(data, at, 25, 27), HeaderField(data, at, 35, 43);
      FieldIs(data, at, 25, 27, n);
      FieldIs(data, at, 35, 43, m);
      FieldIs(data, at, 8, 16, RECORD_BYTES + n + m);
      if Find(h, data, at, sequence).End? { assert Torn(data, at, n, m); }
      if n', m' :| Torn(data, at, n', m') {
        FieldIs(data, at, 25, 27, n');
        FieldIs(data, at, 35, 43, m');
        FieldIs(data, at, 8, 16, RECORD_BYTES + n' + m');
      }
    }
  }

  // ---------------------------------------------------------------- prefixes

  lemma FieldOfPrefix(data: seq<byte>, offset: nat, k: nat, a: nat, b: nat)
    requires offset + RECORD_BYTES <= k <= |data| && a <= b <= RECORD_BYTES
    ensures HeaderField(data[..k], offset, a, b) == HeaderField(data, offset, a, b)
  {
    assert data[..k][offset + a..offset + b] == data[offset + a..offset + b];
  }

  lemma FieldsOfPrefix(data: seq<byte>, offset: nat, k: nat)
    requires offset + RECORD_BYTES <= k <= |data|
    ensures MagicOk(data[..k], offset) == MagicOk(data, offset)
    ensures LengthsOk(data[..k], offset) == LengthsOk(data, offset) && Total(data[..k], offset) == Total(data, offset)
    ensures HeaderField(data[..k], offset, 24, 25) == HeaderField(data, offset, 24, 25)
  {
    hide Le;
    assert data[..k][offset..offset + 8] == data[offset..offset + 8];
    FieldOfPrefix(data, offset, k, 8, 16);
    FieldOfPrefix(data, offset, k, 24, 25);
    FieldOfPrefix(data, offset, k, 25, 27);
    FieldOfPrefix(data, offset, k, 35, 43);
  }

  lemma RecordOfPrefix(h: Hash, data: seq<byte>, offset: nat, k: nat)
    requires offset + RECORD_BYTES <= k <= |data| && LengthsOk(data, offset) && offset + Total(data, offset) <= k
    ensures LengthsOk(data[..k], offset) && Total(data[..k], offset) == Total(data, offset)
    ensures RecordAt(data[..k], offset) == RecordAt(data, offset)
            && ChecksumOk(h, data[..k], offset) == ChecksumOk(h, data, offset)
  {
    hide Le;
    FieldsOfPrefix(data, offset, k);
    var cut := data[..k];
    var end := offset + Total(data, offset);
    var payloadStart := offset + RECORD_BYTES + HeaderField(data, offset, 25, 27);
    assert cut[offset + RECORD_BYTES..payloadStart] == data[offset + RECORD_BYTES..payloadStart];
    assert cut[payloadStart..end] == data[payloadStart..end];
    assert cut[offset + 43..offset + 75] == data[offset + 43..offset + 75];
    assert cut[offset + 16..offset + 43] == data[offset + 16..offset + 43];
    assert cut[offset + RECORD_BYTES..end] == data[offset + RECORD_BYTES..end];
    FieldOfPrefix(data, offset, k, 16, 24);
    FieldOfPrefix(data, offset, k, 25, 27);
    FieldOfPrefix(data, offset, k, 27, 35);
  }

  lemma FindOfPrefix(h: Hash, data: seq<byte>, offset: nat, sequence: nat, k: nat)
    requires k <= |data|
    ensures var f, f' := Find(h, data, offset, sequence), Find(h, data[..k], offset, sequence);
            && (f'.Good? <==> f.Good? && offset + f.record.total <= k) && (f'.Good? ==> f' == f)
            && (f'.Malformed? ==> f.Malformed?) && (f'.Damaged? ==> f.Damaged?)
  {
    hide Le, LengthsOk, MagicOk, ChecksumOk, ValidRegionName;
    if offset + RECORD_BYTES <= k {
      FieldsOfPrefix(data, offset, k);
      if LengthsOk(data, offset) && offset + Total(data, offset) <= k { RecordOfPrefix(h, data, offset, k); }
    }
  }

  lemma ValidOfPrefix(h: Hash, data: seq<byte>, c: nat, k: nat)
    requires k <= |data| && PhysicallyValid(h, data[..k], c)
    ensures PhysicallyValid(h, data, c)
  {
    hide Le, LengthsOk, MagicOk, ChecksumOk, ValidRegionName;
    FieldsOfPrefix(data, c, k);
    RecordOfPrefix(h, data, c, k);
  }

  lemma NoneAfterInPrefix(h: Hash, data: seq<byte>, start: nat, k: nat)
    requires k <= |data| && !ValidRecordAfter(h, data, start)
    ensures !ValidRecordAfter(h, data[..k], start)
  {
    hide PhysicallyValid;
    forall c | start <= c <= k ensures !PhysicallyValid(h, data[..k], c) {
      if PhysicallyValid(h, data[..k], c) { ValidOfPrefix(h, data, c, k); }
    }
  }
}
