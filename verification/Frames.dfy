/**
 * The durable-frame scanner. A scan stops quietly at a torn tail, and fails when a damaged frame is
 * followed by a good one. Cutting the bytes anywhere keeps exactly the frames that still fit.
 */
module Frames {
  import opened Bytes
  import opened Outcomes
  import opened Objects

  const HEADER_BYTES: nat := 52

  /** physical_frame's four outcomes: None, False, the raised error, and a frame. */
  datatype Frame = Incomplete | Invalid | Unsupported | Whole(end: nat, payload: seq<byte>)

  function FrameChecksum(h: Hash, magic: seq<byte>, payload: seq<byte>): seq<byte> {
    h(magic + LeBytes(1, 2) + LeBytes(|payload|, 8) + payload)
  }

  function PhysicalFrame(h: Hash, data: seq<byte>, magic: seq<byte>, offset: nat): (f: Frame)
    ensures f.Whole? ==> offset + HEADER_BYTES <= f.end <= |data|
  {
    if |data| < offset + HEADER_BYTES then Incomplete
    else
      var header := data[offset..offset + HEADER_BYTES];
      if header[..8] != magic then Invalid
      else if Le(header[8..10]) != 1 || Le(header[10..12]) != 0 then Unsupported
      else
        var end := offset + HEADER_BYTES + Le(header[12..20]);
        if end > |data| then Incomplete
        else
          var payload := data[offset + HEADER_BYTES..end];
          if FrameChecksum(h, magic, payload) != header[20..52] then Invalid else Whole(end, payload)
  }

  /** Some whole frame starts after `offset`. */
  ghost predicate FrameFollows(h: Hash, data: seq<byte>, magic: seq<byte>, offset: nat) {
    exists c :: offset < c <= |data| && PhysicalFrame(h, data, magic, c).Whole?
  }

  lemma WholeHasMagic(h: Hash, data: seq<byte>, magic: seq<byte>, c: nat)
    requires PhysicalFrame(h, data, magic, c).Whole?
    ensures OccursAt(data, magic, c)
  {
    assert data[c..c + HEADER_BYTES][..8] == data[c..c + 8];
  }

  /** Looking only at occurrences of the magic finds every following frame. */
  method ValidFrameFollows(h: Hash, data: seq<byte>, magic: seq<byte>, offset: nat) returns (found: bool)
    ensures found <==> FrameFollows(h, data, magic, offset)
  {
    hide PhysicalFrame, OccursAt;
    forall c: nat | PhysicalFrame(h, data, magic, c).Whole? ensures OccursAt(data, magic, c) {
      WholeHasMagic(h, data, magic, c);
    }
    var candidate := FindBytes(data, magic, offset + 1);
    InBounds(data, magic, candidate);
    ghost var from := offset + 1;
    while candidate >= 0
      invariant offset < from
      invariant forall c: nat :: offset < c < from ==> !PhysicalFrame(h, data, magic, c).Whole?
      invariant candidate >= 0 ==> from <= candidate <= |data|
      invariant forall c: nat :: from <= c && (candidate >= 0 ==> c < candidate) ==> !OccursAt(data, magic, c)
      decreases |data| + 1 - from
    {
      if PhysicalFrame(h, data, magic, candidate).Whole? { return true; }
      from := candidate + 1;
      candidate := FindBytes(data, magic, candidate + 1);
      InBounds(data, magic, candidate);
    }
    return false;
  }

  lemma InBounds(data: seq<byte>, magic: seq<byte>, at: int)
    requires at >= 0 ==> OccursAt(data, magic, at)
    ensures at <= |data|
  {}

  datatype Yield = Yield(offset: nat, end: nat, payload: seq<byte>)

  /** The frames from `offset` on, or a rejection. */
  ghost function Scan(h: Hash, data: seq<byte>, magic: seq<byte>, offset: nat): Result<seq<Yield>>
    decreases |data| - offset
  {
    if offset >= |data| then Accepted([])
    else
      match PhysicalFrame(h, data, magic, offset)
      case Incomplete => Accepted([])
      case Unsupported => Rejected
      case Invalid => if FrameFollows(h, data, magic, offset) then Rejected else Accepted([])
      case Whole(end, payload) =>
        var rest :- Scan(h, data, magic, end);
        Accepted([Yield(offset, end, payload)] + rest)
  }

  /** Frames already yielded, in front of the outcome of the rest of a scan. */
  ghost function After(frames: seq<Yield>, rest: Result<seq<Yield>>): Result<seq<Yield>> {
    if rest.Rejected? then Rejected else Accepted(frames + rest.value)
  }

  lemma AfterLaws(frames: seq<Yield>, item: Yield, rest: Result<seq<Yield>>)
    ensures After([], rest) == rest
    ensures rest == Accepted([]) ==> After(frames, rest) == Accepted(frames)
    ensures After(frames, After([item], rest)) == After(frames + [item], rest)
  {
    if rest.Accepted? {
      assert frames + ([item] + rest.value) == (frames + [item]) + rest.value;
      assert [] + rest.value == rest.value && frames + [] == frames;
    }
  }

  method FramesBytes(h: Hash, data: seq<byte>, magic: seq<byte>) returns (r: Result<seq<Yield>>)
    ensures r == Scan(h, data, magic, 0)
    ensures forall frames :: r == Accepted(frames) <==>
              EndToEnd(h, data, magic, 0, frames) && QuietEnd(h, data, magic, EndOf(0, frames))
  {
    hide PhysicalFrame, FrameFollows, EndToEnd, QuietEnd;
    forall frames
      ensures Scan(h, data, magic, 0) == Accepted(frames) <==>
              EndToEnd(h, data, magic, 0, frames) && QuietEnd(h, data, magic, EndOf(0, frames))
    {
      ScanExact(h, data, magic, 0, frames);
    }
    var frames: seq<Yield>, offset := [], 0;
    ghost var nothing := Yield(0, 0, []);
    AfterLaws([], nothing, Scan(h, data, magic, 0));
    while offset < |data|
      invariant offset <= |data|
      invariant Scan(h, data, magic, 0) == After(frames, Scan(h, data, magic, offset))
      decreases |data| - offset
    {
      AfterLaws(frames, nothing, Scan(h, data, magic, offset));
      match PhysicalFrame(h, data, magic, offset) {
        case Incomplete => return Accepted(frames);
        case Unsupported => return Rejected;
        case Invalid =>
          var follows := ValidFrameFollows(h, data, magic, offset);
          if follows { return Rejected; }
          return Accepted(frames);
        case Whole(end, payload) =>
          AfterLaws(frames, Yield(offset, end, payload), Scan(h, data, magic, end));
          frames := frames + [Yield(offset, end, payload)];
          offset := end;
      }
    }
    AfterLaws(frames, nothing, Scan(h, data, magic, offset));
    return Accepted(frames);
  }

  // ---------------------------------------------------------------- which bytes are accepted

  /** Whole frames standing end to end from an offset on. */
  ghost predicate EndToEnd(h: Hash, data: seq<byte>, magic: seq<byte>, offset: nat, frames: seq<Yield>)
    decreases |frames|
  {
    frames != [] ==>
      && frames[0].offset == offset < |data|
      && PhysicalFrame(h, data, magic, offset) == Whole(frames[0].end, frames[0].payload)
      && EndToEnd(h, data, magic, frames[0].end, frames[1..])
  }

  ghost function EndOf(offset: nat, frames: seq<Yield>): nat
    decreases |frames|
  {
    if frames == [] then offset else EndOf(frames[0].end, frames[1..])
  }

  /** What may stand behind the last frame: nothing, a torn frame, or damage that no whole frame follows. */
  ghost predicate QuietEnd(h: Hash, data: seq<byte>, magic: seq<byte>, at: nat) {
    at >= |data| || PhysicalFrame(h, data, magic, at).Incomplete?
    || (PhysicalFrame(h, data, magic, at).Invalid? && !FrameFollows(h, data, magic, at))
  }

  /** A scan returns exactly the whole frames that stand end to end up to a quiet end. */
  lemma {:induction false} ScanExact(h: Hash, data: seq<byte>, magic: seq<byte>, offset: nat, frames: seq<Yield>)
    ensures Scan(h, data, magic, offset) == Accepted(frames) <==>
            EndToEnd(h, data, magic, offset, frames) && QuietEnd(h, data, magic, EndOf(offset, frames))
    decreases |data| - offset
  {
    hide PhysicalFrame, FrameFollows;
    var here := PhysicalFrame(h, data, magic, offset);
    if offset < |data| && here.Whole? && frames != [] {
      ScanExact(h, data, magic, here.end, frames[1..]);
      ScanTail(h, data, magic, offset, frames);
    }
  }

  lemma ScanTail(h: Hash, data: seq<byte>, magic: seq<byte>, offset: nat, frames: seq<Yield>)
    requires offset < |data| && PhysicalFrame(h, data, magic, offset).Whole? && frames != []
    ensures var here := PhysicalFrame(h, data, magic, offset);
            Scan(h, data, magic, offset) == Accepted(frames) <==>
            && frames[0] == Yield(offset, here.end, here.payload)
            && Scan(h, data, magic, here.end) == Accepted(frames[1..])
  {
    hide PhysicalFrame, FrameFollows;
    assert frames == [frames[0]] + frames[1..];
    var here := PhysicalFrame(h, data, magic, offset);
    var rest := Scan(h, data, magic, here.end);
    if rest.Accepted? {
      var whole := [Yield(offset, here.end, here.payload)] + rest.value;
      assert whole[0] == Yield(offset, here.end, here.payload) && whole[1..] == rest.value;
    }
  }

  /** A header of this magic and the supported version that announces a payload inside the data. */
  ghost predicate Announces(data: seq<byte>, magic: seq<byte>, at: nat, end: nat) {
    && at + HEADER_BYTES <= end <= |data| && data[at..at + 8] == magic
    && data[at + 8..at + 10] == LeBytes(1, 2) && data[at + 10..at + 12] == LeBytes(0, 2)
    && data[at + 12..at + 20] == LeBytes(end - at - HEADER_BYTES, 8) && end - at - HEADER_BYTES <= U64_MAX
  }

  /** With such a header the frame is whole iff the checksum in it is the payload's, and damaged otherwise. */
  lemma ChecksumDecides(h: Hash, data: seq<byte>, magic: seq<byte>, at: nat, end: nat)
    requires Announces(data, magic, at, end)
    ensures var payload := data[at + HEADER_BYTES..end];
            PhysicalFrame(h, data, magic, at) ==
            if data[at + 20..at + 52] == FrameChecksum(h, magic, payload) then Whole(end, payload) else Invalid
  {
    hide LeBytes, Radix, Le, FrameChecksum;
    RadixWidths();
    HeaderFields(data, at);
    LeRoundTrip(1, 2);
    LeRoundTrip(0, 2);
    LeRoundTrip(end - at - HEADER_BYTES, 8);
  }

  /** A whole frame is exactly such a header with the checksum of the payload behind it. */
  lemma FrameExact(h: Hash, data: seq<byte>, magic: seq<byte>, at: nat, end: nat, payload: seq<byte>)
    ensures PhysicalFrame(h, data, magic, at) == Whole(end, payload) <==>
            Announces(data, magic, at, end) && payload == data[at + HEADER_BYTES..end]
            && data[at + 20..at + 52] == FrameChecksum(h, magic, payload)
  {
    hide PhysicalFrame, Announces, FrameChecksum;
    if Announces(data, magic, at, end) { ChecksumDecides(h, data, magic, at, end); }
    if PhysicalFrame(h, data, magic, at) == Whole(end, payload) { WholeAnnounces(h, data, magic, at); }
  }

  lemma WholeAnnounces(h: Hash, data: seq<byte>, magic: seq<byte>, at: nat)
    requires PhysicalFrame(h, data, magic, at).Whole?
    ensures var end := PhysicalFrame(h, data, magic, at).end;
            Announces(data, magic, at, end) && PhysicalFrame(h, data, magic, at).payload == data[at + HEADER_BYTES..end]
  {
    hide FrameChecksum, LeBytes, Radix, Le;
    RadixWidths();
    HeaderFields(data, at);
    LeBytesOfLe(data[at + 8..at + 10]);
    LeBytesOfLe(data[at + 10..at + 12]);
    LeBytesOfLe(data[at + 12..at + 20]);
    LeBound(data[at + 12..at + 20]);
  }

  lemma HeaderFields(data: seq<byte>, at: nat)
    requires at + HEADER_BYTES <= |data|
    ensures var header := data[at..at + HEADER_BYTES];
            && header[..8] == data[at..at + 8] && header[8..10] == data[at + 8..at + 10]
            && header[10..12] == data[at + 10..at + 12] && header[12..20] == data[at + 12..at + 20]
            && header[20..52] == data[at + 20..at + 52]
  {}

  /** Interior damage is found: behind any run of whole frames, a wrong checksum before a later whole frame rejects. */
  lemma DamageIsFound(h: Hash, data: seq<byte>, magic: seq<byte>, frames: seq<Yield>, end: nat, later: nat)
    requires EndToEnd(h, data, magic, 0, frames) && Announces(data, magic, EndOf(0, frames), end)
    requires var at := EndOf(0, frames);
             && data[at + 20..at + 52] != FrameChecksum(h, magic, data[at + HEADER_BYTES..end])
             && at < later <= |data| && PhysicalFrame(h, data, magic, later).Whole?
    ensures Scan(h, data, magic, 0).Rejected?
  {
    hide PhysicalFrame, Announces, EndToEnd, FrameChecksum;
    ChecksumDecides(h, data, magic, EndOf(0, frames), end);
    DamageRejects(h, data, magic, 0, frames);
  }

  lemma {:induction false} DamageRejects(h: Hash, data: seq<byte>, magic: seq<byte>, offset: nat, frames: seq<Yield>)
    requires EndToEnd(h, data, magic, offset, frames) && EndOf(offset, frames) < |data|
    requires var here := PhysicalFrame(h, data, magic, EndOf(offset, frames));
             here.Unsupported? || (here.Invalid? && FrameFollows(h, data, magic, EndOf(offset, frames)))
    ensures Scan(h, data, magic, offset).Rejected?
    decreases |frames|
  {
    hide PhysicalFrame, FrameFollows;
    if frames != [] { DamageRejects(h, data, magic, frames[0].end, frames[1..]); }
  }

  // ---------------------------------------------------------------- crash prefixes

  lemma FrameInPrefix(h: Hash, data: seq<byte>, magic: seq<byte>, offset: nat, k: nat)
    requires k <= |data|
    ensures var f := PhysicalFrame(h, data, magic, offset); var f' := PhysicalFrame(h, data[..k], magic, offset);
            && (f'.Whole? <==> f.Whole? && f.end <= k)
            && (f'.Whole? ==> f' == f)
            && (f'.Unsupported? ==> f.Unsupported?)
            && (f'.Invalid? ==> f.Invalid?)
  {
    var cut := data[..k];
    if offset + HEADER_BYTES <= k {
      var header := data[offset..offset + HEADER_BYTES];
      assert cut[offset..offset + HEADER_BYTES] == header;
      var end := offset + HEADER_BYTES + Le(header[12..20]);
      if end <= k { assert cut[offset + HEADER_BYTES..end] == data[offset + HEADER_BYTES..end]; }
    }
  }

  function Within(frames: seq<Yield>, k: nat): seq<Yield> {
    if frames == [] || frames[0].end > k then [] else [frames[0]] + Within(frames[1..], k)
  }

  /** Within keeps exactly the frames that end inside the prefix: ends only grow along a scan. */
  lemma {:induction false} WithinKeepsFitting(h: Hash, data: seq<byte>, magic: seq<byte>, offset: nat, k: nat)
    requires Scan(h, data, magic, offset).Accepted?
    ensures var frames := Scan(h, data, magic, offset).value;
            && (forall f :: f in frames ==> offset < f.end)
            && (forall f :: f in Within(frames, k) <==> f in frames && f.end <= k)
    decreases |data| - offset
  {
    hide PhysicalFrame;
    var frames := Scan(h, data, magic, offset).value;
    if frames != [] { WithinKeepsFitting(h, data, magic, frames[0].end, k); }
  }

  lemma NothingFollowsInPrefix(h: Hash, data: seq<byte>, magic: seq<byte>, offset: nat, k: nat)
    requires k <= |data| && !FrameFollows(h, data, magic, offset)
    ensures !FrameFollows(h, data[..k], magic, offset)
  {
    hide PhysicalFrame;
    forall c | offset < c <= k ensures !PhysicalFrame(h, data[..k], magic, c).Whole? {
      FrameInPrefix(h, data, magic, c, k);
    }
  }

  /** A scan that succeeds also succeeds on every prefix, with exactly the frames that fit in it. */
  lemma {:induction false} ScanOfPrefix(h: Hash, data: seq<byte>, magic: seq<byte>, offset: nat, k: nat)
    requires k <= |data| && Scan(h, data, magic, offset).Accepted?
    ensures Scan(h, data[..k], magic, offset) == Accepted(Within(Scan(h, data, magic, offset).value, k))
    decreases |data| - offset
  {
    hide PhysicalFrame, FrameFollows;
    if offset < |data| {
      FrameInPrefix(h, data, magic, offset, k);
      match PhysicalFrame(h, data, magic, offset) {
        case Invalid => NothingFollowsInPrefix(h, data, magic, offset, k);
        case Whole(end, payload) =>
          ScanOfPrefix(h, data, magic, end, k);
          var rest := Scan(h, data, magic, end).value;
          assert ([Yield(offset, end, payload)] + rest)[1..] == rest;
        case _ =>
      }
    }
  }

  // ---------------------------------------------------------------- writing and moving frames

  /** A durable frame around a payload. */
  function FrameBytes(h: Hash, magic: seq<byte>, payload: seq<byte>): seq<byte> {
    FrameHeader(h, magic, payload) + payload
  }

  function FrameHeader(h: Hash, magic: seq<byte>, payload: seq<byte>): seq<byte> {
    magic + LeBytes(1, 2) + LeBytes(0, 2) + LeBytes(|payload|, 8) + FrameChecksum(h, magic, payload)
  }

  /** A written frame reads back, whatever follows it. */
  lemma FrameReadsBack(h: Hash, magic: seq<byte>, payload: seq<byte>, rest: seq<byte>)
    requires |magic| == 8 && |payload| <= U64_MAX
    ensures PhysicalFrame(h, FrameBytes(h, magic, payload) + rest, magic, 0) ==
            Whole(|FrameBytes(h, magic, payload)|, payload)
  {
    hide LeBytes, Radix, Le, FrameChecksum;
    RadixWidths();
    var header := FrameHeader(h, magic, payload);
    assert |FrameChecksum(h, magic, payload)| == 32 by { ChecksumSize(h, magic, payload); }
    var data := FrameBytes(h, magic, payload) + rest;
    assert data[0..HEADER_BYTES] == header;
    assert header[..8] == magic && header[8..10] == LeBytes(1, 2) && header[10..12] == LeBytes(0, 2)
           && header[12..20] == LeBytes(|payload|, 8);
    assert header[20..52] == FrameChecksum(h, magic, payload);
    LeRoundTrip(1, 2);
    LeRoundTrip(0, 2);
    LeRoundTrip(|payload|, 8);
    assert data[HEADER_BYTES..HEADER_BYTES + |payload|] == payload;
  }

  lemma ChecksumSize(h: Hash, magic: seq<byte>, payload: seq<byte>)
    ensures |FrameChecksum(h, magic, payload)| == 32
  {}

  /** The same bytes at another place: what starts there is the same, moved. */
  ghost predicate SameTail(a: seq<byte>, i: nat, b: seq<byte>, j: nat) {
    i <= |a| && j <= |b| && a[i..] == b[j..]
  }

  lemma FrameMoves(h: Hash, a: seq<byte>, i: nat, b: seq<byte>, j: nat, magic: seq<byte>)
    requires SameTail(a, i, b, j)
    ensures var f, g := PhysicalFrame(h, a, magic, i), PhysicalFrame(h, b, magic, j);
            if f.Whole? then g.Whole? && g.payload == f.payload && f.end - i == g.end - j else g == f
  {
    hide Le, FrameChecksum;
    var tail := a[i..];
    assert |a| - i == |b| - j;
    if |tail| >= HEADER_BYTES {
      assert a[i..i + HEADER_BYTES] == tail[..HEADER_BYTES] == b[j..j + HEADER_BYTES];
      var length := Le(tail[..HEADER_BYTES][12..20]);
      if HEADER_BYTES + length <= |tail| {
        assert a[i + HEADER_BYTES..i + HEADER_BYTES + length] == tail[HEADER_BYTES..HEADER_BYTES + length] ==
               b[j + HEADER_BYTES..j + HEADER_BYTES + length];
      }
    }
  }

  lemma TailsMove(a: seq<byte>, i: nat, b: seq<byte>, j: nat, d: nat)
    requires SameTail(a, i, b, j) && i + d <= |a|
    ensures SameTail(a, i + d, b, j + d)
  {
    assert |a| - i == |b| - j;
    assert a[i..][d..] == a[i + d..] && b[j..][d..] == b[j + d..];
  }

  lemma FollowsMoves(h: Hash, a: seq<byte>, i: nat, b: seq<byte>, j: nat, magic: seq<byte>)
    requires SameTail(a, i, b, j)
    ensures FrameFollows(h, a, magic, i) ==> FrameFollows(h, b, magic, j)
  {
    hide PhysicalFrame;
    if FrameFollows(h, a, magic, i) {
      var c :| i < c <= |a| && PhysicalFrame(h, a, magic, c).Whole?;
      TailsMove(a, i, b, j, c - i);
      FrameMoves(h, a, c, b, j + (c - i), magic);
    }
  }

  ghost predicate Moved(a: seq<Yield>, i: nat, b: seq<Yield>, j: nat) {
    |a| == |b| && forall k :: 0 <= k < |a| ==> a[k].payload == b[k].payload && a[k].offset - i == b[k].offset - j
                                               && a[k].offset >= i
  }

  /** A scan of the same bytes at another place yields the same payloads, moved. */
  lemma {:induction false} ScanMoves(h: Hash, a: seq<byte>, i: nat, b: seq<byte>, j: nat, magic: seq<byte>)
    requires SameTail(a, i, b, j)
    ensures Scan(h, a, magic, i).Accepted? <==> Scan(h, b, magic, j).Accepted?
    ensures Scan(h, a, magic, i).Accepted? ==> Moved(Scan(h, a, magic, i).value, i, Scan(h, b, magic, j).value, j)
    decreases |a| - i
  {
    hide PhysicalFrame, FrameFollows, SameTail;
    assert |a| - i == |b| - j && i <= |a| by { TailSizes(a, i, b, j); }
    if i < |a| {
      FrameMoves(h, a, i, b, j, magic);
      TailsSymmetric(a, i, b, j);
      FollowsMoves(h, a, i, b, j, magic);
      FollowsMoves(h, b, j, a, i, magic);
      var f := PhysicalFrame(h, a, magic, i);
      if f.Whole? {
        TailsMove(a, i, b, j, f.end - i);
        ScanMoves(h, a, f.end, b, j + (f.end - i), magic);
      }
    }
  }

  lemma TailSizes(a: seq<byte>, i: nat, b: seq<byte>, j: nat)
    requires SameTail(a, i, b, j)
    ensures |a| - i == |b| - j && i <= |a|
  {}

  lemma TailsSymmetric(a: seq<byte>, i: nat, b: seq<byte>, j: nat)
    requires SameTail(a, i, b, j)
    ensures SameTail(b, j, a, i)
  {}

  /** A scan from the start splits at the end of any of its frames. */
  lemma {:induction false} ScanSplits(h: Hash, data: seq<byte>, magic: seq<byte>, offset: nat, k: nat)
    requires Scan(h, data, magic, offset).Accepted? && k < |Scan(h, data, magic, offset).value|
    ensures var frames := Scan(h, data, magic, offset).value;
            && offset < frames[k].end <= |data|
            && Scan(h, data, magic, frames[k].end) == Accepted(frames[k + 1..])
    decreases |data| - offset
  {
    hide PhysicalFrame, FrameFollows;
    var frames := Scan(h, data, magic, offset).value;
    var f := PhysicalFrame(h, data, magic, offset);
    var rest := Scan(h, data, magic, f.end).value;
    assert frames == [frames[0]] + rest;
    if k > 0 {
      ScanSplits(h, data, magic, f.end, k - 1);
      assert frames[k + 1..] == rest[k..];
    } else {
      assert frames[1..] == rest;
    }
  }
}
