/**
 * Bounded retention of one audit chain: a paged, streaming scan keeps a sliding window of the newest
 * entries, folds everything that falls out into a digest, and a signed receipt anchors what remains.
 */
module Retention {
  import opened Bytes
  import opened Outcomes

  type Cursor = nat
  type HashValue = nat
  const ZERO_HASH: HashValue := 0
  const MAX_RETENTION_RING: nat := 8192

  /** An entry with its canonical serialization and its content hash. */
  datatype Entry = Entry(id: nat, principal: Option<nat>, previousHash: HashValue, contentHash: HashValue,
                         encoded: seq<byte>)
  datatype Item = Item(cursor: Cursor, entry: Entry)
  datatype Policy = Policy(retainEntries: nat, retainBytes: Option<nat>)

  datatype RetentionScan = RetentionScan(
    retainedCount: nat, retainedBytes: nat, omittedCount: nat, omittedBytes: nat,
    omittedDigest: seq<byte>, omittedTerminalHash: HashValue, retainedHead: Option<nat>,
    cutoffCursor: Option<Cursor>, firstRetained: Option<nat>, firstRetainedPreviousHash: HashValue)

  function SaturatingAdd(a: nat, b: nat): nat {
    if a + b <= U64_MAX then a + b else U64_MAX
  }

  function SaturatingSub(a: nat, b: nat): nat {
    if b <= a then a - b else 0
  }

  // ---------------------------------------------------------------- storage paging

  ghost predicate Ascending(items: seq<Item>) {
    forall i, j :: 0 <= i < j < |items| ==> items[i].cursor < items[j].cursor
  }

  function After(items: seq<Item>, after: Option<Cursor>): seq<Item> {
    if items == [] then []
    else if after.None? || items[0].cursor > after.value then [items[0]] + After(items[1..], after)
    else After(items[1..], after)
  }

  /** get_session_entries_page: the first `limit` items after a cursor. */
  function Page(items: seq<Item>, after: Option<Cursor>, limit: nat): seq<Item> {
    var rest := After(items, after);
    if |rest| <= limit then rest else rest[..limit]
  }

  lemma {:induction false} AfterAll(items: seq<Item>, after: Option<Cursor>)
    requires after.None? || forall i :: 0 <= i < |items| ==> items[i].cursor > after.value
    ensures After(items, after) == items
  {
    if items != [] { AfterAll(items[1..], after); }
  }

  /** Continuing after the k-th item of an ascending session resumes right behind it. */
  lemma {:induction false} AfterResumes(items: seq<Item>, k: nat)
    requires Ascending(items) && 0 < k <= |items|
    ensures After(items, Some(items[k - 1].cursor)) == items[k..]
  {
    var after := Some(items[k - 1].cursor);
    assert items[0].cursor <= after.value;
    if k == 1 {
      AfterAll(items[1..], after);
    } else {
      assert items[1..][k - 2] == items[k - 1] && items[1..][k - 1..] == items[k..];
      AfterResumes(items[1..], k - 1);
    }
  }

  // ---------------------------------------------------------------- specification

  /** The principal's chain, in session order. */
  function Chain(items: seq<Item>, principal: Option<nat>): seq<Item> {
    if items == [] then []
    else if items[|items| - 1].entry.principal == principal
         then Chain(items[..|items| - 1], principal) + [items[|items| - 1]]
    else Chain(items[..|items| - 1], principal)
  }

  function TotalBytes(chain: seq<Item>): nat {
    if chain == [] then 0 else |chain[0].entry.encoded| + TotalBytes(chain[1..])
  }

  function Encodings(chain: seq<Item>): seq<byte> {
    if chain == [] then [] else Encodings(chain[..|chain| - 1]) + chain[|chain| - 1].entry.encoded
  }

  /** A suffix the policy lets the log keep: within the entry limit and, unless a single entry, the byte limit. */
  predicate Keepable(suffix: seq<Item>, policy: Policy) {
    |suffix| <= policy.retainEntries
    && (policy.retainBytes.Some? && |suffix| > 1 ==> TotalBytes(suffix) <= policy.retainBytes.value)
  }

  /** Where the longest keepable suffix starts. */
  ghost predicate LongestFrom(chain: seq<Item>, policy: Policy, n: nat) {
    && n <= |chain| && Keepable(chain[n..], policy)
    && (forall m :: 0 <= m < n ==> !Keepable(chain[m..], policy))
  }

  /** The scan of a chain cut at n. */
  function ScanAt(h: seq<byte> -> seq<byte>, chain: seq<Item>, n: nat): RetentionScan
    requires n <= |chain|
  {
    RetentionScan(
      |chain| - n, TotalBytes(chain[n..]), n, TotalBytes(chain[..n]), h(Encodings(chain[..n])),
      if n == 0 then ZERO_HASH else chain[n - 1].entry.contentHash,
      if n == |chain| then None else Some(chain[|chain| - 1].entry.id),
      if n == 0 then None else Some(chain[n - 1].cursor),
      if n == |chain| then None else Some(chain[n].entry.id),
      if n == |chain| then ZERO_HASH else chain[n].entry.previousHash)
  }

  lemma {:induction false} BytesAppend(a: seq<Item>, b: seq<Item>)
    ensures TotalBytes(a + b) == TotalBytes(a) + TotalBytes(b)
  {
    if a == [] { assert a + b == b; } else {
      assert (a + b)[1..] == a[1..] + b;
      BytesAppend(a[1..], b);
    }
  }

  /** Dropping entries from the front never makes a keepable suffix unkeepable. */
  lemma KeepableShrinks(suffix: seq<Item>, policy: Policy, k: nat)
    requires Keepable(suffix, policy) && k <= |suffix|
    ensures Keepable(suffix[k..], policy)
  {
    assert suffix == suffix[..k] + suffix[k..];
    BytesAppend(suffix[..k], suffix[k..]);
  }

  /** One more entry moves the cut forward, never back. */
  lemma LongestMoves(chain: seq<Item>, policy: Policy, n: nat, x: Item)
    requires LongestFrom(chain, policy, n)
    ensures forall m :: 0 <= m < n ==> !Keepable((chain + [x])[m..], policy)
  {
    forall m | 0 <= m < n ensures !Keepable((chain + [x])[m..], policy) {
      var longer := (chain + [x])[m..];
      assert longer == chain[m..] + [x];
      BytesAppend(chain[m..], [x]);
    }
  }

  lemma LongestUnique(chain: seq<Item>, policy: Policy, n: nat, n': nat)
    requires LongestFrom(chain, policy, n) && LongestFrom(chain, policy, n')
    ensures n == n'
  {}

  /** A non-empty chain always keeps at least its newest entry. */
  lemma NewestIsKept(chain: seq<Item>, policy: Policy, n: nat)
    requires LongestFrom(chain, policy, n) && chain != [] && policy.retainEntries >= 1
    ensures n < |chain|
  {
    assert Keepable(chain[|chain| - 1..], policy);
  }

  /** Pruning what is already pruned omits nothing. */
  lemma RepeatedPruneOmitsNothing(chain: seq<Item>, policy: Policy, n: nat)
    requires LongestFrom(chain, policy, n)
    ensures LongestFrom(chain[n..], policy, 0)
  {
    assert chain[n..][0..] == chain[n..];
  }

  /** Pruning and then pruning harder cuts exactly where pruning harder at once would. */
  lemma PrunesCompose(chain: seq<Item>, loose: Policy, n: nat, tight: Policy, k: nat)
    requires LongestFrom(chain, loose, n) && LongestFrom(chain[n..], tight, k)
    requires forall s :: Keepable(s, tight) ==> Keepable(s, loose)
    ensures LongestFrom(chain, tight, n + k)
  {
    assert chain[n..][k..] == chain[n + k..];
    forall m | 0 <= m < n + k ensures !Keepable(chain[m..], tight) {
      if n <= m { assert chain[m..] == chain[n..][m - n..]; }
    }
  }

  // ---------------------------------------------------------------- the streaming scan

  predicate Fits(chain: seq<Item>) {
    TotalBytes(chain) <= U64_MAX && |chain| <= U64_MAX
  }

  /** What a saturating counter that only grows shows. */
  function Capped(n: nat): nat {
    if n <= U64_MAX then n else U64_MAX
  }

  /** The cut does not depend on a saturated byte counter: the totals fit, or there is no byte limit. */
  predicate Decided(chain: seq<Item>, policy: Policy) {
    Fits(chain) || policy.retainBytes.None?
  }

  /**
   * What the scan promises of its cut: every field is the cut chain's, the omitted counters capped at 64 bits. The
   * cut keeps the longest allowed suffix unless a saturated byte counter decides it, and the byte counter of the
   * retained suffix is exact when the totals fit.
   */
  ghost predicate IsScan(h: seq<byte> -> seq<byte>, chain: seq<Item>, policy: Policy, n: nat, scan: RetentionScan) {
    && n <= |chain|
    && scan == ScanAt(h, chain, n).(retainedBytes := scan.retainedBytes, omittedCount := Capped(n),
                                    omittedBytes := Capped(TotalBytes(chain[..n])))
    && (Decided(chain, policy) ==> LongestFrom(chain, policy, n))
    && (Fits(chain) ==> scan == ScanAt(h, chain, n))
  }

  /** The scan's running state: the two queues, the counters and what has been folded into the digest. */
  datatype Window = Window(retained: seq<Entry>, cursors: seq<Cursor>, retainedBytes: nat, omittedCount: nat,
                           omittedBytes: nat,
                           preimage: seq<byte>, terminal: HashValue, cutoff: Option<Cursor>)

  /** The two queues hold the window behind cut n; the cursor queue lags by `lag` while an entry is being admitted. */
  ghost predicate Queues(chain: seq<Item>, n: nat, w: Window, lag: nat) {
    && n + lag <= |chain| && |w.retained| == |chain| - n && |w.cursors| == |chain| - n - lag
    && (forall i :: 0 <= i < |w.retained| ==> w.retained[i] == chain[n + i].entry)
    && (forall i :: 0 <= i < |w.cursors| ==> w.cursors[i] == chain[n + i].cursor)
  }

  ghost predicate Folded(chain: seq<Item>, n: nat, w: Window) {
    && n <= |chain| && w.preimage == Encodings(chain[..n])
    && w.terminal == (if n == 0 then ZERO_HASH else chain[n - 1].entry.contentHash)
    && w.cutoff == (if n == 0 then None else Some(chain[n - 1].cursor))
    && w.omittedCount == Capped(n) && w.omittedBytes == Capped(TotalBytes(chain[..n]))
  }

  /** No longer suffix than the one behind cut n can be kept. */
  ghost predicate NoneLonger(chain: seq<Item>, policy: Policy, n: nat) {
    n <= |chain| && forall m :: 0 <= m < n ==> !Keepable(chain[m..], policy)
  }

  ghost predicate WindowAt(chain: seq<Item>, policy: Policy, n: nat, w: Window, lag: nat) {
    && Queues(chain, n, w, lag) && Folded(chain, n, w)
    && (Fits(chain) ==> w.retainedBytes == TotalBytes(chain[n..]))
    && (Decided(chain, policy) ==> NoneLonger(chain, policy, n))
  }

  /** Between entries the window is the longest keepable suffix of what was seen. */
  ghost predicate Holds(chain: seq<Item>, policy: Policy, n: nat, w: Window) {
    WindowAt(chain, policy, n, w, 0) && (Decided(chain, policy) ==> LongestFrom(chain, policy, n))
  }

  predicate EvictionDue(policy: Policy, w: Window) {
    |w.retained| > policy.retainEntries
    || (policy.retainBytes.Some? && w.retainedBytes > policy.retainBytes.value && |w.retained| > 1)
  }

  lemma CutOne(chain: seq<Item>, n: nat)
    requires n < |chain|
    ensures TotalBytes(chain[n..]) == |chain[n].entry.encoded| + TotalBytes(chain[n + 1..])
    ensures TotalBytes(chain[..n + 1]) == TotalBytes(chain[..n]) + |chain[n].entry.encoded|
    ensures Encodings(chain[..n + 1]) == Encodings(chain[..n]) + chain[n].entry.encoded
    ensures TotalBytes(chain[..n]) + TotalBytes(chain[n..]) == TotalBytes(chain)
  {
    assert chain[n..][1..] == chain[n + 1..] && chain[..n + 1][..n] == chain[..n];
    assert chain[..n + 1] == chain[..n] + [chain[n]] && chain == chain[..n] + chain[n..];
    BytesAppend(chain[..n], [chain[n]]);
    BytesAppend(chain[..n], chain[n..]);
  }

  lemma TotalGrows(chain: seq<Item>, x: Item)
    ensures TotalBytes(chain + [x]) == TotalBytes(chain) + |x.entry.encoded|
  {
    BytesAppend(chain, [x]);
  }

  /** Push an entry; its cursor is queued only after the evictions it causes. */
  function Push(w: Window, e: Entry): Window {
    w.(retained := w.retained + [e], retainedBytes := SaturatingAdd(w.retainedBytes, |e.encoded|))
  }

  /** Drop the oldest entry into the omitted prefix. */
  function Evict(w: Window): Window
    requires w.retained != [] && w.cursors != []
  {
    var oldest := w.retained[0];
    Window(w.retained[1..], w.cursors[1..], SaturatingSub(w.retainedBytes, |oldest.encoded|),
           SaturatingAdd(w.omittedCount, 1),
           SaturatingAdd(w.omittedBytes, |oldest.encoded|), w.preimage + oldest.encoded, oldest.contentHash,
           Some(w.cursors[0]))
  }

  /** Pushing an entry extends the window; no earlier cut becomes keepable. */
  lemma Pushed(seen: seq<Item>, item: Item, policy: Policy, n: nat, w: Window)
    requires Holds(seen, policy, n, w)
    ensures WindowAt(seen + [item], policy, n, Push(w, item.entry), 1)
  {
    hide Keepable, TotalBytes, Encodings, Fits;
    var chain := seen + [item];
    FitsShrinks(seen, item);
    assert chain[..n] == seen[..n];
    if Decided(chain, policy) { LongestMoves(seen, policy, n, item); }
    if Fits(chain) {
      assert chain[n..] == seen[n..] + [item];
      TotalGrows(seen[n..], item);
      CutOne(chain, n);
      FitsTotal(chain);
    }
  }

  lemma FitsTotal(chain: seq<Item>)
    requires Fits(chain)
    ensures TotalBytes(chain) <= U64_MAX && |chain| <= U64_MAX
  {}

  /** When an eviction is due both queues are non-empty, so neither underflow error can be raised. */
  lemma NoUnderflow(chain: seq<Item>, policy: Policy, n: nat, w: Window)
    requires policy.retainEntries >= 1 && Queues(chain, n, w, 1) && EvictionDue(policy, w)
    ensures w.cursors != [] && |w.retained| >= 2
  {}

  /** One eviction moves the cut past an entry no keepable suffix can include. */
  lemma Evicted(chain: seq<Item>, policy: Policy, n: nat, w: Window)
    requires policy.retainEntries >= 1 && WindowAt(chain, policy, n, w, 1) && EvictionDue(policy, w)
    ensures w.cursors != [] && |w.retained| >= 2 && WindowAt(chain, policy, n + 1, Evict(w), 1)
  {
    hide TotalBytes, Encodings, Fits;
    NoUnderflow(chain, policy, n, w);
    CutOne(chain, n);
    CutOne(chain, n + 1);
    if Fits(chain) { FitsTotal(chain); }
    if Decided(chain, policy) { assert !Keepable(chain[n..], policy); }
  }

  /** When no eviction is due the window is the longest keepable suffix. */
  lemma Settled(chain: seq<Item>, policy: Policy, n: nat, w: Window)
    requires WindowAt(chain, policy, n, w, 1) && !EvictionDue(policy, w)
    ensures chain != [] && Holds(chain, policy, n, w.(cursors := w.cursors + [chain[|chain| - 1].cursor]))
  {
    hide TotalBytes, Encodings, Fits;
  }

  /** Admit one entry: push it, then evict from the front until the window is keepable, then queue its cursor. */
  method Admit(policy: Policy, item: Item, ghost seen: seq<Item>, before: Window) returns (w: Window)
    requires policy.retainEntries >= 1 && exists n: nat :: Holds(seen, policy, n, before)
    ensures exists n: nat :: Holds(seen + [item], policy, n, w)
  {
    hide WindowAt, Holds, EvictionDue;
    ghost var n: nat :| Holds(seen, policy, n, before);
    ghost var chain := seen + [item];
    Pushed(seen, item, policy, n, before);
    w := Push(before, item.entry);
    while EvictionDue(policy, w)
      invariant WindowAt(chain, policy, n, w, 1)
      decreases |w.retained|
    {
      Evicted(chain, policy, n, w);
      w := Evict(w);
      n := n + 1;
    }
    Settled(chain, policy, n, w);
    w := w.(cursors := w.cursors + [item.cursor]);
  }

  lemma ChainStep(items: seq<Item>, principal: Option<nat>, k: nat)
    requires k < |items|
    ensures Chain(items[..k + 1], principal) ==
            (if items[k].entry.principal == principal then Chain(items[..k], principal) + [items[k]]
             else Chain(items[..k], principal))
  {
    assert items[..k + 1][..k] == items[..k];
  }

  /** Fetching after item k - 1 returns the next items, and an empty page means the session is exhausted. */
  lemma PageAt(items: seq<Item>, k: nat, after: Option<Cursor>, limit: nat)
    requires Ascending(items) && k <= |items| && limit >= 1
    requires after == if k == 0 then None else Some(items[k - 1].cursor)
    ensures k + |Page(items, after, limit)| <= |items|
    ensures Page(items, after, limit) == items[k..k + |Page(items, after, limit)|]
    ensures Page(items, after, limit) == [] ==> k == |items|
  {
    if k == 0 { AfterAll(items, after); } else { AfterResumes(items, k); }
  }

  method ScanRetention(h: seq<byte> -> seq<byte>, items: seq<Item>, principal: Option<nat>, policy: Policy, limit: nat)
    returns (scan: RetentionScan)
    requires Ascending(items) && policy.retainEntries >= 1 && limit >= 1
    ensures exists n: nat :: IsScan(h, Chain(items, principal), policy, n, scan)
  {
    hide Page, Holds, Ascending, IsScan, Chain;
    var w := Window([], [], 0, 0, 0, [], ZERO_HASH, None);
    var after: Option<Cursor>, done := None, false;
    ghost var k := 0;
    EmptyScan(policy, principal, items);
    while !done
      invariant k <= |items| && after == (if k == 0 then None else Some(items[k - 1].cursor))
      invariant done ==> k == |items|
      invariant exists n: nat :: Holds(Chain(items[..k], principal), policy, n, w)
      decreases |items| - k, !done
    {
      var page := Page(items, after, limit);
      PageAt(items, k, after, limit);
      if page == [] {
        done := true;
      } else {
        ghost var base := k;
        var i := 0;
        while i < |page|
          invariant i <= |page| && k == base + i && base + |page| <= |items| && page == items[base..base + |page|]
          invariant exists n: nat :: Holds(Chain(items[..k], principal), policy, n, w)
        {
          ChainStep(items, principal, k);
          if page[i].entry.principal == principal {
            w := Admit(policy, page[i], Chain(items[..k], principal), w);
          }
          i, k := i + 1, k + 1;
        }
        after := Some(page[|page| - 1].cursor);
      }
    }
    assert items[..k] == items;
    scan := Report(h, w);
    ghost var n: nat :| Holds(Chain(items, principal), policy, n, w);
    ReportIsScan(h, Chain(items, principal), policy, n, w);
  }

  /** The scan's result from its final window. */
  function Report(h: seq<byte> -> seq<byte>, w: Window): RetentionScan {
    RetentionScan(
      |w.retained|, w.retainedBytes, w.omittedCount, w.omittedBytes, h(w.preimage), w.terminal,
      if w.retained == [] then None else Some(w.retained[|w.retained| - 1].id), w.cutoff,
      if w.retained == [] then None else Some(w.retained[0].id),
      if w.retained == [] then ZERO_HASH else w.retained[0].previousHash)
  }

  lemma ReportIsScan(h: seq<byte> -> seq<byte>, chain: seq<Item>, policy: Policy, n: nat, w: Window)
    requires Holds(chain, policy, n, w)
    ensures IsScan(h, chain, policy, n, Report(h, w))
  {
    hide TotalBytes, Encodings, Fits, Keepable;
    assert chain == chain[..n] + chain[n..];
    BytesAppend(chain[..n], chain[n..]);
    if Fits(chain) { FitsTotal(chain); }
  }

  lemma EmptyScan(policy: Policy, principal: Option<nat>, items: seq<Item>)
    ensures Holds(Chain(items[..0], principal), policy, 0, Window([], [], 0, 0, 0, [], ZERO_HASH, None))
  {
    assert items[..0] == [];
  }

  lemma FitsShrinks(chain: seq<Item>, x: Item)
    ensures Fits(chain + [x]) ==> Fits(chain)
  {
    TotalGrows(chain, x);
  }

  // ---------------------------------------------------------------- receipts

  datatype ReceiptBody = ReceiptBody(
    schema: nat, session: nat, principal: Option<nat>, scan: RetentionScan, generation: nat,
    priorReceiptHash: Option<seq<byte>>,
    segment: Option<nat>, sealOrdinal: Option<nat>, publicKey: nat, keyEpoch: Option<nat>)
  datatype Receipt = Receipt(body: ReceiptBody, signature: seq<byte>)

  /** Serialization, hashing and signing, none of which this model looks inside. */
  datatype Primitives = Primitives(
    prefixDigest: seq<byte> -> seq<byte>, hash: seq<byte> -> seq<byte>, parse: seq<byte> -> Result<Receipt>,
    signingBytes: ReceiptBody -> seq<byte>, sign: (nat, seq<byte>) -> seq<byte>,
    verify: (nat, seq<byte>, seq<byte>) -> bool)

  /** The only thing asked of the signature scheme: what a key signs verifies under that key. */
  ghost predicate SignsVerify(p: Primitives) {
    forall key, message :: p.verify(key, message, p.sign(key, message))
  }

  predicate Verifies(p: Primitives, receipt: Receipt) {
    receipt.body.schema == 1 && p.verify(receipt.body.publicKey, p.signingBytes(receipt.body), receipt.signature)
  }

  function PriorReceipt(p: Primitives, stored: Option<seq<byte>>): Result<(nat, Option<seq<byte>>)> {
    match stored
    case None => Accepted((0, None))
    case Some(encoded) =>
      var receipt :- p.parse(encoded);
      var _ :- Check(Verifies(p, receipt));
      Accepted((SaturatingAdd(receipt.body.generation, 1), Some(p.hash(encoded))))
  }

  predicate PolicyAllowed(policy: Policy) {
    0 < policy.retainEntries <= MAX_RETENTION_RING && policy.retainBytes != Some(0)
  }

  /** What a prune is asked for: the chain and policy, the stored prior receipt, the segment and the signer. */
  datatype Request = Request(
    session: nat, principal: Option<nat>, policy: Policy, stored: Option<seq<byte>>,
    segment: Option<nat>, sealOrdinal: Option<nat>, key: nat, keyEpoch: Option<nat>)

  function SignedReceipt(p: Primitives, q: Request, scan: RetentionScan, prior: (nat, Option<seq<byte>>)): (r: Receipt)
    ensures SignsVerify(p) ==> Verifies(p, r)
  {
    var body := ReceiptBody(1, q.session, q.principal, scan, prior.0, prior.1, q.segment, q.sealOrdinal, q.key,
                            q.keyEpoch);
    Receipt(body, p.sign(q.key, p.signingBytes(body)))
  }

  /** The answer to a prune request over a session: the signed scan, or the reason it is refused. */
  ghost predicate IsReceipt(p: Primitives, items: seq<Item>, q: Request, reach: nat -> bool, r: Result<Receipt>) {
    var chain := Chain(items, q.principal);
    && (r.Accepted? ==>
          && PolicyAllowed(q.policy) && PriorReceipt(p, q.stored).Accepted? && reach(r.value.body.scan.omittedCount)
          && (exists n: nat :: IsScan(p.prefixDigest, chain, q.policy, n, r.value.body.scan))
          && r.value == SignedReceipt(p, q, r.value.body.scan, PriorReceipt(p, q.stored).value))
    && (r.Rejected? ==>
          || !PolicyAllowed(q.policy) || PriorReceipt(p, q.stored).Rejected?
          || (exists n: nat, scan :: IsScan(p.prefixDigest, chain, q.policy, n, scan) && !reach(scan.omittedCount)))
  }

  /** Scan, look up the prior receipt, check the prune's reach and sign. */
  method SignPruneReceipt(p: Primitives, items: seq<Item>, q: Request, reach: nat -> bool, limit: nat)
    returns (r: Result<Receipt>)
    requires Ascending(items) && limit >= 1
    ensures IsReceipt(p, items, q, reach, r)
  {
    hide IsScan, Chain;
    if q.policy.retainEntries == 0 { return Rejected; }
    if q.policy.retainEntries > MAX_RETENTION_RING { return Rejected; }
    if q.policy.retainBytes == Some(0) { return Rejected; }
    var scan := ScanRetention(p.prefixDigest, items, q.principal, q.policy, limit);
    var prior :- PriorReceipt(p, q.stored);
    if !reach(scan.omittedCount) { return Rejected; }
    var body := ReceiptBody(1, q.session, q.principal, scan, prior.0, prior.1, q.segment, q.sealOrdinal, q.key,
                            q.keyEpoch);
    var receipt := Receipt(body, []);
    receipt := receipt.(signature := p.sign(q.key, p.signingBytes(receipt.body)));
    return Accepted(receipt);
  }

  function VerifyAnchor(p: Primitives, receipt: Receipt, firstPrevious: HashValue): Result<bool> {
    if !Verifies(p, receipt) then Rejected
    else
      var scan := receipt.body.scan;
      Accepted(scan.omittedTerminalHash == firstPrevious && scan.firstRetainedPreviousHash == firstPrevious)
  }

  /** Each entry names the content hash of the one before it. */
  ghost predicate Linked(chain: seq<Item>) {
    forall i :: 0 < i < |chain| ==> chain[i].entry.previousHash == chain[i - 1].entry.contentHash
  }

  /** A receipt of another schema, or whose signature does not verify, is refused whatever it is asked about. */
  lemma BadReceiptsAreRefused(p: Primitives, receipt: Receipt, x: HashValue)
    requires receipt.body.schema != 1
             || !p.verify(receipt.body.publicKey, p.signingBytes(receipt.body), receipt.signature)
    ensures VerifyAnchor(p, receipt, x).Rejected?
  {}

  /**
   * What a verified receipt anchors, asked about any hash: the suffix behind its cut, told by the content hash of the
   * last omitted entry and by the previous hash of the first retained one, which must both be the hash asked about.
   */
  lemma AnchorAnswer(p: Primitives, chain: seq<Item>, policy: Policy, n: nat, receipt: Receipt, x: HashValue)
    requires Verifies(p, receipt) && IsScan(p.prefixDigest, chain, policy, n, receipt.body.scan)
    ensures VerifyAnchor(p, receipt, x) ==
            Accepted(&& x == (if n == 0 then ZERO_HASH else chain[n - 1].entry.contentHash)
                     && x == (if n == |chain| then ZERO_HASH else chain[n].entry.previousHash))
  {
    hide Keepable, TotalBytes, Encodings;
  }

  /**
   * On a linked chain a receipt that cuts at n answers true for exactly one hash, the one the first retained entry
   * names, and for that one only if something was omitted or it is the zero hash.
   */
  lemma AnchorAtCut(p: Primitives, chain: seq<Item>, policy: Policy, n: nat, receipt: Receipt, x: HashValue)
    requires Verifies(p, receipt) && Linked(chain) && n < |chain|
    requires IsScan(p.prefixDigest, chain, policy, n, receipt.body.scan)
    ensures VerifyAnchor(p, receipt, x) ==
            Accepted(x == chain[n].entry.previousHash && (n > 0 || x == ZERO_HASH))
  {
    hide IsScan, VerifyAnchor;
    AnchorAnswer(p, chain, policy, n, receipt, x);
  }

  /** The cut is behind the first entry exactly when the policy cannot keep the whole chain. */
  lemma OmitsIffNotKeepable(chain: seq<Item>, policy: Policy, n: nat)
    requires LongestFrom(chain, policy, n)
    ensures n > 0 <==> !Keepable(chain, policy)
  {
    hide Keepable;
    assert chain[0..] == chain;
  }

  /**
   * From a session to the anchor's answer: on a linked, non-empty chain whose totals fit 64 bits, or without a byte
   * limit, the signed receipt anchors the first entry it retains iff the policy cannot keep the whole chain or the
   * chain starts at the zero hash.
   */
  lemma ReceiptAnchorsSuffix(p: Primitives, items: seq<Item>, q: Request, reach: nat -> bool, r: Result<Receipt>)
    returns (n: nat)
    requires SignsVerify(p) && IsReceipt(p, items, q, reach, r) && r.Accepted?
    requires var chain := Chain(items, q.principal); chain != [] && Linked(chain) && Decided(chain, q.policy)
    ensures var chain := Chain(items, q.principal);
            && n < |chain| && LongestFrom(chain, q.policy, n)
            && r.value.body.scan.firstRetained == Some(chain[n].entry.id)
            && VerifyAnchor(p, r.value, chain[n].entry.previousHash) ==
               Accepted(!Keepable(chain, q.policy) || chain[0].entry.previousHash == ZERO_HASH)
            && forall x :: x != chain[n].entry.previousHash ==> VerifyAnchor(p, r.value, x) == Accepted(false)
  {
    hide Keepable, TotalBytes, Encodings, Chain, Linked, Decided, VerifyAnchor, LongestFrom;
    var chain := Chain(items, q.principal);
    n :| IsScan(p.prefixDigest, chain, q.policy, n, r.value.body.scan);
    NewestIsKept(chain, q.policy, n);
    forall x ensures VerifyAnchor(p, r.value, x) ==
                     Accepted(x == chain[n].entry.previousHash && (n > 0 || x == ZERO_HASH))
    {
      AnchorAtCut(p, chain, q.policy, n, r.value, x);
    }
    OmitsIffNotKeepable(chain, q.policy, n);
  }

  lemma LinkedSuffix(chain: seq<Item>, n: nat)
    requires Linked(chain) && n <= |chain|
    ensures Linked(chain[n..])
  {
    forall i | 0 < i < |chain[n..]| ensures chain[n..][i].entry.previousHash == chain[n..][i - 1].entry.contentHash {
      assert chain[n..][i] == chain[n + i] && chain[n..][i - 1] == chain[n + i - 1];
    }
  }

  lemma DecidedSuffix(chain: seq<Item>, policy: Policy, n: nat)
    requires Decided(chain, policy) && n <= |chain|
    ensures Decided(chain[n..], policy)
  {
    assert chain == chain[..n] + chain[n..];
    BytesAppend(chain[..n], chain[n..]);
  }

  /**
   * After a prune that omitted something, a second prune of what it kept, under the same policy, signs a receipt that
   * does not anchor the first retained entry, unless the last omitted entry happens to have the zero hash.
   */
  lemma SecondReceiptDoesNotAnchor(p: Primitives, chain: seq<Item>, n: nat,
                                   items: seq<Item>, q: Request, reach: nat -> bool, r: Result<Receipt>)
    requires SignsVerify(p) && IsReceipt(p, items, q, reach, r) && r.Accepted?
    requires Linked(chain) && Decided(chain, q.policy) && LongestFrom(chain, q.policy, n) && 0 < n < |chain|
    requires Chain(items, q.principal) == chain[n..] && chain[n - 1].entry.contentHash != ZERO_HASH
    ensures r.value.body.scan.firstRetained == Some(chain[n].entry.id)
    ensures VerifyAnchor(p, r.value, chain[n].entry.previousHash) == Accepted(false)
  {
    hide Keepable, TotalBytes, Encodings, Chain, Decided, VerifyAnchor, IsReceipt, SignsVerify;
    LinkedSuffix(chain, n);
    DecidedSuffix(chain, q.policy, n);
    RepeatedPruneOmitsNothing(chain, q.policy, n);
    var k := ReceiptAnchorsSuffix(p, items, q, reach, r);
    LongestUnique(chain[n..], q.policy, k, 0);
    OmitsIffNotKeepable(chain[n..], q.policy, 0);
    assert chain[n..][0] == chain[n];
  }

  /** A stored receipt that cannot be read, is of another schema or does not verify stops the prune. */
  lemma BadPriorIsRefused(p: Primitives, items: seq<Item>, q: Request, reach: nat -> bool, r: Result<Receipt>,
                          encoded: seq<byte>)
    requires IsReceipt(p, items, q, reach, r) && q.stored == Some(encoded)
    requires p.parse(encoded).Rejected?
             || p.parse(encoded).value.body.schema != 1
             || !p.verify(p.parse(encoded).value.body.publicKey, p.signingBytes(p.parse(encoded).value.body),
                          p.parse(encoded).value.signature)
    ensures r.Rejected?
  {
    hide IsScan, Chain;
  }

  /** What was written is read back. */
  ghost predicate ReadsBack(p: Primitives, encode: Receipt -> seq<byte>) {
    forall r :: p.parse(encode(r)) == Accepted(r)
  }

  /** Each prune finds the receipt of the one before it, the first finds none. */
  ghost predicate IsSuccession(p: Primitives, encode: Receipt -> seq<byte>, sessions: seq<seq<Item>>,
                               requests: seq<Request>, reach: nat -> bool, receipts: seq<Receipt>)
  {
    && |sessions| == |requests| == |receipts|
    && (forall i :: 0 <= i < |receipts| ==> IsReceipt(p, sessions[i], requests[i], reach, Accepted(receipts[i])))
    && (forall i :: 0 <= i < |receipts| ==>
          requests[i].stored == if i == 0 then None else Some(encode(receipts[i - 1])))
  }

  /** Receipts of successive prunes are numbered from zero and each names the hash of the one before it. */
  lemma {:induction false} ReceiptsAreChained(p: Primitives, encode: Receipt -> seq<byte>, sessions: seq<seq<Item>>,
                                              requests: seq<Request>, reach: nat -> bool, receipts: seq<Receipt>,
                                              i: nat)
    requires ReadsBack(p, encode) && IsSuccession(p, encode, sessions, requests, reach, receipts) && i < |receipts|
    ensures receipts[i].body.generation == Capped(i)
    ensures receipts[i].body.priorReceiptHash == if i == 0 then None else Some(p.hash(encode(receipts[i - 1])))
    decreases i
  {
    hide IsReceipt, PriorReceipt, ReadsBack;
    PriorIsNamed(p, sessions[i], requests[i], reach, receipts[i]);
    if i == 0 {
      assert PriorReceipt(p, None) == Accepted((0, None)) by { NoPrior(p); }
    } else {
      PriorIs(p, encode, receipts[i - 1]);
      ReceiptsAreChained(p, encode, sessions, requests, reach, receipts, i - 1);
    }
  }

  lemma PriorIsNamed(p: Primitives, items: seq<Item>, q: Request, reach: nat -> bool, r: Receipt)
    requires IsReceipt(p, items, q, reach, Accepted(r))
    ensures PriorReceipt(p, q.stored) == Accepted((r.body.generation, r.body.priorReceiptHash))
  {
    hide IsScan, Chain, PriorReceipt;
  }

  lemma NoPrior(p: Primitives)
    ensures PriorReceipt(p, None) == Accepted((0, None))
  {}

  lemma PriorIs(p: Primitives, encode: Receipt -> seq<byte>, r: Receipt)
    requires ReadsBack(p, encode) && PriorReceipt(p, Some(encode(r))).Accepted?
    ensures PriorReceipt(p, Some(encode(r))) ==
            Accepted((SaturatingAdd(r.body.generation, 1), Some(p.hash(encode(r)))))
  {}

  /**
   * Such a session exists: two linked entries under a policy that keeps one. The first receipt anchors the entry it
   * retains; the second, over what is left and with the first as its prior receipt, does not.
   */
  lemma RepeatedPruneExample(p: Primitives, q: Request, encode: Receipt -> seq<byte>)
    returns (items: seq<Item>, first: Receipt, second: Receipt)
    requires SignsVerify(p) && ReadsBack(p, encode) && q.policy == Policy(1, None) && q.stored.None?
    ensures Ascending(items) && |items| == 2 && Chain(items, q.principal) == items && Linked(items)
    ensures IsReceipt(p, items, q, n => true, Accepted(first))
    ensures IsReceipt(p, items[1..], q.(stored := Some(encode(first))), n => true, Accepted(second))
    ensures second.body.generation == 1 && second.body.priorReceiptHash == Some(p.hash(encode(first)))
    ensures VerifyAnchor(p, first, items[1].entry.previousHash) == Accepted(true)
    ensures VerifyAnchor(p, second, items[1].entry.previousHash) == Accepted(false)
  {
    hide IsScan, LongestFrom, VerifyAnchor, Chain, Keepable, Fits;
    items := ExampleItems(q);
    first := SignedReceipt(p, q, ScanAt(p.prefixDigest, items, 1), (0, None));
    assert IsScan(p.prefixDigest, items, q.policy, 1, first.body.scan) by { ScanIsScan(p, items, q.policy, 1); }
    var later := q.(stored := Some(encode(first)));
    assert PriorReceipt(p, later.stored) == Accepted((1, Some(p.hash(encode(first)))));
    second := SignedReceipt(p, later, ScanAt(p.prefixDigest, items[1..], 0), (1, Some(p.hash(encode(first)))));
    RepeatedPruneOmitsNothing(items, q.policy, 1);
    assert IsScan(p.prefixDigest, items[1..], q.policy, 0, second.body.scan) by {
      ScanIsScan(p, items[1..], q.policy, 0);
    }
    AnchorAtCut(p, items, q.policy, 1, first, items[1].entry.previousHash);
    AnchorAtCut(p, items[1..], q.policy, 0, second, items[1].entry.previousHash);
  }

  lemma ScanIsScan(p: Primitives, chain: seq<Item>, policy: Policy, n: nat)
    requires Fits(chain) && LongestFrom(chain, policy, n)
    ensures IsScan(p.prefixDigest, chain, policy, n, ScanAt(p.prefixDigest, chain, n))
  {
    hide Keepable;
    assert chain == chain[..n] + chain[n..];
    BytesAppend(chain[..n], chain[n..]);
  }

  lemma ExampleItems(q: Request) returns (items: seq<Item>)
    requires q.policy == Policy(1, None)
    ensures Ascending(items) && |items| == 2 && Chain(items, q.principal) == items && Linked(items)
    ensures Chain(items[1..], q.principal) == items[1..] && Linked(items[1..])
    ensures Fits(items) && Fits(items[1..]) && LongestFrom(items, q.policy, 1)
    ensures items[0].entry.previousHash == ZERO_HASH != items[1].entry.previousHash
  {
    var x, y := Item(0, Entry(0, q.principal, ZERO_HASH, 7, [1])), Item(1, Entry(1, q.principal, 7, 8, [2]));
    items := [x, y];
    assert items[1..] == [y] && items[..1] == [x] && items[0..] == items;
    OneItem(x, q.principal);
    OneItem(y, q.principal);
    BytesAppend([x], [y]);
    assert items == [x] + [y];
  }

  lemma OneItem(x: Item, principal: Option<nat>)
    requires x.entry.principal == principal
    ensures Chain([x], principal) == [x] && TotalBytes([x]) == |x.entry.encoded|
  {
    assert [x][..0] == [] && [x][1..] == [] && Chain([], principal) + [x] == [x];
  }
}
