/**
 * The audit append protocol. Calls of any number of AuditLog instances interleave step by step over
 * one durable store: each takes its log's lock for the chain, resolves the chain head from a possibly
 * stale cache or from storage, signs a successor, clears the cache, and hands the entry to the
 * backend, whose append is one atomic step. Any call may fail or be cancelled at any await.
 */
module AuditAppend {
  import opened Outcomes

  type LogId = nat
  type CallId = nat
  type EntryId = nat
  type HashValue = nat

  const ZERO_HASH: HashValue := 0
  const MAX_HEAD_CAS_ATTEMPTS: nat := 8

  datatype ChainKey = ChainKey(session: nat, principal: Option<nat>)

  /** A signed entry; `request` is the call whose request it records. */
  datatype Entry = Entry(id: EntryId, chain: ChainKey, previousHash: HashValue, request: CallId)

  datatype HeadState = HeadState(id: EntryId, hash: HashValue)

  /** Compare-and-swap on the head, or the default backend that ignores the expected head. */
  datatype Backend = CompareAndSwap | Blind

  datatype Verdict = Ok(id: EntryId) | Exhausted | Failed | Cancelled

  datatype Pc =
    | Waiting
    | Looping
    | ReadingHead
    | ReadingEntry(headId: EntryId)
    | Resolved(expected: Option<EntryId>, hash: HashValue)
    | Submitted(entry: Entry, expected: Option<EntryId>)
    | Reported(entry: Entry, appended: bool)
    | Done(verdict: Verdict)

  datatype Call = Call(log: LogId, chain: ChainKey, attempts: nat, pc: Pc)

  /** `signers` records the call each issued entry id was issued to. */
  datatype State = State(calls: map<CallId, Call>,
                         caches: map<(LogId, ChainKey), HeadState>,
                         locks: map<(LogId, ChainKey), CallId>,
                         durable: map<ChainKey, seq<Entry>>,
                         signers: map<EntryId, CallId>)

  datatype Action =
    | Start(log: LogId, chain: ChainKey)
    | Acquire
    | Attempt
    | ReadHead
    | ReadEntry
    | Sign(id: EntryId)
    | Commit
    | Deliver
    | Retry
    | Fail
    | Cancel

  function Init(): State {
    State(map[], map[], map[], map[], map[])
  }

  function Chain(s: State, k: ChainKey): seq<Entry> {
    if k in s.durable then s.durable[k] else []
  }

  function Head(chain: seq<Entry>): Option<Entry> {
    if chain == [] then None else Some(chain[|chain| - 1])
  }

  function HeadId(chain: seq<Entry>): Option<EntryId> {
    if chain == [] then None else Some(chain[|chain| - 1].id)
  }

  function HeadHash(h: Entry -> HashValue, chain: seq<Entry>): HashValue {
    if chain == [] then ZERO_HASH else h(chain[|chain| - 1])
  }

  function Find(chain: seq<Entry>, id: EntryId): (e: Option<Entry>)
    ensures e.Some? ==> e.value in chain && e.value.id == id
    ensures e.None? ==> forall x :: x in chain ==> x.id != id
  {
    if chain == [] then None
    else if chain[0].id == id then Some(chain[0])
    else Find(chain[1..], id)
  }

  // ---------------------------------------------------------------- steps

  ghost predicate Working(pc: Pc) {
    !pc.Waiting? && !pc.Done?
  }

  /** Only call c moved, and no issued id was reassigned. */
  ghost predicate Moved(s: State, s': State, c: CallId) {
    && c in s.calls && s'.calls.Keys == s.calls.Keys
    && (forall d :: d in s.calls && d != c ==> s'.calls[d] == s.calls[d])
    && s'.calls[c].log == s.calls[c].log && s'.calls[c].chain == s.calls[c].chain
    && (forall id :: id in s.signers ==> id in s'.signers && s'.signers[id] == s.signers[id])
  }

  ghost predicate SameAt<T>(m: map<(LogId, ChainKey), T>, m': map<(LogId, ChainKey), T>, slot: (LogId, ChainKey)) {
    (slot in m <==> slot in m') && (slot in m ==> m[slot] == m'[slot])
  }

  ghost predicate OthersSame<T>(m: map<(LogId, ChainKey), T>, m': map<(LogId, ChainKey), T>, slot: (LogId, ChainKey)) {
    forall t :: t != slot ==> SameAt(m, m', t)
  }

  /** The lock of c's slot is free if c held it, and as before otherwise. */
  ghost predicate Released(s: State, s': State, c: CallId)
    requires c in s.calls
  {
    var slot := Slot(s, c);
    && OthersSame(s.locks, s'.locks, slot)
    && (if slot in s.locks && s.locks[slot] == c then slot !in s'.locks else SameAt(s.locks, s'.locks, slot))
  }

  function Move(s: State, c: CallId, pc: Pc): (s': State)
    requires c in s.calls
    ensures Moved(s, s', c) && s'.calls[c].pc == pc && s'.durable == s.durable
    ensures s'.locks == s.locks && s'.caches == s.caches
  {
    s.(calls := s.calls[c := s.calls[c].(pc := pc)])
  }

  function Slot(s: State, c: CallId): (LogId, ChainKey)
    requires c in s.calls
  {
    (s.calls[c].log, s.calls[c].chain)
  }

  /** Return from append_inner: the chain guard is dropped. */
  function Finish(s: State, c: CallId, verdict: Verdict): (s': State)
    requires c in s.calls
    ensures Moved(s, s', c) && s'.calls[c].pc == Done(verdict) && s'.durable == s.durable
    ensures Released(s, s', c) && s'.caches == s.caches
  {
    var slot := Slot(s, c);
    var held := slot in s.locks && s.locks[slot] == c;
    Move(s, c, Done(verdict)).(locks := if held then s.locks - {slot} else s.locks)
  }

  /** Top of the retry loop: count the attempt, then use the cached head or go to storage. */
  function DoAttempt(s: State, c: CallId): (s': State)
    requires c in s.calls
    ensures Moved(s, s', c) && s'.durable == s.durable && s'.caches == s.caches
    ensures if s'.calls[c].pc.Done? then Released(s, s', c) else Working(s'.calls[c].pc) && s'.locks == s.locks
  {
    var call := s.calls[c];
    if call.attempts + 1 > MAX_HEAD_CAS_ATTEMPTS then Finish(s, c, Exhausted)
    else
      var slot := Slot(s, c);
      var pc := if slot in s.caches then Resolved(Some(s.caches[slot].id), s.caches[slot].hash) else ReadingHead;
      s.(calls := s.calls[c := call.(attempts := call.attempts + 1, pc := pc)])
  }

  function DoReadHead(s: State, c: CallId): (s': State)
    requires c in s.calls
    ensures Moved(s, s', c) && s'.durable == s.durable && Working(s'.calls[c].pc)
    ensures s'.locks == s.locks && s'.caches == s.caches
  {
    match HeadId(Chain(s, s.calls[c].chain))
    case None => Move(s, c, Resolved(None, ZERO_HASH))
    case Some(id) => Move(s, c, ReadingEntry(id))
  }

  function DoReadEntry(h: Entry -> HashValue, s: State, c: CallId): (s': State)
    requires c in s.calls && s.calls[c].pc.ReadingEntry?
    ensures Moved(s, s', c) && s'.durable == s.durable && Working(s'.calls[c].pc)
    ensures s'.locks == s.locks && s'.caches == s.caches
  {
    var id := s.calls[c].pc.headId;
    match Find(Chain(s, s.calls[c].chain), id)
    case None => Move(s, c, Resolved(None, ZERO_HASH))
    case Some(e) => Move(s, c, Resolved(Some(id), h(e)))
  }

  /** Sign a successor under a fresh id and clear the cache before awaiting storage. */
  function DoSign(s: State, c: CallId, id: EntryId): (s': State)
    requires c in s.calls && s.calls[c].pc.Resolved? && id !in s.signers
    ensures Moved(s, s', c) && s'.durable == s.durable && s'.calls[c].pc.Submitted?
    ensures s'.locks == s.locks && OthersSame(s.caches, s'.caches, Slot(s, c)) && Slot(s, c) !in s'.caches
  {
    var call := s.calls[c];
    var entry := Entry(id, call.chain, call.pc.hash, c);
    Move(s, c, Submitted(entry, call.pc.expected)).(caches := s.caches - {Slot(s, c)}, signers := s.signers[id := c])
  }

  /** The backend's atomic append. */
  function DoCommit(b: Backend, s: State, c: CallId): (s': State)
    requires c in s.calls && s.calls[c].pc.Submitted?
    ensures Moved(s, s', c) && s'.calls[c].pc.Reported? && s'.calls[c].pc.entry == s.calls[c].pc.entry
    ensures s'.locks == s.locks && s'.caches == s.caches
    ensures forall k :: Chain(s', k) ==
              if s'.calls[c].pc.appended && k == s.calls[c].chain
              then Chain(s, k) + [s.calls[c].pc.entry] else Chain(s, k)
  {
    var call := s.calls[c];
    var entry := call.pc.entry;
    var chain := Chain(s, call.chain);
    if b.Blind? || HeadId(chain) == call.pc.expected then
      Move(s, c, Reported(entry, true)).(durable := s.durable[call.chain := chain + [entry]])
    else
      Move(s, c, Reported(entry, false))
  }

  function DoDeliver(h: Entry -> HashValue, s: State, c: CallId): (s': State)
    requires c in s.calls && s.calls[c].pc.Reported?
    ensures Moved(s, s', c) && s'.durable == s.durable
    ensures if s.calls[c].pc.appended
            then s'.calls[c].pc == Done(Ok(s.calls[c].pc.entry.id)) && Released(s, s', c)
            else s'.calls[c].pc == Looping && s'.locks == s.locks
    ensures OthersSame(s.caches, s'.caches, Slot(s, c))
    ensures if s.calls[c].pc.appended
            then Slot(s, c) in s'.caches
                 && s'.caches[Slot(s, c)] == HeadState(s.calls[c].pc.entry.id, h(s.calls[c].pc.entry))
            else s'.caches == s.caches
  {
    var pc := s.calls[c].pc;
    if pc.appended then
      Finish(s, c, Ok(pc.entry.id)).(caches := s.caches[Slot(s, c) := HeadState(pc.entry.id, h(pc.entry))])
    else
      Move(s, c, Looping)
  }

  predicate Enabled(s: State, c: CallId, a: Action) {
    if a.Start? then c !in s.calls
    else
      c in s.calls &&
      var pc := s.calls[c].pc;
      match a
      case Acquire => pc.Waiting? && Slot(s, c) !in s.locks
      case Attempt => pc.Looping?
      case ReadHead => pc.ReadingHead?
      case ReadEntry => pc.ReadingEntry?
      case Sign(id) => pc.Resolved? && id !in s.signers
      case Commit => pc.Submitted?
      case Deliver => pc.Reported?
      // A relieved retention cap or a refreshed key: refused before the commit point.
      case Retry => pc.Submitted?
      // A read, signing or storage error; storage may fail after its commit point.
      case Fail => pc.ReadingHead? || pc.ReadingEntry? || pc.Resolved? || pc.Submitted? || pc.Reported?
      case Cancel => !pc.Done?
  }

  function Step(h: Entry -> HashValue, b: Backend, s: State, c: CallId, a: Action): State
    requires Enabled(s, c, a)
  {
    match a
    case Start(log, chain) => s.(calls := s.calls[c := Call(log, chain, 0, Waiting)])
    case Acquire => Move(s, c, Looping).(locks := s.locks[Slot(s, c) := c])
    case Attempt => DoAttempt(s, c)
    case ReadHead => DoReadHead(s, c)
    case ReadEntry => DoReadEntry(h, s, c)
    case Sign(id) => DoSign(s, c, id)
    case Commit => DoCommit(b, s, c)
    case Deliver => DoDeliver(h, s, c)
    case Retry => Move(s, c, Looping)
    case Fail => Finish(s, c, Failed)
    case Cancel => Finish(s, c, Cancelled)
  }

  type Schedule = seq<(CallId, Action)>

  /** The state after a schedule, or None when one of its steps was not possible. */
  function Run(h: Entry -> HashValue, b: Backend, schedule: Schedule): Option<State>
    decreases |schedule|
  {
    if schedule == [] then Some(Init())
    else
      var last := schedule[|schedule| - 1];
      match Run(h, b, schedule[..|schedule| - 1])
      case None => None
      case Some(s) => if Enabled(s, last.0, last.1) then Some(Step(h, b, s, last.0, last.1)) else None
  }

  // ---------------------------------------------------------------- what a chain must be

  /** One linear hash chain from the zero hash. */
  ghost predicate Linked(h: Entry -> HashValue, chain: seq<Entry>) {
    forall i :: 0 <= i < |chain| ==> chain[i].previousHash == HeadHash(h, chain[..i])
  }

  lemma LinkedAppend(h: Entry -> HashValue, chain: seq<Entry>, e: Entry)
    requires Linked(h, chain) && e.previousHash == HeadHash(h, chain)
    ensures Linked(h, chain + [e])
  {
    forall i | 0 <= i < |chain + [e]|
      ensures (chain + [e])[i].previousHash == HeadHash(h, (chain + [e])[..i])
    {
      assert (chain + [e])[..i] == if i < |chain| then chain[..i] else chain;
    }
  }

  ghost predicate Stored(s: State, k: ChainKey, i: int, e: Entry) {
    0 <= i < |Chain(s, k)| && Chain(s, k)[i] == e
  }

  /** The call may have appended its entry: it reported so, or it ended other than by running out of attempts. */
  ghost predicate PastCommit(pc: Pc) {
    (pc.Reported? && pc.appended) || (pc.Done? && !pc.verdict.Exhausted?)
  }

  /** A head a caller may have learnt, now or earlier: genesis, or some stored entry of the chain. */
  ghost predicate Known(h: Entry -> HashValue, s: State, k: ChainKey, expected: Option<EntryId>, hash: HashValue) {
    match expected
    case None => hash == ZERO_HASH
    case Some(id) => exists i, e :: Stored(s, k, i, e) && e.id == id && h(e) == hash
  }

  ghost predicate CallOk(h: Entry -> HashValue, s: State, c: CallId)
    requires c in s.calls
  {
    var call := s.calls[c];
    match call.pc
    case ReadingEntry(id) => exists i, e :: Stored(s, call.chain, i, e) && e.id == id
    case Resolved(expected, hash) => Known(h, s, call.chain, expected, hash)
    case Submitted(e, expected) =>
      e.chain == call.chain && e.request == c && e.id in s.signers && s.signers[e.id] == c
      && Known(h, s, call.chain, expected, e.previousHash)
    case Reported(e, appended) => appended ==> exists i :: Stored(s, call.chain, i, e) && e.request == c
    case Done(verdict) =>
      verdict.Ok? ==> exists i, e :: Stored(s, call.chain, i, e) && e.request == c && e.id == verdict.id
    case _ => true
  }

  /** Every stored entry was signed by, and committed by, the one call whose request it records. */
  ghost predicate EntriesOwned(s: State) {
    forall k, i, e :: Stored(s, k, i, e) ==>
      && e.chain == k && e.request in s.calls && s.calls[e.request].chain == k
      && PastCommit(s.calls[e.request].pc)
      && e.id in s.signers && s.signers[e.id] == e.request
  }

  /** A call stores at most one entry. */
  ghost predicate OncePerCall(s: State) {
    forall k, i, e, k', i', e' :: Stored(s, k, i, e) && Stored(s, k', i', e') && e.request == e'.request ==>
      k == k' && i == i'
  }

  ghost predicate CachesKnown(h: Entry -> HashValue, s: State) {
    forall slot :: slot in s.caches ==> Known(h, s, slot.1, Some(s.caches[slot].id), s.caches[slot].hash)
  }

  ghost predicate CallsOk(h: Entry -> HashValue, s: State) {
    forall c :: c in s.calls ==> CallOk(h, s, c)
  }

  /** Bookkeeping that holds whatever the backend does. */
  ghost predicate Books(h: Entry -> HashValue, s: State) {
    EntriesOwned(s) && OncePerCall(s) && CachesKnown(h, s) && CallsOk(h, s)
  }

  // ---------------------------------------------------------------- durable history only grows

  ghost predicate Grows(s: State, s': State) {
    forall k :: Chain(s, k) <= Chain(s', k)
  }

  /** No step removes or reorders a stored entry. */
  lemma StepGrows(h: Entry -> HashValue, b: Backend, s: State, c: CallId, a: Action)
    requires Enabled(s, c, a)
    ensures Grows(s, Step(h, b, s, c, a))
    ensures !a.Commit? ==> Step(h, b, s, c, a).durable == s.durable
  {
    if a.Commit? {
      var k := s.calls[c].chain;
      assert Chain(s, k) <= Chain(s, k) + [s.calls[c].pc.entry];
    }
  }

  lemma KnownGrows(h: Entry -> HashValue, s: State, s': State, k: ChainKey, expected: Option<EntryId>, hash: HashValue)
    requires Grows(s, s') && Known(h, s, k, expected, hash)
    ensures Known(h, s', k, expected, hash)
  {
    if expected.Some? {
      var i, e :| Stored(s, k, i, e) && e.id == expected.value && h(e) == hash;
      assert Stored(s', k, i, e);
    }
  }

  lemma CallOkGrows(h: Entry -> HashValue, s: State, s': State, c: CallId)
    requires c in s.calls && c in s'.calls && s.calls[c] == s'.calls[c] && CallOk(h, s, c)
    requires Grows(s, s') && forall id :: id in s.signers ==> id in s'.signers && s'.signers[id] == s.signers[id]
    ensures CallOk(h, s', c)
  {
    var call := s.calls[c];
    match call.pc {
      case ReadingEntry(id) =>
        var i, e :| Stored(s, call.chain, i, e) && e.id == id;
        assert Stored(s', call.chain, i, e);
      case Resolved(expected, hash) => KnownGrows(h, s, s', call.chain, expected, hash);
      case Submitted(e, expected) => KnownGrows(h, s, s', call.chain, expected, e.previousHash);
      case Reported(e, appended) =>
        if appended {
          var i :| Stored(s, call.chain, i, e) && e.request == c;
          assert Stored(s', call.chain, i, e);
        }
      case Done(verdict) =>
        if verdict.Ok? {
          var i, e :| Stored(s, call.chain, i, e) && e.request == c && e.id == verdict.id;
          assert Stored(s', call.chain, i, e);
        }
      case _ =>
    }
  }

  // ---------------------------------------------------------------- bookkeeping is kept

  /** What a step by call c may change. */
  lemma StepFrame(h: Entry -> HashValue, b: Backend, s: State, c: CallId, a: Action)
    requires Enabled(s, c, a)
    ensures var s' := Step(h, b, s, c, a);
            && c in s'.calls && s.calls.Keys <= s'.calls.Keys <= s.calls.Keys + {c}
            && (forall d :: d in s.calls && d != c ==> s'.calls[d] == s.calls[d])
            && (c in s.calls ==> Slot(s', c) == Slot(s, c))
            && (c in s.calls && PastCommit(s.calls[c].pc) ==> PastCommit(s'.calls[c].pc))
            && (forall id :: id in s.signers ==> id in s'.signers && s'.signers[id] == s.signers[id])
            && (a.Commit? ==> s'.calls[c].pc.Reported? && s'.calls[c].pc.entry == s.calls[c].pc.entry)
            && (forall k :: Chain(s', k) ==
                  if a.Commit? && s'.calls[c].pc.appended && k == s.calls[c].chain
                  then Chain(s, k) + [s.calls[c].pc.entry] else Chain(s, k))
  {
    hide Move, Finish, DoAttempt, DoReadHead, DoReadEntry, DoSign, DoCommit, DoDeliver;
  }

  /** A step leaves every other call and its issued ids alone. */
  lemma OthersKept(h: Entry -> HashValue, b: Backend, s: State, c: CallId, a: Action)
    requires Enabled(s, c, a) && CallsOk(h, s)
    ensures forall d :: d in Step(h, b, s, c, a).calls && d != c ==> CallOk(h, Step(h, b, s, c, a), d)
  {
    var s' := Step(h, b, s, c, a);
    StepGrows(h, b, s, c, a);
    StepFrame(h, b, s, c, a);
    hide Step, Enabled, CallOk, Grows;
    forall d | d in s'.calls && d != c ensures CallOk(h, s', d) {
      CallOkGrows(h, s, s', d);
    }
  }

  lemma AttemptOk(h: Entry -> HashValue, s: State, c: CallId)
    requires Enabled(s, c, Attempt) && Books(h, s)
    ensures CallOk(h, DoAttempt(s, c), c)
  {
    var s' := DoAttempt(s, c);
    if s'.calls[c].pc.Resolved? {
      var slot := Slot(s, c);
      KnownGrows(h, s, s', slot.1, Some(s.caches[slot].id), s.caches[slot].hash);
    }
  }

  lemma ReadsOk(h: Entry -> HashValue, s: State, c: CallId)
    requires c in s.calls
    ensures s.calls[c].pc.ReadingHead? ==> CallOk(h, DoReadHead(s, c), c)
    ensures s.calls[c].pc.ReadingEntry? ==> CallOk(h, DoReadEntry(h, s, c), c)
  {
    var k := s.calls[c].chain;
    var chain := Chain(s, k);
    if s.calls[c].pc.ReadingHead? {
      var s' := DoReadHead(s, c);
      if chain != [] { assert Stored(s', k, |chain| - 1, chain[|chain| - 1]); }
    }
    if s.calls[c].pc.ReadingEntry? {
      var s' := DoReadEntry(h, s, c);
      var found := Find(chain, s.calls[c].pc.headId);
      if found.Some? {
        var i :| 0 <= i < |chain| && chain[i] == found.value;
        assert Stored(s', k, i, found.value);
      }
    }
  }

  lemma SignOk(h: Entry -> HashValue, s: State, c: CallId, id: EntryId)
    requires Enabled(s, c, Sign(id)) && CallOk(h, s, c)
    ensures CallOk(h, DoSign(s, c, id), c)
  {
    KnownGrows(h, s, DoSign(s, c, id), s.calls[c].chain, s.calls[c].pc.expected, s.calls[c].pc.hash);
  }

  lemma CommitOk(h: Entry -> HashValue, b: Backend, s: State, c: CallId)
    requires Enabled(s, c, Commit) && CallOk(h, s, c)
    ensures CallOk(h, DoCommit(b, s, c), c)
  {
    hide DoCommit;
    var s' := DoCommit(b, s, c);
    if s'.calls[c].pc.appended {
      assert Stored(s', s.calls[c].chain, |Chain(s, s.calls[c].chain)|, s.calls[c].pc.entry);
    }
  }

  lemma DeliverOk(h: Entry -> HashValue, s: State, c: CallId)
    requires Enabled(s, c, Deliver) && CallOk(h, s, c)
    ensures CallOk(h, DoDeliver(h, s, c), c)
  {
    var s' := DoDeliver(h, s, c);
    var pc := s.calls[c].pc;
    if pc.appended {
      var i :| Stored(s, s.calls[c].chain, i, pc.entry) && pc.entry.request == c;
      assert Stored(s', s.calls[c].chain, i, pc.entry);
    }
  }

  lemma MoverOk(h: Entry -> HashValue, b: Backend, s: State, c: CallId, a: Action)
    requires Enabled(s, c, a) && Books(h, s)
    ensures CallOk(h, Step(h, b, s, c, a), c)
  {
    assert !a.Start? ==> CallOk(h, s, c);
    hide Move, Finish, DoAttempt, DoReadHead, DoReadEntry, DoSign, DoCommit, DoDeliver, Moved, Known, Stored;
    match a {
      case Attempt => AttemptOk(h, s, c);
      case ReadHead => ReadsOk(h, s, c);
      case ReadEntry => ReadsOk(h, s, c);
      case Sign(id) => SignOk(h, s, c, id);
      case Commit => CommitOk(h, b, s, c);
      case Deliver => DeliverOk(h, s, c);
      case _ =>
    }
  }

  lemma OwnedKept(h: Entry -> HashValue, b: Backend, s: State, c: CallId, a: Action)
    requires Enabled(s, c, a) && Books(h, s)
    ensures EntriesOwned(Step(h, b, s, c, a))
  {
    hide Step, Known;
    var s' := Step(h, b, s, c, a);
    StepFrame(h, b, s, c, a);
    assert a.Commit? ==> CallOk(h, s, c);
    forall k, i, e | Stored(s', k, i, e)
      ensures e.chain == k && e.request in s'.calls && s'.calls[e.request].chain == k
              && PastCommit(s'.calls[e.request].pc) && e.id in s'.signers && s'.signers[e.id] == e.request
    {
      if i < |Chain(s, k)| { assert Stored(s, k, i, e); }
    }
  }

  lemma OnceKept(h: Entry -> HashValue, b: Backend, s: State, c: CallId, a: Action)
    requires Enabled(s, c, a) && Books(h, s)
    ensures OncePerCall(Step(h, b, s, c, a))
  {
    hide Step, Known;
    var s' := Step(h, b, s, c, a);
    StepFrame(h, b, s, c, a);
    assert a.Commit? ==> CallOk(h, s, c);
    forall k, i, e, k', i', e' | Stored(s', k, i, e) && Stored(s', k', i', e') && e.request == e'.request
      ensures k == k' && i == i'
    {
      if i < |Chain(s, k)| { assert Stored(s, k, i, e); }
      if i' < |Chain(s, k')| { assert Stored(s, k', i', e'); }
    }
  }

  lemma CachesKept(h: Entry -> HashValue, b: Backend, s: State, c: CallId, a: Action)
    requires Enabled(s, c, a) && Books(h, s)
    ensures CachesKnown(h, Step(h, b, s, c, a))
  {
    var s' := Step(h, b, s, c, a);
    StepGrows(h, b, s, c, a);
    forall slot | slot in s'.caches
      ensures Known(h, s', slot.1, Some(s'.caches[slot].id), s'.caches[slot].hash)
    {
      if slot in s.caches && s'.caches[slot] == s.caches[slot] {
        KnownGrows(h, s, s', slot.1, Some(s.caches[slot].id), s.caches[slot].hash);
      } else {
        assert CallOk(h, s, c);
        var e := s.calls[c].pc.entry;
        var i :| Stored(s, s.calls[c].chain, i, e) && e.request == c;
        assert Stored(s', slot.1, i, e);
      }
    }
  }

  lemma BooksKept(h: Entry -> HashValue, b: Backend, s: State, c: CallId, a: Action)
    requires Enabled(s, c, a) && Books(h, s)
    ensures Books(h, Step(h, b, s, c, a))
  {
    OwnedKept(h, b, s, c, a);
    OnceKept(h, b, s, c, a);
    CachesKept(h, b, s, c, a);
    OthersKept(h, b, s, c, a);
    MoverOk(h, b, s, c, a);
  }

  lemma {:induction false} BooksAlways(h: Entry -> HashValue, b: Backend, schedule: Schedule)
    requires Run(h, b, schedule).Some?
    ensures Books(h, Run(h, b, schedule).value)
    decreases |schedule|
  {
    if schedule != [] {
      var n := |schedule| - 1;
      BooksAlways(h, b, schedule[..n]);
      BooksKept(h, b, Run(h, b, schedule[..n]).value, schedule[n].0, schedule[n].1);
    }
  }

  /** A call tries at most eight times, and gives up only after the eighth. */
  ghost predicate AttemptOkAt(s: State, c: CallId) {
    c in s.calls ==>
      && s.calls[c].attempts <= MAX_HEAD_CAS_ATTEMPTS
      && (s.calls[c].pc == Done(Exhausted) ==> s.calls[c].attempts == MAX_HEAD_CAS_ATTEMPTS)
  }

  ghost predicate AttemptsOk(s: State) {
    forall c :: c in s.calls ==> AttemptOkAt(s, c)
  }

  lemma MoverAttempts(h: Entry -> HashValue, b: Backend, s: State, c: CallId, a: Action)
    requires Enabled(s, c, a) && AttemptOkAt(s, c)
    ensures AttemptOkAt(Step(h, b, s, c, a), c)
  {
    hide Moved, OthersSame, Released, SameAt, Chain, Find;
  }

  lemma AttemptsKept(h: Entry -> HashValue, b: Backend, s: State, c: CallId, a: Action)
    requires Enabled(s, c, a) && AttemptsOk(s)
    ensures AttemptsOk(Step(h, b, s, c, a))
  {
    hide Step, Enabled;
    MoverAttempts(h, b, s, c, a);
    StepFrame(h, b, s, c, a);
  }

  lemma {:induction false} AttemptsAlways(h: Entry -> HashValue, b: Backend, schedule: Schedule)
    requires Run(h, b, schedule).Some?
    ensures AttemptsOk(Run(h, b, schedule).value)
    decreases |schedule|
  {
    hide Step, Enabled, AttemptsOk;
    if schedule != [] {
      var n := |schedule| - 1;
      AttemptsAlways(h, b, schedule[..n]);
      AttemptsKept(h, b, Run(h, b, schedule[..n]).value, schedule[n].0, schedule[n].1);
    } else {
      NoAttempts();
    }
  }

  lemma NoAttempts()
    ensures AttemptsOk(Init())
  {}

  /** Entry ids name stored entries uniquely. */
  lemma IdsUnique(h: Entry -> HashValue, s: State, k: ChainKey, i: int, e: Entry, k': ChainKey, i': int, e': Entry)
    requires Books(h, s) && Stored(s, k, i, e) && Stored(s, k', i', e') && e.id == e'.id
    ensures k == k' && i == i' && e == e'
  {}

  // ---------------------------------------------------------------- compare-and-swap backend

  /** A successful swap appends to exactly the entry the new one was signed against. */
  lemma SwapLinks(h: Entry -> HashValue, s: State, c: CallId)
    requires Books(h, s) && c in s.calls && s.calls[c].pc.Submitted?
    requires HeadId(Chain(s, s.calls[c].chain)) == s.calls[c].pc.expected
    ensures s.calls[c].pc.entry.previousHash == HeadHash(h, Chain(s, s.calls[c].chain))
  {
    var k := s.calls[c].chain;
    var chain := Chain(s, k);
    assert CallOk(h, s, c);
    if chain != [] {
      var i, e :| Stored(s, k, i, e) && e.id == chain[|chain| - 1].id && h(e) == s.calls[c].pc.entry.previousHash;
      IdsUnique(h, s, k, i, e, k, |chain| - 1, chain[|chain| - 1]);
    }
  }

  lemma LinkedKept(h: Entry -> HashValue, s: State, c: CallId, a: Action)
    requires Enabled(s, c, a) && Books(h, s) && forall k :: Linked(h, Chain(s, k))
    ensures forall k :: Linked(h, Chain(Step(h, CompareAndSwap, s, c, a), k))
  {
    StepGrows(h, CompareAndSwap, s, c, a);
    var s' := Step(h, CompareAndSwap, s, c, a);
    forall k ensures Linked(h, Chain(s', k)) {
      if a.Commit? && s'.calls[c].pc.appended && k == s.calls[c].chain {
        SwapLinks(h, s, c);
        LinkedAppend(h, Chain(s, k), s.calls[c].pc.entry);
      } else {
        assert Chain(s', k) == Chain(s, k);
      }
    }
  }

  /**
   * No fork with many writers: under a compare-and-swap backend every chain of every reachable state
   * is one linear hash chain from zero, for any number of logs, stale caches, failed swaps, retries,
   * errors and cancellations.
   */
  lemma {:induction false} NoForkWithSwap(h: Entry -> HashValue, schedule: Schedule, k: ChainKey)
    requires Run(h, CompareAndSwap, schedule).Some?
    ensures Linked(h, Chain(Run(h, CompareAndSwap, schedule).value, k))
  {
    LinkedAlways(h, schedule);
  }

  lemma {:induction false} LinkedAlways(h: Entry -> HashValue, schedule: Schedule)
    requires Run(h, CompareAndSwap, schedule).Some?
    ensures forall k :: Linked(h, Chain(Run(h, CompareAndSwap, schedule).value, k))
    decreases |schedule|
  {
    if schedule != [] {
      var n := |schedule| - 1;
      LinkedAlways(h, schedule[..n]);
      BooksAlways(h, CompareAndSwap, schedule[..n]);
      LinkedKept(h, Run(h, CompareAndSwap, schedule[..n]).value, schedule[n].0, schedule[n].1);
    }
  }

  /**
   * What a finished call stored, under either backend: a reported id names exactly one stored entry,
   * and it records that call's request; no call stores two; a call that ran out of attempts, or has
   * not reached its commit point, stored none; and a failed or cancelled call stored one iff one of its
   * commits appended.
   */
  lemma CallsStoreAtMostOnce(h: Entry -> HashValue, b: Backend, schedule: Schedule, c: CallId)
    requires Run(h, b, schedule).Some? && c in Run(h, b, schedule).value.calls
    ensures var s := Run(h, b, schedule).value; var pc := s.calls[c].pc;
            && (pc.Done? && pc.verdict.Ok? ==>
                  exists i, e :: Stored(s, s.calls[c].chain, i, e) && e.request == c && e.id == pc.verdict.id)
            && (forall k, i, e, k', i', e' ::
                  Stored(s, k, i, e) && Stored(s, k', i', e') && (e.id == e'.id || (e.request == c && e'.request == c))
                  ==> k == k' && i == i')
            && (!PastCommit(pc) ==> forall k, i, e :: Stored(s, k, i, e) ==> e.request != c)
            && (StoredBy(s, c) <==> AppendedBy(h, b, schedule, c))
  {
    hide StoredBy, AppendedBy;
    BooksAlways(h, b, schedule);
    StoresIffAppended(h, b, schedule, c);
    var s := Run(h, b, schedule).value;
    assert CallOk(h, s, c);
  }

  // ---------------------------------------------------------------- what is stored is what commits appended

  /** Step i of the schedule is a commit that appended. */
  ghost predicate AppendedAt(h: Entry -> HashValue, b: Backend, schedule: Schedule, i: int) {
    && 0 <= i < |schedule| && schedule[i].1.Commit? && Run(h, b, schedule[..i]).Some?
    && var s := Run(h, b, schedule[..i]).value;
    && Enabled(s, schedule[i].0, Commit) && DoCommit(b, s, schedule[i].0).calls[schedule[i].0].pc.appended
  }

  ghost function AppendedEntry(h: Entry -> HashValue, b: Backend, schedule: Schedule, i: int): Entry
    requires AppendedAt(h, b, schedule, i)
  {
    Run(h, b, schedule[..i]).value.calls[schedule[i].0].pc.entry
  }

  /** The entries that commit steps appended to chain k, in the order of the schedule. */
  ghost function Appends(h: Entry -> HashValue, b: Backend, schedule: Schedule, k: ChainKey): seq<Entry>
    decreases |schedule|
  {
    if schedule == [] then []
    else
      var n := |schedule| - 1;
      var before := Appends(h, b, schedule[..n], k);
      if AppendedAt(h, b, schedule, n) && AppendedEntry(h, b, schedule, n).chain == k
      then before + [AppendedEntry(h, b, schedule, n)] else before
  }

  /** A step stores exactly the entry its own commit appended. */
  lemma StepStores(h: Entry -> HashValue, b: Backend, schedule: Schedule, k: ChainKey)
    requires schedule != [] && Run(h, b, schedule).Some?
    ensures var n := |schedule| - 1;
            && Run(h, b, schedule[..n]).Some?
            && var before := Chain(Run(h, b, schedule[..n]).value, k);
            && Chain(Run(h, b, schedule).value, k) ==
               (if AppendedAt(h, b, schedule, n) && AppendedEntry(h, b, schedule, n).chain == k
                then before + [AppendedEntry(h, b, schedule, n)] else before)
            && (AppendedAt(h, b, schedule, n) ==> AppendedEntry(h, b, schedule, n).request == schedule[n].0)
  {
    hide Step, DoCommit, Enabled, Books;
    var n := |schedule| - 1;
    BooksAlways(h, b, schedule[..n]);
    CommitStores(h, b, Run(h, b, schedule[..n]).value, schedule[n].0, schedule[n].1, k);
  }

  lemma CommitStores(h: Entry -> HashValue, b: Backend, s: State, c: CallId, a: Action, k: ChainKey)
    requires Enabled(s, c, a) && Books(h, s)
    ensures a.Commit? ==> c in s.calls && s.calls[c].pc.Submitted? && s.calls[c].pc.entry.request == c
    ensures Chain(Step(h, b, s, c, a), k) ==
            if a.Commit? && DoCommit(b, s, c).calls[c].pc.appended && s.calls[c].pc.entry.chain == k
            then Chain(s, k) + [s.calls[c].pc.entry] else Chain(s, k)
  {
    assert a.Commit? ==> CallOk(h, s, c);
    hide DoCommit, Books, Known, Chain;
    StepFrame(h, b, s, c, a);
  }

  /** In every run a chain is the list of entries that commits appended to it, in order: nothing is lost or added. */
  lemma {:induction false} ChainIsAppends(h: Entry -> HashValue, b: Backend, schedule: Schedule, k: ChainKey)
    requires Run(h, b, schedule).Some?
    ensures Chain(Run(h, b, schedule).value, k) == Appends(h, b, schedule, k)
    decreases |schedule|
  {
    hide AppendedAt, AppendedEntry, Step, Enabled;
    if schedule != [] {
      StepStores(h, b, schedule, k);
      ChainIsAppends(h, b, schedule[..|schedule| - 1], k);
    }
  }

  ghost predicate StoredBy(s: State, c: CallId) {
    exists k, i, e :: Stored(s, k, i, e) && e.request == c
  }

  ghost predicate AppendedBy(h: Entry -> HashValue, b: Backend, schedule: Schedule, c: CallId) {
    exists i :: AppendedAt(h, b, schedule, i) && schedule[i].0 == c
  }

  /** A call stores an entry iff one of its own commits appended, however it ended. */
  lemma {:induction false} StoresIffAppended(h: Entry -> HashValue, b: Backend, schedule: Schedule, c: CallId)
    requires Run(h, b, schedule).Some?
    ensures StoredBy(Run(h, b, schedule).value, c) <==> AppendedBy(h, b, schedule, c)
    decreases |schedule|
  {
    hide Step, Enabled, AppendedAt, AppendedEntry, Run, StoredBy, AppendedBy;
    if schedule == [] {
      NothingStored(h, b, c);
    } else {
      var n := |schedule| - 1;
      StepStores(h, b, schedule, ChainKey(0, None));
      StoresIffAppended(h, b, schedule[..n], c);
      AppendedByStep(h, b, schedule, c);
      StoredByStep(h, b, schedule, c);
    }
  }

  lemma NothingStored(h: Entry -> HashValue, b: Backend, c: CallId)
    ensures Run(h, b, []) == Some(Init()) && !StoredBy(Init(), c) && !AppendedBy(h, b, [], c)
  {}

  lemma AppendedByStep(h: Entry -> HashValue, b: Backend, schedule: Schedule, c: CallId)
    requires schedule != []
    ensures var n := |schedule| - 1;
            AppendedBy(h, b, schedule, c) <==>
            AppendedBy(h, b, schedule[..n], c) || (AppendedAt(h, b, schedule, n) && schedule[n].0 == c)
  {
    hide AppendedAt, AppendedBy;
    var n := |schedule| - 1;
    if AppendedBy(h, b, schedule[..n], c) {
      var i := FindAppended(h, b, schedule[..n], c);
      AppendedEarlier(h, b, schedule, n, i);
      ShowAppended(h, b, schedule, c, i);
    }
    if AppendedAt(h, b, schedule, n) && schedule[n].0 == c { ShowAppended(h, b, schedule, c, n); }
    if AppendedBy(h, b, schedule, c) {
      var i := FindAppended(h, b, schedule, c);
      if i < n {
        AppendedEarlier(h, b, schedule, n, i);
        ShowAppended(h, b, schedule[..n], c, i);
      }
    }
  }

  lemma FindAppended(h: Entry -> HashValue, b: Backend, schedule: Schedule, c: CallId) returns (i: nat)
    requires AppendedBy(h, b, schedule, c)
    ensures i < |schedule| && AppendedAt(h, b, schedule, i) && schedule[i].0 == c
  {
    hide Run, Enabled, DoCommit;
    i :| AppendedAt(h, b, schedule, i) && schedule[i].0 == c;
  }

  lemma ShowAppended(h: Entry -> HashValue, b: Backend, schedule: Schedule, c: CallId, i: nat)
    requires i < |schedule| && AppendedAt(h, b, schedule, i) && schedule[i].0 == c
    ensures AppendedBy(h, b, schedule, c)
  {
    hide Run, Enabled, DoCommit;
  }

  lemma AppendedEarlier(h: Entry -> HashValue, b: Backend, schedule: Schedule, n: nat, i: nat)
    requires i < n <= |schedule|
    ensures AppendedAt(h, b, schedule, i) <==> AppendedAt(h, b, schedule[..n], i)
  {
    hide Run, Enabled, DoCommit;
    assert schedule[..n][..i] == schedule[..i] && schedule[..n][i] == schedule[i];
  }

  lemma StoredByStep(h: Entry -> HashValue, b: Backend, schedule: Schedule, c: CallId)
    requires schedule != [] && Run(h, b, schedule).Some? && Run(h, b, schedule[..|schedule| - 1]).Some?
    ensures var n := |schedule| - 1;
            StoredBy(Run(h, b, schedule).value, c) <==>
            StoredBy(Run(h, b, schedule[..n]).value, c) || (AppendedAt(h, b, schedule, n) && schedule[n].0 == c)
  {
    hide Run, AppendedAt, AppendedEntry, Chain;
    var n := |schedule| - 1;
    var s, s' := Run(h, b, schedule[..n]).value, Run(h, b, schedule).value;
    if k, i, e :| Stored(s, k, i, e) && e.request == c {
      StepStores(h, b, schedule, k);
      assert Stored(s', k, i, e);
    }
    if AppendedAt(h, b, schedule, n) && schedule[n].0 == c {
      var e := AppendedEntry(h, b, schedule, n);
      StepStores(h, b, schedule, e.chain);
      assert Stored(s', e.chain, |Chain(s, e.chain)|, e);
    }
    if k, i, e :| Stored(s', k, i, e) && e.request == c {
      StepStores(h, b, schedule, k);
      if i < |Chain(s, k)| { assert Stored(s, k, i, e); }
    }
  }

  // ---------------------------------------------------------------- default backend, one writer of a chain

  ghost predicate Holds(s: State, slot: (LogId, ChainKey), c: CallId) {
    c in s.calls && Slot(s, c) == slot && Working(s.calls[c].pc)
  }

  /** Every lock is held by the one call that is past it. */
  ghost predicate LocksOk(s: State) {
    && (forall c :: c in s.calls && Working(s.calls[c].pc) ==> Slot(s, c) in s.locks && s.locks[Slot(s, c)] == c)
    && (forall slot :: slot in s.locks ==> Holds(s, slot, s.locks[slot]))
  }

  /** Only this log works on chain k, and locks exclude. */
  ghost predicate Exclusive(s: State, k: ChainKey, log: LogId) {
    && (forall c :: c in s.calls && s.calls[c].chain == k ==> s.calls[c].log == log)
    && (forall slot :: slot in s.caches && slot.1 == k ==> slot.0 == log)
    && LocksOk(s)
  }

  ghost predicate CacheFresh(h: Entry -> HashValue, s: State, slot: (LogId, ChainKey)) {
    slot in s.caches ==>
      HeadId(Chain(s, slot.1)) == Some(s.caches[slot].id) && HeadHash(h, Chain(s, slot.1)) == s.caches[slot].hash
  }

  /** The holder's view of its chain is the durable head itself. */
  ghost predicate HolderFresh(h: Entry -> HashValue, s: State, c: CallId)
    requires c in s.calls
  {
    var chain := Chain(s, s.calls[c].chain);
    match s.calls[c].pc
    case ReadingEntry(id) => HeadId(chain) == Some(id)
    case Resolved(expected, hash) => expected == HeadId(chain) && hash == HeadHash(h, chain)
    case Submitted(e, expected) => Slot(s, c) !in s.caches && e.previousHash == HeadHash(h, chain)
    case Reported(e, appended) => Slot(s, c) !in s.caches && appended && Head(chain) == Some(e)
    case _ => true
  }

  /** A step touches the lock and the cache of its own slot only. */
  lemma SlotFrame(h: Entry -> HashValue, b: Backend, s: State, c: CallId, a: Action)
    requires Enabled(s, c, a)
    ensures var s' := Step(h, b, s, c, a);
            && c in s'.calls
            && OthersSame(s.locks, s'.locks, Slot(s', c)) && OthersSame(s.caches, s'.caches, Slot(s', c))
            && (a.Start? ==> s'.locks == s.locks && s'.caches == s.caches)
            && (!a.Sign? && !a.Deliver? ==> s'.caches == s.caches)
  {
    hide Move, Finish, DoAttempt, DoReadHead, DoReadEntry, DoSign, DoCommit, DoDeliver;
  }

  ghost predicate AllFresh(h: Entry -> HashValue, s: State, k: ChainKey) {
    forall slot :: slot in s.caches && slot.1 == k ==> CacheFresh(h, s, slot)
  }

  ghost predicate HoldersFresh(h: Entry -> HashValue, s: State, k: ChainKey) {
    forall c :: c in s.calls && s.calls[c].chain == k && Working(s.calls[c].pc) ==> HolderFresh(h, s, c)
  }

  lemma LocksKept(h: Entry -> HashValue, b: Backend, s: State, c: CallId, a: Action)
    requires Enabled(s, c, a) && LocksOk(s)
    ensures LocksOk(Step(h, b, s, c, a))
  {
    hide Step, Enabled, PastCommit, Working, Chain;
    StepFrame(h, b, s, c, a);
    SlotFrame(h, b, s, c, a);
    var s' := Step(h, b, s, c, a);
    OwnLock(h, b, s, c, a);
    forall d | d in s'.calls && Working(s'.calls[d].pc)
      ensures Slot(s', d) in s'.locks && s'.locks[Slot(s', d)] == d
    {
      if d != c {
        assert Slot(s', d) == Slot(s, d);
        if Slot(s, d) != Slot(s', c) { assert SameAt(s.locks, s'.locks, Slot(s, d)); }
      }
    }
    forall slot | slot in s'.locks ensures Holds(s', slot, s'.locks[slot]) {
      if slot != Slot(s', c) { assert SameAt(s.locks, s'.locks, slot); }
    }
  }

  /** The lock of the moving call's slot: taken, kept or released by that call only. */
  lemma OwnLock(h: Entry -> HashValue, b: Backend, s: State, c: CallId, a: Action)
    requires Enabled(s, c, a) && LocksOk(s)
    ensures var s' := Step(h, b, s, c, a); var slot := Slot(s', c);
            && (Working(s'.calls[c].pc) ==> slot in s'.locks && s'.locks[slot] == c)
            && (!Working(s'.calls[c].pc) && slot in s'.locks ==>
                  slot in s.locks && s.locks[slot] == s'.locks[slot] != c)
            && (forall d :: d in s.calls && d != c && Slot(s, d) == slot && Working(s.calls[d].pc) ==>
                  slot in s'.locks && s'.locks[slot] == d)
  {
    hide Move, Finish, DoAttempt, DoReadHead, DoReadEntry, DoSign, DoCommit, DoDeliver;
    SlotFrame(h, b, s, c, a);
    StepFrame(h, b, s, c, a);
  }

  /** In every run locks exclude. */
  lemma {:induction false} LocksAlways(h: Entry -> HashValue, b: Backend, schedule: Schedule)
    requires Run(h, b, schedule).Some?
    ensures LocksOk(Run(h, b, schedule).value)
    decreases |schedule|
  {
    hide Step, Enabled, LocksOk;
    if schedule != [] {
      var n := |schedule| - 1;
      LocksAlways(h, b, schedule[..n]);
      LocksKept(h, b, Run(h, b, schedule[..n]).value, schedule[n].0, schedule[n].1);
    } else {
      NoLocks();
    }
  }

  lemma NoLocks()
    ensures LocksOk(Init())
  {}

  lemma ExclusiveKept(h: Entry -> HashValue, b: Backend, s: State, c: CallId, a: Action, k: ChainKey, log: LogId)
    requires Enabled(s, c, a) && Exclusive(s, k, log) && (a.Start? && a.chain == k ==> a.log == log)
    ensures Exclusive(Step(h, b, s, c, a), k, log)
  {
    hide LocksOk;
    LocksKept(h, b, s, c, a);
    OwnLog(h, b, s, c, a, k, log);
    StepFrame(h, b, s, c, a);
    hide Step, Enabled, PastCommit, Working, Chain;
  }

  /** The log that writes chain k is the only one that works on it or caches its head. */
  lemma OwnLog(h: Entry -> HashValue, b: Backend, s: State, c: CallId, a: Action, k: ChainKey, log: LogId)
    requires Enabled(s, c, a) && Exclusive(s, k, log) && (a.Start? && a.chain == k ==> a.log == log)
    ensures var s' := Step(h, b, s, c, a);
            && (Slot(s', c).1 == k ==> Slot(s', c).0 == log)
            && (forall t :: t in s'.caches && t.1 == k ==> t.0 == log)
  {
    hide Move, Finish, DoAttempt, DoReadHead, DoReadEntry, DoSign, DoCommit, DoDeliver, LocksOk;
    SlotFrame(h, b, s, c, a);
    StepFrame(h, b, s, c, a);
    var s' := Step(h, b, s, c, a);
    forall t | t in s'.caches && t.1 == k ensures t.0 == log {
      if t != Slot(s', c) { assert SameAt(s.caches, s'.caches, t); }
    }
  }

  /**
   * One log on a chain over a backend that ignores the expected head: a cached head of the chain is its durable
   * head, so in particular whenever the chain's lock is free, and the holder works against the durable head.
   */
  ghost predicate SoleWriter(h: Entry -> HashValue, s: State, k: ChainKey, log: LogId) {
    Exclusive(s, k, log) && AllFresh(h, s, k) && HoldersFresh(h, s, k) && Linked(h, Chain(s, k))
  }

  /** Only the holder of a chain's lock can append to it. */
  lemma AppendOnlyByHolder(h: Entry -> HashValue, b: Backend, s: State, c: CallId, a: Action, k: ChainKey, log: LogId,
                           d: CallId)
    requires Enabled(s, c, a) && Exclusive(s, k, log) && d in s.calls && d != c && Working(s.calls[d].pc)
    requires s.calls[d].chain == k
    ensures Chain(Step(h, b, s, c, a), k) == Chain(s, k)
  {
    StepFrame(h, b, s, c, a);
    hide Step;
  }

  lemma OtherHoldersKept(h: Entry -> HashValue, b: Backend, s: State, c: CallId, a: Action, k: ChainKey, log: LogId,
                         d: CallId)
    requires Enabled(s, c, a) && Exclusive(s, k, log) && (a.Start? && a.chain == k ==> a.log == log)
    requires d in s.calls && d != c && s.calls[d].chain == k && Working(s.calls[d].pc) && HolderFresh(h, s, d)
    ensures d in Step(h, b, s, c, a).calls && HolderFresh(h, Step(h, b, s, c, a), d)
  {
    StepFrame(h, b, s, c, a);
    SlotFrame(h, b, s, c, a);
    AppendOnlyByHolder(h, b, s, c, a, k, log, d);
    var s' := Step(h, b, s, c, a);
    if Slot(s, d) == Slot(s', c) {
      assert a.Start? || !Working(s.calls[c].pc);
    } else {
      assert SameAt(s.caches, s'.caches, Slot(s, d));
    }
    hide Step;
  }

  lemma HeadFound(h: Entry -> HashValue, s: State, k: ChainKey)
    requires Books(h, s) && Chain(s, k) != []
    ensures Find(Chain(s, k), Chain(s, k)[|Chain(s, k)| - 1].id) == Head(Chain(s, k))
  {
    var chain := Chain(s, k);
    var head := chain[|chain| - 1];
    var found := Find(chain, head.id);
    assert head in chain && found.Some?;
    var i :| 0 <= i < |chain| && chain[i] == found.value;
    assert Stored(s, k, i, found.value) && Stored(s, k, |chain| - 1, head);
    IdsUnique(h, s, k, i, found.value, k, |chain| - 1, head);
  }

  lemma AttemptFresh(h: Entry -> HashValue, s: State, c: CallId)
    requires Enabled(s, c, Attempt) && AllFresh(h, s, s.calls[c].chain)
    ensures Working(DoAttempt(s, c).calls[c].pc) ==> HolderFresh(h, DoAttempt(s, c), c)
  {
    if Slot(s, c) in s.caches { assert CacheFresh(h, s, Slot(s, c)); }
  }

  lemma ReadsFresh(h: Entry -> HashValue, s: State, c: CallId)
    requires c in s.calls && Books(h, s) && HolderFresh(h, s, c)
    ensures s.calls[c].pc.ReadingHead? ==> HolderFresh(h, DoReadHead(s, c), c)
    ensures s.calls[c].pc.ReadingEntry? ==> HolderFresh(h, DoReadEntry(h, s, c), c)
  {
    var chain := Chain(s, s.calls[c].chain);
    if chain != [] { HeadFound(h, s, s.calls[c].chain); }
    hide Books, Moved;
  }

  lemma CommitFresh(h: Entry -> HashValue, s: State, c: CallId)
    requires Enabled(s, c, Commit) && HolderFresh(h, s, c)
    ensures HolderFresh(h, DoCommit(Blind, s, c), c)
  {}

  lemma MoverFresh(h: Entry -> HashValue, s: State, c: CallId, a: Action, k: ChainKey, log: LogId)
    requires Enabled(s, c, a) && !a.Start? && s.calls[c].chain == k && Books(h, s) && SoleWriter(h, s, k, log)
    ensures Working(Step(h, Blind, s, c, a).calls[c].pc) ==> HolderFresh(h, Step(h, Blind, s, c, a), c)
  {
    assert Working(s.calls[c].pc) ==> HolderFresh(h, s, c);
    match a {
      case Attempt => AttemptFresh(h, s, c);
      case ReadHead => ReadsFresh(h, s, c);
      case ReadEntry => ReadsFresh(h, s, c);
      case Sign(id) => SignFresh(h, s, c, id);
      case Commit => CommitFresh(h, s, c);
      case _ =>
    }
    hide Books, SoleWriter, Move, Finish, DoAttempt, DoReadHead, DoReadEntry, DoSign, DoCommit, DoDeliver, Moved,
         Released;
  }

  lemma SignFresh(h: Entry -> HashValue, s: State, c: CallId, id: EntryId)
    requires Enabled(s, c, Sign(id)) && HolderFresh(h, s, c)
    ensures HolderFresh(h, DoSign(s, c, id), c)
  {}

  lemma DeliveredCacheFresh(h: Entry -> HashValue, s: State, c: CallId)
    requires Enabled(s, c, Deliver) && HolderFresh(h, s, c)
    ensures CacheFresh(h, DoDeliver(h, s, c), Slot(s, c))
  {
    hide DoDeliver, Moved, OthersSame, Released;
  }

  lemma OwnCacheFresh(h: Entry -> HashValue, s: State, c: CallId, a: Action, k: ChainKey, log: LogId)
    requires Enabled(s, c, a) && SoleWriter(h, s, k, log) && !a.Start? && s.calls[c].chain == k
    ensures var s' := Step(h, Blind, s, c, a); Slot(s, c) in s'.caches ==> CacheFresh(h, s', Slot(s, c))
  {
    assert Working(s.calls[c].pc) ==> HolderFresh(h, s, c);
    assert Slot(s, c) in s.caches ==> CacheFresh(h, s, Slot(s, c));
    StepFrame(h, Blind, s, c, a);
    SlotFrame(h, Blind, s, c, a);
    if a.Deliver? {
      DeliveredCacheFresh(h, s, c);
    } else if a.Sign? {
      hide DoSign;
      assert Slot(s, c) !in Step(h, Blind, s, c, a).caches;
    } else {
      hide Step, SoleWriter, OthersSame;
    }
  }

  lemma FreshKept(h: Entry -> HashValue, s: State, c: CallId, a: Action, k: ChainKey, log: LogId)
    requires Enabled(s, c, a) && SoleWriter(h, s, k, log) && (a.Start? && a.chain == k ==> a.log == log)
    ensures AllFresh(h, Step(h, Blind, s, c, a), k)
  {
    StepFrame(h, Blind, s, c, a);
    SlotFrame(h, Blind, s, c, a);
    OwnLog(h, Blind, s, c, a, k, log);
    var s' := Step(h, Blind, s, c, a);
    if !a.Start? && s.calls[c].chain == k { OwnCacheFresh(h, s, c, a, k, log); }
    hide Linked, Step, Enabled, HoldersFresh;
    forall slot | slot in s'.caches && slot.1 == k ensures CacheFresh(h, s', slot) {
      if slot != Slot(s', c) { assert SameAt(s.caches, s'.caches, slot); }
    }
  }

  lemma BlindLinks(h: Entry -> HashValue, s: State, c: CallId, a: Action, k: ChainKey, log: LogId)
    requires Enabled(s, c, a) && SoleWriter(h, s, k, log)
    ensures Linked(h, Chain(Step(h, Blind, s, c, a), k))
  {
    StepFrame(h, Blind, s, c, a);
    if a.Commit? && k == s.calls[c].chain {
      assert HolderFresh(h, s, c);
      LinkedAppend(h, Chain(s, k), s.calls[c].pc.entry);
    }
  }

  lemma SoleWriterKept(h: Entry -> HashValue, s: State, c: CallId, a: Action, k: ChainKey, log: LogId)
    requires Enabled(s, c, a) && Books(h, s) && SoleWriter(h, s, k, log) && (a.Start? && a.chain == k ==> a.log == log)
    ensures SoleWriter(h, Step(h, Blind, s, c, a), k, log)
  {
    ExclusiveKept(h, Blind, s, c, a, k, log);
    FreshKept(h, s, c, a, k, log);
    BlindLinks(h, s, c, a, k, log);
    StepFrame(h, Blind, s, c, a);
    var s' := Step(h, Blind, s, c, a);
    if !a.Start? && s.calls[c].chain == k { MoverFresh(h, s, c, a, k, log); }
    assert a.Start? ==> !Working(s'.calls[c].pc);
    hide Step, Enabled, Linked, Exclusive, AllFresh, HolderFresh, Books;
    forall d | d in s'.calls && s'.calls[d].chain == k && Working(s'.calls[d].pc) ensures HolderFresh(h, s', d) {
      if d != c { OtherHoldersKept(h, Blind, s, c, a, k, log, d); }
    }
  }

  /** Only these logs start calls on the chain; other chains may have any writers. */
  ghost predicate WrittenBy(schedule: Schedule, k: ChainKey, writers: set<LogId>) {
    forall i :: 0 <= i < |schedule| && schedule[i].1.Start? && schedule[i].1.chain == k ==>
      schedule[i].1.log in writers
  }

  /**
   * No fork without compare-and-swap: with one log on a chain, the per-chain lock and clearing the cache before
   * the await keep the chain linear and the log's cached head equal to the durable head or empty, wherever
   * calls fail or are cancelled, before or after the commit point, and whatever happens on other chains.
   */
  lemma {:induction false} NoForkWithOneLog(h: Entry -> HashValue, schedule: Schedule, k: ChainKey, log: LogId)
    requires Run(h, Blind, schedule).Some? && WrittenBy(schedule, k, {log})
    ensures SoleWriter(h, Run(h, Blind, schedule).value, k, log)
    decreases |schedule|
  {
    if schedule != [] {
      var n := |schedule| - 1;
      NoForkWithOneLog(h, schedule[..n], k, log);
      BooksAlways(h, Blind, schedule[..n]);
      SoleWriterKept(h, Run(h, Blind, schedule[..n]).value, schedule[n].0, schedule[n].1, k, log);
    }
  }

  /** The first entry a call signs on an empty chain. */
  ghost predicate First(e: Entry, k: ChainKey) {
    e.chain == k && e.previousHash == ZERO_HASH
  }

  /** Every run over the default backend in which only these logs write the chain keeps it linear. */
  ghost predicate SafeFor(h: Entry -> HashValue, k: ChainKey, writers: set<LogId>) {
    forall schedule :: Run(h, Blind, schedule).Some? && WrittenBy(schedule, k, writers) ==>
      Linked(h, Chain(Run(h, Blind, schedule).value, k))
  }

  /**
   * Exactly when the lock suffices: unless the hash sends every first entry of the chain to zero, a chain is
   * linear in every run over the default backend iff at most one log writes it.
   */
  lemma SafeIffOneWriter(h: Entry -> HashValue, k: ChainKey, writers: set<LogId>, first: Entry)
    requires First(first, k) && h(first) != ZERO_HASH
    ensures SafeFor(h, k, writers) <==> |writers| <= 1
  {
    hide Run, Linked, SoleWriter, WrittenBy;
    if |writers| <= 1 {
      forall schedule | Run(h, Blind, schedule).Some? && WrittenBy(schedule, k, writers)
        ensures Linked(h, Chain(Run(h, Blind, schedule).value, k))
      {
        OneWriterLinks(h, schedule, k, writers);
      }
    } else {
      var a, b := TwoOf(writers);
      var schedule := TwoBlindLogsFork(h, k, a, b, first);
      MoreWriters(schedule, k, {a, b}, writers);
    }
  }

  lemma OneWriterLinks(h: Entry -> HashValue, schedule: Schedule, k: ChainKey, writers: set<LogId>)
    requires Run(h, Blind, schedule).Some? && WrittenBy(schedule, k, writers) && |writers| <= 1
    ensures Linked(h, Chain(Run(h, Blind, schedule).value, k))
  {
    hide Run, Linked;
    var log := 0;
    if writers != {} {
      log :| log in writers;
      assert writers == {log} by { OnlyElement(writers, log); }
    }
    NoForkWithOneLog(h, schedule, k, log);
  }

  lemma OnlyElement(writers: set<LogId>, log: LogId)
    requires log in writers && |writers| <= 1
    ensures writers == {log}
  {
    assert writers == {log} + (writers - {log});
    assert |writers - {log}| == 0;
  }

  lemma TwoOf(writers: set<LogId>) returns (a: LogId, b: LogId)
    requires |writers| > 1
    ensures a in writers && b in writers && a != b
  {
    a :| a in writers;
    assert |writers - {a}| > 0;
    b :| b in writers - {a};
  }

  lemma MoreWriters(schedule: Schedule, k: ChainKey, some: set<LogId>, more: set<LogId>)
    requires WrittenBy(schedule, k, some) && some <= more
    ensures WrittenBy(schedule, k, more)
  {}

  lemma RunStep(h: Entry -> HashValue, b: Backend, schedule: Schedule, s: State, c: CallId, a: Action)
    returns (longer: Schedule)
    requires Run(h, b, schedule) == Some(s) && Enabled(s, c, a)
    ensures longer == schedule + [(c, a)] && Run(h, b, longer) == Some(Step(h, b, s, c, a))
    ensures forall k, writers :: WrittenBy(schedule, k, writers) && (a.Start? && a.chain == k ==> a.log in writers) ==>
                                   WrittenBy(longer, k, writers)
  {
    longer := schedule + [(c, a)];
    assert longer[..|longer| - 1] == schedule;
  }

  /** Any two logs over the default backend can fork any chain. */
  lemma TwoBlindLogsFork(h: Entry -> HashValue, k: ChainKey, a: LogId, b: LogId, first: Entry)
    returns (schedule: Schedule)
    requires a != b && First(first, k) && h(first) != ZERO_HASH
    ensures Run(h, Blind, schedule).Some? && WrittenBy(schedule, k, {a, b})
    ensures !Linked(h, Chain(Run(h, Blind, schedule).value, k))
  {
    hide Run, Moved, OthersSame, Released, SameAt, Linked, Step, Enabled, WrittenBy;
    var c, d := first.request, first.request + 1;
    var second := Entry(first.id + 1, k, ZERO_HASH, d);
    var s;
    schedule, s := BothResolved(h, k, a, b, c, d);
    schedule, s := BlindAppends(h, schedule, s, c, first.id, k, [], {a, b});
    schedule, s := BlindAppends(h, schedule, s, d, second.id, k, [first], {a, b});
    assert Chain(s, k) == [first, second];
    ForkNotLinked(h, first, second);
  }

  /** Two logs resolve the same empty chain before either has appended. */
  lemma BothResolved(h: Entry -> HashValue, k: ChainKey, a: LogId, b: LogId, c: CallId, d: CallId)
    returns (schedule: Schedule, s: State)
    requires a != b && c != d
    ensures Run(h, Blind, schedule) == Some(s) && s.durable == map[] && s.signers == map[]
    ensures WrittenBy(schedule, k, {a, b})
    ensures c in s.calls && d in s.calls && s.calls[c].chain == s.calls[d].chain == k
    ensures s.calls[c].pc == s.calls[d].pc == Resolved(None, ZERO_HASH)
  {
    hide Run, Moved, OthersSame, Released, SameAt, WrittenBy;
    var s0 := State(map[], map[], map[], map[], map[]);
    assert Run(h, Blind, []) == Some(s0) by { RunStart(h, Blind); }
    assert WrittenBy([], k, {a, b}) by { NoWriters(k, {a, b}); }
    schedule := RunStep(h, Blind, [], s0, c, Start(a, k));
    var s1 := Step(h, Blind, s0, c, Start(a, k));
    schedule := RunStep(h, Blind, schedule, s1, d, Start(b, k));
    var s2 := Step(h, Blind, s1, d, Start(b, k));
    schedule, s := ToResolved(h, schedule, s2, c, k, {a, b});
    schedule, s := ToResolved(h, schedule, s, d, k, {a, b});
  }

  lemma NoWriters(k: ChainKey, writers: set<LogId>)
    ensures WrittenBy([], k, writers)
  {}

  /** A call that resolved an empty chain signs and appends against it, whatever was appended meanwhile. */
  lemma BlindAppends(h: Entry -> HashValue, schedule: Schedule, s: State, c: CallId, id: EntryId, k: ChainKey,
                     before: seq<Entry>, writers: set<LogId>)
    returns (longer: Schedule, s': State)
    requires Run(h, Blind, schedule) == Some(s) && WrittenBy(schedule, k, writers)
    requires c in s.calls && s.calls[c].chain == k && s.calls[c].pc == Resolved(None, ZERO_HASH)
    requires id !in s.signers && Chain(s, k) == before
    ensures Run(h, Blind, longer) == Some(s') && WrittenBy(longer, k, writers)
    ensures Chain(s', k) == before + [Entry(id, k, ZERO_HASH, c)]
    ensures s'.signers == s.signers[id := c]
    ensures forall d :: d in s.calls && d != c ==> d in s'.calls && s'.calls[d] == s.calls[d]
  {
    hide Run, OthersSame, Released, SameAt, WrittenBy;
    longer := RunStep(h, Blind, schedule, s, c, Sign(id));
    var s1 := Step(h, Blind, s, c, Sign(id));
    longer := RunStep(h, Blind, longer, s1, c, Commit);
    s' := Step(h, Blind, s1, c, Commit);
  }

  lemma RunStart(h: Entry -> HashValue, b: Backend)
    ensures Run(h, b, []) == Some(Init())
  {}

  lemma ForkNotLinked(h: Entry -> HashValue, first: Entry, second: Entry)
    requires h(first) != second.previousHash
    ensures !Linked(h, [first, second])
  {
    assert [first, second][..1] == [first];
  }

  /** A call that just started reaches the signing step against an empty chain. */
  lemma ToResolved(h: Entry -> HashValue, schedule: Schedule, s: State, c: CallId, k: ChainKey, writers: set<LogId>)
    returns (schedule': Schedule, s': State)
    requires Run(h, Blind, schedule) == Some(s) && Enabled(s, c, Acquire) && WrittenBy(schedule, k, writers)
    requires s.calls[c].attempts == 0 && s.caches == map[] && s.durable == map[]
    ensures Run(h, Blind, schedule') == Some(s') && WrittenBy(schedule', k, writers)
    ensures s' == s.(calls := s.calls[c := s.calls[c].(attempts := 1, pc := Resolved(None, ZERO_HASH))],
                     locks := s.locks[Slot(s, c) := c])
  {
    hide Run, Moved, OthersSame, Released, SameAt, WrittenBy;
    schedule' := RunStep(h, Blind, schedule, s, c, Acquire);
    var s1 := Step(h, Blind, s, c, Acquire);
    schedule' := RunStep(h, Blind, schedule', s1, c, Attempt);
    var s2 := Step(h, Blind, s1, c, Attempt);
    schedule' := RunStep(h, Blind, schedule', s2, c, ReadHead);
    s' := Step(h, Blind, s2, c, ReadHead);
  }
}
