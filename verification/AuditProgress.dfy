/**
 * Progress of audit appends over a compare-and-swap backend: a swap fails only because another entry was appended
 * behind the head the call had resolved, so a call that is left alone succeeds, and one that gives up was outrun or
 * refused eight times.
 */
module AuditProgress {
  import opened Outcomes
  import opened AuditAppend

  // ---------------------------------------------------------------- positions in a chain

  /** One more than the index of the entry with this id; zero if there is none. */
  function Position(chain: seq<Entry>, id: EntryId): (p: nat)
    ensures p <= |chain|
    ensures p > 0 ==> chain[p - 1].id == id
  {
    if chain == [] then 0
    else if chain[|chain| - 1].id == id then |chain|
    else Position(chain[..|chain| - 1], id)
  }

  /** How many entries a caller knows of that expects this head. */
  function PositionOf(chain: seq<Entry>, expected: Option<EntryId>): (p: nat)
    ensures p <= |chain|
  {
    if expected.None? then 0 else Position(chain, expected.value)
  }

  lemma PositionAppends(chain: seq<Entry>, e: Entry, id: EntryId)
    ensures Position(chain + [e], id) == if id == e.id then |chain| + 1 else Position(chain, id)
  {
    assert (chain + [e])[..|chain|] == chain;
  }

  lemma {:induction false} PositionOfStored(chain: seq<Entry>, i: nat)
    requires i < |chain|
    ensures Position(chain, chain[i].id) > i
    decreases |chain|
  {
    var n := |chain| - 1;
    if chain[n].id != chain[i].id {
      assert chain[..n][i] == chain[i];
      PositionOfStored(chain[..n], i);
    }
  }

  /** A known head is the durable one exactly when nothing stands behind it. */
  lemma HeadIsLast(chain: seq<Entry>, expected: Option<EntryId>)
    requires expected.Some? ==> Position(chain, expected.value) > 0
    ensures HeadId(chain) == expected <==> PositionOf(chain, expected) == |chain|
  {}

  // ---------------------------------------------------------------- what a call has been through

  /** The head a call first signed against: how many entries it knew of, and how many there were. */
  datatype Base = Base(known: nat, length: nat)

  /** The outcome of a call so far: failed swaps, refusals by the store, and the head it first signed against. */
  datatype Tally = Tally(failed: nat, refused: nat, base: Option<Base>)

  ghost function Count(h: Entry -> HashValue, s: State, c: CallId, a: Action, t: Tally): Tally
    requires Enabled(s, c, a)
  {
    match a
    case Commit => if DoCommit(CompareAndSwap, s, c).calls[c].pc.appended then t else t.(failed := t.failed + 1)
    case Retry => t.(refused := t.refused + 1)
    case Sign(_) =>
      var chain := Chain(s, s.calls[c].chain);
      if t.base.Some? then t else t.(base := Some(Base(PositionOf(chain, s.calls[c].pc.expected), |chain|)))
    case _ => t
  }

  /** The tally of a call over a run. */
  ghost function TallyOf(h: Entry -> HashValue, schedule: Schedule, c: CallId): Tally
    requires Run(h, CompareAndSwap, schedule).Some?
    decreases |schedule|
  {
    if schedule == [] then Tally(0, 0, None)
    else
      var n := |schedule| - 1;
      var before := TallyOf(h, schedule[..n], c);
      if schedule[n].0 != c then before
      else Count(h, Run(h, CompareAndSwap, schedule[..n]).value, c, schedule[n].1, before)
  }

  /** Every attempt ends in success, in a failed swap or in a refusal. */
  ghost predicate AttemptsTally(pc: Pc, attempts: nat, used: nat) {
    attempts <= MAX_HEAD_CAS_ATTEMPTS &&
    match pc
    case Waiting => attempts == used == 0
    case Looping => attempts == used
    case Reported(_, appended) => attempts == used + (if appended then 1 else 0)
    case Done(verdict) =>
      && (verdict.Exhausted? ==> used == attempts == MAX_HEAD_CAS_ATTEMPTS)
      && (verdict.Ok? ==> attempts == used + 1)
    case _ => attempts == used + 1
  }

  /** Beyond the first known head there is an entry for every failed swap, the first of them perhaps an earlier one. */
  ghost predicate Ahead(base: Base, failed: nat, p: int) {
    base.known + failed <= p && (failed > 0 ==> base.length + failed - 1 <= p)
  }

  ghost predicate Outrun(chain: seq<Entry>, pc: Pc, cached: bool, base: Base, failed: nat) {
    && base.known <= base.length <= |chain| && Ahead(base, failed, |chain|)
    && (Working(pc) && !(pc.Reported? && pc.appended) ==> !cached)
    && match pc
       case ReadingEntry(id) => Ahead(base, failed, Position(chain, id))
       case Resolved(expected, _) => Ahead(base, failed, PositionOf(chain, expected))
       case Submitted(_, expected) => Ahead(base, failed, PositionOf(chain, expected))
       case Reported(e, appended) => appended ==> Ahead(base, failed, Position(chain, e.id) - 1)
       case Done(verdict) => verdict.Ok? ==> Ahead(base, failed, Position(chain, verdict.id) - 1)
       case _ => true
  }

  ghost predicate Unsigned(pc: Pc) {
    !pc.Submitted? && !pc.Reported? && !(pc.Done? && (pc.verdict.Ok? || pc.verdict.Exhausted?))
  }

  ghost predicate TallyOk(s: State, c: CallId, t: Tally) {
    if c !in s.calls then t == Tally(0, 0, None)
    else
      var call := s.calls[c];
      && AttemptsTally(call.pc, call.attempts, t.failed + t.refused)
      && (call.pc.Waiting? ==> t.base.None?) && (t.base.None? ==> t.failed == t.refused == 0 && Unsigned(call.pc))
      && (t.base.Some? ==>
            Outrun(Chain(s, call.chain), call.pc, Slot(s, c) in s.caches, t.base.value, t.failed))
  }

  // ---------------------------------------------------------------- steps of others

  lemma OutrunGrows(chain: seq<Entry>, e: Entry, pc: Pc, cached: bool, base: Base, failed: nat)
    requires Outrun(chain, pc, cached, base, failed)
    requires pc.ReadingEntry? ==> pc.headId != e.id
    requires pc.Resolved? && pc.expected.Some? ==> pc.expected.value != e.id
    requires pc.Submitted? && pc.expected.Some? ==> pc.expected.value != e.id
    requires pc.Reported? && pc.appended ==> pc.entry.id != e.id
    requires pc.Done? && pc.verdict.Ok? ==> pc.verdict.id != e.id
    ensures Outrun(chain + [e], pc, cached, base, failed)
  {
    hide Position;
    match pc
    case ReadingEntry(id) => PositionAppends(chain, e, id);
    case Resolved(expected, _) => if expected.Some? { PositionAppends(chain, e, expected.value); }
    case Submitted(_, expected) => if expected.Some? { PositionAppends(chain, e, expected.value); }
    case Reported(x, appended) => PositionAppends(chain, e, x.id);
    case Done(verdict) => if verdict.Ok? { PositionAppends(chain, e, verdict.id); }
    case _ =>
  }

  /** The id an entry is appended under is none that any other call has learnt of. */
  lemma FreshToOthers(h: Entry -> HashValue, s: State, d: CallId, c: CallId)
    requires Books(h, s) && c in s.calls && d in s.calls && c != d && s.calls[d].pc.Submitted?
    ensures var id := s.calls[d].pc.entry.id; var pc := s.calls[c].pc;
            && (pc.ReadingEntry? ==> pc.headId != id)
            && (pc.Resolved? && pc.expected.Some? ==> pc.expected.value != id)
            && (pc.Submitted? && pc.expected.Some? ==> pc.expected.value != id)
            && (pc.Reported? && pc.appended ==> pc.entry.id != id)
            && (pc.Done? && pc.verdict.Ok? ==> pc.verdict.id != id)
  {
    var id := s.calls[d].pc.entry.id;
    assert CallOk(h, s, d) && CallOk(h, s, c);
    forall k, i, e | Stored(s, k, i, e) ensures e.id != id { NotStoredYet(h, s, d, k, i, e); }
    hide Books, Stored;
  }

  lemma NotStoredYet(h: Entry -> HashValue, s: State, d: CallId, k: ChainKey, i: int, e: Entry)
    requires Books(h, s) && d in s.calls && s.calls[d].pc.Submitted? && Stored(s, k, i, e)
    ensures e.id != s.calls[d].pc.entry.id
  {
    hide Stored, Known;
    assert CallOk(h, s, d);
  }

  lemma OtherSteps(h: Entry -> HashValue, s: State, d: CallId, a: Action, c: CallId, t: Tally)
    requires Enabled(s, d, a) && Books(h, s) && LocksOk(s) && TallyOk(s, c, t) && c != d
    ensures TallyOk(Step(h, CompareAndSwap, s, d, a), c, t)
  {
    hide Step, Enabled, Books, Outrun, AttemptsTally, Unsigned, PastCommit;
    StepFrame(h, CompareAndSwap, s, d, a);
    var s' := Step(h, CompareAndSwap, s, d, a);
    if c in s.calls && t.base.Some? {
      SlotKept(h, s, d, a, c);
      var k := s.calls[c].chain;
      if Chain(s', k) != Chain(s, k) {
        Appending(h, s, d, a, k);
        FreshToOthers(h, s, d, c);
        OutrunGrows(Chain(s, k), s.calls[d].pc.entry, s.calls[c].pc, Slot(s, c) in s.caches, t.base.value, t.failed);
      }
      OutrunCached(Chain(s', k), s.calls[c].pc, Slot(s, c) in s.caches, Slot(s, c) in s'.caches,
                   t.base.value, t.failed);
    }
  }

  lemma OutrunCached(chain: seq<Entry>, pc: Pc, cached: bool, cached': bool, base: Base, failed: nat)
    requires Outrun(chain, pc, cached, base, failed) && (Working(pc) ==> cached == cached')
    ensures Outrun(chain, pc, cached', base, failed)
  {
    hide Position, Ahead;
  }

  lemma Appending(h: Entry -> HashValue, s: State, d: CallId, a: Action, k: ChainKey)
    requires Enabled(s, d, a) && Chain(Step(h, CompareAndSwap, s, d, a), k) != Chain(s, k)
    ensures a.Commit? && d in s.calls && s.calls[d].pc.Submitted?
    ensures Chain(Step(h, CompareAndSwap, s, d, a), k) == Chain(s, k) + [s.calls[d].pc.entry]
  {
    StepFrame(h, CompareAndSwap, s, d, a);
    hide Step, Chain;
  }

  /** While a call holds its lock no other call touches the cached head of its slot. */
  lemma SlotKept(h: Entry -> HashValue, s: State, d: CallId, a: Action, c: CallId)
    requires Enabled(s, d, a) && LocksOk(s) && c in s.calls && c != d
    ensures Working(s.calls[c].pc) ==>
              (Slot(s, c) in s.caches <==> Slot(s, c) in Step(h, CompareAndSwap, s, d, a).caches)
  {
    SlotFrame(h, CompareAndSwap, s, d, a);
    StepFrame(h, CompareAndSwap, s, d, a);
    var s' := Step(h, CompareAndSwap, s, d, a);
    if Working(s.calls[c].pc) {
      if Slot(s', d) != Slot(s, c) {
        assert SameAt(s.caches, s'.caches, Slot(s, c));
      } else {
        assert !a.Sign? && !a.Deliver?;
      }
    }
  }

  // ---------------------------------------------------------------- a call's own steps

  lemma ReadSteps(h: Entry -> HashValue, s: State, c: CallId, t: Tally)
    requires c in s.calls && CallOk(h, s, c) && TallyOk(s, c, t)
    ensures s.calls[c].pc.ReadingHead? ==> TallyOk(DoReadHead(s, c), c, t)
    ensures s.calls[c].pc.ReadingEntry? ==> TallyOk(DoReadEntry(h, s, c), c, t)
  {
    hide Moved, Find;
    var k := s.calls[c].chain;
    var chain := Chain(s, k);
    if s.calls[c].pc.ReadingHead? && chain != [] { PositionOfStored(chain, |chain| - 1); }
    if s.calls[c].pc.ReadingEntry? {
      var i, e :| Stored(s, k, i, e) && e.id == s.calls[c].pc.headId;
      assert e in chain;
    }
  }

  lemma AttemptStep(s: State, c: CallId, t: Tally)
    requires Enabled(s, c, Attempt) && TallyOk(s, c, t)
    ensures TallyOk(DoAttempt(s, c), c, t)
  {
    hide Position, Released, Moved;
  }

  lemma SignStep(h: Entry -> HashValue, s: State, c: CallId, id: EntryId, t: Tally)
    requires Enabled(s, c, Sign(id)) && TallyOk(s, c, t)
    ensures TallyOk(DoSign(s, c, id), c, Count(h, s, c, Sign(id), t))
  {
    hide Position, Moved, OthersSame;
  }

  /** A failed swap means an entry behind the head the call had resolved. */
  lemma CommitStep(h: Entry -> HashValue, s: State, c: CallId, t: Tally)
    requires Enabled(s, c, Commit) && CallOk(h, s, c) && TallyOk(s, c, t)
    ensures TallyOk(DoCommit(CompareAndSwap, s, c), c, Count(h, s, c, Commit, t))
  {
    hide Position, Moved;
    var k := s.calls[c].chain;
    var chain, e, expected := Chain(s, k), s.calls[c].pc.entry, s.calls[c].pc.expected;
    if expected.Some? {
      var i, known :| Stored(s, k, i, known) && known.id == expected.value && h(known) == e.previousHash;
      PositionOfStored(chain, i);
    }
    HeadIsLast(chain, expected);
    PositionAppends(chain, e, e.id);
  }

  lemma DeliverStep(h: Entry -> HashValue, s: State, c: CallId, t: Tally)
    requires Enabled(s, c, Deliver) && TallyOk(s, c, t)
    ensures TallyOk(DoDeliver(h, s, c), c, t)
  {
    hide Position, Moved, OthersSame, Released, Ahead;
  }

  lemma EndSteps(h: Entry -> HashValue, s: State, c: CallId, a: Action, t: Tally)
    requires Enabled(s, c, a) && TallyOk(s, c, t) && (a.Start? || a.Acquire? || a.Retry? || a.Fail? || a.Cancel?)
    ensures TallyOk(Step(h, CompareAndSwap, s, c, a), c, Count(h, s, c, a, t))
  {
    hide Position, Moved, OthersSame, Released, SameAt;
  }

  lemma OwnSteps(h: Entry -> HashValue, s: State, c: CallId, a: Action, t: Tally)
    requires Enabled(s, c, a) && Books(h, s) && TallyOk(s, c, t)
    ensures TallyOk(Step(h, CompareAndSwap, s, c, a), c, Count(h, s, c, a, t))
  {
    assert !a.Start? ==> CallOk(h, s, c);
    hide Books, TallyOk, CallOk, DoAttempt, DoReadHead, DoReadEntry, DoSign, DoCommit, DoDeliver, Finish, Move;
    match a
    case Attempt => AttemptStep(s, c, t);
    case ReadHead => ReadSteps(h, s, c, t);
    case ReadEntry => ReadSteps(h, s, c, t);
    case Sign(id) => SignStep(h, s, c, id, t);
    case Commit => CommitStep(h, s, c, t);
    case Deliver => DeliverStep(h, s, c, t);
    case _ => EndSteps(h, s, c, a, t);
  }

  /** In every run each call's tally fits its state. */
  lemma {:induction false} TallyAlways(h: Entry -> HashValue, schedule: Schedule, c: CallId)
    requires Run(h, CompareAndSwap, schedule).Some?
    ensures TallyOk(Run(h, CompareAndSwap, schedule).value, c, TallyOf(h, schedule, c))
    decreases |schedule|
  {
    hide Step, Enabled, TallyOk, Count;
    if schedule == [] {
      NoTally(c);
    } else {
      var n := |schedule| - 1;
      var s := Run(h, CompareAndSwap, schedule[..n]).value;
      TallyAlways(h, schedule[..n], c);
      BooksAlways(h, CompareAndSwap, schedule[..n]);
      LocksAlways(h, CompareAndSwap, schedule[..n]);
      var t := TallyOf(h, schedule[..n], c);
      if schedule[n].0 == c {
        OwnSteps(h, s, c, schedule[n].1, t);
      } else {
        OtherSteps(h, s, schedule[n].0, schedule[n].1, c, t);
      }
    }
  }

  lemma NoTally(c: CallId)
    ensures TallyOk(Init(), c, Tally(0, 0, None))
  {}

  // ---------------------------------------------------------------- results

  /**
   * Giving up: a call that runs out of attempts had eight failed swaps or refusals, and for every failed swap another
   * call's entry stands behind the head it first signed against; all but one of these came after it first signed.
   */
  lemma ExhaustedWasOutrun(h: Entry -> HashValue, schedule: Schedule, c: CallId)
    requires Run(h, CompareAndSwap, schedule).Some? && c in Run(h, CompareAndSwap, schedule).value.calls
    requires Run(h, CompareAndSwap, schedule).value.calls[c].pc == Done(Exhausted)
    ensures var s := Run(h, CompareAndSwap, schedule).value; var t := TallyOf(h, schedule, c);
            var chain := Chain(s, s.calls[c].chain);
            && t.failed + t.refused == MAX_HEAD_CAS_ATTEMPTS && t.base.Some?
            && t.base.value.known + t.failed <= |chain|
            && (t.failed > 0 ==> t.base.value.length + t.failed - 1 <= |chain|)
            && forall i :: 0 <= i < |chain| ==> chain[i].request != c
  {
    hide Step, Enabled, Run, TallyOf;
    TallyAlways(h, schedule, c);
    CallsStoreAtMostOnce(h, CompareAndSwap, schedule, c);
    var s := Run(h, CompareAndSwap, schedule).value;
    var chain := Chain(s, s.calls[c].chain);
    forall i | 0 <= i < |chain| ensures chain[i].request != c { assert Stored(s, s.calls[c].chain, i, chain[i]); }
  }

  /**
   * Succeeding: between the head a call first signed against and the entry it stored there is another entry for every
   * failed swap, so with none in between no swap failed, and one at most if none came after it first signed.
   */
  lemma SuccessWasOutrun(h: Entry -> HashValue, schedule: Schedule, c: CallId, id: EntryId)
    requires Run(h, CompareAndSwap, schedule).Some? && c in Run(h, CompareAndSwap, schedule).value.calls
    requires Run(h, CompareAndSwap, schedule).value.calls[c].pc == Done(Ok(id))
    ensures var s := Run(h, CompareAndSwap, schedule).value; var t := TallyOf(h, schedule, c);
            var p := Position(Chain(s, s.calls[c].chain), id);
            && t.base.Some? && p > 0
            && t.failed <= p - 1 - t.base.value.known
            && t.failed <= 1 + (if p - 1 >= t.base.value.length then p - 1 - t.base.value.length else 0)
  {
    hide Step, Enabled, Run, TallyOf;
    TallyAlways(h, schedule, c);
  }

  ghost predicate NoTrouble(schedule: Schedule, c: CallId) {
    forall i :: 0 <= i < |schedule| && schedule[i].0 == c ==>
      !schedule[i].1.Fail? && !schedule[i].1.Cancel? && !schedule[i].1.Retry?
  }

  /**
   * Left alone, a call succeeds: if it meets no error, refusal or cancellation and no other entry was appended to its
   * chain since it first signed, it can only end with its entry stored, after at most one failed swap, and none unless
   * the head it first knew was already an old one.
   */
  lemma UndisturbedCallsSucceed(h: Entry -> HashValue, schedule: Schedule, c: CallId)
    requires Run(h, CompareAndSwap, schedule).Some? && c in Run(h, CompareAndSwap, schedule).value.calls
    requires Run(h, CompareAndSwap, schedule).value.calls[c].pc.Done? && NoTrouble(schedule, c)
    requires var s := Run(h, CompareAndSwap, schedule).value; var base := TallyOf(h, schedule, c).base;
             base.Some? ==> forall i :: base.value.length <= i < |Chain(s, s.calls[c].chain)| ==>
               Chain(s, s.calls[c].chain)[i].request == c
    ensures Run(h, CompareAndSwap, schedule).value.calls[c].pc.verdict.Ok?
    ensures var t := TallyOf(h, schedule, c);
            t.base.Some? && t.failed <= if t.base.value.known < t.base.value.length then 1 else 0
  {
    hide Step, Enabled, Run, TallyOf;
    TallyAlways(h, schedule, c);
    NoRefusals(h, schedule, c);
    BooksAlways(h, CompareAndSwap, schedule);
    var s := Run(h, CompareAndSwap, schedule).value;
    var k := s.calls[c].chain;
    var chain, t := Chain(s, k), TallyOf(h, schedule, c);
    if t.base.value.length + 1 < |chain| {
      var i := OtherBehind(h, s, k, t.base.value.length, c);
    }
  }

  /** Of two entries on a chain one is another call's. */
  lemma OtherBehind(h: Entry -> HashValue, s: State, k: ChainKey, n: nat, c: CallId) returns (i: nat)
    requires Books(h, s) && n + 1 < |Chain(s, k)|
    ensures n <= i < |Chain(s, k)| && Chain(s, k)[i].request != c
  {
    var chain := Chain(s, k);
    assert Stored(s, k, n, chain[n]) && Stored(s, k, n + 1, chain[n + 1]);
    i := if chain[n].request == c then n + 1 else n;
  }

  /** Without such steps nothing is refused, and the call does not end failed or cancelled. */
  lemma {:induction false} NoRefusals(h: Entry -> HashValue, schedule: Schedule, c: CallId)
    requires Run(h, CompareAndSwap, schedule).Some? && NoTrouble(schedule, c)
    ensures TallyOf(h, schedule, c).refused == 0
    ensures var s := Run(h, CompareAndSwap, schedule).value;
            c in s.calls && s.calls[c].pc.Done? ==>
              !s.calls[c].pc.verdict.Failed? && !s.calls[c].pc.verdict.Cancelled?
    decreases |schedule|
  {
    if schedule != [] {
      var n := |schedule| - 1;
      NoRefusals(h, schedule[..n], c);
      StepFrame(h, CompareAndSwap, Run(h, CompareAndSwap, schedule[..n]).value, schedule[n].0, schedule[n].1);
    }
  }

  // ---------------------------------------------------------------- a call on its own

  /** The longer schedule goes on with steps of c alone. */
  ghost predicate Alone(schedule: Schedule, longer: Schedule, c: CallId) {
    schedule <= longer && forall i :: |schedule| <= i < |longer| ==> longer[i].0 == c
  }

  lemma OneMore(h: Entry -> HashValue, start: Schedule, schedule: Schedule, s: State, c: CallId, a: Action)
    returns (longer: Schedule, s': State)
    requires Run(h, CompareAndSwap, schedule) == Some(s) && Alone(start, schedule, c) && Enabled(s, c, a)
    ensures s' == Step(h, CompareAndSwap, s, c, a)
    ensures Run(h, CompareAndSwap, longer) == Some(s') && Alone(start, longer, c)
  {
    hide Run, Step, Enabled;
    longer := RunStep(h, CompareAndSwap, schedule, s, c, a);
    s' := Step(h, CompareAndSwap, s, c, a);
  }

  /** Reading finds the durable head. */
  lemma ReadsHead(h: Entry -> HashValue, start: Schedule, schedule: Schedule, s: State, c: CallId)
    returns (longer: Schedule, s': State)
    requires Run(h, CompareAndSwap, schedule) == Some(s) && Alone(start, schedule, c)
    requires c in s.calls && s.calls[c].pc.ReadingHead?
    ensures Run(h, CompareAndSwap, longer) == Some(s') && Alone(start, longer, c)
    ensures var chain := Chain(s, s.calls[c].chain);
            s' == s.(calls := s.calls[c := s.calls[c].(pc := Resolved(HeadId(chain), HeadHash(h, chain)))])
  {
    BooksAlways(h, CompareAndSwap, schedule);
    var chain := Chain(s, s.calls[c].chain);
    if chain != [] { HeadFound(h, s, s.calls[c].chain); }
    hide Run, Alone, Moved, Books, Find;
    longer, s' := OneMore(h, start, schedule, s, c, ReadHead);
    if chain != [] {
      longer, s' := OneMore(h, start, longer, s', c, ReadEntry);
    }
  }

  /** The outcome of a commit that is delivered: stored against the durable head, back to the loop otherwise. */
  lemma Commits(h: Entry -> HashValue, start: Schedule, schedule: Schedule, s: State, c: CallId)
    returns (longer: Schedule, s': State)
    requires Run(h, CompareAndSwap, schedule) == Some(s) && Alone(start, schedule, c) && Enabled(s, c, Commit)
    ensures Run(h, CompareAndSwap, longer) == Some(s') && Alone(start, longer, c)
    ensures Kept(s, s', c) && s'.calls[c].attempts == s.calls[c].attempts && s'.signers == s.signers
    ensures var pc := s.calls[c].pc; var k := s.calls[c].chain;
            if HeadId(Chain(s, k)) == pc.expected
            then s'.calls[c].pc == Done(Ok(pc.entry.id)) && s'.durable == s.durable[k := Chain(s, k) + [pc.entry]]
            else s'.calls[c].pc == Looping && s'.durable == s.durable && s'.caches == s.caches
  {
    hide Run, Alone, Moved, Released, OthersSame, SameAt, HeadId, Chain;
    longer, s' := OneMore(h, start, schedule, s, c, Commit);
    longer, s' := OneMore(h, start, longer, s', c, Deliver);
  }

  ghost predicate Kept(s: State, s': State, c: CallId) {
    c in s.calls && c in s'.calls && s'.calls[c].log == s.calls[c].log && s'.calls[c].chain == s.calls[c].chain
  }

  /** Signing and committing: stored against the durable head, back to the loop with nothing cached otherwise. */
  lemma SignsAndCommits(h: Entry -> HashValue, start: Schedule, schedule: Schedule, s: State, c: CallId, id: EntryId)
    returns (longer: Schedule, s': State)
    requires Run(h, CompareAndSwap, schedule) == Some(s) && Alone(start, schedule, c) && Enabled(s, c, Sign(id))
    ensures Run(h, CompareAndSwap, longer) == Some(s') && Alone(start, longer, c)
    ensures Kept(s, s', c) && s'.calls[c].attempts == s.calls[c].attempts && s'.signers == s.signers[id := c]
    ensures var pc := s.calls[c].pc; var k := s.calls[c].chain;
            if HeadId(Chain(s, k)) == pc.expected
            then s'.calls[c].pc == Done(Ok(id))
                 && s'.durable == s.durable[k := Chain(s, k) + [Entry(id, k, pc.hash, c)]]
            else s'.calls[c].pc == Looping && s'.durable == s.durable && Slot(s', c) !in s'.caches
  {
    hide Run, Alone, Moved, OthersSame, SameAt, HeadId;
    longer, s' := OneMore(h, start, schedule, s, c, Sign(id));
    longer, s' := Commits(h, start, longer, s', c);
  }

  /** From a free lock to the first look at the cache. */
  lemma Begins(h: Entry -> HashValue, schedule: Schedule, s: State, c: CallId) returns (longer: Schedule, s': State)
    requires Run(h, CompareAndSwap, schedule) == Some(s) && Enabled(s, c, Acquire)
    ensures Run(h, CompareAndSwap, longer) == Some(s') && Alone(schedule, longer, c)
    ensures Kept(s, s', c) && s'.calls[c].attempts == 1
    ensures s'.durable == s.durable && s'.caches == s.caches && s'.signers == s.signers
    ensures s'.calls[c].pc ==
              if Slot(s, c) in s.caches
              then Resolved(Some(s.caches[Slot(s, c)].id), s.caches[Slot(s, c)].hash) else ReadingHead
  {
    hide Run, Moved, Released, OthersSame, SameAt;
    TallyAlways(h, schedule, c);
    hide TallyOf;
    longer, s' := OneMore(h, schedule, schedule, s, c, Acquire);
    longer, s' := OneMore(h, schedule, longer, s', c, Attempt);
  }

  /** With nothing cached, the call reads the head and stores its entry against it. */
  lemma Rereads(h: Entry -> HashValue, start: Schedule, schedule: Schedule, s: State, c: CallId, id: EntryId)
    returns (longer: Schedule, s': State)
    requires Run(h, CompareAndSwap, schedule) == Some(s) && Alone(start, schedule, c)
    requires c in s.calls && s.calls[c].pc.ReadingHead? && id !in s.signers
    ensures Run(h, CompareAndSwap, longer) == Some(s') && Alone(start, longer, c)
    ensures Kept(s, s', c) && s'.calls[c].pc == Done(Ok(id)) && s'.calls[c].attempts == s.calls[c].attempts
    ensures var k := s.calls[c].chain;
            s'.durable == s.durable[k := Chain(s, k) + [Entry(id, k, HeadHash(h, Chain(s, k)), c)]]
  {
    hide Run, Alone, HeadId, HeadHash;
    longer, s' := ReadsHead(h, start, schedule, s, c);
    longer, s' := SignsAndCommits(h, start, longer, s', c, id);
  }

  ghost predicate Stale(s: State, slot: (LogId, ChainKey)) {
    slot in s.caches && HeadId(Chain(s, slot.1)) != Some(s.caches[slot].id)
  }

  /** A cached head that is the durable head carries its hash. */
  lemma CachedHash(h: Entry -> HashValue, s: State, slot: (LogId, ChainKey))
    requires Books(h, s) && slot in s.caches && !Stale(s, slot)
    ensures s.caches[slot].hash == HeadHash(h, Chain(s, slot.1))
  {
    var chain := Chain(s, slot.1);
    assert Known(h, s, slot.1, Some(s.caches[slot].id), s.caches[slot].hash);
    var i, e :| Stored(s, slot.1, i, e) && e.id == s.caches[slot].id && h(e) == s.caches[slot].hash;
    assert Stored(s, slot.1, |chain| - 1, chain[|chain| - 1]);
    IdsUnique(h, s, slot.1, i, e, slot.1, |chain| - 1, chain[|chain| - 1]);
  }

  /**
   * In every reachable state a call whose lock is free can finish by steps of its own: it stores one entry, linked to
   * the head its chain had, in one attempt, or in two if the head its log had cached was an old one.
   */
  lemma FinishesAlone(h: Entry -> HashValue, schedule: Schedule, s: State, c: CallId, id: EntryId, id': EntryId)
    returns (longer: Schedule, s': State)
    requires Run(h, CompareAndSwap, schedule) == Some(s) && Enabled(s, c, Acquire)
    requires id !in s.signers && id' !in s.signers && id != id'
    ensures Run(h, CompareAndSwap, longer) == Some(s') && Alone(schedule, longer, c)
    ensures var k := s.calls[c].chain;
            var stored := if Stale(s, Slot(s, c)) then id' else id;
            && c in s'.calls && s'.calls[c].pc == Done(Ok(stored))
            && s'.calls[c].attempts == (if Stale(s, Slot(s, c)) then 2 else 1)
            && s'.durable == s.durable[k := Chain(s, k) + [Entry(stored, k, HeadHash(h, Chain(s, k)), c)]]
  {
    hide Run, Alone, Moved, Released, OthersSame, SameAt;
    var slot := Slot(s, c);
    if slot in s.caches && !Stale(s, slot) {
      BooksAlways(h, CompareAndSwap, schedule);
      CachedHash(h, s, slot);
    }
    hide Books, HeadHash;
    longer, s' := Begins(h, schedule, s, c);
    if slot !in s.caches {
      longer, s' := Rereads(h, schedule, longer, s', c, id);
    } else {
      longer, s' := SignsAndCommits(h, schedule, longer, s', c, id);
      if Stale(s, slot) {
        longer, s' := OneMore(h, schedule, longer, s', c, Attempt);
        longer, s' := Rereads(h, schedule, longer, s', c, id');
      }
    }
  }

  /**
   * A call may be cancelled whenever it has not ended, and fail at every await. Wherever that happens, before or after
   * its commit, the next call on the same chain of the same log still finishes, linked to what is then the head.
   */
  lemma EndedCallsBlockNobody(h: Entry -> HashValue, schedule: Schedule, s: State, c: CallId, a: Action, d: CallId,
                              id: EntryId, id': EntryId)
    returns (longer: Schedule, s': State)
    requires Run(h, CompareAndSwap, schedule) == Some(s) && c in s.calls && Working(s.calls[c].pc)
    requires a == Cancel || (a == Fail && !s.calls[c].pc.Looping?)
    requires d in s.calls && s.calls[d].pc.Waiting? && Slot(s, d) == Slot(s, c)
    requires id !in s.signers && id' !in s.signers && id != id'
    ensures Run(h, CompareAndSwap, longer) == Some(s') && c in s'.calls && d in s'.calls
    ensures s'.calls[c].pc == Done(if a == Cancel then Cancelled else Failed)
    ensures var k := s.calls[d].chain;
            && s'.calls[d].pc.Done? && s'.calls[d].pc.verdict.Ok?
            && s'.durable == s.durable[k := Chain(s, k) + [Entry(s'.calls[d].pc.verdict.id, k,
                                                                 HeadHash(h, Chain(s, k)), d)]]
  {
    hide Run, Alone, OthersSame, SameAt, Stale;
    LocksAlways(h, CompareAndSwap, schedule);
    longer := RunStep(h, CompareAndSwap, schedule, s, c, a);
    var s1 := Step(h, CompareAndSwap, s, c, a);
    hide LocksOk;
    var start := longer;
    longer, s' := FinishesAlone(h, start, s1, d, id, id');
    hide Finish;
    AloneKeeps(h, start, s1, longer, s', d, c);
  }

  /** Steps of one call leave the others where they are. */
  lemma {:induction false} AloneKeeps(h: Entry -> HashValue, start: Schedule, s: State, longer: Schedule, s': State,
                                      d: CallId, c: CallId)
    requires Run(h, CompareAndSwap, start) == Some(s) && Run(h, CompareAndSwap, longer) == Some(s')
    requires Alone(start, longer, d) && c in s.calls && c != d
    ensures c in s'.calls && s'.calls[c] == s.calls[c]
    decreases |longer|
  {
    hide Step, Enabled, PastCommit;
    if |longer| > |start| {
      var n := |longer| - 1;
      assert longer[..n][..|start|] == start;
      var before := Run(h, CompareAndSwap, longer[..n]).value;
      AloneKeeps(h, start, s, longer[..n], before, d, c);
      StepFrame(h, CompareAndSwap, before, longer[n].0, longer[n].1);
    } else {
      assert longer == start;
    }
  }
}
