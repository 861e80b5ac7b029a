/**
 * The commitment to a run of host calls: each call is hashed from a length-prefixed encoding and the digests
 * are folded in order. Two lists that match one summary are equal, or exhibit a hash collision outright.
 */
module HostCall {
  import opened Bytes
  import opened Outcomes
  import opened Objects

  const DIGEST_DOMAIN: string := "astrid.audit.host-call.v1"
  const DIGEST_DOMAIN_V2: string := "astrid.audit.host-call.v2"
  const FOLD_DOMAIN: string := "astrid.audit.host-call-fold.v1"
  const ZERO: Digest := Zeros(32)

  type Text = seq<byte>

  datatype OtherClass = HttpRequest | HttpResponse | ToolCall | ApprovalRequested | ApprovalGranted | ApprovalDenied

  /** Audit actions: the seven host-call classes, six further call classes, and everything else. */
  datatype Action =
    | FileRead(path: Text, actor: Option<Text>)
    | FileWrite(path: Text, contentHash: Digest, actor: Option<Text>)
    | FileDelete(path: Text, actor: Option<Text>)
    | NetConnect(host: Text, port: nat, actor: Option<Text>)
    | NetBind(addr: Text, actor: Option<Text>)
    | NetAccept(localAddr: Text, peerAddr: Text, actor: Option<Text>)
    | ProcessSpawn(command: Text, actor: Option<Text>)
    | OtherCall(otherClass: OtherClass, content: Text)
    | NotACall(content: Text)

  datatype CallOutcome = Ok | Failed | Denied
  datatype Timestamp = Timestamp(seconds: int, nanos: nat)
  datatype Call = Call(action: Action, outcome: CallOutcome, detail: Text, at: Timestamp)
  datatype Summary = Summary(count: nat, firstAt: Timestamp, lastAt: Timestamp, fold: Digest)

  /** The hash, and the JSON encoding of attributed actions, which may fail but never confuses two actions. */
  datatype Primitives = Primitives(hash: Hash, json: Action -> Result<Text>)

  ghost predicate JsonIsFaithful(p: Primitives) {
    forall a, b :: p.json(a).Accepted? && p.json(a) == p.json(b) ==> a == b
  }

  // ---------------------------------------------------------------- the encoding

  /** write_lp: a big-endian length and the bytes. */
  function Lp(b: seq<byte>): seq<byte> {
    BeBytes(|b|, 8) + b
  }

  function ClassOf(a: Action): Option<string> {
    match a
    case FileRead(_, _) => Some("file_read")
    case FileWrite(_, _, _) => Some("file_write")
    case FileDelete(_, _) => Some("file_delete")
    case NetConnect(_, _, _) => Some("net_connect")
    case NetBind(_, _) => Some("net_bind")
    case NetAccept(_, _, _) => Some("net_accept")
    case ProcessSpawn(_, _) => Some("process_spawn")
    case OtherCall(HttpRequest, _) => Some("http_request")
    case OtherCall(HttpResponse, _) => Some("http_response")
    case OtherCall(ToolCall, _) => Some("tool_call")
    case OtherCall(ApprovalRequested, _) => Some("approval_requested")
    case OtherCall(ApprovalGranted, _) => Some("approval_granted")
    case OtherCall(ApprovalDenied, _) => Some("approval_denied")
    case NotACall(_) => None
  }

  /** An unattributed call of one of the seven host-call classes keeps the first encoding. */
  predicate Legacy(a: Action) {
    !a.OtherCall? && !a.NotACall? && a.actor.None?
  }

  function LegacyBody(a: Action): seq<byte>
    requires Legacy(a)
  {
    match a
    case FileRead(path, _) => Lp(path)
    case FileWrite(path, contentHash, _) => Lp(path) + contentHash
    case FileDelete(path, _) => Lp(path)
    case NetConnect(host, port, _) => Lp(host) + BeBytes(port, 2)
    case NetBind(addr, _) => Lp(addr)
    case NetAccept(localAddr, peerAddr, _) => Lp(localAddr) + Lp(peerAddr)
    case ProcessSpawn(command, _) => Lp(command)
  }

  function OutcomeCode(o: CallOutcome): byte {
    match o
    case Ok => 0
    case Failed => 1
    case Denied => 2
  }

  /** A signed 64-bit integer in two's complement, big-endian. */
  function SignedBytes(v: int): seq<byte> {
    BeBytes((if v < 0 then v + U64_MAX + 1 else v) % (U64_MAX + 1), 8)
  }

  function Tail(c: Call): seq<byte> {
    [OutcomeCode(c.outcome)] + (Lp(c.detail) + (SignedBytes(c.at.seconds) + BeBytes(c.at.nanos, 4)))
  }

  function Body(p: Primitives, a: Action): Result<seq<byte>> {
    if Legacy(a) then Accepted(LegacyBody(a))
    else
      var encoded :- p.json(a);
      Accepted(Lp(encoded))
  }

  /** The bytes a call's digest hashes, or nothing when the action is no call. */
  function Preimage(p: Primitives, c: Call): Result<seq<byte>> {
    match ClassOf(c.action)
    case None => Rejected
    case Some(class_) =>
      var body :- Body(p, c.action);
      Accepted(Lp(Ascii(if Legacy(c.action) then DIGEST_DOMAIN else DIGEST_DOMAIN_V2))
               + (Lp(Ascii(class_)) + (body + Tail(c))))
  }

  /** Field sizes the encoding's widths can carry. */
  predicate ActionFits(a: Action) {
    match a
    case FileRead(path, _) => |path| <= U64_MAX
    case FileWrite(path, _, _) => |path| <= U64_MAX
    case FileDelete(path, _) => |path| <= U64_MAX
    case NetConnect(host, port, _) => |host| <= U64_MAX && port < 0x1_0000
    case NetBind(addr, _) => |addr| <= U64_MAX
    case NetAccept(localAddr, peerAddr, _) => |localAddr| <= U64_MAX && |peerAddr| <= U64_MAX
    case ProcessSpawn(command, _) => |command| <= U64_MAX
    case _ => true
  }

  predicate Fits(p: Primitives, c: Call) {
    && ActionFits(c.action) && |c.detail| <= U64_MAX
    && -0x8000_0000_0000_0000 <= c.at.seconds < 0x8000_0000_0000_0000 && c.at.nanos < 0x1_0000_0000
    && (!Legacy(c.action) && p.json(c.action).Accepted? ==> |p.json(c.action).value| <= U64_MAX)
  }

  // ---------------------------------------------------------------- unique decodability

  lemma FixedCancels(a: seq<byte>, x: seq<byte>, b: seq<byte>, y: seq<byte>)
    requires |a| == |b| && a + x == b + y
    ensures a == b && x == y
  {
    assert (a + x)[..|a|] == a && (b + y)[..|a|] == b;
    assert (a + x)[|a|..] == x && (b + y)[|a|..] == y;
  }

  /** A length prefix says where its field ends. */
  lemma LpCancels(a: seq<byte>, x: seq<byte>, b: seq<byte>, y: seq<byte>)
    requires |a| <= U64_MAX && |b| <= U64_MAX && Lp(a) + x == Lp(b) + y
    ensures a == b && x == y
  {
    hide BeBytes, Radix;
    RadixWidths();
    assert Lp(a) + x == BeBytes(|a|, 8) + (a + x) && Lp(b) + y == BeBytes(|b|, 8) + (b + y);
    FixedCancels(BeBytes(|a|, 8), a + x, BeBytes(|b|, 8), b + y);
    BeBytesInjective(|a|, |b|, 8);
    FixedCancels(a, x, b, y);
  }

  lemma BeCancels(v: nat, x: seq<byte>, w: nat, y: seq<byte>, n: nat)
    requires v < Radix(n) && w < Radix(n) && BeBytes(v, n) + x == BeBytes(w, n) + y
    ensures v == w && x == y
  {
    hide BeBytes, Radix;
    FixedCancels(BeBytes(v, n), x, BeBytes(w, n), y);
    BeBytesInjective(v, w, n);
  }

  lemma TailInjective(c: Call, d: Call)
    requires |c.detail| <= U64_MAX && |d.detail| <= U64_MAX && c.at.nanos < 0x1_0000_0000 && d.at.nanos < 0x1_0000_0000
    requires -0x8000_0000_0000_0000 <= c.at.seconds < 0x8000_0000_0000_0000
             && -0x8000_0000_0000_0000 <= d.at.seconds < 0x8000_0000_0000_0000
    requires Tail(c) == Tail(d)
    ensures c.outcome == d.outcome && c.detail == d.detail && c.at == d.at
  {
    hide BeBytes, Radix, Lp;
    RadixWidths();
    var u := (if c.at.seconds < 0 then c.at.seconds + U64_MAX + 1 else c.at.seconds) % (U64_MAX + 1);
    var v := (if d.at.seconds < 0 then d.at.seconds + U64_MAX + 1 else d.at.seconds) % (U64_MAX + 1);
    FixedCancels([OutcomeCode(c.outcome)], Lp(c.detail) + (SignedBytes(c.at.seconds) + BeBytes(c.at.nanos, 4)),
                 [OutcomeCode(d.outcome)], Lp(d.detail) + (SignedBytes(d.at.seconds) + BeBytes(d.at.nanos, 4)));
    LpCancels(c.detail, SignedBytes(c.at.seconds) + BeBytes(c.at.nanos, 4), d.detail,
              SignedBytes(d.at.seconds) + BeBytes(d.at.nanos, 4));
    BeCancels(u, BeBytes(c.at.nanos, 4), v, BeBytes(d.at.nanos, 4), 8);
    BeBytesInjective(c.at.nanos, d.at.nanos, 4);
    assert [OutcomeCode(c.outcome)][0] == [OutcomeCode(d.outcome)][0];
  }

  /** The class names differ in length or in their first letter. */
  lemma ClassNamesDiffer(a: Action, b: Action)
    requires ClassOf(a).Some? && ClassOf(b).Some? && Ascii(ClassOf(a).value) == Ascii(ClassOf(b).value)
    ensures ClassOf(a) == ClassOf(b)
  {
    var s, t := ClassOf(a).value, ClassOf(b).value;
    assert |Ascii(s)| == |Ascii(t)|;
    assert Ascii(s)[0] == Ascii(t)[0];
    assert Ascii(s)[0] == (s[0] as int) % 256 && Ascii(t)[0] == (t[0] as int) % 256;
  }

  lemma DomainsDiffer()
    ensures Ascii(DIGEST_DOMAIN) != Ascii(DIGEST_DOMAIN_V2) && |Ascii(DIGEST_DOMAIN)| == |Ascii(DIGEST_DOMAIN_V2)| == 25
  {
    assert Ascii(DIGEST_DOMAIN)[24] == (DIGEST_DOMAIN[24] as int) % 256;
    assert Ascii(DIGEST_DOMAIN_V2)[24] == (DIGEST_DOMAIN_V2[24] as int) % 256;
  }

  /** Within one class the body says which action it is and where the tail begins. */
  lemma LegacyBodyCancels(a: Action, x: seq<byte>, b: Action, y: seq<byte>)
    requires Legacy(a) && Legacy(b) && ClassOf(a) == ClassOf(b) && ActionFits(a) && ActionFits(b)
    requires LegacyBody(a) + x == LegacyBody(b) + y
    ensures a == b && x == y
  {
    hide BeBytes, Radix, Lp;
    RadixWidths();
    assert |ClassOf(a).value| == |ClassOf(b).value| && ClassOf(a).value[0] == ClassOf(b).value[0];
    match a
    case FileRead(path, _) => LpCancels(path, x, b.path, y);
    case FileDelete(path, _) => LpCancels(path, x, b.path, y);
    case NetBind(addr, _) => LpCancels(addr, x, b.addr, y);
    case ProcessSpawn(command, _) => LpCancels(command, x, b.command, y);
    case FileWrite(path, contentHash, _) =>
      assert LegacyBody(a) + x == Lp(path) + (contentHash + x) && LegacyBody(b) + y == Lp(b.path) + (b.contentHash + y);
      LpCancels(path, contentHash + x, b.path, b.contentHash + y);
      FixedCancels(contentHash, x, b.contentHash, y);
    case NetConnect(host, port, _) =>
      assert LegacyBody(a) + x == Lp(host) + (BeBytes(port, 2) + x)
             && LegacyBody(b) + y == Lp(b.host) + (BeBytes(b.port, 2) + y);
      LpCancels(host, BeBytes(port, 2) + x, b.host, BeBytes(b.port, 2) + y);
      BeCancels(port, x, b.port, y, 2);
    case NetAccept(localAddr, peerAddr, _) =>
      assert LegacyBody(a) + x == Lp(localAddr) + (Lp(peerAddr) + x)
             && LegacyBody(b) + y == Lp(b.localAddr) + (Lp(b.peerAddr) + y);
      LpCancels(localAddr, Lp(peerAddr) + x, b.localAddr, Lp(b.peerAddr) + y);
      LpCancels(peerAddr, x, b.peerAddr, y);
  }

  /**
   * The pre-image is uniquely decodable across all classes: equal pre-images come from equal calls. Only attributed
   * calls and the further classes hash JSON, so only they need its encoding to tell two actions apart.
   */
  lemma PreimageInjective(p: Primitives, c: Call, d: Call)
    requires Legacy(c.action) || JsonIsFaithful(p)
    requires Fits(p, c) && Fits(p, d)
    requires Preimage(p, c).Accepted? && Preimage(p, c) == Preimage(p, d)
    ensures c == d
  {
    hide Lp, ClassOf, LegacyBody, Tail, Ascii, ActionFits, JsonIsFaithful;
    var domain, domain' := Ascii(if Legacy(c.action) then DIGEST_DOMAIN else DIGEST_DOMAIN_V2),
        Ascii(if Legacy(d.action) then DIGEST_DOMAIN else DIGEST_DOMAIN_V2);
    var class_, class' := Ascii(ClassOf(c.action).value), Ascii(ClassOf(d.action).value);
    var body, body' := Body(p, c.action).value, Body(p, d.action).value;
    DomainsDiffer();
    LpCancels(domain, Lp(class_) + (body + Tail(c)), domain', Lp(class') + (body' + Tail(d)));
    ClassSize(c.action);
    ClassSize(d.action);
    LpCancels(class_, body + Tail(c), class', body' + Tail(d));
    ClassNamesDiffer(c.action, d.action);
    if Legacy(c.action) {
      LegacyBodyCancels(c.action, Tail(c), d.action, Tail(d));
    } else {
      LpCancels(p.json(c.action).value, Tail(c), p.json(d.action).value, Tail(d));
      Faithful(p, c.action, d.action);
    }
    TailInjective(c, d);
  }

  lemma ClassSize(a: Action)
    requires ClassOf(a).Some?
    ensures |Ascii(ClassOf(a).value)| <= 18
  {}

  lemma Faithful(p: Primitives, a: Action, b: Action)
    requires JsonIsFaithful(p) && p.json(a).Accepted? && p.json(b).Accepted? && p.json(a).value == p.json(b).value
    ensures a == b
  {
    assert p.json(a) == p.json(b);
  }

  // ---------------------------------------------------------------- the fold

  function DigestOf(p: Primitives, c: Call): Result<Digest> {
    var bytes :- Preimage(p, c);
    Accepted(p.hash(bytes))
  }

  function FoldPreimage(value: Digest, digest: Digest): seq<byte> {
    Lp(Ascii(FOLD_DOMAIN)) + (value + digest)
  }

  function FoldOf(p: Primitives, calls: seq<Call>): (r: Result<Digest>)
    ensures r.Accepted? <==> forall i :: 0 <= i < |calls| ==> DigestOf(p, calls[i]).Accepted?
  {
    if calls == [] then Accepted(ZERO)
    else
      var last := |calls| - 1;
      var value :- FoldOf(p, calls[..last]);
      var digest :- DigestOf(p, calls[last]);
      Accepted(p.hash(FoldPreimage(value, digest)))
  }

  function Saturate(n: nat): nat {
    if n <= U64_MAX then n else U64_MAX
  }

  /** The fold of a list of digests, in order. */
  function FoldDigests(p: Primitives, digests: seq<Digest>): Digest {
    if digests == [] then ZERO
    else
      var last := |digests| - 1;
      p.hash(FoldPreimage(FoldDigests(p, digests[..last]), digests[last]))
  }

  class HostCallFold {
    var value: Digest
    var count: nat
    ghost var pushed: seq<Digest>

    /** The value folds exactly the digests pushed so far, in order, and the count is their number, saturating. */
    ghost predicate Valid(p: Primitives)
      reads this
    {
      value == FoldDigests(p, pushed) && count == Saturate(|pushed|)
    }

    constructor (p: Primitives)
      ensures Valid(p) && pushed == []
    {
      value, count, pushed := ZERO, 0, [];
    }

    method Push(p: Primitives, digest: Digest)
      requires Valid(p)
      modifies this
      ensures Valid(p) && pushed == old(pushed) + [digest]
    {
      value := p.hash(Lp(Ascii(FOLD_DOMAIN)) + (value + digest));
      count := if count < U64_MAX then count + 1 else U64_MAX;
      assert (pushed + [digest])[..|pushed|] == pushed;
      pushed := pushed + [digest];
    }
  }

  predicate Matches(p: Primitives, s: Summary, calls: seq<Call>) {
    && calls != [] && FoldOf(p, calls) == Accepted(s.fold) && s.count == Saturate(|calls|)
    && s.firstAt == calls[0].at && s.lastAt == calls[|calls| - 1].at
  }

  /** matches_calls: recomputes count, time range and fold; an empty list never matches. */
  method MatchesCalls(p: Primitives, s: Summary, calls: seq<Call>) returns (ok: bool)
    ensures ok <==> Matches(p, s, calls)
  {
    hide DigestOf, FoldPreimage, FoldOf, FoldDigests;
    var fold := new HostCallFold(p);
    var i := 0;
    NoDigests(p, calls);
    while i < |calls|
      invariant i <= |calls| && fold.Valid(p) && DigestsAre(p, calls, i, fold.pushed)
    {
      var digest := DigestOf(p, calls[i]);
      if digest.Rejected? { return false; }
      fold.Push(p, digest.value);
      i := i + 1;
    }
    FoldIsDigests(p, calls, i, fold.pushed);
    assert calls[..i] == calls;
    if calls == [] { return false; }
    return fold.count == s.count && fold.value == s.fold && calls[0].at == s.firstAt
           && calls[|calls| - 1].at == s.lastAt;
  }

  /** The digests of the first n calls. */
  ghost predicate DigestsAre(p: Primitives, calls: seq<Call>, n: nat, digests: seq<Digest>) {
    n == |digests| <= |calls| && forall i :: 0 <= i < n ==> DigestOf(p, calls[i]) == Accepted(digests[i])
  }

  lemma NoDigests(p: Primitives, calls: seq<Call>)
    ensures DigestsAre(p, calls, 0, [])
  {}

  lemma {:induction false} FoldIsDigests(p: Primitives, calls: seq<Call>, n: nat, digests: seq<Digest>)
    requires DigestsAre(p, calls, n, digests)
    ensures FoldOf(p, calls[..n]) == Accepted(FoldDigests(p, digests))
    decreases n
  {
    hide DigestOf, FoldPreimage;
    if n > 0 {
      FoldIsDigests(p, calls, n - 1, digests[..n - 1]);
      assert calls[..n][..n - 1] == calls[..n - 1];
    }
  }

  ghost predicate Collision(p: Primitives, x: seq<byte>, y: seq<byte>) {
    x != y && p.hash(x) == p.hash(y)
  }

  lemma FoldPreimageInjective(v: Digest, d: Digest, w: Digest, e: Digest)
    requires FoldPreimage(v, d) == FoldPreimage(w, e)
    ensures v == w && d == e
  {
    hide Lp, Ascii;
    FixedCancels(Lp(Ascii(FOLD_DOMAIN)), v + d, Lp(Ascii(FOLD_DOMAIN)), w + e);
    FixedCancels(v, d, w, e);
  }

  /** x is an input hashed while folding the i-th call: the call's own pre-image, or that fold step's. */
  ghost predicate HashedAt(p: Primitives, calls: seq<Call>, i: nat, x: seq<byte>)
    requires i < |calls|
  {
    || Preimage(p, calls[i]) == Accepted(x)
    || (FoldOf(p, calls[..i]).Accepted? && DigestOf(p, calls[i]).Accepted?
        && x == FoldPreimage(FoldOf(p, calls[..i]).value, DigestOf(p, calls[i]).value))
  }

  /** x is one of the inputs hashed while folding these calls. */
  ghost predicate Hashed(p: Primitives, calls: seq<Call>, x: seq<byte>) {
    exists i :: 0 <= i < |calls| && HashedAt(p, calls, i, x)
  }

  lemma HashedLater(p: Primitives, calls: seq<Call>, n: nat, x: seq<byte>)
    requires n <= |calls| && Hashed(p, calls[..n], x)
    ensures Hashed(p, calls, x)
  {
    hide Preimage, FoldPreimage, FoldOf;
    var i :| 0 <= i < n && HashedAt(p, calls[..n], i, x);
    assert calls[..n][..i] == calls[..i] && calls[..n][i] == calls[i];
    assert HashedAt(p, calls, i, x);
  }

  lemma LastFold(p: Primitives, calls: seq<Call>) returns (x: seq<byte>)
    requires calls != [] && FoldOf(p, calls).Accepted?
    ensures Hashed(p, calls, x) && p.hash(x) == FoldOf(p, calls).value
    ensures x == FoldPreimage(FoldOf(p, calls[..|calls| - 1]).value, DigestOf(p, calls[|calls| - 1]).value)
  {
    hide Preimage, FoldPreimage;
    var last := |calls| - 1;
    x := FoldPreimage(FoldOf(p, calls[..last]).value, DigestOf(p, calls[last]).value);
    assert HashedAt(p, calls, last, x);
  }

  lemma LastCall(p: Primitives, calls: seq<Call>) returns (x: seq<byte>)
    requires calls != [] && FoldOf(p, calls).Accepted?
    ensures Hashed(p, calls, x) && Preimage(p, calls[|calls| - 1]) == Accepted(x)
    ensures DigestOf(p, calls[|calls| - 1]) == Accepted(p.hash(x))
  {
    hide Preimage, FoldPreimage;
    var last := |calls| - 1;
    x := Preimage(p, calls[last]).value;
    assert HashedAt(p, calls, last, x);
  }

  /** No JSON encoding is hashed for these calls, or it tells actions apart. */
  ghost predicate JsonUsable(p: Primitives, calls: seq<Call>) {
    JsonIsFaithful(p) || forall i :: 0 <= i < |calls| ==> Legacy(calls[i].action)
  }

  ghost predicate AllFit(p: Primitives, calls: seq<Call>) {
    forall i :: 0 <= i < |calls| ==> Fits(p, calls[i])
  }

  /** Two different inputs with one hash, the first hashed for a and the second hashed for b. */
  ghost predicate CollisionBetween(p: Primitives, a: seq<Call>, b: seq<Call>, x: seq<byte>, y: seq<byte>) {
    Collision(p, x, y) && Hashed(p, a, x) && Hashed(p, b, y)
  }

  /** An input of one of the lists hashes to the empty fold's value. */
  ghost predicate ZeroHashed(p: Primitives, a: seq<Call>, b: seq<Call>, x: seq<byte>) {
    p.hash(x) == ZERO && (Hashed(p, a, x) || Hashed(p, b, x))
  }

  /**
   * Equal folds come from equal lists, or two different inputs that folding these very lists hashes collide; only lists
   * of different length leave the further case that one of those inputs hashes to zero.
   */
  lemma {:induction false} FoldBinds(p: Primitives, a: seq<Call>, b: seq<Call>) returns (x: seq<byte>, y: seq<byte>)
    requires JsonUsable(p, a) && AllFit(p, a) && AllFit(p, b)
    requires FoldOf(p, a).Accepted? && FoldOf(p, a) == FoldOf(p, b)
    ensures a == b || CollisionBetween(p, a, b, x, y) || (|a| != |b| && ZeroHashed(p, a, b, x))
    decreases |a|
  {
    hide Preimage, FoldPreimage, Fits, JsonIsFaithful, Hashed, Legacy, DigestOf;
    x, y := [], [];
    if a == [] && b != [] {
      x := LastFold(p, b);
    } else if a != [] && b == [] {
      x := LastFold(p, a);
    } else if a != [] && b != [] {
      var m, n := |a| - 1, |b| - 1;
      x := LastFold(p, a);
      y := LastFold(p, b);
      if x == y {
        FoldPreimageInjective(FoldOf(p, a[..m]).value, DigestOf(p, a[m]).value, FoldOf(p, b[..n]).value,
                              DigestOf(p, b[n]).value);
        x := LastCall(p, a);
        y := LastCall(p, b);
        if x == y {
          PreimageInjective(p, a[m], b[n]);
          x, y := FoldBinds(p, a[..m], b[..n]);
          LiftCollision(p, a, b, x, y);
          assert a == a[..m] + [a[m]] && b == b[..n] + [b[n]];
        }
      }
    }
  }

  /** What folding all but the last calls hashes, folding all of them hashes too. */
  lemma LiftCollision(p: Primitives, a: seq<Call>, b: seq<Call>, x: seq<byte>, y: seq<byte>)
    requires a != [] && b != []
    ensures var a', b' := a[..|a| - 1], b[..|b| - 1];
            && (CollisionBetween(p, a', b', x, y) ==> CollisionBetween(p, a, b, x, y))
            && (ZeroHashed(p, a', b', x) ==> ZeroHashed(p, a, b, x))
  {
    hide Hashed;
    var m, n := |a| - 1, |b| - 1;
    if Hashed(p, a[..m], x) { HashedLater(p, a, m, x); }
    if Hashed(p, b[..n], x) { HashedLater(p, b, n, x); }
    if Hashed(p, b[..n], y) { HashedLater(p, b, n, y); }
  }

  /**
   * A summary commits to its calls: two matching lists are equal call by call, or folding them hashes two colliding
   * inputs. Lists too long for the counter to tell apart leave the further case of an input that hashes to zero.
   */
  lemma SummaryBindsCalls(p: Primitives, s: Summary, a: seq<Call>, b: seq<Call>) returns (x: seq<byte>, y: seq<byte>)
    requires JsonUsable(p, a) && AllFit(p, a) && AllFit(p, b)
    requires Matches(p, s, a) && Matches(p, s, b)
    ensures a == b || CollisionBetween(p, a, b, x, y) || ZeroHashed(p, a, b, x)
    ensures |a| <= U64_MAX && |b| <= U64_MAX ==> a == b || CollisionBetween(p, a, b, x, y)
  {
    hide FoldOf, AllFit, JsonUsable, CollisionBetween, ZeroHashed;
    x, y := FoldBinds(p, a, b);
  }

  /** The hash has no collision among the inputs that folding these two lists hashes. */
  ghost predicate CollisionFreeOn(p: Primitives, a: seq<Call>, b: seq<Call>) {
    forall x, y :: Hashed(p, a, x) && Hashed(p, b, y) && p.hash(x) == p.hash(y) ==> x == y
  }

  /** Without such a collision a summary has at most one list of calls the counter can count. */
  lemma SummaryDeterminesCalls(p: Primitives, s: Summary, a: seq<Call>, b: seq<Call>)
    requires JsonUsable(p, a) && AllFit(p, a) && AllFit(p, b)
    requires Matches(p, s, a) && Matches(p, s, b) && |a| <= U64_MAX && |b| <= U64_MAX
    requires CollisionFreeOn(p, a, b)
    ensures a == b
  {
    hide AllFit, JsonUsable, Matches, Hashed;
    var x, y := SummaryBindsCalls(p, s, a, b);
  }
}
