/**
 * Validation of a physical map by an explicit stack. The walk accepts exactly the maps whose nodes form a
 * tree, visited once each, in one domain and one construction, with correct counts at every branch.
 */
module PhysicalMap {
  import opened Bytes
  import opened Outcomes
  import opened Objects
  import opened Marks
  import opened PhysicalFields
  import opened PhysicalMapNodes

  /** The nodes, the expected domain, and the value check a caller passes in. */
  datatype Context = Context(nodes: map<ObjectId, MapNode>, domain: nat, valueOk: (ObjectId, seq<byte>) -> bool)

  /** What a finished subtree reports: entries, smallest and largest key. */
  datatype Summary = Summary(count: nat, minimum: seq<byte>, maximum: seq<byte>)

  // ---------------------------------------------------------------- keys and prefixes

  function SearchKey(id: ObjectId): seq<byte> {
    BeBytes(|IdentityBytes(id)|, 4) + IdentityBytes(id)
  }

  /** Bit k of a byte, most significant first. */
  function BitOf(b: byte, k: nat): nat
    requires k < 8
  {
    b / Pow2(7 - k) % 2
  }

  function KeyBit(key: seq<byte>, offset: nat): Option<nat> {
    if offset / 8 < |key| then Some(BitOf(key[offset / 8], offset % 8)) else None
  }

  /** How many leading bits two different bytes share. */
  function SharedBits(a: byte, b: byte, k: nat): nat
    requires k <= 8
    decreases 8 - k
  {
    if k == 8 || BitOf(a, k) != BitOf(b, k) then k else SharedBits(a, b, k + 1)
  }

  /** prefix_bits: the length in bits of the longest common prefix. */
  function PrefixBits(left: seq<byte>, right: seq<byte>, i: nat): nat
    requires i <= |left|
    decreases |left| - i
  {
    if i == |left| || i >= |right| then |left| * 8
    else if left[i] != right[i] then i * 8 + SharedBits(left[i], right[i], 0)
    else PrefixBits(left, right, i + 1)
  }

  /** The first bits of a key, unused bits cleared. */
  function CanonicalPrefix(key: seq<byte>, bits: nat): seq<byte> {
    var n := (bits + 7) / 8;
    var prefix := if n <= |key| then key[..n] else key;
    if bits % 8 == 0 || prefix == [] then prefix
    else
      var unused := Pow2(8 - bits % 8);
      var last := prefix[|prefix| - 1];
      LowBitsCleared(last, unused);
      prefix[..|prefix| - 1] + [last - last % unused]
  }

  lemma LowBitsCleared(b: byte, unit: nat)
    requires unit >= 1
    ensures 0 <= b - b % unit < 256
  {}

  function Nibble(key: seq<byte>, offset: nat): Option<nat> {
    if offset / 2 < |key| then Some(if offset % 2 == 0 then key[offset / 2] / 16 else key[offset / 2] % 16) else None
  }

  function CommonNibbles(left: seq<byte>, right: seq<byte>, offset: nat): nat
    requires offset <= 64
    decreases 64 - offset
  {
    if offset < 64 && Nibble(left, offset) == Nibble(right, offset) then CommonNibbles(left, right, offset + 1)
    else offset
  }

  function CanonicalNibbles(key: seq<byte>, nibbles: nat): seq<byte> {
    var n := (nibbles + 1) / 2;
    var prefix := if n <= |key| then key[..n] else key;
    if nibbles % 2 == 0 || prefix == [] then prefix
    else
      var last := prefix[|prefix| - 1];
      LowBitsCleared(last, 16);
      prefix[..|prefix| - 1] + [last - last % 16]
  }

  /** The set bits of a child bitmap, lowest first. */
  function Selectors(bitmap: nat, index: nat): seq<nat>
    decreases 16 - index
  {
    if index >= 16 then []
    else (if bitmap / Pow2(index) % 2 == 1 then [index] else []) + Selectors(bitmap, index + 1)
  }

  // ---------------------------------------------------------------- one node

  function Children(n: MapNode): seq<ObjectId> {
    match n
    case BitBranch(_, _, _, zero, one, _) => [zero, one]
    case RadixBranch(_, _, _, _, children, _) => children
    case _ => []
  }

  function TotalCount(summaries: seq<Summary>): nat {
    if summaries == [] then 0 else summaries[0].count + TotalCount(summaries[1..])
  }

  predicate EntriesOk(ctx: Context, entries: seq<MapEntry>) {
    forall i :: 0 <= i < |entries| ==> ctx.valueOk(entries[i].key, entries[i].value)
  }

  predicate SelectorsOk(node: MapNode, below: seq<Summary>)
    requires node.RadixBranch?
  {
    var selectors := Selectors(node.childBitmap, 0);
    forall i :: 0 <= i < |selectors| && i < |below| ==>
      Nibble(below[i].minimum, node.prefixNibbles) == Some(selectors[i])
      && Nibble(below[i].maximum, node.prefixNibbles) == Some(selectors[i])
  }

  /** The expanded branch of validate_map: a node's summary from its children's. */
  function Summarise(ctx: Context, node: MapNode, below: seq<Summary>): Result<Summary> {
    match node
    case BitLeaf(_, entry) =>
      var _ :- Check(ctx.valueOk(entry.key, entry.value));
      Accepted(Summary(1, SearchKey(entry.key), SearchKey(entry.key)))
    case BitBranch(_, bits, prefix, _, _, subtreeEntries) =>
      var _ :- Check(|below| == 2);
      var zero, one := below[0], below[1];
      var _ :- Check(zero.count + one.count == subtreeEntries);
      var _ :- Check(PrefixBits(zero.minimum, one.maximum, 0) == bits);
      var _ :- Check(CanonicalPrefix(zero.minimum, bits) == prefix);
      var _ :- Check(KeyBit(zero.minimum, bits) == Some(0) && KeyBit(zero.maximum, bits) == Some(0));
      var _ :- Check(KeyBit(one.minimum, bits) == Some(1) && KeyBit(one.maximum, bits) == Some(1));
      Accepted(Summary(zero.count + one.count, zero.minimum, one.maximum))
    case RadixPage(_, entries) =>
      var _ :- Check(EntriesOk(ctx, entries) && entries != []);
      Accepted(Summary(|entries|, entries[0].key.digest, entries[|entries| - 1].key.digest))
    case RadixBranch(_, nibbles, prefix, _, _, subtreeEntries) =>
      var _ :- Check(below != [] && TotalCount(below) == subtreeEntries);
      var minimum, maximum := below[0].minimum, below[|below| - 1].maximum;
      var _ :- Check(CommonNibbles(minimum, maximum, 0) == nibbles);
      var _ :- Check(CanonicalNibbles(minimum, nibbles) == prefix);
      var _ :- Check(SelectorsOk(node, below));
      Accepted(Summary(TotalCount(below), minimum, maximum))
  }

  predicate SameConstruction(ctx: Context, node: MapNode) {
    var children := Children(node);
    forall i :: 0 <= i < |children| && children[i] in ctx.nodes ==>
      NodeVersion(ctx.nodes[children[i]]) == NodeVersion(node)
  }

  /** Entering a node: not seen before, stored, in the expected domain, children of the same construction. */
  function Enter(ctx: Context, id: ObjectId, seen: set<ObjectId>): (r: Result<MapNode>)
    ensures r.Accepted? ==> id in ctx.nodes && id !in seen && r.value == ctx.nodes[id]
  {
    var _ :- Check(id !in seen);
    var _ :- Check(id in ctx.nodes && ctx.nodes[id].domain == ctx.domain);
    var _ :- Check(SameConstruction(ctx, ctx.nodes[id]));
    Accepted(ctx.nodes[id])
  }

  type Complete = map<ObjectId, Summary>

  function Below(ids: seq<ObjectId>, complete: Complete): Result<seq<Summary>> {
    if ids == [] then Accepted([])
    else
      var _ :- Check(ids[0] in complete);
      var rest :- Below(ids[1..], complete);
      Accepted([complete[ids[0]]] + rest)
  }

  /** Leaving a node whose children are complete. */
  function Leave(ctx: Context, id: ObjectId, complete: Complete): Result<Complete> {
    var _ :- Check(id in ctx.nodes);
    var below :- Below(Children(ctx.nodes[id]), complete);
    var summary :- Summarise(ctx, ctx.nodes[id], below);
    Accepted(complete[id := summary])
  }

  // ---------------------------------------------------------------- the walk, recursively

  datatype Progress = Progress(seen: set<ObjectId>, complete: Complete)

  function Unseen(ctx: Context, seen: set<ObjectId>): nat {
    |ctx.nodes.Keys - seen|
  }

  lemma UnseenShrinks(ctx: Context, seen: set<ObjectId>, more: set<ObjectId>)
    requires seen <= more
    ensures Unseen(ctx, more) <= Unseen(ctx, seen)
  {
    SubsetSize(ctx.nodes.Keys - more, ctx.nodes.Keys - seen);
  }

  lemma UnseenStep(ctx: Context, seen: set<ObjectId>, id: ObjectId)
    requires id in ctx.nodes && id !in seen
    ensures Unseen(ctx, seen + {id}) < Unseen(ctx, seen)
  {
    assert ctx.nodes.Keys - (seen + {id}) == (ctx.nodes.Keys - seen) - {id};
  }

  function Walk(ctx: Context, id: ObjectId, p: Progress): (r: Result<Progress>)
    ensures r.Accepted? ==> p.seen <= r.value.seen
    decreases Unseen(ctx, p.seen), 0
  {
    var node :- Enter(ctx, id, p.seen);
    UnseenStep(ctx, p.seen, id);
    var below :- WalkAll(ctx, Children(node), Progress(p.seen + {id}, p.complete));
    var complete :- Leave(ctx, id, below.complete);
    Accepted(Progress(below.seen, complete))
  }

  function WalkAll(ctx: Context, ids: seq<ObjectId>, p: Progress): (r: Result<Progress>)
    ensures r.Accepted? ==> p.seen <= r.value.seen
    decreases Unseen(ctx, p.seen), 1 + |ids|
  {
    if ids == [] then Accepted(p)
    else
      var first :- Walk(ctx, ids[0], p);
      UnseenShrinks(ctx, p.seen, first.seen);
      WalkAll(ctx, ids[1..], first)
  }

  // ---------------------------------------------------------------- the walk, on a stack

  datatype Task = Task(id: ObjectId, expanded: bool)

  /** What remains to be done, most urgent last. */
  function Continue(ctx: Context, stack: seq<Task>, p: Progress): Result<Progress>
    decreases |stack|
  {
    if stack == [] then Accepted(p)
    else
      var top, rest := stack[|stack| - 1], stack[..|stack| - 1];
      if top.expanded then
        var complete :- Leave(ctx, top.id, p.complete);
        Continue(ctx, rest, Progress(p.seen, complete))
      else
        var next :- Walk(ctx, top.id, p);
        Continue(ctx, rest, next)
  }

  function Pending(ids: seq<ObjectId>): seq<Task> {
    if ids == [] then [] else Pending(ids[1..]) + [Task(ids[0], false)]
  }

  /** Children pushed in reverse are walked in order before anything below them. */
  lemma {:induction false} ContinuePushed(ctx: Context, stack: seq<Task>, ids: seq<ObjectId>, p: Progress)
    ensures Continue(ctx, stack + Pending(ids), p) ==
            var walked := WalkAll(ctx, ids, p);
            if walked.Accepted? then Continue(ctx, stack, walked.value) else Rejected
    decreases |ids|
  {
    hide Walk, Leave;
    if ids == [] {
      assert stack + [] == stack;
    } else {
      var below := stack + Pending(ids[1..]);
      var all := stack + Pending(ids);
      assert all == below + [Task(ids[0], false)];
      assert all[..|all| - 1] == below;
      var first := Walk(ctx, ids[0], p);
      if first.Accepted? { ContinuePushed(ctx, stack, ids[1..], first.value); }
    }
  }

  lemma ContinueLeave(ctx: Context, stack: seq<Task>, id: ObjectId, p: Progress)
    ensures Continue(ctx, stack + [Task(id, true)], p) ==
            var left := Leave(ctx, id, p.complete);
            if left.Accepted? then Continue(ctx, stack, Progress(p.seen, left.value)) else Rejected
  {
    hide Leave, Walk;
    assert (stack + [Task(id, true)])[..|stack|] == stack;
  }

  /** Entering a node replaces its task by its leave marker and its children. */
  lemma ContinueEnter(ctx: Context, stack: seq<Task>, id: ObjectId, p: Progress)
    ensures Continue(ctx, stack + [Task(id, false)], p) ==
            var node := Enter(ctx, id, p.seen);
            if node.Accepted?
            then Continue(ctx, stack + [Task(id, true)] + Pending(Children(node.value)),
                          Progress(p.seen + {id}, p.complete))
            else Rejected
  {
    hide Leave, Enter, WalkAll, Pending;
    assert (stack + [Task(id, false)])[..|stack|] == stack;
    var node := Enter(ctx, id, p.seen);
    if node.Accepted? {
      var entered := Progress(p.seen + {id}, p.complete);
      ContinuePushed(ctx, stack + [Task(id, true)], Children(node.value), entered);
      var below := WalkAll(ctx, Children(node.value), entered);
      if below.Accepted? { ContinueLeave(ctx, stack, id, below.value); }
    }
  }

  method PushChildren(stack: seq<Task>, ids: seq<ObjectId>) returns (pushed: seq<Task>)
    ensures pushed == stack + Pending(ids)
  {
    pushed := stack;
    var i := |ids|;
    assert stack + Pending([]) == stack && ids[i..] == [];
    while i > 0
      invariant 0 <= i <= |ids| && pushed == stack + Pending(ids[i..])
    {
      i := i - 1;
      assert ids[i..][0] == ids[i] && ids[i..][1..] == ids[i + 1..];
      pushed := pushed + [Task(ids[i], false)];
    }
    assert ids[0..] == ids;
  }

  /** The whole walk from a root, and the count it must end with. */
  predicate MapOk(ctx: Context, root: Option<ObjectId>, expectedCount: nat) {
    if root.None? then expectedCount == 0
    else
      var end := Walk(ctx, root.value, Progress({}, map[]));
      end.Accepted? && root.value in end.value.complete && end.value.complete[root.value].count == expectedCount
  }

  /**
   * The loop's state: what the stack still asks for gives the specified outcome, and exactly the open nodes are
   * visiting.
   */
  ghost predicate Running(ctx: Context, stack: seq<Task>, visiting: set<ObjectId>, complete: Complete,
                          spec: Result<Progress>)
  {
    && Continue(ctx, stack, Progress(visiting + complete.Keys, complete)) == spec
    && visiting == Elements(Open(stack)) && Fresh({}, Open(stack))
  }

  lemma LeaveStep(ctx: Context, rest: seq<Task>, id: ObjectId, visiting: set<ObjectId>, complete: Complete,
                  spec: Result<Progress>)
    requires Running(ctx, rest + [Task(id, true)], visiting, complete, spec)
    ensures id in visiting
    ensures var left := Leave(ctx, id, complete);
            if left.Accepted?
            then Running(ctx, rest, visiting - {id}, left.value, spec)
                 && (visiting - {id}) + left.value.Keys == visiting + complete.Keys
            else spec.Rejected?
  {
    hide Continue, Leave, Elements, Fresh, Open;
    ContinueLeave(ctx, rest, id, Progress(visiting + complete.Keys, complete));
    OpenTop(rest, Task(id, true));
    if Leave(ctx, id, complete).Accepted? {
      LeaveAdds(ctx, id, complete);
      assert (visiting - {id}) + (complete.Keys + {id}) == visiting + complete.Keys;
    }
  }

  lemma EnterStep(ctx: Context, rest: seq<Task>, id: ObjectId, visiting: set<ObjectId>, complete: Complete,
                  spec: Result<Progress>)
    requires Running(ctx, rest + [Task(id, false)], visiting, complete, spec)
    ensures var node := Enter(ctx, id, visiting + complete.Keys);
            if node.Accepted?
            then
              && Running(ctx, rest + [Task(id, true)] + Pending(Children(node.value)), visiting + {id}, complete, spec)
              && Unseen(ctx, visiting + {id} + complete.Keys) < Unseen(ctx, visiting + complete.Keys)
            else spec.Rejected?
  {
    hide Continue, Enter, Elements, Fresh, Open, Pending, Children, Unseen;
    var seen := visiting + complete.Keys;
    ContinueEnter(ctx, rest, id, Progress(seen, complete));
    OpenTop(rest, Task(id, false));
    var node := Enter(ctx, id, seen);
    if node.Accepted? {
      OpenEntered(rest, id, Children(node.value));
      UnseenStep(ctx, seen, id);
      assert visiting + {id} + complete.Keys == seen + {id};
    }
  }

  /** validate_map */
  method ValidateMap(ctx: Context, root: Option<ObjectId>, expectedCount: nat) returns (ok: bool)
    ensures ok <==> MapOk(ctx, root, expectedCount)
  {
    hide Running, Walk, Enter, Leave, Children, Pending, Unseen;
    if root.None? { return expectedCount == 0; }
    var stack := [Task(root.value, false)];
    var visiting: set<ObjectId>, complete: Complete := {}, map[];
    ghost var spec := Walk(ctx, root.value, Progress({}, map[]));
    StartRunning(ctx, root.value);
    while stack != []
      invariant Running(ctx, stack, visiting, complete, spec)
      decreases Unseen(ctx, visiting + complete.Keys), |stack|
    {
      var top, rest := stack[|stack| - 1], stack[..|stack| - 1];
      assert stack == rest + [Task(top.id, top.expanded)];
      if top.expanded {
        LeaveStep(ctx, rest, top.id, visiting, complete, spec);
        var left := Leave(ctx, top.id, complete);
        if left.Rejected? { return false; }
        complete, visiting, stack := left.value, visiting - {top.id}, rest;
      } else {
        EnterStep(ctx, rest, top.id, visiting, complete, spec);
        var node := Enter(ctx, top.id, visiting + complete.Keys);
        if node.Rejected? { return false; }
        visiting := visiting + {top.id};
        stack := PushChildren(rest + [Task(top.id, true)], Children(node.value));
      }
    }
    EndRunning(ctx, visiting, complete, spec);
    return root.value in complete && complete[root.value].count == expectedCount;
  }

  lemma StartRunning(ctx: Context, root: ObjectId)
    ensures Running(ctx, [Task(root, false)], {}, map[], Walk(ctx, root, Progress({}, map[])))
  {
    hide Continue, Walk, Elements, Fresh, Open;
    ContinueRoot(ctx, root);
    NothingOpen(root);
    var none: Complete := map[];
    assert {} + none.Keys == {};
  }

  lemma EndRunning(ctx: Context, visiting: set<ObjectId>, complete: Complete, spec: Result<Progress>)
    requires Running(ctx, [], visiting, complete, spec)
    ensures spec.Accepted? && spec.value.complete == complete
  {
    hide Fresh, Elements, Open;
    ContinueDone(ctx, Progress(visiting + complete.Keys, complete));
  }

  lemma ContinueRoot(ctx: Context, root: ObjectId)
    ensures Continue(ctx, [Task(root, false)], Progress({}, map[])) == Walk(ctx, root, Progress({}, map[]))
  {
    hide Walk, Leave;
    var stack := [Task(root, false)];
    assert stack[..0] == [];
    var next := Walk(ctx, root, Progress({}, map[]));
    if next.Accepted? { ContinueDone(ctx, next.value); }
  }

  lemma ContinueDone(ctx: Context, p: Progress)
    ensures Continue(ctx, [], p) == Accepted(p)
  {}

  lemma LeaveAdds(ctx: Context, id: ObjectId, complete: Complete)
    requires Leave(ctx, id, complete).Accepted?
    ensures Leave(ctx, id, complete).value.Keys == complete.Keys + {id}
  {
    hide Summarise, Below;
  }

  /** The nodes whose leave markers are on the stack. */
  function Open(stack: seq<Task>): seq<ObjectId> {
    if stack == [] then []
    else
      var top := stack[|stack| - 1];
      Open(stack[..|stack| - 1]) + (if top.expanded then [top.id] else [])
  }

  lemma NothingOpen(root: ObjectId)
    ensures Open([Task(root, false)]) == [] && Elements([]) == {} && Fresh({}, [])
  {
    assert [Task(root, false)][..0] == [];
  }

  /** Taking a leave marker off the stack closes exactly its node; taking another task off closes nothing. */
  lemma OpenTop(rest: seq<Task>, top: Task)
    ensures Fresh({}, Open(rest + [top])) ==> Fresh({}, Open(rest))
    ensures Fresh({}, Open(rest + [top])) && top.expanded ==>
              top.id in Elements(Open(rest + [top])) && Elements(Open(rest)) == Elements(Open(rest + [top])) - {top.id}
    ensures !top.expanded ==> Open(rest + [top]) == Open(rest)
  {
    hide Fresh, Elements;
    assert (rest + [top])[..|rest|] == rest;
    if top.expanded {
      FreshAppend({}, Open(rest), [top.id]);
      FreshOne({} + Elements(Open(rest)), top.id);
    } else {
      assert Open(rest) + [] == Open(rest);
    }
  }

  lemma {:induction false} OpenPending(stack: seq<Task>, ids: seq<ObjectId>)
    ensures Open(stack + Pending(ids)) == Open(stack)
    decreases |ids|
  {
    if ids == [] { assert stack + [] == stack; } else {
      var all := stack + Pending(ids);
      assert all == (stack + Pending(ids[1..])) + [Task(ids[0], false)];
      assert all[..|all| - 1] == stack + Pending(ids[1..]);
      OpenPending(stack, ids[1..]);
      assert Open(all) == Open(stack) + [];
    }
  }

  lemma OpenEntered(rest: seq<Task>, id: ObjectId, children: seq<ObjectId>)
    requires Fresh({}, Open(rest)) && id !in Elements(Open(rest))
    ensures var stack := rest + [Task(id, true)] + Pending(children);
            Fresh({}, Open(stack)) && Elements(Open(stack)) == Elements(Open(rest)) + {id}
  {
    hide Fresh, Elements, Pending;
    OpenPending(rest + [Task(id, true)], children);
    assert (rest + [Task(id, true)])[..|rest|] == rest;
    FreshAppend({}, Open(rest), [id]);
    FreshOne({} + Elements(Open(rest)), id);
  }

  // ---------------------------------------------------------------- what an accepted map is

  datatype MapTree = MapTree(id: ObjectId, children: seq<MapTree>)

  function Ids(children: seq<MapTree>): (ids: seq<ObjectId>)
    ensures |ids| == |children| && forall i :: 0 <= i < |ids| ==> ids[i] == children[i].id
  {
    seq(|children|, i requires 0 <= i < |children| => children[i].id)
  }

  /** The summary of a tree, from its leaves up. */
  function SummaryOf(ctx: Context, t: MapTree): Result<Summary>
    decreases t
  {
    var _ :- Check(t.id in ctx.nodes);
    var below :- SummariesOf(ctx, t.children);
    Summarise(ctx, ctx.nodes[t.id], below)
  }

  function SummariesOf(ctx: Context, children: seq<MapTree>): (r: Result<seq<Summary>>)
    ensures r.Accepted? ==> |r.value| == |children|
    decreases children
  {
    if children == [] then Accepted([])
    else
      var first :- SummaryOf(ctx, children[0]);
      var rest :- SummariesOf(ctx, children[1..]);
      Accepted([first] + rest)
  }

  /** Every node below is stored where its parent says, in the domain and construction, with a valid summary. */
  ghost predicate TreeHolds(ctx: Context, t: MapTree)
    decreases t
  {
    && t.id in ctx.nodes && ctx.nodes[t.id].domain == ctx.domain && SameConstruction(ctx, ctx.nodes[t.id])
    && Children(ctx.nodes[t.id]) == Ids(t.children)
    && SummaryOf(ctx, t).Accepted?
    && forall i :: 0 <= i < |t.children| ==> TreeHolds(ctx, t.children[i])
  }

  function Visits(t: MapTree): seq<ObjectId>
    decreases t
  {
    [t.id] + VisitsAll(t.children)
  }

  function VisitsAll(children: seq<MapTree>): seq<ObjectId>
    decreases children
  {
    if children == [] then [] else Visits(children[0]) + VisitsAll(children[1..])
  }

  /** Progress after a tree: its nodes seen, its root complete with its summary, earlier results kept. */
  ghost predicate Done(ctx: Context, p: Progress, q: Progress, trees: seq<MapTree>) {
    && q.seen == p.seen + Elements(VisitsAll(trees)) && Fresh(p.seen, VisitsAll(trees))
    && p.complete.Keys <= q.complete.Keys && q.complete.Keys <= q.seen
    && (forall id :: id in p.complete ==> q.complete[id] == p.complete[id])
    && (forall i :: 0 <= i < |trees| ==> TreeHolds(ctx, trees[i]) && trees[i].id in q.complete
                                         && SummaryOf(ctx, trees[i]) == Accepted(q.complete[trees[i].id]))
  }

  lemma {:induction false} BelowIsSummaries(ctx: Context, p: Progress, q: Progress, trees: seq<MapTree>)
    requires forall i :: 0 <= i < |trees| ==> trees[i].id in q.complete
                                              && SummaryOf(ctx, trees[i]) == Accepted(q.complete[trees[i].id])
    ensures Below(Ids(trees), q.complete) == SummariesOf(ctx, trees) && SummariesOf(ctx, trees).Accepted?
    decreases |trees|
  {
    hide SummaryOf;
    if trees != [] {
      assert Ids(trees)[1..] == Ids(trees[1..]);
      BelowIsSummaries(ctx, p, q, trees[1..]);
    }
  }

  lemma {:induction false} WalkBuilds(ctx: Context, id: ObjectId, p: Progress) returns (t: MapTree)
    requires Walk(ctx, id, p).Accepted? && p.complete.Keys <= p.seen
    ensures t.id == id && Done(ctx, p, Walk(ctx, id, p).value, [t])
    decreases Unseen(ctx, p.seen), 0
  {
    hide Leave, TreeHolds, Enter, Unseen, Done, WalkAll;
    var node := Enter(ctx, id, p.seen).value;
    UnseenStep(ctx, p.seen, id);
    var inner := Progress(p.seen + {id}, p.complete);
    var children := WalkAllBuilds(ctx, Children(node), inner);
    t := MapTree(id, children);
    NodeDone(ctx, id, p, WalkAll(ctx, Children(node), inner).value, children);
  }

  lemma {:induction false} WalkAllBuilds(ctx: Context, ids: seq<ObjectId>, p: Progress) returns (trees: seq<MapTree>)
    requires WalkAll(ctx, ids, p).Accepted? && p.complete.Keys <= p.seen
    ensures Ids(trees) == ids && Done(ctx, p, WalkAll(ctx, ids, p).value, trees)
    decreases Unseen(ctx, p.seen), 1 + |ids|
  {
    hide Walk, Done, Unseen;
    if ids == [] {
      trees := [];
      NothingDone(ctx, p);
    } else {
      var t := WalkBuilds(ctx, ids[0], p);
      var next := Walk(ctx, ids[0], p).value;
      UnseenShrinks(ctx, p.seen, next.seen);
      DoneKeys(ctx, p, next, [t]);
      var rest := WalkAllBuilds(ctx, ids[1..], next);
      trees := [t] + rest;
      assert Ids(trees) == [ids[0]] + ids[1..] == ids;
      DoneJoins(ctx, p, next, WalkAll(ctx, ids, p).value, t, rest);
    }
  }

  lemma NothingDone(ctx: Context, p: Progress)
    requires p.complete.Keys <= p.seen
    ensures Done(ctx, p, p, [])
  {
    assert p.seen + Elements([]) == p.seen;
  }

  lemma DoneKeys(ctx: Context, p: Progress, q: Progress, trees: seq<MapTree>)
    requires Done(ctx, p, q, trees)
    ensures q.complete.Keys <= q.seen
  {
    hide TreeHolds, Fresh;
  }

  lemma DoneJoins(ctx: Context, p: Progress, q: Progress, r: Progress, t: MapTree, rest: seq<MapTree>)
    requires Done(ctx, p, q, [t]) && Done(ctx, q, r, rest)
    ensures Done(ctx, p, r, [t] + rest)
  {
    hide TreeHolds, Fresh, Elements, SummaryOf, Visits;
    var all := [t] + rest;
    assert all[0] == t && all[1..] == rest && [t][1..] == [];
    assert VisitsAll([t]) == Visits(t) + [] == Visits(t);
    FreshAppend(p.seen, Visits(t), VisitsAll(rest));
    forall i | 0 <= i < |all|
      ensures TreeHolds(ctx, all[i]) && all[i].id in r.complete
              && SummaryOf(ctx, all[i]) == Accepted(r.complete[all[i].id])
    {
      if i == 0 { assert [t][0] == t; } else { assert all[i] == rest[i - 1]; }
    }
  }

  /** A node over finished children is a finished tree. */
  lemma NodeDone(ctx: Context, id: ObjectId, p: Progress, below: Progress, children: seq<MapTree>)
    requires Enter(ctx, id, p.seen).Accepted? && Leave(ctx, id, below.complete).Accepted?
    requires Ids(children) == Children(ctx.nodes[id]) && Done(ctx, Progress(p.seen + {id}, p.complete), below, children)
             && p.complete.Keys <= p.seen
    ensures Done(ctx, p, Progress(below.seen, Leave(ctx, id, below.complete).value), [MapTree(id, children)])
  {
    hide Fresh, Elements, Summarise, SameConstruction, Children, Below;
    var t := MapTree(id, children);
    BelowIsSummaries(ctx, p, below, children);
    assert VisitsAll([t]) == Visits(t) by { assert [t][1..] == [] && Visits(t) + [] == Visits(t); }
    FreshAppend(p.seen, [id], VisitsAll(children));
    FreshOne(p.seen, id);
    assert SummaryOf(ctx, t) == Accepted(Leave(ctx, id, below.complete).value[id]);
    assert TreeHolds(ctx, t);
  }

  // ---------------------------------------------------------------- and every such map is accepted

  lemma {:induction false} TreesAreWalked(ctx: Context, trees: seq<MapTree>, p: Progress)
    requires p.complete.Keys <= p.seen && Fresh(p.seen, VisitsAll(trees))
             && forall i :: 0 <= i < |trees| ==> TreeHolds(ctx, trees[i])
    ensures WalkAll(ctx, Ids(trees), p).Accepted? && Done(ctx, p, WalkAll(ctx, Ids(trees), p).value, trees)
    decreases trees
  {
    hide Walk, Done, TreeHolds, Visits;
    if trees == [] {
      NothingDone(ctx, p);
    } else {
      var t, rest := trees[0], trees[1..];
      FreshAppend(p.seen, Visits(t), VisitsAll(rest));
      TreeIsWalked(ctx, t, p);
      var next := Walk(ctx, t.id, p).value;
      DoneKeys(ctx, p, next, [t]);
      assert next.seen == p.seen + Elements(Visits(t)) by { OneVisited(ctx, p, next, t); }
      TreesAreWalked(ctx, rest, next);
      assert Ids(trees)[1..] == Ids(rest) && trees == [t] + rest;
      DoneJoins(ctx, p, next, WalkAll(ctx, Ids(rest), next).value, t, rest);
    }
  }

  lemma OneVisited(ctx: Context, p: Progress, q: Progress, t: MapTree)
    requires Done(ctx, p, q, [t])
    ensures q.seen == p.seen + Elements(Visits(t))
  {
    hide TreeHolds, Fresh, Elements, Visits, SummaryOf;
    assert [t][1..] == [] && VisitsAll([t]) == Visits(t) + [] == Visits(t);
  }

  lemma {:induction false} TreeIsWalked(ctx: Context, t: MapTree, p: Progress)
    requires p.complete.Keys <= p.seen && TreeHolds(ctx, t) && Fresh(p.seen, Visits(t))
    ensures Walk(ctx, t.id, p).Accepted? && Done(ctx, p, Walk(ctx, t.id, p).value, [t])
    decreases t
  {
    hide Done, Fresh, Elements, Summarise, SameConstruction, Children, Below;
    FreshAppend(p.seen, [t.id], VisitsAll(t.children));
    FreshOne(p.seen, t.id);
    var inner := Progress(p.seen + {t.id}, p.complete);
    TreesAreWalked(ctx, t.children, inner);
    var below := WalkAll(ctx, Ids(t.children), inner).value;
    LeavesTree(ctx, t, inner, below);
    NodeDone(ctx, t.id, p, below, t.children);
    assert t == MapTree(t.id, t.children);
  }

  lemma LeavesTree(ctx: Context, t: MapTree, p: Progress, below: Progress)
    requires TreeHolds(ctx, t) && Done(ctx, p, below, t.children)
    ensures Leave(ctx, t.id, below.complete).Accepted?
  {
    hide Fresh, Elements, Summarise, SameConstruction, Children, Below, VisitsAll;
    BelowIsSummaries(ctx, p, below, t.children);
  }

  // ---------------------------------------------------------------- results

  /** The entries stored in the leaves of a tree. */
  function EntryCount(ctx: Context, t: MapTree): nat
    decreases t
  {
    if t.id !in ctx.nodes then 0
    else
      match ctx.nodes[t.id]
      case BitLeaf(_, _) => 1
      case RadixPage(_, entries) => |entries|
      case _ => EntryCounts(ctx, t.children)
  }

  function EntryCounts(ctx: Context, children: seq<MapTree>): nat
    decreases children
  {
    if children == [] then 0 else EntryCount(ctx, children[0]) + EntryCounts(ctx, children[1..])
  }

  /**
   * A summary counts the entries in the leaves, so every branch's subtree_entries is the number of entries below it.
   */
  lemma {:induction false} SummaryCounts(ctx: Context, t: MapTree)
    requires TreeHolds(ctx, t)
    ensures SummaryOf(ctx, t).Accepted? && SummaryOf(ctx, t).value.count == EntryCount(ctx, t)
    ensures ctx.nodes[t.id].BitBranch? || ctx.nodes[t.id].RadixBranch? ==>
              ctx.nodes[t.id].subtreeEntries == EntryCount(ctx, t)
    decreases t
  {
    hide Summarise, SameConstruction, Children, Ids;
    SummariesCount(ctx, t.children);
    SummariseCounts(ctx, ctx.nodes[t.id], SummariesOf(ctx, t.children).value);
  }

  lemma SummariseCounts(ctx: Context, node: MapNode, below: seq<Summary>)
    requires Summarise(ctx, node, below).Accepted?
    ensures Summarise(ctx, node, below).value.count ==
            if node.BitLeaf? then 1 else if node.RadixPage? then |node.entries| else TotalCount(below)
    ensures node.BitBranch? || node.RadixBranch? ==> node.subtreeEntries == TotalCount(below)
  {
    hide PrefixBits, CanonicalPrefix, KeyBit, CommonNibbles, CanonicalNibbles, SelectorsOk, SearchKey, EntriesOk;
    if node.BitBranch? { TotalOfTwo(below); }
  }

  lemma TotalOfTwo(below: seq<Summary>)
    requires |below| == 2
    ensures TotalCount(below) == below[0].count + below[1].count
  {
    assert below[1..] == [below[1]];
    assert TotalCount([below[1]]) == below[1].count + TotalCount([]) by { assert [below[1]][1..] == []; }
  }

  lemma {:induction false} SummariesCount(ctx: Context, children: seq<MapTree>)
    requires SummariesOf(ctx, children).Accepted? && forall i :: 0 <= i < |children| ==> TreeHolds(ctx, children[i])
    ensures TotalCount(SummariesOf(ctx, children).value) == EntryCounts(ctx, children)
    decreases children
  {
    hide TreeHolds, SummaryOf, EntryCount;
    if children != [] {
      SummaryCounts(ctx, children[0]);
      SummariesCount(ctx, children[1..]);
      var all := SummariesOf(ctx, children).value;
      assert all[1..] == SummariesOf(ctx, children[1..]).value;
    }
  }

  ghost predicate IsMap(ctx: Context, root: ObjectId, expectedCount: nat, t: MapTree) {
    t.id == root && TreeHolds(ctx, t) && Fresh({}, Visits(t)) && EntryCount(ctx, t) == expectedCount
  }

  /**
   * A map is accepted iff its root heads a tree of distinct well-formed nodes holding exactly the expected number of
   * entries.
   */
  lemma AcceptedMapsAreTrees(ctx: Context, root: ObjectId, expectedCount: nat)
    ensures MapOk(ctx, Some(root), expectedCount) <==> exists t :: IsMap(ctx, root, expectedCount, t)
  {
    hide Walk, TreeHolds, Fresh, Visits, EntryCount, Done;
    var start := Progress({}, map[]);
    if MapOk(ctx, Some(root), expectedCount) {
      var t := WalkBuilds(ctx, root, start);
      RootDone(ctx, start, Walk(ctx, root, start).value, t);
      SummaryCounts(ctx, t);
      assert IsMap(ctx, root, expectedCount, t);
    }
    if t :| IsMap(ctx, root, expectedCount, t) {
      TreeIsWalked(ctx, t, start);
      RootDone(ctx, start, Walk(ctx, root, start).value, t);
      SummaryCounts(ctx, t);
    }
  }

  lemma RootDone(ctx: Context, p: Progress, q: Progress, t: MapTree)
    requires Done(ctx, p, q, [t])
    ensures TreeHolds(ctx, t) && t.id in q.complete && SummaryOf(ctx, t) == Accepted(q.complete[t.id])
            && Fresh(p.seen, Visits(t))
  {
    hide TreeHolds, Fresh, Elements, SummaryOf, Visits;
    assert [t][0] == t && [t][1..] == [] && VisitsAll([t]) == Visits(t) + [] == Visits(t);
  }
}
