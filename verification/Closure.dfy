/**
 * The ownership closure of a root object, walked twice in the source: once recursively and once with an
 * explicit stack and leave markers. Both return exactly the objects reachable by owning references, and
 * fail exactly when a missing object or an ownership cycle is reachable.
 */
module Closure {
  import opened Outcomes
  import opened Objects
  import opened Marks

  const OWNING: nat := 0

  // ---------------------------------------------------------------- the ownership graph

  function OwnedTargets(references: seq<Reference>): seq<ObjectId> {
    if references == [] then []
    else if references[0].kind == OWNING then [references[0].target] + OwnedTargets(references[1..])
    else OwnedTargets(references[1..])
  }

  predicate Owns(objects: Store, x: ObjectId, y: ObjectId) {
    x in objects && y in OwnedTargets(objects[x].references)
  }

  ghost predicate Path(objects: Store, p: seq<ObjectId>) {
    p != [] && forall i :: 0 < i < |p| ==> Owns(objects, p[i - 1], p[i])
  }

  ghost predicate Reachable(objects: Store, root: ObjectId, x: ObjectId) {
    exists p :: Path(objects, p) && p[0] == root && p[|p| - 1] == x
  }

  ghost predicate OnCycle(objects: Store, x: ObjectId) {
    exists p :: Path(objects, p) && |p| > 1 && p[0] == x && p[|p| - 1] == x
  }

  ghost predicate WellOwned(objects: Store, root: ObjectId) {
    forall x :: Reachable(objects, root, x) ==> x in objects && !OnCycle(objects, x)
  }

  datatype Outcome = Closed(closure: set<ObjectId>) | Cycle(at: ObjectId) | Missing(at: ObjectId)

  /** What both walks promise: success and each failure for exactly the right reason. */
  ghost predicate Correct(objects: Store, root: ObjectId, outcome: Outcome) {
    match outcome
    case Closed(closure) => WellOwned(objects, root) && forall x :: x in closure <==> Reachable(objects, root, x)
    case Cycle(at) => Reachable(objects, root, at) && OnCycle(objects, at)
    case Missing(at) => Reachable(objects, root, at) && at !in objects
  }

  /** A correct outcome is a success exactly when every reachable object is present and on no cycle. */
  lemma CorrectIsExact(objects: Store, root: ObjectId, outcome: Outcome)
    requires Correct(objects, root, outcome)
    ensures outcome.Closed? <==> WellOwned(objects, root)
  {
    hide Reachable, OnCycle;
  }

  /** Any two correct walks agree on success and on the closure. */
  lemma WalksAgree(objects: Store, root: ObjectId, a: Outcome, b: Outcome)
    requires Correct(objects, root, a) && Correct(objects, root, b)
    ensures a.Closed? <==> b.Closed?
    ensures a.Closed? && b.Closed? ==> a == b
  {
    hide Reachable, OnCycle;
    if a.Closed? && b.Closed? { assert a.closure == b.closure; }
  }

  lemma PathExtends(objects: Store, p: seq<ObjectId>, y: ObjectId)
    requires Path(objects, p) && Owns(objects, p[|p| - 1], y)
    ensures Path(objects, p + [y])
  {
    var q := p + [y];
    forall i | 0 < i < |q| ensures Owns(objects, q[i - 1], q[i]) {
      if i < |p| { assert Owns(objects, p[i - 1], p[i]); }
    }
  }

  lemma ReachRoot(objects: Store, root: ObjectId)
    ensures Reachable(objects, root, root)
  {
    assert Path(objects, [root]);
  }

  lemma ReachNext(objects: Store, root: ObjectId, x: ObjectId, y: ObjectId)
    requires Reachable(objects, root, x) && Owns(objects, x, y)
    ensures Reachable(objects, root, y)
  {
    var p :| Path(objects, p) && p[0] == root && p[|p| - 1] == x;
    PathExtends(objects, p, y);
    assert (p + [y])[0] == root;
  }

  // ---------------------------------------------------------------- finished objects

  /** Objects in the order they were finished: each owns only objects finished before it. */
  ghost predicate Finished(objects: Store, order: seq<ObjectId>) {
    order == [] ||
    (var x, before := order[|order| - 1], order[..|order| - 1];
     && x in objects && x !in before && Finished(objects, before)
     && forall y :: Owns(objects, x, y) ==> y in before)
  }

  lemma {:induction false} FinishedClosed(objects: Store, order: seq<ObjectId>, x: ObjectId, y: ObjectId)
    requires Finished(objects, order) && x in order && Owns(objects, x, y)
    ensures y in order
    decreases |order|
  {
    var before := order[..|order| - 1];
    if x != order[|order| - 1] {
      var i :| 0 <= i < |order| && order[i] == x;
      assert before[i] == x;
      FinishedClosed(objects, before, x, y);
    }
  }

  /** A path that starts among the finished objects stays there. */
  lemma {:induction false} FinishedPath(objects: Store, order: seq<ObjectId>, p: seq<ObjectId>, i: nat)
    requires Finished(objects, order) && Path(objects, p) && p[0] in order && i < |p|
    ensures p[i] in order
  {
    if i > 0 {
      FinishedPath(objects, order, p, i - 1);
      assert Owns(objects, p[i - 1], p[i]);
      FinishedClosed(objects, order, p[i - 1], p[i]);
    }
  }

  lemma {:induction false} FinishedStored(objects: Store, order: seq<ObjectId>, x: ObjectId)
    requires Finished(objects, order) && x in order
    ensures x in objects
    decreases |order|
  {
    var before := order[..|order| - 1];
    if x != order[|order| - 1] {
      var i :| 0 <= i < |order| && order[i] == x;
      assert before[i] == x;
      FinishedStored(objects, before, x);
    }
  }

  /** No finished object is on a cycle: every path steps to objects finished earlier. */
  lemma {:induction false} FinishedAcyclic(objects: Store, order: seq<ObjectId>, p: seq<ObjectId>)
    requires Finished(objects, order) && Path(objects, p) && |p| > 1 && p[0] in order
    ensures p[0] != p[|p| - 1]
    decreases |order|
  {
    var x, before := order[|order| - 1], order[..|order| - 1];
    if p[0] == x {
      assert Owns(objects, p[0], p[1]);
      var rest := p[1..];
      forall i | 0 < i < |rest| ensures Owns(objects, rest[i - 1], rest[i]) { assert Owns(objects, p[i], p[i + 1]); }
      FinishedPath(objects, before, rest, |rest| - 1);
    } else {
      var i :| 0 <= i < |order| && order[i] == p[0];
      assert before[i] == p[0];
      FinishedAcyclic(objects, before, p);
    }
  }

  // ---------------------------------------------------------------- marks

  /** The open objects form an owning path from the root; the finished ones are closed; both are reachable. */
  ghost predicate Marked(objects: Store, root: ObjectId, marks: map<ObjectId, nat>, path: seq<ObjectId>,
                         order: seq<ObjectId>)
  {
    && Finished(objects, order)
    && (path != [] ==> Path(objects, path) && path[0] == root)
    && (forall x :: x in marks <==> x in path || x in order)
    && (forall x :: x in path ==> x in objects && x !in order && marks[x] == 1 && Reachable(objects, root, x))
    && (forall x :: x in order ==> marks[x] == 2 && Reachable(objects, root, x))
  }

  /** The object the walk is about to enter: the root, or something the innermost open object owns. */
  ghost predicate Next(objects: Store, root: ObjectId, path: seq<ObjectId>, x: ObjectId) {
    if path == [] then x == root else Owns(objects, path[|path| - 1], x)
  }

  lemma NextReachable(objects: Store, root: ObjectId, marks: map<ObjectId, nat>, path: seq<ObjectId>,
                      order: seq<ObjectId>, x: ObjectId)
    requires Marked(objects, root, marks, path, order) && Next(objects, root, path, x)
    ensures Reachable(objects, root, x)
  {
    hide Reachable, Finished, Path;
    if path == [] { ReachRoot(objects, root); } else {
      assert path[|path| - 1] in path;
      ReachNext(objects, root, path[|path| - 1], x);
    }
  }

  /** Meeting an open object again closes a cycle; sharing never does, because a shared object is finished. */
  lemma OpenIsCycle(objects: Store, root: ObjectId, marks: map<ObjectId, nat>, path: seq<ObjectId>,
                    order: seq<ObjectId>, x: ObjectId)
    requires Marked(objects, root, marks, path, order) && Next(objects, root, path, x) && x in marks && marks[x] == 1
    ensures Reachable(objects, root, x) && OnCycle(objects, x)
  {
    hide Reachable, Finished;
    assert x in path;
    var i :| 0 <= i < |path| && path[i] == x;
    var loop := path[i..];
    forall j | 0 < j < |loop| ensures Owns(objects, loop[j - 1], loop[j]) {
      assert Owns(objects, path[i + j - 1], path[i + j]);
    }
    PathExtends(objects, loop, x);
    assert (loop + [x])[0] == x;
  }

  lemma EnterObject(objects: Store, root: ObjectId, marks: map<ObjectId, nat>, path: seq<ObjectId>,
                    order: seq<ObjectId>, x: ObjectId)
    requires Marked(objects, root, marks, path, order) && Next(objects, root, path, x) && x !in marks && x in objects
    ensures Marked(objects, root, marks[x := 1], path + [x], order)
  {
    hide Reachable, Finished;
    NextReachable(objects, root, marks, path, order, x);
    if path != [] {
      PathExtends(objects, path, x);
      assert (path + [x])[0] == path[0];
    } else {
      assert [] + [x] == [x];
    }
  }

  /** An open object whose owned objects are all finished becomes the last finished object. */
  lemma LeaveObject(objects: Store, root: ObjectId, marks: map<ObjectId, nat>, outer: seq<ObjectId>, x: ObjectId,
                    order: seq<ObjectId>)
    requires Marked(objects, root, marks, outer + [x], order) && x !in outer
    requires forall y :: Owns(objects, x, y) ==> y in order
    ensures Marked(objects, root, marks[x := 2], outer, order + [x])
  {
    hide Reachable, Finished, Path, Owns;
    assert x in outer + [x];
    assert forall y :: y in outer ==> y in outer + [x];
    FinishedGrows(objects, order, x);
    if outer != [] {
      PathShrinks(objects, outer, x);
    }
  }

  lemma FinishedGrows(objects: Store, order: seq<ObjectId>, x: ObjectId)
    requires Finished(objects, order) && x in objects && x !in order && forall y :: Owns(objects, x, y) ==> y in order
    ensures Finished(objects, order + [x])
  {
    assert (order + [x])[..|order|] == order;
  }

  lemma PathShrinks(objects: Store, p: seq<ObjectId>, x: ObjectId)
    requires Path(objects, p + [x]) && p != []
    ensures Path(objects, p) && p[0] == (p + [x])[0]
  {
    forall i | 0 < i < |p| ensures Owns(objects, p[i - 1], p[i]) {
      assert Owns(objects, (p + [x])[i - 1], (p + [x])[i]);
    }
  }

  /** When nothing is open and the root is finished, the finished objects are exactly the reachable ones. */
  lemma AllFinished(objects: Store, root: ObjectId, marks: map<ObjectId, nat>, order: seq<ObjectId>)
    requires Marked(objects, root, marks, [], order) && root in order
    ensures Correct(objects, root, Closed(marks.Keys))
  {
    hide Finished;
    forall x | Reachable(objects, root, x) ensures x in order && x in objects && !OnCycle(objects, x) {
      var p :| Path(objects, p) && p[0] == root && p[|p| - 1] == x;
      FinishedPath(objects, order, p, |p| - 1);
      FinishedStored(objects, order, x);
      if OnCycle(objects, x) {
        var c :| Path(objects, c) && |c| > 1 && c[0] == x && c[|c| - 1] == x;
        FinishedAcyclic(objects, order, c);
      }
    }
  }

  lemma MarkedDone(objects: Store, root: ObjectId, marks: map<ObjectId, nat>, path: seq<ObjectId>, order: seq<ObjectId>,
                   x: ObjectId)
    requires Marked(objects, root, marks, path, order) && x in marks
    ensures marks[x] == 1 || marks[x] == 2
    ensures marks[x] == 2 <==> x in order
  {
    hide Reachable, Finished, Path;
  }

  lemma NotOpen(objects: Store, root: ObjectId, marks: map<ObjectId, nat>, path: seq<ObjectId>, order: seq<ObjectId>,
                x: ObjectId)
    requires Marked(objects, root, marks, path, order) && x !in marks
    ensures x !in path
  {
    hide Reachable, Finished, Path;
  }

  lemma Entered(objects: Store, marks: map<ObjectId, nat>, x: ObjectId)
    requires x in objects && x !in marks
    ensures |objects.Keys - marks[x := 1].Keys| < |objects.Keys - marks.Keys|
  {
    assert objects.Keys - marks[x := 1].Keys == (objects.Keys - marks.Keys) - {x};
  }

  lemma KeysLeft(objects: Store, before: map<ObjectId, nat>, after: map<ObjectId, nat>)
    requires before.Keys <= after.Keys
    ensures |objects.Keys - after.Keys| <= |objects.Keys - before.Keys|
  {
    SubsetSize(objects.Keys - after.Keys, objects.Keys - before.Keys);
  }

  /** The owned targets are the targets of the owning references. */
  lemma {:induction false} OwnedTargetsAre(references: seq<Reference>, y: ObjectId)
    ensures y in OwnedTargets(references) <==>
            exists j :: 0 <= j < |references| && references[j].kind == OWNING && references[j].target == y
  {
    if references != [] {
      OwnedTargetsAre(references[1..], y);
      if y in OwnedTargets(references[1..]) {
        var j :| 0 <= j < |references[1..]| && references[1..][j].kind == OWNING && references[1..][j].target == y;
        assert references[j + 1].kind == OWNING;
      }
      if j :| 0 < j < |references| && references[j].kind == OWNING && references[j].target == y {
        assert references[1..][j - 1].kind == OWNING;
      }
    }
  }

  lemma OwnsReference(objects: Store, root: ObjectId, path: seq<ObjectId>, id: ObjectId, i: nat)
    requires id in objects && i < |objects[id].references| && objects[id].references[i].kind == OWNING
    requires path != [] && path[|path| - 1] == id
    ensures Next(objects, root, path, objects[id].references[i].target)
  {
    OwnedTargetsAre(objects[id].references, objects[id].references[i].target);
  }

  ghost predicate Extends(before: seq<ObjectId>, after: seq<ObjectId>) {
    before <= after
  }

  lemma ExtendsChain(a: seq<ObjectId>, b: seq<ObjectId>, c: seq<ObjectId>)
    ensures Extends(a, a)
    ensures Extends(a, b) && Extends(b, c) ==> Extends(a, c)
  {}

  lemma ExtendsOne(a: seq<ObjectId>, b: seq<ObjectId>, x: ObjectId)
    requires Extends(a, b)
    ensures Extends(a, b + [x])
  {}

  ghost predicate Covered(references: seq<Reference>, end: nat, done: seq<ObjectId>)
    requires end <= |references|
  {
    forall j :: 0 <= j < end && references[j].kind == OWNING ==> references[j].target in done
  }

  lemma NothingCovered(references: seq<Reference>, done: seq<ObjectId>)
    ensures Covered(references, 0, done)
  {}

  lemma NotOwned(references: seq<Reference>, end: nat, done: seq<ObjectId>)
    requires end < |references| && Covered(references, end, done) && references[end].kind != OWNING
    ensures Covered(references, end + 1, done)
  {}

  lemma StillCovered(references: seq<Reference>, end: nat, before: seq<ObjectId>, done: seq<ObjectId>)
    requires end < |references| && Covered(references, end, before) && Extends(before, done)
             && references[end].target in done
    ensures Covered(references, end + 1, done)
  {
    forall y | y in before ensures y in done {
      var i :| 0 <= i < |before| && before[i] == y;
      assert done[i] == y;
    }
  }

  lemma OwnsAll(objects: Store, id: ObjectId, done: seq<ObjectId>)
    requires id in objects && Covered(objects[id].references, |objects[id].references|, done)
    ensures forall y :: Owns(objects, id, y) ==> y in done
  {
    forall y | Owns(objects, id, y) ensures y in done { OwnedTargetsAre(objects[id].references, y); }
  }

  // ---------------------------------------------------------------- the recursive walk

  class RecursiveWalk {
    const objects: Store
    const root: ObjectId
    var marks: map<ObjectId, nat>

    constructor (objects: Store, root: ObjectId)
      ensures this.objects == objects && this.root == root && marks == map[]
    {
      this.objects, this.root, marks := objects, root, map[];
    }

    /** visit: on success the object and everything below it is finished and the open path is as before. */
    method Visit(id: ObjectId, ghost path: seq<ObjectId>, ghost order: seq<ObjectId>)
      returns (failure: Option<Outcome>, ghost done: seq<ObjectId>)
      requires Marked(objects, root, marks, path, order) && Next(objects, root, path, id)
      modifies this`marks
      ensures failure.None? ==> Marked(objects, root, marks, path, done) && id in done && Extends(order, done)
                                && old(marks).Keys <= marks.Keys
      ensures failure.Some? ==> !failure.value.Closed? && Correct(objects, root, failure.value)
      decreases |objects.Keys - marks.Keys|, 0
    {
      hide Marked, Reachable, OnCycle, Next, OwnedTargets, Extends;
      done := order;
      ExtendsChain(order, order, order);
      if id in marks && marks[id] == 1 {
        OpenIsCycle(objects, root, marks, path, order, id);
        return Some(Cycle(id)), done;
      }
      if id in marks { MarkedDone(objects, root, marks, path, order, id); }
      if id in marks && marks[id] == 2 { return None, done; }
      NotOpen(objects, root, marks, path, order, id);
      NextReachable(objects, root, marks, path, order, id);
      if id !in objects { return Some(Missing(id)), done; }
      EnterObject(objects, root, marks, path, order, id);
      Entered(objects, marks, id);
      marks := marks[id := 1];
      failure, done := VisitReferences(id, path + [id], order);
      if failure.Some? { return; }
      LeaveObject(objects, root, marks, path, id, done);
      ExtendsOne(order, done, id);
      marks := marks[id := 2];
      done := done + [id];
    }

    /** The loop over the references of the innermost open object. */
    method VisitReferences(id: ObjectId, ghost path: seq<ObjectId>, ghost order: seq<ObjectId>)
      returns (failure: Option<Outcome>, ghost done: seq<ObjectId>)
      requires id in objects && path != [] && path[|path| - 1] == id && Marked(objects, root, marks, path, order)
      modifies this`marks
      ensures failure.None? ==>
        Marked(objects, root, marks, path, done) && Extends(order, done) && old(marks).Keys <= marks.Keys
        && forall y :: Owns(objects, id, y) ==> y in done
      ensures failure.Some? ==> !failure.value.Closed? && Correct(objects, root, failure.value)
      decreases |objects.Keys - marks.Keys|, 1
    {
      hide Marked, Reachable, OnCycle, Next, Finished, Owns, Correct, Path, Covered, Extends;
      var references := objects[id].references;
      done := order;
      NothingCovered(references, order);
      ExtendsChain(order, order, order);
      var i := 0;
      while i < |references|
        invariant i <= |references| && Covered(references, i, done) && Extends(order, done)
        invariant Marked(objects, root, marks, path, done) && old(marks).Keys <= marks.Keys
      {
        if references[i].kind == OWNING {
          OwnsReference(objects, root, path, id, i);
          KeysLeft(objects, old(marks), marks);
          ghost var before := done;
          failure, done := Visit(references[i].target, path, done);
          if failure.Some? { return; }
          ExtendsChain(order, before, done);
          StillCovered(references, i, before, done);
        } else {
          NotOwned(references, i, done);
        }
        i := i + 1;
      }
      OwnsAll(objects, id, done);
      failure := None;
    }
  }

  method ValidateClosureRecursively(objects: Store, root: ObjectId) returns (outcome: Outcome)
    ensures Correct(objects, root, outcome)
  {
    hide Marked, Correct;
    NothingMarked(objects, root);
    var walk := new RecursiveWalk(objects, root);
    var failure;
    ghost var done;
    failure, done := walk.Visit(root, [], []);
    if failure.Some? { return failure.value; }
    AllFinished(objects, root, walk.marks, done);
    return Closed(walk.marks.Keys);
  }

  lemma NothingMarked(objects: Store, root: ObjectId)
    ensures Marked(objects, root, map[], [], []) && Next(objects, root, [], root)
  {}

  // ---------------------------------------------------------------- the explicit stack

  datatype Task = Task(id: ObjectId, leaving: bool)

  /** An open object with the owned objects still to be tried, next one last. */
  datatype Frame = Frame(node: ObjectId, todo: seq<ObjectId>)

  function Entries(todo: seq<ObjectId>): (s: seq<Task>)
    ensures |s| == |todo|
  {
    seq(|todo|, i requires 0 <= i < |todo| => Task(todo[i], false))
  }

  /** The stack a nest of frames stands for: each leave marker below the entries its object still owns. */
  ghost function Render(start: seq<ObjectId>, frames: seq<Frame>): seq<Task> {
    if frames == [] then Entries(start)
    else
      var top := frames[|frames| - 1];
      Render(start, frames[..|frames| - 1]) + ([Task(top.node, true)] + Entries(top.todo))
  }

  ghost function Nodes(frames: seq<Frame>): (p: seq<ObjectId>)
    ensures |p| == |frames| && forall i :: 0 <= i < |p| ==> p[i] == frames[i].node
  {
    seq(|frames|, i requires 0 <= i < |frames| => frames[i].node)
  }

  /** Every owned object of frame i is finished, still to be tried, or being walked in the frame above. */
  ghost predicate FrameHolds(objects: Store, frames: seq<Frame>, order: seq<ObjectId>, i: nat)
    requires i < |frames|
  {
    && (forall y :: y in frames[i].todo ==> Owns(objects, frames[i].node, y))
    && (forall y :: Owns(objects, frames[i].node, y) ==>
          y in order || y in frames[i].todo || (i + 1 < |frames| && y == frames[i + 1].node))
  }

  ghost predicate Walking(objects: Store, root: ObjectId, marks: map<ObjectId, nat>, start: seq<ObjectId>,
                          frames: seq<Frame>, order: seq<ObjectId>)
  {
    && Marked(objects, root, marks, Nodes(frames), order)
    && (forall i, j :: 0 <= i < j < |frames| ==> frames[i].node != frames[j].node)
    && (forall i :: 0 <= i < |frames| ==> FrameHolds(objects, frames, order, i))
    && (start == [] || (start == [root] && frames == []))
    && (start == [] ==> root in marks)
  }

  /** The next task of the innermost frame, or the initial task. */
  ghost predicate TopTask(start: seq<ObjectId>, frames: seq<Frame>, x: ObjectId) {
    if frames == [] then start == [x]
    else
      var todo := frames[|frames| - 1].todo;
      todo != [] && todo[|todo| - 1] == x
  }

  /** The nest without that task. */
  ghost function DropTask(frames: seq<Frame>): seq<Frame> {
    if frames == [] || frames[|frames| - 1].todo == [] then frames
    else
      var top := frames[|frames| - 1];
      frames[..|frames| - 1] + [Frame(top.node, top.todo[..|top.todo| - 1])]
  }

  lemma EntriesAppend(a: seq<ObjectId>, x: ObjectId)
    ensures Entries(a + [x]) == Entries(a) + [Task(x, false)]
  {}

  lemma RenderPush(start: seq<ObjectId>, frames: seq<Frame>, top: Frame)
    ensures Render(start, frames + [top]) == Render(start, frames) + ([Task(top.node, true)] + Entries(top.todo))
  {
    assert (frames + [top])[..|frames|] == frames;
  }

  /** The stack without its top entry. */
  ghost predicate Topped(stack: seq<Task>, task: Task, rest: seq<Task>) {
    stack == rest + [task]
  }

  lemma RenderLeaving(start: seq<ObjectId>, outer: seq<Frame>, node: ObjectId)
    ensures Topped(Render(start, outer + [Frame(node, [])]), Task(node, true), Render(start, outer))
  {
    hide Render;
    RenderPush(start, outer, Frame(node, []));
    assert [Task(node, true)] + Entries([]) == [Task(node, true)];
  }

  lemma RenderTask(start: seq<ObjectId>, outer: seq<Frame>, node: ObjectId, left: seq<ObjectId>, x: ObjectId)
    ensures Topped(Render(start, outer + [Frame(node, left + [x])]), Task(x, false),
                   Render(start, outer + [Frame(node, left)]))
  {
    hide Render, Entries;
    RenderPush(start, outer, Frame(node, left + [x]));
    RenderPush(start, outer, Frame(node, left));
    EntriesAppend(left, x);
    var base := Render(start, outer);
    assert base + ([Task(node, true)] + (Entries(left) + [Task(x, false)])) ==
           (base + ([Task(node, true)] + Entries(left))) + [Task(x, false)];
  }

  lemma RenderStart(x: ObjectId)
    ensures Topped(Render([x], []), Task(x, false), Render([], []))
  {}

  /** The top of the rendered stack says whether the innermost frame has a task left. */
  lemma RenderTop(start: seq<ObjectId>, frames: seq<Frame>)
    requires frames != [] || start != []
    requires |start| <= 1
    ensures var stack := Render(start, frames);
            && stack != []
            && var task, rest := stack[|stack| - 1], stack[..|stack| - 1];
               if task.leaving
               then frames != [] && frames[|frames| - 1] == Frame(task.id, [])
                    && rest == Render(start, frames[..|frames| - 1])
               else TopTask(start, frames, task.id)
                    && rest == Render(if frames == [] then [] else start, DropTask(frames))
  {
    hide Render;
    if frames == [] {
      assert start == [start[0]];
      RenderStart(start[0]);
    } else {
      var top, outer := frames[|frames| - 1], frames[..|frames| - 1];
      assert frames == outer + [top];
      if top.todo == [] { RenderLeaving(start, outer, top.node); } else {
        var left, x := top.todo[..|top.todo| - 1], top.todo[|top.todo| - 1];
        assert top.todo == left + [x] && top == Frame(top.node, left + [x]);
        RenderTask(start, outer, top.node, left, x);
      }
    }
  }

  lemma TaskIsNext(objects: Store, root: ObjectId, marks: map<ObjectId, nat>, start: seq<ObjectId>, frames: seq<Frame>,
                   order: seq<ObjectId>, x: ObjectId)
    requires Walking(objects, root, marks, start, frames, order) && TopTask(start, frames, x)
    ensures Next(objects, root, Nodes(frames), x)
  {
    hide Marked, Owns;
    if frames != [] {
      assert FrameHolds(objects, frames, order, |frames| - 1);
      assert x in frames[|frames| - 1].todo;
    }
  }

  /** Dropping a task is fine once its object is finished, or about to be walked in a new frame. */
  lemma DropHolds(objects: Store, frames: seq<Frame>, order: seq<ObjectId>, start: seq<ObjectId>, x: ObjectId,
                  above: seq<Frame>)
    requires TopTask(start, frames, x) && frames != []
    requires forall i :: 0 <= i < |frames| ==> FrameHolds(objects, frames, order, i)
    requires (above == [] && x in order) || (|above| == 1 && above[0].node == x && FrameHolds(objects, above, order, 0))
    ensures forall i :: 0 <= i < |DropTask(frames) + above| ==> FrameHolds(objects, DropTask(frames) + above, order, i)
  {
    hide Owns;
    var dropped := DropTask(frames) + above;
    var k := |frames| - 1;
    assert |DropTask(frames)| == |frames|;
    forall i | 0 <= i < |dropped| ensures FrameHolds(objects, dropped, order, i) {
      if i < k {
        assert FrameHolds(objects, frames, order, i);
        assert dropped[i] == frames[i] && dropped[i + 1].node == frames[i + 1].node;
      } else if i == k {
        assert FrameHolds(objects, frames, order, k);
        var todo := frames[k].todo;
        assert todo == todo[..|todo| - 1] + [x];
        assert dropped[k] == Frame(frames[k].node, todo[..|todo| - 1]);
      } else {
        assert FrameHolds(objects, above, order, 0);
        assert dropped[i] == above[0];
      }
    }
  }

  lemma DropNodes(frames: seq<Frame>)
    ensures Nodes(DropTask(frames)) == Nodes(frames) && |DropTask(frames)| == |frames|
    ensures forall i :: 0 <= i < |frames| ==> DropTask(frames)[i].node == frames[i].node
  {}

  /** A task whose object is already finished is dropped. */
  lemma SkipTask(objects: Store, root: ObjectId, marks: map<ObjectId, nat>, start: seq<ObjectId>, frames: seq<Frame>,
                 order: seq<ObjectId>, x: ObjectId)
    requires Walking(objects, root, marks, start, frames, order) && TopTask(start, frames, x) && x in marks
             && marks[x] == 2
    ensures Walking(objects, root, marks, if frames == [] then [] else start, DropTask(frames), order)
  {
    hide Marked, FrameHolds;
    DropNodes(frames);
    MarkedDone(objects, root, marks, Nodes(frames), order, x);
    if frames != [] {
      DropHolds(objects, frames, order, start, x, []);
      assert DropTask(frames) + [] == DropTask(frames);
    }
  }

  /** Entering an object pushes a frame with everything it owns. */
  lemma PushTask(objects: Store, root: ObjectId, marks: map<ObjectId, nat>, start: seq<ObjectId>, frames: seq<Frame>,
                 order: seq<ObjectId>, x: ObjectId, todo: seq<ObjectId>)
    requires Walking(objects, root, marks, start, frames, order) && TopTask(start, frames, x) && x !in marks
             && x in objects
    requires forall y :: y in todo <==> Owns(objects, x, y)
    ensures Walking(objects, root, marks[x := 1], [], DropTask(frames) + [Frame(x, todo)], order)
  {
    hide Marked, FrameHolds, Owns;
    var dropped, grown := DropTask(frames), DropTask(frames) + [Frame(x, todo)];
    DropNodes(frames);
    TaskIsNext(objects, root, marks, start, frames, order, x);
    EnterObject(objects, root, marks, Nodes(frames), order, x);
    assert Nodes(grown) == Nodes(frames) + [x];
    NotOpen(objects, root, marks, Nodes(frames), order, x);
    forall i | 0 <= i < |frames| ensures frames[i].node != x { assert Nodes(frames)[i] == frames[i].node; }
    NewFrame(objects, x, todo, order);
    if frames != [] {
      DropHolds(objects, frames, order, start, x, [Frame(x, todo)]);
    } else {
      assert grown == [Frame(x, todo)];
    }
  }

  lemma NewFrame(objects: Store, x: ObjectId, todo: seq<ObjectId>, order: seq<ObjectId>)
    requires forall y :: y in todo <==> Owns(objects, x, y)
    ensures FrameHolds(objects, [Frame(x, todo)], order, 0)
  {}

  /** A leave marker on top: the object owns only finished objects and is finished itself. */
  lemma PopFrame(objects: Store, root: ObjectId, marks: map<ObjectId, nat>, start: seq<ObjectId>, frames: seq<Frame>,
                 order: seq<ObjectId>, x: ObjectId)
    requires Walking(objects, root, marks, start, frames, order) && frames != [] && frames[|frames| - 1] == Frame(x, [])
    ensures Walking(objects, root, marks[x := 2], start, frames[..|frames| - 1], order + [x])
  {
    hide Marked, Owns;
    var k := |frames| - 1;
    var outer := frames[..k];
    assert FrameHolds(objects, frames, order, k);
    assert Nodes(frames) == Nodes(outer) + [x];
    forall i | 0 <= i < k ensures Nodes(outer)[i] != x { assert frames[i].node != frames[k].node; }
    LeaveObject(objects, root, marks, Nodes(outer), x, order);
    forall i | 0 <= i < |outer| ensures FrameHolds(objects, outer, order + [x], i) {
      assert FrameHolds(objects, frames, order, i);
    }
  }

  function ReverseOwned(references: seq<Reference>, n: nat): (todo: seq<ObjectId>)
    requires n <= |references|
    ensures forall y :: y in todo <==> y in OwnedTargets(references[n..])
    decreases |references| - n
  {
    if n == |references| then []
    else if references[n].kind == OWNING then
      assert references[n..][1..] == references[n + 1..];
      ReverseOwned(references, n + 1) + [references[n].target]
    else
      assert references[n..][1..] == references[n + 1..];
      ReverseOwned(references, n + 1)
  }

  /** The push loop over reversed references. */
  method PushOwned(stack: seq<Task>, references: seq<Reference>) returns (pushed: seq<Task>)
    ensures pushed == stack + Entries(ReverseOwned(references, 0))
  {
    pushed := stack;
    var i := |references|;
    assert stack + Entries([]) == stack;
    while i > 0
      invariant 0 <= i <= |references| && pushed == stack + Entries(ReverseOwned(references, i))
    {
      i := i - 1;
      if references[i].kind == OWNING {
        EntriesAppend(ReverseOwned(references, i + 1), references[i].target);
        pushed := pushed + [Task(references[i].target, false)];
      }
    }
  }

  /** The iterative validate_closure. */
  method ValidateClosureIteratively(objects: Store, root: ObjectId) returns (outcome: Outcome)
    ensures Correct(objects, root, outcome)
  {
    hide Walking, Render, Correct, TopTask, DropTask, Reachable, OnCycle, OwnedTargets, ReverseOwned, Entries;
    var marks: map<ObjectId, nat>, stack := map[], [Task(root, false)];
    ghost var start, frames: seq<Frame>, order: seq<ObjectId> := [root], [], [];
    WalkStarts(objects, root);
    while stack != []
      invariant Walking(objects, root, marks, start, frames, order) && stack == Render(start, frames)
      decreases |objects.Keys - marks.Keys|, |stack|
    {
      StackTop(objects, root, marks, start, frames, order, stack);
      var task := stack[|stack| - 1];
      stack := stack[..|stack| - 1];
      if task.leaving {
        PopFrame(objects, root, marks, start, frames, order, task.id);
        LeaveKeys(objects, root, marks, start, frames, order, task.id);
        marks := marks[task.id := 2];
        frames, order := frames[..|frames| - 1], order + [task.id];
      } else {
        var x := task.id;
        TaskFacts(objects, root, marks, start, frames, order, x);
        if x in marks && marks[x] == 1 { return Cycle(x); }
        if x in marks && marks[x] == 2 {
          SkipTask(objects, root, marks, start, frames, order, x);
          start, frames := if frames == [] then [] else start, DropTask(frames);
        } else {
          if x !in objects { return Missing(x); }
          ghost var todo := ReverseOwned(objects[x].references, 0);
          EnterTask(objects, root, marks, start, frames, order, x, stack);
          marks := marks[x := 1];
          stack := PushOwned(stack + [Task(x, true)], objects[x].references);
          start, frames := [], DropTask(frames) + [Frame(x, todo)];
        }
      }
    }
    StackEmpty(objects, root, marks, start, frames, order);
    AllFinished(objects, root, marks, order);
    return Closed(marks.Keys);
  }

  /** Entering an object: the new nest of frames and the stack it stands for. */
  lemma EnterTask(objects: Store, root: ObjectId, marks: map<ObjectId, nat>, start: seq<ObjectId>, frames: seq<Frame>,
                  order: seq<ObjectId>, x: ObjectId, below: seq<Task>)
    requires Walking(objects, root, marks, start, frames, order) && TopTask(start, frames, x) && x !in marks
             && x in objects
    requires below == Render(if frames == [] then [] else start, DropTask(frames))
    ensures var todo := ReverseOwned(objects[x].references, 0);
            && Walking(objects, root, marks[x := 1], [], DropTask(frames) + [Frame(x, todo)], order)
            && Render([], DropTask(frames) + [Frame(x, todo)]) == below + [Task(x, true)] + Entries(todo)
            && |objects.Keys - marks[x := 1].Keys| < |objects.Keys - marks.Keys|
  {
    hide Walking, Render, TopTask, DropTask, OwnedTargets, ReverseOwned, Entries;
    var todo := ReverseOwned(objects[x].references, 0);
    Entered(objects, marks, x);
    TodoIsOwned(objects, x);
    PushTask(objects, root, marks, start, frames, order, x, todo);
    StartEmpty(objects, root, marks, start, frames, order, x);
    RenderPush([], DropTask(frames), Frame(x, todo));
    assert below + [Task(x, true)] + Entries(todo) == below + ([Task(x, true)] + Entries(todo));
  }

  lemma WalkStarts(objects: Store, root: ObjectId)
    ensures Walking(objects, root, map[], [root], [], []) && Render([root], []) == [Task(root, false)]
  {}

  lemma StackTop(objects: Store, root: ObjectId, marks: map<ObjectId, nat>, start: seq<ObjectId>, frames: seq<Frame>,
                 order: seq<ObjectId>, stack: seq<Task>)
    requires Walking(objects, root, marks, start, frames, order) && stack == Render(start, frames) && stack != []
    ensures var task, rest := stack[|stack| - 1], stack[..|stack| - 1];
            if task.leaving
            then frames != [] && frames[|frames| - 1] == Frame(task.id, [])
                 && rest == Render(start, frames[..|frames| - 1])
            else TopTask(start, frames, task.id) && rest == Render(if frames == [] then [] else start, DropTask(frames))
  {
    hide Marked, FrameHolds, TopTask, DropTask, Render;
    if frames == [] && start == [] { RenderNothing(); }
    RenderTop(start, frames);
  }

  lemma RenderNothing()
    ensures Render([], []) == []
  {}

  lemma LeaveKeys(objects: Store, root: ObjectId, marks: map<ObjectId, nat>, start: seq<ObjectId>, frames: seq<Frame>,
                  order: seq<ObjectId>, x: ObjectId)
    requires Walking(objects, root, marks, start, frames, order) && frames != [] && frames[|frames| - 1].node == x
    ensures marks[x := 2].Keys == marks.Keys
  {
    hide FrameHolds, Reachable, Finished, Path;
    assert Nodes(frames)[|frames| - 1] == x;
  }

  lemma TaskFacts(objects: Store, root: ObjectId, marks: map<ObjectId, nat>, start: seq<ObjectId>, frames: seq<Frame>,
                  order: seq<ObjectId>, x: ObjectId)
    requires Walking(objects, root, marks, start, frames, order) && TopTask(start, frames, x)
    ensures x in marks && marks[x] == 1 ==> Correct(objects, root, Cycle(x))
    ensures x in marks ==> marks[x] == 1 || marks[x] == 2
    ensures x !in objects ==> Correct(objects, root, Missing(x))
  {
    hide Marked, FrameHolds, Reachable, OnCycle, TopTask;
    TaskIsNext(objects, root, marks, start, frames, order, x);
    NextReachable(objects, root, marks, Nodes(frames), order, x);
    if x in marks {
      MarkedDone(objects, root, marks, Nodes(frames), order, x);
      if marks[x] == 1 { OpenIsCycle(objects, root, marks, Nodes(frames), order, x); }
    }
  }

  lemma TodoIsOwned(objects: Store, x: ObjectId)
    requires x in objects
    ensures forall y :: y in ReverseOwned(objects[x].references, 0) <==> Owns(objects, x, y)
  {
    assert objects[x].references[0..] == objects[x].references;
  }

  /** The initial task is gone as soon as a frame exists. */
  lemma StartEmpty(objects: Store, root: ObjectId, marks: map<ObjectId, nat>, start: seq<ObjectId>, frames: seq<Frame>,
                   order: seq<ObjectId>, x: ObjectId)
    requires Walking(objects, root, marks, start, frames, order)
    ensures (if frames == [] then [] else start) == []
  {
    hide Marked, FrameHolds;
  }

  lemma StackEmpty(objects: Store, root: ObjectId, marks: map<ObjectId, nat>, start: seq<ObjectId>, frames: seq<Frame>,
                   order: seq<ObjectId>)
    requires Walking(objects, root, marks, start, frames, order) && Render(start, frames) == []
    ensures frames == [] && Marked(objects, root, marks, [], order) && root in order
  {
    hide FrameHolds, Reachable, Finished, Path;
    if frames != [] || start != [] { RenderTop(start, frames); }
    assert Nodes(frames) == [];
  }
}
