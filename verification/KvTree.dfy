/**
 * The B+ checkpoint tree. Decoding marks every page it visits, merges the children's dictionaries and
 * checks each child against its parent's pointer. The contracts say that a page is accepted exactly when
 * it is the root of a well-formed tree of unmarked pages, and the lemmas what such a tree is.
 */
module KvTree {
  import opened Bytes
  import opened Outcomes
  import opened Objects
  import opened Marks
  import opened KvValues
  import opened KvPages

  const PAGE_BYTES: nat := 4096

  datatype PageTree =
    | LeafPage(entries: Entries)
    | BranchPage(level: nat, pointers: seq<Pointer>, children: seq<PageTree>)

  datatype PageResult = PageResult(entries: Entries, minimum: Key, maximum: Key, level: nat, slots: nat)

  /** The entries of a tree, left to right. */
  function Flatten(t: PageTree): Entries
    decreases t
  {
    match t
    case LeafPage(entries) => entries
    case BranchPage(_, _, children) => FlattenList(children)
  }

  function FlattenList(children: seq<PageTree>): Entries
    decreases children
  {
    if children == [] then [] else FlattenList(children[..|children| - 1]) + Flatten(children[|children| - 1])
  }

  function Level(t: PageTree): nat {
    if t.LeafPage? then 0 else t.level
  }

  function Slots(t: PageTree): nat {
    if t.LeafPage? then |t.entries| else |t.pointers|
  }

  function MinKey(entries: Entries): Key {
    if entries == [] then [] else entries[0].key
  }

  function MaxKey(entries: Entries): Key {
    if entries == [] then [] else entries[|entries| - 1].key
  }

  function Summary(t: PageTree): PageResult {
    PageResult(Flatten(t), MinKey(Flatten(t)), MaxKey(Flatten(t)), Level(t), Slots(t))
  }

  // ---------------------------------------------------------------- well-formed trees of pages

  predicate PageRecord(r: Record) {
    r.version == 4 && r.objectClass == 1 && r.logicalBytes == 0
  }

  /** Only a page that cannot be split may exceed the page size. */
  predicate PageFits(r: Record, slots: nat, unsplittable: nat) {
    RetainedBytes(r) <= PAGE_BYTES || slots <= unsplittable
  }

  /** Child i agrees with its pointer and starts behind the child before it. */
  ghost predicate LinkHolds(level: nat, pointers: seq<Pointer>, children: seq<PageTree>, i: nat)
    requires i < |children| <= |pointers|
  {
    && Level(children[i]) + 1 == level
    && pointers[i].lower == MinKey(Flatten(children[i]))
    && TotalsOf(Flatten(children[i])) == Accepted(pointers[i].totals)
    && (i > 0 ==> Less(MaxKey(Flatten(children[i - 1])), MinKey(Flatten(children[i]))))
  }

  /** The object is the root page of this tree. */
  ghost predicate PageHolds(reader: Reader, id: ObjectId, t: PageTree)
    decreases t, 1
  {
    id in reader.objects && PageRecord(reader.objects[id]) &&
    var r := reader.objects[id];
    match t
    case LeafPage(entries) => r.kind == 5 && LeafHolds(reader, r, entries) && PageFits(r, |entries|, 1)
    case BranchPage(level, pointers, children) =>
      r.kind == 6 && BranchTreeHolds(reader, r, t) && PageFits(r, |pointers|, 3)
  }

  ghost predicate BranchTreeHolds(reader: Reader, r: Record, t: PageTree)
    requires t.BranchPage?
    decreases t, 0
  {
    && |t.children| == |t.pointers|
    && BranchHolds(reader, r, t.level, Sums(Flatten(t)), t.pointers)
    && (forall i :: 0 <= i < |t.children| ==> PageHolds(reader, t.pointers[i].target, t.children[i])
                                              && LinkHolds(t.level, t.pointers, t.children, i))
  }

  /** The pages of a tree in the order they are visited. */
  function Visits(id: ObjectId, t: PageTree): seq<ObjectId>
    decreases t
  {
    match t
    case LeafPage(_) => [id]
    case BranchPage(_, pointers, children) => [id] + VisitsList(pointers, children)
  }

  function VisitsList(pointers: seq<Pointer>, children: seq<PageTree>): seq<ObjectId>
    decreases children
  {
    if children == [] || |children| > |pointers| then []
    else
      var last := |children| - 1;
      VisitsList(pointers, children[..last]) + Visits(pointers[last].target, children[last])
  }

  /** A fresh visit of all children is a fresh visit of the first k. */
  lemma {:induction false} FreshPrefix(marks: set<ObjectId>, pointers: seq<Pointer>, children: seq<PageTree>, k: nat)
    requires k <= |children| <= |pointers| && Fresh(marks, VisitsList(pointers, children))
    ensures Fresh(marks, VisitsList(pointers, children[..k]))
    decreases |children|
  {
    hide Fresh, Elements;
    if k == |children| { assert children[..k] == children; } else {
      var last := |children| - 1;
      FreshAppend(marks, VisitsList(pointers, children[..last]), Visits(pointers[last].target, children[last]));
      assert children[..last][..k] == children[..k];
      FreshPrefix(marks, pointers, children[..last], k);
    }
  }

  /** Visiting child k next is fresh after the first k. */
  lemma FreshChild(marks: set<ObjectId>, pointers: seq<Pointer>, children: seq<PageTree>, k: nat)
    requires k < |children| <= |pointers| && Fresh(marks, VisitsList(pointers, children))
    ensures Fresh(marks + Elements(VisitsList(pointers, children[..k])), Visits(pointers[k].target, children[k]))
  {
    hide Fresh, Elements;
    FreshPrefix(marks, pointers, children, k + 1);
    assert children[..k + 1][..k] == children[..k];
    FreshAppend(marks, VisitsList(pointers, children[..k]), Visits(pointers[k].target, children[k]));
  }

  // ---------------------------------------------------------------- what a well-formed tree is

  lemma AscendingJoin(a: Entries, b: Entries)
    requires Ascending(a) && Ascending(b)
    requires a != [] && b != [] ==> Less(MaxKey(a), MinKey(b))
    ensures Ascending(a + b)
  {
    var s := a + b;
    forall i, j | 0 <= i < j < |s| ensures Less(s[i].key, s[j].key) {
      if i < |a| <= j {
        if i < |a| - 1 { LessTransitive(a[i].key, MaxKey(a), MinKey(b)); }
        if j > |a| { LessTransitive(a[i].key, MinKey(b), b[j - |a|].key); }
      }
    }
  }

  /** Consecutive children, each starting behind the one before it, flatten to ascending entries. */
  lemma {:induction false} ListAscends(level: nat, pointers: seq<Pointer>, children: seq<PageTree>)
    requires |children| <= |pointers|
    requires forall i :: 0 <= i < |children| ==> LinkHolds(level, pointers, children, i) && Flatten(children[i]) != []
                                                 && Ascending(Flatten(children[i]))
    ensures Ascending(FlattenList(children))
    ensures children != [] ==> FlattenList(children) != []
                               && MinKey(FlattenList(children)) == MinKey(Flatten(children[0]))
    ensures children != [] ==> MaxKey(FlattenList(children)) == MaxKey(Flatten(children[|children| - 1]))
    decreases |children|
  {
    hide Ascending, Flatten;
    if children == [] { NothingAscends(); } else {
      var last := |children| - 1;
      var init := children[..last];
      forall i | 0 <= i < last ensures LinkHolds(level, pointers, init, i) {
        assert LinkHolds(level, pointers, children, i);
      }
      ListAscends(level, pointers, init);
      assert LinkHolds(level, pointers, children, last);
      AscendingJoin(FlattenList(init), Flatten(children[last]));
    }
  }

  lemma NothingAscends()
    ensures Ascending([])
  {}

  lemma LeafAscends(reader: Reader, r: Record, entries: Entries)
    requires LeafHolds(reader, r, entries)
    ensures Ascending(entries) && entries != []
  {
    hide SlotsHold, OccursAt;
    forall k | 0 < k < |entries| ensures Less(entries[k - 1].key, entries[k].key) {
      SlotsOrdered(reader, r, entries, 0, LEAF_HEADER_SIZE, 0, k);
    }
    forall i, j | 0 <= i < j < |entries| ensures Less(entries[i].key, entries[j].key) { KeysAscend(entries, i, j); }
  }

  lemma {:induction false} SlotsOrdered(reader: Reader, r: Record, entries: Entries, from: nat, offset: nat,
                                        references: nat, k: nat)
    requires from <= k < |entries| && k > 0 && SlotsHold(reader, r, entries, from, offset, references)
    ensures Less(entries[k - 1].key, entries[k].key)
    decreases k - from
  {
    hide SlotHolds, SlotBytes;
    if from < k {
      SlotsOrdered(reader, r, entries, from + 1, offset + |SlotBytes(entries[from])|,
                   references + Spilled(entries[from]), k);
    }
  }

  /** Every accepted tree of pages holds its keys in strictly ascending order. */
  lemma {:induction false} PageAscends(reader: Reader, id: ObjectId, t: PageTree)
    requires PageHolds(reader, id, t)
    ensures Ascending(Flatten(t)) && Flatten(t) != []
    decreases t
  {
    hide Ascending, LeafHolds, BranchHolds, LinkHolds;
    match t
    case LeafPage(entries) => LeafAscends(reader, reader.objects[id], entries);
    case BranchPage(level, pointers, children) =>
      forall i | 0 <= i < |children| ensures Flatten(children[i]) != [] && Ascending(Flatten(children[i])) {
        PageAscends(reader, pointers[i].target, children[i]);
      }
      BranchWidth(reader, reader.objects[id], level, Sums(Flatten(t)), pointers);
      ListAscends(level, pointers, children);
  }

  lemma BranchWidth(reader: Reader, r: Record, level: nat, declared: Totals, pointers: seq<Pointer>)
    requires BranchHolds(reader, r, level, declared, pointers)
    ensures 2 <= |pointers| <= PAGE_SLOTS && 1 <= level <= MAX_LEVEL && LowersAscend(pointers)
  {}

  /** The keys of child i lie between its own lower bound and the next one. */
  lemma ChildRange(reader: Reader, id: ObjectId, t: PageTree, i: nat, k: nat)
    requires PageHolds(reader, id, t) && t.BranchPage? && i < |t.children| == |t.pointers|
             && k < |Flatten(t.children[i])|
    ensures LessEq(t.pointers[i].lower, Flatten(t.children[i])[k].key)
    ensures i + 1 < |t.pointers| ==> Less(Flatten(t.children[i])[k].key, t.pointers[i + 1].lower)
  {
    hide BranchHolds, LeafHolds, Flatten, TotalsOf;
    var keys := Flatten(t.children[i]);
    assert LinkHolds(t.level, t.pointers, t.children, i);
    PageAscends(reader, t.pointers[i].target, t.children[i]);
    if i + 1 < |t.pointers| {
      assert LinkHolds(t.level, t.pointers, t.children, i + 1);
      if k < |keys| - 1 { LessTransitive(keys[k].key, MaxKey(keys), t.pointers[i + 1].lower); }
    }
  }

  function SumTotals(pointers: seq<Pointer>, n: nat): Totals
    requires n <= |pointers|
  {
    if n == 0 then Totals(0, 0, 0) else AddTotals(SumTotals(pointers, n - 1), pointers[n - 1].totals)
  }

  /** A branch's totals are the sums of the totals its pointers declare. */
  lemma {:induction false} ListTotals(level: nat, pointers: seq<Pointer>, children: seq<PageTree>)
    requires |children| <= |pointers|
    requires forall i :: 0 <= i < |children| ==> LinkHolds(level, pointers, children, i)
    ensures Sums(FlattenList(children)) == SumTotals(pointers, |children|)
    decreases |children|
  {
    hide Flatten;
    if children != [] {
      var last := |children| - 1;
      var init := children[..last];
      forall i | 0 <= i < last ensures LinkHolds(level, pointers, init, i) {
        assert LinkHolds(level, pointers, children, i);
      }
      ListTotals(level, pointers, init);
      assert LinkHolds(level, pointers, children, last);
      SumsAppend(FlattenList(init), Flatten(children[last]));
    }
  }

  lemma BranchTotals(reader: Reader, id: ObjectId, t: PageTree)
    requires PageHolds(reader, id, t) && t.BranchPage?
    ensures Sums(Flatten(t)) == SumTotals(t.pointers, |t.pointers|)
  {
    hide BranchHolds, LinkHolds, SumTotals, Sums;
    ListTotals(t.level, t.pointers, t.children);
  }

  ghost predicate LeavesAt(t: PageTree, depth: nat)
    decreases t
  {
    match t
    case LeafPage(_) => depth == 0
    case BranchPage(_, _, children) => depth > 0 && forall i :: 0 <= i < |children| ==> LeavesAt(children[i], depth - 1)
  }

  /**
   * All leaves are at one depth, the level, and a tree of level l holds 2^l to 2^(6 l + 6), that is 64^(l+1), entries.
   */
  lemma {:induction false} PageDepth(reader: Reader, id: ObjectId, t: PageTree)
    requires PageHolds(reader, id, t)
    ensures LeavesAt(t, Level(t)) && Level(t) <= MAX_LEVEL
    ensures Pow2(Level(t)) <= |Flatten(t)| <= Pow2(6 * Level(t) + 6)
    decreases t
  {
    hide BranchHolds, LeafHolds, LinkHolds, Pow2, Flatten;
    if t.LeafPage? {
      LeafSize(reader, reader.objects[id], t.entries);
    } else {
      BranchWidth(reader, reader.objects[id], t.level, Sums(Flatten(t)), t.pointers);
      forall i | 0 <= i < |t.children|
        ensures LeavesAt(t.children[i], t.level - 1)
                && Pow2(t.level - 1) <= |Flatten(t.children[i])| <= Pow2(6 * t.level)
      {
        LinkLevel(t.level, t.pointers, t.children, i);
        PageDepth(reader, t.pointers[i].target, t.children[i]);
      }
      ListSize(t.children, Pow2(t.level - 1), Pow2(6 * t.level));
      PowerStep(t.level, |t.children|);
      BranchFlattens(t);
    }
  }

  lemma BranchFlattens(t: PageTree)
    requires t.BranchPage?
    ensures Flatten(t) == FlattenList(t.children)
  {}

  lemma LinkLevel(level: nat, pointers: seq<Pointer>, children: seq<PageTree>, i: nat)
    requires i < |children| <= |pointers| && LinkHolds(level, pointers, children, i)
    ensures Level(children[i]) + 1 == level
  {}

  lemma LeafSize(reader: Reader, r: Record, entries: Entries)
    requires LeafHolds(reader, r, entries)
    ensures Pow2(0) <= |entries| <= Pow2(6) && Flatten(LeafPage(entries)) == entries
  {
    SixBits(0);
  }

  lemma SixBits(n: nat)
    ensures Pow2(n + 6) == 64 * Pow2(n)
  {
    assert Pow2(n + 2) == 4 * Pow2(n);
    assert Pow2(n + 4) == 4 * Pow2(n + 2);
  }

  lemma PowerStep(level: nat, n: nat)
    requires level >= 1 && 2 <= n <= PAGE_SLOTS
    ensures Pow2(level) <= n * Pow2(level - 1) && n * Pow2(6 * level) <= Pow2(6 * level + 6)
  {
    assert Pow2(level) == 2 * Pow2(level - 1);
    SixBits(6 * level);
    Widen(2, n, Pow2(level - 1));
    Widen(n, PAGE_SLOTS, Pow2(6 * level));
  }

  lemma Widen(n: nat, m: nat, x: nat)
    requires n <= m
    ensures n * x <= m * x
  {}

  /** n sizes between two bounds, and one more. */
  lemma AddOne(n: nat, total: nat, size: nat, low: nat, high: nat)
    requires n * low <= total <= n * high && low <= size <= high
    ensures (n + 1) * low <= total + size <= (n + 1) * high
  {}

  lemma {:induction false} ListSize(children: seq<PageTree>, low: nat, high: nat)
    requires forall i :: 0 <= i < |children| ==> low <= |Flatten(children[i])| <= high
    ensures |children| * low <= |FlattenList(children)| <= |children| * high
    decreases |children|
  {
    hide Flatten;
    if children != [] {
      var last := |children| - 1;
      ListSize(children[..last], low, high);
      AddOne(last, |FlattenList(children[..last])|, |Flatten(children[last])|, low, high);
    }
  }

  // ---------------------------------------------------------------- decoding

  /** The unmarked objects: what shrinks on every recursive call. */
  function Unmarked(reader: Reader, marks: set<ObjectId>): set<ObjectId> {
    reader.objects.Keys - marks
  }

  lemma UnmarkedShrinks(reader: Reader, marks: set<ObjectId>, more: set<ObjectId>)
    requires marks <= more
    ensures |Unmarked(reader, more)| <= |Unmarked(reader, marks)|
    ensures (exists id :: id in more && id in Unmarked(reader, marks)) ==>
              |Unmarked(reader, more)| < |Unmarked(reader, marks)|
  {
    var before, after := Unmarked(reader, marks), Unmarked(reader, more);
    SubsetSize(after, before);
    if id :| id in more && id in before {
      SubsetSize(after, before - {id});
    }
  }

  /** The first |children| pointers have been followed; every tree the record could be begins with these children. */
  ghost predicate BranchReadTo(reader: Reader, r: Record, info: BranchInfo, marks: set<ObjectId>, now: set<ObjectId>,
                               children: seq<PageTree>)
  {
    && |children| <= |info.pointers|
    && now == marks + Elements(VisitsList(info.pointers, children)) && Fresh(marks, VisitsList(info.pointers, children))
    && (forall i :: 0 <= i < |children| ==> PageHolds(reader, info.pointers[i].target, children[i])
                                            && LinkHolds(info.level, info.pointers, children, i))
    && (forall t: PageTree :: t.BranchPage? && BranchTreeHolds(reader, r, t)
                              && Fresh(marks, VisitsList(t.pointers, t.children)) ==>
          StartsWith(t, info, children))
  }

  ghost predicate StartsWith(t: PageTree, info: BranchInfo, children: seq<PageTree>)
    requires t.BranchPage?
  {
    && t.level == info.level && t.pointers == info.pointers && |t.children| == |t.pointers|
    && Sums(Flatten(t)) == info.declared
    && |children| <= |t.children| && t.children[..|children|] == children
  }

  lemma BranchStart(reader: Reader, r: Record, info: BranchInfo, marks: set<ObjectId>)
    requires forall level: nat, declared, pointers :: BranchHolds(reader, r, level, declared, pointers) ==>
               info == BranchInfo(level, declared, pointers)
    ensures BranchReadTo(reader, r, info, marks, marks, [])
  {
    hide BranchHolds, Flatten, Sums;
    assert marks + Elements([]) == marks;
  }

  /** If the next child cannot be read, or does not fit its pointer, the record is no branch at all. */
  lemma BranchAdvance(reader: Reader, r: Record, info: BranchInfo, marks: set<ObjectId>, now: set<ObjectId>,
                      children: seq<PageTree>,
                      child: Result<PageResult>, tree: PageTree, after: set<ObjectId>)
    requires BranchReadTo(reader, r, info, marks, now, children) && |children| < |info.pointers|
    requires var target := info.pointers[|children|].target;
             && (child.Accepted? ==> PageHolds(reader, target, tree) && child.value == Summary(tree)
                                     && Fresh(now, Visits(target, tree))
                                     && after == now + Elements(Visits(target, tree)))
             && (forall t :: PageHolds(reader, target, t) && Fresh(now, Visits(target, t)) ==>
                   child.Accepted? && tree == t)
    ensures if child.Accepted? && ChildFits(info, children, child.value)
            then BranchReadTo(reader, r, info, marks, after, children + [tree])
            else forall t: PageTree :: t.BranchPage? && BranchTreeHolds(reader, r, t) ==>
              !Fresh(marks, VisitsList(t.pointers, t.children))
  {
    hide Fresh, Elements, PageHolds, LinkHolds, BranchHolds, Flatten, Sums, ChildFits, Summary, Visits, StartsWith;
    forall t: PageTree | t.BranchPage? && BranchTreeHolds(reader, r, t)
        && Fresh(marks, VisitsList(t.pointers, t.children))
      ensures child.Accepted? && ChildFits(info, children, child.value) && StartsWith(t, info, children + [tree])
    {
      BranchNext(reader, r, info, marks, now, children, child, tree, t);
    }
    if child.Accepted? && ChildFits(info, children, child.value) {
      BranchGrows(reader, info, marks, now, children, child.value, tree, after);
    }
  }

  /** What the loop body of decode_branch checks of a child. */
  ghost predicate ChildFits(info: BranchInfo, children: seq<PageTree>, child: PageResult)
    requires |children| < |info.pointers|
  {
    var p := info.pointers[|children|];
    && p.lower == child.minimum && child.level + 1 == info.level && TotalsOf(child.entries) == Accepted(p.totals)
    && (children != [] ==> Less(MaxKey(Flatten(children[|children| - 1])), child.minimum))
  }

  lemma ChildFitsIsLink(info: BranchInfo, children: seq<PageTree>, tree: PageTree)
    requires |children| < |info.pointers|
    ensures ChildFits(info, children, Summary(tree)) <==>
            LinkHolds(info.level, info.pointers, children + [tree], |children|)
  {
    hide Flatten, TotalsOf;
  }

  lemma LinkOfPrefix(level: nat, pointers: seq<Pointer>, children: seq<PageTree>, k: nat, i: nat)
    requires i < k <= |children| <= |pointers|
    ensures LinkHolds(level, pointers, children[..k], i) <==> LinkHolds(level, pointers, children, i)
  {
    hide Flatten, TotalsOf;
  }

  lemma BranchNext(reader: Reader, r: Record, info: BranchInfo, marks: set<ObjectId>, now: set<ObjectId>,
                   children: seq<PageTree>,
                   child: Result<PageResult>, tree: PageTree, t: PageTree)
    requires BranchReadTo(reader, r, info, marks, now, children) && |children| < |info.pointers|
    requires var target := info.pointers[|children|].target;
             && (child.Accepted? ==> child.value == Summary(tree))
             && (forall t :: PageHolds(reader, target, t) && Fresh(now, Visits(target, t)) ==>
                   child.Accepted? && tree == t)
    requires t.BranchPage? && BranchTreeHolds(reader, r, t) && Fresh(marks, VisitsList(t.pointers, t.children))
    ensures child.Accepted? && ChildFits(info, children, child.value) && StartsWith(t, info, children + [tree])
  {
    hide Fresh, Elements, PageHolds, LinkHolds, BranchHolds, Flatten, Sums, ChildFits, Summary, Visits, VisitsList;
    var k := |children|;
    assert StartsWith(t, info, children);
    FreshChild(marks, t.pointers, t.children, k);
    assert PageHolds(reader, t.pointers[k].target, t.children[k]) && LinkHolds(t.level, t.pointers, t.children, k);
    assert t.children[..k + 1] == children + [tree];
    LinkOfPrefix(t.level, t.pointers, t.children, k + 1, k);
    ChildFitsIsLink(info, children, tree);
  }

  lemma BranchGrows(reader: Reader, info: BranchInfo, marks: set<ObjectId>, now: set<ObjectId>, children: seq<PageTree>,
                    child: PageResult, tree: PageTree, after: set<ObjectId>)
    requires |children| < |info.pointers| && child == Summary(tree) && ChildFits(info, children, child)
    requires now == marks + Elements(VisitsList(info.pointers, children))
             && Fresh(marks, VisitsList(info.pointers, children))
    requires forall i :: 0 <= i < |children| ==> PageHolds(reader, info.pointers[i].target, children[i])
                                                 && LinkHolds(info.level, info.pointers, children, i)
    requires var target := info.pointers[|children|].target;
             PageHolds(reader, target, tree) && Fresh(now, Visits(target, tree))
             && after == now + Elements(Visits(target, tree))
    ensures var grown := children + [tree];
            && after == marks + Elements(VisitsList(info.pointers, grown))
            && Fresh(marks, VisitsList(info.pointers, grown))
            && (forall i :: 0 <= i < |grown| ==> PageHolds(reader, info.pointers[i].target, grown[i])
                                                 && LinkHolds(info.level, info.pointers, grown, i))
  {
    hide Fresh, Elements, PageHolds, LinkHolds, ChildFits, Summary, Visits;
    var grown := children + [tree];
    assert grown[..|children|] == children;
    FreshAppend(marks, VisitsList(info.pointers, children), Visits(info.pointers[|children|].target, tree));
    ChildFitsIsLink(info, children, tree);
    forall i | 0 <= i < |children| ensures LinkHolds(info.level, info.pointers, grown, i) {
      LinkOfPrefix(info.level, info.pointers, grown, |children|, i);
    }
  }

  /** The running state of the loop: entries, minimum and maximum summarise the children so far. */
  ghost predicate Gathered(children: seq<PageTree>, entries: Entries, minimum: Option<Key>, maximum: Option<Key>) {
    && entries == FlattenList(children)
    && (minimum == if children == [] then None else Some(MinKey(entries)))
    && (maximum == if children == [] then None else Some(MaxKey(entries)))
  }

  /** Merging the next child's dictionary overwrites nothing. */
  lemma GatherNext(reader: Reader, r: Record, info: BranchInfo, marks: set<ObjectId>, now: set<ObjectId>,
                   children: seq<PageTree>, tree: PageTree,
                   entries: Entries, minimum: Option<Key>, maximum: Option<Key>)
    requires BranchReadTo(reader, r, info, marks, now, children + [tree])
             && Gathered(children, entries, minimum, maximum)
    ensures Merge(entries, Flatten(tree)) == entries + Flatten(tree)
    ensures Gathered(children + [tree], entries + Flatten(tree),
                     if minimum.None? then Some(MinKey(Flatten(tree))) else minimum, Some(MaxKey(Flatten(tree))))
  {
    hide PageHolds, LinkHolds, Fresh, Elements, Visits, VisitsList, Flatten, BranchTreeHolds, StartsWith;
    var grown := children + [tree];
    assert grown[..|children|] == children;
    forall i | 0 <= i < |grown|
      ensures LinkHolds(info.level, info.pointers, grown, i) && Flatten(grown[i]) != []
              && Ascending(Flatten(grown[i]))
    {
      assert PageHolds(reader, info.pointers[i].target, grown[i]) && LinkHolds(info.level, info.pointers, grown, i);
      PageAscends(reader, info.pointers[i].target, grown[i]);
    }
    ListAscends(info.level, info.pointers, grown);
    AscendingIsDistinct(FlattenList(grown));
    MergeDisjoint(entries, Flatten(tree));
    if children != [] {
      forall i | 0 <= i < |children|
        ensures LinkHolds(info.level, info.pointers, children, i) && Flatten(children[i]) != []
                && Ascending(Flatten(children[i]))
      {
        assert grown[i] == children[i];
        LinkOfPrefix(info.level, info.pointers, grown, |children|, i);
      }
      ListAscends(info.level, info.pointers, children);
    }
  }

  lemma MaximumIsLast(reader: Reader, r: Record, info: BranchInfo, marks: set<ObjectId>, now: set<ObjectId>,
                      children: seq<PageTree>)
    requires BranchReadTo(reader, r, info, marks, now, children) && children != []
    ensures MaxKey(FlattenList(children)) == MaxKey(Flatten(children[|children| - 1]))
  {
    hide PageHolds, LinkHolds, Fresh, Elements, Visits, VisitsList, Flatten, FlattenList, BranchTreeHolds, StartsWith;
    forall i | 0 <= i < |children|
      ensures LinkHolds(info.level, info.pointers, children, i) && Flatten(children[i]) != []
              && Ascending(Flatten(children[i]))
    {
      assert PageHolds(reader, info.pointers[i].target, children[i])
             && LinkHolds(info.level, info.pointers, children, i);
      PageAscends(reader, info.pointers[i].target, children[i]);
    }
    ListAscends(info.level, info.pointers, children);
  }

  lemma BranchFinish(reader: Reader, r: Record, info: BranchInfo, marks: set<ObjectId>, now: set<ObjectId>,
                     children: seq<PageTree>)
    requires BranchReadTo(reader, r, info, marks, now, children) && |children| == |info.pointers|
    requires BranchHolds(reader, r, info.level, info.declared, info.pointers)
    ensures var tree := BranchPage(info.level, info.pointers, children);
            && Fresh(marks, VisitsList(tree.pointers, tree.children))
            && now == marks + Elements(VisitsList(tree.pointers, tree.children))
            && (TotalsOf(FlattenList(children)) == Accepted(info.declared) ==> BranchTreeHolds(reader, r, tree))
            && (forall t: PageTree :: t.BranchPage? && BranchTreeHolds(reader, r, t)
                                      && Fresh(marks, VisitsList(t.pointers, t.children)) ==>
                  t == tree && TotalsOf(FlattenList(children)) == Accepted(info.declared))
  {
    hide PageHolds, LinkHolds, Fresh, Elements, Visits, VisitsList, FlattenList;
    var tree := BranchPage(info.level, info.pointers, children);
    assert Flatten(tree) == FlattenList(children);
    BranchDeclared(reader, r, info);
    forall t: PageTree | t.BranchPage? && BranchTreeHolds(reader, r, t)
        && Fresh(marks, VisitsList(t.pointers, t.children))
      ensures t == tree && TotalsOf(FlattenList(children)) == Accepted(info.declared)
    {
      assert StartsWith(t, info, children);
      assert t.children[..|children|] == t.children;
    }
  }

  lemma BranchDeclared(reader: Reader, r: Record, info: BranchInfo)
    requires BranchHolds(reader, r, info.level, info.declared, info.pointers)
    ensures FitsU64(info.declared) && 2 <= |info.pointers|
  {}

  method DecodeBranch(reader: Reader, r: Record, marks: set<ObjectId>)
    returns (result: Result<PageResult>, after: set<ObjectId>, ghost tree: PageTree)
    ensures marks <= after
    ensures result.Accepted? ==>
      && tree.BranchPage? && BranchTreeHolds(reader, r, tree) && result.value == Summary(tree)
      && Fresh(marks, VisitsList(tree.pointers, tree.children))
      && after == marks + Elements(VisitsList(tree.pointers, tree.children))
    ensures forall t: PageTree :: t.BranchPage? && BranchTreeHolds(reader, r, t)
                                  && Fresh(marks, VisitsList(t.pointers, t.children)) ==>
              result.Accepted? && tree == t
    decreases |Unmarked(reader, marks)|, 1
  {
    hide PageHolds, BranchTreeHolds, LinkHolds, Fresh, Elements, Visits, VisitsList, Flatten, FlattenList, BranchHolds,
         BranchReadTo, Gathered, Unmarked, LeafHolds, Merge, TotalsOf;
    after := marks;
    tree := LeafPage([]);
    var parsed := DecodePointers(reader, r);
    if parsed.Rejected? {
      NotABranch(reader, r);
      result := Rejected;
      return;
    }
    var info := parsed.value;
    BranchStart(reader, r, info, marks);
    ghost var children: seq<PageTree> := [];
    var entries: Entries, minimum: Option<Key>, maximum: Option<Key>, index := [], None, None, 0;
    GatherNothing();
    while index < |info.pointers|
      invariant index == |children| <= |info.pointers| && marks <= after
      invariant BranchReadTo(reader, r, info, marks, after, children) && Gathered(children, entries, minimum, maximum)
    {
      var pointer := info.pointers[index];
      UnmarkedShrinks(reader, marks, after);
      if children != [] { MaximumIsLast(reader, r, info, marks, after, children); }
      var child, marked;
      ghost var sub;
      child, marked, sub := DecodePage(reader, pointer.target, after);
      BranchAdvance(reader, r, info, marks, after, children, child, sub, marked);
      after := marked;
      if child.Rejected? { result := Rejected; return; }
      FitsTest(info, children, entries, minimum, maximum, child.value);
      if pointer.lower != child.value.minimum || child.value.level + 1 != info.level
         || TotalsOf(child.value.entries) != Accepted(pointer.totals) { result := Rejected; return; }
      if maximum.Some? && !Less(maximum.value, child.value.minimum) { result := Rejected; return; }
      GatherNext(reader, r, info, marks, after, children, sub, entries, minimum, maximum);
      entries := Merge(entries, child.value.entries);
      minimum := if minimum.None? then Some(child.value.minimum) else minimum;
      maximum := Some(child.value.maximum);
      children, index := children + [sub], index + 1;
    }
    FinishSummary(reader, r, info, children, entries, minimum, maximum);
    BranchFinish(reader, r, info, marks, after, children);
    if TotalsOf(entries) != Accepted(info.declared) { result := Rejected; return; }
    tree := BranchPage(info.level, info.pointers, children);
    result := Accepted(PageResult(entries, minimum.value, maximum.value, info.level, |info.pointers|));
  }

  lemma GatherNothing()
    ensures Gathered([], [], None, None)
  {}

  lemma NotABranch(reader: Reader, r: Record)
    requires forall level: nat, declared, pointers :: !BranchHolds(reader, r, level, declared, pointers)
    ensures forall t: PageTree :: t.BranchPage? ==> !BranchTreeHolds(reader, r, t)
  {
    hide BranchHolds;
  }

  lemma FitsTest(info: BranchInfo, children: seq<PageTree>, entries: Entries, minimum: Option<Key>,
                 maximum: Option<Key>, child: PageResult)
    requires |children| < |info.pointers| && Gathered(children, entries, minimum, maximum)
    requires children != [] ==> MaxKey(FlattenList(children)) == MaxKey(Flatten(children[|children| - 1]))
    ensures var p := info.pointers[|children|];
            ChildFits(info, children, child) <==>
            !(p.lower != child.minimum || child.level + 1 != info.level
              || TotalsOf(child.entries) != Accepted(p.totals))
            && !(maximum.Some? && !Less(maximum.value, child.minimum))
  {
    hide Flatten, FlattenList, TotalsOf;
  }

  lemma FinishSummary(reader: Reader, r: Record, info: BranchInfo, children: seq<PageTree>, entries: Entries,
                      minimum: Option<Key>, maximum: Option<Key>)
    requires Gathered(children, entries, minimum, maximum) && |children| == |info.pointers|
    requires BranchHolds(reader, r, info.level, info.declared, info.pointers)
    ensures entries == FlattenList(children) && minimum.Some? && maximum.Some?
    ensures PageResult(entries, minimum.value, maximum.value, info.level, |info.pointers|) ==
            Summary(BranchPage(info.level, info.pointers, children))
  {
    hide BranchHolds;
    BranchDeclared(reader, r, info);
  }

  /** decode_page: accepts exactly the roots of well-formed trees of unmarked pages, and marks what it visits. */
  method DecodePage(reader: Reader, id: ObjectId, marks: set<ObjectId>)
    returns (result: Result<PageResult>, after: set<ObjectId>, ghost tree: PageTree)
    ensures marks <= after
    ensures result.Accepted? ==>
      && PageHolds(reader, id, tree) && result.value == Summary(tree)
      && Fresh(marks, Visits(id, tree)) && after == marks + Elements(Visits(id, tree))
    ensures forall t :: PageHolds(reader, id, t) && Fresh(marks, Visits(id, t)) ==> result.Accepted? && tree == t
    decreases |Unmarked(reader, marks)|, 0
  {
    hide BranchTreeHolds, LinkHolds, Fresh, Elements, Visits, VisitsList, Flatten, FlattenList, BranchHolds, Unmarked,
         LeafHolds, PageFits, PageHolds;
    after := marks;
    tree := LeafPage([]);
    VisitFacts(reader, id, marks);
    if id in marks { result := Rejected; return; }
    after := marks + {id};
    if id !in reader.objects || !PageRecord(reader.objects[id]) { result := Rejected; return; }
    var r := reader.objects[id];
    if r.kind == 5 {
      var entries :- DecodeLeaf(reader, r);
      LeafSummary(reader, r, entries);
      tree := LeafPage(entries);
      if !PageFits(r, |entries|, 1) { result := Rejected; return; }
      result := Accepted(PageResult(entries, entries[0].key, entries[|entries| - 1].key, 0, |entries|));
    } else if r.kind == 6 {
      UnmarkedStep(reader, marks, id);
      var branch, marked;
      ghost var sub;
      branch, marked, sub := DecodeBranch(reader, r, marks + {id});
      after := marked;
      if branch.Rejected? { result := Rejected; return; }
      tree := sub;
      if !PageFits(r, branch.value.slots, 3) { result := Rejected; return; }
      result := branch;
    } else {
      result := Rejected;
    }
  }

  lemma UnmarkedStep(reader: Reader, marks: set<ObjectId>, id: ObjectId)
    requires id in reader.objects && id !in marks
    ensures |Unmarked(reader, marks + {id})| < |Unmarked(reader, marks)|
  {
    assert id in Unmarked(reader, marks);
    UnmarkedShrinks(reader, marks, marks + {id});
  }

  lemma LeafSummary(reader: Reader, r: Record, entries: Entries)
    requires LeafHolds(reader, r, entries)
    ensures entries != []
    ensures PageResult(entries, entries[0].key, entries[|entries| - 1].key, 0, |entries|) == Summary(LeafPage(entries))
  {
    hide SlotsHold, OccursAt, LeafHeader, Sums;
  }

  /** One level of the tree: what a page is and what visiting it marks, in terms of its record. */
  lemma VisitFacts(reader: Reader, id: ObjectId, marks: set<ObjectId>)
    ensures forall t :: PageHolds(reader, id, t) <==>
              && id in reader.objects && PageRecord(reader.objects[id])
              && (if t.LeafPage? then reader.objects[id].kind == 5 && LeafHolds(reader, reader.objects[id], t.entries)
                                      && PageFits(reader.objects[id], |t.entries|, 1)
                  else reader.objects[id].kind == 6 && BranchTreeHolds(reader, reader.objects[id], t)
                       && PageFits(reader.objects[id], |t.pointers|, 3))
    ensures forall t :: Fresh(marks, Visits(id, t)) <==>
              id !in marks && (t.BranchPage? ==> Fresh(marks + {id}, VisitsList(t.pointers, t.children)))
    ensures forall t :: marks + Elements(Visits(id, t)) ==
                        if t.LeafPage? then marks + {id}
                        else marks + {id} + Elements(VisitsList(t.pointers, t.children))
  {
    hide LeafHolds, BranchTreeHolds, PageFits, VisitsList, Fresh, Elements;
    forall t
      ensures Fresh(marks, Visits(id, t)) <==>
              id !in marks && (t.BranchPage? ==> Fresh(marks + {id}, VisitsList(t.pointers, t.children)))
      ensures marks + Elements(Visits(id, t)) ==
              if t.LeafPage? then marks + {id} else marks + {id} + Elements(VisitsList(t.pointers, t.children))
    {
      FreshOne(marks, id);
      if t.BranchPage? { FreshAppend(marks, [id], VisitsList(t.pointers, t.children)); }
    }
  }
}
