/** The legacy projection: an AVL tree of one object per entry, decoded with the same visit-once marking. */
module KvLegacy {
  import opened Bytes
  import opened Outcomes
  import opened Objects
  import opened Marks
  import opened KvValues
  import opened KvTree

  datatype Avl = Nil | Node(left: Avl, key: Key, value: Value, right: Avl)

  function Height(t: Avl): nat {
    if t.Nil? then 0 else 1 + Max(Height(t.left), Height(t.right))
  }

  function Max(a: nat, b: nat): nat {
    if a < b then b else a
  }

  function InOrder(t: Avl): Entries {
    if t.Nil? then [] else InOrder(t.left) + ([Entry(t.key, t.value)] + InOrder(t.right))
  }

  // ---------------------------------------------------------------- one node

  datatype NodeInfo = NodeInfo(height: nat, logical: nat, quota: nat, key: Key, value: Value, left: Option<ObjectId>,
                               right: Option<ObjectId>)

  /** Everything decode_legacy_node reads of a node before it looks at its children. */
  function ReadNode(reader: Reader, id: ObjectId): Result<NodeInfo> {
    var r :- ObjectAt(reader.objects, id, 6, 3);
    var _ :- Check(r.objectClass == 1 && r.logicalBytes == 0 && |r.canonical| >= 28);
    var height, logical, quota, length := Le(r.canonical[0..4]), Le(r.canonical[4..12]), Le(r.canonical[12..20]),
        Le(r.canonical[20..28]);
    var key := r.canonical[28..];
    var _ :- Check(CompositeKey(reader, key));
    var valueId :- ExactReference(r, Ascii("value"), 0, true);
    var _ :- Check(valueId.Some?);
    LeBound(r.canonical[20..28]);
    RadixWidths();
    var value :- ValueOf(reader, valueId.value, length, 3);
    var left :- ExactReference(r, Ascii("left"), 0, false);
    var right :- ExactReference(r, Ascii("right"), 0, false);
    var _ :- Check(|r.references| == 1 + (if left.Some? then 1 else 0) + (if right.Some? then 1 else 0));
    Accepted(NodeInfo(height, logical, quota, key, value, left, right))
  }

  function NodeBytes(info: NodeInfo): seq<byte> {
    LeBytes(info.height, 4) + LeBytes(info.logical, 8) + LeBytes(info.quota, 8) + LeBytes(|info.value|, 8) + info.key
  }

  /** A node's bytes are determined by what was read from them. */
  lemma NodeIsCanonical(reader: Reader, id: ObjectId)
    requires ReadNode(reader, id).Accepted?
    ensures reader.objects[id].canonical == NodeBytes(ReadNode(reader, id).value)
  {
    hide CompositeKey, ExactReference, ValueOf, LeBytes, Le;
    var c := reader.objects[id].canonical;
    LeBytesOfLe(c[0..4]);
    LeBytesOfLe(c[4..12]);
    LeBytesOfLe(c[12..20]);
    LeBytesOfLe(c[20..28]);
    assert c == c[0..4] + c[4..12] + c[12..20] + c[20..28] + c[28..];
  }

  // ---------------------------------------------------------------- trees

  /** Keys of the left subtree below, keys of the right subtree above. */
  ghost predicate NodeOrdered(t: Avl)
    requires t.Node?
  {
    && (t.left.Node? ==> Less(MaxKey(InOrder(t.left)), t.key))
    && (t.right.Node? ==> Less(t.key, MinKey(InOrder(t.right))))
  }

  predicate NodeBalanced(t: Avl)
    requires t.Node?
  {
    Height(t.left) <= Height(t.right) + 1 && Height(t.right) <= Height(t.left) + 1
  }

  /** The object is the root of exactly this AVL tree. */
  ghost predicate AvlHolds(reader: Reader, id: ObjectId, t: Avl)
    decreases t
  {
    t.Node? && ReadNode(reader, id).Accepted? &&
    var info := ReadNode(reader, id).value;
    && info.key == t.key && info.value == t.value && info.height == Height(t)
    && (info.left.Some? <==> t.left.Node?) && (info.right.Some? <==> t.right.Node?)
    && (t.left.Node? ==> AvlHolds(reader, info.left.value, t.left))
    && (t.right.Node? ==> AvlHolds(reader, info.right.value, t.right))
    && NodeOrdered(t) && NodeBalanced(t)
    && TotalsOf(InOrder(t)) == Accepted(Totals(|InOrder(t)|, info.logical, info.quota))
  }

  ghost function AvlVisits(reader: Reader, id: ObjectId, t: Avl): seq<ObjectId>
    decreases t, 0
  {
    if t.Nil? || ReadNode(reader, id).Rejected? then []
    else [id] + (SideVisits(reader, ReadNode(reader, id).value.left, t.left)
                 + SideVisits(reader, ReadNode(reader, id).value.right, t.right))
  }

  ghost function SideVisits(reader: Reader, id: Option<ObjectId>, t: Avl): seq<ObjectId>
    decreases t, 1
  {
    if id.None? then [] else AvlVisits(reader, id.value, t)
  }

  // ---------------------------------------------------------------- what an accepted tree is

  lemma {:induction false} AvlAscends(reader: Reader, id: ObjectId, t: Avl)
    requires AvlHolds(reader, id, t)
    ensures Ascending(InOrder(t)) && InOrder(t) != []
    decreases t
  {
    hide ReadNode, Ascending, TotalsOf, MinKey, MaxKey;
    var info := ReadNode(reader, id).value;
    if t.left.Node? { AvlAscends(reader, info.left.value, t.left); } else { NothingAscends(); }
    if t.right.Node? { AvlAscends(reader, info.right.value, t.right); } else { NothingAscends(); }
    NodeAscends(t);
  }

  lemma NodeAscends(t: Avl)
    requires t.Node? && NodeOrdered(t) && Ascending(InOrder(t.left)) && Ascending(InOrder(t.right))
    requires t.left.Node? ==> InOrder(t.left) != []
    requires t.right.Node? ==> InOrder(t.right) != []
    ensures Ascending(InOrder(t)) && Ascending([Entry(t.key, t.value)] + InOrder(t.right))
  {
    hide Ascending;
    OneAscends(Entry(t.key, t.value));
    AscendingJoin([Entry(t.key, t.value)], InOrder(t.right));
    AscendingJoin(InOrder(t.left), [Entry(t.key, t.value)] + InOrder(t.right));
  }

  lemma OneAscends(e: Entry)
    ensures Ascending([e])
  {}

  function Fib(n: nat): nat {
    if n < 2 then n else Fib(n - 1) + Fib(n - 2)
  }

  lemma {:induction false} FibMonotone(n: nat)
    ensures Fib(n) <= Fib(n + 1)
  {
    if n >= 2 { FibMonotone(n - 1); FibMonotone(n - 2); }
  }

  /** An AVL tree of height h has at least Fib(h + 2) - 1 entries: height is logarithmic in size. */
  lemma {:induction false} AvlIsDense(reader: Reader, id: ObjectId, t: Avl)
    requires AvlHolds(reader, id, t)
    ensures |InOrder(t)| + 1 >= Fib(Height(t) + 2)
    decreases t
  {
    hide ReadNode, TotalsOf, NodeOrdered, Fib, InOrder, Height;
    var info := ReadNode(reader, id).value;
    if t.left.Node? { AvlIsDense(reader, info.left.value, t.left); } else { NilIsDense(); }
    if t.right.Node? { AvlIsDense(reader, info.right.value, t.right); } else { NilIsDense(); }
    NodeSize(t);
    DenseStep(Height(t.left), Height(t.right), |InOrder(t.left)|, |InOrder(t.right)|);
  }

  lemma NodeSize(t: Avl)
    requires t.Node?
    ensures |InOrder(t)| == |InOrder(t.left)| + 1 + |InOrder(t.right)|
            && Height(t) == 1 + Max(Height(t.left), Height(t.right))
  {}

  lemma NilIsDense()
    ensures |InOrder(Nil)| + 1 >= Fib(Height(Nil) + 2)
  {
    FibSmall();
  }

  lemma DenseStep(l: nat, r: nat, a: nat, b: nat)
    requires a + 1 >= Fib(l + 2) && b + 1 >= Fib(r + 2) && l <= r + 1 && r <= l + 1
    ensures a + 1 + b + 1 >= Fib(1 + Max(l, r) + 2)
  {
    hide Fib;
    FibStep(Max(l, r));
    FibMonotone(l + 1);
  }

  lemma FibSmall()
    ensures Fib(2) == 1
  {}

  lemma FibStep(h: nat)
    ensures Fib(h + 3) == Fib(h + 2) + Fib(h + 1)
  {}

  // ---------------------------------------------------------------- decoding

  datatype AvlResult = AvlResult(entries: Entries, minimum: Key, maximum: Key, height: nat)

  function AvlSummary(t: Avl): AvlResult {
    AvlResult(InOrder(t), MinKey(InOrder(t)), MaxKey(InOrder(t)), Height(t))
  }

  /** Merging left dictionary, own entry and right dictionary overwrites nothing. */
  lemma MergeSides(t: Avl)
    requires t.Node? && Ascending(InOrder(t))
    ensures Merge(Put(Merge([], InOrder(t.left)), t.key, t.value), InOrder(t.right)) == InOrder(t)
  {
    AscendingIsDistinct(InOrder(t));
    MergeThree(InOrder(t.left), Entry(t.key, t.value), InOrder(t.right));
  }

  lemma MergeThree(left: Entries, e: Entry, right: Entries)
    requires Distinct(left + ([e] + right))
    ensures Merge(Put(Merge([], left), e.key, e.value), right) == left + ([e] + right)
  {
    hide Merge, Put;
    var all := left + ([e] + right);
    assert all == (left + [e]) + right;
    DistinctPrefix(left + [e], right);
    DistinctPrefix(left, [e]);
    assert [] + left == left;
    MergeDisjoint([], left);
    forall i | 0 <= i < |left| ensures left[i].key != e.key {
      assert (left + [e])[i] == left[i] && (left + [e])[|left|] == e;
    }
    PutFresh(left, e.key, e.value);
    MergeDisjoint(left + [e], right);
  }

  lemma DistinctPrefix(a: Entries, b: Entries)
    requires Distinct(a + b)
    ensures Distinct(a)
  {
    forall i, j | 0 <= i < j < |a| ensures a[i].key != a[j].key { assert (a + b)[i] == a[i] && (a + b)[j] == a[j]; }
  }

  /** What a recursive call on one side promises. */
  ghost predicate SideRead(reader: Reader, id: Option<ObjectId>, marks: set<ObjectId>, result: Option<AvlResult>,
                           failed: bool, after: set<ObjectId>, t: Avl)
  {
    && (!failed ==>
          && (id.Some? <==> t.Node?) && (t.Node? ==> AvlHolds(reader, id.value, t))
          && (result == if t.Nil? then None else Some(AvlSummary(t)))
          && Fresh(marks, SideVisits(reader, id, t)) && after == marks + Elements(SideVisits(reader, id, t)))
    && (forall other: Avl :: (id.Some? <==> other.Node?) && (other.Node? ==> AvlHolds(reader, id.value, other))
                             && Fresh(marks, SideVisits(reader, id, other)) ==>
          !failed && t == other)
  }

  lemma NoSide(reader: Reader, marks: set<ObjectId>)
    ensures SideRead(reader, None, marks, None, false, marks, Nil)
  {
    assert marks + Elements([]) == marks;
  }

  /** Visiting a node: its own mark, then the left side, then the right side. */
  lemma NodeVisits(reader: Reader, id: ObjectId, marks: set<ObjectId>, t: Avl)
    requires t.Node? && ReadNode(reader, id).Accepted?
    ensures var info := ReadNode(reader, id).value;
            var left, right := SideVisits(reader, info.left, t.left), SideVisits(reader, info.right, t.right);
            && (Fresh(marks, AvlVisits(reader, id, t)) <==>
                  id !in marks && Fresh(marks + {id}, left) && Fresh(marks + {id} + Elements(left), right))
            && marks + Elements(AvlVisits(reader, id, t)) == marks + {id} + Elements(left) + Elements(right)
  {
    hide Fresh, Elements, ReadNode, SideVisits;
    var info := ReadNode(reader, id).value;
    var left, right := SideVisits(reader, info.left, t.left), SideVisits(reader, info.right, t.right);
    FreshOne(marks, id);
    FreshAppend(marks, [id], left + right);
    FreshAppend(marks + {id}, left, right);
  }

  /** The order and balance tests of the source, on the two sides' summaries. */
  predicate NodeTests(info: NodeInfo, left: Option<AvlResult>, right: Option<AvlResult>) {
    var lh := if left.None? then 0 else left.value.height;
    var rh := if right.None? then 0 else right.value.height;
    && !(left.Some? && !Less(left.value.maximum, info.key)) && !(right.Some? && !Less(info.key, right.value.minimum))
    && info.height != 0 && info.height == 1 + Max(lh, rh) && lh <= rh + 1 && rh <= lh + 1
  }

  lemma TestsAreChecks(info: NodeInfo, left: Avl, right: Avl)
    requires (info.left.Some? <==> left.Node?) && (info.right.Some? <==> right.Node?)
    ensures var t := Node(left, info.key, info.value, right);
            NodeTests(info, if left.Nil? then None else Some(AvlSummary(left)),
                      if right.Nil? then None else Some(AvlSummary(right))) <==>
            NodeOrdered(t) && NodeBalanced(t) && info.height == Height(t)
  {
    hide InOrder, MinKey, MaxKey;
  }

  /** Both sides read: the node is this tree when the tests and totals hold, and no tree otherwise. */
  lemma NodeReads(reader: Reader, id: ObjectId, marks: set<ObjectId>, left: Avl, leftMarks: set<ObjectId>, right: Avl,
                  after: set<ObjectId>)
    requires ReadNode(reader, id).Accepted? && id !in marks
    requires var info := ReadNode(reader, id).value;
             && SideRead(reader, info.left, marks + {id}, if left.Nil? then None else Some(AvlSummary(left)), false,
                         leftMarks, left)
             && SideRead(reader, info.right, leftMarks, if right.Nil? then None else Some(AvlSummary(right)), false,
                         after, right)
    ensures var info := ReadNode(reader, id).value; var t := Node(left, info.key, info.value, right);
            var good := NodeOrdered(t) && NodeBalanced(t) && info.height == Height(t)
                        && TotalsOf(InOrder(t)) == Accepted(Totals(|InOrder(t)|, info.logical, info.quota));
            && (good ==> AvlHolds(reader, id, t) && Fresh(marks, AvlVisits(reader, id, t))
                         && after == marks + Elements(AvlVisits(reader, id, t)))
            && (forall other :: AvlHolds(reader, id, other) && Fresh(marks, AvlVisits(reader, id, other)) ==>
                  good && other == t)
  {
    hide Fresh, Elements, ReadNode, SideVisits, AvlVisits, NodeOrdered, NodeBalanced, TotalsOf, InOrder, Height,
         AvlSummary;
    var info := ReadNode(reader, id).value;
    var t := Node(left, info.key, info.value, right);
    NodeVisits(reader, id, marks, t);
    forall other | AvlHolds(reader, id, other) && Fresh(marks, AvlVisits(reader, id, other)) ensures other == t {
      NodeVisits(reader, id, marks, other);
      assert other.left == left;
      assert other.right == right;
    }
  }

  lemma LeftFails(reader: Reader, id: ObjectId, marks: set<ObjectId>, result: Option<AvlResult>, after: set<ObjectId>,
                  t: Avl)
    requires ReadNode(reader, id).Accepted?
             && SideRead(reader, ReadNode(reader, id).value.left, marks + {id}, result, true, after, t)
    ensures forall other :: AvlHolds(reader, id, other) ==> !Fresh(marks, AvlVisits(reader, id, other))
  {
    hide Fresh, Elements, ReadNode, SideVisits, AvlVisits, NodeOrdered, NodeBalanced, TotalsOf, InOrder, Height,
         AvlSummary;
    forall other | AvlHolds(reader, id, other) ensures !Fresh(marks, AvlVisits(reader, id, other)) {
      NodeVisits(reader, id, marks, other);
    }
  }

  lemma SameSide(reader: Reader, id: Option<ObjectId>, marks: set<ObjectId>, t: Avl, after: set<ObjectId>, other: Avl)
    requires SideRead(reader, id, marks, if t.Nil? then None else Some(AvlSummary(t)), false, after, t)
    requires (id.Some? <==> other.Node?) && (other.Node? ==> AvlHolds(reader, id.value, other))
    ensures Fresh(marks, SideVisits(reader, id, other)) ==> other == t
  {
    hide Fresh, Elements, SideVisits, AvlHolds, AvlSummary;
  }

  lemma RightFails(reader: Reader, id: ObjectId, marks: set<ObjectId>, left: Avl, leftMarks: set<ObjectId>,
                   result: Option<AvlResult>, after: set<ObjectId>, t: Avl)
    requires ReadNode(reader, id).Accepted?
    requires SideRead(reader, ReadNode(reader, id).value.left, marks + {id},
                      if left.Nil? then None else Some(AvlSummary(left)), false, leftMarks, left)
    requires SideRead(reader, ReadNode(reader, id).value.right, leftMarks, result, true, after, t)
    ensures forall other :: AvlHolds(reader, id, other) ==> !Fresh(marks, AvlVisits(reader, id, other))
  {
    hide Fresh, Elements, ReadNode, SideVisits, AvlVisits, NodeOrdered, NodeBalanced, TotalsOf, InOrder, Height,
         AvlSummary;
    forall other | AvlHolds(reader, id, other) ensures !Fresh(marks, AvlVisits(reader, id, other)) {
      NodeVisits(reader, id, marks, other);
      SameSide(reader, ReadNode(reader, id).value.left, marks + {id}, left, leftMarks, other.left);
    }
  }

  method DecodeSide(reader: Reader, id: Option<ObjectId>, marks: set<ObjectId>)
    returns (result: Option<AvlResult>, failed: bool, after: set<ObjectId>, ghost t: Avl)
    ensures marks <= after && SideRead(reader, id, marks, result, failed, after, t)
    decreases |Unmarked(reader, marks)|, 1
  {
    hide Fresh, Elements, AvlHolds, AvlVisits, AvlSummary, Unmarked;
    if id.None? {
      NoSide(reader, marks);
      return None, false, marks, Nil;
    }
    var read;
    read, after, t := DecodeLegacyNode(reader, id.value, marks);
    failed := read.Rejected?;
    result := if failed then None else Some(read.value);
  }

  /** decode_legacy_node: accepts exactly the roots of AVL trees of unmarked nodes. */
  method DecodeLegacyNode(reader: Reader, id: ObjectId, marks: set<ObjectId>)
    returns (result: Result<AvlResult>, after: set<ObjectId>, ghost t: Avl)
    ensures marks <= after
    ensures result.Accepted? ==> AvlHolds(reader, id, t) && result.value == AvlSummary(t)
                                 && Fresh(marks, AvlVisits(reader, id, t))
                                 && after == marks + Elements(AvlVisits(reader, id, t))
    ensures result.Accepted? ==> t.Node?
    ensures forall other :: AvlHolds(reader, id, other) && Fresh(marks, AvlVisits(reader, id, other)) ==>
              result.Accepted? && t == other
    decreases |Unmarked(reader, marks)|, 0
  {
    hide Fresh, Elements, AvlHolds, AvlVisits, SideRead, SideVisits, Unmarked, ReadNode, InOrder, Height, NodeTests,
         NodeOrdered, NodeBalanced, Merge, Put, TotalsOf, AvlSummary;
    after := marks;
    t := Nil;
    ReadsBefore(reader, id, marks);
    if id in marks { result := Rejected; return; }
    after := marks + {id};
    var info :- ReadNode(reader, id);
    NodeIsStored(reader, id);
    UnmarkedStep(reader, marks, id);
    var left, leftFailed, leftMarks;
    ghost var l;
    left, leftFailed, leftMarks, l := DecodeSide(reader, info.left, after);
    after := leftMarks;
    if leftFailed {
      LeftFails(reader, id, marks, left, leftMarks, l);
      result := Rejected;
      return;
    }
    UnmarkedShrinks(reader, marks + {id}, leftMarks);
    var right, rightFailed, rightMarks;
    ghost var r;
    right, rightFailed, rightMarks, r := DecodeSide(reader, info.right, leftMarks);
    after := rightMarks;
    SideSummary(reader, info.left, marks + {id}, left, leftMarks, l);
    if rightFailed {
      RightFails(reader, id, marks, l, leftMarks, right, rightMarks, r);
      result := Rejected;
      return;
    }
    SideSummary(reader, info.right, leftMarks, right, rightMarks, r);
    NodeReads(reader, id, marks, l, leftMarks, r, rightMarks);
    TestsAreChecks(info, l, r);
    if !NodeTests(info, left, right) { result := Rejected; return; }
    ghost var tree := Node(l, info.key, info.value, r);
    NodeMerges(reader, info, l, r, marks + {id}, leftMarks, left, right, rightMarks);
    var entries: Entries := Merge([], if left.None? then [] else left.value.entries);
    entries := Put(entries, info.key, info.value);
    entries := Merge(entries, if right.None? then [] else right.value.entries);
    if TotalsOf(entries) != Accepted(Totals(|entries|, info.logical, info.quota)) { result := Rejected; return; }
    t := tree;
    result := Accepted(AvlResult(entries, if left.None? then info.key else left.value.minimum,
                                 if right.None? then info.key else right.value.maximum, info.height));
  }

  lemma ReadsBefore(reader: Reader, id: ObjectId, marks: set<ObjectId>)
    ensures forall other :: AvlHolds(reader, id, other) ==> ReadNode(reader, id).Accepted?
    ensures id in marks ==> forall other :: AvlHolds(reader, id, other) ==> !Fresh(marks, AvlVisits(reader, id, other))
  {
    hide Fresh, ReadNode, SideVisits, NodeOrdered, NodeBalanced, TotalsOf, InOrder, Height;
    forall other | AvlHolds(reader, id, other) && id in marks ensures !Fresh(marks, AvlVisits(reader, id, other)) {
      NodeVisits(reader, id, marks, other);
    }
  }

  lemma NodeIsStored(reader: Reader, id: ObjectId)
    requires ReadNode(reader, id).Accepted?
    ensures id in reader.objects
  {
    hide CompositeKey, ExactReference, ValueOf, Le;
  }

  lemma SideSummary(reader: Reader, id: Option<ObjectId>, marks: set<ObjectId>, result: Option<AvlResult>,
                    after: set<ObjectId>, t: Avl)
    requires SideRead(reader, id, marks, result, false, after, t)
    ensures (id.Some? <==> t.Node?) && (result == if t.Nil? then None else Some(AvlSummary(t)))
  {
    hide Fresh, AvlHolds, AvlSummary, SideVisits;
  }

  lemma NodeMerges(reader: Reader, info: NodeInfo, l: Avl, r: Avl, marks: set<ObjectId>, leftMarks: set<ObjectId>,
                   left: Option<AvlResult>, right: Option<AvlResult>, after: set<ObjectId>)
    requires SideRead(reader, info.left, marks, left, false, leftMarks, l)
             && SideRead(reader, info.right, leftMarks, right, false, after, r)
    requires NodeOrdered(Node(l, info.key, info.value, r))
    ensures var t := Node(l, info.key, info.value, r);
            && Merge(Put(Merge([], if left.None? then [] else left.value.entries), info.key, info.value),
                     if right.None? then [] else right.value.entries) == InOrder(t)
            && MinKey(InOrder(t)) == (if left.None? then info.key else left.value.minimum)
            && MaxKey(InOrder(t)) == (if right.None? then info.key else right.value.maximum)
            && AvlSummary(t) == AvlResult(InOrder(t), MinKey(InOrder(t)), MaxKey(InOrder(t)), Height(t))
  {
    hide Fresh, AvlHolds, SideVisits, Merge, Put, Ascending, Height;
    var t := Node(l, info.key, info.value, r);
    if l.Node? { AvlAscends(reader, info.left.value, l); } else { NothingAscends(); }
    if r.Node? { AvlAscends(reader, info.right.value, r); } else { NothingAscends(); }
    NodeAscends(t);
    MergeSides(t);
  }
}
