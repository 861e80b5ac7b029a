/**
 * Search trees over keys of one length whose branches test one digit each, as both constructions of the physical
 * map build them, and when their leaves are in order.
 */
module KeyTrees {

  type Digits = seq<nat>

  /** A branch splits at one digit; child i holds the keys whose digit there is selector i. */
  datatype KeyTree =
    | KeyLeaf(key: Digits)
    | KeyBranch(split: nat, selectors: seq<nat>, children: seq<KeyTree>)

  // ---------------------------------------------------------------- order

  /** The keys agree before digit d and differ there. */
  ghost predicate Diverge(x: Digits, y: Digits, d: int) {
    0 <= d < |x| == |y| && x[..d] == y[..d] && x[d] != y[d]
  }

  /** Lexicographic order on keys of one length. */
  ghost predicate Lower(x: Digits, y: Digits) {
    exists d :: Diverge(x, y, d) && x[d] < y[d]
  }

  lemma DivergeUnique(x: Digits, y: Digits, d: int, e: int)
    requires Diverge(x, y, d) && Diverge(x, y, e)
    ensures d == e
  {
    PrefixAt(x, y, d);
    PrefixAt(x, y, e);
  }

  lemma PrefixAt(x: Digits, y: Digits, n: nat)
    requires n <= |x| && n <= |y| && x[..n] == y[..n]
    ensures forall i :: 0 <= i < n ==> x[i] == y[i]
  {
    forall i | 0 <= i < n ensures x[i] == y[i] { assert x[i] == x[..n][i] == y[..n][i]; }
  }

  lemma DivergeSymmetric(x: Digits, y: Digits, d: int)
    requires Diverge(x, y, d)
    ensures Diverge(y, x, d)
  {}

  lemma LowerAsymmetric(x: Digits, y: Digits)
    requires Lower(x, y)
    ensures !Lower(y, x) && x != y
  {
    var d :| Diverge(x, y, d) && x[d] < y[d];
    if e :| Diverge(y, x, e) && y[e] < x[e] {
      DivergeSymmetric(y, x, e);
      DivergeUnique(x, y, d, e);
    }
  }

  /** What lies between two keys shares their common digits. */
  lemma Between(a: Digits, x: Digits, b: Digits, d: nat)
    requires (a == x || Lower(a, x)) && (x == b || Lower(x, b)) && d <= |a| == |x| == |b| && a[..d] == b[..d]
    ensures x[..d] == a[..d]
  {
    if a != x && x != b {
      var e :| Diverge(a, x, e) && a[e] < x[e];
      var f :| Diverge(x, b, f) && x[f] < b[f];
      PrefixAt(a, x, e);
      PrefixAt(x, b, f);
      PrefixAt(a, b, d);
      assert e >= d && a[..d] == a[..e][..d] == x[..e][..d] == x[..d];
    }
  }

  ghost predicate Ascends(keys: seq<Digits>) {
    forall i, j :: 0 <= i < j < |keys| ==> Lower(keys[i], keys[j])
  }

  lemma AscendsJoin(a: seq<Digits>, b: seq<Digits>)
    requires Ascends(a) && Ascends(b)
    requires forall i, j :: 0 <= i < |a| && 0 <= j < |b| ==> Lower(a[i], b[j])
    ensures Ascends(a + b)
  {
    hide Lower;
  }

  // ---------------------------------------------------------------- trees

  function First(t: KeyTree): Digits
    decreases t
  {
    if t.KeyLeaf? then t.key else if t.children == [] then [] else First(t.children[0])
  }

  function Last(t: KeyTree): Digits
    decreases t
  {
    if t.KeyLeaf? then t.key else if t.children == [] then [] else Last(t.children[|t.children| - 1])
  }

  function Leaves(t: KeyTree): seq<Digits>
    decreases t
  {
    if t.KeyLeaf? then [t.key] else LeavesAll(t.children)
  }

  function LeavesAll(children: seq<KeyTree>): seq<Digits>
    decreases children
  {
    if children == [] then [] else Leaves(children[0]) + LeavesAll(children[1..])
  }

  ghost predicate Rising(selectors: seq<nat>) {
    forall i, j :: 0 <= i < j < |selectors| ==> selectors[i] < selectors[j]
  }

  /**
   * What a walk that sees only the outermost keys of every subtree can test: a branch splits where its first and
   * last key diverge, and the first and last key of each child carry the child's selector there.
   */
  ghost predicate OuterOk(t: KeyTree, width: nat)
    decreases t
  {
    match t
    case KeyLeaf(key) => |key| == width
    case KeyBranch(split, selectors, children) =>
      && |children| == |selectors| >= 2 && Rising(selectors) && split < width
      && (forall i :: 0 <= i < |children| ==> OuterOk(children[i], width))
      && |First(t)| == |Last(t)| == width && Diverge(First(t), Last(t), split)
      && (forall i :: 0 <= i < |children| ==> Carries(children[i], split, selectors[i]))
  }

  ghost predicate Carries(t: KeyTree, split: nat, selector: nat) {
    split < |First(t)| && split < |Last(t)| && First(t)[split] == selector == Last(t)[split]
  }

  /** Every child branch splits strictly later than its parent, and every child starts with its parent's prefix. */
  ghost predicate Nested(t: KeyTree)
    decreases t
  {
    t.KeyBranch? ==> forall i :: 0 <= i < |t.children| ==>
      NestedUnder(t, t.children[i]) && Nested(t.children[i])
  }

  ghost predicate NestedUnder(t: KeyTree, child: KeyTree)
    requires t.KeyBranch?
  {
    && (child.KeyBranch? ==> child.split > t.split)
    && t.split <= |First(t)| && t.split <= |First(child)| && First(child)[..t.split] == First(t)[..t.split]
  }

  lemma {:induction false} EndsAreLeaves(t: KeyTree, width: nat)
    requires OuterOk(t, width)
    ensures Leaves(t) != [] && Leaves(t)[0] == First(t) && Leaves(t)[|Leaves(t)| - 1] == Last(t)
    ensures |First(t)| == |Last(t)| == width
    decreases t
  {
    hide Diverge, Carries, Rising;
    if t.KeyBranch? {
      forall i | 0 <= i < |t.children|
        ensures Leaves(t.children[i]) != [] && Leaves(t.children[i])[0] == First(t.children[i])
        ensures Leaves(t.children[i])[|Leaves(t.children[i])| - 1] == Last(t.children[i])
      {
        EndsAreLeaves(t.children[i], width);
      }
      EndsOfAll(t.children);
    }
  }

  lemma {:induction false} EndsOfAll(children: seq<KeyTree>)
    requires children != [] && forall i :: 0 <= i < |children| ==> Leaves(children[i]) != []
    ensures var all, last := LeavesAll(children), Leaves(children[|children| - 1]);
            all != [] && all[0] == Leaves(children[0])[0] && all[|all| - 1] == last[|last| - 1]
    decreases |children|
  {
    hide Leaves;
    if |children| > 1 {
      EndsOfAll(children[1..]);
    } else {
      assert LeavesAll(children[1..]) == [];
    }
  }

  /** The leaves of child i are one stretch of all leaves. */
  lemma {:induction false} Stretch(children: seq<KeyTree>, i: nat) returns (at: nat)
    requires i < |children|
    ensures at + |Leaves(children[i])| <= |LeavesAll(children)|
    ensures LeavesAll(children)[at..at + |Leaves(children[i])|] == Leaves(children[i])
    decreases i
  {
    hide Leaves;
    if i == 0 {
      at := 0;
    } else {
      var rest := Stretch(children[1..], i - 1);
      at := |Leaves(children[0])| + rest;
    }
  }

  // ---------------------------------------------------------------- nested trees are ordered

  /** Keys below one child of a branch: the common prefix, then the child's selector. */
  ghost predicate Bucket(keys: seq<Digits>, prefix: Digits, selector: nat, width: nat) {
    forall i :: 0 <= i < |keys| ==>
      |prefix| < |keys[i]| == width && keys[i][..|prefix|] == prefix && keys[i][|prefix|] == selector
  }

  /** Keys of the later children: the common prefix, then at least the selector. */
  ghost predicate AtLeast(keys: seq<Digits>, prefix: Digits, selector: nat, width: nat) {
    forall i :: 0 <= i < |keys| ==>
      |prefix| < |keys[i]| == width && keys[i][..|prefix|] == prefix && keys[i][|prefix|] >= selector
  }

  lemma {:induction false} BucketsAscend(children: seq<KeyTree>, prefix: Digits, selectors: seq<nat>, width: nat)
    requires |children| == |selectors| && Rising(selectors)
    requires forall i :: 0 <= i < |children| ==>
               Ascends(Leaves(children[i])) && Bucket(Leaves(children[i]), prefix, selectors[i], width)
    ensures Ascends(LeavesAll(children))
    ensures selectors != [] ==> AtLeast(LeavesAll(children), prefix, selectors[0], width)
    decreases |children|
  {
    hide Leaves, Lower;
    if children != [] {
      BucketsAscend(children[1..], prefix, selectors[1..], width);
      var mine, rest := Leaves(children[0]), LeavesAll(children[1..]);
      if |children| > 1 {
        forall i, j | 0 <= i < |mine| && 0 <= j < |rest| ensures Lower(mine[i], rest[j]) {
          LowerAt(mine[i], rest[j], prefix);
        }
      } else {
        assert rest == [];
      }
      AscendsJoin(mine, rest);
    }
  }

  lemma LowerAt(x: Digits, y: Digits, prefix: Digits)
    requires |prefix| < |x| == |y| && x[..|prefix|] == prefix == y[..|prefix|] && x[|prefix|] < y[|prefix|]
    ensures Lower(x, y)
  {
    assert Diverge(x, y, |prefix|);
  }

  function Depth(t: KeyTree, width: nat): nat {
    if t.KeyLeaf? then width else t.split
  }

  /** All keys share the digits before the split. */
  ghost predicate Shares(t: KeyTree, width: nat) {
    Depth(t, width) <= |First(t)| && forall i :: 0 <= i < |Leaves(t)| ==>
      |Leaves(t)[i]| == width && Depth(t, width) <= width
      && Leaves(t)[i][..Depth(t, width)] == First(t)[..Depth(t, width)]
  }

  lemma {:induction false} NestedAscends(t: KeyTree, width: nat)
    requires OuterOk(t, width) && Nested(t)
    ensures Ascends(Leaves(t)) && Shares(t, width)
    decreases t
  {
    hide Lower, Ascends, Shares, Carries, NestedUnder, Diverge;
    if t.KeyLeaf? {
      LeafAscends(t, width);
    } else {
      var prefix := First(t)[..t.split];
      forall i | 0 <= i < |t.children|
        ensures Ascends(Leaves(t.children[i])) && Bucket(Leaves(t.children[i]), prefix, t.selectors[i], width)
      {
        NestedAscends(t.children[i], width);
        ChildBucket(t, width, i);
      }
      BucketsAscend(t.children, prefix, t.selectors, width);
      BranchShares(t, width);
    }
  }

  lemma LeafAscends(t: KeyTree, width: nat)
    requires t.KeyLeaf? && OuterOk(t, width)
    ensures Ascends(Leaves(t)) && Shares(t, width)
  {}

  lemma BranchShares(t: KeyTree, width: nat)
    requires t.KeyBranch? && OuterOk(t, width)
    requires AtLeast(LeavesAll(t.children), First(t)[..t.split], t.selectors[0], width)
    ensures Shares(t, width)
  {
    hide Rising, Carries;
  }

  lemma ChildBucket(t: KeyTree, width: nat, i: nat)
    requires t.KeyBranch? && OuterOk(t, width) && i < |t.children|
    requires NestedUnder(t, t.children[i]) && Shares(t.children[i], width)
    ensures Bucket(Leaves(t.children[i]), First(t)[..t.split], t.selectors[i], width)
  {
    hide Rising, Leaves;
    var child, d := t.children[i], t.split;
    assert OuterOk(child, width) && Carries(child, d, t.selectors[i]);
    var deep := Depth(child, width);
    assert deep > d;
    forall j | 0 <= j < |Leaves(child)|
      ensures var key := Leaves(child)[j];
              d < |key| == width && key[..d] == First(t)[..d] && key[d] == t.selectors[i]
    {
      var key := Leaves(child)[j];
      assert key[..deep][..d] == key[..d] && First(child)[..deep][..d] == First(child)[..d];
      assert key[..deep][d] == key[d] && First(child)[..deep][d] == First(child)[d];
    }
  }

  // ---------------------------------------------------------------- ordered trees are nested

  lemma {:induction false} AscendsNested(t: KeyTree, width: nat)
    requires OuterOk(t, width) && Ascends(Leaves(t))
    ensures Nested(t)
    decreases t
  {
    hide Lower, Ascends, Carries, NestedUnder, Diverge, Rising;
    if t.KeyBranch? {
      forall i | 0 <= i < |t.children| ensures NestedUnder(t, t.children[i]) && Nested(t.children[i]) {
        ChildNested(t, width, i);
        AscendsNested(t.children[i], width);
      }
    }
  }

  lemma ChildNested(t: KeyTree, width: nat, i: nat)
    requires t.KeyBranch? && OuterOk(t, width) && Ascends(Leaves(t)) && i < |t.children|
    ensures Ascends(Leaves(t.children[i])) && NestedUnder(t, t.children[i])
  {
    hide Lower, Rising, Leaves, LeavesAll, First, Last, Ascends;
    var child, d := t.children[i], t.split;
    ChildLies(t, width, i);
    var x, y := First(child), Last(child);
    assert OuterOk(child, width) && Carries(child, d, t.selectors[i]);
    Between(First(t), x, Last(t), d);
    Between(First(t), y, Last(t), d);
    assert x[..d + 1] == x[..d] + [x[d]] && y[..d + 1] == y[..d] + [y[d]];
    if child.KeyBranch? { SplitsLater(child, width, d); }
  }

  /** The keys of a child are in order and lie between the first and last key of its parent. */
  lemma ChildLies(t: KeyTree, width: nat, i: nat)
    requires t.KeyBranch? && OuterOk(t, width) && Ascends(Leaves(t)) && i < |t.children|
    ensures Ascends(Leaves(t.children[i]))
    ensures var x, y := First(t.children[i]), Last(t.children[i]);
            && |x| == |y| == |First(t)| == |Last(t)| == width
            && (First(t) == x || Lower(First(t), x)) && (x == Last(t) || Lower(x, Last(t)))
            && (First(t) == y || Lower(First(t), y)) && (y == Last(t) || Lower(y, Last(t)))
  {
    hide Lower, Rising, Leaves, LeavesAll, First, Last, Diverge, Carries;
    var child := t.children[i];
    var all, mine := Leaves(t), Leaves(child);
    assert all == LeavesAll(t.children) by { BranchLeaves(t); }
    var at := Stretch(t.children, i);
    assert forall j :: 0 <= j < |mine| ==> mine[j] == all[at..at + |mine|][j] == all[at + j];
    EndsAreLeaves(t, width);
    assert OuterOk(child, width);
    EndsAreLeaves(child, width);
    assert First(child) == all[at] && Last(child) == all[at + |mine| - 1];
  }

  lemma BranchLeaves(t: KeyTree)
    requires t.KeyBranch?
    ensures Leaves(t) == LeavesAll(t.children)
  {}

  lemma SplitsLater(t: KeyTree, width: nat, d: nat)
    requires t.KeyBranch? && OuterOk(t, width)
    requires d < |First(t)| && d < |Last(t)| && First(t)[..d + 1] == Last(t)[..d + 1]
    ensures t.split > d
  {
    hide Rising, Carries;
    PrefixAt(First(t), Last(t), d + 1);
  }

  /** The leaves are in order exactly when the tree is nested. */
  lemma OrderedIffNested(t: KeyTree, width: nat)
    requires OuterOk(t, width)
    ensures Ascends(Leaves(t)) <==> Nested(t)
  {
    hide *;
    if Nested(t) { NestedAscends(t, width); }
    if Ascends(Leaves(t)) { AscendsNested(t, width); }
  }
}
