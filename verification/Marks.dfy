/** Visit-once marking: which identities a walk has seen, and what is still fresh. */
module Marks {
  import opened Objects

  function Elements(ids: seq<ObjectId>): set<ObjectId> {
    set x | x in ids
  }

  /** No identity repeats and none is already marked. */
  ghost predicate Fresh(marks: set<ObjectId>, ids: seq<ObjectId>)
    decreases |ids|
  {
    ids == [] || (ids[0] !in marks && Fresh(marks + {ids[0]}, ids[1..]))
  }

  lemma {:induction false} FreshAppend(marks: set<ObjectId>, a: seq<ObjectId>, b: seq<ObjectId>)
    ensures Fresh(marks, a + b) <==> Fresh(marks, a) && Fresh(marks + Elements(a), b)
    ensures Elements(a + b) == Elements(a) + Elements(b)
    decreases |a|
  {
    if a == [] {
      assert a + b == b && marks + Elements(a) == marks;
    } else {
      assert (a + b)[1..] == a[1..] + b && (a + b)[0] == a[0];
      FreshAppend(marks + {a[0]}, a[1..], b);
      assert a == [a[0]] + a[1..];
      assert marks + {a[0]} + Elements(a[1..]) == marks + Elements(a);
    }
  }

  lemma FreshOne(marks: set<ObjectId>, id: ObjectId)
    ensures Fresh(marks, [id]) <==> id !in marks
    ensures Elements([id]) == {id}
  {
    assert [id][1..] == [];
  }

  lemma {:induction false} SubsetSize<T>(a: set<T>, b: set<T>)
    requires a <= b
    ensures |a| <= |b|
    decreases |a|
  {
    if x :| x in a { SubsetSize(a - {x}, b - {x}); }
  }
}
