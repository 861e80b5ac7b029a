/** Bytes, little-endian integers and the byte-string order shared by every format. */
module Bytes {

  type byte = b: int | 0 <= b < 256

  const U64_MAX: nat := 0xFFFF_FFFF_FFFF_FFFF

  /** 256^n, the number of values an n-byte integer can take. */
  function Radix(n: nat): (r: nat)
    ensures r >= 1
  {
    if n == 0 then 1 else 256 * Radix(n - 1)
  }

  function Pow2(n: nat): (r: nat)
    ensures r >= 1
  {
    if n == 0 then 1 else 2 * Pow2(n - 1)
  }

  /** int.from_bytes(s, "little") */
  function Le(s: seq<byte>): (r: nat) {
    if s == [] then 0 else s[0] + 256 * Le(s[1..])
  }

  /** v.to_bytes(n, "little") */
  function LeBytes(v: nat, n: nat): (s: seq<byte>)
    ensures |s| == n
  {
    if n == 0 then [] else [v % 256] + LeBytes(v / 256, n - 1)
  }

  /** v.to_bytes(n, "big") */
  function BeBytes(v: nat, n: nat): (s: seq<byte>)
    ensures |s| == n
  {
    if n == 0 then [] else BeBytes(v / 256, n - 1) + [v % 256]
  }

  lemma RadixWidths()
    ensures Radix(1) == 0x100 && Radix(2) == 0x1_0000 && Radix(4) == 0x1_0000_0000
    ensures Radix(8) == U64_MAX + 1
  {
    assert Radix(4) == 256 * (256 * Radix(2));
    assert Radix(6) == 256 * (256 * Radix(4));
    assert Radix(8) == 256 * (256 * Radix(6));
  }

  /** Later bytes weigh more: a little-endian number is its first bytes plus the others times their place value. */
  lemma {:induction false} LeJoin(a: seq<byte>, b: seq<byte>)
    ensures Le(a + b) == Le(a) + Radix(|a|) * Le(b)
  {
    hide Le, Radix;
    if a == [] {
      assert a + b == b;
      NoBytes();
    } else {
      var rest := a[1..];
      assert (a + b)[0] == a[0] && (a + b)[1..] == rest + b;
      LeStep(a);
      LeStep(a + b);
      LeJoin(rest, b);
      JoinStep(a[0], Le(rest), Radix(|rest|), Le(b));
    }
  }

  lemma NoBytes()
    ensures Le([]) == 0 && Radix(0) == 1
  {}

  lemma LeStep(s: seq<byte>)
    requires s != []
    ensures Le(s) == s[0] + 256 * Le(s[1..]) && Radix(|s|) == 256 * Radix(|s| - 1)
  {}

  lemma JoinStep(x: nat, y: nat, r: nat, v: nat)
    ensures x + 256 * (y + r * v) == x + 256 * y + (256 * r) * v
  {}

  /** Big-endian bytes are the little-endian ones in reverse. */
  lemma {:induction false} BeReverses(v: nat, n: nat, i: nat)
    requires i < n
    ensures BeBytes(v, n)[i] == LeBytes(v, n)[n - 1 - i]
  {
    if i < n - 1 { BeReverses(v / 256, n - 1, i); }
  }

  lemma {:induction false} LeBound(s: seq<byte>)
    ensures Le(s) < Radix(|s|)
  {
    if s != [] { LeBound(s[1..]); }
  }

  /** Reading back a written integer, and writing back a read one. */
  lemma {:induction false} LeRoundTrip(v: nat, n: nat)
    requires v < Radix(n)
    ensures Le(LeBytes(v, n)) == v
  {
    if n > 0 {
      LeRoundTrip(v / 256, n - 1);
      assert LeBytes(v, n)[1..] == LeBytes(v / 256, n - 1);
    }
  }

  lemma {:induction false} LeBytesOfLe(s: seq<byte>)
    ensures LeBytes(Le(s), |s|) == s
  {
    if s != [] {
      LeBytesOfLe(s[1..]);
      assert Le(s) % 256 == s[0] && Le(s) / 256 == Le(s[1..]);
    }
  }

  lemma {:induction false} BeBytesInjective(v: nat, w: nat, n: nat)
    requires v < Radix(n) && w < Radix(n)
    requires BeBytes(v, n) == BeBytes(w, n)
    ensures v == w
  {
    if n > 0 {
      assert BeBytes(v, n)[..n - 1] == BeBytes(v / 256, n - 1);
      assert BeBytes(w, n)[..n - 1] == BeBytes(w / 256, n - 1);
      assert BeBytes(v, n)[n - 1] == BeBytes(w, n)[n - 1];
      BeBytesInjective(v / 256, w / 256, n - 1);
    }
  }

  /** bytes(n) */
  function Zeros(n: nat): (s: seq<byte>)
    ensures |s| == n && forall i :: 0 <= i < n ==> s[i] == 0
  {
    seq(n, (i: int) => 0 as byte)
  }

  /** A byte-string literal. */
  function Ascii(text: string): (s: seq<byte>)
    ensures |s| == |text|
  {
    seq(|text|, i requires 0 <= i < |text| => (text[i] as int) % 256)
  }

  /** not any(s) */
  predicate AllZero(s: seq<byte>) {
    forall i :: 0 <= i < |s| ==> s[i] == 0
  }

  predicate OccursAt(data: seq<byte>, needle: seq<byte>, at: nat) {
    at + |needle| <= |data| && data[at..at + |needle|] == needle
  }

  /** data.find(needle, from): the first occurrence at or after `from`, or -1. */
  method FindBytes(data: seq<byte>, needle: seq<byte>, from: nat) returns (at: int)
    ensures at >= 0 ==> from <= at && OccursAt(data, needle, at)
    ensures forall c: nat :: from <= c && (at >= 0 ==> c < at) ==> !OccursAt(data, needle, c)
  {
    var c := from;
    while c + |needle| <= |data|
      invariant from <= c
      invariant forall b: nat :: from <= b < c ==> !OccursAt(data, needle, b)
      decreases |data| - c
    {
      if OccursAt(data, needle, c) { return c; }
      c := c + 1;
    }
    return -1;
  }

  /** Python's `a < b` on byte strings. */
  predicate Less(a: seq<byte>, b: seq<byte>) {
    b != [] && (a == [] || a[0] < b[0] || (a[0] == b[0] && Less(a[1..], b[1..])))
  }

  predicate LessEq(a: seq<byte>, b: seq<byte>) {
    a == b || Less(a, b)
  }

  lemma {:induction false} LessTransitive(a: seq<byte>, b: seq<byte>, c: seq<byte>)
    requires Less(a, b) && Less(b, c)
    ensures Less(a, c)
  {
    if a != [] && a[0] == b[0] && b[0] == c[0] {
      LessTransitive(a[1..], b[1..], c[1..]);
    }
  }

  lemma {:induction false} LessIrreflexive(a: seq<byte>)
    ensures !Less(a, a)
  {
    if a != [] { LessIrreflexive(a[1..]); }
  }

  lemma {:induction false} LessTotal(a: seq<byte>, b: seq<byte>)
    ensures a == b || Less(a, b) || Less(b, a)
  {
    if a != [] && b != [] && a[0] == b[0] {
      LessTotal(a[1..], b[1..]);
      if a[1..] == b[1..] { assert a == [a[0]] + a[1..] == b; }
    }
  }

  lemma LessAsymmetric(a: seq<byte>, b: seq<byte>)
    requires Less(a, b)
    ensures !Less(b, a) && a != b
  {
    if Less(b, a) { LessTransitive(a, b, a); }
    LessIrreflexive(a);
  }
}

/** Acceptance or rejection; the source's exceptions all become Rejected. */
module Outcomes {
  import opened Bytes

  datatype Option<+T> = None | Some(value: T)

  datatype Result<+T> = Accepted(value: T) | Rejected {
    predicate IsFailure() { Rejected? }
    function PropagateFailure<U>(): Result<U>
      requires Rejected?
    {
      Rejected
    }
    function Extract(): T
      requires Accepted?
    {
      value
    }
  }

  /** `if not condition: raise` */
  function Check(condition: bool): Result<()> {
    if condition then Accepted(()) else Rejected
  }

  /** Cursor.integer at an offset. */
  function ReadInteger(data: seq<byte>, offset: nat, width: nat): Result<nat> {
    if offset + width <= |data| then Accepted(Le(data[offset..offset + width])) else Rejected
  }

  lemma ReadIntegerExact(data: seq<byte>, offset: nat, width: nat, v: nat)
    ensures ReadInteger(data, offset, width) == Accepted(v) <==>
            v < Radix(width) && OccursAt(data, LeBytes(v, width), offset)
  {
    hide Le, LeBytes, Radix;
    if offset + width <= |data| {
      LeBytesOfLe(data[offset..offset + width]);
      LeBound(data[offset..offset + width]);
    }
    if v < Radix(width) { LeRoundTrip(v, width); }
  }

  lemma OccursJoin(data: seq<byte>, a: seq<byte>, b: seq<byte>, at: nat)
    ensures OccursAt(data, a + b, at) <==> OccursAt(data, a, at) && OccursAt(data, b, at + |a|)
  {
    if at + |a| + |b| <= |data| {
      assert data[at..at + |a + b|] == data[at..at + |a|] + data[at + |a|..at + |a| + |b|];
      assert (a + b)[..|a|] == a && (a + b)[|a|..] == b;
      assert data[at..at + |a + b|][..|a|] == data[at..at + |a|];
      assert data[at..at + |a + b|][|a|..] == data[at + |a|..at + |a| + |b|];
    }
  }

  /** What is already read, in front of what is still to be read. */
  function Prepend<T>(read: seq<T>, rest: Result<seq<T>>): Result<seq<T>> {
    if rest.Accepted? then Accepted(read + rest.value) else Rejected
  }

  lemma PrependNothing<T>(rest: Result<seq<T>>)
    ensures Prepend([], rest) == rest
  {
    if rest.Accepted? { assert [] + rest.value == rest.value; }
  }

  lemma PrependOne<T>(read: seq<T>, next: T, rest: Result<seq<T>>)
    ensures Prepend(read, Prepend([next], rest)) == Prepend(read + [next], rest)
  {
    if rest.Accepted? { assert read + ([next] + rest.value) == read + [next] + rest.value; }
  }
}
