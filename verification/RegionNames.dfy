/**
 * Region names, said without the byte tests: a name is accepted exactly when it is the UTF-8 form (section 3 of
 * RFC 3629) of characters none of which is a control character, and its slash-separated parts are proper.
 */
module RegionNames {
  import opened Bytes
  import opened VolumeCheckpoint

  // ---------------------------------------------------------------- UTF-8

  predicate Scalar(c: nat) {
    c <= 0x10FFFF && !(0xD800 <= c <= 0xDFFF)
  }

  /** The UTF-8 form of one character. */
  function Utf8(c: nat): (s: seq<byte>)
    requires Scalar(c)
    ensures 1 <= |s| <= 4
  {
    if c < 0x80 then [c]
    else if c < 0x800 then [0xC0 + c / 64, 0x80 + c % 64]
    else if c < 0x1_0000 then [0xE0 + c / 4096, 0x80 + c / 64 % 64, 0x80 + c % 64]
    else [0xF0 + c / 262144, 0x80 + c / 4096 % 64, 0x80 + c / 64 % 64, 0x80 + c % 64]
  }

  ghost predicate AllScalar(name: seq<nat>) {
    forall i :: 0 <= i < |name| ==> Scalar(name[i])
  }

  ghost function Utf8All(name: seq<nat>): seq<byte>
    requires AllScalar(name)
  {
    if name == [] then [] else Utf8(name[0]) + Utf8All(name[1..])
  }

  /** A character's form is recognised whatever follows it. */
  lemma LeadingForm(c: nat, rest: seq<byte>)
    requires Scalar(c)
    ensures Utf8Length(Utf8(c) + rest) == |Utf8(c)|
  {
    var s := Utf8(c) + rest;
    assert s[0] == Utf8(c)[0];
    if |Utf8(c)| > 1 { assert s[1] == Utf8(c)[1]; }
    if |Utf8(c)| > 2 { assert s[2] == Utf8(c)[2]; }
    if |Utf8(c)| > 3 { assert s[3] == Utf8(c)[3]; }
  }

  /** What is recognised is the form of some character. */
  lemma FormOf(s: seq<byte>) returns (c: nat)
    requires Utf8Length(s) > 0
    ensures Scalar(c) && Utf8(c) == s[..Utf8Length(s)]
  {
    var n := Utf8Length(s);
    if n == 1 {
      c := s[0];
    } else if n == 2 {
      c := ShortForm(s[0], s[1]);
      assert s[..n] == [s[0], s[1]];
    } else if n == 3 {
      c := MiddleForm(s[0], s[1], s[2]);
      assert s[..n] == [s[0], s[1], s[2]];
    } else {
      c := LongForm(s[0], s[1], s[2], s[3]);
      assert s[..n] == [s[0], s[1], s[2], s[3]];
    }
  }

  lemma ShortForm(a: int, b: int) returns (c: nat)
    requires 0xC2 <= a <= 0xDF && 0x80 <= b <= 0xBF
    ensures Scalar(c) && Utf8(c) == [a, b]
  {
    c := (a - 0xC0) * 64 + (b - 0x80);
  }

  lemma MiddleForm(a: int, b: int, d: int) returns (c: nat)
    requires 0xE0 <= a <= 0xEF && 0x80 <= b <= 0xBF && 0x80 <= d <= 0xBF
    requires (a == 0xE0 ==> b >= 0xA0) && (a == 0xED ==> b < 0xA0)
    ensures Scalar(c) && Utf8(c) == [a, b, d]
  {
    c := (a - 0xE0) * 4096 + (b - 0x80) * 64 + (d - 0x80);
    Digits3(a - 0xE0, b - 0x80, d - 0x80);
  }

  lemma LongForm(a: int, b: int, d: int, e: int) returns (c: nat)
    requires 0xF0 <= a <= 0xF4 && 0x80 <= b <= 0xBF && 0x80 <= d <= 0xBF && 0x80 <= e <= 0xBF
    requires (a == 0xF0 ==> b >= 0x90) && (a == 0xF4 ==> b < 0x90)
    ensures Scalar(c) && Utf8(c) == [a, b, d, e]
  {
    c := (a - 0xF0) * 262144 + (b - 0x80) * 4096 + (d - 0x80) * 64 + (e - 0x80);
    Digits4(a - 0xF0, b - 0x80, d - 0x80, e - 0x80);
  }

  lemma Digits3(x: nat, y: nat, z: nat)
    requires y < 64 && z < 64
    ensures var c := x * 4096 + y * 64 + z; c / 4096 == x && c / 64 % 64 == y && c % 64 == z
  {
    var c := x * 4096 + y * 64 + z;
    assert c / 64 == x * 64 + y;
  }

  lemma Digits4(w: nat, x: nat, y: nat, z: nat)
    requires x < 64 && y < 64 && z < 64
    ensures var c := w * 262144 + x * 4096 + y * 64 + z;
            c / 262144 == w && c / 4096 % 64 == x && c / 64 % 64 == y && c % 64 == z
  {
    var c := w * 262144 + x * 4096 + y * 64 + z;
    assert c / 4096 == w * 64 + x;
    assert c / 64 == w * 4096 + x * 64 + y;
    assert c / 64 % 64 == y by { assert w * 4096 + x * 64 + y == (w * 64 + x) * 64 + y; }
  }

  lemma {:induction false} FormsAreValid(name: seq<nat>)
    requires AllScalar(name)
    ensures ValidUtf8(Utf8All(name))
    decreases |name|
  {
    if name != [] {
      var rest := Utf8All(name[1..]);
      LeadingForm(name[0], rest);
      FormsAreValid(name[1..]);
      assert (Utf8(name[0]) + rest)[|Utf8(name[0])|..] == rest;
    }
  }

  lemma {:induction false} ValidAreForms(s: seq<byte>) returns (name: seq<nat>)
    requires ValidUtf8(s)
    ensures AllScalar(name) && Utf8All(name) == s
    decreases |s|
  {
    hide Utf8Length, Utf8;
    if s == [] {
      name := [];
    } else {
      var n := Utf8Length(s);
      var c := FormOf(s);
      var rest := ValidAreForms(s[n..]);
      name := [c] + rest;
      assert name[1..] == rest && s == s[..n] + s[n..];
    }
  }

  // ---------------------------------------------------------------- control characters

  predicate IsControl(c: nat) {
    c < 0x20 || 0x7F <= c <= 0x9F
  }

  ghost predicate HasControlByte(s: seq<byte>) {
    exists i :: 0 <= i < |s| && ControlAt(s, i)
  }

  lemma ControlForm(c: nat, rest: seq<byte>, i: nat)
    requires Scalar(c) && i < |Utf8(c)|
    ensures ControlAt(Utf8(c) + rest, i) <==> i == 0 && IsControl(c)
  {
    var s := Utf8(c) + rest;
    assert s[i] == Utf8(c)[i];
    if i + 1 < |Utf8(c)| { assert s[i + 1] == Utf8(c)[i + 1]; }
  }

  lemma ControlLater(a: seq<byte>, b: seq<byte>, i: nat)
    requires i < |b|
    ensures ControlAt(a + b, |a| + i) <==> ControlAt(b, i)
  {}

  /** The byte test finds exactly the control characters. */
  lemma {:induction false} ControlsAre(name: seq<nat>)
    requires AllScalar(name)
    ensures HasControlByte(Utf8All(name)) <==> exists k :: 0 <= k < |name| && IsControl(name[k])
    decreases |name|
  {
    if name != [] {
      var first, rest := Utf8(name[0]), Utf8All(name[1..]);
      var s := first + rest;
      ControlsAre(name[1..]);
      ControlForm(name[0], rest, 0);
      if i :| 0 <= i < |s| && ControlAt(s, i) {
        if i < |first| {
          ControlForm(name[0], rest, i);
        } else {
          ControlLater(first, rest, i - |first|);
          assert HasControlByte(rest);
          var k :| 0 <= k < |name[1..]| && IsControl(name[1..][k]);
          assert IsControl(name[k + 1]);
        }
      }
      if k :| 0 <= k < |name| && IsControl(name[k]) {
        if k == 0 {
          assert ControlAt(s, 0);
        } else {
          assert name[1..][k - 1] == name[k];
          var i :| 0 <= i < |rest| && ControlAt(rest, i);
          ControlLater(first, rest, i);
          assert ControlAt(s, |first| + i);
        }
      }
    }
  }

  // ---------------------------------------------------------------- parts

  const SLASH: byte := 0x2F

  /** From one slash, or the start, to the next one, or the end. */
  ghost predicate IsPart(s: seq<byte>, i: int, j: int) {
    && 0 <= i <= j <= |s| && SLASH !in s[i..j]
    && (i == 0 || s[i - 1] == SLASH) && (j == |s| || s[j] == SLASH)
  }

  ghost predicate PartFrom(s: seq<byte>, p: nat, part: seq<byte>) {
    exists i, j :: p <= i && IsPart(s, i, j) && part == s[i..j]
  }

  lemma {:induction false} PartsFrom(s: seq<byte>, p: nat, k: nat, part: seq<byte>)
    requires p <= k <= |s| && (p == 0 || s[p - 1] == SLASH) && SLASH !in s[p..k]
    ensures part in Parts(s[k..], s[p..k]) <==> PartFrom(s, p, part)
    decreases |s| - k
  {
    if k == |s| {
      OnePart(s, p, k, part);
    } else if s[k] == SLASH {
      PartsFrom(s, k + 1, k + 1, part);
      assert s[k + 1..k + 1] == [] && s[k..][1..] == s[k + 1..];
      OnePart(s, p, k, part);
    } else {
      assert s[p..k] + [s[k]] == s[p..k + 1] && s[k..][1..] == s[k + 1..];
      PartsFrom(s, p, k + 1, part);
    }
  }

  /** The part that starts at p ends at the first slash; the others start behind it. */
  lemma OnePart(s: seq<byte>, p: nat, k: nat, part: seq<byte>)
    requires p <= k <= |s| && (p == 0 || s[p - 1] == SLASH) && SLASH !in s[p..k]
    requires k == |s| || s[k] == SLASH
    ensures PartFrom(s, p, part) <==> part == s[p..k] || (k < |s| && PartFrom(s, k + 1, part))
  {
    assert IsPart(s, p, k);
    forall i, j | p <= i && IsPart(s, i, j) ensures (i == p && j == k) || k + 1 <= i {
      if i > p {
        assert s[i - 1] == SLASH;
        NoSlash(s, p, k, i - 1);
      } else {
        NoSlash(s, p, k, j);
        NoSlash(s, i, j, k);
      }
    }
    if PartFrom(s, p, part) {
      var i, j :| p <= i && IsPart(s, i, j) && part == s[i..j];
      assert i == p || k + 1 <= i;
    }
  }

  lemma NoSlash(s: seq<byte>, p: nat, k: nat, i: nat)
    requires p <= k <= |s| && SLASH !in s[p..k]
    ensures p <= i < k ==> s[i] != SLASH
  {
    if p <= i < k { assert s[p..k][i - p] == s[i]; }
  }

  // ---------------------------------------------------------------- names

  /** Characters without controls or backslashes, in parts that are neither empty nor a dot or two. */
  ghost predicate IsName(raw: seq<byte>, name: seq<nat>) {
    && AllScalar(name) && raw == Utf8All(name) && 0 < |raw| <= 512
    && (forall k :: 0 <= k < |name| ==> !IsControl(name[k]))
    && 0x5C !in raw
    && (forall i, j :: IsPart(raw, i, j) ==> i < j && raw[i..j] != Ascii(".") && raw[i..j] != Ascii(".."))
  }

  lemma RegionNameExact(raw: seq<byte>)
    ensures ValidRegionName(raw) <==> exists name :: IsName(raw, name)
  {
    hide ValidUtf8, Parts, ControlAt;
    if ValidRegionName(raw) {
      var name := ValidAreForms(raw);
      ControlsAre(name);
      forall i, j | IsPart(raw, i, j) ensures i < j && raw[i..j] != Ascii(".") && raw[i..j] != Ascii("..") {
        PartProper(raw, i, j);
      }
      assert IsName(raw, name);
    }
    if name :| IsName(raw, name) {
      FormsAreValid(name);
      ControlsAre(name);
      assert forall i :: 0 <= i < |raw| ==> !ControlAt(raw, i);
      forall part | part in Parts(raw, []) ensures part != [] && part != [0x2E] && part != [0x2E, 0x2E] {
        ProperPart(raw, name, part);
      }
    }
  }

  lemma PartProper(raw: seq<byte>, i: int, j: int)
    requires ValidRegionName(raw) && IsPart(raw, i, j)
    ensures i < j && raw[i..j] != Ascii(".") && raw[i..j] != Ascii("..")
  {
    hide ValidUtf8, Parts;
    assert raw[0..0] == [] && raw[0..] == raw;
    PartsFrom(raw, 0, 0, raw[i..j]);
    assert PartFrom(raw, 0, raw[i..j]);
    Dots();
  }

  lemma ProperPart(raw: seq<byte>, name: seq<nat>, part: seq<byte>)
    requires IsName(raw, name) && part in Parts(raw, [])
    ensures part != [] && part != [0x2E] && part != [0x2E, 0x2E]
  {
    hide Parts;
    assert raw[0..0] == [] && raw[0..] == raw;
    PartsFrom(raw, 0, 0, part);
    var i, j :| 0 <= i && IsPart(raw, i, j) && part == raw[i..j];
    Dots();
  }

  lemma Dots()
    ensures Ascii(".") == [0x2E] && Ascii("..") == [0x2E, 0x2E]
  {}
}
