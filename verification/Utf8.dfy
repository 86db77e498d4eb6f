/** UTF-8 as `str::from_utf8`, `String::from_utf8_lossy` and `char::encode_utf8` treat it:
    the well-formed sequences of Table 3-7 of the Unicode Standard. */
module Utf8 {
  import opened Bytes

  predicate Cont(b: byte) { 0x80 <= b <= 0xBF }

  /** Second byte allowed after a three- or four-byte lead. */
  predicate Second(lead: byte, b: byte) {
    if lead == 0xE0 then 0xA0 <= b <= 0xBF
    else if lead == 0xED then 0x80 <= b <= 0x9F
    else if lead == 0xF0 then 0x90 <= b <= 0xBF
    else if lead == 0xF4 then 0x80 <= b <= 0x8F
    else Cont(b)
  }

  /** Length of the well-formed sequence that `s` starts with; 0 when there is none. */
  function Lead(s: bytes): (n: nat)
    ensures n <= |s| && n <= 4
    ensures s != [] && s[0] < 0x80 ==> n == 1
  {
    if s == [] then 0
    else if s[0] <= 0x7F then 1
    else if 0xC2 <= s[0] <= 0xDF then if |s| >= 2 && Cont(s[1]) then 2 else 0
    else if 0xE0 <= s[0] <= 0xEF then
      if |s| >= 3 && Second(s[0], s[1]) && Cont(s[2]) then 3 else 0
    else if 0xF0 <= s[0] <= 0xF4 then
      if |s| >= 4 && Second(s[0], s[1]) && Cont(s[2]) && Cont(s[3]) then 4 else 0
    else 0
  }

  /** `str::from_utf8(s).is_ok()`. */
  predicate Valid(s: bytes) {
    s == [] || (Lead(s) > 0 && Valid(s[Lead(s)..]))
  }

  /** An ASCII byte never lies inside a multi-byte sequence, so cutting at one keeps validity:
      the whole is valid exactly when both sides are. */
  lemma {:induction false} ValidSplitAtAscii(a: bytes, c: byte, b: bytes)
    requires c < 0x80
    ensures Valid(a + [c] + b) <==> Valid(a) && Valid(b)
    decreases |a|
  {
    var s := a + [c] + b;
    if a == [] {
      assert s[1..] == b;
    } else {
      assert Lead(s) == Lead(a);
      if Lead(a) > 0 {
        assert s[Lead(a)..] == a[Lead(a)..] + [c] + b;
        ValidSplitAtAscii(a[Lead(a)..], c, b);
      }
    }
  }

  lemma {:induction false} AsciiValid(s: bytes)
    requires forall i :: 0 <= i < |s| ==> s[i] < 0x80
    ensures Valid(s)
  {
    if s != [] { AsciiValid(s[1..]); }
  }

  // ---- scalars ----

  type scalar = c: int | 0 <= c < 0xD800 || 0xE000 <= c < 0x110000

  const REPLACEMENT: scalar := 0xFFFD

  /** `char::from_u32`. */
  function FromU32(code: int): (r: Option<scalar>)
    requires 0 <= code
  {
    if code < 0xD800 || 0xE000 <= code < 0x110000 then Some(code) else None
  }

  /** `char::encode_utf8`. */
  function Encode(c: scalar): (r: bytes)
    ensures 1 <= |r| <= 4
  {
    if c < 0x80 then [c]
    else if c < 0x800 then [0xC0 + c / 0x40, 0x80 + c % 0x40]
    else if c < 0x10000 then [0xE0 + c / 0x1000, 0x80 + c / 0x40 % 0x40, 0x80 + c % 0x40]
    else [0xF0 + c / 0x40000, 0x80 + c / 0x1000 % 0x40, 0x80 + c / 0x40 % 0x40, 0x80 + c % 0x40]
  }

  /** The scalar spelled by the well-formed sequence that `s` starts with. */
  function First(s: bytes): scalar
    requires Lead(s) > 0
  {
    var n := Lead(s);
    var a: int := s[0];
    if n == 1 then a
    else
      var b: int := s[1];
      if n == 2 then (a - 0xC0) * 0x40 + (b - 0x80)
      else
        var c: int := s[2];
        if n == 3 then (a - 0xE0) * 0x1000 + (b - 0x80) * 0x40 + (c - 0x80)
        else
          var d: int := s[3];
          (a - 0xF0) * 0x40000 + (b - 0x80) * 0x1000 + (c - 0x80) * 0x40 + (d - 0x80)
  }

  /** The characters of a byte string, when it is UTF-8. */
  function Decode(s: bytes): Option<seq<scalar>> {
    if s == [] then Some([])
    else if Lead(s) == 0 then None
    else match Decode(s[Lead(s)..])
      case None => None
      case Some(rest) => Some([First(s)] + rest)
  }

  /** `Encode` writes a well-formed sequence that reads back as `c`, whatever follows it. */
  lemma EncodeFirst(c: scalar, rest: bytes)
    ensures Lead(Encode(c) + rest) == |Encode(c)| && First(Encode(c) + rest) == c
  {
    var e, s := Encode(c), Encode(c) + rest;
    assert s[..|e|] == e;
    if c < 0x80 {
    } else if c < 0x800 {
      assert s[0] == e[0] && s[1] == e[1];
    } else if c < 0x10000 {
      ThreeByteLead(c);
      assert s[0] == e[0] && s[1] == e[1] && s[2] == e[2];
    } else {
      FourByteLead(c);
      assert s[0] == e[0] && s[1] == e[1] && s[2] == e[2] && s[3] == e[3];
    }
  }

  /** And the only one: a well-formed sequence is the encoding of the scalar it reads as. */
  lemma FirstEncode(s: bytes)
    requires Lead(s) > 0
    ensures Encode(First(s)) == s[..Lead(s)]
  {
    if Lead(s) == 2 {
      TwoDigits(s[0] - 0xC0, s[1] - 0x80);
    } else if Lead(s) == 3 {
      FirstOfThree(s);
    } else if Lead(s) == 4 {
      FirstOfFour(s);
    }
  }

  lemma FirstOfThree(s: bytes)
    requires Lead(s) == 3
    ensures Encode(First(s)) == s[..3]
  {
    var a: int, b: int, c: int := s[0] - 0xE0, s[1] - 0x80, s[2] - 0x80;
    ThreeDigits(a, b, c);
    assert 0x800 <= a * 0x1000 + b * 0x40 + c < 0x10000;
  }

  lemma FirstOfFour(s: bytes)
    requires Lead(s) == 4
    ensures Encode(First(s)) == s[..4]
  {
    var a: int, b: int, c: int, d: int := s[0] - 0xF0, s[1] - 0x80, s[2] - 0x80, s[3] - 0x80;
    FourDigits(a, b, c, d);
    assert 0x10000 <= a * 0x40000 + b * 0x1000 + c * 0x40 + d;
  }

  lemma TwoDigits(a: int, b: int)
    requires 0 <= b < 0x40
    ensures (a * 0x40 + b) / 0x40 == a && (a * 0x40 + b) % 0x40 == b
  {
  }

  lemma ThreeDigits(a: int, b: int, c: int)
    requires 0 <= b < 0x40 && 0 <= c < 0x40
    ensures var x := a * 0x1000 + b * 0x40 + c; x / 0x1000 == a && x / 0x40 % 0x40 == b && x % 0x40 == c
  {
    TwoDigits(a * 0x40 + b, c);
    TwoDigits(a, b);
  }

  lemma FourDigits(a: int, b: int, c: int, d: int)
    requires 0 <= b < 0x40 && 0 <= c < 0x40 && 0 <= d < 0x40
    ensures var x := a * 0x40000 + b * 0x1000 + c * 0x40 + d;
      x / 0x40000 == a && x / 0x1000 % 0x40 == b && x / 0x40 % 0x40 == c && x % 0x40 == d
  {
    TwoDigits(a * 0x1000 + b * 0x40 + c, d);
    ThreeDigits(a, b, c);
  }

  lemma ThreeByteLead(c: scalar)
    requires 0x800 <= c < 0x10000
    ensures var e := Encode(c);
      && 0xE0 <= e[0] <= 0xEF && Second(e[0], e[1]) && Cont(e[2])
      && (e[0] as int - 0xE0) * 0x1000 + (e[1] as int - 0x80) * 0x40 + (e[2] as int - 0x80) == c
  {
    var q := c / 0x40;
    assert c / 0x1000 == q / 0x40;
  }

  lemma FourByteLead(c: scalar)
    requires 0x10000 <= c
    ensures var e := Encode(c);
      && 0xF0 <= e[0] <= 0xF4 && Second(e[0], e[1]) && Cont(e[2]) && Cont(e[3])
      && (e[0] as int - 0xF0) * 0x40000 + (e[1] as int - 0x80) * 0x1000
         + (e[2] as int - 0x80) * 0x40 + (e[3] as int - 0x80) == c
  {
    var q := c / 0x40;
    var r := q / 0x40;
    assert c / 0x1000 == r;
    assert c / 0x40000 == r / 0x40;
  }

  lemma {:induction false} DecodeAscii(s: bytes)
    requires forall i :: 0 <= i < |s| ==> s[i] < 0x80
    ensures Decode(s).Some? && |Decode(s).value| == |s|
    ensures forall i :: 0 <= i < |s| ==> Decode(s).value[i] == s[i]
  {
    if s != [] { DecodeAscii(s[1..]); }
  }

  // ---- lossy decoding ----

  /** How many bytes one replacement character stands for: the maximal subpart of an ill-formed sequence. */
  function Subpart(s: bytes): (n: nat)
    requires s != [] && Lead(s) == 0
    ensures 1 <= n <= |s|
  {
    if 0xE0 <= s[0] <= 0xEF && |s| >= 2 && Second(s[0], s[1]) then 2
    else if 0xF0 <= s[0] <= 0xF4 && |s| >= 2 && Second(s[0], s[1]) then
      if |s| >= 3 && Cont(s[2]) then 3 else 2
    else 1
  }

  /** `String::from_utf8_lossy`, as the UTF-8 bytes of the resulting string. */
  function Lossy(s: bytes): bytes {
    if s == [] then []
    else if Lead(s) > 0 then s[..Lead(s)] + Lossy(s[Lead(s)..])
    else Encode(REPLACEMENT) + Lossy(s[Subpart(s)..])
  }

  ghost predicate HasReplacement(s: bytes) {
    exists i: nat :: At(s, i, Encode(REPLACEMENT))
  }

  lemma {:induction false} LossyOfValid(s: bytes)
    requires Valid(s)
    ensures Lossy(s) == s
  {
    if s != [] { LossyOfValid(s[Lead(s)..]); }
  }

  /** ASCII bytes come through, and only those that were there. */
  lemma {:induction false} LossyKeepsAscii(s: bytes)
    ensures KeepsAscii(s, Lossy(s))
  {
    hide Lossy, Lead, Subpart, Encode, KeepsAscii;
    if s == [] {
      LossyOfNothing();
    } else if Lead(s) > 0 {
      var n := Lead(s);
      LossyKeepsAscii(s[n..]);
      LossyStep(s);
      Itself(s[..n]);
      Both(s, n, s[..n], Lossy(s[n..]));
    } else {
      var n := Subpart(s);
      LossyKeepsAscii(s[n..]);
      LossyMark(s);
      MarkKeepsAscii(s[..n]);
      Both(s, n, Encode(REPLACEMENT), Lossy(s[n..]));
    }
  }

  /** `t` has no ASCII bytes but those of `s`, and none at its ends but those at the ends of `s`. */
  predicate KeepsAscii(s: bytes, t: bytes) {
    && (forall c :: c in t && c < 0x80 ==> c in s) && (s == [] <==> t == [])
    && (s != [] ==> (t[0] == s[0] || t[0] >= 0x80) && (t[|t| - 1] == s[|s| - 1] || t[|t| - 1] >= 0x80))
  }

  lemma Itself(s: bytes)
    ensures KeepsAscii(s, s)
  {
  }

  lemma MarkKeepsAscii(s: bytes)
    requires s != []
    ensures KeepsAscii(s, Encode(REPLACEMENT))
  {
    assert Encode(REPLACEMENT) == [0xEF, 0xBF, 0xBD];
  }

  lemma LossyOfNothing()
    ensures KeepsAscii([], Lossy([]))
  {
  }

  lemma Both(s: bytes, n: nat, t: bytes, t': bytes)
    requires n <= |s| && KeepsAscii(s[..n], t) && KeepsAscii(s[n..], t')
    ensures KeepsAscii(s, t + t')
  {
  }

  lemma LossyMark(s: bytes)
    requires s != [] && Lead(s) == 0
    ensures Lossy(s) == Encode(REPLACEMENT) + Lossy(s[Subpart(s)..])
  {
  }

  lemma ReplacementBehind(a: bytes, t: bytes)
    requires HasReplacement(t)
    ensures HasReplacement(a + t)
  {
    hide Encode;
    var mark := Encode(REPLACEMENT);
    var i: nat :| At(t, i, mark);
    var j := |a| + i;
    assert (a + t)[j..j + |mark|] == t[i..i + |mark|];
    assert At(a + t, j, mark);
  }

  lemma ReplacementInFront(t: bytes)
    ensures HasReplacement(Encode(REPLACEMENT) + t)
  {
    hide Encode;
    var mark := Encode(REPLACEMENT);
    assert (mark + t)[0..|mark|] == mark;
    assert At(mark + t, 0, mark);
  }

  lemma {:induction false} LossyOfInvalid(s: bytes)
    requires !Valid(s)
    ensures HasReplacement(Lossy(s))
  {
    hide Lead, Subpart, Encode, HasReplacement;
    if Lead(s) > 0 {
      LossyOfInvalid(s[Lead(s)..]);
      ReplacementBehind(s[..Lead(s)], Lossy(s[Lead(s)..]));
    } else {
      ReplacementInFront(Lossy(s[Subpart(s)..]));
    }
  }

  lemma LeadOfPrefix(p: bytes, t: bytes)
    requires Lead(p) > 0
    ensures Lead(p + t) == Lead(p)
  {
  }

  lemma CutFront(p: bytes, t: bytes, n: nat)
    requires n <= |p|
    ensures (p + t)[n..] == p[n..] + t && (p + t)[..n] == p[..n]
  {
  }

  lemma LossyStep(s: bytes)
    requires Lead(s) > 0
    ensures Lossy(s) == s[..Lead(s)] + Lossy(s[Lead(s)..])
  {
  }

  /** Valid text in front is copied. */
  lemma {:induction false} LossyBehindValid(p: bytes, t: bytes)
    requires Valid(p)
    ensures Lossy(p + t) == p + Lossy(t)
  {
    hide Lead, Encode, Lossy;
    if p == [] {
      assert p + t == t;
    } else {
      var n := Lead(p);
      LeadOfPrefix(p, t);
      CutFront(p, t, n);
      LossyStep(p + t);
      LossyBehindValid(p[n..], t);
      Assoc(p[..n], p[n..], Lossy(t));
      assert p[..n] + p[n..] == p;
    }
  }

  /** A lead byte never lies inside a sequence, so valid text can be cut around U+FFFD. */
  lemma {:induction false} ValidAroundReplacement(s: bytes, i: nat)
    requires Valid(s) && At(s, i, Encode(REPLACEMENT))
    ensures Valid(s[..i]) && Valid(s[i + 3..])
    decreases |s|
  {
    hide Lead, Encode;
    var n := Lead(s);
    MarkIs(s, i);
    if i > 0 {
      var t := s[n..];
      assert t[i - n..i - n + 3] == s[i..i + 3];
      ValidAroundReplacement(t, i - n);
      assert t[i - n + 3..] == s[i + 3..];
      assert s[..i][n..] == t[..i - n];
      LeadInside(s, i);
    }
  }

  /** U+FFFD starts a sequence of its own. */
  lemma MarkIs(s: bytes, i: nat)
    requires s != [] && Lead(s) > 0 && At(s, i, Encode(REPLACEMENT))
    ensures |Encode(REPLACEMENT)| == 3 && if i == 0 then Lead(s) == 3 else i >= Lead(s)
  {
    assert Encode(REPLACEMENT) == [0xEF, 0xBF, 0xBD];
    assert s[i] == s[i..i + 3][0] && s[i + 1] == s[i..i + 3][1] && s[i + 2] == s[i..i + 3][2];
  }

  lemma LeadInside(s: bytes, i: nat)
    requires 0 < Lead(s) <= i <= |s|
    ensures Lead(s[..i]) == Lead(s)
  {
  }

  /** A byte that starts nothing decodes to U+FFFD alone. */
  lemma LossyOfStray(p: bytes, t: bytes)
    requires Valid(p) && Valid(t)
    ensures Lossy(p + ([0xFF] + t)) == p + Encode(REPLACEMENT) + t
  {
    LossyBehindValid(p, [0xFF] + t);
    assert ([0xFF] + t)[1..] == t;
    LossyOfValid(t);
    Assoc(p, Encode(REPLACEMENT), t);
  }

  // ---- the encoding in bytes ----

  /** One to four bytes: A, e acute, the euro sign, a grinning face, and U+FFFD. */
  lemma EncodingExamples()
    ensures Encode(0x41) == [0x41] && Encode(0xE9) == [0xC3, 0xA9] && Encode(0x20AC) == [0xE2, 0x82, 0xAC]
    ensures Encode(0x1F600) == [0xF0, 0x9F, 0x98, 0x80] && Encode(REPLACEMENT) == [0xEF, 0xBF, 0xBD]
  {
  }

  /** A replacement character stands for the longest front that more bytes could have completed, or for one byte. */
  lemma SubpartIsMaximal(s: bytes)
    requires s != [] && Lead(s) == 0
    ensures Subpart(s) > 1 ==> exists t: bytes :: Lead(s[..Subpart(s)] + t) > Subpart(s)
    ensures forall k, t: bytes :: Subpart(s) < k <= |s| ==> Lead(s[..k] + t) <= k
  {
    var n := Subpart(s);
    if n > 1 {
      var t: bytes := if s[0] < 0xF0 then [0x80] else if n == 2 then [0x80, 0x80] else [0x80];
      var u := s[..n] + t;
      assert u[0] == s[0] && u[1] == s[1] && (n == 3 ==> u[2] == s[2]);
      assert Lead(u) > n;
    }
    forall k, t: bytes | n < k <= |s|
      ensures Lead(s[..k] + t) <= k
    {
      var u := s[..k] + t;
      assert forall i :: 0 <= i < k ==> u[i] == s[i];
    }
  }
}
