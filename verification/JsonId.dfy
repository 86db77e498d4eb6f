/** `unescape_json_id` (rust/crypto/session.rs) and the escapings it undoes. */
module JsonId {
  import opened Bytes
  import opened Utf8
  import opened JsonText
  import opened JsonEscape

  const U: byte := 0x75

  /** Decode four hex digits at `at`. */
  function Hex4(s: bytes, at: nat): (r: Option<int>)
    ensures r.Some? ==> at + 4 <= |s| && 0 <= r.value < 0x10000
  {
    if at + 4 <= |s| && IsHex(s[at]) && IsHex(s[at + 1]) && IsHex(s[at + 2]) && IsHex(s[at + 3]) then
      Some(0x1000 * HexVal(s[at]).value + 0x100 * HexVal(s[at + 1]).value
           + 0x10 * HexVal(s[at + 2]).value + HexVal(s[at + 3]).value)
    else None
  }

  function HexNumber(t: bytes): int
    requires AllHex(t)
  {
    if t == [] then 0 else HexNumber(t[..|t| - 1]) * 16 + HexVal(t[|t| - 1]).value
  }

  lemma FourDigits(t: bytes)
    requires |t| == 4 && AllHex(t)
    ensures Hex4(t, 0) == Some(HexNumber(t))
  {
    assert t[..3][..2] == t[..2] && t[..2][..1] == t[..1] && t[..1][..0] == [];
    assert HexNumber(t[..1]) == HexVal(t[0]).value;
    assert HexNumber(t[..2]) == HexNumber(t[..1]) * 16 + HexVal(t[1]).value;
    assert HexNumber(t[..3]) == HexNumber(t[..2]) * 16 + HexVal(t[2]).value;
  }

  /** `hex4`: digit by digit, giving up at the first byte that is missing or no digit. */
  method ReadHex4(s: bytes, at: nat) returns (r: Option<int>)
    ensures r == Hex4(s, at)
  {
    var v := 0;
    for k := 0 to 4
      invariant k > 0 ==> at + k <= |s|
      invariant k > 0 ==> AllHex(s[at..at + k]) && v == HexNumber(s[at..at + k])
      invariant k == 0 ==> v == 0
    {
      if at + k >= |s| || !IsHex(s[at + k]) {
        assert at + 4 <= |s| ==> !IsHex(s[at + k]);
        return None;
      }
      ghost var t := s[at..at + k + 1];
      assert t[..k] == s[at..at + k];
      v := v * 16 + HexVal(s[at + k]).value;
    }
    FourDigits(s[at..at + 4]);
    return Some(v);
  }

  /** The byte that a one-letter escape stands for. */
  function Short(e: byte): Option<byte> {
    if e == QUOTE || e == BACKSLASH || e == SLASH then Some(e)
    else if e == 0x62 then Some(BS)
    else if e == 0x66 then Some(FF)
    else if e == 0x6E then Some(LF)
    else if e == 0x72 then Some(CR)
    else if e == 0x74 then Some(TAB)
    else None
  }

  predicate High(c: int) { 0xD800 <= c <= 0xDBFF }
  predicate Low(c: int) { 0xDC00 <= c <= 0xDFFF }

  /** `\uHHHH\uLLLL` with a high and then a low surrogate. */
  predicate Pair(s: bytes) {
    && Hex4(s, 2).Some? && High(Hex4(s, 2).value)
    && |s| >= 8 && s[6] == BACKSLASH && s[7] == U
    && Hex4(s, 8).Some? && Low(Hex4(s, 8).value)
  }

  function Combined(hi: int, lo: int): (c: scalar)
    requires High(hi) && Low(lo)
    ensures c >= 0x10000
  {
    0x10000 + (hi - 0xD800) * 0x400 + (lo - 0xDC00)
  }

  /** What the front of `s` decodes to, and how many bytes that takes. */
  function Step(s: bytes): (r: (bytes, nat))
    requires s != []
    ensures 1 <= r.1 <= |s|
  {
    if s[0] != BACKSLASH then ([s[0]], 1)
    else if |s| == 1 then ([BACKSLASH], 1)
    else if Short(s[1]).Some? then ([Short(s[1]).value], 2)
    else if s[1] != U then ([BACKSLASH, s[1]], 2)
    else match Hex4(s, 2)
      case None => ([BACKSLASH, U], 2)
      case Some(cp) =>
        if cp <= 0xFF then ([cp], 6)
        else if Pair(s) then (Encode(Combined(cp, Hex4(s, 8).value)), 12)
        else (Encode(OrReplacement(FromU32(cp))), 6)
  }

  function OrReplacement(c: Option<scalar>): scalar {
    match c case Some(x) => x case None => REPLACEMENT
  }

  function Unescape(s: bytes): bytes {
    if s == [] then [] else Step(s).0 + Unescape(s[Step(s).1..])
  }

  lemma Hex4Suffix(s: bytes, i: nat, at: nat)
    requires i <= |s|
    ensures Hex4(s[i..], at) == Hex4(s, i + at)
  {
  }

  /** One turn of the loop at a backslash that something follows, as `Step` has it. */
  method DecodeEscape(s: bytes, at: nat) returns (piece: bytes, next: nat)
    requires at + 1 < |s| && s[at] == BACKSLASH
    ensures (piece, next - at) == Step(s[at..])
  {
    var e := s[at + 1];
    var i := at + 2;
    Hex4Suffix(s, at, 2);
    Hex4Suffix(s, at, 8);
    if Short(e).Some? { return [Short(e).value], i; }
    if e != U { return [BACKSLASH, e], i; }
    var cp := ReadHex4(s, i);
    if cp.None? { return [BACKSLASH, U], i; }
    i := i + 4;
    if cp.value <= 0xFF { return [cp.value], i; }
    var code := cp.value;
    if High(cp.value) && i + 1 < |s| && s[i] == BACKSLASH && s[i + 1] == U {
      var lo := ReadHex4(s, i + 2);
      if lo.Some? && Low(lo.value) {
        code := 0x10000 + (cp.value - 0xD800) * 0x400 + (lo.value - 0xDC00);
        i := i + 6;
      }
    }
    return Encode(OrReplacement(FromU32(code))), i;
  }

  /** `unescape_json_id`. */
  method UnescapeId(s: bytes) returns (out: bytes)
    ensures out == Unescape(s)
  {
    hide Step;
    out := [];
    var i := 0;
    assert s[0..] == s;
    while i < |s|
      invariant i <= |s|
      invariant Unescape(s) == out + Unescape(s[i..])
    {
      ghost var rest := s[i..];
      var piece, next;
      if s[i] != BACKSLASH {
        piece, next := [s[i]], i + 1;
        PlainStep(rest);
      } else if i + 1 >= |s| {
        piece, next := [BACKSLASH], i + 1;
        PlainStep(rest);
      } else {
        piece, next := DecodeEscape(s, i);
      }
      assert s[next..] == rest[next - i..];
      Assoc(out, piece, Unescape(s[next..]));
      out := out + piece;
      i := next;
    }
  }

  lemma PlainStep(s: bytes)
    requires s != [] && (s[0] != BACKSLASH || |s| == 1)
    ensures Step(s) == ([s[0]], 1)
  {
  }

  // ---- the escapings ----

  /** `e` is a way to write the byte `b` in a JSON string: as itself, as a short escape, or as `\u00XX`. */
  predicate SpellsByte(e: bytes, b: byte) {
    || (e == [b] && b != QUOTE && b != BACKSLASH)
    || (|e| == 2 && e[0] == BACKSLASH && Short(e[1]) == Some(b))
    || (|e| == 6 && e[0] == BACKSLASH && e[1] == U && Hex4(e, 2) == Some(b))
  }

  /** `e` writes the scalar `c`, above 0xFF, as one `\u` escape or as a surrogate pair (section 7 of RFC 8259). */
  predicate SpellsScalar(e: bytes, c: scalar) {
    && c > 0xFF && |e| >= 6 && e[0] == BACKSLASH && e[1] == U
    && ((|e| == 6 && Hex4(e, 2) == Some(c))
        || (|e| == 12 && Pair(e) && Combined(Hex4(e, 2).value, Hex4(e, 8).value) == c))
  }

  /** `e` is written for the decoded bytes `out`. */
  ghost predicate Spells(e: bytes, out: bytes) {
    || (|out| == 1 && SpellsByte(e, out[0]))
    || (exists c: scalar :: SpellsScalar(e, c) && out == Encode(c))
  }

  function Join(parts: seq<bytes>): bytes {
    if parts == [] then [] else parts[0] + Join(parts[1..])
  }

  ghost predicate Escaping(parts: seq<bytes>, outs: seq<bytes>) {
    |parts| == |outs| && forall i :: 0 <= i < |parts| ==> Spells(parts[i], outs[i])
  }

  lemma Hex4Prefix(e: bytes, rest: bytes, at: nat)
    requires at + 4 <= |e|
    ensures Hex4(e + rest, at) == Hex4(e, at)
  {
  }

  /** An escape decodes to what it is written for, whatever comes behind it. */
  lemma StepSpells(e: bytes, out: bytes, rest: bytes)
    requires Spells(e, out)
    ensures e != [] && Step(e + rest) == (out, |e|)
  {
    hide Encode, HexVal;
    var s := e + rest;
    assert e != [] && s[0] == e[0];
    if |out| == 1 && SpellsByte(e, out[0]) {
      assert out == [out[0]];
      if |e| == 6 { Hex4Prefix(e, rest, 2); }
    } else {
      var c: scalar :| SpellsScalar(e, c) && out == Encode(c);
      assert s[1] == U;
      Hex4Prefix(e, rest, 2);
      if |e| == 12 {
        Hex4Prefix(e, rest, 8);
        assert s[6] == e[6] && s[7] == e[7];
      }
    }
  }

  /** Unescaping undoes every escaping, with the forms mixed freely. */
  lemma {:induction false} UnescapeJoin(parts: seq<bytes>, outs: seq<bytes>)
    requires Escaping(parts, outs)
    ensures Unescape(Join(parts)) == Join(outs)
  {
    hide Step, Spells;
    if parts != [] {
      var s := Join(parts);
      StepSpells(parts[0], outs[0], Join(parts[1..]));
      assert s[|parts[0]|..] == Join(parts[1..]);
      UnescapeJoin(parts[1..], outs[1..]);
    }
  }

  lemma HexNeutral(s: bytes, at: nat)
    requires Hex4(s, at).Some?
    ensures forall k :: at <= k < at + 4 ==> s[k] != QUOTE && s[k] != BACKSLASH
  {
  }

  /** Escaped text holds no bare quote. */
  lemma {:induction false} JoinIsBody(parts: seq<bytes>, outs: seq<bytes>)
    requires Escaping(parts, outs)
    ensures StringBody(Join(parts))
  {
    if parts != [] {
      JoinIsBody(parts[1..], outs[1..]);
      SpelledBody(parts[0], outs[0], Join(parts[1..]));
    }
  }

  lemma SpelledBody(e: bytes, out: bytes, rest: bytes)
    requires Spells(e, out) && StringBody(rest)
    ensures StringBody(e + rest)
  {
    hide Encode, Hex4;
    var s := e + rest;
    if |e| == 1 {
      assert s[1..] == rest;
    } else if |e| == 2 {
      assert s[2..] == rest;
    } else {
      HexNeutral(e, 2);
      if |e| == 12 {
        HexNeutral(e, 8);
        var t := e[6..] + rest;
        assert t[2..] == e[8..12] + rest;
        PlainBody(e[8..12], rest);
        assert StringBody(t);
        assert s[2..] == e[2..6] + t;
        PlainBody(e[2..6], t);
      } else {
        assert s[2..] == e[2..6] + rest;
        PlainBody(e[2..6], rest);
      }
    }
  }

  lemma {:induction false} PlainBody(a: bytes, rest: bytes)
    requires StringBody(rest) && forall k :: 0 <= k < |a| ==> a[k] != QUOTE && a[k] != BACKSLASH
    ensures StringBody(a + rest)
  {
    if a == [] {
      assert a + rest == rest;
    } else {
      assert (a + rest)[1..] == a[1..] + rest;
      PlainBody(a[1..], rest);
    }
  }

  // ---- the escaper is one of them ----

  function Singles(id: bytes): (r: seq<bytes>)
    ensures |r| == |id| && forall i :: 0 <= i < |id| ==> r[i] == [id[i]]
  {
    seq(|id|, i requires 0 <= i < |id| => [id[i]])
  }

  lemma {:induction false} JoinSingles(id: bytes)
    ensures Join(Singles(id)) == id
  {
    if id != [] {
      assert Singles(id)[1..] == Singles(id[1..]);
      JoinSingles(id[1..]);
    }
  }

  function Pieces(id: bytes, text: bool): (r: seq<bytes>)
    ensures |r| == |id|
    ensures forall i :: 0 <= i < |id| ==> r[i] == if text then EscapeByte(id[i]) else UEscape(id[i])
  {
    seq(|id|, i requires 0 <= i < |id| => if text then EscapeByte(id[i]) else UEscape(id[i]))
  }

  lemma {:induction false} JoinPieces(id: bytes, text: bool)
    ensures Join(Pieces(id, text)) == if text then EscapeText(id) else EscapeBinary(id)
  {
    hide EscapeByte, UEscape;
    if id != [] {
      assert Pieces(id, text)[1..] == Pieces(id[1..], text);
      JoinPieces(id[1..], text);
    }
  }

  lemma PieceSpells(b: byte)
    ensures SpellsByte(EscapeByte(b), b) && SpellsByte(UEscape(b), b)
  {
    var e := UEscape(b);
    assert HexVal(e[4]) == Some(b / 16) && HexVal(e[5]) == Some(b % 16);
  }

  /** The escaper's output is an escaping of the id, so it unescapes to the id byte for byte
      and can stand between quotes, be the id text or binary. */
  lemma EscapeInverse(id: bytes)
    ensures Unescape(Escape(id)) == id && StringBody(Escape(id))
  {
    hide EscapeByte, UEscape, SpellsByte;
    var parts := Pieces(id, Valid(id));
    forall i | 0 <= i < |id|
      ensures Spells(parts[i], Singles(id)[i])
    {
      PieceSpells(id[i]);
    }
    JoinPieces(id, Valid(id));
    JoinSingles(id);
    UnescapeJoin(parts, Singles(id));
    JoinIsBody(parts, Singles(id));
  }

  // ---- the escapes in bytes ----

  /** `\u` and the four lowercase digits of `x`, high digit first. */
  function UnicodeEscape(x: int): (r: bytes)
    requires 0 <= x < 0x10000
    ensures |r| == 6
  {
    [0x5C, 0x75, HexLower(x / 0x1000), HexLower(x / 0x100 % 16), HexLower(x / 0x10 % 16), HexLower(x % 16)]
  }

  lemma FourDigitsOf(x: int)
    requires 0 <= x < 0x10000
    ensures 0x1000 * (x / 0x1000) + 0x100 * (x / 0x100 % 16) + 0x10 * (x / 0x10 % 16) + x % 16 == x
  {
    var a := x / 0x10;
    var b := a / 0x10;
    assert x / 0x100 == b && x / 0x1000 == b / 0x10;
  }

  lemma EscapeReads(x: int, rest: bytes)
    requires 0 <= x < 0x10000
    ensures Hex4(UnicodeEscape(x) + rest, 2) == Some(x)
    ensures (UnicodeEscape(x) + rest)[6..] == rest && (UnicodeEscape(x) + rest)[..2] == [BACKSLASH, U]
  {
    hide HexVal;
    var s := UnicodeEscape(x) + rest;
    FourDigitsOf(x);
    assert s[2] == HexLower(x / 0x1000) && s[3] == HexLower(x / 0x100 % 16);
    assert s[4] == HexLower(x / 0x10 % 16) && s[5] == HexLower(x % 16);
  }

  /** A scalar above 0xFF, written as the four digits of its code or as those of two surrogates, unescapes to its UTF-8
      encoding, whatever follows. */
  lemma ScalarEscapes(c: scalar, rest: bytes)
    requires c > 0xFF
    ensures c < 0x10000 ==> Unescape(UnicodeEscape(c) + rest) == Encode(c) + Unescape(rest)
    ensures c >= 0x10000 ==> var x := c - 0x10000;
      Unescape(UnicodeEscape(0xD800 + x / 0x400) + (UnicodeEscape(0xDC00 + x % 0x400) + rest))
      == Encode(c) + Unescape(rest)
  {
    hide Encode, UnicodeEscape, Step, Unescape;
    if c < 0x10000 {
      var s := UnicodeEscape(c) + rest;
      EscapeReads(c, rest);
      OneEscapeSteps(s, c);
      UnescapeSteps(s);
    } else {
      var hi, lo := 0xD800 + (c - 0x10000) / 0x400, 0xDC00 + (c - 0x10000) % 0x400;
      var low := UnicodeEscape(lo) + rest;
      var s := UnicodeEscape(hi) + low;
      EscapeReads(hi, low);
      EscapeReads(lo, rest);
      Hex4Suffix(s, 6, 2);
      assert s[6..8] == s[6..][..2] && s[12..] == s[6..][6..];
      PairSteps(s, hi, lo);
      UnescapeSteps(s);
    }
  }

  lemma OneEscapeSteps(s: bytes, c: scalar)
    requires |s| >= 2 && s[..2] == [BACKSLASH, U] && Hex4(s, 2) == Some(c) && c > 0xFF
    ensures Step(s) == (Encode(c), 6)
  {
    hide Encode, Hex4;
    assert s[0] == s[..2][0] && s[1] == s[..2][1];
  }

  lemma PairSteps(s: bytes, hi: int, lo: int)
    requires |s| >= 8 && s[..2] == [BACKSLASH, U] && Hex4(s, 2) == Some(hi) && High(hi)
    requires s[6..8] == [BACKSLASH, U] && Hex4(s, 8) == Some(lo) && Low(lo)
    ensures Step(s) == (Encode(0x10000 + (hi - 0xD800) * 0x400 + (lo - 0xDC00)), 12)
  {
    hide Encode, Hex4;
    assert s[0] == s[..2][0] && s[1] == s[..2][1] && s[6] == s[6..8][0] && s[7] == s[6..8][1];
  }

  /** Up to 0xFF the four digits stand for one byte. */
  lemma ByteEscapes(b: byte, rest: bytes)
    ensures Unescape(UnicodeEscape(b) + rest) == [b] + Unescape(rest)
  {
    hide UnicodeEscape, Hex4;
    var s := UnicodeEscape(b) + rest;
    EscapeReads(b, rest);
    assert s[0] == s[..2][0] && s[1] == s[..2][1];
  }

  /** A surrogate without its partner becomes U+FFFD. */
  lemma LoneSurrogate(h: int, rest: bytes)
    requires 0xDC00 <= h < 0xE000 || (0xD800 <= h < 0xDC00 && !([0x5C, 0x75] <= rest))
    ensures Unescape(UnicodeEscape(h) + rest) == [0xEF, 0xBF, 0xBD] + Unescape(rest)
  {
    hide UnicodeEscape, Hex4;
    var s := UnicodeEscape(h) + rest;
    EscapeReads(h, rest);
    assert s[0] == s[..2][0] && s[1] == s[..2][1];
    assert |s| >= 8 ==> rest[..2] == [s[6], s[7]];
    assert Encode(REPLACEMENT) == [0xEF, 0xBF, 0xBD];
  }

  /** The escapes of one letter: `\"`, `\\`, `\/`, `\b`, `\f`, `\n`, `\r`, `\t`. */
  lemma LetterEscapes(rest: bytes)
    ensures Unescape([0x5C, 0x22] + rest) == [0x22] + Unescape(rest)
    ensures Unescape([0x5C, 0x5C] + rest) == [0x5C] + Unescape(rest)
    ensures Unescape([0x5C, 0x2F] + rest) == [0x2F] + Unescape(rest)
    ensures Unescape([0x5C, 0x62] + rest) == [0x08] + Unescape(rest)
    ensures Unescape([0x5C, 0x66] + rest) == [0x0C] + Unescape(rest)
    ensures Unescape([0x5C, 0x6E] + rest) == [0x0A] + Unescape(rest)
    ensures Unescape([0x5C, 0x72] + rest) == [0x0D] + Unescape(rest)
    ensures Unescape([0x5C, 0x74] + rest) == [0x09] + Unescape(rest)
  {
    hide Short, Unescape;
    LettersAre();
    LetterSteps(0x22, rest);
    LetterSteps(0x5C, rest);
    LetterSteps(0x2F, rest);
    LetterSteps(0x62, rest);
    LetterSteps(0x66, rest);
    LetterSteps(0x6E, rest);
    LetterSteps(0x72, rest);
    LetterSteps(0x74, rest);
  }

  lemma LettersAre()
    ensures Short(0x22) == Some(0x22) && Short(0x5C) == Some(0x5C) && Short(0x2F) == Some(0x2F)
    ensures Short(0x62) == Some(0x08) && Short(0x66) == Some(0x0C) && Short(0x6E) == Some(0x0A)
    ensures Short(0x72) == Some(0x0D) && Short(0x74) == Some(0x09)
  {
  }

  lemma LetterSteps(e: byte, rest: bytes)
    requires Short(e).Some?
    ensures Unescape([0x5C, e] + rest) == [Short(e).value] + Unescape(rest)
  {
    hide Hex4, Pair, Encode, Short, Unescape;
    var s := [BACKSLASH, e] + rest;
    assert s[2..] == rest;
    UnescapeSteps(s);
  }

  /** Anything else behind a backslash stays with it, also a `u` without four digits, and so does a last backslash. */
  lemma OtherEscapesStay(e: byte, rest: bytes)
    requires e != 0x22 && e != 0x5C && e != 0x2F
    requires e != 0x62 && e != 0x66 && e != 0x6E && e != 0x72 && e != 0x74
    requires e == 0x75 ==> |rest| < 4 || !AllHex(rest[..4])
    ensures Unescape([0x5C, e] + rest) == [0x5C, e] + Unescape(rest) && Unescape([0x5C]) == [0x5C]
  {
    hide Step, AllHex, Unescape;
    var s := [0x5C, e] + rest;
    assert s[2..] == rest && s[0] == 0x5C && s[1] == e;
    StepStays(s, e);
    UnescapeSteps(s);
    LastBackslash();
  }

  lemma StepStays(s: bytes, e: byte)
    requires |s| >= 2 && s[0] == BACKSLASH && s[1] == e
    requires e != 0x22 && e != 0x5C && e != 0x2F
    requires e != 0x62 && e != 0x66 && e != 0x6E && e != 0x72 && e != 0x74
    requires e == U ==> |s[2..]| < 4 || !AllHex(s[2..][..4])
    ensures Step(s) == ([0x5C, e], 2)
  {
    hide Hex4, Pair, Encode, AllHex;
    if e == U { NoFourDigits(s, s[2..]); }
  }

  lemma NoFourDigits(s: bytes, rest: bytes)
    requires |s| >= 2 && s[2..] == rest && (|rest| < 4 || !AllHex(rest[..4]))
    ensures Hex4(s, 2) == None
  {
    hide HexVal;
    if |rest| >= 4 {
      var i :| 0 <= i < 4 && !IsHex(rest[..4][i]);
      assert s[2..][i] == rest[..4][i];
    }
  }

  lemma UnescapeSteps(s: bytes)
    requires s != []
    ensures Unescape(s) == Step(s).0 + Unescape(s[Step(s).1..])
  {
  }

  lemma LastBackslash()
    ensures Unescape([0x5C]) == [0x5C]
  {
    assert [BACKSLASH][1..] == [] && Unescape([]) == [];
  }
}
