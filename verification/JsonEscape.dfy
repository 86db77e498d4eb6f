/** The JSON string escaper (rust/json/json_ser.rs): a length pass and a writing pass, both of which jump
    from one special byte to the next, against a byte-by-byte definition. */
module JsonEscape {
  import opened Bytes
  import opened Utf8

  /** `\u00XX` with lowercase digits. */
  function UEscape(b: byte): (r: bytes)
    ensures |r| == 6
  {
    [BACKSLASH, 0x75, ZERO, ZERO, HexLower(b / 16), HexLower(b % 16)]
  }

  function EscapeByte(b: byte): (r: bytes)
    ensures 1 <= |r| <= 6
  {
    if b == QUOTE then [BACKSLASH, QUOTE]
    else if b == BACKSLASH then [BACKSLASH, BACKSLASH]
    else if b == LF then [BACKSLASH, 0x6E]
    else if b == CR then [BACKSLASH, 0x72]
    else if b == TAB then [BACKSLASH, 0x74]
    else if b == BS then [BACKSLASH, 0x62]
    else if b == FF then [BACKSLASH, 0x66]
    else if b < 0x20 then UEscape(b)
    else [b]
  }

  function EscapeText(s: bytes): (r: bytes)
    ensures |r| >= |s|
  {
    if s == [] then [] else EscapeByte(s[0]) + EscapeText(s[1..])
  }

  function EscapeBinary(s: bytes): (r: bytes)
    ensures |r| == 6 * |s|
  {
    if s == [] then [] else UEscape(s[0]) + EscapeBinary(s[1..])
  }

  /** Text is escaped where JSON demands it; anything that is not UTF-8 is escaped byte by byte. */
  function Escape(s: bytes): bytes {
    if Valid(s) then EscapeText(s) else EscapeBinary(s)
  }

  lemma {:induction false} EscapeTextConcat(a: bytes, b: bytes)
    ensures EscapeText(a + b) == EscapeText(a) + EscapeText(b)
  {
    hide EscapeByte;
    if a == [] {
      assert a + b == b;
    } else {
      EscapeTextConcat(a[1..], b);
      assert (a + b)[1..] == a[1..] + b;
      Assoc(EscapeByte(a[0]), EscapeText(a[1..]), EscapeText(b));
    }
  }

  // ---- the output is JSON string text ----

  predicate NoControls(s: bytes) { forall i :: 0 <= i < |s| ==> s[i] >= 0x20 }

  lemma {:induction false} TextHasNoControls(s: bytes)
    ensures NoControls(EscapeText(s))
  {
    if s != [] { TextHasNoControls(s[1..]); }
  }

  lemma {:induction false} BinaryIsPrintable(s: bytes)
    ensures NoControls(EscapeBinary(s)) && forall i :: 0 <= i < |EscapeBinary(s)| ==> EscapeBinary(s)[i] < 0x80
  {
    if s != [] { BinaryIsPrintable(s[1..]); }
  }

  lemma {:induction false} ValidBehindAscii(a: bytes, s: bytes)
    requires (forall i :: 0 <= i < |a| ==> a[i] < 0x80) && Valid(s)
    ensures Valid(a + s)
    decreases |a|
  {
    if a == [] {
      assert a + s == s;
    } else {
      assert (a + s)[1..] == a[1..] + s;
      ValidBehindAscii(a[1..], s);
    }
  }

  /** A multi-byte sequence is copied as it stands. */
  lemma HighIsItself(s: bytes)
    requires forall i :: 0 <= i < |s| ==> s[i] >= 0x80
    ensures EscapeText(s) == s
  {
    SafeIsItself(s);
  }

  lemma LeadIsHigh(s: bytes)
    requires Lead(s) > 0 && s[0] >= 0x80
    ensures forall i :: 0 <= i < Lead(s) ==> s[i] >= 0x80
    ensures Lead(s[..Lead(s)]) == Lead(s)
  {
  }

  lemma {:induction false} TextStaysValid(s: bytes)
    requires Valid(s)
    ensures Valid(EscapeText(s))
  {
    assert EscapeText([]) == [];
    hide Lead, EscapeText, EscapeByte;
    if s != [] {
      var n := Lead(s);
      TextStaysValid(s[n..]);
      if s[0] < 0x80 {
        EscapeHead(s, 0);
        assert s[0..] == s;
        AsciiStaysAscii(s[0]);
        ValidBehindAscii(EscapeByte(s[0]), EscapeText(s[1..]));
      } else {
        LeadIsHigh(s);
        HighIsItself(s[..n]);
        assert s == s[..n] + s[n..];
        EscapeTextConcat(s[..n], s[n..]);
        ValidBehindLead(s[..n], EscapeText(s[n..]));
      }
    }
  }

  lemma AsciiStaysAscii(b: byte)
    requires b < 0x80
    ensures forall i :: 0 <= i < |EscapeByte(b)| ==> EscapeByte(b)[i] < 0x80
  {
  }

  lemma ValidBehindLead(a: bytes, t: bytes)
    requires Lead(a) == |a| > 0 && Valid(t)
    ensures Valid(a + t)
  {
    hide Lead;
    LeadOfPrefix(a, t);
    assert (a + t)[|a|..] == t;
  }

  /** Whatever the input, the escape is UTF-8 without control bytes, as section 7 of RFC 8259 demands. */
  lemma EscapeIsJsonText(s: bytes)
    ensures Valid(Escape(s)) && NoControls(Escape(s))
  {
    hide EscapeText, EscapeBinary;
    if Valid(s) {
      TextHasNoControls(s);
      TextStaysValid(s);
    } else {
      BinaryIsPrintable(s);
      AsciiValid(EscapeBinary(s));
    }
  }

  /** The three needles of `memchr3`. */
  predicate Special(b: byte) { b == QUOTE || b == BACKSLASH || b == LF }

  predicate Plain(run: bytes) { forall i :: 0 <= i < |run| ==> !Special(run[i]) }

  /** `memchr3(b'"', b'\\', b'\n', &s[from..])`, as an index into `s`. */
  method FindSpecial(s: bytes, from: nat) returns (r: Option<nat>)
    requires from <= |s|
    ensures r.None? ==> Plain(s[from..])
    ensures r.Some? ==> from <= r.value < |s| && Special(s[r.value]) && Plain(s[from..r.value])
  {
    for i := from to |s|
      invariant Plain(s[from..i])
    {
      if Special(s[i]) { return Some(i); }
      assert s[from..i + 1] == s[from..i] + [s[i]];
    }
    assert s[from..|s|] == s[from..];
    return None;
  }

  /** What is left to escape at `from`: a gap, the special byte at `at`, and the rest. */
  lemma EscapeRest(s: bytes, from: nat, at: nat)
    requires from <= at < |s|
    ensures EscapeText(s[from..]) == EscapeText(s[from..at]) + EscapeByte(s[at]) + EscapeText(s[at + 1..])
  {
    assert s[from..] == s[from..at] + s[at..];
    EscapeTextConcat(s[from..at], s[at..]);
    assert s[at..][1..] == s[at + 1..];
  }

  lemma EscapeHead(run: bytes, i: nat)
    requires i < |run|
    ensures EscapeText(run[i..]) == EscapeByte(run[i]) + EscapeText(run[i + 1..])
  {
    assert run[i..][1..] == run[i + 1..];
  }

  /** `control_escape_extra`: what escaping adds to a run that holds no special byte. */
  method ControlEscapeExtra(run: bytes) returns (extra: nat)
    requires Plain(run)
    ensures |run| + extra == |EscapeText(run)|
  {
    extra := 0;
    for i := 0 to |run|
      invariant i + extra + |EscapeText(run[i..])| == |EscapeText(run)|
    {
      var b := run[i];
      if b < 0x20 {
        extra := extra + if b == CR || b == TAB || b == BS || b == FF then 1 else 5;
      }
      EscapeHead(run, i);
    }
  }

  /** Where UTF-8 is checked between special bytes, the verdict on the whole is unchanged. */
  lemma ValidGap(s: bytes, from: nat, at: nat)
    requires from <= at < |s| && s[at] < 0x80
    ensures Valid(s[from..]) <==> Valid(s[from..at]) && Valid(s[at + 1..])
  {
    assert s[from..] == s[from..at] + [s[at]] + s[at + 1..];
    ValidSplitAtAscii(s[from..at], s[at], s[at + 1..]);
  }

  predicate HitFrom(s: bytes, from: nat, hit: Option<nat>)
    requires from <= |s|
  {
    match hit
    case None => Plain(s[from..])
    case Some(at) => from <= at < |s| && Special(s[at]) && Plain(s[from..at])
  }

  /** `json_escaped_len`: the exact size of what the writer writes, with UTF-8 checked gap by gap
      between special bytes instead of on the whole. */
  method EscapedLen(s: bytes) returns (total: nat)
    ensures total == |Escape(s)|
  {
    hide Valid, EscapeText;
    var ascii := forall i :: 0 <= i < |s| ==> s[i] < 0x80;
    if ascii { AsciiValid(s); }
    var offset := 0;
    var hit := FindSpecial(s, 0);
    assert s[0..] == s;
    total := |s|;
    while hit.Some?
      invariant offset <= |s|
      invariant HitFrom(s, offset, hit)
      invariant total + |EscapeText(s[offset..])| == |EscapeText(s)| + (|s| - offset)
      invariant Valid(s) <==> Valid(s[offset..])
      decreases |s| - offset
    {
      var at := hit.value;
      ValidGap(s, offset, at);
      if !ascii && !Valid(s[offset..at]) { return |s| * 6; }
      var extra := ControlEscapeExtra(s[offset..at]);
      EscapeRest(s, offset, at);
      total := total + extra + 1;
      offset := at + 1;
      hit := FindSpecial(s, offset);
    }
    if !ascii && !Valid(s[offset..]) { return |s| * 6; }
    var extra := ControlEscapeExtra(s[offset..]);
    total := total + extra;
  }

  /** One turn of `write_escaped_run`: a control byte's escape, or the safe stretch up to the next one. */
  method NextPiece(run: bytes, i: nat) returns (n: nat, piece: bytes)
    requires Plain(run) && i < |run|
    ensures 0 < n && i + n <= |run|
    ensures EscapeText(run[i..]) == piece + EscapeText(run[i + n..])
  {
    if run[i] < 0x20 {
      n, piece := 1, EscapeByte(run[i]);
      EscapeHead(run, i);
    } else {
      n := SafeRun(run, i);
      piece := run[i..i + n];
      SafePrefix(run, i, n);
    }
  }

  /** `write_escaped_run`: a run without special bytes; safe stretches are copied in bulk. */
  method WriteRun(out: array<byte>, pos: nat, run: bytes) returns (next: nat)
    requires Plain(run)
    requires pos + |EscapeText(run)| <= out.Length
    modifies out
    ensures next == pos + |EscapeText(run)|
    ensures out[..] == Splice(old(out[..]), pos, EscapeText(run))
  {
    assert run[|run|..] == [] && EscapeText([]) == [];
    hide EscapeText, Splice;
    ghost var orig, done := out[..], [];
    SpliceNothing(orig, pos);
    next := pos;
    var i := 0;
    while i < |run|
      invariant i <= |run|
      invariant EscapeText(run) == done + EscapeText(run[i..])
      invariant next == pos + |done|
      invariant out[..] == Splice(orig, pos, done)
    {
      var n, piece := NextPiece(run, i);
      Assoc(done, piece, EscapeText(run[i + n..]));
      Extend(out, orig, pos, done, next, piece);
      done := done + piece;
      next := next + |piece|;
      i := i + n;
    }
  }

  lemma SafePrefix(run: bytes, i: nat, n: nat)
    requires Plain(run) && i + n <= |run| && forall k :: i <= k < i + n ==> run[k] >= 0x20
    ensures EscapeText(run[i..]) == run[i..i + n] + EscapeText(run[i + n..])
  {
    SafeIsItself(run[i..i + n]);
    assert run[i..] == run[i..i + n] + run[i + n..];
    EscapeTextConcat(run[i..i + n], run[i + n..]);
  }

  /** Length of the stretch from `i` on that holds no control byte. */
  method SafeRun(run: bytes, i: nat) returns (n: nat)
    requires i < |run| && run[i] >= 0x20
    ensures 0 < n && i + n <= |run|
    ensures forall k :: i <= k < i + n ==> run[k] >= 0x20
    ensures i + n < |run| ==> run[i + n] < 0x20
  {
    n := 1;
    while i + n < |run| && run[i + n] >= 0x20
      invariant 0 < n && i + n <= |run|
      invariant forall k :: i <= k < i + n ==> run[k] >= 0x20
    {
      n := n + 1;
    }
  }

  lemma {:induction false} SafeIsItself(s: bytes)
    requires Plain(s) && forall k :: 0 <= k < |s| ==> s[k] >= 0x20
    ensures EscapeText(s) == s
  {
    if s != [] { SafeIsItself(s[1..]); }
  }

  /** `write_json_escaped_utf8`. */
  method WriteText(out: array<byte>, pos: nat, s: bytes) returns (next: nat)
    requires pos + |EscapeText(s)| <= out.Length
    modifies out
    ensures next == pos + |EscapeText(s)|
    ensures out[..] == Splice(old(out[..]), pos, EscapeText(s))
  {
    hide EscapeText, Splice;
    ghost var orig, done := out[..], [];
    SpliceNothing(orig, pos);
    next := pos;
    var offset := 0;
    var hit := FindSpecial(s, 0);
    assert s[0..] == s;
    while hit.Some?
      invariant offset <= |s|
      invariant HitFrom(s, offset, hit)
      invariant EscapeText(s) == done + EscapeText(s[offset..])
      invariant next == pos + |done|
      invariant out[..] == Splice(orig, pos, done)
      decreases |s| - offset
    {
      var at := hit.value;
      ghost var gap, esc, rest := EscapeText(s[offset..at]), EscapeByte(s[at]), EscapeText(s[at + 1..]);
      EscapeRest(s, offset, at);
      Assoc(done, gap + esc, rest);
      Assoc(done, gap, esc);
      next := WriteRun(out, next, s[offset..at]);
      SpliceSplice(orig, pos, done, gap);
      Extend(out, orig, pos, done + gap, next, EscapeByte(s[at]));
      done := done + gap + esc;
      next := next + 2;
      offset := at + 1;
      hit := FindSpecial(s, offset);
    }
    next := WriteRun(out, next, s[offset..]);
    SpliceSplice(orig, pos, done, EscapeText(s[offset..]));
  }

  /** `write_json_escaped` into a buffer the length pass has sized: it writes the escape and nothing else. */
  method WriteEscaped(out: array<byte>, pos: nat, s: bytes) returns (next: nat)
    requires pos + |Escape(s)| <= out.Length
    modifies out
    ensures next == pos + |Escape(s)|
    ensures out[..] == Splice(old(out[..]), pos, Escape(s))
  {
    if Valid(s) {
      next := WriteText(out, pos, s);
      return;
    }
    next := pos;
    assert EscapeBinary(s[..0]) == [];
    assert out[..] == Splice(old(out[..]), pos, []);
    for i := 0 to |s|
      invariant next == pos + 6 * i
      invariant out[..] == Splice(old(out[..]), pos, EscapeBinary(s[..i]))
    {
      ghost var done := EscapeBinary(s[..i]);
      Put(out, next, UEscape(s[i]));
      SpliceSplice(old(out[..]), pos, done, UEscape(s[i]));
      EscapeBinaryStep(s, i);
      next := next + 6;
    }
    assert s[..|s|] == s;
  }

  lemma {:induction false} EscapeBinaryStep(s: bytes, i: nat)
    requires i < |s|
    ensures EscapeBinary(s[..i + 1]) == EscapeBinary(s[..i]) + UEscape(s[i])
  {
    if i == 0 {
      assert s[..1] == [s[0]];
      assert EscapeBinary([s[0]]) == UEscape(s[0]) + EscapeBinary([]);
    } else {
      EscapeBinaryStep(s[1..], i - 1);
      assert s[..i + 1][1..] == s[1..][..i] && s[..i][1..] == s[1..][..i - 1];
    }
  }

  // ---- the escapes in bytes ----

  /** Quotes, backslashes and five controls have short escapes, the other controls `\u00XX`; nothing else changes. */
  lemma EscapeTable(b: byte)
    ensures EscapeByte(0x22) == [0x5C, 0x22] && EscapeByte(0x5C) == [0x5C, 0x5C]
    ensures EscapeByte(0x0A) == [0x5C, 0x6E] && EscapeByte(0x0D) == [0x5C, 0x72] && EscapeByte(0x09) == [0x5C, 0x74]
    ensures EscapeByte(0x08) == [0x5C, 0x62] && EscapeByte(0x0C) == [0x5C, 0x66]
    ensures b < 0x20 && b !in [0x08, 0x09, 0x0A, 0x0C, 0x0D] ==>
      EscapeByte(b) == [0x5C, 0x75, 0x30, 0x30, HexLower(b / 16), HexLower(b % 16)]
    ensures b >= 0x20 && b != 0x22 && b != 0x5C ==> EscapeByte(b) == [b]
  {
  }

  /** Text without special bytes is its own escape; of anything that is not UTF-8 every byte becomes `\u00XX`. */
  lemma {:induction false} EscapeModes(s: bytes, i: nat)
    ensures Valid(s) && (forall k :: 0 <= k < |s| ==> s[k] >= 0x20 && s[k] != 0x22 && s[k] != 0x5C) ==> Escape(s) == s
    ensures !Valid(s) ==> |Escape(s)| == 6 * |s|
    ensures !Valid(s) && i < |s| ==>
      Escape(s)[6 * i..6 * i + 6] == [0x5C, 0x75, 0x30, 0x30, HexLower(s[i] / 16), HexLower(s[i] % 16)]
  {
    if forall k :: 0 <= k < |s| ==> s[k] >= 0x20 && s[k] != 0x22 && s[k] != 0x5C { SafeIsItself(s); }
    if i < |s| { BinaryAt(s, i); }
  }

  lemma {:induction false} BinaryAt(s: bytes, i: nat)
    requires i < |s|
    ensures EscapeBinary(s)[6 * i..6 * i + 6] == UEscape(s[i])
  {
    hide UEscape;
    var t := EscapeBinary(s);
    if i == 0 {
      assert t[0..6] == UEscape(s[0]);
    } else {
      BinaryAt(s[1..], i - 1);
      assert t[6 * i..6 * i + 6] == EscapeBinary(s[1..])[6 * i - 6..6 * i];
    }
  }
}
