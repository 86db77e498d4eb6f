/** Byte strings, the ASCII bytes the models name, and hexadecimal (rust/util/bytes.rs). */
module Bytes {

  type byte = b: int | 0 <= b < 256
  type bytes = seq<byte>

  datatype Option<+T> = None | Some(value: T)

  const TAB: byte := 0x09
  const LF: byte := 0x0A
  const FF: byte := 0x0C
  const CR: byte := 0x0D
  const BS: byte := 0x08
  const SPACE: byte := 0x20
  const QUOTE: byte := 0x22
  const PLUS: byte := 0x2B
  const COMMA: byte := 0x2C
  const MINUS: byte := 0x2D
  const DOT: byte := 0x2E
  const SLASH: byte := 0x2F
  const ZERO: byte := 0x30
  const COLON: byte := 0x3A
  const SEMI: byte := 0x3B
  const EQUALS: byte := 0x3D
  const LBRACKET: byte := 0x5B
  const BACKSLASH: byte := 0x5C
  const RBRACKET: byte := 0x5D
  const LBRACE: byte := 0x7B
  const RBRACE: byte := 0x7D

  /** The bytes of an ASCII literal. */
  function Ascii(s: string): (r: bytes)
    requires forall i :: 0 <= i < |s| ==> s[i] as int < 128
    ensures |r| == |s| && forall i :: 0 <= i < |s| ==> r[i] == s[i] as int
  {
    seq(|s|, i requires 0 <= i < |s| => s[i] as int)
  }

  /** `u8::to_ascii_lowercase`. */
  function Lower(b: byte): byte {
    if 0x41 <= b <= 0x5A then b + 0x20 else b
  }

  function LowerAll(s: bytes): (r: bytes)
    ensures |r| == |s| && forall i :: 0 <= i < |s| ==> r[i] == Lower(s[i])
  {
    seq(|s|, i requires 0 <= i < |s| => Lower(s[i]))
  }

  /** `b | 0x20`. */
  function Or20(b: byte): byte {
    if b / 0x20 % 2 == 1 then b else b + 0x20
  }

  /** `t` stands in `s` at offset `at`. */
  predicate At(s: bytes, at: nat, t: bytes) {
    at + |t| <= |s| && s[at..at + |t|] == t
  }

  lemma AtSplit(s: bytes, at: nat, a: bytes, b: bytes)
    requires At(s, at, a + b)
    ensures At(s, at, a) && At(s, at + |a|, b)
  {
    var t := a + b;
    assert s[at..at + |a|] == t[..|a|] == a;
    assert s[at + |a|..at + |t|] == t[|a|..] == b;
  }

  lemma AtHead(s: bytes, at: nat, t: bytes)
    requires At(s, at, t) && t != []
    ensures at < |s| && s[at] == t[0] && At(s, at + 1, t[1..])
  {
    assert t == t[..1] + t[1..];
    AtSplit(s, at, t[..1], t[1..]);
    assert s[at] == s[at..at + |t|][0];
  }

  lemma Assoc(a: bytes, b: bytes, c: bytes)
    ensures (a + b) + c == a + (b + c)
  {
  }

  /** `s` with `t` written over it at offset `at`. */
  function Splice(s: bytes, at: nat, t: bytes): (r: bytes)
    requires at + |t| <= |s|
    ensures |r| == |s| && r[at..at + |t|] == t
  {
    s[..at] + t + s[at + |t|..]
  }

  lemma SpliceNothing(s: bytes, at: nat)
    requires at <= |s|
    ensures Splice(s, at, []) == s
  {
    assert s[..at] + [] + s[at..] == s;
  }

  /** Two adjacent writes are one. */
  lemma SpliceSplice(s: bytes, at: nat, a: bytes, b: bytes)
    requires at + |a| + |b| <= |s|
    ensures Splice(Splice(s, at, a), at + |a|, b) == Splice(s, at, a + b)
  {
  }

  /** `out[at..at + t.len()].copy_from_slice(t)`. */
  method Put(out: array<byte>, at: nat, t: bytes)
    requires at + |t| <= out.Length
    modifies out
    ensures out[..] == Splice(old(out[..]), at, t)
  {
    forall i | 0 <= i < |t| {
      out[at + i] := t[i];
    }
  }

  /** One more `Put`, right behind what has been written to `orig` from `start` on. */
  method Extend(out: array<byte>, ghost orig: bytes, ghost start: nat, ghost done: bytes, at: nat, t: bytes)
    requires |orig| == out.Length && at == start + |done| && at + |t| <= |orig|
    requires out[..] == Splice(orig, start, done)
    modifies out
    ensures out[..] == Splice(orig, start, done + t)
  {
    Put(out, at, t);
    SpliceSplice(orig, start, done, t);
  }

  // ---- little-endian integers ----

  const TWO32 := 0x1_0000_0000

  /** `(n as u32).to_le_bytes()`: the low 32 bits, low byte first. */
  function Le32(n: nat): (r: bytes)
    ensures |r| == 4
  {
    [n % 0x100, n / 0x100 % 0x100, n / 0x10000 % 0x100, n / 0x1000000 % 0x100]
  }

  function FromLe32(s: bytes, at: nat): (n: nat)
    requires at + 4 <= |s|
    ensures n < TWO32
  {
    var b0: int, b1: int, b2: int, b3: int := s[at], s[at + 1], s[at + 2], s[at + 3];
    b0 + 0x100 * b1 + 0x10000 * b2 + 0x1000000 * b3
  }

  lemma FromLe32OfLe32(s: bytes, at: nat, n: nat)
    requires At(s, at, Le32(n))
    ensures FromLe32(s, at) == n % TWO32
    ensures n < TWO32 ==> FromLe32(s, at) == n
  {
    var t := Le32(n);
    assert s[at] == s[at..at + 4][0] && s[at + 1] == s[at..at + 4][1];
    assert s[at + 2] == s[at..at + 4][2] && s[at + 3] == s[at..at + 4][3];
    FourBytes(n);
  }

  /** Only the low 32 bits are written. */
  lemma Le32Mod(n: nat)
    ensures Le32(n % TWO32) == Le32(n)
  {
    var q, r := n / TWO32, n % TWO32;
    ByteOfSum(q * 0x1000000, r);
    ByteOfSum(q * 0x10000, r / 0x100);
    assert n / 0x100 == q * 0x1000000 + r / 0x100;
    ByteOfSum(q * 0x100, r / 0x10000);
    assert n / 0x10000 == q * 0x10000 + r / 0x10000;
    ByteOfSum(q, r / 0x1000000);
    assert n / 0x1000000 == q * 0x100 + r / 0x1000000;
  }

  lemma ByteOfSum(k: int, x: int)
    ensures (k * 0x100 + x) % 0x100 == x % 0x100
  {
  }

  lemma FourBytes(n: nat)
    ensures n % 0x100 + 0x100 * (n / 0x100 % 0x100) + 0x10000 * (n / 0x10000 % 0x100)
            + 0x1000000 * (n / 0x1000000 % 0x100) == n % TWO32
  {
    var a := n / 0x100;
    var b := a / 0x100;
    var c := b / 0x100;
    var d := c / 0x100;
    assert n / 0x10000 == b && n / 0x1000000 == c;
    assert n == n % 0x100 + 0x100 * (a % 0x100) + 0x10000 * (b % 0x100) + 0x1000000 * (c % 0x100) + TWO32 * d;
    assert 0 <= n - TWO32 * d < TWO32;
  }

  // ---- hexadecimal ----

  /** Value of one hex digit of either case (the 256-entry table). */
  function HexVal(b: byte): (r: Option<int>)
    ensures r.Some? ==> 0 <= r.value < 16
  {
    if 0x30 <= b <= 0x39 then Some(b - 0x30)
    else if 0x61 <= b <= 0x66 then Some(b - 0x61 + 10)
    else if 0x41 <= b <= 0x46 then Some(b - 0x41 + 10)
    else None
  }

  function HexLower(n: int): (b: byte)
    requires 0 <= n < 16
    ensures HexVal(b) == Some(n)
  {
    if n < 10 then 0x30 + n else 0x61 + (n - 10)
  }

  predicate IsHex(b: byte) { HexVal(b).Some? }

  predicate AllHex(s: bytes) { forall i :: 0 <= i < |s| ==> IsHex(s[i]) }

  /** The scalar decode of an even-length run of hex digits: one byte a pair, high digit first. */
  function UnhexAll(s: bytes): (r: bytes)
    requires |s| % 2 == 0 && AllHex(s)
    ensures |r| == |s| / 2
    ensures forall k :: 0 <= k < |r| ==> r[k] == 16 * HexVal(s[2 * k]).value + HexVal(s[2 * k + 1]).value
  {
    seq(|s| / 2, k requires 0 <= k < |s| / 2 =>
      16 * HexVal(s[2 * k]).value + HexVal(s[2 * k + 1]).value)
  }

  /** Lowercase hex, high digit first. */
  function Hex(src: bytes): (r: bytes)
    ensures |r| == 2 * |src|
  {
    if src == [] then []
    else [HexLower(src[0] / 16), HexLower(src[0] % 16)] + Hex(src[1..])
  }

  /** `hex_encode`. */
  method HexEncode(src: bytes) returns (out: bytes)
    ensures out == Hex(src)
  {
    out := [];
    for i := 0 to |src|
      invariant out + Hex(src[i..]) == Hex(src)
    {
      assert src[i..][1..] == src[i + 1..];
      out := out + [HexLower(src[i] / 16), HexLower(src[i] % 16)];
    }
  }

  lemma {:induction false} HexAt(src: bytes, i: nat)
    requires i < |src|
    ensures Hex(src)[2 * i] == HexLower(src[i] / 16) && Hex(src)[2 * i + 1] == HexLower(src[i] % 16)
  {
    if i > 0 { HexAt(src[1..], i - 1); }
  }

  /** Hex digits decode back to the bytes they were made from. */
  lemma UnhexHex(src: bytes)
    ensures AllHex(Hex(src)) && UnhexAll(Hex(src)) == src
  {
    var h := Hex(src);
    forall j | 0 <= j < |h|
      ensures IsHex(h[j])
    {
      HexAt(src, j / 2);
    }
    forall k | 0 <= k < |src|
      ensures UnhexAll(h)[k] == src[k]
    {
      HexAt(src, k);
    }
  }

  // ---- the tables in characters ----

  /** The sixteen digits, and the values of both cases; no other byte is a digit. */
  lemma HexDigits(n: int)
    requires 0 <= n < 16
    ensures HexLower(n) == "0123456789abcdef"[n] as int
    ensures HexVal("0123456789abcdef"[n] as int) == Some(n) == HexVal("0123456789ABCDEF"[n] as int)
    ensures forall b: byte :: IsHex(b) <==> 0x30 <= b <= 0x39 || 0x41 <= b <= 0x46 || 0x61 <= b <= 0x66
  {
  }

  /** Written hex is lowercase. */
  lemma {:induction false} HexIsLowercase(src: bytes)
    ensures forall i :: 0 <= i < |Hex(src)| ==> 0x30 <= Hex(src)[i] <= 0x39 || 0x61 <= Hex(src)[i] <= 0x66
  {
    if src != [] { HexIsLowercase(src[1..]); }
  }

  /** Lowercasing changes the 26 capitals and nothing else. */
  lemma Lowercase(b: byte, i: int)
    requires 0 <= i < 26
    ensures Lower("ABCDEFGHIJKLMNOPQRSTUVWXYZ"[i] as int) == "abcdefghijklmnopqrstuvwxyz"[i] as int
    ensures !(0x41 <= b <= 0x5A) ==> Lower(b) == b
  {
    var upper, lower := "ABCDEFGHIJKLMNOPQRSTUVWXYZ", "abcdefghijklmnopqrstuvwxyz";
    assert forall k :: 0 <= k < 26 ==> upper[k] as int == 0x41 + k && lower[k] as int == 0x61 + k;
  }

  /** Little-endian words: the low byte first. */
  lemma LowByteFirst(a: byte, b: byte, c: byte, d: byte)
    ensures Le32(a as int + 0x100 * b as int + 0x10000 * c as int + 0x1000000 * d as int) == [a, b, c, d]
  {
    var n: nat := a as int + 0x100 * b as int + 0x10000 * c as int + 0x1000000 * d as int;
    var x, y := b as int + 0x100 * c as int + 0x10000 * d as int, c as int + 0x100 * d as int;
    assert n == x * 0x100 + a && x == y * 0x100 + b;
    assert n / 0x100 == x && n / 0x10000 == y && n / 0x1000000 == d;
  }
}
