/** The AVX2 hex decoder (rust/crypto/base64.rs:276-370), lane by lane, against the scalar digit table. */
module HexFast {
  import opened Bytes

  // ---- bitwise operations on one lane ----

  function BitAnd(a: nat, b: nat, bits: nat): nat {
    if bits == 0 then 0 else (a % 2) * (b % 2) + 2 * BitAnd(a / 2, b / 2, bits - 1)
  }

  function BitOr(a: nat, b: nat, bits: nat): nat {
    if bits == 0 then 0
    else (if a % 2 == 1 || b % 2 == 1 then 1 else 0) + 2 * BitOr(a / 2, b / 2, bits - 1)
  }

  function Pow2(n: nat): (r: nat)
    ensures r >= 1
  {
    if n == 0 then 1 else 2 * Pow2(n - 1)
  }

  lemma {:induction false} BitBounds(a: nat, b: nat, bits: nat)
    ensures BitAnd(a, b, bits) < Pow2(bits) && BitOr(a, b, bits) < Pow2(bits)
  {
    if bits > 0 { BitBounds(a / 2, b / 2, bits - 1); }
  }

  lemma Pow2Of8()
    ensures Pow2(8) == 256
  {
    assert Pow2(4) == 16;
    assert Pow2(6) == 64;
  }

  function And8(a: byte, b: byte): byte {
    BitBounds(a, b, 8);
    Pow2Of8();
    BitAnd(a, b, 8)
  }

  function Or8(a: byte, b: byte): byte {
    BitBounds(a, b, 8);
    Pow2Of8();
    BitOr(a, b, 8)
  }

  /** Masks are all ones or all zeros. */
  lemma {:induction false} BitMasks(a: nat, bits: nat)
    requires a < Pow2(bits)
    ensures BitAnd(a, Pow2(bits) - 1, bits) == a && BitAnd(Pow2(bits) - 1, a, bits) == a
    ensures BitAnd(a, 0, bits) == 0 && BitAnd(0, a, bits) == 0
    ensures BitOr(a, 0, bits) == a && BitOr(0, a, bits) == a
    ensures BitOr(a, Pow2(bits) - 1, bits) == Pow2(bits) - 1 && BitOr(Pow2(bits) - 1, a, bits) == Pow2(bits) - 1
  {
    if bits > 0 { BitMasks(a / 2, bits - 1); }
  }

  lemma Masks(a: byte)
    ensures And8(a, 255) == a && And8(255, a) == a && And8(a, 0) == 0 && And8(0, a) == 0
    ensures Or8(a, 0) == a && Or8(0, a) == a && Or8(a, 255) == 255 && Or8(255, a) == 255
  {
    Pow2Of8();
    BitMasks(a, 8);
  }

  function Bit(a: nat, k: nat): nat {
    if k == 0 then a % 2 else Bit(a / 2, k - 1)
  }

  /** Or with a single bit sets that bit. */
  lemma {:induction false} OrBit(a: nat, k: nat, bits: nat)
    requires k < bits && a < Pow2(bits)
    ensures BitOr(a, Pow2(k), bits) == if Bit(a, k) == 1 then a else a + Pow2(k)
  {
    if k == 0 {
      BitMasks(a / 2, bits - 1);
    } else {
      OrBit(a / 2, k - 1, bits - 1);
      assert Pow2(k) / 2 == Pow2(k - 1);
    }
  }

  lemma Bit5(b: byte)
    ensures Bit(b, 5) == b / 0x20 % 2
  {
    var b1, b2, b3, b4 := b / 2, b / 4, b / 8, b / 16;
    assert b1 / 2 == b2 && b2 / 2 == b3 && b3 / 2 == b4;
    assert Bit(b, 5) == Bit(b1, 4) && Bit(b1, 4) == Bit(b2, 3) && Bit(b2, 3) == Bit(b3, 2);
    assert Bit(b3, 2) == Bit(b4, 1) && Bit(b4, 1) == b4 / 2 % 2;
  }

  lemma OrIs20(b: byte)
    ensures Or8(b, 0x20) == Or20(b)
  {
    Pow2Of8();
    assert Pow2(5) == 0x20 by { assert Pow2(3) == 8; }
    OrBit(b, 5, 8);
    Bit5(b);
  }

  // ---- 256-bit vectors ----

  type Vec = v: bytes | |v| == 32 witness seq(32, i => 0)
  /** Sixteen signed 16-bit lanes. */
  type Words = v: seq<int> | |v| == 16 witness seq(16, i => 0)

  function Set1(b: byte): (r: Vec)
    ensures forall i :: 0 <= i < 32 ==> r[i] == b
  {
    seq(32, i => b)
  }

  function VOr(a: Vec, b: Vec): (r: Vec)
    ensures forall i :: 0 <= i < 32 ==> r[i] == Or8(a[i], b[i])
  {
    seq(32, i requires 0 <= i < 32 => Or8(a[i], b[i]))
  }

  function VAnd(a: Vec, b: Vec): (r: Vec)
    ensures forall i :: 0 <= i < 32 ==> r[i] == And8(a[i], b[i])
  {
    seq(32, i requires 0 <= i < 32 => And8(a[i], b[i]))
  }

  function Signed8(b: byte): int { if b < 128 then b else b as int - 256 }

  /** `_mm256_cmpgt_epi8`: a signed comparison. */
  function VGt(a: Vec, b: Vec): (r: Vec)
    ensures forall i :: 0 <= i < 32 ==> r[i] == if Signed8(a[i]) > Signed8(b[i]) then 255 else 0
  {
    seq(32, i requires 0 <= i < 32 => if Signed8(a[i]) > Signed8(b[i]) then 255 else 0)
  }

  function VSub(a: Vec, b: Vec): (r: Vec)
    ensures forall i :: 0 <= i < 32 ==> r[i] == (a[i] as int - b[i] as int) % 256
  {
    seq(32, i requires 0 <= i < 32 => (a[i] as int - b[i] as int) % 256)
  }

  /** `_mm256_movemask_epi8(v) == -1`. */
  predicate AllOnes(v: Vec) { forall i :: 0 <= i < 32 ==> v[i] >= 128 }

  function Clamp(x: int, lo: int, hi: int): int
    requires lo <= hi
  {
    if x < lo then lo else if x > hi then hi else x
  }

  /** `_mm256_maddubs_epi16`: unsigned times signed, adjacent pairs added with signed saturation. */
  function MaddUbs(a: Vec, b: Vec): (r: Words)
    ensures forall k :: 0 <= k < 16 ==>
      r[k] == Clamp(a[2 * k] as int * Signed8(b[2 * k]) + a[2 * k + 1] as int * Signed8(b[2 * k + 1]), -0x8000, 0x7FFF)
  {
    seq(16, k requires 0 <= k < 16 =>
      Clamp(a[2 * k] as int * Signed8(b[2 * k]) + a[2 * k + 1] as int * Signed8(b[2 * k + 1]), -0x8000, 0x7FFF))
  }

  /** Which word lands in byte `i` when each 128-bit half is packed on its own. */
  function PackSource(a: Words, b: Words, i: nat): int
    requires i < 32
  {
    if i < 8 then a[i] else if i < 16 then b[i - 8] else if i < 24 then a[i - 8] else b[i - 16]
  }

  /** `_mm256_packus_epi16`: saturates to bytes. */
  function PackUs(a: Words, b: Words): (r: Vec)
    ensures forall i :: 0 <= i < 32 ==> r[i] == Clamp(PackSource(a, b, i), 0, 255)
  {
    seq(32, i requires 0 <= i < 32 => Clamp(PackSource(a, b, i), 0, 255))
  }

  /** The 64-bit lane that bits 2k and 2k+1 of `imm` name for lane k. */
  function LaneFrom(imm: byte, k: nat): (r: nat)
    ensures r < 4
  {
    if k == 0 then imm % 4 else if k == 1 then imm / 4 % 4 else if k == 2 then imm / 16 % 4 else imm / 64 % 4
  }

  /** `_mm256_permute4x64_epi64`. */
  function Permute4x64(v: Vec, imm: byte): (r: Vec)
    ensures forall i :: 0 <= i < 32 ==> r[i] == v[8 * LaneFrom(imm, i / 8) + i % 8]
  {
    seq(32, i requires 0 <= i < 32 => v[8 * LaneFrom(imm, i / 8) + i % 8])
  }

  // ---- the kernel ----

  function Folded(v: Vec): Vec { VOr(v, Set1(0x20)) }

  /** The digit mask or the letter mask, as written: both tests read the folded byte. */
  function ValidMask(o: Vec): Vec {
    VOr(VAnd(VGt(o, Set1(0x2F)), VGt(Set1(0x3A), o)), VAnd(VGt(o, Set1(0x60)), VGt(Set1(0x67), o)))
  }

  function Nibbles(o: Vec): Vec {
    VSub(VSub(o, Set1(0x30)), VAnd(VGt(o, Set1(0x60)), Set1(39)))
  }

  /** `_mm256_set1_epi16(0x0110)`. */
  function Pattern(): (r: Vec)
    ensures forall i :: 0 <= i < 32 ==> r[i] == if i % 2 == 0 then 0x10 else 0x01
  {
    seq(32, i => if i % 2 == 0 then 0x10 else 0x01)
  }

  /** Digit values to bytes, in order. */
  function Gather(lo: Vec, hi: Vec): Vec {
    Permute4x64(PackUs(MaddUbs(lo, Pattern()), MaddUbs(hi, Pattern())), 0xD8)
  }

  /** `decode_chunk`: 64 characters to 32 bytes. */
  function DecodeChunk(c: bytes): (r: Option<Vec>)
    requires |c| == 64
  {
    var lo, hi := Folded(c[..32]), Folded(c[32..]);
    if !AllOnes(ValidMask(lo)) || !AllOnes(ValidMask(hi)) then None
    else Some(Gather(Nibbles(lo), Nibbles(hi)))
  }

  /** The control bytes that fold onto the digits. */
  predicate Stray(b: byte) { 0x10 <= b <= 0x19 }

  predicate Loose(b: byte) { IsHex(b) || Stray(b) }

  predicate AllLoose(s: bytes) { forall i :: 0 <= i < |s| ==> Loose(s[i]) }

  function LooseVal(b: byte): (r: int)
    requires Loose(b)
    ensures 0 <= r < 16
  {
    if IsHex(b) then HexVal(b).value else b - 0x10
  }

  /** One byte for every two characters, high digit first. */
  function LooseUnhex(s: bytes): (r: bytes)
    requires |s| % 2 == 0 && AllLoose(s)
    ensures |r| == |s| / 2
    ensures forall k :: 0 <= k < |r| ==> r[k] == 16 * LooseVal(s[2 * k]) + LooseVal(s[2 * k + 1])
  {
    seq(|s| / 2, k requires 0 <= k < |s| / 2 => 16 * LooseVal(s[2 * k]) + LooseVal(s[2 * k + 1]))
  }

  /** The permutation undoes the interleaving of the pack: pair `i` ends up in byte `i`. */
  lemma GatherAt(lo: Vec, hi: Vec, i: nat)
    requires i < 32
    ensures Gather(lo, hi)[i]
            == Clamp(if i < 16 then MaddUbs(lo, Pattern())[i] else MaddUbs(hi, Pattern())[i - 16], 0, 255)
  {
    hide MaddUbs, Pattern, LaneFrom;
    SwapMiddle(i);
  }

  lemma SwapMiddle(i: nat)
    requires i < 32
    ensures 8 * LaneFrom(0xD8, i / 8) + i % 8 == if 8 <= i < 16 then i + 8 else if 16 <= i < 24 then i - 8 else i
  {
    assert i / 8 == if i < 8 then 0 else if i < 16 then 1 else if i < 24 then 2 else 3;
  }

  lemma LaneMask(v: Vec, i: nat)
    requires i < 32
    ensures ValidMask(Folded(v))[i] >= 128 <==> Loose(v[i])
  {
    hide And8, Or8;
    OrIs20(v[i]);
    var o := Folded(v)[i];
    var d1, d2, l1, l2 := VGt(Folded(v), Set1(0x2F))[i], VGt(Set1(0x3A), Folded(v))[i],
                          VGt(Folded(v), Set1(0x60))[i], VGt(Set1(0x67), Folded(v))[i];
    Masks(d1);
    Masks(d2);
    Masks(l1);
    Masks(And8(d1, d2));
    Masks(And8(l1, l2));
    Masks(l2);
  }

  lemma FoldedValue(b: byte)
    requires Loose(b)
    ensures var o := Or20(b) as int; 0x30 <= o < 0x67 && LooseVal(b) == if o > 0x60 then o - 0x30 - 39 else o - 0x30
  {
  }

  lemma LaneValue(v: Vec, i: nat)
    requires i < 32 && Loose(v[i])
    ensures Nibbles(Folded(v))[i] == LooseVal(v[i])
  {
    hide And8, Or8, Or20;
    OrIs20(v[i]);
    Masks(39);
    FoldedValue(v[i]);
  }

  lemma PairValue(v: Vec, k: nat)
    requires k < 16 && AllLoose(v)
    ensures MaddUbs(Nibbles(Folded(v)), Pattern())[k] == 16 * LooseVal(v[2 * k]) + LooseVal(v[2 * k + 1])
  {
    hide Nibbles, Folded, LooseVal, Loose;
    LaneValue(v, 2 * k);
    LaneValue(v, 2 * k + 1);
  }

  lemma HalfMask(v: Vec)
    ensures AllOnes(ValidMask(Folded(v))) <==> AllLoose(v)
  {
    hide ValidMask, Folded, Loose;
    forall i | 0 <= i < 32
      ensures ValidMask(Folded(v))[i] >= 128 <==> Loose(v[i])
    {
      LaneMask(v, i);
    }
  }

  /** The kernel accepts a chunk exactly when every character is a digit or a stray control byte, and then puts
      each pair's byte in its place. */
  lemma ChunkExact(c: bytes)
    requires |c| == 64
    ensures DecodeChunk(c).Some? <==> AllLoose(c)
    ensures AllLoose(c) ==> DecodeChunk(c).value == LooseUnhex(c)
  {
    hide Folded, Nibbles, ValidMask, Loose, LooseVal, AllOnes, Gather, AllLoose;
    var lo: Vec, hi: Vec := c[..32], c[32..];
    assert c == lo + hi;
    HalfMask(lo);
    HalfMask(hi);
    assert AllLoose(c) <==> AllLoose(lo) && AllLoose(hi) by { LooseHalves(c); }
    if AllLoose(c) {
      var r, u := DecodeChunk(c).value, LooseUnhex(c);
      forall i | 0 <= i < 32
        ensures r[i] == u[i]
      {
        GatherAt(Nibbles(Folded(lo)), Nibbles(Folded(hi)), i);
        if i < 16 { PairValue(lo, i); } else { PairValue(hi, i - 16); }
      }
    }
  }

  lemma LooseHalves(c: bytes)
    requires |c| == 64
    ensures AllLoose(c) <==> AllLoose(c[..32]) && AllLoose(c[32..])
  {
    hide Loose;
    if AllLoose(c[..32]) && AllLoose(c[32..]) {
      forall i | 0 <= i < 64
        ensures Loose(c[i])
      {
        assert if i < 32 then c[i] == c[..32][i] else c[i] == c[32..][i - 32];
      }
    }
  }

  // ---- whole inputs ----

  /** Where the run of 64-character chunks that the kernel accepts ends. */
  function GoodEnd(s: bytes): (e: nat)
    ensures e <= |s| && e % 64 == 0 && e % 2 == 0
  {
    hide AllLoose;
    if |s| >= 64 && AllLoose(s[..64]) then
      var e := GoodEnd(s[64..]);
      SixtyFour(e);
      64 + e
    else 0
  }

  lemma SixtyFour(e: nat)
    requires e % 64 == 0
    ensures (64 + e) % 64 == 0 && (64 + e) % 2 == 0
  {
    Multiple64(e / 64 + 1);
    Multiple2(32 * (e / 64 + 1));
  }

  /** Where the tail starts. */
  function TailStart(s: bytes): (t: nat)
    ensures t <= |s| < t + 64 && t % 64 == 0 && t % 2 == 0
  {
    var q := |s| / 64;
    Multiple64(q);
    Multiple2(32 * q);
    64 * q
  }

  lemma Multiple64(q: nat)
    ensures 64 * q % 64 == 0
  {
  }

  lemma Multiple2(q: nat)
    ensures 2 * q % 2 == 0
  {
  }

  /** What the decoder accepts: strays pass in full chunks, not in the tail. */
  predicate Accepts(s: bytes) { AllLoose(s[..TailStart(s)]) && AllHex(s[TailStart(s)..]) }

  lemma AcceptedIsLoose(s: bytes)
    requires Accepts(s)
    ensures AllLoose(s)
  {
    forall i | 0 <= i < |s|
      ensures Loose(s[i])
    {
      assert if i < TailStart(s) then s[i] == s[..TailStart(s)][i] else s[i] == s[TailStart(s)..][i - TailStart(s)];
    }
  }

  lemma {:induction false} GoodIsLoose(s: bytes)
    ensures AllLoose(s[..GoodEnd(s)])
    decreases |s|
  {
    hide Loose;
    if |s| >= 64 && AllLoose(s[..64]) {
      GoodIsLoose(s[64..]);
      LooseConcat(s[..64], s[64..][..GoodEnd(s[64..])]);
      assert s[..GoodEnd(s)] == s[..64] + s[64..][..GoodEnd(s[64..])];
    }
  }

  /** The chunk at `i`, behind good ones only, is good exactly when the run goes past it. */
  lemma {:induction false} NextChunk(s: bytes, i: nat)
    requires i % 64 == 0 && i <= GoodEnd(s) && i + 64 <= |s|
    ensures if AllLoose(s[i..i + 64]) then i + 64 <= GoodEnd(s) else i == GoodEnd(s)
    decreases |s|
  {
    hide AllLoose;
    if i == 0 {
      assert s[0..64] == s[..64];
    } else {
      NextChunk(s[64..], i - 64);
      assert s[64..][i - 64..i] == s[i..i + 64];
    }
  }

  /** The first bad chunk decides: the run ends there and the input is rejected. */
  lemma BadChunk(s: bytes, i: nat)
    requires i % 64 == 0 && i + 64 <= |s| && !AllLoose(s[i..i + 64])
    ensures !Accepts(s)
  {
    hide Loose;
    var t := TailStart(s);
    assert i + 64 <= t;
    var k :| 0 <= k < 64 && !Loose(s[i..i + 64][k]);
    assert s[..t][i + k] == s[i..i + 64][k];
  }

  lemma LooseConcat(a: bytes, b: bytes)
    ensures AllLoose(a + b) <==> AllLoose(a) && AllLoose(b)
  {
    hide Loose;
    if AllLoose(a + b) {
      assert forall i :: 0 <= i < |a| ==> a[i] == (a + b)[i];
      assert forall i :: 0 <= i < |b| ==> b[i] == (a + b)[|a| + i];
    }
  }

  lemma UnhexConcat(a: bytes, b: bytes)
    requires |a| % 2 == 0 && |b| % 2 == 0 && AllLoose(a) && AllLoose(b)
    ensures AllLoose(a + b) && LooseUnhex(a + b) == LooseUnhex(a) + LooseUnhex(b)
  {
    hide Loose, LooseVal;
    LooseConcat(a, b);
    var u, v := LooseUnhex(a + b), LooseUnhex(a) + LooseUnhex(b);
    forall k | 0 <= k < |u|
      ensures u[k] == v[k]
    {
      if k >= |a| / 2 {
        assert (a + b)[2 * k] == b[2 * (k - |a| / 2)] && (a + b)[2 * k + 1] == b[2 * (k - |a| / 2) + 1];
      }
    }
  }

  lemma HexIsLoose(s: bytes)
    requires |s| % 2 == 0 && AllHex(s)
    ensures AllLoose(s) && LooseUnhex(s) == UnhexAll(s)
  {
  }

  /** What `out` holds after a call: everything on success, else the chunks before the first bad one. */
  function After(input: bytes, before: bytes): (r: bytes)
    requires |input| % 2 == 0 && |before| == |input| / 2
    ensures |r| == |before|
  {
    if Accepts(input) then
      AcceptedIsLoose(input);
      LooseUnhex(input)
    else
      GoodIsLoose(input);
      Splice(before, 0, LooseUnhex(input[..GoodEnd(input)]))
  }

  /** The validated engine on the tail: all digits or nothing. */
  method HexTail(input: bytes, out: array<byte>, at: nat) returns (ok: bool)
    requires |input| % 2 == 0 && at + |input| / 2 <= out.Length
    modifies out
    ensures ok <==> AllHex(input)
    ensures out[..] == if AllHex(input) then Splice(old(out[..]), at, UnhexAll(input)) else old(out[..])
  {
    ok := AllHex(input);
    if ok { Put(out, at, UnhexAll(input)); }
  }

  /** `hex_fast::decode`. */
  method Decode(input: bytes, out: array<byte>) returns (ok: bool)
    requires |input| % 2 == 0 && out.Length == |input| / 2
    modifies out
    ensures ok <==> Accepts(input)
    ensures out[..] == After(input, old(out[..]))
  {
    hide Splice, LooseUnhex, DecodeChunk, AllHex, AllLoose, UnhexAll, GoodEnd, Accepts, After;
    ghost var orig, done := out[..], [];
    var i := 0;
    SpliceNothing(orig, 0);
    EmptyUnhex(input);
    while i + 64 <= |input|
      invariant i % 64 == 0 && i % 2 == 0 && i <= |input| && i <= GoodEnd(input)
      invariant AllLoose(input[..i]) && done == LooseUnhex(input[..i])
      invariant out[..] == Splice(orig, 0, done)
      decreases |input| - i
    {
      ghost var c := input[i..i + 64];
      var chunk := DecodeChunk(input[i..i + 64]);
      ChunkExact(c);
      NextChunk(input, i);
      if chunk.None? {
        BadChunk(input, i);
        AfterRejected(input, orig);
        return false;
      }
      UnhexStep(input, i);
      Extend(out, orig, 0, done, i / 2, chunk.value);
      done := done + chunk.value;
      i := i + 64;
    }
    WholeInput(input, orig, i);
    ok := true;
    if i < |input| {
      ok := HexTail(input[i..], out, i / 2);
      if ok { SpliceSplice(orig, 0, done, UnhexAll(input[i..])); }
    }
  }

  lemma EmptyUnhex(s: bytes)
    ensures AllLoose(s[..0]) && LooseUnhex(s[..0]) == []
  {
  }

  lemma UnhexStep(s: bytes, i: nat)
    requires i % 2 == 0 && i + 64 <= |s| && AllLoose(s[..i]) && AllLoose(s[i..i + 64])
    ensures AllLoose(s[..i + 64]) && LooseUnhex(s[..i + 64]) == LooseUnhex(s[..i]) + LooseUnhex(s[i..i + 64])
  {
    hide AllLoose, LooseUnhex;
    UnhexConcat(s[..i], s[i..i + 64]);
    assert s[..i + 64] == s[..i] + s[i..i + 64];
  }

  lemma AfterRejected(s: bytes, before: bytes)
    requires |s| % 2 == 0 && |before| == |s| / 2 && !Accepts(s)
    ensures AllLoose(s[..GoodEnd(s)])
    ensures After(s, before) == Splice(before, 0, LooseUnhex(s[..GoodEnd(s)]))
  {
    hide Splice, LooseUnhex, AllLoose, GoodEnd;
    GoodIsLoose(s);
  }

  lemma {:induction false} AllGood(s: bytes)
    requires AllLoose(s[..TailStart(s)])
    ensures GoodEnd(s) == TailStart(s)
    decreases |s|
  {
    hide Loose;
    var t := TailStart(s);
    if |s| >= 64 {
      assert t >= 64;
      assert s[..t] == s[..64] + s[64..][..t - 64];
      LooseConcat(s[..64], s[64..][..t - 64]);
      assert TailStart(s[64..]) == t - 64;
      AllGood(s[64..]);
    }
  }

  /** All chunks done: the tail decides. */
  lemma WholeInput(s: bytes, before: bytes, i: nat)
    requires |s| % 2 == 0 && |before| == |s| / 2
    requires i % 64 == 0 && i % 2 == 0 && i <= |s| < i + 64 && AllLoose(s[..i])
    ensures Accepts(s) <==> AllHex(s[i..])
    ensures After(s, before)
            == Splice(before, 0, if AllHex(s[i..]) then LooseUnhex(s[..i]) + UnhexAll(s[i..]) else LooseUnhex(s[..i]))
    ensures i == |s| ==> AllHex(s[i..]) && LooseUnhex(s[..i]) + UnhexAll(s[i..]) == LooseUnhex(s[..i])
  {
    hide AllLoose, LooseUnhex, AllHex, UnhexAll, GoodEnd;
    assert i == TailStart(s);
    if i == |s| { NoTail(s, i); }
    if AllHex(s[i..]) {
      HexIsLoose(s[i..]);
      UnhexConcat(s[..i], s[i..]);
      assert s == s[..i] + s[i..];
      AllWritten(before, LooseUnhex(s));
    } else {
      AllGood(s);
      AfterRejected(s, before);
    }
  }

  lemma AllWritten(before: bytes, t: bytes)
    requires |before| == |t|
    ensures Splice(before, 0, t) == t
  {
  }

  lemma NoTail(s: bytes, i: nat)
    requires i == |s|
    ensures AllHex(s[i..]) && UnhexAll(s[i..]) == []
  {
  }

  datatype HexResult = Decoded(n: nat) | OddLength | TooSmall | InvalidDigit

  /** `hex_decode_into_slice`, with or without the vector kernel. */
  method HexDecodeInto(input: bytes, out: array<byte>, avx2: bool) returns (r: HexResult)
    modifies out
    ensures |input| % 2 == 1 <==> r.OddLength?
    ensures |input| % 2 == 0 ==> (out.Length < |input| / 2 <==> r.TooSmall?)
    ensures |input| % 2 == 0 && out.Length >= |input| / 2 ==>
      && (r.Decoded? <==> if avx2 then Accepts(input) else AllHex(input))
      && (r.Decoded? ==> r.n == |input| / 2)
      && out[|input| / 2..] == old(out[|input| / 2..])
      && (avx2 ==> out[..|input| / 2] == After(input, old(out[..|input| / 2])))
      && (!avx2 && AllHex(input) ==> out[..|input| / 2] == UnhexAll(input))
      && (!avx2 && !AllHex(input) ==> out[..] == old(out[..]))
    ensures r.OddLength? || r.TooSmall? ==> out[..] == old(out[..])
  {
    hide After, Accepts, AllHex, UnhexAll;
    if |input| % 2 != 0 { return OddLength; }
    var needed := |input| / 2;
    if out.Length < needed { return TooSmall; }
    var ok;
    if avx2 {
      var view := new byte[needed](i requires 0 <= i < needed reads out => out[i]);
      assert view[..] == out[..needed];
      ok := Decode(input, view);
      Put(out, 0, view[..]);
    } else {
      ok := HexTail(input, out, 0);
    }
    r := if ok then Decoded(needed) else InvalidDigit;
  }

  // ---- against the scalar table ----

  predicate HasStray(s: bytes) { exists i :: 0 <= i < |s| && Stray(s[i]) }

  /** The verdict is the table's, except on the inputs whose full chunks hold digits and at least one of the bytes
      0x10 to 0x19, and nothing else, with only digits behind them. */
  lemma AgreesWithTable(s: bytes)
    requires |s| % 2 == 0
    ensures var chunks, tail := s[..TailStart(s)], s[TailStart(s)..];
      (Accepts(s) <==> AllHex(s)) <==> !(AllLoose(chunks) && HasStray(chunks) && AllHex(tail))
    ensures AllHex(s) ==> forall before :: |before| == |s| / 2 ==> After(s, before) == UnhexAll(s)
  {
    var t := TailStart(s);
    if AllHex(s) {
      HexIsLoose(s);
      LooseConcat(s[..t], s[t..]);
      assert s == s[..t] + s[t..];
    }
    if Accepts(s) && !HasStray(s[..t]) {
      forall i | 0 <= i < |s|
        ensures IsHex(s[i])
      {
        assert if i < t then s[..t][i] == s[i] else s[t..][i - t] == s[i];
      }
    }
  }

  /** Sixty-four control bytes decode as if they were zeros. */
  lemma StrayChunkIsAccepted()
    ensures var s: bytes := seq(64, i => 0x10); Accepts(s) && !AllHex(s) && LooseUnhex(s) == seq(32, i => 0)
  {
    var s: bytes := seq(64, i => 0x10);
    assert TailStart(s) == 64 && s[..64] == s && s[64..] == [];
    assert !IsHex(s[0]);
  }

  /** Sixty-four zeros and `zz`: rejected, but thirty-two bytes of the buffer are overwritten. */
  lemma DirtyRejection(before: bytes)
    requires |before| == 33
    ensures var s: bytes := seq(64, i => ZERO) + Ascii("zz");
      !Accepts(s) && After(s, before) == seq(32, i => 0) + [before[32]]
  {
    var zeros: bytes := seq(64, i => ZERO);
    var s: bytes := zeros + Ascii("zz");
    assert TailStart(s) == 64 && s[..64] == zeros && s[64..] == Ascii("zz");
    assert !IsHex(Ascii("zz")[0]);
    assert AllLoose(zeros) && LooseUnhex(zeros) == seq(32, i => 0);
    AllGood(s);
    AfterRejected(s, before);
  }

  /** A rejected input leaves the buffer alone exactly when its first chunk, if it has one, is bad: chunks before
      the bad one have been written already. */
  lemma RejectionIsCleanIff(s: bytes)
    requires |s| % 2 == 0 && !Accepts(s)
    ensures (forall before: bytes :: |before| == |s| / 2 ==> After(s, before) == before)
            <==> !(|s| >= 64 && AllLoose(s[..64]))
  {
    hide AllLoose, Accepts, After;
    if |s| >= 64 && AllLoose(s[..64]) {
      var before := GoodChunkShows(s);
    } else {
      forall before: bytes | |before| == |s| / 2
        ensures After(s, before) == before
      {
        BadChunkIsClean(s, before);
      }
    }
  }

  lemma GoodChunkShows(s: bytes) returns (before: bytes)
    requires |s| % 2 == 0 && !Accepts(s) && |s| >= 64 && AllLoose(s[..64])
    ensures |before| == |s| / 2 && After(s, before) != before
  {
    hide AllLoose, Accepts, LooseUnhex, After, Splice;
    GoodIsLoose(s);
    var done := LooseUnhex(s[..GoodEnd(s)]);
    var first: byte := if done[0] == 0 then 1 else 0;
    before := seq(|s| / 2, i => first);
    AfterRejected(s, before);
    assert Splice(before, 0, done)[..|done|][0] == done[0];
    assert before[0] == first;
  }

  lemma BadChunkIsClean(s: bytes, before: bytes)
    requires |s| % 2 == 0 && !Accepts(s) && !(|s| >= 64 && AllLoose(s[..64])) && |before| == |s| / 2
    ensures After(s, before) == before
  {
    hide AllLoose, Accepts, LooseUnhex, After, Splice;
    EmptyUnhex(s);
    AfterRejected(s, before);
    SpliceNothing(before, 0);
  }
}
