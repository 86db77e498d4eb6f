/** Signed cookies (rust/crypto/cookie_sign.rs): `value.<64 hex digits>`.
    The keyed HMAC is a parameter: any function from messages to 32-byte tags. */
module CookieSign {
  import opened Bytes

  type Tag = t: bytes | |t| == 32 witness seq(32, i => 0)
  type Mac = bytes -> Tag

  function Sign(mac: Mac, value: bytes): (r: bytes)
    ensures |r| == |value| + 65
  {
    value + [DOT] + Hex(mac(value))
  }

  /** `sign_cookie_bytes`. */
  method SignCookie(mac: Mac, value: bytes) returns (out: bytes)
    ensures out == Sign(mac, value)
  {
    var sig := HexEncode(mac(value));
    out := value;
    out := out + [DOT];
    out := out + sig;
  }

  /** `sign_cookie_into`: the same bytes at the front of `out`, or nothing when they do not fit. */
  method SignInto(mac: Mac, value: bytes, out: array<byte>) returns (r: Option<nat>)
    modifies out
    ensures r == if out.Length < |value| + 65 then None else Some(|value| + 65)
    ensures r.None? ==> out[..] == old(out[..])
    ensures r.Some? ==> out[..] == Splice(old(out[..]), 0, Sign(mac, value))
  {
    var need := |value| + 1 + 64;
    if out.Length < need { return None; }
    var sig := HexEncode(mac(value));
    ghost var orig := out[..];
    Put(out, 0, value);
    Extend(out, orig, 0, value, |value|, [DOT]);
    Extend(out, orig, 0, value + [DOT], |value| + 1, sig);
    return Some(need);
  }

  /** `rposition` of a dot. */
  function LastDot(s: bytes): (r: Option<nat>)
    ensures r.None? <==> DOT !in s
    ensures r.Some? ==> r.value < |s| && s[r.value] == DOT && DOT !in s[r.value + 1..]
  {
    if s == [] then None
    else if s[|s| - 1] == DOT then Some(|s| - 1)
    else
      assert s == s[..|s| - 1] + [s[|s| - 1]];
      var r := LastDot(s[..|s| - 1]);
      assert r.Some? ==> s[r.value + 1..] == s[..|s| - 1][r.value + 1..] + [s[|s| - 1]];
      r
  }

  /** `hex_decode_32`. */
  function HexDecode32(hex: bytes): (r: Option<Tag>)
  {
    if |hex| == 64 && AllHex(hex) then Some(UnhexAll(hex)) else None
  }

  /** `verify_cookie_bytes`. */
  function Verify(mac: Mac, signed: bytes): (r: Option<bytes>)
  {
    match LastDot(signed)
    case None => None
    case Some(dot) =>
      var value, sig := signed[..dot], signed[dot + 1..];
      if |sig| != 64 then None
      else match HexDecode32(sig)
        case None => None
        case Some(tag) => if mac(value) == tag then Some(value) else None
  }

  /** Hex digits of either case that spell the tag of `value`. */
  ghost predicate Signature(mac: Mac, value: bytes, sig: bytes) {
    |sig| == 64 && AllHex(sig) && UnhexAll(sig) == mac(value)
  }

  /** Accepted are exactly the values followed by a dot and a correct signature of that value. */
  lemma VerifyIff(mac: Mac, signed: bytes, value: bytes)
    ensures Verify(mac, signed) == Some(value) <==>
            exists sig :: Signature(mac, value, sig) && signed == value + [DOT] + sig
  {
    if Verify(mac, signed) == Some(value) {
      var dot := LastDot(signed).value;
      assert signed == signed[..dot] + [DOT] + signed[dot + 1..];
      assert Signature(mac, value, signed[dot + 1..]);
    }
    if exists sig :: Signature(mac, value, sig) && signed == value + [DOT] + sig {
      var sig :| Signature(mac, value, sig) && signed == value + [DOT] + sig;
      VerifyAccepts(mac, value, sig);
    }
  }

  /** The signature holds no dot, so dots in the value never move the cut. */
  lemma VerifyAccepts(mac: Mac, value: bytes, sig: bytes)
    requires Signature(mac, value, sig)
    ensures Verify(mac, value + [DOT] + sig) == Some(value)
  {
    var signed := value + [DOT] + sig;
    assert signed[|value|] == DOT;
    var dot := LastDot(signed).value;
    assert forall i :: 0 <= i < |sig| ==> sig[i] != DOT;
    assert forall i :: |value| < i < |signed| ==> signed[i] == sig[i - |value| - 1];
    assert forall i :: dot < i < |signed| ==> signed[i] == signed[dot + 1..][i - dot - 1];
    assert dot == |value|;
    assert signed[..|value|] == value && signed[|value| + 1..] == sig;
  }

  /** What is signed verifies, as the value that was signed. */
  lemma VerifySign(mac: Mac, value: bytes)
    ensures Verify(mac, Sign(mac, value)) == Some(value)
  {
    UnhexHex(mac(value));
    VerifyAccepts(mac, value, Hex(mac(value)));
  }

  /** `verify_cookie_into`: the verdict of `Verify`, except that a value longer than `out` is refused too. */
  method VerifyInto(mac: Mac, signed: bytes, out: array<byte>) returns (r: Option<nat>)
    modifies out
    ensures r.Some? <==> Verify(mac, signed).Some? && |Verify(mac, signed).value| <= out.Length
    ensures r.Some? ==> r.value == |Verify(mac, signed).value|
    ensures r.Some? ==> out[..] == Splice(old(out[..]), 0, Verify(mac, signed).value)
    ensures r.None? ==> out[..] == old(out[..])
  {
    var dot := LastDot(signed);
    if dot.None? { return None; }
    var value, sig := signed[..dot.value], signed[dot.value + 1..];
    if |sig| != 64 { return None; }
    var tag := HexDecode32(sig);
    if tag.None? || mac(value) != tag.value { return None; }
    if out.Length < |value| { return None; }
    Put(out, 0, value);
    return Some(|value|);
  }
}
