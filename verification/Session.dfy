/** The session envelope (rust/crypto/session.rs): `{"id":"…","data":…,"exp":N}`, signed like a cookie. */
module Session {
  import opened Bytes
  import opened Decimal
  import opened JsonText
  import opened JsonEscape
  import opened JsonScan
  import opened JsonId
  import opened CookieSign

  /** HMAC-SHA256 of a message under a secret. */
  type Hmac = (bytes, bytes) -> Tag

  const ID_HEAD: bytes := [LBRACE, QUOTE, 0x69, 0x64, QUOTE, COLON, QUOTE]             // {"id":"
  const DATA_HEAD: bytes := [QUOTE, COMMA, QUOTE, 0x64, 0x61, 0x74, 0x61, QUOTE, COLON] // ","data":
  const EXP_HEAD: bytes := [COMMA, QUOTE, 0x65, 0x78, 0x70, QUOTE, COLON]               // ,"exp":

  const ID_KEY: bytes := [0x69, 0x64]
  const DATA_KEY: bytes := [0x64, 0x61, 0x74, 0x61]
  const EXP_KEY: bytes := [0x65, 0x78, 0x70]

  function Envelope(id: bytes, data: bytes, exp: int): bytes {
    ID_HEAD + Escape(id) + DATA_HEAD + data + EXP_HEAD + Signed(exp) + [RBRACE]
  }

  function Sealed(hmac: Hmac, id: bytes, data: bytes, exp: int, secret: bytes): Option<bytes> {
    if id == [] || secret == [] then None
    else Some(Sign(m => hmac(secret, m), Envelope(id, data, exp)))
  }

  /** `seal_core`. */
  method Seal(hmac: Hmac, id: bytes, data: bytes, exp: int, secret: bytes) returns (token: Option<bytes>)
    ensures token == Sealed(hmac, id, data, exp, secret)
  {
    hide Escape, Signed;
    if id == [] || secret == [] { return None; }
    var escaped := EscapeId(id);
    var json := [LBRACE];
    json := json + [QUOTE, 0x69, 0x64, QUOTE, COLON, QUOTE];
    json := json + escaped;
    json := json + DATA_HEAD;
    json := json + data;
    json := json + EXP_HEAD;
    json := json + Signed(exp);
    json := json + [RBRACE];
    assert json == Envelope(id, data, exp);
    var t := SignCookie(m => hmac(secret, m), json);
    token := Some(t);
  }

  /** The resize, escape and truncate around `write_json_escaped`. */
  method EscapeId(id: bytes) returns (r: bytes)
    ensures r == Escape(id)
  {
    var n := EscapedLen(id);
    var buf := new byte[n](i => 0);
    ghost var blank := buf[..];
    var end := WriteEscaped(buf, 0, id);
    r := buf[..end];
  }

  // ---- opening ----

  datatype Fields = Fields(id: Option<bytes>, data: Option<bytes>, exp: Option<int>)

  function Find(b: bytes, i: nat, c: byte): (r: nat)
    requires i <= |b|
    ensures i <= r <= |b| && (r < |b| ==> b[r] == c)
    decreases |b| - i
  {
    if i == |b| || b[i] == c then i else Find(b, i + 1, c)
  }

  function SkipSpaces(b: bytes, i: nat): (r: nat)
    requires i <= |b|
    ensures i <= r <= |b| && (r < |b| ==> b[r] != SPACE)
    decreases |b| - i
  {
    if i < |b| && b[i] == SPACE then SkipSpaces(b, i + 1) else i
  }

  predicate Numeric(c: byte) { IsDigit(c) || c == MINUS }

  function NumberEnd(b: bytes, i: nat): (r: nat)
    requires i <= |b|
    ensures i <= r <= |b|
    decreases |b| - i
  {
    if i < |b| && Numeric(b[i]) then NumberEnd(b, i + 1) else i
  }

  /** One `"key":value` with the quote at `pos`: where it ends, and the fields with that key's field set. */
  function Entry(b: bytes, pos: nat, f: Fields): (r: Option<(nat, Fields)>)
    requires pos < |b| && b[pos] == QUOTE
    ensures r.Some? ==> pos < r.value.0 <= |b|
  {
    var kend := Find(b, pos + 1, QUOTE);
    if kend == |b| || kend + 1 == |b| || b[kend + 1] != COLON then None
    else EntryValue(b, b[pos + 1..kend], SkipSpaces(b, kend + 2), f)
  }

  function EntryValue(b: bytes, key: bytes, v: nat, f: Fields): (r: Option<(nat, Fields)>)
    requires v <= |b|
    ensures r.Some? ==> v <= r.value.0 <= |b|
  {
    if key == ID_KEY then
      if v == |b| || b[v] != QUOTE then None
      else match StringEnd(b, v + 1)
        case None => None
        case Some(end) => Some((end + 1, f.(id := Some(Unescape(b[v + 1..end])))))
    else if key == EXP_KEY then
      var end := NumberEnd(b, v);
      Some((end, f.(exp := ParseInt(b[v..end], I64_MIN, I64_MAX))))
    else match Skip(b, v)
      case None => None
      case Some(end) => Some((end, if key == DATA_KEY then f.(data := Some(b[v..end])) else f))
  }

  function Scan(b: bytes, pos: nat, f: Fields): Option<Fields>
    decreases |b| - pos
  {
    if pos >= |b| then Some(f)
    else if b[pos] == QUOTE then
      match Entry(b, pos, f)
      case None => None
      case Some(next) => Scan(b, next.0, next.1)
    else Scan(b, pos + 1, f)
  }

  function Opened(hmac: Hmac, token: bytes, secret: bytes): Option<(int, bytes, bytes)> {
    if secret == [] then None
    else match Verify(m => hmac(secret, m), token)
      case None => None
      case Some(json) =>
        match Scan(json, 1, Fields(None, None, None))
        case None => None
        case Some(f) => Extract(f)
  }

  function Extract(f: Fields): Option<(int, bytes, bytes)> {
    if f.id.None? || f.id.value == [] then None
    else Some((if f.exp.Some? then f.exp.value else 0, f.id.value,
               if f.data.Some? then f.data.value else [LBRACE, RBRACE]))
  }

  /** The `b'"'` arm of `open_core`'s loop. */
  method ReadEntry(b: bytes, pos: nat, f: Fields) returns (r: Option<(nat, Fields)>)
    requires pos < |b| && b[pos] == QUOTE
    ensures r == Entry(b, pos, f)
  {
    hide EntryValue;
    var kend := pos + 1;
    while kend < |b| && b[kend] != QUOTE
      invariant pos < kend <= |b|
      invariant Find(b, kend, QUOTE) == Find(b, pos + 1, QUOTE)
    {
      kend := kend + 1;
    }
    if kend >= |b| { return None; }
    var key := b[pos + 1..kend];
    var p := kend + 1;
    if p >= |b| || b[p] != COLON { return None; }
    p := p + 1;
    while p < |b| && b[p] == SPACE
      invariant kend + 2 <= p <= |b|
      invariant SkipSpaces(b, p) == SkipSpaces(b, kend + 2)
    {
      p := p + 1;
    }
    r := ReadValue(b, key, p, f);
  }

  method ReadValue(b: bytes, key: bytes, v: nat, f: Fields) returns (r: Option<(nat, Fields)>)
    requires v <= |b|
    ensures r == EntryValue(b, key, v, f)
  {
    if key == ID_KEY {
      if v >= |b| || b[v] != QUOTE { return None; }
      var end := ScanStringEnd(b, v + 1);
      if end.None? { return None; }
      var id := UnescapeId(b[v + 1..end.value]);
      return Some((end.value + 1, f.(id := Some(id))));
    } else if key == EXP_KEY {
      var p := v;
      while p < |b| && Numeric(b[p])
        invariant v <= p <= |b|
        invariant NumberEnd(b, p) == NumberEnd(b, v)
      {
        p := p + 1;
      }
      return Some((p, f.(exp := ParseInt(b[v..p], I64_MIN, I64_MAX))));
    } else {
      var end := SkipJsonValue(b, v);
      if end.None? { return None; }
      return Some((end.value, if key == DATA_KEY then f.(data := Some(b[v..end.value])) else f));
    }
  }

  /** `open_core`. The scan ends on any payload, since every turn moves `pos` forward. */
  method Open(hmac: Hmac, token: bytes, secret: bytes) returns (r: Option<(int, bytes, bytes)>)
    ensures r == Opened(hmac, token, secret)
  {
    hide Entry, Verify;
    if secret == [] { return None; }
    var json := Verify(m => hmac(secret, m), token);
    if json.None? { return None; }
    var b := json.value;
    var pos, f := 1, Fields(None, None, None);
    while pos < |b|
      invariant Scan(b, pos, f) == Scan(b, 1, Fields(None, None, None))
      decreases |b| - pos
    {
      if b[pos] == QUOTE {
        var next := ReadEntry(b, pos, f);
        if next.None? { return None; }
        pos, f := next.value.0, next.value.1;
      } else {
        pos := pos + 1;
      }
    }
    if f.id.None? { return None; }
    if f.id.value == [] { return None; }
    return Some((if f.exp.Some? then f.exp.value else 0, f.id.value,
                 if f.data.Some? then f.data.value else [LBRACE, RBRACE]));
  }

  // ---- how the scan moves ----

  lemma {:induction false} FindAfter(b: bytes, i: nat, key: bytes)
    requires QUOTE !in key && At(b, i, key) && i + |key| < |b| && b[i + |key|] == QUOTE
    ensures Find(b, i, QUOTE) == i + |key|
    decreases |key|
  {
    if key != [] {
      AtHead(b, i, key);
      FindAfter(b, i + 1, key[1..]);
    }
  }

  lemma {:induction false} NumberEndAt(b: bytes, i: nat, t: bytes)
    requires At(b, i, t) && forall k :: 0 <= k < |t| ==> Numeric(t[k])
    requires i + |t| < |b| && !Numeric(b[i + |t|])
    ensures NumberEnd(b, i) == i + |t|
    decreases |t|
  {
    if t != [] {
      AtHead(b, i, t);
      NumberEndAt(b, i + 1, t[1..]);
    }
  }

  /** Text that is read as a literal is: it holds no delimiter and does not start like anything else. */
  predicate Bare(text: bytes) {
    && text != [] && text[0] != SPACE && text[0] != QUOTE && text[0] != LBRACE && text[0] != LBRACKET
    && NoDelimiters(text)
  }

  predicate NoDelimiters(text: bytes) { forall i :: 0 <= i < |text| ==> !Delimiter(text[i]) }

  /** What the scan reads as one value: well-formed ones, and any bare text in place of a literal. */
  ghost predicate Readable(v: Value) { if v.Literal? then Bare(v.text) else WellFormed(v) }

  lemma WellFormedIsReadable(v: Value)
    requires WellFormed(v)
    ensures Readable(v)
  {
    if v.Literal? { LiteralBytes(v.text); }
  }

  /** Trailing white space stays with a literal, which ends only at a delimiter, and is left off otherwise. */
  function Kept(v: Value, blank: bytes): bytes {
    if v.Literal? then Print(v) + blank else Print(v)
  }

  lemma KeptSkips(b: bytes, pos: nat, v: Value, blank: bytes)
    requires Readable(v) && Space(blank) && At(b, pos, Print(v) + blank)
    requires pos + |Print(v) + blank| < |b| && Delimiter(b[pos + |Print(v) + blank|])
    ensures Skip(b, pos) == Some(pos + |Kept(v, blank)|) && At(b, pos, Kept(v, blank))
  {
    hide WellFormed, At, Skip, BracketEnd, StringEnd, Print, Bare, LiteralEnd;
    AtSplit(b, pos, Print(v), blank);
    if v.Literal? {
      BareSkips(b, pos, v, blank);
    } else {
      SkipExact(b, pos, v);
    }
  }

  lemma BareSkips(b: bytes, pos: nat, v: Value, blank: bytes)
    requires v.Literal? && Bare(v.text) && Space(blank) && At(b, pos, Print(v) + blank)
    requires pos + |Print(v) + blank| < |b| && Delimiter(b[pos + |Print(v) + blank|])
    ensures Skip(b, pos) == Some(pos + |Print(v) + blank|)
  {
    AtHead(b, pos, v.text + blank);
    LiteralEndExact(b, pos, v.text + blank);
  }

  lemma StartsVisibly(v: Value)
    requires Readable(v)
    ensures Print(v) != [] && Print(v)[0] != SPACE
  {
  }

  lemma ScanEntry(b: bytes, pos: nat, f: Fields, next: nat, f': Fields)
    requires pos < |b| && b[pos] == QUOTE && Entry(b, pos, f) == Some((next, f'))
    ensures Scan(b, pos, f) == Scan(b, next, f')
  {
  }

  lemma {:induction false} ScanOther(b: bytes, pos: nat, t: bytes, f: Fields)
    requires At(b, pos, t) && QUOTE !in t
    ensures Scan(b, pos, f) == Scan(b, pos + |t|, f)
    decreases |t|
  {
    hide Entry;
    if t != [] {
      AtHead(b, pos, t);
      ScanOther(b, pos + 1, t[1..], f);
    }
  }

  lemma ScanDone(b: bytes, f: Fields)
    ensures Scan(b, |b|, f) == Some(f)
  {
  }

  // ---- what can be returned as data ----

  /** Never with a blank in front, and with other white space in front only text without delimiters. */
  predicate Returnable(data: bytes) {
    data != [] && Space(data[..1]) ==> data[0] != SPACE && NoDelimiters(data)
  }

  ghost predicate DataReturnable(f: Fields) { f.data.Some? ==> Returnable(f.data.value) }

  lemma {:induction false} LiteralHoldsNoDelimiters(b: bytes, e: nat)
    requires e <= |b|
    ensures NoDelimiters(b[e..LiteralEnd(b, e)])
    decreases |b| - e
  {
    if e < |b| && !Delimiter(b[e]) {
      LiteralHoldsNoDelimiters(b, e + 1);
      assert b[e..LiteralEnd(b, e)] == [b[e]] + b[e + 1..LiteralEnd(b, e)];
    }
  }

  lemma EntryReturns(b: bytes, pos: nat, f: Fields)
    requires pos < |b| && b[pos] == QUOTE && DataReturnable(f) && Entry(b, pos, f).Some?
    ensures DataReturnable(Entry(b, pos, f).value.1)
  {
    hide Find, SkipSpaces, EntryValue, DataReturnable;
    var kend := Find(b, pos + 1, QUOTE);
    ValueReturns(b, b[pos + 1..kend], SkipSpaces(b, kend + 2), f);
  }

  lemma ValueReturns(b: bytes, key: bytes, v: nat, f: Fields)
    requires v <= |b| && (v < |b| ==> b[v] != SPACE) && DataReturnable(f) && EntryValue(b, key, v, f).Some?
    ensures DataReturnable(EntryValue(b, key, v, f).value.1)
  {
    hide StringEnd, Skip, Unescape, ParseInt, NumberEnd, Returnable;
    if key == DATA_KEY { SkippedIsReturnable(b, v); }
  }

  lemma SkippedIsReturnable(b: bytes, v: nat)
    requires v <= |b| && (v < |b| ==> b[v] != SPACE) && Skip(b, v).Some?
    ensures Returnable(b[v..Skip(b, v).value])
  {
    hide StringEnd, BracketEnd, LiteralEnd, NoDelimiters;
    var data := b[v..Skip(b, v).value];
    if data != [] {
      assert data[..1] == [b[v]] && data[0] == b[v];
      assert Space([b[v]]) ==> [b[v]][0] == TAB || [b[v]][0] == LF || [b[v]][0] == CR;
      LiteralHoldsNoDelimiters(b, v);
    }
  }

  lemma {:induction false} ScanReturns(b: bytes, pos: nat, f: Fields)
    requires DataReturnable(f)
    ensures Scan(b, pos, f).Some? ==> DataReturnable(Scan(b, pos, f).value)
    decreases |b| - pos
  {
    hide Entry, Returnable;
    if pos < |b| {
      if b[pos] != QUOTE {
        ScanReturns(b, pos + 1, f);
      } else if Entry(b, pos, f).Some? {
        EntryReturns(b, pos, f);
        ScanReturns(b, Entry(b, pos, f).value.0, Entry(b, pos, f).value.1);
      }
    }
  }

  /** Whatever the token, the data it opens with does not start with a blank, and holds no delimiter if it starts with
      other white space. */
  lemma OpenedIsReturnable(hmac: Hmac, token: bytes, secret: bytes)
    requires Opened(hmac, token, secret).Some?
    ensures Returnable(Opened(hmac, token, secret).value.2)
  {
    hide Scan, Verify;
    var b := Verify(m => hmac(secret, m), token).value;
    ScanReturns(b, 1, Fields(None, None, None));
    var none: bytes := [LBRACE, RBRACE];
    assert none[..1][0] == LBRACE;
  }

  /** Whatever opens carries a correct signature of its payload under the secret, and a non-empty id. */
  lemma OpenIsAuthentic(hmac: Hmac, token: bytes, secret: bytes)
    requires Opened(hmac, token, secret).Some?
    ensures secret != [] && Opened(hmac, token, secret).value.1 != []
    ensures exists json, sig :: Signature(m => hmac(secret, m), json, sig) && token == json + [DOT] + sig
  {
    hide Scan;
    var mac := m => hmac(secret, m);
    var json := Verify(mac, token).value;
    VerifyIff(mac, token, json);
    var sig :| Signature(mac, json, sig) && token == json + [DOT] + sig;
  }
}
