/** What opening gives (rust/crypto/session.rs:56-128), for every envelope of a sealer's kind: the known members in
    any order, repeated or missing, among unknown ones, with white space around the values. What `seal_core` writes is
    one of them. */
module SessionForms {
  import opened Bytes
  import opened Decimal
  import opened JsonText
  import opened JsonEscape
  import opened JsonScan
  import opened JsonId
  import opened CookieSign
  import opened Session

  datatype What = IdIs(text: bytes) | DataIs(v: Value) | ExpIs(exp: int) | OtherIs(key: bytes, v: Value)

  /** A member, with anything but quotes in front, `gap` blanks behind its colon and white space behind its value. */
  datatype Line = Line(before: bytes, what: What, gap: nat, after: bytes)

  predicate Known(key: bytes) { key == ID_KEY || key == DATA_KEY || key == EXP_KEY }

  ghost predicate Good(w: What) {
    match w
    case IdIs(text) => StringBody(text)
    case DataIs(v) => Readable(v)
    case ExpIs(exp) => I64_MIN <= exp <= I64_MAX
    case OtherIs(key, v) => QUOTE !in key && !Known(key) && Readable(v)
  }

  ghost predicate GoodLine(m: Line) { QUOTE !in m.before && Good(m.what) && Space(m.after) }

  /** A delimiter stands in front of every member but the first. */
  ghost predicate GoodLines(ms: seq<Line>) {
    forall i :: 0 <= i < |ms| ==> GoodLine(ms[i]) && (i > 0 ==> Divided(ms[i]))
  }

  predicate Divided(m: Line) { m.before != [] && Delimiter(m.before[0]) }

  function KeyOf(w: What): bytes {
    match w
    case IdIs(_) => ID_KEY
    case DataIs(_) => DATA_KEY
    case ExpIs(_) => EXP_KEY
    case OtherIs(key, _) => key
  }

  function ValueText(w: What): bytes {
    match w
    case IdIs(text) => Quoted(text)
    case DataIs(v) => Print(v)
    case ExpIs(exp) => Signed(exp)
    case OtherIs(_, v) => Print(v)
  }

  /** What a member sets. */
  function Apply(m: Line, f: Fields): Fields {
    match m.what
    case IdIs(text) => f.(id := Some(Unescape(text)))
    case DataIs(v) => f.(data := Some(Kept(v, m.after)))
    case ExpIs(exp) => f.(exp := Some(exp))
    case OtherIs(_, _) => f
  }

  /** The part of value and white space that is read with the member. */
  function Taken(m: Line): bytes {
    match m.what
    case DataIs(v) => Kept(v, m.after)
    case OtherIs(_, v) => Kept(v, m.after)
    case _ => ValueText(m.what)
  }

  function Rest(m: Line): bytes {
    match m.what
    case DataIs(v) => if v.Literal? then [] else m.after
    case OtherIs(_, v) => if v.Literal? then [] else m.after
    case _ => m.after
  }

  lemma TakenAndRest(m: Line)
    requires GoodLine(m)
    ensures ValueText(m.what) + m.after == Taken(m) + Rest(m) && Space(Rest(m)) && QUOTE !in Rest(m)
  {
    hide Print, Good;
    assert Taken(m) + [] == Taken(m);
  }

  function Blanks(n: nat): (r: bytes)
    ensures |r| == n && forall i :: 0 <= i < n ==> r[i] == SPACE
  {
    seq(n, i => SPACE)
  }

  function PrintMember(m: Line): bytes {
    [QUOTE] + KeyOf(m.what) + [QUOTE, COLON] + Blanks(m.gap) + (ValueText(m.what) + m.after)
  }

  /** The members behind one another, the last one before the closing brace. */
  function PrintAll(ms: seq<Line>): bytes {
    if ms == [] then [RBRACE]
    else ms[0].before + (PrintMember(ms[0]) + PrintAll(ms[1..]))
  }

  function ApplyAll(ms: seq<Line>, f: Fields): Fields {
    if ms == [] then f else ApplyAll(ms[1..], Apply(ms[0], f))
  }

  // ---- reading one member ----

  lemma {:induction false} SpacesSkipped(b: bytes, i: nat, n: nat)
    requires At(b, i, Blanks(n)) && i + n < |b| && b[i + n] != SPACE
    ensures SkipSpaces(b, i) == i + n
    decreases n
  {
    if n > 0 {
      AtHead(b, i, Blanks(n));
      assert Blanks(n)[1..] == Blanks(n - 1);
      SpacesSkipped(b, i + 1, n - 1);
    }
  }

  lemma KeyReads(b: bytes, pos: nat, key: bytes, gap: nat, f: Fields)
    requires QUOTE !in key && At(b, pos, [QUOTE] + key + [QUOTE, COLON] + Blanks(gap))
    requires pos + |key| + 3 + gap < |b| && b[pos + |key| + 3 + gap] != SPACE
    ensures pos < |b| && b[pos] == QUOTE
    ensures Entry(b, pos, f) == EntryValue(b, key, pos + |key| + 3 + gap, f)
  {
    hide EntryValue, SkipSpaces;
    var k := pos + 1 + |key|;
    AtSplit(b, pos, [QUOTE] + key + [QUOTE, COLON], Blanks(gap));
    AtSplit(b, pos, [QUOTE] + key, [QUOTE, COLON]);
    AtSplit(b, pos, [QUOTE], key);
    AtHead(b, pos, [QUOTE]);
    assert b[k..k + 2] == [QUOTE, COLON];
    assert b[k] == b[k..k + 2][0] && b[k + 1] == b[k..k + 2][1];
    FindAfter(b, pos + 1, key);
    SpacesSkipped(b, k + 2, gap);
  }

  lemma IdReads(b: bytes, at: nat, text: bytes, f: Fields)
    requires StringBody(text) && At(b, at, Quoted(text))
    ensures EntryValue(b, ID_KEY, at, f) == Some((at + |Quoted(text)|, f.(id := Some(Unescape(text)))))
  {
    hide StringEnd, Unescape, StringBody, Skip;
    AtHead(b, at, Quoted(text));
    assert Quoted(text)[1..] == text + [QUOTE];
    StringEndExact(b, at + 1, text);
    AtSplit(b, at + 1, text, [QUOTE]);
  }

  lemma ExpReads(b: bytes, at: nat, exp: int, f: Fields)
    requires I64_MIN <= exp <= I64_MAX && At(b, at, Signed(exp))
    requires at + |Signed(exp)| < |b| && !Numeric(b[at + |Signed(exp)|])
    ensures EntryValue(b, EXP_KEY, at, f) == Some((at + |Signed(exp)|, f.(exp := Some(exp))))
  {
    hide ParseInt, Skip, StringEnd;
    NumberEndAt(b, at, Signed(exp));
    ParseSigned(exp, I64_MIN, I64_MAX);
  }

  lemma BehindExp(b: bytes, at: nat, after: bytes)
    requires Space(after) && At(b, at, after) && at + |after| < |b| && Delimiter(b[at + |after|])
    ensures !Numeric(b[at])
  {
    if after != [] { AtHead(b, at, after); }
  }

  lemma ValueReads(b: bytes, at: nat, m: Line, f: Fields)
    requires GoodLine(m) && At(b, at, ValueText(m.what) + m.after)
    requires var end := at + |ValueText(m.what) + m.after|; end < |b| && Delimiter(b[end])
    ensures EntryValue(b, KeyOf(m.what), at, f) == Some((at + |Taken(m)|, Apply(m, f)))
  {
    hide Print, Readable, Skip, StringBody, StringEnd, Signed, Quoted, Unescape, Kept;
    AtSplit(b, at, ValueText(m.what), m.after);
    match m.what
    case IdIs(text) => IdReads(b, at, text, f);
    case ExpIs(exp) =>
      BehindExp(b, at + |Signed(exp)|, m.after);
      ExpReads(b, at, exp, f);
    case DataIs(v) => KeptSkips(b, at, v, m.after);
    case OtherIs(key, v) => KeptSkips(b, at, v, m.after);
  }

  lemma StartsSolid(w: What)
    requires Good(w)
    ensures ValueText(w) != [] && ValueText(w)[0] != SPACE
  {
    hide Readable, Print;
    match w
    case DataIs(v) => StartsVisibly(v);
    case OtherIs(_, v) => StartsVisibly(v);
    case ExpIs(exp) => assert exp >= 0 ==> IsDigit(Signed(exp)[0]);
    case IdIs(_) =>
  }

  lemma MemberReads(b: bytes, at: nat, m: Line, f: Fields)
    requires GoodLine(m) && At(b, at, PrintMember(m))
    requires var end := at + |PrintMember(m)|; end < |b| && Delimiter(b[end])
    ensures at < |b| && b[at] == QUOTE
    ensures Entry(b, at, f) == Some((at + |PrintMember(m)| - |Rest(m)|, Apply(m, f)))
    ensures At(b, at + |PrintMember(m)| - |Rest(m)|, Rest(m)) && QUOTE !in Rest(m)
  {
    hide Good, Entry, EntryValue, ValueText, Apply, At, Taken, Rest;
    var key, value := KeyOf(m.what), ValueText(m.what) + m.after;
    var head := [QUOTE] + key + [QUOTE, COLON] + Blanks(m.gap);
    AtSplit(b, at, head, value);
    StartsSolid(m.what);
    AtHead(b, at + |head|, value);
    assert QUOTE !in key by { KeysHoldNoQuote(m.what); }
    KeyReads(b, at, key, m.gap, f);
    ValueReads(b, at + |head|, m, f);
    TakenAndRest(m);
    AtSplit(b, at + |head|, Taken(m), Rest(m));
  }

  lemma KeysHoldNoQuote(w: What)
    requires Good(w)
    ensures QUOTE !in KeyOf(w)
  {
  }

  // ---- reading all of them ----

  lemma OneMember(b: bytes, at: nat, m: Line, rest: bytes, f: Fields)
    requires GoodLine(m) && rest != [] && Delimiter(rest[0])
    requires At(b, at, m.before + (PrintMember(m) + rest))
    ensures var next := at + |m.before| + |PrintMember(m)|;
      Scan(b, at, f) == Scan(b, next, Apply(m, f)) && At(b, next, rest)
  {
    hide Good, Scan, Entry, PrintMember, Apply, At, Rest;
    var start := at + |m.before|;
    var end, f' := start + |PrintMember(m)|, Apply(m, f);
    AtSplit(b, at, m.before, PrintMember(m) + rest);
    AtSplit(b, start, PrintMember(m), rest);
    AtHead(b, end, rest);
    ScanOther(b, at, m.before, f);
    MemberReads(b, start, m, f);
    ScanEntry(b, start, f, end - |Rest(m)|, f');
    ScanOther(b, end - |Rest(m)|, Rest(m), f');
  }

  lemma RestIsDivided(ms: seq<Line>)
    requires GoodLines(ms) && ms != []
    ensures GoodLines(ms[1..]) && PrintAll(ms[1..]) != [] && Delimiter(PrintAll(ms[1..])[0])
  {
    hide GoodLine, PrintMember;
    if |ms| > 1 { assert Divided(ms[1]) && ms[1..][0] == ms[1]; }
  }

  lemma {:induction false} MembersRead(b: bytes, at: nat, ms: seq<Line>, f: Fields)
    requires GoodLines(ms) && At(b, at, PrintAll(ms)) && at + |PrintAll(ms)| == |b|
    ensures Scan(b, at, f) == Some(ApplyAll(ms, f))
    decreases |ms|
  {
    hide GoodLine, Scan, PrintMember, Apply, At;
    if ms == [] {
      ScanOther(b, at, [RBRACE], f);
      ScanDone(b, f);
    } else {
      RestIsDivided(ms);
      OneMember(b, at, ms[0], PrintAll(ms[1..]), f);
      MembersRead(b, at + |ms[0].before| + |PrintMember(ms[0])|, ms[1..], Apply(ms[0], f));
    }
  }

  /** A signed envelope opens to what its members set, the last of each kind winning, whatever their order and
      whatever stands between them; no id or an empty one, and it does not open. */
  lemma OpenAnyForm(hmac: Hmac, ms: seq<Line>, secret: bytes)
    requires secret != [] && GoodLines(ms)
    ensures Opened(hmac, Sign(m => hmac(secret, m), [LBRACE] + PrintAll(ms)), secret)
            == Extract(ApplyAll(ms, Fields(None, None, None)))
  {
    hide Verify, Scan, Sign, PrintAll, GoodLines, Extract;
    var b := [LBRACE] + PrintAll(ms);
    VerifySign(m => hmac(secret, m), b);
    assert b[1..] == PrintAll(ms);
    assert At(b, 1, PrintAll(ms));
    MembersRead(b, 1, ms, Fields(None, None, None));
  }

  /** An envelope that holds only an id opens with expiry 0 and an empty object. */
  lemma IdAlone(hmac: Hmac, text: bytes, secret: bytes)
    requires secret != [] && StringBody(text) && Unescape(text) != []
    ensures var payload := [LBRACE] + PrintAll([Line([], IdIs(text), 0, [])]);
      Opened(hmac, Sign(m => hmac(secret, m), payload), secret) == Some((0, Unescape(text), [LBRACE, RBRACE]))
  {
    hide Opened, Sign, PrintAll, Unescape, StringBody;
    var ms := [Line([], IdIs(text), 0, [])];
    OpenAnyForm(hmac, ms, secret);
    assert ms[1..] == [];
  }

  // ---- sealed envelopes ----

  function IdLine(before: bytes, id: bytes): Line { Line(before, IdIs(Escape(id)), 0, []) }

  function ExpLine(before: bytes, exp: int): Line { Line(before, ExpIs(exp), 0, []) }

  function DataHead(n: nat): bytes { [QUOTE] + DATA_KEY + [QUOTE, COLON] + Blanks(n) }

  lemma IdLineIs(before: bytes, id: bytes)
    ensures PrintMember(IdLine(before, id)) == ID_HEAD[1..] + Escape(id) + [QUOTE]
  {
    hide Escape;
    assert Blanks(0) == [];
  }

  lemma ExpLineIs(before: bytes, exp: int)
    ensures PrintMember(ExpLine(before, exp)) == EXP_HEAD[1..] + Signed(exp)
  {
    hide Signed;
    assert Blanks(0) == [];
  }

  /** `seal_core`'s text around any data. */
  lemma EnvelopeIs(id: bytes, n: nat, text: bytes, exp: int)
    ensures Envelope(id, Blanks(n) + text, exp)
            == [LBRACE] + (PrintMember(IdLine([], id)) + ([COMMA] + (DataHead(n)
               + (text + ([COMMA] + (PrintMember(ExpLine([COMMA], exp)) + [RBRACE]))))))
  {
    hide Escape, Signed, PrintMember;
    IdLineIs([], id);
    ExpLineIs([COMMA], exp);
    var e, x, data := Escape(id), Signed(exp), Blanks(n) + text;
    var tail := [COMMA] + ((EXP_HEAD[1..] + x) + [RBRACE]);
    assert tail == EXP_HEAD + x + [RBRACE];
    assert [COMMA] + (DataHead(n) + (text + tail)) == DATA_HEAD[1..] + data + tail;
    assert [LBRACE] + ((ID_HEAD[1..] + e + [QUOTE]) + (DATA_HEAD[1..] + data + tail))
        == (ID_HEAD + e + DATA_HEAD + data) + tail by {
      EnvelopeFront(e, data, tail);
    }
    EnvelopeBack(ID_HEAD + e + DATA_HEAD + data, x);
  }

  lemma EnvelopeFront(e: bytes, data: bytes, tail: bytes)
    ensures [LBRACE] + ((ID_HEAD[1..] + e + [QUOTE]) + (DATA_HEAD[1..] + data + tail))
            == (ID_HEAD + e + DATA_HEAD + data) + tail
  {
    assert [LBRACE] + ID_HEAD[1..] == ID_HEAD && [QUOTE] + DATA_HEAD[1..] == DATA_HEAD;
    var front := ID_HEAD[1..] + e + [QUOTE];
    assert [LBRACE] + front == ID_HEAD + e + [QUOTE];
    Assoc([LBRACE], front, DATA_HEAD[1..] + data + tail);
    assert (ID_HEAD + e + [QUOTE]) + (DATA_HEAD[1..] + data) == ID_HEAD + e + DATA_HEAD + data;
    Assoc(ID_HEAD + e + [QUOTE], DATA_HEAD[1..] + data, tail);
  }

  lemma EnvelopeBack(front: bytes, x: bytes)
    ensures front + (EXP_HEAD + x + [RBRACE]) == front + EXP_HEAD + x + [RBRACE]
  {
  }

  lemma ThreeLines(i: Line, d: Line, x: Line)
    requires i.before == [] && d.before == [COMMA] && x.before == [COMMA]
    ensures PrintAll([i, d, x])
            == PrintMember(i) + ([COMMA] + (PrintMember(d) + ([COMMA] + (PrintMember(x) + [RBRACE]))))
  {
    hide PrintMember;
    assert [i, d, x][1..] == [d, x] && [d, x][1..] == [x] && [x][1..] == [];
    assert PrintAll([x]) == [COMMA] + (PrintMember(x) + [RBRACE]);
    assert PrintAll([d, x]) == [COMMA] + (PrintMember(d) + PrintAll([x]));
    assert [] + (PrintMember(i) + PrintAll([d, x])) == PrintMember(i) + PrintAll([d, x]);
  }

  function SealedLines(id: bytes, n: nat, v: Value, after: bytes, exp: int): seq<Line> {
    [IdLine([], id), Line([COMMA], DataIs(v), n, after), ExpLine([COMMA], exp)]
  }

  /** `seal_core` writes one of these envelopes, white space around the data included. */
  lemma SealedForm(id: bytes, n: nat, v: Value, after: bytes, exp: int)
    ensures Envelope(id, Blanks(n) + (Print(v) + after), exp) == [LBRACE] + PrintAll(SealedLines(id, n, v, after, exp))
  {
    hide Print, Envelope, PrintAll, IdLine, ExpLine;
    var i, d, x := IdLine([], id), Line([COMMA], DataIs(v), n, after), ExpLine([COMMA], exp);
    var text, tail := Print(v) + after, [COMMA] + (PrintMember(x) + [RBRACE]);
    LinesBefore(id, exp);
    ThreeLines(i, d, x);
    EnvelopeIs(id, n, text, exp);
    Assoc(DataHead(n), text, tail);
    assert PrintMember(d) == DataHead(n) + text;
  }

  lemma LinesBefore(id: bytes, exp: int)
    ensures IdLine([], id).before == [] && ExpLine([COMMA], exp).before == [COMMA]
  {
  }

  lemma ThreeApplied(i: Line, d: Line, x: Line, f: Fields)
    ensures ApplyAll([i, d, x], f) == Apply(x, Apply(d, Apply(i, f)))
  {
    hide Apply;
    assert [i, d, x][1..] == [d, x] && [d, x][1..] == [x] && [x][1..] == [];
    assert ApplyAll([x], Apply(d, Apply(i, f))) == Apply(x, Apply(d, Apply(i, f)));
  }

  /** Opening a sealed token gives back the expiry and the id byte for byte, and the data without the blanks in front
      and, unless it is read as a literal, without the white space behind it. */
  lemma OpenSealedText(hmac: Hmac, id: bytes, n: nat, v: Value, after: bytes, exp: int, secret: bytes, token: bytes)
    requires Readable(v) && Space(after) && I64_MIN <= exp <= I64_MAX
    requires Sealed(hmac, id, Blanks(n) + (Print(v) + after), exp, secret) == Some(token)
    ensures Opened(hmac, token, secret) == Some((exp, id, Kept(v, after)))
  {
    hide Opened, Print, Escape, Readable, Envelope, Sign, PrintAll, Unescape, StringBody, Kept;
    var ms := SealedLines(id, n, v, after, exp);
    SealedForm(id, n, v, after, exp);
    EscapeInverse(id);
    assert GoodLine(ms[0]) && GoodLine(ms[1]) && GoodLine(ms[2]);
    OpenAnyForm(hmac, ms, secret);
    ThreeApplied(ms[0], ms[1], ms[2], Fields(None, None, None));
  }

  /** For every non-empty id and secret, every expiry that is an i64 and every data text that is one JSON value,
      opening what was sealed gives back exactly the three. */
  lemma OpenSealed(hmac: Hmac, id: bytes, v: Value, exp: int, secret: bytes)
    requires id != [] && secret != [] && WellFormed(v) && I64_MIN <= exp <= I64_MAX
    ensures Sealed(hmac, id, Print(v), exp, secret).Some?
    ensures Opened(hmac, Sealed(hmac, id, Print(v), exp, secret).value, secret) == Some((exp, id, Print(v)))
  {
    hide Opened, Print, Envelope, Sign, WellFormed, Readable;
    WellFormedIsReadable(v);
    assert Blanks(0) + (Print(v) + []) == Print(v);
    assert Kept(v, []) == Print(v);
    OpenSealedText(hmac, id, 0, v, [], exp, secret, Sealed(hmac, id, Print(v), exp, secret).value);
  }

  /** With white space around it the data comes back unchanged exactly if: with none in front, there is none behind or
      it is a literal; with some in front, that does not start with a blank and the whole text holds no delimiter. */
  lemma SurroundingSpace(hmac: Hmac, id: bytes, w: bytes, v: Value, after: bytes, exp: int, secret: bytes, token: bytes)
    requires WellFormed(v) && Space(w) && Space(after) && I64_MIN <= exp <= I64_MAX
    requires Sealed(hmac, id, w + (Print(v) + after), exp, secret) == Some(token)
    ensures Opened(hmac, token, secret) == Some((exp, id, w + (Print(v) + after)))
            <==> if w == [] then after == [] || v.Literal?
                 else w[0] != SPACE && NoDelimiters(w + (Print(v) + after))
  {
    hide Opened, Print, Sealed, WellFormed, Readable;
    var data := w + (Print(v) + after);
    if w == [] {
      assert data == Blanks(0) + (Print(v) + after);
      WellFormedIsReadable(v);
      OpenSealedText(hmac, id, 0, v, after, exp, secret, token);
      assert |data| == |Print(v)| + |after|;
      assert data == Print(v) + after && Print(v) + [] == Print(v);
    } else {
      assert data[..1] == w[..1];
      if Opened(hmac, token, secret) == Some((exp, id, data)) { OpenedIsReturnable(hmac, token, secret); }
      if w[0] != SPACE && NoDelimiters(data) { BareComesBack(hmac, id, data, exp, secret, token); }
    }
  }

  lemma BareComesBack(hmac: Hmac, id: bytes, data: bytes, exp: int, secret: bytes, token: bytes)
    requires Bare(data) && I64_MIN <= exp <= I64_MAX && Sealed(hmac, id, data, exp, secret) == Some(token)
    ensures Opened(hmac, token, secret) == Some((exp, id, data))
  {
    hide Opened, Sealed, Bare;
    var v := Literal(data);
    assert Print(v) == data && data + [] == data && Blanks(0) + data == data;
    OpenSealedText(hmac, id, 0, v, [], exp, secret, token);
  }

  // ---- data that takes the envelope over ----

  /** If bare text comes first and then a delimiter, the data ends there and what follows is read as members of the
      envelope. */
  lemma DataCutShort(hmac: Hmac, id: bytes, n: nat, front: bytes, rest: bytes, exp: int, secret: bytes, token: bytes)
    requires Bare(front) && rest != [] && Delimiter(rest[0])
    requires Sealed(hmac, id, Blanks(n) + (front + rest), exp, secret) == Some(token)
    ensures var b := Envelope(id, Blanks(n) + (front + rest), exp);
      var at := |ID_HEAD + Escape(id) + DATA_HEAD| + n + |front|;
      Opened(hmac, token, secret) ==
        match Scan(b, at, Fields(Some(id), Some(front), None)) case None => None case Some(f) => Extract(f)
  {
    hide Escape, Envelope, Sign, Verify, Scan, Extract, Unescape, StringBody, Bare, PrintMember, At;
    var b := Envelope(id, Blanks(n) + (front + rest), exp);
    var i, d := IdLine([], id), Line([COMMA], DataIs(Literal(front)), n, []);
    var tail := [COMMA] + (PrintMember(ExpLine([COMMA], exp)) + [RBRACE]);
    VerifySign(m => hmac(secret, m), b);
    EscapeInverse(id);
    EnvelopeIs(id, n, front + rest, exp);
    IdLineIs([], id);
    DataLineIs(n, front);
    Assoc(front, rest, tail);
    Assoc(DataHead(n), front, rest + tail);
    var behind := [COMMA] + (PrintMember(d) + (rest + tail));
    WholeAt([LBRACE], i.before + (PrintMember(i) + behind), b);
    OneMember(b, 1, i, behind, Fields(None, None, None));
    OneMember(b, 1 + |PrintMember(i)|, d, rest + tail, Fields(Some(id), None, None));
  }

  lemma WholeAt(a: bytes, t: bytes, b: bytes)
    requires b == a + t
    ensures At(b, |a|, t)
  {
  }

  lemma DataLineIs(n: nat, front: bytes)
    ensures PrintMember(Line([COMMA], DataIs(Literal(front)), n, [])) == DataHead(n) + front
    ensures Kept(Literal(front), []) == front
  {
    assert front + [] == front;
  }

  /** `{"a":1,"id":"…"}`. */
  function Intruder(id: bytes): Value {
    Object([], Member([], Ascii("a"), [], [], Literal(Ascii("1")), [],
                      Member([], ID_KEY, [], [], Text(Escape(id)), [], NoMembers)))
  }

  /** With a line feed in front, an id inside the data replaces the sealed one, whatever the two are. */
  lemma LineFeedLosesTheId(hmac: Hmac, id: bytes, other: bytes, exp: int, secret: bytes, token: bytes)
    requires other != [] && I64_MIN <= exp <= I64_MAX
    requires Sealed(hmac, id, [LF] + Print(Intruder(other)), exp, secret) == Some(token)
    ensures WellFormed(Intruder(other))
    ensures Opened(hmac, token, secret) == Some((exp, other, [LF] + Ascii("{\"a\":1")))
  {
    hide Opened, Envelope, Sign, PrintAll, Escape, Unescape, StringBody, Intruder, Kept, Bare;
    var ms := IntruderLines(id, other, exp);
    IntruderForm(id, other, exp);
    EscapeInverse(id);
    EscapeInverse(other);
    IntruderIsWellFormed(other);
    FrontIsBare();
    assert GoodLine(ms[0]) && GoodLine(ms[1]) && GoodLine(ms[2]) && GoodLine(ms[3]);
    OpenAnyForm(hmac, ms, secret);
    ThreeApplied(ms[1], ms[2], ms[3], Apply(ms[0], Fields(None, None, None)));
    assert ms[1..] == [ms[1], ms[2], ms[3]];
    DataLineIs(0, Front());
  }

  function Front(): bytes { [LF] + Ascii("{\"a\":1") }

  lemma FrontIsBare()
    ensures Bare(Front())
  {
  }

  lemma IntruderIsWellFormed(id: bytes)
    ensures WellFormed(Intruder(id))
  {
    hide Escape, StringBody;
    EscapeInverse(id);
    PlainBody(Ascii("a"), []);
    PlainBody(ID_KEY, []);
    assert Ascii("a") + [] == Ascii("a") && ID_KEY + [] == ID_KEY;
    var inner := Member([], ID_KEY, [], [], Text(Escape(id)), [], NoMembers);
    assert WellFormed(inner.val) && WellFormedMembers(inner);
    assert WellFormed(Literal(Ascii("1"))) && WellFormedMembers(Intruder(id).members);
  }

  /** How the scan sees it. */
  function IntruderLines(id: bytes, other: bytes, exp: int): seq<Line> {
    [IdLine([], id), Line([COMMA], DataIs(Literal(Front())), 0, []), IdLine([COMMA], other),
     ExpLine([RBRACE, COMMA], exp)]
  }

  lemma InnerMember(e: bytes)
    ensures PrintMembers(Member([], ID_KEY, [], [], Text(e), [], NoMembers)) == ID_HEAD[1..] + e + [QUOTE]
  {
    assert [] + Quoted(ID_KEY) + [] + [COLON] + [] + Quoted(e) + [] + [] == Quoted(ID_KEY) + [COLON] + Quoted(e);
    assert Quoted(ID_KEY) + [COLON] + Quoted(e) == ID_HEAD[1..] + e + [QUOTE];
  }

  lemma OuterMember(rest: Members)
    requires rest.Member?
    ensures PrintMembers(Member([], Ascii("a"), [], [], Literal(Ascii("1")), [], rest))
            == Front()[2..] + ([COMMA] + PrintMembers(rest))
  {
    var m := Member([], Ascii("a"), [], [], Literal(Ascii("1")), [], rest);
    var front := [] + Quoted(Ascii("a")) + [] + [COLON] + [] + Ascii("1") + [];
    assert PrintMembers(m) == front + ([COMMA] + PrintMembers(rest));
    assert front == Front()[2..];
  }

  lemma IntruderText(other: bytes)
    ensures [LF] + Print(Intruder(other)) == Front() + ([COMMA] + (PrintMember(IdLine([COMMA], other)) + [RBRACE]))
  {
    hide Escape, PrintMembers, PrintMember, IdLine;
    var e := Escape(other);
    var inner := ID_HEAD[1..] + e + [QUOTE];
    IdLineIs([COMMA], other);
    InnerMember(e);
    OuterMember(Member([], ID_KEY, [], [], Text(e), [], NoMembers));
    assert Print(Intruder(other)) == [LBRACE] + (Front()[2..] + ([COMMA] + inner)) + [RBRACE];
    Wrap(inner);
  }

  lemma Wrap(inner: bytes)
    ensures [LF] + ([LBRACE] + (Front()[2..] + ([COMMA] + inner)) + [RBRACE])
            == Front() + ([COMMA] + (inner + [RBRACE]))
  {
    assert Front() == [LF, LBRACE] + Front()[2..];
  }

  lemma FourLines(i: Line, d: Line, j: Line, x: Line)
    ensures PrintAll([i, d, j, x])
            == i.before + (PrintMember(i) + (d.before + (PrintMember(d) + (j.before + (PrintMember(j)
               + (x.before + (PrintMember(x) + [RBRACE])))))))
  {
    hide PrintMember;
    assert [i, d, j, x][1..] == [d, j, x] && [d, j, x][1..] == [j, x] && [j, x][1..] == [x] && [x][1..] == [];
    assert PrintAll([x]) == x.before + (PrintMember(x) + [RBRACE]);
    assert PrintAll([j, x]) == j.before + (PrintMember(j) + PrintAll([x]));
    assert PrintAll([d, j, x]) == d.before + (PrintMember(d) + PrintAll([j, x]));
  }

  lemma IntruderForm(id: bytes, other: bytes, exp: int)
    ensures Envelope(id, [LF] + Print(Intruder(other)), exp) == [LBRACE] + PrintAll(IntruderLines(id, other, exp))
  {
    hide Print, Envelope, Escape, Signed, PrintMember, Intruder, Front, PrintAll, DataHead;
    var ms := IntruderLines(id, other, exp);
    var text := [LF] + Print(Intruder(other));
    IntruderText(other);
    assert Blanks(0) + text == text;
    EnvelopeIs(id, 0, text, exp);
    FourLines(ms[0], ms[1], ms[2], ms[3]);
    DataLineIs(0, Front());
    SameMember(exp, [COMMA], [RBRACE, COMMA]);
    var j, x := PrintMember(ms[2]), PrintMember(ms[3]);
    MoveBrace(Front(), j, x + [RBRACE]);
    var rest := [COMMA] + (j + ([RBRACE, COMMA] + (x + [RBRACE])));
    Assoc(DataHead(0), Front(), rest);
    assert [] + (PrintMember(ms[0]) + ([COMMA] + (DataHead(0) + Front() + rest)))
        == PrintMember(ms[0]) + ([COMMA] + (DataHead(0) + Front() + rest));
  }

  lemma SameMember(exp: int, before: bytes, before': bytes)
    ensures PrintMember(ExpLine(before, exp)) == PrintMember(ExpLine(before', exp))
  {
  }

  lemma MoveBrace(front: bytes, j: bytes, tail: bytes)
    ensures (front + ([COMMA] + (j + [RBRACE]))) + ([COMMA] + tail)
            == front + ([COMMA] + (j + ([RBRACE, COMMA] + tail)))
  {
    assert (j + [RBRACE]) + ([COMMA] + tail) == j + ([RBRACE, COMMA] + tail);
    Assoc(front, [COMMA] + (j + [RBRACE]), [COMMA] + tail);
    Assoc([COMMA], j + [RBRACE], [COMMA] + tail);
  }

  // ---- the token in characters ----

  const ID_TEXT: bytes := Ascii("{\"id\":\"")
  const DATA_TEXT: bytes := Ascii("\",\"data\":")
  const EXP_TEXT: bytes := Ascii(",\"exp\":")

  /** A sealed token is `{"id":"…","data":…,"exp":…}`, a dot, and the tag in 64 lowercase hex digits, the high digit
      first. */
  lemma SealedIsText(hmac: Hmac, id: bytes, data: bytes, exp: int, secret: bytes, token: bytes, i: nat)
    requires Sealed(hmac, id, data, exp, secret) == Some(token) && i < 32
    ensures var json := ID_TEXT + Escape(id) + DATA_TEXT + data + EXP_TEXT + Signed(exp) + Ascii("}");
      var tag := hmac(secret, json);
      && |token| == |json| + 65 && token[..|json| + 1] == json + Ascii(".")
      && token[|json| + 1 + 2 * i] == "0123456789abcdef"[tag[i] / 16] as int
      && token[|json| + 2 + 2 * i] == "0123456789abcdef"[tag[i] % 16] as int
  {
    hide Escape, Signed, Hex, HexLower;
    assert ID_TEXT == ID_HEAD && DATA_TEXT == DATA_HEAD && EXP_TEXT == EXP_HEAD;
    assert Ascii("}") == [RBRACE] && Ascii(".") == [DOT];
    var json := Envelope(id, data, exp);
    var tag := hmac(secret, json);
    HexAt(tag, i);
    HexDigits(tag[i] / 16);
    HexDigits(tag[i] % 16);
  }
}
