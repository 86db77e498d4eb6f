/** JSON texts as trees that remember their white space (sections 2 to 7 of RFC 8259). The grammar is a little
    wider than the standard's: a string holds any bytes but bare quotes and backslashes, and any byte may follow a
    backslash; a number is any non-empty text over the number alphabet. */
module JsonText {
  import opened Bytes

  datatype Value =
    | Literal(text: bytes)
    | Text(body: bytes)
    | Array(pad: bytes, items: Items)
    | Object(pad: bytes, members: Members)

  datatype Items =
    | NoItems
    | Item(before: bytes, value: Value, after: bytes, rest: Items)

  datatype Members =
    | NoMembers
    | Member(before: bytes, key: bytes, mid: bytes, mid': bytes, val: Value, after: bytes, rest: Members)

  predicate Space(s: bytes) {
    forall i :: 0 <= i < |s| ==> s[i] == SPACE || s[i] == TAB || s[i] == LF || s[i] == CR
  }

  /** Digits, sign, point and exponent marks. */
  predicate NumberByte(b: byte) {
    0x30 <= b <= 0x39 || b == MINUS || b == PLUS || b == DOT || b == 0x65 || b == 0x45
  }

  predicate IsLiteral(s: bytes) {
    || s == Ascii("true") || s == Ascii("false") || s == Ascii("null")
    || (s != [] && forall i :: 0 <= i < |s| ==> NumberByte(s[i]))
  }

  /** What may stand between the quotes of a string. */
  predicate StringBody(s: bytes) {
    if s == [] then true
    else if s[0] == BACKSLASH then |s| >= 2 && StringBody(s[2..])
    else s[0] != QUOTE && StringBody(s[1..])
  }

  ghost predicate WellFormed(v: Value) {
    match v
    case Literal(text) => IsLiteral(text)
    case Text(body) => StringBody(body)
    case Array(pad, items) => Space(pad) && WellFormedItems(items)
    case Object(pad, members) => Space(pad) && WellFormedMembers(members)
  }

  ghost predicate WellFormedItems(s: Items) {
    match s
    case NoItems => true
    case Item(before, value, after, rest) =>
      Space(before) && WellFormed(value) && Space(after) && WellFormedItems(rest)
  }

  ghost predicate WellFormedMembers(s: Members) {
    match s
    case NoMembers => true
    case Member(before, key, mid, mid', val, after, rest) =>
      && Space(before) && StringBody(key) && Space(mid) && Space(mid')
      && WellFormed(val) && Space(after) && WellFormedMembers(rest)
  }

  function Print(v: Value): bytes {
    match v
    case Literal(text) => text
    case Text(body) => Quoted(body)
    case Array(pad, items) => [LBRACKET] + (if items.NoItems? then pad else PrintItems(items)) + [RBRACKET]
    case Object(pad, members) => [LBRACE] + (if members.NoMembers? then pad else PrintMembers(members)) + [RBRACE]
  }

  function Quoted(body: bytes): bytes { [QUOTE] + body + [QUOTE] }

  function PrintItems(s: Items): bytes {
    match s
    case NoItems => []
    case Item(before, value, after, rest) =>
      before + Print(value) + after + (if rest.NoItems? then [] else [COMMA] + PrintItems(rest))
  }

  function PrintMembers(s: Members): bytes {
    match s
    case NoMembers => []
    case Member(before, key, mid, mid', val, after, rest) =>
      before + Quoted(key) + mid + [COLON] + mid' + Print(val) + after
      + (if rest.NoMembers? then [] else [COMMA] + PrintMembers(rest))
  }

  /** Brackets, braces, quotes, commas and colons in bytes. */
  lemma PrintInBytes(pad: bytes, v: Value, w: Value, key: bytes)
    ensures Print(Array(pad, NoItems)) == [0x5B] + pad + [0x5D] && Print(Object(pad, NoMembers)) == [0x7B] + pad + [0x7D]
    ensures Print(Text(key)) == [0x22] + key + [0x22]
    ensures PrintItems(Item([], v, [], Item([], w, [], NoItems))) == Print(v) + ([0x2C] + Print(w))
    ensures PrintMembers(Member([], key, [], [], v, [], NoMembers)) == [0x22] + key + [0x22, 0x3A] + Print(v)
  {
    TwoItems(v, w);
    OneMember(key, v);
  }

  lemma TwoItems(v: Value, w: Value)
    ensures PrintItems(Item([], v, [], Item([], w, [], NoItems))) == Print(v) + ([0x2C] + Print(w))
  {
    hide Print;
    var two := Item([], w, [], NoItems);
    assert [] + Print(w) + [] + [] == Print(w);
    assert PrintItems(two) == Print(w);
    assert [] + Print(v) + [] == Print(v);
  }

  lemma OneMember(key: bytes, v: Value)
    ensures PrintMembers(Member([], key, [], [], v, [], NoMembers)) == [0x22] + key + [0x22, 0x3A] + Print(v)
  {
    hide Print;
    assert [] + Quoted(key) + [] + [COLON] + [] + Print(v) + [] + [] == Quoted(key) + [COLON] + Print(v);
    assert Quoted(key) + [COLON] == [0x22] + key + [0x22, 0x3A];
  }
}
