/** The scanners of rust/crypto/session.rs that find where a JSON value ends without building one. They count a
    single kind of bracket and jump over strings. */
module JsonScan {
  import opened Bytes
  import opened JsonText

  datatype Kind = Brace | Square {
    function Open(): byte { if Brace? then LBRACE else LBRACKET }
    function Close(): byte { if Brace? then RBRACE else RBRACKET }
  }

  // ---- what the scanners compute ----

  /** Index of the quote that ends a string whose body starts at `i`. */
  function StringEnd(b: bytes, i: nat): (r: Option<nat>)
    ensures r.Some? ==> i <= r.value < |b| && b[r.value] == QUOTE
    decreases |b| - i
  {
    if i >= |b| then None
    else if b[i] == BACKSLASH then StringEnd(b, i + 2)
    else if b[i] == QUOTE then Some(i)
    else StringEnd(b, i + 1)
  }

  /** Index just past the bracket that closes the `depth`-th open one of `kind`. */
  function BracketEnd(b: bytes, e: nat, kind: Kind, depth: nat): (r: Option<nat>)
    requires depth > 0
    ensures r.Some? ==> e < r.value <= |b| && b[r.value - 1] == kind.Close()
    decreases |b| - e
  {
    if e >= |b| then None
    else if b[e] == QUOTE then
      match StringEnd(b, e + 1)
      case None => None
      case Some(q) => BracketEnd(b, q + 1, kind, depth)
    else if b[e] == kind.Open() then BracketEnd(b, e + 1, kind, depth + 1)
    else if b[e] == kind.Close() then
      if depth == 1 then Some(e + 1) else BracketEnd(b, e + 1, kind, depth - 1)
    else BracketEnd(b, e + 1, kind, depth)
  }

  predicate Delimiter(b: byte) { b == COMMA || b == RBRACE || b == RBRACKET }

  function LiteralEnd(b: bytes, e: nat): (r: nat)
    requires e <= |b|
    ensures e <= r <= |b|
    decreases |b| - e
  {
    if e == |b| || Delimiter(b[e]) then e else LiteralEnd(b, e + 1)
  }

  function Skip(b: bytes, pos: nat): (r: Option<nat>)
    ensures r.Some? ==> pos <= r.value <= |b|
  {
    if pos >= |b| then None
    else if b[pos] == QUOTE then
      match StringEnd(b, pos + 1) case None => None case Some(q) => Some(q + 1)
    else if b[pos] == LBRACE then BracketEnd(b, pos + 1, Brace, 1)
    else if b[pos] == LBRACKET then BracketEnd(b, pos + 1, Square, 1)
    else Some(LiteralEnd(b, pos))
  }

  // ---- the loops ----

  /** `scan_json_string_end`. */
  method ScanStringEnd(b: bytes, start: nat) returns (r: Option<nat>)
    ensures r == StringEnd(b, start)
  {
    var i := start;
    while i < |b|
      invariant StringEnd(b, i) == StringEnd(b, start)
    {
      if b[i] == BACKSLASH { i := i + 2; }
      else if b[i] == QUOTE { return Some(i); }
      else { i := i + 1; }
    }
    return None;
  }

  /** `skip_json_value`. Every read is in bounds and `depth` never drops below zero, on any bytes. */
  method SkipJsonValue(b: bytes, pos: nat) returns (r: Option<nat>)
    ensures r == Skip(b, pos)
    decreases pos < |b| && b[pos] != QUOTE
  {
    if pos >= |b| { return None; }
    if b[pos] == QUOTE {
      var e := pos + 1;
      while e < |b|
        invariant StringEnd(b, e) == StringEnd(b, pos + 1)
      {
        if b[e] == BACKSLASH { e := e + 2; continue; }
        if b[e] == QUOTE { return Some(e + 1); }
        e := e + 1;
      }
      return None;
    } else if b[pos] == LBRACE || b[pos] == LBRACKET {
      var open := b[pos];
      var close := if open == LBRACE then RBRACE else RBRACKET;
      ghost var kind := if open == LBRACE then Brace else Square;
      var depth, e := 0, pos;
      while e < |b|
        invariant 0 <= depth
        invariant if depth == 0 then e == pos
                  else BracketEnd(b, e, kind, depth) == BracketEnd(b, pos + 1, kind, 1)
      {
        if b[e] == QUOTE {
          var s := SkipJsonValue(b, e);
          if s.None? { return None; }
          e := s.value - 1;
        } else if b[e] == open {
          depth := depth + 1;
        } else if b[e] == close {
          depth := depth - 1;
          if depth == 0 { return Some(e + 1); }
        }
        e := e + 1;
      }
      return None;
    } else {
      var e := pos;
      while e < |b| && !Delimiter(b[e])
        invariant pos <= e <= |b|
        invariant LiteralEnd(b, e) == LiteralEnd(b, pos)
      {
        e := e + 1;
      }
      return Some(e);
    }
  }

  // ---- where they stop on well-formed text ----

  /** A string's end is its closing quote, whatever escapes stand before it. */
  lemma {:induction false} StringEndExact(b: bytes, i: nat, body: bytes)
    requires StringBody(body) && At(b, i, body + [QUOTE])
    ensures StringEnd(b, i) == Some(i + |body|)
    decreases |body|
  {
    AtHead(b, i, body + [QUOTE]);
    if body != [] {
      assert (body + [QUOTE])[1..] == body[1..] + [QUOTE];
      if body[0] == BACKSLASH {
        AtHead(b, i + 1, body[1..] + [QUOTE]);
        assert (body[1..] + [QUOTE])[1..] == body[2..] + [QUOTE];
        StringEndExact(b, i + 2, body[2..]);
      } else {
        StringEndExact(b, i + 1, body[1..]);
      }
    }
  }

  lemma {:induction false} StringEndBody(b: bytes, i: nat, e: nat)
    requires StringEnd(b, i) == Some(e)
    ensures StringBody(b[i..e])
    decreases |b| - i
  {
    if i < e {
      if b[i] == BACKSLASH {
        StringEndBody(b, i + 2, e);
        assert b[i..e][2..] == b[i + 2..e];
      } else {
        StringEndBody(b, i + 1, e);
        assert b[i..e][1..] == b[i + 1..e];
      }
    }
  }

  /** And on any bytes: the end found is the quote behind a string body, and there is no other. */
  lemma StringEndIff(b: bytes, i: nat, e: nat)
    ensures StringEnd(b, i) == Some(e) <==> i <= e < |b| && b[e] == QUOTE && StringBody(b[i..e])
  {
    hide StringBody;
    if i <= e < |b| && b[e] == QUOTE && StringBody(b[i..e]) {
      assert b[i..i + |b[i..e] + [QUOTE]|] == b[i..e] + [QUOTE];
      StringEndExact(b, i, b[i..e]);
    }
    if StringEnd(b, i) == Some(e) { StringEndBody(b, i, e); }
  }

  /** Bytes that mean nothing to the bracket counter. */
  predicate Quiet(s: bytes) {
    forall i :: 0 <= i < |s| ==>
      s[i] != QUOTE && s[i] != LBRACE && s[i] != RBRACE && s[i] != LBRACKET && s[i] != RBRACKET
  }

  /** The counter is at the same depth behind `t` as in front of it. */
  ghost predicate Passes(b: bytes, e: nat, t: bytes, kind: Kind, depth: nat)
    requires depth > 0
  {
    BracketEnd(b, e, kind, depth) == BracketEnd(b, e + |t|, kind, depth)
  }

  lemma {:induction false} QuietPasses(b: bytes, e: nat, t: bytes, kind: Kind, depth: nat)
    requires depth > 0 && Quiet(t) && At(b, e, t)
    ensures Passes(b, e, t, kind, depth)
    decreases |t|
  {
    if t != [] {
      AtHead(b, e, t);
      QuietPasses(b, e + 1, t[1..], kind, depth);
    }
  }

  lemma QuotedPasses(b: bytes, e: nat, body: bytes, kind: Kind, depth: nat)
    requires depth > 0 && StringBody(body) && At(b, e, Quoted(body))
    ensures Passes(b, e, Quoted(body), kind, depth)
  {
    hide StringEnd, StringBody;
    AtHead(b, e, Quoted(body));
    assert Quoted(body)[1..] == body + [QUOTE];
    StringEndExact(b, e + 1, body);
  }

  lemma ConcatPasses(b: bytes, e: nat, s: bytes, t: bytes, kind: Kind, depth: nat)
    requires depth > 0 && Passes(b, e, s, kind, depth) && Passes(b, e + |s|, t, kind, depth)
    ensures Passes(b, e, s + t, kind, depth)
  {
  }

  /** A bracketed text passes when its inside does, one level deeper if it is of the counted kind. */
  lemma WrappedPasses(b: bytes, e: nat, outer: Kind, inner: bytes, kind: Kind, depth: nat)
    requires depth > 0 && At(b, e, [outer.Open()] + inner + [outer.Close()])
    requires Passes(b, e + 1, inner, kind, if outer == kind then depth + 1 else depth)
    ensures Passes(b, e, [outer.Open()] + inner + [outer.Close()], kind, depth)
  {
    AtSplit(b, e, [outer.Open()] + inner, [outer.Close()]);
    AtSplit(b, e, [outer.Open()], inner);
    AtHead(b, e, [outer.Open()]);
    AtHead(b, e + 1 + |inner|, [outer.Close()]);
  }

  lemma {:induction false} ValuePasses(b: bytes, e: nat, v: Value, kind: Kind, depth: nat)
    requires depth > 0 && WellFormed(v) && At(b, e, Print(v))
    ensures Passes(b, e, Print(v), kind, depth)
    decreases v
  {
    hide BracketEnd, StringBody, Passes, IsLiteral;
    match v
    case Literal(text) =>
      LiteralBytes(text);
      QuietPasses(b, e, text, kind, depth);
    case Text(body) => QuotedPasses(b, e, body, kind, depth);
    case Array(pad, items) =>
      var inner := if items.NoItems? then pad else PrintItems(items);
      var depth' := if Square == kind then depth + 1 else depth;
      InnerAt(b, e, Square, inner);
      if items.NoItems? { QuietPasses(b, e + 1, pad, kind, depth'); }
      else { ItemsPass(b, e + 1, items, kind, depth'); }
      WrappedPasses(b, e, Square, inner, kind, depth);
    case Object(pad, members) =>
      var inner := if members.NoMembers? then pad else PrintMembers(members);
      var depth' := if Brace == kind then depth + 1 else depth;
      InnerAt(b, e, Brace, inner);
      if members.NoMembers? { QuietPasses(b, e + 1, pad, kind, depth'); }
      else { MembersPass(b, e + 1, members, kind, depth'); }
      WrappedPasses(b, e, Brace, inner, kind, depth);
  }

  lemma InnerAt(b: bytes, e: nat, outer: Kind, inner: bytes)
    requires At(b, e, [outer.Open()] + inner + [outer.Close()])
    ensures At(b, e + 1, inner)
  {
    AtSplit(b, e, [outer.Open()] + inner, [outer.Close()]);
    AtSplit(b, e, [outer.Open()], inner);
  }

  lemma NothingPasses(b: bytes, e: nat, kind: Kind, depth: nat)
    requires depth > 0
    ensures Passes(b, e, [], kind, depth)
  {
  }

  /** Text between white space. */
  lemma SpacedPasses(b: bytes, e: nat, before: bytes, text: bytes, after: bytes, kind: Kind, depth: nat)
    requires depth > 0 && Quiet(before) && Quiet(after) && At(b, e, before + text + after)
    requires Passes(b, e + |before|, text, kind, depth)
    ensures Passes(b, e, before + text + after, kind, depth)
  {
    hide BracketEnd;
    AtSplit(b, e, before + text, after);
    AtSplit(b, e, before, text);
    QuietPasses(b, e, before, kind, depth);
    QuietPasses(b, e + |before + text|, after, kind, depth);
  }

  /** An element, and after a comma the elements that follow it. */
  lemma ListPasses(b: bytes, e: nat, head: bytes, tail: bytes, kind: Kind, depth: nat)
    requires depth > 0 && At(b, e, head + ([COMMA] + tail))
    requires Passes(b, e, head, kind, depth) && Passes(b, e + |head| + 1, tail, kind, depth)
    ensures Passes(b, e, head + ([COMMA] + tail), kind, depth)
  {
    hide BracketEnd, At;
    AtSplit(b, e, head, [COMMA] + tail);
    AtSplit(b, e + |head|, [COMMA], tail);
    QuietPasses(b, e + |head|, [COMMA], kind, depth);
  }

  lemma {:induction false} ItemsPass(b: bytes, e: nat, s: Items, kind: Kind, depth: nat)
    requires depth > 0 && WellFormedItems(s) && At(b, e, PrintItems(s))
    ensures Passes(b, e, PrintItems(s), kind, depth)
    decreases s
  {
    hide BracketEnd, StringBody, Print, At, Passes;
    match s
    case NoItems => NothingPasses(b, e, kind, depth);
    case Item(before, value, after, rest) =>
      var text := Print(value);
      var head := before + text + after;
      var tail := if rest.NoItems? then [] else [COMMA] + PrintItems(rest);
      AtSplit(b, e, head, tail);
      AtSplit(b, e, before + text, after);
      AtSplit(b, e, before, text);
      ValuePasses(b, e + |before|, value, kind, depth);
      SpacedPasses(b, e, before, text, after, kind, depth);
      if rest.NoItems? {
        assert head + tail == head;
      } else {
        AtSplit(b, e + |head|, [COMMA], PrintItems(rest));
        ItemsPass(b, e + |head| + 1, rest, kind, depth);
        ListPasses(b, e, head, PrintItems(rest), kind, depth);
      }
  }

  lemma {:induction false} MembersPass(b: bytes, e: nat, s: Members, kind: Kind, depth: nat)
    requires depth > 0 && WellFormedMembers(s) && At(b, e, PrintMembers(s))
    ensures Passes(b, e, PrintMembers(s), kind, depth)
    decreases s
  {
    hide BracketEnd, StringBody, Print, At, Passes;
    match s
    case NoMembers => NothingPasses(b, e, kind, depth);
    case Member(before, key, mid, mid', val, after, rest) =>
      var text := Print(val);
      var front := before + Quoted(key) + mid + [COLON] + mid';
      var head := front + text + after;
      var tail := if rest.NoMembers? then [] else [COMMA] + PrintMembers(rest);
      AtSplit(b, e, head, tail);
      AtSplit(b, e, front + text, after);
      AtSplit(b, e, front, text);
      KeyPasses(b, e, before, key, mid, mid', kind, depth);
      ValuePasses(b, e + |front|, val, kind, depth);
      ConcatPasses(b, e, front, text, kind, depth);
      QuietPasses(b, e + |front + text|, after, kind, depth);
      ConcatPasses(b, e, front + text, after, kind, depth);
      if rest.NoMembers? {
        assert head + tail == head;
      } else {
        AtSplit(b, e + |head|, [COMMA], PrintMembers(rest));
        MembersPass(b, e + |head| + 1, rest, kind, depth);
        ListPasses(b, e, head, PrintMembers(rest), kind, depth);
      }
  }

  lemma KeyPasses(b: bytes, e: nat, before: bytes, key: bytes, mid: bytes, mid': bytes, kind: Kind, depth: nat)
    requires depth > 0 && Space(before) && StringBody(key) && Space(mid) && Space(mid')
    requires At(b, e, before + Quoted(key) + mid + [COLON] + mid')
    ensures Passes(b, e, before + Quoted(key) + mid + [COLON] + mid', kind, depth)
  {
    hide BracketEnd, StringBody, At, Quoted;
    AtSplit(b, e, before + Quoted(key) + mid + [COLON], mid');
    AtSplit(b, e, before + Quoted(key) + mid, [COLON]);
    AtSplit(b, e, before + Quoted(key), mid);
    AtSplit(b, e, before, Quoted(key));
    QuietPasses(b, e, before, kind, depth);
    QuotedPasses(b, e + |before|, key, kind, depth);
    QuietPasses(b, e + |before + Quoted(key)|, mid, kind, depth);
    QuietPasses(b, e + |before + Quoted(key) + mid|, [COLON], kind, depth);
    QuietPasses(b, e + |before + Quoted(key) + mid + [COLON]|, mid', kind, depth);
  }

  lemma {:induction false} LiteralEndExact(b: bytes, e: nat, text: bytes)
    requires At(b, e, text) && forall i :: 0 <= i < |text| ==> !Delimiter(text[i])
    requires e + |text| < |b| ==> Delimiter(b[e + |text|])
    ensures LiteralEnd(b, e) == e + |text|
    decreases |text|
  {
    if text != [] {
      AtHead(b, e, text);
      LiteralEndExact(b, e + 1, text[1..]);
    }
  }

  lemma LiteralBytes(text: bytes)
    requires IsLiteral(text)
    ensures text != [] && Quiet(text) && forall i :: 0 <= i < |text| ==> !Delimiter(text[i])
  {
  }

  lemma LiteralSkips(b: bytes, pos: nat, text: bytes)
    requires IsLiteral(text) && At(b, pos, text)
    requires pos + |text| < |b| ==> Delimiter(b[pos + |text|])
    ensures Skip(b, pos) == Some(pos + |text|)
  {
    hide IsLiteral;
    LiteralBytes(text);
    AtHead(b, pos, text);
    LiteralEndExact(b, pos, text);
  }

  lemma TextSkips(b: bytes, pos: nat, body: bytes)
    requires StringBody(body) && At(b, pos, Quoted(body))
    ensures Skip(b, pos) == Some(pos + |Quoted(body)|)
  {
    hide StringBody, StringEnd;
    AtHead(b, pos, Quoted(body));
    assert Quoted(body)[1..] == body + [QUOTE];
    StringEndExact(b, pos + 1, body);
  }

  /** The scan stops exactly at the end of the value, at any nesting, though it counts one kind of bracket only.
      A literal has no closing byte of its own, so it must be followed by a delimiter or the end of input. */
  lemma SkipExact(b: bytes, pos: nat, v: Value)
    requires WellFormed(v) && At(b, pos, Print(v))
    requires v.Literal? && pos + |Print(v)| < |b| ==> Delimiter(b[pos + |Print(v)|])
    ensures Skip(b, pos) == Some(pos + |Print(v)|)
  {
    hide StringBody, StringEnd, BracketEnd, LiteralEnd, Passes, IsLiteral, At, Skip;
    match v
    case Literal(text) => LiteralSkips(b, pos, text);
    case Text(body) => TextSkips(b, pos, body);
    case Array(pad, items) => ArraySkips(b, pos, pad, items);
    case Object(pad, members) => ObjectSkips(b, pos, pad, members);
  }

  lemma ArraySkips(b: bytes, pos: nat, pad: bytes, items: Items)
    requires Space(pad) && WellFormedItems(items) && At(b, pos, Print(Array(pad, items)))
    ensures Skip(b, pos) == Some(pos + |Print(Array(pad, items))|)
  {
    hide StringBody, BracketEnd, Passes, PrintItems, WellFormedItems, At, Skip;
    var inner := if items.NoItems? then pad else PrintItems(items);
    assert Print(Array(pad, items)) == [LBRACKET] + inner + [RBRACKET];
    InnerAt(b, pos, Square, inner);
    if items.NoItems? { QuietPasses(b, pos + 1, pad, Square, 1); } else { ItemsPass(b, pos + 1, items, Square, 1); }
    ClosesAt(b, pos, Square, inner);
  }

  lemma ObjectSkips(b: bytes, pos: nat, pad: bytes, members: Members)
    requires Space(pad) && WellFormedMembers(members) && At(b, pos, Print(Object(pad, members)))
    ensures Skip(b, pos) == Some(pos + |Print(Object(pad, members))|)
  {
    hide StringBody, BracketEnd, Passes, PrintMembers, WellFormedMembers, At, Skip;
    var inner := if members.NoMembers? then pad else PrintMembers(members);
    assert Print(Object(pad, members)) == [LBRACE] + inner + [RBRACE];
    InnerAt(b, pos, Brace, inner);
    if members.NoMembers? { QuietPasses(b, pos + 1, pad, Brace, 1); }
    else { MembersPass(b, pos + 1, members, Brace, 1); }
    ClosesAt(b, pos, Brace, inner);
  }

  lemma ClosesAt(b: bytes, pos: nat, kind: Kind, inner: bytes)
    requires At(b, pos, [kind.Open()] + inner + [kind.Close()])
    requires Passes(b, pos + 1, inner, kind, 1)
    ensures pos < |b| && b[pos] == kind.Open()
    ensures Skip(b, pos) == Some(pos + |inner| + 2)
  {
    AtSplit(b, pos, [kind.Open()] + inner, [kind.Close()]);
    AtHead(b, pos, [kind.Open()] + inner);
    AtHead(b, pos + 1 + |inner|, [kind.Close()]);
  }

  /** A literal ends at the first comma or closing bracket, or with the input. */
  lemma {:induction false} LiteralEndsAt(b: bytes, e: nat)
    requires e <= |b|
    ensures var r := LiteralEnd(b, e);
      && (forall i :: e <= i < r ==> b[i] != 0x2C && b[i] != 0x7D && b[i] != 0x5D)
      && (r < |b| ==> b[r] == 0x2C || b[r] == 0x7D || b[r] == 0x5D)
    decreases |b| - e
  {
    if e < |b| && !Delimiter(b[e]) { LiteralEndsAt(b, e + 1); }
  }
}
