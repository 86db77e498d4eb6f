/** Accept-Encoding headers (rust/http/accept.rs:22-111): parsed into borrowed names on the stack path, into decoded and
    lowercased ones on the heap path. Quality values are reals or NaN; how their text is read is a parameter. */
module Accept {
  import opened Bytes
  import opened Utf8

  /** An f32 without rounding. Every comparison with NaN is false. */
  datatype Weight = Num(v: real) | NaN

  /** `a > b`. */
  predicate Greater(a: Weight, b: Weight) { a.Num? && b.Num? && a.v > b.v }

  /** `q <= 0.0`, which skips an entry. NaN is not skipped. */
  predicate Refused(q: Weight) { q.Num? && q.v <= 0.0 }

  type ParseQ = bytes -> Option<Weight>

  datatype Pref = Pref(name: bytes, q: Weight, order: nat)

  const STAR: bytes := [0x2A]

  // ---- parsing ----

  predicate Blank(b: byte) { b == SPACE || b == TAB || b == LF || b == FF || b == CR }

  function TrimLeft(s: bytes): bytes { if s != [] && Blank(s[0]) then TrimLeft(s[1..]) else s }

  function TrimRight(s: bytes): bytes { if s != [] && Blank(s[|s| - 1]) then TrimRight(s[..|s| - 1]) else s }

  /** `trim_ascii_whitespace`. */
  method Trim(s: bytes) returns (r: bytes)
    ensures r == TrimRight(TrimLeft(s))
  {
    hide TrimLeft, TrimRight, Blank;
    var start, end := 0, |s|;
    assert s[0..] == s;
    while start < end && Blank(s[start])
      invariant 0 <= start <= end == |s|
      invariant TrimLeft(s[start..]) == TrimLeft(s)
    {
      TrimLeftStep(s, start);
      start := start + 1;
    }
    TrimLeftStops(s[start..]);
    ghost var t := s[start..];
    assert t == s[start..end];
    while end > start && Blank(s[end - 1])
      invariant start <= end <= |s|
      invariant TrimRight(s[start..end]) == TrimRight(t)
    {
      TrimRightStep(s[start..end]);
      assert s[start..end][..end - start - 1] == s[start..end - 1];
      end := end - 1;
    }
    TrimRightStops(s[start..end]);
    r := s[start..end];
  }

  lemma TrimLeftStep(s: bytes, i: nat)
    requires i < |s| && Blank(s[i])
    ensures TrimLeft(s[i..]) == TrimLeft(s[i + 1..])
  {
    assert s[i..][1..] == s[i + 1..];
  }

  lemma TrimLeftStops(s: bytes)
    requires s == [] || !Blank(s[0])
    ensures TrimLeft(s) == s
  {
  }

  lemma TrimRightStep(s: bytes)
    requires s != [] && Blank(s[|s| - 1])
    ensures TrimRight(s) == TrimRight(s[..|s| - 1])
  {
  }

  lemma TrimRightStops(s: bytes)
    requires s == [] || !Blank(s[|s| - 1])
    ensures TrimRight(s) == s
  {
  }

  /** `position`; the length when there is none. */
  function Position(s: bytes, c: byte): (n: nat)
    ensures n <= |s|
  {
    if s == [] || s[0] == c then 0 else 1 + Position(s[1..], c)
  }

  /** `split`. */
  function Split(s: bytes, c: byte): seq<bytes> {
    var n := Position(s, c);
    if n == |s| then [s] else [s[..n]] + Split(s[n + 1..], c)
  }

  /** Name and quality of one list element; `None` when it has no name. */
  function Entry(parseQ: ParseQ, part: bytes): Option<(bytes, Weight)> {
    var p := TrimRight(TrimLeft(part));
    if p == [] then None
    else
      var i := Position(p, SEMI);
      var name := if i == |p| then p else TrimRight(TrimLeft(p[..i]));
      if name == [] then None
      else Some((name, if i == |p| then Num(1.0) else Quality(parseQ, TrimRight(TrimLeft(p[i + 1..])))))
  }

  function Quality(parseQ: ParseQ, param: bytes): Weight {
    var eq := Position(param, EQUALS);
    if eq == |param| then Num(1.0)
    else match parseQ(param[eq + 1..]) case Some(q) => q case None => Num(1.0)
  }

  method ReadEntry(parseQ: ParseQ, part: bytes) returns (r: Option<(bytes, Weight)>)
    ensures r == Entry(parseQ, part)
  {
    var p := Trim(part);
    if p == [] { return None; }
    var i := Position(p, SEMI);
    var name, q := p, Num(1.0);
    if i < |p| {
      var param := Trim(p[i + 1..]);
      q := Quality(parseQ, param);
      name := Trim(p[..i]);
    }
    if name == [] { return None; }
    return Some((name, q));
  }

  /** The named elements, numbered in header order. */
  function Prefs(parseQ: ParseQ, parts: seq<bytes>): (r: seq<Pref>)
    ensures forall i :: 0 <= i < |r| ==> r[i].order == i
  {
    if parts == [] then []
    else
      var front := Prefs(parseQ, parts[..|parts| - 1]);
      match Entry(parseQ, parts[|parts| - 1])
      case None => front
      case Some(e) => front + [Pref(e.0, e.1, |front|)]
  }

  function Refs(parseQ: ParseQ, header: bytes): (r: seq<Pref>)
    ensures forall i :: 0 <= i < |r| ==> r[i].order == i
  {
    Prefs(parseQ, Split(header, COMMA))
  }

  /** `String::from_utf8_lossy(name).to_ascii_lowercase()`. */
  function HeapName(name: bytes): bytes { LowerAll(Lossy(name)) }

  function Decoded(prefs: seq<Pref>): (r: seq<Pref>)
    ensures |r| == |prefs| && forall i :: 0 <= i < |r| ==> r[i] == prefs[i].(name := HeapName(prefs[i].name))
  {
    seq(|prefs|, i requires 0 <= i < |prefs| => prefs[i].(name := HeapName(prefs[i].name)))
  }

  /** `parse_accept_encoding_core`. */
  method ParseHeap(parseQ: ParseQ, header: bytes) returns (out: seq<Pref>)
    ensures out == Decoded(Refs(parseQ, header))
  {
    hide Entry, Lossy, Split;
    var parts := Split(header, COMMA);
    out := [];
    var order := 0;
    for i := 0 to |parts|
      invariant order == |out| && out == Decoded(Prefs(parseQ, parts[..i]))
    {
      assert parts[..i + 1][..i] == parts[..i];
      var e := ReadEntry(parseQ, parts[i]);
      if e.None? { continue; }
      out := out + [Pref(HeapName(e.value.0), e.value.1, order)];
      order := order + 1;
    }
    assert parts[..|parts|] == parts;
  }

  /** `parse_accept_encoding_refs`: `None` when the buffer cannot hold the entries. */
  method ParseRefs(parseQ: ParseQ, header: bytes, out: array<Pref>) returns (count: Option<nat>)
    modifies out
    ensures count.None? <==> |Refs(parseQ, header)| > out.Length
    ensures count.Some? ==> count.value == |Refs(parseQ, header)| && out[..count.value] == Refs(parseQ, header)
  {
    hide Entry, Split;
    var parts := Split(header, COMMA);
    var n := 0;
    for i := 0 to |parts|
      invariant n <= out.Length && out[..n] == Prefs(parseQ, parts[..i])
    {
      assert parts[..i + 1][..i] == parts[..i];
      var e := ReadEntry(parseQ, parts[i]);
      if e.None? { continue; }
      if n >= out.Length {
        PrefsGrow(parseQ, parts, i + 1);
        return None;
      }
      out[n] := Pref(e.value.0, e.value.1, n);
      n := n + 1;
    }
    assert parts[..|parts|] == parts;
    return Some(n);
  }

  lemma {:induction false} PrefsGrow(parseQ: ParseQ, parts: seq<bytes>, i: nat)
    requires i <= |parts|
    ensures |Prefs(parseQ, parts[..i])| <= |Prefs(parseQ, parts)|
    decreases |parts| - i
  {
    if i == |parts| {
      assert parts[..i] == parts;
    } else {
      assert parts[..i + 1][..i] == parts[..i];
      PrefsGrow(parseQ, parts, i + 1);
    }
  }

  // ---- what header text is read as ----

  /** One list element with blanks where they are allowed: `name`, or `name ; key = weight`. */
  datatype Element = Element(before: bytes, name: bytes, after: bytes, param: Option<Param>)

  datatype Param = Param(before: bytes, key: bytes, weight: bytes, after: bytes)

  predicate AllBlank(s: bytes) { forall i :: 0 <= i < |s| ==> Blank(s[i]) }

  predicate Solid(s: bytes) { s != [] && !Blank(s[0]) && !Blank(s[|s| - 1]) }

  predicate WellFormed(e: Element) {
    && AllBlank(e.before) && AllBlank(e.after) && Solid(e.name) && COMMA !in e.name && SEMI !in e.name
    && match e.param
       case None => true
       case Some(p) =>
         && AllBlank(p.before) && AllBlank(p.after) && Solid(p.key) && Solid(p.weight)
         && COMMA !in p.key && EQUALS !in p.key && COMMA !in p.weight
  }

  function PrintParam(p: Param): bytes { p.key + [EQUALS] + p.weight }

  function PrintElement(e: Element): bytes {
    match e.param
    case None => e.before + (e.name + e.after)
    case Some(p) => e.before + ((e.name + e.after + [SEMI] + p.before + PrintParam(p)) + p.after)
  }

  function PrintHeader(es: seq<Element>): bytes
    requires es != []
  {
    if |es| == 1 then PrintElement(es[0]) else PrintElement(es[0]) + [COMMA] + PrintHeader(es[1..])
  }

  function WeightOf(parseQ: ParseQ, e: Element): Weight {
    match e.param
    case None => Num(1.0)
    case Some(p) => match parseQ(p.weight) case Some(q) => q case None => Num(1.0)
  }

  lemma {:induction false} TrimLeftBlanks(a: bytes, s: bytes)
    requires AllBlank(a) && s != [] && !Blank(s[0])
    ensures TrimLeft(a + s) == s
  {
    if a == [] {
      assert a + s == s;
    } else {
      assert (a + s)[1..] == a[1..] + s;
      TrimLeftBlanks(a[1..], s);
    }
  }

  lemma {:induction false} TrimRightBlanks(s: bytes, b: bytes)
    requires AllBlank(b) && s != [] && !Blank(s[|s| - 1])
    ensures TrimRight(s + b) == s
  {
    if b == [] {
      assert s + b == s;
    } else {
      assert (s + b)[..|s + b| - 1] == s + b[..|b| - 1];
      TrimRightBlanks(s, b[..|b| - 1]);
    }
  }

  lemma TrimPadded(a: bytes, s: bytes, b: bytes)
    requires AllBlank(a) && AllBlank(b) && Solid(s)
    ensures TrimRight(TrimLeft(a + (s + b))) == s
  {
    hide Blank;
    TrimLeftBlanks(a, s + b);
    TrimRightBlanks(s, b);
  }

  lemma {:induction false} PositionOf(a: bytes, c: byte, rest: bytes)
    requires c !in a && (rest == [] || rest[0] == c)
    ensures Position(a + rest, c) == |a|
  {
    if a == [] {
      assert a + rest == rest;
    } else {
      assert (a + rest)[1..] == a[1..] + rest;
      PositionOf(a[1..], c, rest);
    }
  }

  lemma QualityReads(parseQ: ParseQ, p: Param)
    requires EQUALS !in p.key
    ensures Quality(parseQ, PrintParam(p)) == match parseQ(p.weight) case Some(q) => q case None => Num(1.0)
  {
    var s := PrintParam(p);
    assert s == p.key + ([EQUALS] + p.weight);
    PositionOf(p.key, EQUALS, [EQUALS] + p.weight);
    assert s[|p.key| + 1..] == p.weight;
  }

  /** An element is read as its name and weight. */
  lemma EntryReads(parseQ: ParseQ, e: Element)
    requires WellFormed(e)
    ensures Entry(parseQ, PrintElement(e)) == Some((e.name, WeightOf(parseQ, e)))
  {
    hide TrimLeft, TrimRight, Position, Blank, Quality;
    match e.param
    case None =>
      TrimPadded(e.before, e.name, e.after);
      PositionOf(e.name, SEMI, []);
      assert e.name + [] == e.name;
    case Some(_) => ParamEntryReads(parseQ, e);
  }

  lemma ParamEntryReads(parseQ: ParseQ, e: Element)
    requires WellFormed(e) && e.param.Some?
    ensures Entry(parseQ, PrintElement(e)) == Some((e.name, WeightOf(parseQ, e)))
  {
    hide TrimLeft, TrimRight, Position, Quality, AllBlank, Solid, PrintElement, Core, PrintParam;
    CoreTrimmed(e);
    CoreCut(e);
    QualityReads(parseQ, e.param.value);
    assert e.name != [] by { SolidIsSome(e.name); }
  }

  lemma SolidIsSome(s: bytes)
    requires Solid(s)
    ensures s != []
  {
  }

  /** An element with a parameter, without the blanks around it. */
  function Core(e: Element): bytes
    requires e.param.Some?
  {
    e.name + e.after + [SEMI] + e.param.value.before + PrintParam(e.param.value)
  }

  lemma CoreTrimmed(e: Element)
    requires WellFormed(e) && e.param.Some?
    ensures Core(e) != [] && TrimRight(TrimLeft(PrintElement(e))) == Core(e)
  {
    hide TrimLeft, TrimRight, Blank;
    var p, core := e.param.value, Core(e);
    assert core[0] == e.name[0] && core[|core| - 1] == p.weight[|p.weight| - 1];
    TrimPadded(e.before, core, p.after);
  }

  lemma CoreCut(e: Element)
    requires WellFormed(e) && e.param.Some?
    ensures var core, i := Core(e), Position(Core(e), SEMI);
      && i < |core| && TrimRight(TrimLeft(core[..i])) == e.name
      && TrimRight(TrimLeft(core[i + 1..])) == PrintParam(e.param.value)
  {
    hide TrimLeft, TrimRight, Position, Blank;
    var p, core := e.param.value, Core(e);
    var front, text := e.name + e.after, PrintParam(p);
    var tail := p.before + text;
    assert core == front + ([SEMI] + tail);
    BlanksHoldNo(e.after, SEMI);
    PositionOf(front, SEMI, [SEMI] + tail);
    assert core[..|front|] == [] + front && core[|front| + 1..] == p.before + (text + []);
    TrimPadded([], e.name, e.after);
    assert text[0] == p.key[0] && text[|text| - 1] == p.weight[|p.weight| - 1];
    TrimPadded(p.before, text, []);
  }

  lemma BlanksHoldNo(s: bytes, c: byte)
    requires AllBlank(s) && (c == SEMI || c == COMMA)
    ensures c !in s
  {
  }

  lemma NoCommas(e: Element)
    requires WellFormed(e)
    ensures COMMA !in PrintElement(e)
  {
    hide Blank, Solid, AllBlank;
    BlanksHoldNo(e.before, COMMA);
    BlanksHoldNo(e.after, COMMA);
    if e.param.Some? {
      BlanksHoldNo(e.param.value.before, COMMA);
      BlanksHoldNo(e.param.value.after, COMMA);
    }
  }

  function Elements(es: seq<Element>): (r: seq<bytes>)
    ensures |r| == |es| && forall i :: 0 <= i < |r| ==> r[i] == PrintElement(es[i])
  {
    seq(|es|, i requires 0 <= i < |es| => PrintElement(es[i]))
  }

  lemma {:induction false} HeaderSplits(es: seq<Element>)
    requires es != [] && forall i :: 0 <= i < |es| ==> WellFormed(es[i])
    ensures Split(PrintHeader(es), COMMA) == Elements(es)
  {
    hide PrintElement, WellFormed, Position;
    var first := PrintElement(es[0]);
    NoCommas(es[0]);
    if |es| == 1 {
      PositionOf(first, COMMA, []);
      assert first + [] == first;
    } else {
      var rest := PrintHeader(es[1..]);
      assert first + [COMMA] + rest == first + ([COMMA] + rest);
      PositionOf(first, COMMA, [COMMA] + rest);
      assert (first + [COMMA] + rest)[..|first|] == first && (first + [COMMA] + rest)[|first| + 1..] == rest;
      HeaderSplits(es[1..]);
    }
  }

  lemma {:induction false} ElementsRead(parseQ: ParseQ, es: seq<Element>)
    requires forall i :: 0 <= i < |es| ==> WellFormed(es[i])
    ensures var prefs := Prefs(parseQ, Elements(es));
      |prefs| == |es| && forall i :: 0 <= i < |es| ==> prefs[i] == Pref(es[i].name, WeightOf(parseQ, es[i]), i)
  {
    hide PrintElement, WellFormed, Entry;
    if es != [] {
      var n := |es| - 1;
      assert Elements(es)[..n] == Elements(es[..n]);
      ElementsRead(parseQ, es[..n]);
      EntryReads(parseQ, es[n]);
    }
  }

  /** A header of well-formed elements is read element by element, whatever blanks it holds. */
  lemma HeaderReads(parseQ: ParseQ, es: seq<Element>)
    requires es != [] && forall i :: 0 <= i < |es| ==> WellFormed(es[i])
    ensures var prefs := Refs(parseQ, PrintHeader(es));
      |prefs| == |es| && forall i :: 0 <= i < |es| ==> prefs[i] == Pref(es[i].name, WeightOf(parseQ, es[i]), i)
  {
    hide PrintHeader, WellFormed, Split, Prefs;
    HeaderSplits(es);
    ElementsRead(parseQ, es);
  }

  lemma BlankBytes(b: byte)
    ensures Blank(b) <==> b == 0x09 || b == 0x0A || b == 0x0C || b == 0x0D || b == 0x20
  {
  }

  lemma {:induction false} TrimRightKeepsFront(s: bytes)
    requires s != [] && !Blank(s[0])
    ensures TrimRight(s) != [] && TrimRight(s)[0] == s[0]
  {
    if |s| > 1 && Blank(s[|s| - 1]) { TrimRightKeepsFront(s[..|s| - 1]); }
  }

  lemma {:induction false} BlanksTrimAway(a: bytes)
    requires AllBlank(a)
    ensures TrimLeft(a) == []
  {
    if a != [] { BlanksTrimAway(a[1..]); }
  }

  /** An element of blanks, or with a parameter but no name, is passed over. */
  lemma NamelessIsSkipped(parseQ: ParseQ, blanks: bytes, rest: bytes)
    requires AllBlank(blanks)
    ensures Entry(parseQ, blanks).None? && Entry(parseQ, blanks + ([0x3B] + rest)).None?
  {
    hide Quality, TrimLeft, TrimRight, Blank;
    assert !Blank(0x3B) by { BlankBytes(0x3B); }
    BlanksTrimAway(blanks);
    BlanksTrimAway([]);
    NothingTrims();
    TrimLeftBlanks(blanks, [0x3B] + rest);
    TrimRightKeepsFront([0x3B] + rest);
    var p := TrimRight([0x3B] + rest);
    assert Position(p, SEMI) == 0 && p[..0] == [];
  }

  lemma NothingTrims()
    ensures TrimRight([]) == []
  {
  }
}
