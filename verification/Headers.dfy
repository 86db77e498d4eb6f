/** The packed-header scanner (rust/http/headers.rs:46-141) with its word-wise name comparison
    (rust/util/bytes.rs:14-55). */
module Headers {
  import opened Bytes

  // ---- comparing names ----

  function Pad(s: bytes, i: nat): byte { if i < |s| then s[i] else 0 }

  /** `load_u64_padded(a) | 0x2020… == load_u64_padded(b) | 0x2020…`, as eight byte lanes. */
  predicate WordEq(a: bytes, b: bytes) { forall i :: 0 <= i < 8 ==> Or20(Pad(a, i)) == Or20(Pad(b, i)) }

  predicate EqIgnoreCase(a: bytes, b: bytes) { LowerAll(a) == LowerAll(b) }

  /** `ascii_eq_ignore_case`. */
  predicate AsciiEq(a: bytes, b: bytes) {
    if |a| != |b| then false
    else if |a| == 0 then true
    else if |a| <= 8 then WordEq(a, b)
    else if |a| <= 16 then WordEq(a, b) && WordEq(a[8..], b[8..])
    else EqIgnoreCase(a, b)
  }

  /** Up to 16 bytes the words compare byte by byte, each with bit 0x20 set. */
  lemma AsciiEqShort(a: bytes, b: bytes)
    requires |a| == |b| <= 16
    ensures AsciiEq(a, b) <==> forall i :: 0 <= i < |a| ==> Or20(a[i]) == Or20(b[i])
  {
    hide Or20;
    if AsciiEq(a, b) {
      forall i | 0 <= i < |a|
        ensures Or20(a[i]) == Or20(b[i])
      {
        if i < 8 { assert Or20(Pad(a, i)) == Or20(Pad(b, i)); }
        else { assert Or20(Pad(a[8..], i - 8)) == Or20(Pad(b[8..], i - 8)); }
      }
    }
  }

  // ---- the tracked names ----

  datatype Field = Origin | Cookie | ForwardedFor | RealIp | ForwardedProto | RequestMethod | RequestHeaders

  function NameOf(f: Field): bytes {
    match f
    case Origin => Ascii("origin")
    case Cookie => Ascii("cookie")
    case ForwardedFor => Ascii("x-forwarded-for")
    case RealIp => Ascii("x-real-ip")
    case ForwardedProto => Ascii("x-forwarded-proto")
    case RequestMethod => Ascii("access-control-request-method")
    case RequestHeaders => Ascii("access-control-request-headers")
  }

  /** Only looked for on OPTIONS. */
  predicate Preflight(f: Field) { f.RequestMethod? || f.RequestHeaders? }

  /** Fields with a presence flag. */
  predicate Flagged(f: Field) { !f.Cookie? && !f.RequestHeaders? }

  /** The dispatch on first byte and length. */
  function Dispatch(name: bytes, isOptions: bool): Option<Field> {
    if name == [] then None
    else
      var first := Or20(name[0]);
      if first == 0x6F && |name| == 6 then
        if AsciiEq(name, NameOf(Origin)) then Some(Origin) else None
      else if first == 0x63 && |name| == 6 then
        if AsciiEq(name, NameOf(Cookie)) then Some(Cookie) else None
      else if first == 0x78 then
        if |name| == 15 && AsciiEq(name, NameOf(ForwardedFor)) then Some(ForwardedFor)
        else if |name| == 9 && AsciiEq(name, NameOf(RealIp)) then Some(RealIp)
        else if |name| == 17 && AsciiEq(name, NameOf(ForwardedProto)) then Some(ForwardedProto)
        else None
      else if first == 0x61 && isOptions then
        if |name| == 29 && AsciiEq(name, NameOf(RequestMethod)) then Some(RequestMethod)
        else if |name| == 30 && AsciiEq(name, NameOf(RequestHeaders)) then Some(RequestHeaders)
        else None
      else None
  }

  /** Lowercase letters and hyphens, starting with a letter. */
  predicate Token(s: bytes) {
    s != [] && 0x61 <= s[0] <= 0x7A && forall i :: 0 <= i < |s| ==> 0x61 <= s[i] <= 0x7A || s[i] == MINUS
  }

  lemma NamesAreTokens(f: Field)
    ensures Token(NameOf(f))
    ensures |NameOf(f)| == match f
      case Origin => 6 case Cookie => 6 case ForwardedFor => 15 case RealIp => 9 case ForwardedProto => 17
      case RequestMethod => 29 case RequestHeaders => 30
    ensures NameOf(f)[0] == match f
      case Origin => 0x6F case Cookie => 0x63 case ForwardedFor => 0x78 case RealIp => 0x78 case ForwardedProto => 0x78
      case RequestMethod => 0x61 case RequestHeaders => 0x61
  {
    match f
    case RequestMethod => LongTokens();
    case RequestHeaders => LongTokens();
    case _ =>
  }

  lemma LongTokens()
    ensures Token(NameOf(RequestMethod)) && |NameOf(RequestMethod)| == 29 && NameOf(RequestMethod)[0] == 0x61
    ensures Token(NameOf(RequestHeaders)) && |NameOf(RequestHeaders)| == 30 && NameOf(RequestHeaders)[0] == 0x61
  {
    var m, h := "access-control-request-method", "access-control-request-headers";
    assert forall i :: 0 <= i < |m| ==> 'a' <= m[i] <= 'z' || m[i] == '-';
    assert forall i :: 0 <= i < |h| ==> 'a' <= h[i] <= 'z' || h[i] == '-';
  }

  /** A name that compares equal has the first byte the dispatch looks for. */
  lemma FirstByte(name: bytes, t: bytes)
    requires Token(t) && AsciiEq(name, t)
    ensures |name| == |t| && Or20(name[0]) == t[0]
  {
    if |name| <= 16 {
      AsciiEqShort(name, t);
    } else {
      assert LowerAll(name)[0] == LowerAll(t)[0];
    }
  }

  /** The dispatch finds exactly the field whose name compares equal. */
  lemma DispatchIsPlain(name: bytes, isOptions: bool, f: Field)
    ensures Dispatch(name, isOptions) == Some(f) <==> AsciiEq(name, NameOf(f)) && (Preflight(f) ==> isOptions)
  {
    hide AsciiEq, NameOf, Or20, Token;
    NamesAreTokens(Origin);
    NamesAreTokens(Cookie);
    NamesAreTokens(ForwardedFor);
    NamesAreTokens(RealIp);
    NamesAreTokens(ForwardedProto);
    NamesAreTokens(RequestMethod);
    NamesAreTokens(RequestHeaders);
    if AsciiEq(name, NameOf(f)) { FirstByte(name, NameOf(f)); }
  }

  // ---- what comparing equal means ----

  /** Carriage returns read as hyphens. */
  function FoldCr(s: bytes): (r: bytes)
    ensures |r| == |s| && forall i :: 0 <= i < |s| ==> r[i] == if s[i] == CR then MINUS else s[i]
  {
    seq(|s|, i requires 0 <= i < |s| => if s[i] == CR then MINUS else s[i])
  }

  lemma ByteEq(a: byte, t: byte)
    requires 0x61 <= t <= 0x7A || t == MINUS
    ensures Or20(a) == Or20(t) <==> Lower(if a == CR then MINUS else a) == Lower(t)
  {
  }

  /** Up to 16 bytes, a name compares equal exactly when it is the token but for case, with carriage returns read as
      hyphens; beyond, when it is the token but for case. */
  lemma ComparesEqualIff(name: bytes, t: bytes)
    requires Token(t)
    ensures AsciiEq(name, t) <==> EqIgnoreCase(if |t| <= 16 then FoldCr(name) else name, t)
  {
    hide Or20, Lower;
    if |name| == |t| && |t| <= 16 {
      AsciiEqShort(name, t);
      forall i | 0 <= i < |t|
        ensures Or20(name[i]) == Or20(t[i]) <==> Lower(FoldCr(name)[i]) == Lower(t[i])
      {
        ByteEq(name[i], t[i]);
      }
      if AsciiEq(name, t) {
        assert LowerAll(FoldCr(name)) == LowerAll(t);
      } else {
        var i :| 0 <= i < |t| && Or20(name[i]) != Or20(t[i]);
        assert LowerAll(FoldCr(name))[i] != LowerAll(t)[i];
      }
    } else if |name| != |t| {
      assert |LowerAll(FoldCr(name))| != |LowerAll(t)| && |LowerAll(name)| != |LowerAll(t)|;
    }
  }

  /** With carriage returns for hyphens, the short name of `f`. */
  predicate StandIn(name: bytes, f: Field) {
    CR in name && |NameOf(f)| <= 16 && EqIgnoreCase(FoldCr(name), NameOf(f))
  }

  /** The comparison is case-insensitive equality exactly when no carriage return stands in for a hyphen. */
  lemma CaseInsensitiveIff(name: bytes, f: Field)
    ensures (AsciiEq(name, NameOf(f)) <==> EqIgnoreCase(name, NameOf(f)))
            <==> !StandIn(name, f)
  {
    hide AsciiEq, NameOf, Token, EqIgnoreCase;
    NamesAreTokens(f);
    ComparesEqualIff(name, NameOf(f));
    if CR in name {
      NoCrInTokens(name, NameOf(f));
    } else {
      assert FoldCr(name) == name;
    }
  }

  lemma NoCrInTokens(name: bytes, t: bytes)
    requires Token(t) && CR in name
    ensures !EqIgnoreCase(name, t)
  {
    var i :| 0 <= i < |name| && name[i] == CR;
    if |name| == |t| { assert LowerAll(name)[i] != LowerAll(t)[i]; } else { assert |LowerAll(name)| != |LowerAll(t)|; }
  }

  /** The hyphen of `x-real-ip` and a carriage return are one bit apart. */
  lemma CarriageReturnIsTaken()
    ensures var name := NameOf(RealIp)[1 := CR];
      Dispatch(name, false) == Some(RealIp) && !EqIgnoreCase(name, NameOf(RealIp))
  {
    hide Dispatch;
    var t := NameOf(RealIp);
    var name := t[1 := CR];
    NamesAreTokens(RealIp);
    assert t[1] == MINUS;
    assert CR !in t;
    assert FoldCr(name) == t;
    assert name[1] == CR;
    ComparesEqualIff(name, t);
    NoCrInTokens(name, t);
    DispatchIsPlain(name, false, RealIp);
  }

  // ---- the packed list ----

  datatype Error = TooMany | BadHeader | BadName | BadValueLength | BadValue

  datatype Result<+T> = Ok(value: T) | Err(error: Error)

  datatype Header = Header(name: bytes, value: bytes)

  function Le16(s: bytes, at: nat): nat
    requires at + 2 <= |s|
  {
    s[at] as int + 0x100 * s[at + 1] as int
  }

  /** One record: `[u16 name_len][name][u32 value_len][value]`, and where it ends. */
  function ReadRecord(s: bytes, pos: nat): (r: Result<(Header, nat)>)
    ensures r.Ok? ==> pos < r.value.1 <= |s|
  {
    if pos + 2 > |s| then Err(BadHeader)
    else
      var n := Le16(s, pos);
      if pos + 2 + n > |s| then Err(BadName)
      else if pos + 2 + n + 4 > |s| then Err(BadValueLength)
      else
        var v := pos + 2 + n + 4;
        var len := FromLe32(s, pos + 2 + n);
        if v + len > |s| then Err(BadValue)
        else Ok((Header(s[pos + 2..pos + 2 + n], s[v..v + len]), v + len))
  }

  function ReadList(s: bytes, pos: nat, count: nat): Result<seq<Header>>
    decreases count
  {
    if count == 0 then Ok([])
    else match ReadRecord(s, pos)
      case Err(e) => Err(e)
      case Ok(r) =>
        match ReadList(s, r.1, count - 1)
        case Err(e) => Err(e)
        case Ok(rest) => Ok([r.0] + rest)
  }

  /** The headers of a buffer; too short a buffer has none. */
  function Listed(s: bytes, maxHeaders: nat): Result<seq<Header>> {
    if |s| < 2 then Ok([])
    else if Le16(s, 0) > maxHeaders then Err(TooMany)
    else ReadList(s, 2, Le16(s, 0))
  }

  function ToLe16(n: nat): (r: bytes)
    requires n < 0x10000
    ensures |r| == 2
  {
    [n % 0x100, n / 0x100]
  }

  /** The packed form of a list of headers. */
  function PackRecord(x: Header): bytes
    requires |x.name| < 0x10000
  {
    ToLe16(|x.name|) + x.name + Le32(|x.value|) + x.value
  }

  predicate Packable(hs: seq<Header>) {
    |hs| < 0x10000 && forall i :: 0 <= i < |hs| ==> |hs[i].name| < 0x10000 && |hs[i].value| < TWO32
  }

  function PackRecords(hs: seq<Header>): bytes
    requires Packable(hs)
  {
    if hs == [] then [] else PackRecord(hs[0]) + PackRecords(hs[1..])
  }

  lemma Le16At(s: bytes, at: nat, n: nat)
    requires n < 0x10000 && At(s, at, ToLe16(n))
    ensures at + 2 <= |s| && Le16(s, at) == n
  {
    assert s[at] == s[at..at + 2][0] && s[at + 1] == s[at..at + 2][1];
  }

  lemma RecordReads(s: bytes, at: nat, x: Header)
    requires |x.name| < 0x10000 && |x.value| < TWO32 && At(s, at, PackRecord(x))
    ensures ReadRecord(s, at) == Ok((x, at + |PackRecord(x)|))
  {
    hide Le16, ToLe16, Le32, FromLe32;
    var n, len := ToLe16(|x.name|), Le32(|x.value|);
    AtSplit(s, at, n + x.name + len, x.value);
    AtSplit(s, at, n + x.name, len);
    AtSplit(s, at, n, x.name);
    Le16At(s, at, |x.name|);
    FromLe32OfLe32(s, at + 2 + |x.name|, |x.value|);
  }

  lemma {:induction false} RecordsRead(s: bytes, at: nat, hs: seq<Header>)
    requires Packable(hs) && At(s, at, PackRecords(hs))
    ensures ReadList(s, at, |hs|) == Ok(hs)
    decreases |hs|
  {
    hide ReadRecord, PackRecord;
    if hs != [] {
      AtSplit(s, at, PackRecord(hs[0]), PackRecords(hs[1..]));
      RecordReads(s, at, hs[0]);
      RecordsRead(s, at + |PackRecord(hs[0])|, hs[1..]);
      assert hs == [hs[0]] + hs[1..];
    }
  }

  /** What was packed is read back, with anything behind it ignored. */
  lemma PackedIsRead(hs: seq<Header>, rest: bytes, maxHeaders: nat)
    requires Packable(hs)
    ensures Listed(ToLe16(|hs|) + PackRecords(hs) + rest, maxHeaders)
            == if |hs| <= maxHeaders then Ok(hs) else Err(TooMany)
  {
    hide ToLe16, Le16, PackRecords, ReadList;
    var s := ToLe16(|hs|) + PackRecords(hs) + rest;
    assert At(s, 0, s);
    AtSplit(s, 0, ToLe16(|hs|) + PackRecords(hs), rest);
    AtSplit(s, 0, ToLe16(|hs|), PackRecords(hs));
    Le16At(s, 0, |hs|);
    RecordsRead(s, 2, hs);
  }

  /** Value of the last header whose name compares equal to that of `f`. */
  function Last(hs: seq<Header>, f: Field): Option<bytes> {
    if hs == [] then None
    else if AsciiEq(hs[|hs| - 1].name, NameOf(f)) then Some(hs[|hs| - 1].value)
    else Last(hs[..|hs| - 1], f)
  }

  /** The same by plain case-insensitive comparison. */
  function LastIgnoringCase(hs: seq<Header>, f: Field): Option<bytes> {
    if hs == [] then None
    else if EqIgnoreCase(hs[|hs| - 1].name, NameOf(f)) then Some(hs[|hs| - 1].value)
    else LastIgnoringCase(hs[..|hs| - 1], f)
  }

  datatype HeaderRefs = HeaderRefs(fields: map<Field, bytes>, flags: set<Field>)

  /** The parsed form of a list: each tracked field has its last value, preflight fields on OPTIONS only, and the flags
      say which flagged fields are there. */
  ghost predicate Tracks(h: HeaderRefs, hs: seq<Header>, isOptions: bool) {
    && (forall f :: (if f in h.fields then Some(h.fields[f]) else None)
                    == if Preflight(f) && !isOptions then None else Last(hs, f))
    && (forall f :: f in h.flags <==> Flagged(f) && f in h.fields)
  }

  function Record(h: HeaderRefs, x: Header, isOptions: bool): HeaderRefs {
    match Dispatch(x.name, isOptions)
    case None => h
    case Some(f) => HeaderRefs(h.fields[f := x.value], if Flagged(f) then h.flags + {f} else h.flags)
  }

  lemma RecordTracks(h: HeaderRefs, hs: seq<Header>, x: Header, isOptions: bool)
    requires Tracks(h, hs, isOptions)
    ensures Tracks(Record(h, x, isOptions), hs + [x], isOptions)
  {
    hide Dispatch, AsciiEq, NameOf;
    var all := hs + [x];
    assert all[..|all| - 1] == hs;
    forall f: Field
      ensures Dispatch(x.name, isOptions) == Some(f) <==> AsciiEq(x.name, NameOf(f)) && (Preflight(f) ==> isOptions)
    {
      DispatchIsPlain(x.name, isOptions, f);
    }
  }

  /** `HeaderRefs::parse`: an error exactly when the packed list is bad, and else the last value of every tracked
      name; the dispatch misses nothing a plain scan of the list would find. All reads are in bounds. */
  method Parse(packed: bytes, isOptions: bool, maxHeaders: nat) returns (r: Result<HeaderRefs>)
    ensures Listed(packed, maxHeaders).Err? ==> r == Err(Listed(packed, maxHeaders).error)
    ensures Listed(packed, maxHeaders).Ok? ==> r.Ok? && Tracks(r.value, Listed(packed, maxHeaders).value, isOptions)
  {
    hide Dispatch, ReadRecord, Tracks;
    var h := HeaderRefs(map[], {});
    NothingTracked(isOptions);
    if |packed| < 2 { return Ok(h); }
    var count := Le16(packed, 0);
    if count > maxHeaders { return Err(TooMany); }
    var pos := 2;
    ghost var seen := [];
    PrependNothing(ReadList(packed, 2, count));
    for i := 0 to count
      invariant 0 <= pos <= |packed| && Tracks(h, seen, isOptions)
      invariant ReadList(packed, 2, count) == Prepend(seen, ReadList(packed, pos, count - i))
    {
      var record := TakeRecord(packed, pos);
      if record.Err? { return Err(record.error); }
      var x := record.value.0;
      pos := record.value.1;
      RecordTracks(h, seen, x, isOptions);
      PrependMore(seen, x, ReadList(packed, pos, count - i - 1));
      h := Store(h, x.name, x.value, isOptions);
      seen := seen + [x];
    }
    assert seen + [] == seen;
    return Ok(h);
  }

  /** The checks and slices at the head of the loop body. */
  method TakeRecord(packed: bytes, at: nat) returns (r: Result<(Header, nat)>)
    ensures r == ReadRecord(packed, at)
  {
    hide FromLe32;
    var pos := at;
    if pos + 2 > |packed| { return Err(BadHeader); }
    var nameLen := Le16(packed, pos);
    pos := pos + 2;
    if pos + nameLen > |packed| { return Err(BadName); }
    var name := packed[pos..pos + nameLen];
    pos := pos + nameLen;
    if pos + 4 > |packed| { return Err(BadValueLength); }
    var valueLen := FromLe32(packed, pos);
    pos := pos + 4;
    if pos + valueLen > |packed| { return Err(BadValue); }
    var value := packed[pos..pos + valueLen];
    return Ok((Header(name, value), pos + valueLen));
  }

  lemma PrependNothing(r: Result<seq<Header>>)
    ensures Prepend([], r) == r
  {
    if r.Ok? { assert [] + r.value == r.value; }
  }

  function Prepend(hs: seq<Header>, r: Result<seq<Header>>): Result<seq<Header>> {
    match r case Err(e) => Err(e) case Ok(rest) => Ok(hs + rest)
  }

  lemma PrependMore(hs: seq<Header>, x: Header, r: Result<seq<Header>>)
    ensures Prepend(hs + [x], r) == Prepend(hs, Prepend([x], r))
  {
    if r.Ok? { assert (hs + [x]) + r.value == hs + ([x] + r.value); }
  }

  lemma NothingTracked(isOptions: bool)
    ensures Tracks(HeaderRefs(map[], {}), [], isOptions)
  {
  }

  /** The field and flag updates of the loop body. */
  method Store(h: HeaderRefs, name: bytes, value: bytes, isOptions: bool) returns (r: HeaderRefs)
    ensures r == Record(h, Header(name, value), isOptions)
  {
    var f := Dispatch(name, isOptions);
    r := h;
    if f.Some? {
      if Flagged(f.value) { r := r.(flags := r.flags + {f.value}); }
      r := r.(fields := r.fields[f.value := value]);
    }
  }

  // ---- against plain case-insensitive comparison ----

  /** Where the last header whose name compares equal to that of `f` stands. */
  function LastAt(hs: seq<Header>, f: Field): (r: Option<nat>)
    ensures r.Some? ==> r.value < |hs|
  {
    if hs == [] then None
    else if AsciiEq(hs[|hs| - 1].name, NameOf(f)) then Some(|hs| - 1)
    else LastAt(hs[..|hs| - 1], f)
  }

  /** The same by plain case-insensitive comparison. */
  function LastAtIgnoringCase(hs: seq<Header>, f: Field): (r: Option<nat>)
    ensures r.Some? ==> r.value < |hs|
  {
    if hs == [] then None
    else if EqIgnoreCase(hs[|hs| - 1].name, NameOf(f)) then Some(|hs| - 1)
    else LastAtIgnoringCase(hs[..|hs| - 1], f)
  }

  function ValueAt(hs: seq<Header>, i: Option<nat>): Option<bytes>
    requires i.Some? ==> i.value < |hs|
  {
    match i case None => None case Some(k) => Some(hs[k].value)
  }

  lemma {:induction false} LastIsAt(hs: seq<Header>, f: Field)
    ensures Last(hs, f) == ValueAt(hs, LastAt(hs, f))
    ensures LastIgnoringCase(hs, f) == ValueAt(hs, LastAtIgnoringCase(hs, f))
  {
    hide AsciiEq, NameOf, EqIgnoreCase;
    if hs != [] { LastIsAt(hs[..|hs| - 1], f); }
  }

  lemma CrOnlyStandsIn(name: bytes, f: Field)
    ensures AsciiEq(name, NameOf(f)) <==> EqIgnoreCase(name, NameOf(f)) || StandIn(name, f)
    ensures !(EqIgnoreCase(name, NameOf(f)) && StandIn(name, f))
  {
    hide AsciiEq, NameOf, EqIgnoreCase, Token;
    NamesAreTokens(f);
    ComparesEqualIff(name, NameOf(f));
    if CR in name { NoCrInTokens(name, NameOf(f)); } else { assert FoldCr(name) == name; }
  }

  /** A genuine occurrence behind header `i`. */
  ghost predicate Overridden(hs: seq<Header>, f: Field, i: nat) {
    exists j :: i < j < |hs| && EqIgnoreCase(hs[j].name, NameOf(f))
  }

  /** The scanner picks the last case-insensitive occurrence of a name exactly when every header that stands in for
      it with carriage returns has a genuine one behind it. */
  lemma {:induction false} LastIsCaseInsensitiveIff(hs: seq<Header>, f: Field)
    ensures LastAt(hs, f) == LastAtIgnoringCase(hs, f)
            <==> forall i :: 0 <= i < |hs| && StandIn(hs[i].name, f) ==> Overridden(hs, f, i)
  {
    hide AsciiEq, NameOf, EqIgnoreCase, StandIn;
    if hs != [] {
      var n := |hs| - 1;
      CrOnlyStandsIn(hs[n].name, f);
      if EqIgnoreCase(hs[n].name, NameOf(f)) {
        assert forall i :: 0 <= i < n ==> Overridden(hs, f, i);
      } else if !StandIn(hs[n].name, f) {
        LastIsCaseInsensitiveIff(hs[..n], f);
        assert forall i :: 0 <= i < n ==> (Overridden(hs, f, i) <==> Overridden(hs[..n], f, i)) by {
          OverriddenEarlier(hs, f);
        }
      }
    }
  }

  lemma OverriddenEarlier(hs: seq<Header>, f: Field)
    requires hs != [] && !EqIgnoreCase(hs[|hs| - 1].name, NameOf(f))
    ensures forall i :: 0 <= i < |hs| - 1 ==> (Overridden(hs, f, i) <==> Overridden(hs[..|hs| - 1], f, i))
  {
    hide EqIgnoreCase, NameOf;
    var front := hs[..|hs| - 1];
    forall i | 0 <= i < |hs| - 1
      ensures Overridden(hs, f, i) <==> Overridden(front, f, i)
    {
      if j :| i < j < |hs| && EqIgnoreCase(hs[j].name, NameOf(f)) { assert EqIgnoreCase(front[j].name, NameOf(f)); }
      if j :| i < j < |front| && EqIgnoreCase(front[j].name, NameOf(f)) { assert EqIgnoreCase(hs[j].name, NameOf(f)); }
    }
  }

  /** So where no name holds a carriage return, the values are those of the last case-insensitive occurrences. */
  lemma LastIsCaseInsensitive(hs: seq<Header>, f: Field)
    requires forall i :: 0 <= i < |hs| ==> CR !in hs[i].name
    ensures Last(hs, f) == LastIgnoringCase(hs, f)
  {
    hide Last, LastIgnoringCase, LastAt, LastAtIgnoringCase;
    LastIsCaseInsensitiveIff(hs, f);
    LastIsAt(hs, f);
  }

  /** A header list whose `x-real-ip` is replaced: the name with a carriage return follows the genuine one. */
  function Replacing(genuine: bytes, other: bytes): seq<Header> {
    [Header(NameOf(RealIp), genuine), Header(NameOf(RealIp)[1 := CR], other)]
  }

  /** Any parsed form of that list, packed, holds the other value, whatever the two are. */
  lemma RealIpIsReplaced(genuine: bytes, other: bytes, isOptions: bool, maxHeaders: nat)
    requires |genuine| < TWO32 && |other| < TWO32 && maxHeaders >= 2
    ensures var hs := Replacing(genuine, other);
      && Packable(hs) && Listed(ToLe16(2) + PackRecords(hs), maxHeaders) == Ok(hs)
      && LastIgnoringCase(hs, RealIp) == Some(genuine)
      && forall h :: Tracks(h, hs, isOptions) ==> RealIp in h.fields && h.fields[RealIp] == other
  {
    hide Listed, PackRecords, ToLe16, Dispatch, EqIgnoreCase, AsciiEq;
    var hs, t := Replacing(genuine, other), NameOf(RealIp);
    NamesAreTokens(RealIp);
    PackedIsRead(hs, [], maxHeaders);
    assert ToLe16(2) + PackRecords(hs) + [] == ToLe16(2) + PackRecords(hs);
    CarriageReturnIsTaken();
    DispatchIsPlain(t[1 := CR], false, RealIp);
    assert EqIgnoreCase(t, t) by { Reflexive(t); }
    assert hs[..1] == [hs[0]];
    assert Last(hs, RealIp) == Some(other);
  }

  lemma Reflexive(s: bytes)
    ensures EqIgnoreCase(s, s)
  {
  }

  // ---- the tables and the layout in bytes ----

  predicate Reads(b: bytes, s: string) { |b| == |s| && forall i :: 0 <= i < |s| ==> b[i] == s[i] as int }

  /** The tracked names as text. */
  lemma NamesInText(f: Field)
    ensures Reads(NameOf(f), match f
      case Origin => "origin" case Cookie => "cookie" case ForwardedFor => "x-forwarded-for" case RealIp => "x-real-ip"
      case ForwardedProto => "x-forwarded-proto" case RequestMethod => "access-control-request-method"
      case RequestHeaders => "access-control-request-headers")
  {
    match f
    case RequestMethod => assert |NameOf(f)| == 29;
    case RequestHeaders => assert |NameOf(f)| == 30;
    case _ =>
  }

  /** The five names with a presence flag, and the two that only preflight requests have. */
  lemma FlagsByName(f: Field)
    ensures Flagged(f) <==>
            || Reads(NameOf(f), "origin") || Reads(NameOf(f), "x-forwarded-for") || Reads(NameOf(f), "x-real-ip")
            || Reads(NameOf(f), "x-forwarded-proto") || Reads(NameOf(f), "access-control-request-method")
    ensures Preflight(f) <==>
            || Reads(NameOf(f), "access-control-request-method") || Reads(NameOf(f), "access-control-request-headers")
  {
    hide NameOf, Token;
    NamesInText(f);
    NamesAreTokens(f);
    assert "origin"[0] != "cookie"[0];
  }

  lemma LengthsLowByteFirst(a: byte, b: byte)
    ensures ToLe16(a as int + 0x100 * b as int) == [a, b] && Le16([a, b], 0) == a as int + 0x100 * b as int
  {
  }

  lemma ReadRecordIs(s: bytes, pos: nat)
    requires ReadRecord(s, pos).Ok?
    ensures var (x, end) := ReadRecord(s, pos).value;
      && |x.name| < 0x10000 && |x.value| < TWO32 && At(s, pos, PackRecord(x)) && end == pos + |PackRecord(x)|
  {
    hide FromLe32, Le32;
    var (x, end) := ReadRecord(s, pos).value;
    var n, v := |x.name|, pos + 2 + |x.name| + 4;
    Le16Back(s, pos);
    Le32Back(s, pos + 2 + n);
    assert s[pos..end] == s[pos..pos + 2] + s[pos + 2..pos + 2 + n] + s[pos + 2 + n..v] + s[v..end];
  }

  lemma Le16Back(s: bytes, at: nat)
    requires at + 2 <= |s|
    ensures Le16(s, at) < 0x10000 && s[at..at + 2] == ToLe16(Le16(s, at))
  {
    LengthsLowByteFirst(s[at], s[at + 1]);
  }

  lemma Le32Back(s: bytes, at: nat)
    requires at + 4 <= |s|
    ensures s[at..at + 4] == Le32(FromLe32(s, at))
  {
    hide Le32;
    LowByteFirst(s[at], s[at + 1], s[at + 2], s[at + 3]);
  }

  lemma {:induction false} ReadListIs(s: bytes, pos: nat, count: nat)
    requires pos <= |s| && ReadList(s, pos, count).Ok? && count < 0x10000
    ensures var hs := ReadList(s, pos, count).value; Packable(hs) && |hs| == count && At(s, pos, PackRecords(hs))
    decreases count
  {
    hide ReadRecord, PackRecord;
    if count > 0 {
      var (x, end) := ReadRecord(s, pos).value;
      ReadRecordIs(s, pos);
      ReadListIs(s, end, count - 1);
      var rest := ReadList(s, end, count - 1).value;
      assert ([x] + rest)[1..] == rest;
      JoinAt(s, pos, PackRecord(x), PackRecords(rest));
    }
  }

  lemma JoinAt(s: bytes, at: nat, a: bytes, b: bytes)
    requires At(s, at, a) && At(s, at + |a|, b)
    ensures At(s, at, a + b)
  {
    assert s[at..at + |a + b|] == s[at..at + |a|] + s[at + |a|..at + |a| + |b|];
  }

  /** A list is read exactly from the buffers that start with its packed form and hold no more than the maximum; every
      other buffer is refused, except that one of less than two bytes is an empty list. */
  lemma ListedIff(s: bytes, maxHeaders: nat, hs: seq<Header>)
    ensures |s| < 2 ==> (Listed(s, maxHeaders) == Ok(hs) <==> hs == [])
    ensures |s| >= 2 ==> (Listed(s, maxHeaders) == Ok(hs) <==>
            Packable(hs) && |hs| <= maxHeaders && ToLe16(|hs|) + PackRecords(hs) <= s)
  {
    hide Le16, ToLe16, ReadList, PackRecords;
    if |s| < 2 { return; }
    if Listed(s, maxHeaders) == Ok(hs) {
      Le16Back(s, 0);
      ReadListIs(s, 2, Le16(s, 0));
      assert At(s, 0, ToLe16(|hs|));
      JoinAt(s, 0, ToLe16(|hs|), PackRecords(hs));
    }
    if Packable(hs) && |hs| <= maxHeaders && ToLe16(|hs|) + PackRecords(hs) <= s {
      var n := |ToLe16(|hs|) + PackRecords(hs)|;
      assert s == ToLe16(|hs|) + PackRecords(hs) + s[n..];
      PackedIsRead(hs, s[n..], maxHeaders);
    }
  }

  /** A record that is cut short is refused for the part that is missing. */
  lemma CutRecord(s: bytes, pos: nat, n: nat)
    requires pos <= |s| && n < 0x10000 && (pos + 2 <= |s| ==> s[pos..pos + 2] == ToLe16(n))
    ensures |s| - pos < 2 ==> ReadRecord(s, pos) == Err(BadHeader)
    ensures 2 <= |s| - pos < 2 + n ==> ReadRecord(s, pos) == Err(BadName)
    ensures 2 + n <= |s| - pos < 6 + n ==> ReadRecord(s, pos) == Err(BadValueLength)
    ensures |s| - pos >= 6 + n && |s| - pos < 6 + n + FromLe32(s, pos + 2 + n) ==> ReadRecord(s, pos) == Err(BadValue)
  {
    hide FromLe32, Le16, ToLe16;
    if pos + 2 <= |s| { Le16At(s, pos, n); }
  }
}
