/** `parse_http_date_secs` (rust/http/http_date.rs:175-198), and that it reads back what the formatter prints. */
module HttpDateParse {
  import opened Bytes
  import opened Decimal
  import opened Calendar
  import opened HttpDate
  import Utf8

  type chars = seq<int>

  // ---- splitting text ----

  /** Unicode white space, which `str::trim` and `split_whitespace` look for. */
  predicate IsSpace(c: int) {
    || 0x09 <= c <= 0x0D || c == 0x20 || c == 0x85 || c == 0xA0 || c == 0x1680 || 0x2000 <= c <= 0x200A
    || c == 0x2028 || c == 0x2029 || c == 0x202F || c == 0x205F || c == 0x3000
  }

  predicate Solid(s: chars) { s != [] && forall i :: 0 <= i < |s| ==> !IsSpace(s[i]) }

  function TrimStart(s: chars): chars {
    if s != [] && IsSpace(s[0]) then TrimStart(s[1..]) else s
  }

  function TrimEnd(s: chars): chars {
    if s != [] && IsSpace(s[|s| - 1]) then TrimEnd(s[..|s| - 1]) else s
  }

  function Trim(s: chars): chars { TrimEnd(TrimStart(s)) }

  function WordLen(s: chars): (n: nat)
    ensures n <= |s| && (s != [] && !IsSpace(s[0]) ==> n > 0)
  {
    if s == [] || IsSpace(s[0]) then 0 else 1 + WordLen(s[1..])
  }

  /** `split_whitespace`. */
  function Words(s: chars): seq<chars> {
    if s == [] then []
    else if IsSpace(s[0]) then Words(s[1..])
    else [s[..WordLen(s)]] + Words(s[WordLen(s)..])
  }

  function Until(s: chars, c: int): (n: nat)
    ensures n <= |s|
  {
    if s == [] || s[0] == c then 0 else 1 + Until(s[1..], c)
  }

  /** `split` on one character. */
  function SplitOn(s: chars, c: int): (r: seq<chars>) {
    var n := Until(s, c);
    if n == |s| then [s] else [s[..n]] + SplitOn(s[n + 1..], c)
  }

  // ---- the parser ----

  function LowerChar(c: int): int { if 0x41 <= c <= 0x5A then c + 0x20 else c }

  /** `eq_ignore_ascii_case`. */
  predicate SameIgnoringCase(a: chars, b: chars) {
    |a| == |b| && forall i :: 0 <= i < |a| ==> LowerChar(a[i]) == LowerChar(b[i])
  }

  /** Position of `mon` in the month table, from `i` on. */
  function MonthIndex(mon: chars, i: nat): Option<nat>
    requires i <= 12
    decreases 12 - i
  {
    if i == 12 then None
    else if SameIgnoringCase(MonthName(i), mon) then Some(i)
    else MonthIndex(mon, i + 1)
  }

  predicate I64(x: int) { I64_MIN <= x <= I64_MAX }

  datatype Outcome = Rejected | Overflow | Instant(secs: int)

  /** `days_from_civil` and the sum that follows it, where overflow checks are on. */
  predicate SumFits(date: Date, hh: int, mm: int, ss: int) {
    var y := if date.m <= 2 then date.y - 1 else date.y;
    var shifted := if y >= 0 then y else y - 399;
    var era := y / 400;
    && I64(y) && I64(shifted) && I64(era * 146_097)
    && match DaysFromCivil(date)
       case None => true
       case Some(days) =>
         && I64(days + 719_468) && I64(days) && I64(days * 86_400) && I64(days * 86_400 + hh * 3600)
         && I64(days * 86_400 + hh * 3600 + mm * 60) && I64(days * 86_400 + hh * 3600 + mm * 60 + ss)
  }

  function Finish(date: Date, hh: int, mm: int, ss: int): Outcome {
    if hh > 23 || mm > 59 || ss > 60 then Rejected
    else match DaysFromCivil(date)
      case None => Rejected
      case Some(days) =>
        if SumFits(date, hh, mm, ss) then Instant(days * 86_400 + hh * 3600 + mm * 60 + ss) else Overflow
  }

  function ParseFields(day: chars, mon: chars, year: chars, time: chars): Outcome {
    var tp := SplitOn(time, COLON);
    var d, m, y := ParseInt(day, 0, U32_MAX), MonthIndex(mon, 0), ParseInt(year, I64_MIN, I64_MAX);
    if d.None? || m.None? || y.None? || |tp| < 3 then Rejected
    else
      var hh, mm, ss := ParseInt(tp[0], 0, U32_MAX), ParseInt(tp[1], 0, U32_MAX), ParseInt(tp[2], 0, U32_MAX);
      if hh.None? || mm.None? || ss.None? then Rejected
      else Finish(Date(y.value, m.value + 1, d.value), hh.value, mm.value, ss.value)
  }

  function ParseChars(text: chars): Outcome {
    var s := Trim(text);
    var comma := Until(s, COMMA);
    if comma == |s| then Rejected
    else
      var parts := Words(Trim(s[comma + 1..]));
      if |parts| < 4 then Rejected else ParseFields(parts[0], parts[1], parts[2], parts[3])
  }

  function Parse(input: bytes): Outcome {
    match Utf8.Decode(input)
    case None => Rejected
    case Some(text) => ParseChars(text)
  }

  // ---- how printed text splits ----

  lemma {:induction false} WordLenOf(w: chars, rest: chars)
    requires (forall i :: 0 <= i < |w| ==> !IsSpace(w[i])) && (rest == [] || IsSpace(rest[0]))
    ensures WordLen(w + rest) == |w|
  {
    if w == [] {
      assert w + rest == rest;
    } else {
      assert (w + rest)[1..] == w[1..] + rest;
      WordLenOf(w[1..], rest);
    }
  }

  lemma WordsCons(w: chars, rest: chars)
    requires Solid(w)
    ensures Words(w + [0x20] + rest) == [w] + Words(rest)
  {
    hide IsSpace, WordLen;
    assert IsSpace(0x20) by { SpaceIsSpace(); }
    var s := w + [0x20] + rest;
    assert s == w + ([0x20] + rest);
    WordLenOf(w, [0x20] + rest);
    assert s[..|w|] == w && s[|w|..] == [0x20] + rest;
    assert ([0x20] + rest)[1..] == rest;
  }

  lemma SpaceIsSpace()
    ensures IsSpace(0x20)
  {
  }

  lemma WordsLast(w: chars)
    requires Solid(w)
    ensures Words(w) == [w]
  {
    assert w + [] == w;
    WordLenOf(w, []);
    assert w[..|w|] == w && w[|w|..] == [];
  }

  lemma {:induction false} UntilOf(w: chars, c: int, rest: chars)
    requires c !in w && (rest == [] || rest[0] == c)
    ensures Until(w + rest, c) == |w|
  {
    if w == [] {
      assert w + rest == rest;
    } else {
      assert (w + rest)[1..] == w[1..] + rest;
      UntilOf(w[1..], c, rest);
    }
  }

  lemma SplitCons(w: chars, c: int, rest: chars)
    requires c !in w
    ensures SplitOn(w + [c] + rest, c) == [w] + SplitOn(rest, c)
  {
    var s := w + [c] + rest;
    assert s == w + ([c] + rest);
    UntilOf(w, c, [c] + rest);
    assert s[..|w|] == w && s[|w| + 1..] == rest;
  }

  lemma SplitLast(w: chars, c: int)
    requires c !in w
    ensures SplitOn(w, c) == [w]
  {
    assert w + [] == w;
    UntilOf(w, c, []);
  }

  lemma TrimSolidEnds(s: chars)
    requires s != [] && !IsSpace(s[0]) && !IsSpace(s[|s| - 1])
    ensures Trim(s) == s && Trim([0x20] + s) == s
  {
    assert ([0x20] + s)[1..] == s;
  }

  lemma DigitsSolid(s: bytes)
    requires AllDigits(s) && s != []
    ensures Solid(s) && COLON !in s
  {
  }

  // ---- numbers ----

  lemma {:induction false} ValueOfZeros(n: nat, s: chars)
    requires AllDigits(s)
    ensures AllDigits(Zeros(n) + s) && Value(Zeros(n) + s) == Value(s)
    decreases |s|, n
  {
    if s != [] {
      ValueOfZeros(n, s[..|s| - 1]);
      assert (Zeros(n) + s)[..|Zeros(n) + s| - 1] == Zeros(n) + s[..|s| - 1];
    } else if n > 0 {
      assert Zeros(n) + s == Zeros(n);
      ZerosTurn(n - 1);
      assert Zeros(n)[..n - 1] == Zeros(n - 1);
      ValueOfZeros(n - 1, []);
      assert Zeros(n - 1) + s == Zeros(n - 1);
    }
  }

  lemma ZeroPadDigits(n: nat, width: nat)
    ensures var t := ZeroPad(Digits(n), width); AllDigits(t) && t != [] && Value(t) == n
  {
    ValueOfDigits(n);
    if |Digits(n)| < width { ValueOfZeros(width - |Digits(n)|, Digits(n)); }
  }

  /** Padding with zeros, before or after the sign, does not change what is read. */
  lemma ParseYear(y: int)
    requires I64(y)
    ensures ParseInt(YearText(y), I64_MIN, I64_MAX) == Some(y) && Solid(YearText(y))
  {
    hide Value, Digits, ZeroPad;
    if y < 0 {
      ZeroPadDigits(-y, 3);
      assert YearText(y)[1..] == ZeroPad(Digits(-y), 3);
    } else {
      ZeroPadDigits(y, 4);
      assert IsDigit(YearText(y)[0]);
    }
  }

  lemma ParseTwo(n: int)
    requires 0 <= n < 100
    ensures ParseInt(Padded(n, 2), 0, U32_MAX) == Some(n)
    ensures Solid(Padded(n, 2)) && COLON !in Padded(n, 2)
  {
    assert Pow10(2) == 10 * Pow10(1) && Pow10(1) == 10 * Pow10(0);
    ParsePadded(n, 2, 0, U32_MAX);
    DigitsSolid(Padded(n, 2));
  }

  // ---- names ----

  lemma NamesAreLetters(wd: int, i: int)
    requires 0 <= wd < 7 && 0 <= i < 12
    ensures forall k :: 0 <= k < 3 ==> 0x41 <= DayName(wd)[k] <= 0x7A
    ensures forall k :: 0 <= k < 3 ==> 0x41 <= MonthName(i)[k] <= 0x7A
  {
  }


  lemma MonthsDiffer(i: int, j: int)
    requires 0 <= i < j < 12
    ensures !SameIgnoringCase(MonthName(i), MonthName(j))
  {
    var a, b := MonthName(i), MonthName(j);
    assert LowerChar(a[0]) != LowerChar(b[0]) || LowerChar(a[1]) != LowerChar(b[1])
        || LowerChar(a[2]) != LowerChar(b[2]);
  }

  lemma {:induction false} MonthFound(i: nat, j: nat)
    requires i <= j < 12
    ensures MonthIndex(MonthName(j), i) == Some(j)
    decreases j - i
  {
    hide MonthName;
    if i < j {
      MonthsDiffer(i, j);
      MonthFound(i + 1, j);
    }
  }

  // ---- reading back ----

  function Clock(hh: nat, mm: nat, ss: nat): bytes {
    Padded(hh, 2) + [COLON] + Padded(mm, 2) + [COLON] + Padded(ss, 2)
  }

  function ClockText(p: Parts): bytes
    requires ValidParts(p)
  {
    Clock(p.hh, p.mm, p.ss)
  }

  lemma ClockSplits(hh: nat, mm: nat, ss: nat)
    requires hh < 100 && mm < 100 && ss < 100
    ensures Solid(Clock(hh, mm, ss))
    ensures SplitOn(Clock(hh, mm, ss), COLON) == [Padded(hh, 2), Padded(mm, 2), Padded(ss, 2)]
  {
    hide Padded, SplitOn;
    var h: chars, m: chars, s: chars := Padded(hh, 2), Padded(mm, 2), Padded(ss, 2);
    ParseTwo(hh);
    ParseTwo(mm);
    ParseTwo(ss);
    assert Clock(hh, mm, ss) == h + [COLON] + (m + [COLON] + s);
    SplitCons(h, COLON, m + [COLON] + s);
    SplitCons(m, COLON, s);
    SplitLast(s, COLON);
  }

  /** The words behind the comma. */
  function Tail(day: bytes, mon: bytes, year: bytes, clock: bytes): bytes {
    day + [SPACE] + (mon + [SPACE] + (year + [SPACE] + (clock + [SPACE] + GMT)))
  }

  lemma TextIsTail(p: Parts, year: bytes)
    requires ValidParts(p)
    ensures Text(p, year) == DayName(p.wd) + ([COMMA] + ([SPACE]
              + Tail(Padded(p.date.d, 2), MonthName(p.date.m - 1), year, ClockText(p))))
  {
    hide Padded, MonthName, DayName;
  }

  lemma TailWords(day: bytes, mon: bytes, year: bytes, clock: bytes)
    requires Solid(day) && Solid(mon) && Solid(year) && Solid(clock)
    ensures Words(Tail(day, mon, year, clock)) == [day, mon, year, clock, GMT]
  {
    hide Words, Solid;
    GmtIsSolid();
    WordsLast(GMT);
    WordsCons(clock, GMT);
    WordsCons(year, clock + [SPACE] + GMT);
    WordsCons(mon, year + [SPACE] + (clock + [SPACE] + GMT));
    WordsCons(day, mon + [SPACE] + (year + [SPACE] + (clock + [SPACE] + GMT)));
  }

  lemma GmtIsSolid()
    ensures Solid(GMT)
  {
  }

  lemma TailEnds(day: bytes, mon: bytes, year: bytes, clock: bytes)
    requires Solid(day)
    ensures var t := Tail(day, mon, year, clock); t != [] && !IsSpace(t[0]) && !IsSpace(t[|t| - 1])
  {
    GmtIsSolid();
    var t := Tail(day, mon, year, clock);
    assert t[0] == day[0];
    assert t[|t| - 1] == GMT[2];
  }

  /** Behind any name without a comma, the four words are found. */
  lemma LayoutSplits(name: bytes, day: bytes, mon: bytes, year: bytes, clock: bytes)
    requires Solid(name) && COMMA !in name && Solid(day) && Solid(mon) && Solid(year) && Solid(clock)
    ensures ParseChars(name + ([COMMA] + ([SPACE] + Tail(day, mon, year, clock)))) == ParseFields(day, mon, year, clock)
  {
    hide Words, ParseFields, Tail, TrimStart, TrimEnd;
    var tail := Tail(day, mon, year, clock);
    var text := name + ([COMMA] + ([SPACE] + tail));
    TailEnds(day, mon, year, clock);
    assert text[0] == name[0] && text[|text| - 1] == tail[|tail| - 1];
    TrimSolidEnds(text);
    UntilOf(name, COMMA, [COMMA] + ([SPACE] + tail));
    assert text[|name| + 1..] == [SPACE] + tail;
    TrimSolidEnds(tail);
    TailWords(day, mon, year, clock);
  }

  lemma NamesAreSolid(wd: int, i: int)
    requires 0 <= wd < 7 && 0 <= i < 12
    ensures Solid(DayName(wd)) && COMMA !in DayName(wd) && Solid(MonthName(i))
  {
    hide DayName, MonthName;
    NamesAreLetters(wd, i);
  }

  lemma PrintedSplits(p: Parts, year: bytes)
    requires ValidParts(p) && Solid(year)
    ensures ParseChars(Text(p, year)) == ParseFields(Padded(p.date.d, 2), MonthName(p.date.m - 1), year, ClockText(p))
  {
    hide Padded, MonthName, DayName, Clock, ParseFields, ParseChars, Tail, Text, Solid;
    TextIsTail(p, year);
    NamesAreSolid(p.wd, p.date.m - 1);
    ParseTwo(p.date.d);
    ClockSplits(p.hh, p.mm, p.ss);
    LayoutSplits(DayName(p.wd), Padded(p.date.d, 2), MonthName(p.date.m - 1), year, ClockText(p));
  }

  lemma FieldsRead(mon: bytes, date: Date, hh: nat, mm: nat, ss: nat)
    requires 0 <= date.d < 100 && hh < 100 && mm < 100 && ss < 100 && I64(date.y)
    requires 1 <= date.m <= 12 && MonthIndex(mon, 0) == Some(date.m - 1)
    ensures ParseFields(Padded(date.d, 2), mon, YearText(date.y), Clock(hh, mm, ss)) == Finish(date, hh, mm, ss)
  {
    hide Padded, Clock, SplitOn, ParseInt, YearText, MonthIndex, Finish;
    ParseTwo(date.d);
    ParseTwo(hh);
    ParseTwo(mm);
    ParseTwo(ss);
    ParseYear(date.y);
    ClockSplits(hh, mm, ss);
  }

  /** Printed dates are ASCII. */
  lemma TextIsAscii(p: Parts, year: bytes)
    requires ValidParts(p) && forall i :: 0 <= i < |year| ==> year[i] < 0x80
    ensures forall i :: 0 <= i < |Text(p, year)| ==> Text(p, year)[i] < 0x80
  {
    hide Padded, MonthName, DayName;
    NamesAreLetters(p.wd, p.date.m - 1);
    var clock := ClockText(p);
    TextIsTail(p, year);
  }

  lemma YearIsAscii(y: int)
    ensures forall i :: 0 <= i < |YearText(y)| ==> YearText(y)[i] < 0x80
  {
    hide Digits;
    if y < 0 { ZeroPadDigits(-y, 3); } else { ZeroPadDigits(y, 4); }
  }

  lemma ReadText(p: Parts)
    requires ValidParts(p) && I64(p.date.y)
    ensures Parse(Text(p, YearText(p.date.y))) == Finish(p.date, p.hh, p.mm, p.ss)
  {
    hide ParseChars, ParseFields, Finish, Text, YearText, MonthIndex, MonthName, Clock;
    var text := Text(p, YearText(p.date.y));
    YearIsAscii(p.date.y);
    TextIsAscii(p, YearText(p.date.y));
    Utf8.DecodeAscii(text);
    var decoded: chars := Utf8.Decode(text).value;
    assert decoded == text;
    ParseYear(p.date.y);
    PrintedSplits(p, YearText(p.date.y));
    MonthFound(0, p.date.m - 1);
    FieldsRead(MonthName(p.date.m - 1), p.date, p.hh, p.mm, p.ss);
  }

  /** How far a year is from its day number. */
  lemma YearBound(z: int)
    requires -200_000_000_000_000 <= z <= 200_000_000_000_000
    ensures var y := CivilFromDays(z).y; -1_000_000_000_000_000 < y < 1_000_000_000_000_000
    ensures var y := CivilFromDays(z).y; 146_097 * ((if CivilFromDays(z).m <= 2 then y - 1 else y) / 400) <= z + 719_468
    ensures var y := CivilFromDays(z).y;
      z + 719_468 - 146_097 < 146_097 * ((if CivilFromDays(z).m <= 2 then y - 1 else y) / 400)
  {
    hide CivilFromDays;
    var era, y, mp, d := PlaceOfDay(z);
    CivilOfPlace(era, y, mp, d);
    assert (400 * era + y) / 400 == era;
    MonthExact(mp, d);
    YearOfEraExact(y, MonthStart(mp) + d);
  }

  /** For every i64 instant, parsing the printed date gives the same second, unless the start of its day is below
      the i64 range, where the parser's arithmetic overflows. */
  lemma RoundTrip(secs: int)
    requires I64(secs)
    ensures Parse(DateText(secs)) == if I64(86_400 * (secs / 86_400)) then Instant(secs) else Overflow
  {
    hide Parse, Text, CivilFromDays, DaysFromCivil, YearText, ValidDate;
    var p, days := PartsOf(secs), secs / 86_400;
    PartsAreRight(secs);
    YearBound(days);
    ReadText(p);
    assert p.date == CivilFromDays(days);
  }

  /** The first i64 instant prints a date that cannot be parsed back. */
  lemma FirstInstantOverflows()
    ensures Parse(DateText(I64_MIN)) == Overflow
  {
    hide Parse, DateText;
    RoundTrip(I64_MIN);
  }

  // ---- what is read, in bytes ----

  /** `c` or the same letter in the other case. */
  predicate EitherCase(b: int, c: int) {
    b == c || (0x41 <= c <= 0x5A && b == c + 0x20) || (0x61 <= c <= 0x7A && b == c - 0x20)
  }

  predicate SpellsMonth(mon: bytes, m: int) {
    |mon| == 3 && forall k :: 0 <= k < 3 ==> EitherCase(mon[k], MonthBytes(m)[k])
  }

  /** The twelve names, in any case, are found at their places. */
  lemma MonthInAnyCase(mon: bytes, m: int)
    requires 1 <= m <= 12 && SpellsMonth(mon, m)
    ensures MonthIndex(mon, 0) == Some(m - 1) && Solid(mon) && forall k :: 0 <= k < |mon| ==> mon[k] < 0x80
  {
    NamesInBytes(0, m);
    SpellsLetters(mon, m);
    hide MonthName, MonthBytes, EitherCase, IsSpace;
    MonthFound(0, m - 1);
    SameIndex(mon, MonthName(m - 1), 0);
  }

  lemma SpellsLetters(mon: bytes, m: int)
    requires 1 <= m <= 12 && SpellsMonth(mon, m)
    ensures SameIgnoringCase(mon, MonthBytes(m)) && Solid(mon) && forall k :: 0 <= k < |mon| ==> mon[k] < 0x80
  {
  }

  lemma {:induction false} SameIndex(a: chars, b: chars, i: nat)
    requires i <= 12 && SameIgnoringCase(a, b)
    ensures MonthIndex(a, i) == MonthIndex(b, i)
    decreases 12 - i
  {
    hide MonthName, LowerChar;
    if i < 12 { SameIndex(a, b, i + 1); }
  }

  /** A date of four year digits behind any name is read as its instant, unless a part is out of range. */
  lemma TextIsRead(name: bytes, d: nat, mon: bytes, m: int, y: nat, hh: nat, mm: nat, ss: nat)
    requires Solid(name) && COMMA !in name && forall k :: 0 <= k < |name| ==> name[k] < 0x80
    requires d < 100 && y <= 9999 && hh < 100 && mm < 100 && ss < 100 && 1 <= m <= 12 && SpellsMonth(mon, m)
    ensures Parse(name + [0x2C, 0x20] + TwoBytes(d) + [0x20] + mon + [0x20] + TwoBytes(y / 100) + TwoBytes(y % 100)
                  + [0x20] + TwoBytes(hh) + [0x3A] + TwoBytes(mm) + [0x3A] + TwoBytes(ss) + [0x20, 0x47, 0x4D, 0x54])
            == if d == 0 || d > 31 || hh > 23 || mm > 59 || ss > 60 then Rejected
               else Instant(86_400 * DaysFromCivil(Date(y, m, d)).value + 3600 * hh + 60 * mm + ss)
  {
    hide Parse, ParseFields, Finish, TwoBytes, Padded, YearText, SpellsMonth, Solid, ParseChars, DaysFromCivil, Clock,
      MonthIndex, Tail;
    var year, clock := YearText(y), Clock(hh, mm, ss);
    var text := name + ([COMMA] + ([SPACE] + Tail(Padded(d, 2), mon, year, clock)));
    TextInBytes(name, d, mon, y, hh, mm, ss);
    MonthInAnyCase(mon, m);
    ParseTwo(d);
    ParseYear(y);
    ClockSplits(hh, mm, ss);
    LayoutSplits(name, Padded(d, 2), mon, year, clock);
    FieldsRead(mon, Date(y, m, d), hh, mm, ss);
    LayoutIsAscii(name, d, mon, y, hh, mm, ss);
    AsciiParses(text);
    FinishIs(Date(y, m, d), hh, mm, ss);
  }

  lemma TextInBytes(name: bytes, d: nat, mon: bytes, y: nat, hh: nat, mm: nat, ss: nat)
    requires d < 100 && y <= 9999 && hh < 100 && mm < 100 && ss < 100
    ensures name + [0x2C, 0x20] + TwoBytes(d) + [0x20] + mon + [0x20] + TwoBytes(y / 100) + TwoBytes(y % 100)
            + [0x20] + TwoBytes(hh) + [0x3A] + TwoBytes(mm) + [0x3A] + TwoBytes(ss) + [0x20, 0x47, 0x4D, 0x54]
            == name + ([COMMA] + ([SPACE] + Tail(Padded(d, 2), mon, YearText(y), Clock(hh, mm, ss))))
  {
    hide TwoBytes, Padded, YearText;
    TwoDigits(d);
    TwoDigits(hh);
    TwoDigits(mm);
    TwoDigits(ss);
    YearInBytes(y);
  }

  predicate IsAscii(s: bytes) { forall k :: 0 <= k < |s| ==> s[k] < 0x80 }

  lemma LayoutIsAscii(name: bytes, d: nat, mon: bytes, y: nat, hh: nat, mm: nat, ss: nat)
    requires IsAscii(name) && IsAscii(mon) && d < 100 && y <= 9999 && hh < 100 && mm < 100 && ss < 100
    ensures IsAscii(name + ([COMMA] + ([SPACE] + Tail(Padded(d, 2), mon, YearText(y), Clock(hh, mm, ss)))))
  {
    hide Padded, YearText;
    YearIsAscii(y);
    assert IsAscii(Clock(hh, mm, ss));
    assert IsAscii(Tail(Padded(d, 2), mon, YearText(y), Clock(hh, mm, ss)));
  }

  lemma AsciiParses(text: bytes)
    requires IsAscii(text)
    ensures Parse(text) == ParseChars(text)
  {
    hide ParseChars;
    Utf8.DecodeAscii(text);
    var decoded: chars := Utf8.Decode(text).value;
    assert decoded == text;
  }

  lemma FinishIs(date: Date, hh: nat, mm: nat, ss: nat)
    requires 0 <= date.y <= 9999 && 1 <= date.m <= 12 && date.d >= 0
    ensures Finish(date, hh, mm, ss)
            == if date.d == 0 || date.d > 31 || hh > 23 || mm > 59 || ss > 60 then Rejected
               else Instant(86_400 * DaysFromCivil(date).value + 3600 * hh + 60 * mm + ss)
  {
    if 0 < date.d <= 31 { DaysInRange(date); }
  }

  lemma DaysInRange(date: Date)
    requires 0 <= date.y <= 9999 && DaysFromCivil(date).Some?
    ensures -1_000_000 < DaysFromCivil(date).value < 4_000_000
  {
    var y := if date.m <= 2 then date.y - 1 else date.y;
    EraIsFloor(y);
    assert -1 <= y / 400 <= 24 && 0 <= y - 400 * (y / 400) < 400;
  }
}
