/** HTTP dates as text (rust/http/http_date.rs): the IMF-fixdate of section 7.1.1.1 of RFC 7231, written into a
    fixed-width buffer or, past year 9999, by the formatting fallback. */
module HttpDate {
  import opened Bytes
  import opened Decimal
  import opened Calendar

  datatype Parts = Parts(date: Date, hh: int, mm: int, ss: int, wd: int)

  /** `http_date_parts`. */
  function PartsOf(secs: int): Parts {
    var days, rem := secs / 86_400, secs % 86_400;
    Parts(CivilFromDays(days), rem / 3600, rem % 3600 / 60, rem % 60, (days % 7 + 3) % 7)
  }

  ghost predicate ValidParts(p: Parts) {
    && ValidDate(p.date)
    && 0 <= p.hh < 24 && 0 <= p.mm < 60 && 0 <= p.ss < 60 && 0 <= p.wd < 7
  }

  /** The parts name the instant: a calendar date, a time of day, and the weekday, which is Thursday at the epoch
      and moves on with every day. */
  lemma PartsAreRight(secs: int)
    ensures var p := PartsOf(secs);
      && ValidParts(p)
      && DaysFromCivil(p.date) == Some(secs / 86_400)
      && secs == 86_400 * (secs / 86_400) + 3600 * p.hh + 60 * p.mm + p.ss
      && PartsOf(secs + 86_400).wd == (p.wd + 1) % 7 && PartsOf(0).wd == 3
  {
    hide CivilFromDays, DaysFromCivil, ValidDate;
    CivilThenDays(secs / 86_400);
  }

  function DayName(wd: int): (r: bytes)
    requires 0 <= wd < 7
    ensures |r| == 3
  {
    Ascii(["Mon", "Tue", "Wed", "Thu", "Fri", "Sat", "Sun"][wd])
  }

  function MonthName(i: int): (r: bytes)
    requires 0 <= i < 12
    ensures |r| == 3
  {
    Ascii(["Jan", "Feb", "Mar", "Apr", "May", "Jun", "Jul", "Aug", "Sep", "Oct", "Nov", "Dec"][i])
  }

  const GMT: bytes := [0x47, 0x4D, 0x54]

  function Zeros(n: nat): (r: bytes)
    ensures |r| == n && AllDigits(r)
  {
    if n == 0 then [] else [ZERO] + Zeros(n - 1)
  }

  function ZeroPad(s: bytes, width: nat): (r: bytes)
    ensures |r| >= |s| && |r| >= width
  {
    if |s| >= width then s else Zeros(width - |s|) + s
  }

  /** `{:04}` of an i64: the sign counts toward the width. */
  function YearText(y: int): (r: bytes)
    ensures |r| >= 4
  {
    if y < 0 then [MINUS] + ZeroPad(Digits(-y), 3) else ZeroPad(Digits(y), 4)
  }

  function Front(p: Parts, year: bytes): (r: bytes)
    requires ValidParts(p)
    ensures |r| == 13 + |year|
  {
    DayName(p.wd) + [COMMA] + [SPACE] + Padded(p.date.d, 2) + [SPACE] + MonthName(p.date.m - 1) + [SPACE]
    + year + [SPACE]
  }

  function Text(p: Parts, year: bytes): (r: bytes)
    requires ValidParts(p)
    ensures |r| == 25 + |year|
  {
    Front(p, year) + Padded(p.hh, 2) + [COLON] + Padded(p.mm, 2) + [COLON] + Padded(p.ss, 2) + [SPACE] + GMT
  }

  // ---- the writers ----

  /** `write_padded`. */
  method WritePadded(out: array<byte>, at: nat, value: nat, width: nat)
    requires at + width <= out.Length
    modifies out
    ensures out[..] == Splice(old(out[..]), at, Padded(value, width))
  {
    hide Padded, Splice;
    ghost var orig: bytes, tail: bytes := out[..], [];
    var v := value;
    assert Padded(value, width) + [] == Padded(value, width);
    SpliceNothing(orig, at + width);
    for i := width downto 0
      invariant 0 <= v
      invariant |tail| == width - i && Padded(value, width) == Padded(v, i) + tail
      invariant out[..] == Splice(orig, at + i, tail)
    {
      var digit: byte := ZERO + v % 10;
      PaddedStep(v, i + 1);
      Assoc(Padded(v / 10, i), [digit], tail);
      SpliceInFront(orig, at + i, digit, tail);
      out[at + i] := digit;
      tail := [digit] + tail;
      v := v / 10;
    }
    NothingPadded(v);
    assert [] + tail == tail;
  }

  lemma PaddedStep(n: nat, width: nat)
    requires width > 0
    ensures Padded(n, width) == Padded(n / 10, width - 1) + [ZERO + n % 10]
  {
  }

  lemma NothingPadded(n: nat)
    ensures Padded(n, 0) == []
  {
  }

  lemma SpliceInFront(s: bytes, at: nat, c: byte, t: bytes)
    requires at + 1 + |t| <= |s|
    ensures Splice(s, at + 1, t)[at := c] == Splice(s, at, [c] + t)
  {
  }

  datatype WriteResult = Written(n: nat) | BufferTooSmall | YearOutOfRange

  /** `write_http_date_parts`: 29 bytes, written left to right with a moving cursor. */
  method WriteParts(p: Parts, out: array<byte>) returns (r: WriteResult)
    requires ValidParts(p)
    modifies out
    ensures out.Length < 29 ==> r == BufferTooSmall
    ensures out.Length >= 29 ==> r == if 0 <= p.date.y <= 9999 then Written(29) else YearOutOfRange
    ensures r.Written? ==> out[..] == Splice(old(out[..]), 0, Text(p, Padded(p.date.y, 4)))
    ensures !r.Written? ==> out[..] == old(out[..])
  {
    hide Splice, Padded, Front;
    if out.Length < 29 { return BufferTooSmall; }
    if !(0 <= p.date.y <= 9999) { return YearOutOfRange; }
    ghost var orig := out[..];
    ghost var done := WriteFront(p, out);
    var i := 17;
    done := WriteNumber(out, orig, done, i, p.hh, 2); i := i + 2;
    done := WriteBytes(out, orig, done, i, [COLON]); i := i + 1;
    done := WriteNumber(out, orig, done, i, p.mm, 2); i := i + 2;
    done := WriteBytes(out, orig, done, i, [COLON]); i := i + 1;
    done := WriteNumber(out, orig, done, i, p.ss, 2); i := i + 2;
    done := WriteBytes(out, orig, done, i, [SPACE]); i := i + 1;
    done := WriteBytes(out, orig, done, i, GMT); i := i + 3;
    return Written(i);
  }

  method WriteFront(p: Parts, out: array<byte>) returns (ghost done: bytes)
    requires ValidParts(p) && out.Length >= 29 && 0 <= p.date.y <= 9999
    modifies out
    ensures done == Front(p, Padded(p.date.y, 4)) && out[..] == Splice(old(out[..]), 0, done)
  {
    hide Splice, Padded, DayName, MonthName, DaysIn;
    ghost var orig := out[..];
    var i := 3;
    done := DayName(p.wd);
    Put(out, 0, DayName(p.wd));
    done := WriteBytes(out, orig, done, i, [COMMA]); i := i + 1;
    done := WriteBytes(out, orig, done, i, [SPACE]); i := i + 1;
    done := WriteNumber(out, orig, done, i, p.date.d, 2); i := i + 2;
    done := WriteBytes(out, orig, done, i, [SPACE]); i := i + 1;
    done := WriteBytes(out, orig, done, i, MonthName(p.date.m - 1)); i := i + 3;
    done := WriteBytes(out, orig, done, i, [SPACE]); i := i + 1;
    done := WriteNumber(out, orig, done, i, p.date.y, 4); i := i + 4;
    done := WriteBytes(out, orig, done, i, [SPACE]); i := i + 1;
  }

  method WriteBytes(out: array<byte>, ghost orig: bytes, ghost done: bytes, at: nat, t: bytes)
    returns (ghost now: bytes)
    requires |orig| == out.Length && at == |done| && at + |t| <= |orig| && out[..] == Splice(orig, 0, done)
    modifies out
    ensures now == done + t && out[..] == Splice(orig, 0, now)
  {
    Extend(out, orig, 0, done, at, t);
    now := done + t;
  }

  method WriteNumber(out: array<byte>, ghost orig: bytes, ghost done: bytes, at: nat, value: nat, width: nat)
    returns (ghost now: bytes)
    requires |orig| == out.Length && at == |done| && at + width <= |orig| && out[..] == Splice(orig, 0, done)
    modifies out
    ensures now == done + Padded(value, width) && out[..] == Splice(orig, 0, now)
  {
    WritePadded(out, at, value, width);
    SpliceSplice(orig, 0, done, Padded(value, width));
    now := done + Padded(value, width);
  }

  function DateText(secs: int): bytes {
    PartsAreRight(secs);
    Text(PartsOf(secs), YearText(PartsOf(secs).date.y))
  }

  lemma {:induction false} PaddedIsZeroPad(n: nat, width: nat)
    requires width > 0 && n < Pow10(width)
    ensures Padded(n, width) == ZeroPad(Digits(n), width)
  {
    if n < 10 {
      PaddedZero(width - 1);
      assert n / 10 == 0;
    } else {
      assert width > 1;
      PaddedIsZeroPad(n / 10, width - 1);
    }
  }

  lemma {:induction false} PaddedZero(width: nat)
    ensures Padded(0, width) == Zeros(width)
  {
    if width > 0 {
      PaddedZero(width - 1);
      ZerosTurn(width - 1);
    }
  }

  lemma {:induction false} ZerosTurn(n: nat)
    ensures Zeros(n) + [ZERO] == [ZERO] + Zeros(n)
  {
    if n > 0 { ZerosTurn(n - 1); }
  }

  /** `http_date_from_secs`: the fixed-width writer and the fallback print the same text. */
  method HttpDateFromSecs(secs: int) returns (text: bytes)
    ensures text == DateText(secs)
  {
    hide PartsOf, Splice, Padded;
    PartsAreRight(secs);
    var p := PartsOf(secs);
    var buf := new byte[32](i => 0);
    var r := WriteParts(p, buf);
    if r.Written? {
      FourDigitYear(p.date.y);
      text := buf[..r.n];
    } else {
      text := Text(p, YearText(p.date.y));
    }
  }

  lemma FourDigitYear(y: int)
    requires 0 <= y <= 9999
    ensures YearText(y) == Padded(y, 4)
  {
    assert Pow10(4) == 10 * Pow10(3) && Pow10(3) == 10 * Pow10(2) && Pow10(2) == 10 * Pow10(1);
    PaddedIsZeroPad(y, 4);
  }

  /** `http_date_into_slice`. */
  method HttpDateInto(secs: int, out: array<byte>) returns (r: WriteResult)
    modifies out
    ensures out.Length < 29 ==> r == BufferTooSmall
    ensures out.Length >= 29 ==> r == if 0 <= PartsOf(secs).date.y <= 9999 then Written(29) else YearOutOfRange
    ensures r.Written? ==> |DateText(secs)| == 29 && out[..] == Splice(old(out[..]), 0, DateText(secs))
    ensures !r.Written? ==> out[..] == old(out[..])
  {
    hide PartsOf, Splice, Padded;
    PartsAreRight(secs);
    var p := PartsOf(secs);
    if 0 <= p.date.y <= 9999 { FourDigitYear(p.date.y); }
    r := WriteParts(p, out);
  }

  lemma ExampleParts()
    ensures PartsOf(784_111_777) == Parts(Date(1994, 11, 6), 8, 49, 37, 6)
  {
    hide CivilFromDays;
    assert 784_111_777 / 86_400 == 9075 && 784_111_777 % 86_400 == 31_777;
    ExampleDate();
  }

  lemma ExampleDate()
    ensures CivilFromDays(9075) == Date(1994, 11, 6)
  {
    hide TruncDiv, YearOfEra;
    EraIsFloor(728_543);
    assert 728_543 / 146_097 == 4;
    ExampleYear();
  }

  lemma ExampleYear()
    ensures YearOfEra(144_155) == 394
  {
  }

  lemma ExampleDigits()
    ensures Padded(6, 2) == [0x30, 0x36] && Padded(8, 2) == [0x30, 0x38]
    ensures Padded(49, 2) == [0x34, 0x39] && Padded(37, 2) == [0x33, 0x37]
    ensures Padded(1994, 4) == [0x31, 0x39, 0x39, 0x34]
  {
    assert Padded(19, 2) == [0x31, 0x39];
  }

  lemma ExampleNames()
    ensures DayName(6) == [0x53, 0x75, 0x6E] && MonthName(10) == [0x4E, 0x6F, 0x76]
  {
  }

  /** The example of section 7.1.1.1 of RFC 7231: Sun, 06 Nov 1994 08:49:37 GMT. */
  lemma ImfFixdateExample()
    ensures DateText(784_111_777) == [0x53, 0x75, 0x6E, 0x2C, 0x20, 0x30, 0x36, 0x20, 0x4E, 0x6F, 0x76, 0x20,
      0x31, 0x39, 0x39, 0x34, 0x20, 0x30, 0x38, 0x3A, 0x34, 0x39, 0x3A, 0x33, 0x37, 0x20, 0x47, 0x4D, 0x54]
  {
    hide PartsOf, Padded, DayName, MonthName, YearText;
    PartsAreRight(784_111_777);
    ExampleParts();
    ExampleDigits();
    ExampleNames();
    FourDigitYear(1994);
  }

  // ---- the text in bytes ----

  /** Monday is 0. */
  function WeekdayBytes(wd: int): bytes {
    if wd == 0 then [0x4D, 0x6F, 0x6E] else if wd == 1 then [0x54, 0x75, 0x65]
    else if wd == 2 then [0x57, 0x65, 0x64] else if wd == 3 then [0x54, 0x68, 0x75]
    else if wd == 4 then [0x46, 0x72, 0x69] else if wd == 5 then [0x53, 0x61, 0x74]
    else [0x53, 0x75, 0x6E]
  }

  /** January is 1. */
  function MonthBytes(m: int): (r: bytes)
    ensures |r| == 3
  {
    if m == 1 then [0x4A, 0x61, 0x6E] else if m == 2 then [0x46, 0x65, 0x62]
    else if m == 3 then [0x4D, 0x61, 0x72] else if m == 4 then [0x41, 0x70, 0x72]
    else if m == 5 then [0x4D, 0x61, 0x79] else if m == 6 then [0x4A, 0x75, 0x6E]
    else if m == 7 then [0x4A, 0x75, 0x6C] else if m == 8 then [0x41, 0x75, 0x67]
    else if m == 9 then [0x53, 0x65, 0x70] else if m == 10 then [0x4F, 0x63, 0x74]
    else if m == 11 then [0x4E, 0x6F, 0x76] else [0x44, 0x65, 0x63]
  }

  function TwoBytes(n: int): bytes
    requires 0 <= n < 100
  {
    [0x30 + n / 10, 0x30 + n % 10]
  }

  lemma NamesInBytes(wd: int, m: int)
    requires 0 <= wd < 7 && 1 <= m <= 12
    ensures DayName(wd) == WeekdayBytes(wd) && MonthName(m - 1) == MonthBytes(m)
  {
  }

  lemma TwoDigits(n: int)
    requires 0 <= n < 100
    ensures Padded(n, 2) == TwoBytes(n)
  {
    assert Padded(n / 10, 1) == [ZERO + n / 10];
  }

  /** The whole text, for every instant: weekday, day, month, year, hour, minute and second, each in its place. */
  lemma DateTextIs(secs: int)
    ensures var p := PartsOf(secs);
      && ValidParts(p)
      && DateText(secs) == WeekdayBytes(p.wd) + [0x2C, 0x20] + TwoBytes(p.date.d) + [0x20] + MonthBytes(p.date.m)
                           + [0x20] + YearText(p.date.y) + [0x20] + TwoBytes(p.hh) + [0x3A] + TwoBytes(p.mm) + [0x3A]
                           + TwoBytes(p.ss) + [0x20, 0x47, 0x4D, 0x54]
  {
    hide PartsOf, DayName, MonthName, Padded, YearText, WeekdayBytes, MonthBytes, TwoBytes;
    PartsAreRight(secs);
    var p := PartsOf(secs);
    NamesInBytes(p.wd, p.date.m);
    TwoDigits(p.date.d);
    TwoDigits(p.hh);
    TwoDigits(p.mm);
    TwoDigits(p.ss);
  }

  /** A year of up to four digits is padded to four, and one of up to three to three behind a minus sign. */
  lemma YearInBytes(y: int)
    ensures 0 <= y <= 9999 ==> YearText(y) == TwoBytes(y / 100) + TwoBytes(y % 100)
    ensures -999 <= y < 0 ==> YearText(y) == [0x2D, 0x30 + -y / 100] + TwoBytes(-y % 100)
  {
    hide Digits, ZeroPad, TwoBytes;
    if 0 <= y <= 9999 {
      FourDigitYear(y);
      FourInBytes(y);
    } else if -999 <= y < 0 {
      assert Pow10(3) == 10 * Pow10(2) && Pow10(2) == 10 * Pow10(1);
      PaddedIsZeroPad(-y, 3);
      ThreeInBytes(-y);
    }
  }

  lemma FourInBytes(n: int)
    requires 0 <= n <= 9999
    ensures Padded(n, 4) == TwoBytes(n / 100) + TwoBytes(n % 100)
  {
    TwoDigits(n / 100);
    assert n / 10 / 10 == n / 100 && Padded(n / 10, 3) == Padded(n / 100, 2) + [ZERO + n / 10 % 10];
    assert n % 100 / 10 == n / 10 % 10 && n % 100 % 10 == n % 10;
  }

  lemma ThreeInBytes(n: int)
    requires 0 <= n <= 999
    ensures Padded(n, 3) == [0x30 + n / 100] + TwoBytes(n % 100)
  {
    assert n / 10 / 10 == n / 100 && Padded(n / 100, 1) == [ZERO + n / 100];
    assert Padded(n / 10, 2) == Padded(n / 100, 1) + [ZERO + n / 10 % 10];
    assert n % 100 / 10 == n / 10 % 10 && n % 100 % 10 == n % 10;
  }
}
