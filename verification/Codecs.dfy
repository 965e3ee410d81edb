/** Texts that must be read back: partition names, object keys, ISO dates and timestamps, UUIDs and
    page cursors (event_service.py, event_store.py, s3_event_store.py, event_router.py). */
module Codecs {
  import opened Common
  import opened Calendar

  // ---------------------------------------------------------------- fixed-width numerals

  type Base = b: int | b == 10 || b == 16 witness 10

  function Times(n: nat, b: Base): nat { if b == 10 then 10 * n else 16 * n }

  function Div(n: nat, b: Base): nat { if b == 10 then n / 10 else n / 16 }

  function Mod(n: nat, b: Base): (r: nat)
    ensures r < b
  {
    if b == 10 then n % 10 else n % 16
  }

  function Pow(b: Base, e: nat): nat {
    if e == 0 then 1 else Times(Pow(b, e - 1), b)
  }

  function DigitChar(d: int): char
    requires 0 <= d < 16
  {
    if d < 10 then '0' + d as char else 'a' + (d - 10) as char
  }

  /** Value of a digit character; upper case hexadecimal is accepted too. */
  function DigitValue(c: char): int {
    if '0' <= c <= '9' then c as int - '0' as int
    else if 'a' <= c <= 'f' then c as int - 'a' as int + 10
    else if 'A' <= c <= 'F' then c as int - 'A' as int + 10
    else 16
  }

  function Numeral(n: nat, w: nat, b: Base): (s: string)
    ensures |s| == w
  {
    if w == 0 then "" else Numeral(Div(n, b), w - 1, b) + [DigitChar(Mod(n, b))]
  }

  function ReadNumeral(s: string, b: Base): Option<nat> {
    if s == "" then Some(0)
    else
      var d := DigitValue(s[|s| - 1]);
      var high := ReadNumeral(s[..|s| - 1], b);
      if d < b && high.Some? then Some(Times(high.value, b) + d) else None
  }

  predicate AllDigits(s: string, b: Base) {
    forall i :: 0 <= i < |s| ==> DigitValue(s[i]) < b
  }

  lemma {:induction false} NumeralRoundTrip(n: nat, w: nat, b: Base)
    requires n < Pow(b, w)
    ensures ReadNumeral(Numeral(n, w, b), b) == Some(n) && AllDigits(Numeral(n, w, b), b)
  {
    if w > 0 {
      NumeralRoundTrip(Div(n, b), w - 1, b);
      LastDigit(Div(n, b), Numeral(Div(n, b), w - 1, b), Mod(n, b), b);
    }
  }

  lemma LastDigit(high: nat, s: string, d: int, b: Base)
    requires ReadNumeral(s, b) == Some(high) && AllDigits(s, b) && 0 <= d < b
    ensures ReadNumeral(s + [DigitChar(d)], b) == Some(Times(high, b) + d) && AllDigits(s + [DigitChar(d)], b)
  {
    var t := s + [DigitChar(d)];
    assert t[..|t| - 1] == s;
    DigitRoundTrip(d);
  }

  lemma DigitRoundTrip(d: int)
    requires 0 <= d < 16
    ensures DigitValue(DigitChar(d)) == d
  {
  }

  /** A decimal text that reads as a number is its numeral. */
  lemma {:induction false} NumeralOfRead(s: string)
    ensures ReadNumeral(s, 10).Some? ==>
      var n := ReadNumeral(s, 10).value; n < Pow(10, |s|) && Numeral(n, |s|, 10) == s
  {
    if s != "" {
      NumeralOfRead(s[..|s| - 1]);
      assert s == s[..|s| - 1] + [s[|s| - 1]];
    }
  }

  lemma DecimalWidths()
    ensures Pow(10, 2) == 100 && Pow(10, 4) == 10000 && Pow(10, 6) == 1000000
  {
    assert Pow(10, 2) == 10 * Pow(10, 1) && Pow(10, 4) == 100 * Pow(10, 2) && Pow(10, 6) == 100 * Pow(10, 4);
  }

  // ---------------------------------------------------------------- order of texts

  /** Comparison of texts by character. */
  predicate TextLess(s: string, t: string) {
    t != "" && (s == "" || s[0] < t[0] || (s[0] == t[0] && TextLess(s[1..], t[1..])))
  }

  lemma {:induction false} TextLessAppend(a: string, b: string, c: string, d: string)
    requires |a| == |c|
    ensures TextLess(a + b, c + d) <==> TextLess(a, c) || (a == c && TextLess(b, d))
  {
    if a == "" {
      assert a + b == b && c + d == d;
    } else {
      assert (a + b)[1..] == a[1..] + b && (c + d)[1..] == c[1..] + d;
      assert a == [a[0]] + a[1..] && c == [c[0]] + c[1..];
      TextLessAppend(a[1..], b, c[1..], d);
    }
  }

  lemma {:induction false} TextLessIrreflexive(s: string)
    ensures !TextLess(s, s)
  {
    if s != "" { TextLessIrreflexive(s[1..]); }
  }

  lemma NumeralInjective(n: nat, m: nat, w: nat, b: Base)
    requires n < Pow(b, w) && m < Pow(b, w)
    ensures Numeral(n, w, b) == Numeral(m, w, b) <==> n == m
  {
    NumeralRoundTrip(n, w, b);
    NumeralRoundTrip(m, w, b);
  }

  /** Numerals of one width are ordered as their numbers. */
  lemma {:induction false} NumeralOrder(n: nat, m: nat, w: nat, b: Base)
    requires n < Pow(b, w) && m < Pow(b, w)
    ensures TextLess(Numeral(n, w, b), Numeral(m, w, b)) <==> n < m
  {
    if w > 0 {
      NumeralOrder(Div(n, b), Div(m, b), w - 1, b);
      NumeralInjective(Div(n, b), Div(m, b), w - 1, b);
      TextLessAppend(Numeral(Div(n, b), w - 1, b), [DigitChar(Mod(n, b))], Numeral(Div(m, b), w - 1, b),
                     [DigitChar(Mod(m, b))]);
      DigitOrder(Mod(n, b), Mod(m, b));
      HighThenLow(n, m, b);
    }
  }

  lemma HighThenLow(n: nat, m: nat, b: Base)
    ensures n < m <==> Div(n, b) < Div(m, b) || (Div(n, b) == Div(m, b) && Mod(n, b) < Mod(m, b))
  {
  }

  lemma DigitOrder(d: int, e: int)
    requires 0 <= d < 16 && 0 <= e < 16
    ensures TextLess([DigitChar(d)], [DigitChar(e)]) <==> d < e
  {
    assert [DigitChar(d)][1..] == "" && [DigitChar(e)][1..] == "";
  }

  // ---------------------------------------------------------------- partition names

  /** strftime("%Y%m%d") of a four-digit year. */
  function Stamp(day: Day): string
    requires FourDigitYear(day)
  {
    var a := DateOf(day);
    Numeral(a.y, 4, 10) + Numeral(a.m, 2, 10) + Numeral(a.d, 2, 10)
  }

  /** strptime(s, "%Y%m%d").date() on eight characters. */
  function ReadStamp(s: string): Option<Day> {
    if |s| != 8 then None
    else
      var y, m, d := ReadNumeral(s[..4], 10), ReadNumeral(s[4..6], 10), ReadNumeral(s[6..], 10);
      ReadDate(y, m, d)
  }

  function ReadDate(y: Option<nat>, m: Option<nat>, d: Option<nat>): Option<Day> {
    if y.Some? && m.Some? && d.Some? && Valid(Date(y.value, m.value, d.value))
    then Some(Ordinal(Date(y.value, m.value, d.value)))
    else None
  }

  /** Exactly the eight digits of a day's year, month and day are read, as that day. */
  lemma ReadStampExactly(s: string, day: Day)
    ensures ReadStamp(s) == Some(day) <==>
      IsDay(day) && var a := DateOf(day); s == Numeral(a.y, 4, 10) + Numeral(a.m, 2, 10) + Numeral(a.d, 2, 10)
  {
    if ReadStamp(s) == Some(day) { StampIsPrinted(s, day); }
    if IsDay(day) {
      var a := DateOf(day);
      StampIsRead(Numeral(a.y, 4, 10) + Numeral(a.m, 2, 10) + Numeral(a.d, 2, 10), day);
    }
  }

  lemma StampIsPrinted(s: string, day: Day)
    requires ReadStamp(s) == Some(day)
    ensures IsDay(day) && var a := DateOf(day); s == Numeral(a.y, 4, 10) + Numeral(a.m, 2, 10) + Numeral(a.d, 2, 10)
  {
    NumeralOfRead(s[..4]);
    NumeralOfRead(s[4..6]);
    NumeralOfRead(s[6..]);
    DecimalWidths();
    assert s == s[..4] + s[4..6] + s[6..];
    ReadDateIsPrinted(ReadNumeral(s[..4], 10).value, ReadNumeral(s[4..6], 10).value, ReadNumeral(s[6..], 10).value,
                      day);
  }

  lemma ReadDateIsPrinted(y: nat, m: nat, d: nat, day: Day)
    requires ReadDate(Some(y), Some(m), Some(d)) == Some(day) && y < 10000
    ensures IsDay(day) && DateOf(day) == Date(y, m, d)
  {
    DateOfOrdinal(Date(y, m, d));
  }

  lemma StampIsRead(s: string, day: Day)
    requires IsDay(day)
    requires var a := DateOf(day); s == Numeral(a.y, 4, 10) + Numeral(a.m, 2, 10) + Numeral(a.d, 2, 10)
    ensures ReadStamp(s) == Some(day)
  {
    var a := DateOf(day);
    FieldsOfDay(day);
    assert s[..4] == Numeral(a.y, 4, 10) && s[4..6] == Numeral(a.m, 2, 10) && s[6..] == Numeral(a.d, 2, 10);
  }

  function PartitionName(table: string, day: Day): string
    requires FourDigitYear(day)
  {
    table + "_" + Stamp(day)
  }

  /** name.rsplit("_", 1)[-1]. */
  function AfterLast(s: string, c: char): string {
    if s == "" || s[|s| - 1] == c then "" else AfterLast(s[..|s| - 1], c) + [s[|s| - 1]]
  }

  function ReadPartitionName(name: string): Option<Day> { ReadStamp(AfterLast(name, '_')) }

  lemma {:induction false} AfterLastOf(a: string, c: char, b: string)
    requires c !in b
    ensures AfterLast(a + [c] + b, c) == b
  {
    var s := a + [c] + b;
    if b != "" {
      assert s[..|s| - 1] == a + [c] + b[..|b| - 1];
      assert b[|b| - 1] in b;
      AfterLastOf(a, c, b[..|b| - 1]);
    }
  }

  lemma FieldsOfDay(day: Day)
    requires IsDay(day)
    ensures var a := DateOf(day);
      && ReadNumeral(Numeral(a.y, 4, 10), 10) == Some(a.y) && AllDigits(Numeral(a.y, 4, 10), 10)
      && ReadNumeral(Numeral(a.m, 2, 10), 10) == Some(a.m) && AllDigits(Numeral(a.m, 2, 10), 10)
      && ReadNumeral(Numeral(a.d, 2, 10), 10) == Some(a.d) && AllDigits(Numeral(a.d, 2, 10), 10)
      && ReadDate(Some(a.y), Some(a.m), Some(a.d)) == Some(day)
  {
    var a := DateOf(day);
    DecimalWidths();
    NumeralRoundTrip(a.y, 4, 10);
    NumeralRoundTrip(a.m, 2, 10);
    NumeralRoundTrip(a.d, 2, 10);
    OrdinalOfDateOf(day);
  }

  /** Parsing a partition's name gives back its day, for every day of a four-digit year and every table
      name. */
  lemma PartitionNameRoundTrip(table: string, day: Day)
    requires FourDigitYear(day)
    ensures ReadPartitionName(PartitionName(table, day)) == Some(day)
  {
    FieldsOfDay(day);
    var a := DateOf(day);
    var ys, ms, ds := Numeral(a.y, 4, 10), Numeral(a.m, 2, 10), Numeral(a.d, 2, 10);
    var s := Stamp(day);
    assert s[..4] == ys && s[4..6] == ms && s[6..] == ds;
    forall i | 0 <= i < |s| ensures s[i] != '_' {
      assert s[i] == if i < 4 then ys[i] else if i < 6 then ms[i - 4] else ds[i - 6];
    }
    AfterLastOf(table, '_', s);
    assert PartitionName(table, day) == table + ['_'] + s;
  }

  /** The DEFAULT partition's name is never taken for a day. */
  lemma DefaultNameIsNoDay(table: string)
    ensures ReadPartitionName(table + "_default") == None
  {
    AfterLastOf(table, '_', "default");
    assert table + "_default" == table + ['_'] + "default";
  }

  // ---------------------------------------------------------------- ISO dates and UUIDs

  /** date.isoformat: the year is padded to four digits. */
  function IsoDate(day: Day): (s: string)
    requires IsDay(day)
    ensures |s| == 10
  {
    var a := DateOf(day);
    Numeral(a.y, 4, 10) + "-" + Numeral(a.m, 2, 10) + "-" + Numeral(a.d, 2, 10)
  }

  function ReadIsoDate(s: string): Option<Day> {
    if |s| != 10 || s[4] != '-' || s[7] != '-' then None
    else ReadDate(ReadNumeral(s[..4], 10), ReadNumeral(s[5..7], 10), ReadNumeral(s[8..], 10))
  }

  lemma IsoDateRoundTrip(day: Day)
    requires IsDay(day)
    ensures ReadIsoDate(IsoDate(day)) == Some(day)
    ensures '/' !in IsoDate(day) && '|' !in IsoDate(day)
  {
    FieldsOfDay(day);
    var a := DateOf(day);
    DateLayout(Numeral(a.y, 4, 10), Numeral(a.m, 2, 10), Numeral(a.d, 2, 10), IsoDate(day));
  }

  /** Exactly the texts that are printed for a day are read, as that day. */
  lemma ReadIsoDateExactly(s: string, day: Day)
    ensures ReadIsoDate(s) == Some(day) <==> IsDay(day) && s == IsoDate(day)
  {
    if IsDay(day) { IsoDateRoundTrip(day); }
    if ReadIsoDate(s) == Some(day) { IsoDateIsPrinted(s, day); }
  }

  lemma IsoDateIsPrinted(s: string, day: Day)
    requires ReadIsoDate(s) == Some(day)
    ensures IsDay(day) && s == IsoDate(day)
  {
    NumeralOfRead(s[..4]);
    NumeralOfRead(s[5..7]);
    NumeralOfRead(s[8..]);
    DecimalWidths();
    assert s == s[..4] + "-" + s[5..7] + "-" + s[8..];
    ReadDateIsPrinted(ReadNumeral(s[..4], 10).value, ReadNumeral(s[5..7], 10).value, ReadNumeral(s[8..], 10).value,
                      day);
  }

  lemma DateLayout(y: string, m: string, d: string, s: string)
    requires |y| == 4 && |m| == 2 && |d| == 2 && s == y + "-" + m + "-" + d
    requires AllDigits(y, 10) && AllDigits(m, 10) && AllDigits(d, 10)
    ensures |s| == 10 && s[..4] == y && s[4] == '-' && s[5..7] == m && s[7] == '-' && s[8..] == d
    ensures '/' !in s && '|' !in s
  {
  }

  /** ISO dates are ordered as their days. */
  lemma IsoDateOrder(a: Day, b: Day)
    requires IsDay(a) && IsDay(b)
    ensures TextLess(IsoDate(a), IsoDate(b)) <==> a < b
    ensures IsoDate(a) == IsoDate(b) <==> a == b
  {
    IsoTextOrder(a, b);
    DaysInOrder(a, b);
    IsoDateRoundTrip(a);
    IsoDateRoundTrip(b);
  }

  lemma DaysInOrder(a: Day, b: Day)
    requires IsDay(a) && IsDay(b)
    ensures Before(DateOf(a), DateOf(b)) <==> a < b
  {
    OrdinalOfDateOf(a);
    OrdinalOfDateOf(b);
    OrderIsOrdinal(DateOf(a), DateOf(b));
  }

  lemma IsoTextOrder(a: Day, b: Day)
    requires IsDay(a) && IsDay(b)
    ensures TextLess(IsoDate(a), IsoDate(b)) <==> Before(DateOf(a), DateOf(b))
  {
    FieldOrder(DateOf(a), DateOf(b));
    DateTextOrder(DateOf(a), DateOf(b), IsoDate(a), IsoDate(b));
  }

  function Year(a: Date): string
    requires Valid(a)
  {
    Numeral(a.y, 4, 10)
  }

  function MonthAndDay(a: Date): string
    requires Valid(a)
  {
    Numeral(a.m, 2, 10) + "-" + Numeral(a.d, 2, 10)
  }

  lemma DateTextOrder(x: Date, y: Date, date: string, other: string)
    requires Valid(x) && Valid(y)
    requires date == Year(x) + "-" + Numeral(x.m, 2, 10) + "-" + Numeral(x.d, 2, 10)
    requires other == Year(y) + "-" + Numeral(y.m, 2, 10) + "-" + Numeral(y.d, 2, 10)
    ensures TextLess(date, other) <==>
      TextLess(Year(x), Year(y)) || (Year(x) == Year(y) && TextLess(MonthAndDay(x), MonthAndDay(y)))
  {
    Grouped(Year(x), "-", Numeral(x.m, 2, 10), "-", Numeral(x.d, 2, 10));
    Grouped(Year(y), "-", Numeral(y.m, 2, 10), "-", Numeral(y.d, 2, 10));
    SeparatedOrder(Year(x), '-', MonthAndDay(x), Year(y), MonthAndDay(y));
  }

  lemma FieldOrder(x: Date, y: Date)
    requires Valid(x) && Valid(y) && x.y <= 9999 && y.y <= 9999
    ensures TextLess(Year(x), Year(y)) <==> x.y < y.y
    ensures Year(x) == Year(y) <==> x.y == y.y
    ensures TextLess(MonthAndDay(x), MonthAndDay(y)) <==> x.m < y.m || (x.m == y.m && x.d < y.d)
  {
    DecimalWidths();
    NumeralOrder(x.y, y.y, 4, 10);
    NumeralInjective(x.y, y.y, 4, 10);
    NumeralOrder(x.m, y.m, 2, 10);
    NumeralInjective(x.m, y.m, 2, 10);
    NumeralOrder(x.d, y.d, 2, 10);
    SeparatedOrder(Numeral(x.m, 2, 10), '-', Numeral(x.d, 2, 10), Numeral(y.m, 2, 10), Numeral(y.d, 2, 10));
  }

  lemma Grouped(a: string, b: string, c: string, d: string, e: string)
    ensures a + b + c + d + e == a + b + (c + d + e)
  {
  }

  lemma SeparatedOrder(a: string, c: char, s: string, x: string, t: string)
    requires |a| == |x|
    ensures TextLess(a + [c] + s, x + [c] + t) <==> TextLess(a, x) || (a == x && TextLess(s, t))
  {
    assert a + [c] + s == a + ([c] + s) && x + [c] + t == x + ([c] + t);
    TextLessAppend(a, [c] + s, x, [c] + t);
    AfterSeparator(c, s, t);
  }

  lemma AfterSeparator(c: char, s: string, t: string)
    ensures TextLess([c] + s, [c] + t) <==> TextLess(s, t)
  {
    assert ([c] + s)[1..] == s && ([c] + t)[1..] == t;
  }

  /** Ids are 128-bit numbers. */
  type Uuid = nat

  predicate IsUuid(id: Uuid) { id < Pow(16, 32) }

  lemma UuidRange(id: Uuid)
    ensures IsUuid(id) <==> id < 0x1_0000_0000_0000_0000_0000_0000_0000_0000
  {
    assert Pow(16, 4) == 0x1_0000;
    assert Pow(16, 8) == 0x1_0000 * Pow(16, 4);
    assert Pow(16, 12) == 0x1_0000 * Pow(16, 8);
    assert Pow(16, 16) == 0x1_0000 * Pow(16, 12);
    assert Pow(16, 20) == 0x1_0000 * Pow(16, 16);
    assert Pow(16, 24) == 0x1_0000 * Pow(16, 20);
    assert Pow(16, 28) == 0x1_0000 * Pow(16, 24);
    assert Pow(16, 32) == 0x1_0000 * Pow(16, 28);
  }

  /** str(uuid): 8-4-4-4-12 hexadecimal digits. */
  function UuidText(id: Uuid): (s: string)
    ensures |s| == 36
  {
    Dashed(Numeral(id, 32, 16))
  }

  function Without(s: string, c: char): string {
    if s == "" then "" else Without(s[..|s| - 1], c) + if s[|s| - 1] == c then "" else [s[|s| - 1]]
  }

  /** uuid.UUID(s): hyphens are ignored, 32 hexadecimal digits must remain. */
  function ReadUuid(s: string): Option<Uuid> {
    var h := Without(s, '-');
    if |h| != 32 then None else ReadNumeral(h, 16)
  }

  lemma {:induction false} WithoutAppend(a: string, b: string, c: char)
    ensures Without(a + b, c) == Without(a, c) + Without(b, c)
  {
    if b == "" {
      assert a + b == a;
    } else {
      assert (a + b)[..|a + b| - 1] == a + b[..|b| - 1];
      WithoutAppend(a, b[..|b| - 1], c);
    }
  }

  lemma {:induction false} WithoutNothing(s: string, c: char)
    requires c !in s
    ensures Without(s, c) == s
  {
    if s != "" {
      assert s[|s| - 1] in s;
      WithoutNothing(s[..|s| - 1], c);
      assert s == s[..|s| - 1] + [s[|s| - 1]];
    }
  }

  lemma {:induction false} WithoutDash(a: string, b: string)
    requires '-' !in a
    ensures Without(a + "-" + b, '-') == a + Without(b, '-')
  {
    WithoutAppend(a + "-", b, '-');
    WithoutAppend(a, "-", '-');
    WithoutNothing(a, '-');
    assert "-"[..0] == "";
    assert Without("-", '-') == "";
  }

  predicate PlainHex(s: string) {
    forall i :: 0 <= i < |s| ==> s[i] != '-' && s[i] != '/' && s[i] != '|' && s[i] != '.'
  }

  function Dashed(h: string): string
    requires |h| == 32
  {
    h[..8] + "-" + h[8..12] + "-" + h[12..16] + "-" + h[16..20] + "-" + h[20..]
  }

  lemma Undashed(h: string)
    requires |h| == 32 && PlainHex(h)
    ensures Without(Dashed(h), '-') == h
  {
    var p1, p2, p3, p4, p5 := h[..8], h[8..12], h[12..16], h[16..20], h[20..];
    var t4 := p4 + "-" + p5;
    var t3 := p3 + "-" + t4;
    var t2 := p2 + "-" + t3;
    assert Dashed(h) == p1 + "-" + t2;
    WithoutDash(p1, t2);
    WithoutDash(p2, t3);
    WithoutDash(p3, t4);
    WithoutDash(p4, p5);
    WithoutNothing(p5, '-');
    assert p1 + (p2 + (p3 + (p4 + p5))) == h;
  }

  lemma DigitsArePlain(h: string)
    requires AllDigits(h, 16)
    ensures PlainHex(h)
  {
    forall i | 0 <= i < |h| ensures h[i] != '-' && h[i] != '/' && h[i] != '|' && h[i] != '.' {
      assert DigitValue(h[i]) < 16;
    }
  }

  lemma UuidRoundTrip(id: Uuid)
    requires IsUuid(id)
    ensures ReadUuid(UuidText(id)) == Some(id)
    ensures forall i :: 0 <= i < 36 ==> UuidText(id)[i] != '/' && UuidText(id)[i] != '|' && UuidText(id)[i] != '.'
  {
    NumeralRoundTrip(id, 32, 16);
    var h := Numeral(id, 32, 16);
    DigitsArePlain(h);
    Undashed(h);
    UuidChars(h);
  }

  lemma UuidChars(h: string)
    requires |h| == 32 && PlainHex(h)
    ensures var s := Dashed(h);
      forall i :: 0 <= i < |s| ==> s[i] != '/' && s[i] != '|' && s[i] != '.'
  {
  }

  /** The text has its dashes at the four places, and lower-case hexadecimal digits elsewhere. */
  lemma UuidShape(id: Uuid)
    ensures forall i :: 0 <= i < 36 ==> var c := UuidText(id)[i];
      if i == 8 || i == 13 || i == 18 || i == 23 then c == '-' else '0' <= c <= '9' || 'a' <= c <= 'f'
  {
    DigitsLower(id, 32);
  }

  lemma {:induction false} DigitsLower(n: nat, w: nat)
    ensures forall i :: 0 <= i < w ==> var c := Numeral(n, w, 16)[i]; '0' <= c <= '9' || 'a' <= c <= 'f'
  {
    if w > 0 { DigitsLower(Div(n, 16), w - 1); }
  }

  lemma DashedOrder(g: string, h: string)
    requires |g| == 32 && |h| == 32
    ensures TextLess(Dashed(g), Dashed(h)) <==> TextLess(g, h)
  {
    var g4, h4 := g[16..20] + "-" + g[20..], h[16..20] + "-" + h[20..];
    var g3, h3 := g[12..16] + "-" + g4, h[12..16] + "-" + h4;
    var g2, h2 := g[8..12] + "-" + g3, h[8..12] + "-" + h3;
    assert Dashed(g) == g[..8] + "-" + g2 && Dashed(h) == h[..8] + "-" + h2;
    PieceOrder(g[16..], h[16..], 4, g4, h4, g[20..], h[20..]);
    PieceOrder(g[12..], h[12..], 4, g3, h3, g4, h4);
    PieceOrder(g[8..], h[8..], 4, g2, h2, g3, h3);
    PieceOrder(g, h, 8, g[..8] + "-" + g2, h[..8] + "-" + h2, g2, h2);
  }

  /** A dash after the first n characters does not change the order, if the rests compare as they did. */
  lemma PieceOrder(g: string, h: string, n: nat, dashedG: string, dashedH: string, restG: string, restH: string)
    requires n <= |g| == |h| && dashedG == g[..n] + "-" + restG && dashedH == h[..n] + "-" + restH
    requires TextLess(restG, restH) <==> TextLess(g[n..], h[n..])
    ensures TextLess(dashedG, dashedH) <==> TextLess(g, h)
  {
    assert g == g[..n] + g[n..] && h == h[..n] + h[n..];
    TextLessAppend(g[..n], g[n..], h[..n], h[n..]);
    SeparatedOrder(g[..n], '-', restG, h[..n], restH);
  }

  /** Ids are ordered as their texts. */
  lemma UuidOrder(id: Uuid, other: Uuid)
    requires IsUuid(id) && IsUuid(other)
    ensures TextLess(UuidText(id), UuidText(other)) <==> id < other
    ensures UuidText(id) == UuidText(other) <==> id == other
  {
    NumeralOrder(id, other, 32, 16);
    DashedOrder(Numeral(id, 32, 16), Numeral(other, 32, 16));
    UuidRoundTrip(id);
    UuidRoundTrip(other);
  }

  // ---------------------------------------------------------------- object keys

  /** <date>/<first two hex digits>/<id>.json. */
  function ObjectKey(id: Uuid, day: Day): string
    requires IsDay(day)
  {
    IsoDate(day) + "/" + UuidText(id)[..2] + "/" + UuidText(id) + ".json"
  }

  /** str.partition(c): the texts before and after the first c, None without one. */
  function SplitFirst(s: string, c: char): Option<(string, string)> {
    if s == "" then None
    else if s[0] == c then Some(("", s[1..]))
    else
      var rest := SplitFirst(s[1..], c);
      if rest.None? then None else Some(([s[0]] + rest.value.0, rest.value.1))
  }

  function RemoveSuffix(s: string, suffix: string): string {
    if |suffix| <= |s| && s[|s| - |suffix|..] == suffix then s[..|s| - |suffix|] else s
  }

  /** _parse_key of the S3 store, for any reader of a date and of an id. */
  function ReadKey<D, I>(key: string, readDate: string -> Option<D>, readId: string -> Option<I>): Option<(I, D)> {
    var parts := SplitFirst(key, '/');
    var datePart := if parts.Some? then parts.value.0 else key;
    var rest := if parts.Some? then parts.value.1 else "";
    var tail := SplitFirst(rest, '/');
    var file := if tail.Some? then tail.value.1 else rest;
    var day := readDate(datePart);
    var id := readId(RemoveSuffix(file, ".json"));
    if day.Some? && id.Some? then Some((id.value, day.value)) else None
  }

  lemma {:induction false} SplitFirstOf(a: string, c: char, b: string)
    requires c !in a
    ensures SplitFirst(a + [c] + b, c) == Some((a, b))
  {
    var s := a + [c] + b;
    if a == "" {
      assert s[1..] == b;
    } else {
      assert a[0] in a;
      assert s[1..] == a[1..] + [c] + b;
      SplitFirstOf(a[1..], c, b);
      assert [a[0]] + a[1..] == a;
    }
  }

  /** The three parts of a key are found where they were put. */
  lemma KeyParts<D, I>(date: string, u: string, readDate: string -> Option<D>, readId: string -> Option<I>)
    requires '/' !in date && |u| == 36 && '/' !in u
    ensures var day, id := readDate(date), readId(u);
      ReadKey(date + "/" + u[..2] + "/" + u + ".json", readDate, readId)
        == if day.Some? && id.Some? then Some((id.value, day.value)) else None
  {
    var file := u + ".json";
    var rest := u[..2] + ['/'] + file;
    assert date + "/" + u[..2] + "/" + u + ".json" == date + ['/'] + rest;
    SplitFirstOf(date, '/', rest);
    SplitFirstOf(u[..2], '/', file);
    SuffixRemoved(u);
  }

  lemma SuffixRemoved(u: string)
    ensures RemoveSuffix(u + ".json", ".json") == u
  {
    var file := u + ".json";
    assert file[|file| - 5..] == ".json" && file[..|file| - 5] == u;
  }

  /** Every stored object's key names its event and its day: it is read back as both exactly by readers that
      read the date and the id back. */
  lemma ObjectKeyRoundTrip(id: Uuid, day: Day, readDate: string -> Option<Day>, readId: string -> Option<Uuid>)
    requires IsUuid(id) && IsDay(day)
    ensures ReadKey(ObjectKey(id, day), readDate, readId) == Some((id, day))
      <==> readDate(IsoDate(day)) == Some(day) && readId(UuidText(id)) == Some(id)
  {
    IsoDateRoundTrip(day);
    UuidRoundTrip(id);
    KeyParts(IsoDate(day), UuidText(id), readDate, readId);
  }

  /** So the store alone identifies both: the readers of this module are such readers. */
  lemma ObjectKeyReadsBack(id: Uuid, day: Day)
    requires IsUuid(id) && IsDay(day)
    ensures ReadKey(ObjectKey(id, day), ReadIsoDate, ReadUuid) == Some((id, day))
  {
    IsoDateRoundTrip(day);
    UuidRoundTrip(id);
    ObjectKeyRoundTrip(id, day, ReadIsoDate, ReadUuid);
  }

  /** The day prefix a sweep deletes covers exactly the objects of that day. */
  lemma DayPrefixExact(id: Uuid, day: Day, other: Day)
    requires IsDay(day) && IsDay(other)
    ensures IsoDate(other) + "/" <= ObjectKey(id, day) <==> other == day
  {
    IsoDateRoundTrip(day);
    IsoDateRoundTrip(other);
    var key := ObjectKey(id, day);
    assert key[..10] == IsoDate(day) && key[..11] == IsoDate(day) + "/";
    if IsoDate(other) + "/" <= key {
      assert (IsoDate(other) + "/")[..10] == IsoDate(other);
      assert key[..10] == IsoDate(other);
    }
  }

  /** Listing keys by their texts lists objects by day and then by id. */
  lemma ObjectKeyOrder(id: Uuid, day: Day, other: Uuid, otherDay: Day)
    requires IsUuid(id) && IsDay(day) && IsUuid(other) && IsDay(otherDay)
    ensures TextLess(ObjectKey(id, day), ObjectKey(other, otherDay)) <==>
      day < otherDay || (day == otherDay && id < other)
  {
    IsoDateOrder(day, otherDay);
    UuidOrder(id, other);
    KeyTextOrder(IsoDate(day), UuidText(id), IsoDate(otherDay), UuidText(other));
  }

  lemma KeyTextOrder(date: string, u: string, otherDate: string, v: string)
    requires |date| == |otherDate| && |u| == |v| == 36
    ensures TextLess(date + "/" + u[..2] + "/" + u + ".json", otherDate + "/" + v[..2] + "/" + v + ".json") <==>
      TextLess(date, otherDate) || (date == otherDate && TextLess(u, v))
  {
    var file, otherFile := u + ".json", v + ".json";
    Grouped(date, "/", u[..2], "/", file);
    Grouped(otherDate, "/", v[..2], "/", otherFile);
    assert date + "/" + u[..2] + "/" + u + ".json" == date + "/" + u[..2] + "/" + file;
    assert otherDate + "/" + v[..2] + "/" + v + ".json" == otherDate + "/" + v[..2] + "/" + otherFile;
    SeparatedOrder(date, '/', u[..2] + "/" + file, otherDate, v[..2] + "/" + otherFile);
    SeparatedOrder(u[..2], '/', u + ".json", v[..2], v + ".json");
    SuffixOrder(u, v);
    HeadOrder(u, v, 2);
  }

  lemma SuffixOrder(u: string, v: string)
    requires |u| == |v|
    ensures TextLess(u + ".json", v + ".json") <==> TextLess(u, v)
  {
    TextLessAppend(u, ".json", v, ".json");
    TextLessIrreflexive(".json");
  }

  /** Comparing the heads first changes nothing. */
  lemma HeadOrder(u: string, v: string, n: nat)
    requires n <= |u| == |v|
    ensures TextLess(u[..n], v[..n]) || (u[..n] == v[..n] && TextLess(u, v)) <==> TextLess(u, v)
  {
    assert u == u[..n] + u[n..] && v == v[..n] + v[n..];
    TextLessAppend(u[..n], u[n..], v[..n], v[n..]);
  }

  // ---------------------------------------------------------------- cursors

  /** datetime.isoformat of a UTC timestamp: the fraction is printed only when it is not zero. */
  function IsoTime(t: Time): string
    requires IsDay(DayOf(t))
  {
    var us := t % DAY;
    var sec := us / SECOND;
    IsoDate(DayOf(t)) + "T" + Numeral(sec / 3600, 2, 10) + ":" + Numeral(sec / 60 % 60, 2, 10) + ":"
    + Numeral(sec % 60, 2, 10)
      + (if us % SECOND == 0 then "" else "." + Numeral(us % SECOND, 6, 10)) + "+00:00"
  }

  /** datetime.fromisoformat on that format. */
  function ReadIsoTime(s: string): Option<Time> {
    if |s| < 25 || s[10] != 'T' || s[13] != ':' || s[16] != ':' then None
    else
      var day, h, m, sec := ReadIsoDate(s[..10]), ReadNumeral(s[11..13], 10), ReadNumeral(s[14..16], 10),
        ReadNumeral(s[17..19], 10);
      var us := if s[19..] == "+00:00" then Some(0)
                else if |s| == 32 && s[19] == '.' && s[26..] == "+00:00" then ReadNumeral(s[20..26], 10)
                else None;
      if day.Some? && h.Some? && m.Some? && sec.Some? && us.Some? && h.value < 24 && m.value < 60 && sec.value < 60
      then Some(DayStart(day.value) + (h.value * 3600 + m.value * 60 + sec.value) * SECOND + us.value)
      else None
  }

  /** A time of day is its hours, minutes, seconds and microseconds. */
  lemma ClockFields(us: int)
    requires 0 <= us < DAY
    ensures var sec := us / SECOND;
      && 0 <= sec / 3600 < 24 && 0 <= sec / 60 % 60 < 60 && 0 <= sec % 60 < 60 && 0 <= us % SECOND < SECOND
      && ((sec / 3600) * 3600 + (sec / 60 % 60) * 60 + sec % 60) * SECOND + us % SECOND == us
  {
    var sec := us / SECOND;
    assert us == sec * SECOND + us % SECOND;
    SecondFields(sec);
  }

  lemma SecondFields(sec: int)
    requires 0 <= sec < 86_400
    ensures 0 <= sec / 3600 < 24 && sec == (sec / 3600) * 3600 + (sec / 60 % 60) * 60 + sec % 60
  {
    assert sec / 60 / 60 == sec / 3600;
  }

  lemma DayAndTime(t: Time)
    ensures 0 <= t % DAY < DAY && DayStart(DayOf(t)) + t % DAY == t
  {
  }

  lemma ClockNumerals(h: nat, m: nat, sec: nat, micros: nat)
    requires h < 24 && m < 60 && sec < 60 && micros < SECOND
    ensures ReadNumeral(Numeral(h, 2, 10), 10) == Some(h) && AllDigits(Numeral(h, 2, 10), 10)
    ensures ReadNumeral(Numeral(m, 2, 10), 10) == Some(m) && AllDigits(Numeral(m, 2, 10), 10)
    ensures ReadNumeral(Numeral(sec, 2, 10), 10) == Some(sec) && AllDigits(Numeral(sec, 2, 10), 10)
    ensures ReadNumeral(Numeral(micros, 6, 10), 10) == Some(micros) && AllDigits(Numeral(micros, 6, 10), 10)
  {
    DecimalWidths();
    NumeralRoundTrip(h, 2, 10);
    NumeralRoundTrip(m, 2, 10);
    NumeralRoundTrip(sec, 2, 10);
    NumeralRoundTrip(micros, 6, 10);
  }

  /** The layout of a timestamp text, its fields given as texts. */
  lemma TimeLayout(date: string, h: string, m: string, sec: string, us: string, fraction: bool, s: string)
    requires |date| == 10 && |h| == 2 && |m| == 2 && |sec| == 2 && |us| == 6
    requires AllDigits(h, 10) && AllDigits(m, 10) && AllDigits(sec, 10) && AllDigits(us, 10) && '|' !in date
    requires s == date + "T" + h + ":" + m + ":" + sec + (if fraction then "." + us else "") + "+00:00"
    ensures |s| == (if fraction then 32 else 25) && s[10] == 'T' && s[13] == ':' && s[16] == ':'
    ensures s[..10] == date && s[11..13] == h && s[14..16] == m && s[17..19] == sec
    ensures fraction ==> s[19] == '.' && s[20..26] == us && s[26..] == "+00:00"
    ensures !fraction ==> s[19..] == "+00:00"
    ensures '|' !in s
  {
    var head := date + "T" + h + ":" + m + ":" + sec;
    var tail := if fraction then "." + us + "+00:00" else "+00:00";
    HeadLayout(date, h, m, sec, head);
    TailLayout(us, fraction, tail);
    assert s == head + tail;
    assert s[..10] == head[..10] && s[11..13] == head[11..13] && s[14..16] == head[14..16] && s[17..19] == head[17..19];
    assert s[19..] == tail;
    assert fraction ==> s[20..26] == tail[1..7] && s[26..] == tail[7..];
  }

  lemma HeadLayout(date: string, h: string, m: string, sec: string, head: string)
    requires |date| == 10 && |h| == 2 && |m| == 2 && |sec| == 2 && head == date + "T" + h + ":" + m + ":" + sec
    requires AllDigits(h, 10) && AllDigits(m, 10) && AllDigits(sec, 10) && '|' !in date
    ensures |head| == 19 && head[10] == 'T' && head[13] == ':' && head[16] == ':' && '|' !in head
    ensures head[..10] == date && head[11..13] == h && head[14..16] == m && head[17..19] == sec
  {
  }

  lemma TailLayout(us: string, fraction: bool, tail: string)
    requires |us| == 6 && AllDigits(us, 10) && tail == if fraction then "." + us + "+00:00" else "+00:00"
    ensures |tail| == (if fraction then 13 else 6) && '|' !in tail
    ensures fraction ==> tail[0] == '.' && tail[1..7] == us && tail[7..] == "+00:00"
  {
  }

  /** Reading a text whose fields are known. */
  lemma ReadFields(s: string, fraction: bool, us: string, day: Day, h: nat, m: nat, sec: nat, micros: nat)
    requires |s| == (if fraction then 32 else 25) && s[10] == 'T' && s[13] == ':' && s[16] == ':'
    requires ReadIsoDate(s[..10]) == Some(day) && ReadNumeral(s[11..13], 10) == Some(h)
    requires ReadNumeral(s[14..16], 10) == Some(m) && ReadNumeral(s[17..19], 10) == Some(sec)
    requires h < 24 && m < 60 && sec < 60
    requires fraction ==> s[19] == '.' && s[20..26] == us && s[26..] == "+00:00" && ReadNumeral(us, 10) == Some(micros)
    requires !fraction ==> s[19..] == "+00:00" && micros == 0
    ensures ReadIsoTime(s) == Some(DayStart(day) + (h * 3600 + m * 60 + sec) * SECOND + micros)
  {
    if fraction { assert s[19..][0] == '.'; }
  }

  lemma IsoTimeRoundTrip(t: Time)
    requires IsDay(DayOf(t))
    ensures ReadIsoTime(IsoTime(t)) == Some(t) && '|' !in IsoTime(t)
  {
    DayAndTime(t);
    TimeOfDayRead(IsoTime(t), DayOf(t), t % DAY);
  }

  lemma TimeOfDayRead(s: string, day: Day, us: int)
    requires IsDay(day) && 0 <= us < DAY
    requires var sec := us / SECOND;
      s == IsoDate(day) + "T" + Numeral(sec / 3600, 2, 10) + ":" + Numeral(sec / 60 % 60, 2, 10) + ":"
      + Numeral(sec % 60, 2, 10)
             + (if us % SECOND == 0 then "" else "." + Numeral(us % SECOND, 6, 10)) + "+00:00"
    ensures ReadIsoTime(s) == Some(DayStart(day) + us) && '|' !in s
  {
    var sec := us / SECOND;
    ClockFields(us);
    FieldsRead(s, day, sec / 3600, sec / 60 % 60, sec % 60, us % SECOND);
  }

  /** A text laid out from fields reads as the instant they name. */
  lemma FieldsRead(s: string, day: Day, h: nat, m: nat, sec: nat, micros: nat)
    requires IsDay(day) && h < 24 && m < 60 && sec < 60 && micros < SECOND
    requires s == IsoDate(day) + "T" + Numeral(h, 2, 10) + ":" + Numeral(m, 2, 10) + ":" + Numeral(sec, 2, 10)
                    + (if micros == 0 then "" else "." + Numeral(micros, 6, 10)) + "+00:00"
    ensures ReadIsoTime(s) == Some(DayStart(day) + (h * 3600 + m * 60 + sec) * SECOND + micros) && '|' !in s
  {
    var us := Numeral(micros, 6, 10);
    ClockNumerals(h, m, sec, micros);
    IsoDateRoundTrip(day);
    TimeLayout(IsoDate(day), Numeral(h, 2, 10), Numeral(m, 2, 10), Numeral(sec, 2, 10), us, micros != 0, s);
    ReadFields(s, micros != 0, us, day, h, m, sec, micros);
  }

  datatype CursorError = BadRequest

  /** "<iso-timestamp>|<uuid>". */
  function EncodeCursor(ts: Time, id: Uuid): string
    requires IsDay(DayOf(ts))
  {
    IsoTime(ts) + "|" + UuidText(id)
  }

  /** _cursor, for any reader of a timestamp and of an id. */
  function DecodeCursor<T, I>(text: string, readTime: string -> Option<T>,
                              readId: string -> Option<I>): Result<(T, I), CursorError> {
    var parts := SplitFirst(text, '|');
    if parts.None? then Err(BadRequest)
    else
      var ts, id := readTime(parts.value.0), readId(parts.value.1);
      if ts.Some? && id.Some? then Ok((ts.value, id.value)) else Err(BadRequest)
  }

  /** The cursor handed to a client comes back as the same (timestamp, id) exactly for readers that read both
      back. */
  lemma CursorRoundTrip(ts: Time, id: Uuid, readTime: string -> Option<Time>, readId: string -> Option<Uuid>)
    requires IsDay(DayOf(ts))
    ensures DecodeCursor(EncodeCursor(ts, id), readTime, readId) == Ok((ts, id))
      <==> readTime(IsoTime(ts)) == Some(ts) && readId(UuidText(id)) == Some(id)
  {
    IsoTimeRoundTrip(ts);
    SplitFirstOf(IsoTime(ts), '|', UuidText(id));
    assert EncodeCursor(ts, id) == IsoTime(ts) + ['|'] + UuidText(id);
  }

  /** The readers of this module are such readers. */
  lemma CursorReadsBack(ts: Time, id: Uuid)
    requires IsDay(DayOf(ts)) && IsUuid(id)
    ensures DecodeCursor(EncodeCursor(ts, id), ReadIsoTime, ReadUuid) == Ok((ts, id))
  {
    IsoTimeRoundTrip(ts);
    UuidRoundTrip(id);
    CursorRoundTrip(ts, id, ReadIsoTime, ReadUuid);
  }

  /** The texts a client may send: a timestamp and an id around the first separator. */
  ghost predicate IsCursor<T(!new), I(!new)>(text: string, readTime: string -> Option<T>, readId: string -> Option<I>,
                                             ts: T, id: I) {
    exists a, b :: '|' !in a && text == a + ['|'] + b && readTime(a) == Some(ts) && readId(b) == Some(id)
  }

  /** Whatever texts the readers accept, a cursor is accepted exactly when it is one; any other text is a bad
      request. */
  lemma JunkCursorRefused<T(!new), I(!new)>(text: string, readTime: string -> Option<T>, readId: string -> Option<I>)
    ensures forall ts: T, id: I ::
      DecodeCursor(text, readTime, readId) == Ok((ts, id)) <==> IsCursor(text, readTime, readId, ts, id)
    ensures DecodeCursor(text, readTime, readId) == Err(BadRequest)
      <==> !exists ts: T, id: I :: IsCursor(text, readTime, readId, ts, id)
  {
    var parts := SplitFirst(text, '|');
    SplitFirstSound(text, '|');
    var r := DecodeCursor(text, readTime, readId);
    forall a, b | '|' !in a && text == a + ['|'] + b ensures parts == Some((a, b)) { SplitFirstOf(a, '|', b); }
    forall ts: T, id: I ensures r == Ok((ts, id)) <==> IsCursor(text, readTime, readId, ts, id) {
      if r == Ok((ts, id)) { assert text == parts.value.0 + ['|'] + parts.value.1; }
    }
    if r.Ok? { assert IsCursor(text, readTime, readId, r.value.0, r.value.1); }
  }

  lemma {:induction false} SplitFirstSound(s: string, c: char)
    ensures SplitFirst(s, c).Some? ==>
      c !in SplitFirst(s, c).value.0 && s == SplitFirst(s, c).value.0 + [c] + SplitFirst(s, c).value.1
  {
    if s != "" && s[0] != c { SplitFirstSound(s[1..], c); }
    if s != "" { assert s == [s[0]] + s[1..]; }
  }
}
