/**
 The clock as it is printed (tools/sashfold100.cpp, the end of `arizona_time`), and that the text is read in one way only.
 */
module ClockText {
  import opened Calendar

  predicate IsDigit(c: char) { '0' <= c <= '9' }

  function Digit(d: nat): (c: char)
    requires d < 10
    ensures IsDigit(c)
  {
    ('0' as int + d) as char
  }

  function DigitOf(c: char): (d: nat)
    requires IsDigit(c)
    ensures d < 10 && Digit(d) == c
  {
    c as int - '0' as int
  }

  /** %d */
  function Decimal(n: nat): string {
    if n < 10 then [Digit(n)] else Decimal(n / 10) + [Digit(n % 10)]
  }

  function Zeros(n: nat): string { seq(n, _ => '0') }

  /** %02d and its like, of a number that is not negative */
  function Filled(n: nat, width: nat): string {
    var s := Decimal(n);
    if |s| < width then Zeros(width - |s|) + s else s
  }

  /** %04d; the sign takes a place */
  function Year(y: int): string { if y < 0 then "-" + Filled(-y, 3) else Filled(y, 4) }

  function NatOf(x: int): nat { if x < 0 then 0 else x }

  /** The text: "%04d-%02d-%02d %d:%02d %s MST". */
  function Text(c: Clock): string {
    Year(c.date.year) + ("-" + (Filled(NatOf(c.date.month), 2) + ("-" + (Filled(NatOf(c.date.day), 2)
    + (" " + (Decimal(NatOf(c.hour)) + (":" + (Filled(NatOf(c.minute), 2) + (" " + ((if c.pm then "PM" else "AM") + " MST"))))))))))
  }

  // ---- Reading it again ------------------------------------------------------------------------

  /** The digits at the start of a text, as a number, and what follows them. */
  function ReadDigits(s: string, acc: nat): (nat, string)
    decreases |s|
  {
    if s == "" || !IsDigit(s[0]) then (acc, s) else ReadDigits(s[1..], 10 * acc + DigitOf(s[0]))
  }

  /** A number and the text after the one character behind it. */
  function ReadField(s: string): (nat, string) {
    var (n, rest) := ReadDigits(s, 0);
    (n, if rest == "" then "" else rest[1..])
  }

  function ReadYear(s: string): (int, string) {
    if s != "" && s[0] == '-' then
      var (n, rest) := ReadField(s[1..]);
      (0 - n as int, rest)
    else
      ReadField(s)
  }

  function ReadClock(s: string): Clock {
    var (year, s1) := ReadYear(s);
    var (month, s2) := ReadField(s1);
    var (day, s3) := ReadField(s2);
    var (hour, s4) := ReadField(s3);
    var (minute, s5) := ReadField(s4);
    Clock(Date(year, month, day), hour, minute, s5 != "" && s5[0] == 'P')
  }

  predicate AllDigits(s: string) { forall i :: 0 <= i < |s| ==> IsDigit(s[i]) }

  function Number(s: string): nat
    requires AllDigits(s)
  {
    if s == "" then 0 else 10 * Number(s[..|s| - 1]) + DigitOf(s[|s| - 1])
  }

  lemma {:induction false} DecimalIs(n: nat)
    ensures Decimal(n) != "" && AllDigits(Decimal(n)) && Number(Decimal(n)) == n
  {
    if n >= 10 {
      DecimalIs(n / 10);
      assert Decimal(n)[..|Decimal(n)| - 1] == Decimal(n / 10);
    } else {
      assert Decimal(n)[..0] == "";
    }
  }

  lemma {:induction false} ZerosIs(n: nat)
    ensures AllDigits(Zeros(n)) && Number(Zeros(n)) == 0
  {
    if n > 0 {
      ZerosIs(n - 1);
      assert Zeros(n)[..n - 1] == Zeros(n - 1);
    }
  }

  /** Zeros in front change nothing. */
  lemma {:induction false} ZerosBefore(k: nat, s: string)
    requires AllDigits(s)
    ensures AllDigits(Zeros(k) + s) && Number(Zeros(k) + s) == Number(s)
    decreases |s|
  {
    ZerosIs(k);
    if s == "" {
      assert Zeros(k) + s == Zeros(k);
    } else {
      ZerosBefore(k, s[..|s| - 1]);
      assert (Zeros(k) + s)[..k + |s| - 1] == Zeros(k) + s[..|s| - 1];
    }
  }

  lemma FilledIs(n: nat, width: nat)
    ensures Filled(n, width) != "" && AllDigits(Filled(n, width)) && Number(Filled(n, width)) == n
  {
    DecimalIs(n);
    if |Decimal(n)| < width {
      ZerosBefore(width - |Decimal(n)|, Decimal(n));
    }
    hide Decimal, Number, Zeros;
  }

  /** Reading on from `done` to the end of the digits. */
  lemma {:induction false} ReadOn(done: string, s: string, rest: string)
    requires AllDigits(done + s) && AllDigits(done) && (rest == "" || !IsDigit(rest[0]))
    ensures ReadDigits(s + rest, Number(done)) == (Number(done + s), rest)
    decreases |s|
  {
    if s == "" {
      assert s + rest == rest && done + s == done;
    } else {
      assert (s + rest)[0] == s[0] == (done + s)[|done|];
      assert (s + rest)[1..] == s[1..] + rest && (done + [s[0]]) + s[1..] == done + s;
      assert (done + [s[0]])[..|done|] == done;
      ReadOn(done + [s[0]], s[1..], rest);
    }
  }

  lemma FieldBack(s: string, rest: string)
    requires AllDigits(s) && rest != "" && !IsDigit(rest[0])
    ensures ReadField(s + rest) == (Number(s), rest[1..])
  {
    assert "" + s == s;
    ReadOn("", s, rest);
    hide ReadDigits;
  }

  lemma FilledBack(n: nat, width: nat, c: char, rest: string)
    requires !IsDigit(c)
    ensures ReadField(Filled(n, width) + ([c] + rest)) == (n, rest)
  {
    FilledIs(n, width);
    hide Filled, Number, ReadField, AllDigits;
    FieldBack(Filled(n, width), [c] + rest);
    assert ([c] + rest)[1..] == rest;
  }

  lemma YearRead(y: int, rest: string)
    ensures ReadYear(Year(y) + ("-" + rest)) == (y, rest)
  {
    if y < 0 {
      FilledBack(-y, 3, '-', rest);
      var s := Filled(-y, 3) + ("-" + rest);
      assert Year(y) + ("-" + rest) == "-" + s && ("-" + s)[1..] == s;
    } else {
      FilledBack(y, 4, '-', rest);
      FilledIs(y, 4);
      assert IsDigit(Filled(y, 4)[0]);
      hide Filled, ReadField;
    }
  }

  /** The text of a clock is read as that clock, whatever the year. */
  lemma ReadBack(c: Clock)
    requires OnDial(c)
    ensures ReadClock(Text(c)) == c
  {
    assert c.date.month >= 1 && c.date.day >= 1 && c.hour >= 1 && c.minute >= 0;
    hide Filled, Decimal, Year, ReadField, ReadYear, OnDial, IsDigit;
    var m, d, h, n: nat := c.date.month, c.date.day, c.hour, c.minute;
    var s5 := (if c.pm then "PM" else "AM") + " MST";
    var s4 := Filled(n, 2) + (" " + s5);
    var s3 := Decimal(h) + (":" + s4);
    var s2 := Filled(d, 2) + (" " + s3);
    var s1 := Filled(m, 2) + ("-" + s2);
    assert Text(c) == Year(c.date.year) + ("-" + s1);
    YearRead(c.date.year, s1);
    NotDigits();
    FilledBack(m, 2, '-', s2);
    FilledBack(d, 2, ' ', s3);
    DecimalBack(h, s4);
    FilledBack(n, 2, ' ', s5);
    assert s5[0] == if c.pm then 'P' else 'A';
  }

  lemma NotDigits()
    ensures !IsDigit('-') && !IsDigit(' ') && !IsDigit(':')
  {
  }

  lemma DecimalBack(n: nat, rest: string)
    ensures ReadField(Decimal(n) + (":" + rest)) == (n, rest)
  {
    FilledBack(n, 0, ':', rest);
    hide Decimal, ReadField;
  }

  /** The text printed, read again, is the date and the minute seven hours before the moment in UTC, whatever the moment. */
  lemma PrintedTime(utc: Date, hour: int, minute: int, second: int)
    ensures Shows(ReadClock(Text(ArizonaTime(utc, hour, minute, second))),
                  DaysFromCivil(utc) * 86400 + hour * 3600 + minute * 60 + second - 7 * 3600)
  {
    hide Text, ReadClock, ArizonaTime, DaysFromCivil, OnDial;
    SevenHoursBefore(utc, hour, minute, second);
    ReadBack(ArizonaTime(utc, hour, minute, second));
  }

  // ---- Its form --------------------------------------------------------------------------------

  lemma {:induction false} DecimalShort(n: nat)
    ensures n < 10 ==> |Decimal(n)| == 1
    ensures n < 100 ==> |Decimal(n)| <= 2
    ensures n < 1000 ==> |Decimal(n)| <= 3
    ensures n < 10000 ==> |Decimal(n)| <= 4
    ensures n >= 10 ==> Decimal(n)[0] != '0'
  {
    if n >= 10 {
      DecimalShort(n / 10);
    }
  }

  /** Two digits, the tens and the ones. */
  lemma TwoDigits(n: nat)
    requires n < 100
    ensures |Filled(n, 2)| == 2 && Two(Filled(n, 2), 0, n)
  {
    FilledIs(n, 2);
    if n < 10 {
      assert Decimal(n) == [Digit(n)];
      assert Filled(n, 2) == "0" + Decimal(n);
    } else {
      assert Decimal(n / 10) == [Digit(n / 10)];
      assert Filled(n, 2) == Decimal(n) == [Digit(n / 10)] + [Digit(n % 10)];
    }
    hide Decimal, Filled, Number;
  }

  /** The year: in four places while they are enough for it, zeros and a sign included, and else in as many as it takes. */
  lemma YearForm(y: int)
    ensures var s, k := Year(y), if y < 0 then 1 else 0;
            && |s| >= 4 && (-1000 < y < 10000 ==> |s| == 4) && (|s| > 4 ==> s[k] != '0')
            && (y < 0 ==> s[0] == '-') && AllDigits(s[k..]) && Number(s[k..]) == if y < 0 then -y else y
  {
    var n, width := if y < 0 then -y else y, if y < 0 then 3 else 4;
    var f := Filled(n, width);
    FilledIs(n, width);
    FilledShort(n, width);
    assert Year(y) == if y < 0 then "-" + f else f;
    assert ("-" + f)[1..] == f && f[0..] == f;
    hide Filled, Decimal, Number, AllDigits, Year;
  }

  lemma FilledShort(n: nat, width: nat)
    requires width == 3 || width == 4
    ensures |Filled(n, width)| >= width && (|Filled(n, width)| > width ==> Filled(n, width)[0] != '0')
    ensures (width == 3 && n < 1000) || (width == 4 && n < 10000) ==> |Filled(n, width)| == width
  {
    DecimalShort(n);
    hide Decimal;
  }

  /** The hour has no zero in front, and one digit or two. */
  lemma HourWidth(h: nat)
    requires 1 <= h <= 12
    ensures |Decimal(h)| == (if h < 10 then 1 else 2) && AllDigits(Decimal(h)) && Number(Decimal(h)) == h && Decimal(h)[0] != '0'
  {
    DecimalIs(h);
    DecimalShort(h);
    if h >= 10 {
      assert Decimal(h / 10) == [Digit(h / 10)];
    }
    hide Number;
  }

  /** Two digits of a text are those of a number. */
  predicate Two(t: string, at: nat, n: int) {
    at + 2 <= |t| && IsDigit(t[at]) && IsDigit(t[at + 1]) && DigitOf(t[at]) == n / 10 && DigitOf(t[at + 1]) == n % 10
  }

  /** "-MM-DD " at a place. */
  predicate DateAt(t: string, at: nat, d: Date) {
    at + 7 <= |t| && t[at] == '-' && Two(t, at + 1, d.month) && t[at + 3] == '-' && Two(t, at + 4, d.day) && t[at + 6] == ' '
  }

  /** The hour, in one digit or two, "h:MM" and half and zone to the end of the text. */
  predicate TimeAt(t: string, at: nat, c: Clock) {
    var k := at + if c.hour < 10 then 1 else 2;
    && |t| == k + 10 && AllDigits(t[at..k]) && Number(t[at..k]) == c.hour && t[at] != '0' && t[k] == ':'
    && Two(t, k + 1, c.minute) && t[k + 3..] == if c.pm then " PM MST" else " AM MST"
  }

  /**
   The form of the text: the year, the month and day in two digits each, the hour in as few digits as it has, the minute in
   two, and between and after them just those characters.
   */
  lemma Form(c: Clock)
    requires OnDial(c)
    ensures var t, y := Text(c), |Year(c.date.year)|;
            |t| > y + 7 && t[..y] == Year(c.date.year) && DateAt(t, y, c.date) && TimeAt(t, y + 7, c)
  {
    DialRanges(c);
    TwoDigits(c.date.month);
    TwoDigits(c.date.day);
    HourWidth(c.hour);
    hide *;
    var t1, t2, t3, t4 := Parts(c);
    Pieces(Text(c), Year(c.date.year), Filled(c.date.month, 2), Filled(c.date.day, 2), Decimal(c.hour), t1, t2, t3, t4);
    IsDateAt(Text(c), |Year(c.date.year)|, c.date);
    IsTimeAt(Text(c), |Year(c.date.year)| + 7, c);
  }

  lemma Parts(c: Clock) returns (t1: string, t2: string, t3: string, t4: string)
    requires c.date.month >= 0 && c.date.day >= 0 && c.hour >= 0 && c.minute >= 0
    ensures Text(c) == Year(c.date.year) + ("-" + t1) && t1 == Filled(c.date.month, 2) + ("-" + t2)
    ensures t2 == Filled(c.date.day, 2) + (" " + t3) && t3 == Decimal(c.hour) + (":" + t4)
    ensures t4 == Filled(c.minute, 2) + if c.pm then " PM MST" else " AM MST"
  {
    hide Filled, Decimal, Year;
    var last := if c.pm then " PM MST" else " AM MST";
    assert last == " " + ((if c.pm then "PM" else "AM") + " MST");
    t4 := Filled(c.minute, 2) + last;
    t3 := Decimal(c.hour) + (":" + t4);
    t2 := Filled(c.date.day, 2) + (" " + t3);
    t1 := Filled(c.date.month, 2) + ("-" + t2);
  }

  lemma IsDateAt(t: string, at: nat, d: Date)
    requires 1 <= d.month <= 12 && 1 <= d.day <= 31 && at + 7 <= |t|
    requires t[at] == '-' && t[at + 1..at + 3] == Filled(d.month, 2) && t[at + 3] == '-' && t[at + 4..at + 6] == Filled(d.day, 2) && t[at + 6] == ' '
    ensures DateAt(t, at, d)
  {
    TwoDigits(d.month);
    TwoDigits(d.day);
    hide Filled, Two;
    TwoAt(t, at + 1, d.month);
    TwoAt(t, at + 4, d.day);
  }

  lemma IsTimeAt(t: string, at: nat, c: Clock)
    requires 1 <= c.hour <= 12 && 0 <= c.minute < 60
    requires var k := at + |Decimal(c.hour)|;
             && k < |t| && t[at..k] == Decimal(c.hour) && t[k] == ':'
             && t[k + 1..] == Filled(c.minute, 2) + if c.pm then " PM MST" else " AM MST"
    ensures TimeAt(t, at, c)
  {
    TwoDigits(c.minute);
    HourWidth(c.hour);
    hide Filled, Two, Decimal, AllDigits, Number;
    var k := at + |Decimal(c.hour)|;
    Ending(t, k + 1, Filled(c.minute, 2), if c.pm then " PM MST" else " AM MST");
    TwoAt(t, k + 1, c.minute);
    assert t[at] == t[at..k][0];
  }

  /** Where a text goes on with a piece, one character and then u. */
  lemma Field(t: string, at: nat, piece: string, sep: string, u: string)
    requires at <= |t| && t[at..] == piece + (sep + u) && |sep| == 1
    ensures at + |piece| + 1 + |u| == |t|
    ensures t[at..at + |piece|] == piece && t[at + |piece|] == sep[0] && t[at + |piece| + 1..] == u
  {
    var v := t[at..];
    assert v[..|piece|] == piece && v[|piece|] == sep[0] && v[|piece| + 1..] == u;
    assert t[at..at + |piece|] == v[..|piece|] && t[at + |piece|] == v[|piece|] && t[at + |piece| + 1..] == v[|piece| + 1..];
  }

  /** Pieces joined, and each found at its place again. */
  lemma Pieces(t: string, a: string, b: string, c: string, d: string, t1: string, t2: string, t3: string, t4: string)
    requires t == a + ("-" + t1) && t1 == b + ("-" + t2) && t2 == c + (" " + t3) && t3 == d + (":" + t4)
    requires |b| == 2 && |c| == 2
    ensures var y, k := |a|, |a| + 7 + |d|;
            && |t| == k + 1 + |t4| && t[..y] == a && t[y] == '-' && t[y + 1..y + 3] == b && t[y + 3] == '-'
            && t[y + 4..y + 6] == c && t[y + 6] == ' ' && t[y + 7..k] == d && t[k] == ':' && t[k + 1..] == t4
  {
    var y := |a|;
    assert t[0..] == t && t[..y] == t[0..y];
    Field(t, 0, a, "-", t1);
    Field(t, y + 1, b, "-", t2);
    Field(t, y + 4, c, " ", t3);
    Field(t, y + 7, d, ":", t4);
  }

  /** The minute, the half of the day and the zone. */
  lemma Ending(t: string, at: nat, e: string, last: string)
    requires at <= |t| && |e| == 2 && t[at..] == e + last
    ensures t[at..at + 2] == e && t[at + 2..] == last && |t| == at + 2 + |last|
  {
    var v := t[at..];
    assert v[..2] == e && v[2..] == last;
    assert t[at..at + 2] == v[..2] && t[at + 2..] == v[2..];
  }

  lemma TwoAt(t: string, at: nat, n: nat)
    requires at + 2 <= |t| && t[at..at + 2] == Filled(n, 2) && |Filled(n, 2)| == 2 && Two(Filled(n, 2), 0, n)
    ensures Two(t, at, n)
  {
    hide Filled;
    assert t[at] == t[at..at + 2][0] && t[at + 1] == t[at..at + 2][1];
  }

  lemma DialRanges(c: Clock)
    requires OnDial(c)
    ensures 1 <= c.date.month <= 12 && 1 <= c.date.day <= 31 && 1 <= c.hour <= 12 && 0 <= c.minute < 60
  {
  }
}
