/**
 * Names of the hourly log files. The writer formats the current civil hour
 * with Go's layout "2006-01-02T15" and appends ".log"; the retention sweep
 * parses names back with the layout "2006-01-02T15.log".
 */
module LogNames {
  import opened Strings
  import opened Wrappers

  /** A civil hour in the log time zone. */
  datatype Bucket = Bucket(year: int, month: int, day: int, hour: int)

  predicate IsLeap(year: int)
  {
    year % 4 == 0 && (year % 100 != 0 || year % 400 == 0)
  }

  /** Length of a month of the proleptic Gregorian calendar. */
  function DaysIn(month: int, year: int): (n: int)
    requires 1 <= month <= 12
    ensures 28 <= n <= 31
    ensures n == 29 <==> month == 2 && IsLeap(year)
  {
    if month == 2 then (if IsLeap(year) then 29 else 28)
    else if month == 4 || month == 6 || month == 9 || month == 11 then 30
    else 31
  }

  /** A real calendar hour whose year the layout's four digits can hold. */
  predicate ValidBucket(b: Bucket)
  {
    && 0 <= b.year <= 9999
    && 1 <= b.month <= 12
    && 1 <= b.day <= DaysIn(b.month, b.year)
    && 0 <= b.hour < 24
  }

  predicate IsDigit(c: char)
  {
    '0' <= c <= '9'
  }

  function DigitValue(c: char): (n: int)
    requires IsDigit(c)
    ensures 0 <= n < 10
  {
    c as int - '0' as int
  }

  function DigitChar(n: int): (c: char)
    requires 0 <= n < 10
    ensures IsDigit(c) && DigitValue(c) == n
  {
    ('0' as int + n) as char
  }

  /** Two decimal digits, zero-padded, as the layout elements "01", "02" and "15" print. */
  function Pad2(n: int): (s: string)
    requires 0 <= n < 100
    ensures |s| == 2 && IsDigit(s[0]) && IsDigit(s[1])
    ensures 10 * DigitValue(s[0]) + DigitValue(s[1]) == n
  {
    [DigitChar(n / 10), DigitChar(n % 10)]
  }

  /** Four decimal digits, zero-padded, as the layout element "2006" prints. */
  function Pad4(n: int): (s: string)
    requires 0 <= n < 10000
    ensures |s| == 4 && forall i :: 0 <= i < 4 ==> IsDigit(s[i])
    ensures 1000 * DigitValue(s[0]) + 100 * DigitValue(s[1]) + 10 * DigitValue(s[2]) + DigitValue(s[3]) == n
  {
    Pad2(n / 100) + Pad2(n % 100)
  }

  /** The text that names an hour: "YYYY-MM-DDTHH", thirteen characters, digits but for the separators. */
  function Stamp(b: Bucket): (s: string)
    requires ValidBucket(b)
    ensures |s| == 13 && s[4] == '-' && s[7] == '-' && s[10] == 'T'
  {
    Pad4(b.year) + "-" + Pad2(b.month) + "-" + Pad2(b.day) + "T" + Pad2(b.hour)
  }

  /** Server.currentLogFile's base name for the hour `b`: its stamp, then ".log". */
  function BucketName(b: Bucket): (n: string)
    requires ValidBucket(b)
    ensures |n| == 17 && n[..13] == Stamp(b) && n[13..] == ".log"
    ensures '/' !in n
  {
    Stamp(b) + ".log"
  }

  /** The reading of the clock in the log zone: an hour and the nanoseconds into it. */
  datatype Moment = Moment(bucket: Bucket, nanos: int)

  const NanosPerHour := 3_600_000_000_000

  predicate ValidMoment(m: Moment)
  {
    ValidBucket(m.bucket) && 0 <= m.nanos < NanosPerHour
  }

  /** Server.currentLogFile's base name at `now`: the name of the hour it falls in. */
  function CurrentLogName(now: Moment): string
    requires ValidMoment(now)
  {
    BucketName(now.bucket)
  }

  /** A number read from the front of a string, and what is left. */
  datatype Num = Num(value: int, rest: string)

  /** The year element "2006": four characters, the first a digit, all of them digits. */
  function ReadYear(s: string): (r: Option<Num>)
    ensures r.Some? <==> |s| >= 4 && forall i :: 0 <= i < 4 ==> IsDigit(s[i])
    ensures r.Some? ==> 0 <= r.value.value < 10000 && r.value.rest == s[4..]
  {
    if |s| < 4 || !IsDigit(s[0]) then None
    else if !(IsDigit(s[1]) && IsDigit(s[2]) && IsDigit(s[3])) then None
    else Some(Num(1000 * DigitValue(s[0]) + 100 * DigitValue(s[1]) + 10 * DigitValue(s[2]) + DigitValue(s[3]), s[4..]))
  }

  /**
   * Go's getnum: one digit, or two when a second digit follows; `fixed`
   * demands two. The month "01" and day "02" are fixed, the hour "15" is not.
   */
  function GetNum(s: string, fixed: bool): (r: Option<Num>)
    ensures r.Some? <==> |s| > 0 && IsDigit(s[0]) && (!fixed || (|s| > 1 && IsDigit(s[1])))
    ensures r.Some? ==> 0 <= r.value.value < 100
  {
    if |s| == 0 || !IsDigit(s[0]) then None
    else if |s| == 1 || !IsDigit(s[1]) then
      if fixed then None else Some(Num(DigitValue(s[0]), s[1..]))
    else Some(Num(10 * DigitValue(s[0]) + DigitValue(s[1]), s[2..]))
  }

  /** A literal part of the layout must match exactly; what follows it is left. */
  function Skip(s: string, lit: string): (r: Option<string>)
    ensures r.Some? <==> HasPrefix(s, lit)
  {
    if HasPrefix(s, lit) then Some(s[|lit|..]) else None
  }

  /** Every character of a stamp but its separators is a digit. */
  lemma StampDigits(b: Bucket)
    requires ValidBucket(b)
    ensures var s := Stamp(b); forall i :: 0 <= i < 13 && i != 4 && i != 7 && i != 10 ==> IsDigit(s[i])
  {
  }

  /** getnum consumes the one or two digits it read and leaves the rest of the text untouched. */
  lemma GetNumRest(s: string, fixed: bool)
    requires GetNum(s, fixed).Some?
    ensures var rest := GetNum(s, fixed).value.rest;
      && 1 <= |s| - |rest| <= 2 && rest == s[|s| - |rest|..]
      && forall i :: 0 <= i < |s| - |rest| ==> IsDigit(s[i])
  {
  }

  /** A literal that matches is a prefix, and Skip leaves exactly what follows it. */
  lemma SkipRest(s: string, lit: string)
    requires HasPrefix(s, lit)
    ensures Skip(s, lit).Some? && s == lit + Skip(s, lit).value
  {
  }

  /**
   * time.ParseInLocation("2006-01-02T15.log", name, loc), keeping only the
   * civil fields: the elements in order, the month and hour range checks,
   * nothing left over, and at the end the day checked against the month.
   */
  function ParseBucket(name: string): (r: Option<Bucket>)
    ensures r.Some? ==> ValidBucket(r.value)
  {
    var y :- ReadYear(name);
    var s1 :- Skip(y.rest, "-");
    var m :- GetNum(s1, true);
    if m.value < 1 || 12 < m.value then None
    else
      var s2 :- Skip(m.rest, "-");
      var d :- GetNum(s2, true);
      var s3 :- Skip(d.rest, "T");
      var h :- GetNum(s3, false);
      if h.value < 0 || 24 <= h.value then None
      else
        var s4 :- Skip(h.rest, ".log");
        if s4 != "" then None
        else if d.value < 1 || d.value > DaysIn(m.value, y.value) then None
        else Some(Bucket(y.value, m.value, d.value, h.value))
  }

  lemma ReadYearOfPad4(n: int, rest: string)
    requires 0 <= n < 10000
    ensures ReadYear(Pad4(n) + rest) == Some(Num(n, rest))
  {
    var s := Pad4(n) + rest;
    assert s[4..] == rest;
  }

  lemma GetNumOfPad2(n: int, rest: string, fixed: bool)
    requires 0 <= n < 100
    ensures GetNum(Pad2(n) + rest, fixed) == Some(Num(n, rest))
  {
    var s := Pad2(n) + rest;
    assert s[2..] == rest;
  }

  lemma SkipLiteral(lit: string, rest: string)
    ensures Skip(lit + rest, lit) == Some(rest)
  {
    assert (lit + rest)[..|lit|] == lit;
    assert (lit + rest)[|lit|..] == rest;
  }

  /** A name assembled from the back is the name written from the front. */
  lemma Reassociate(a: string, b: string, c: string, d: string, e: string, f: string, g: string, h: string)
    ensures a + (b + (c + (d + (e + (f + (g + h)))))) == a + b + c + d + e + f + g + h
  {
    var t := g + h;
    assert f + t == f + g + h;
    assert e + (f + t) == e + f + g + h;
    assert d + (e + (f + t)) == d + e + f + g + h;
    assert c + (d + (e + (f + t))) == c + d + e + f + g + h;
    assert b + (c + (d + (e + (f + t)))) == b + c + d + e + f + g + h;
  }

  /** Parsing the name the writer gives an hour's file yields that hour. */
  lemma ParseBucketName(b: Bucket)
    requires ValidBucket(b)
    ensures ParseBucket(BucketName(b)) == Some(b)
  {
    var t4 := Pad2(b.hour) + ".log";
    var t3 := "T" + t4;
    var t2 := Pad2(b.day) + t3;
    var t1 := "-" + t2;
    var t0 := Pad2(b.month) + t1;
    var s := "-" + t0;
    assert BucketName(b) == Pad4(b.year) + s;
    ReadYearOfPad4(b.year, s);
    SkipLiteral("-", t0);
    GetNumOfPad2(b.month, t1, true);
    SkipLiteral("-", t2);
    GetNumOfPad2(b.day, t3, true);
    SkipLiteral("T", t4);
    GetNumOfPad2(b.hour, ".log", false);
    SkipLiteral(".log", "");
    assert ".log" + "" == ".log";
  }

  /** Two digits read back are printed as the same two digits. */
  lemma Pad2OfDigits(a: char, b: char)
    requires IsDigit(a) && IsDigit(b)
    ensures Pad2(10 * DigitValue(a) + DigitValue(b)) == [a, b]
  {
    var x, y := DigitValue(a), DigitValue(b);
    assert (10 * x + y) / 10 == x && (10 * x + y) % 10 == y;
  }

  lemma ReadYearShape(s: string)
    requires ReadYear(s).Some?
    ensures s == Pad4(ReadYear(s).value.value) + ReadYear(s).value.rest
  {
    var a, b := 10 * DigitValue(s[0]) + DigitValue(s[1]), 10 * DigitValue(s[2]) + DigitValue(s[3]);
    var n := ReadYear(s).value.value;
    assert n == 100 * a + b;
    assert n / 100 == a && n % 100 == b;
    Pad2OfDigits(s[0], s[1]);
    Pad2OfDigits(s[2], s[3]);
    assert Pad4(n) == s[..4];
    assert s == s[..4] + s[4..];
  }

  lemma GetNumShape(s: string, fixed: bool)
    requires GetNum(s, fixed).Some?
    ensures var n := GetNum(s, fixed).value;
      || s == Pad2(n.value) + n.rest
      || (!fixed && n.value < 10 && s == [DigitChar(n.value)] + n.rest)
  {
    if |s| >= 2 && IsDigit(s[1]) {
      Pad2OfDigits(s[0], s[1]);
      assert s == s[..2] + s[2..];
    } else {
      assert s == [s[0]] + s[1..];
    }
  }

  lemma SkipShape(s: string, lit: string)
    requires Skip(s, lit).Some?
    ensures s == lit + Skip(s, lit).value
  {
    assert s == s[..|lit|] + s[|lit|..];
  }

  /**
   * Every name the sweep parses is a valid hour's name: the writer's own
   * name for it, or that name with the hour written as one digit, which
   * Go's layout element "15" also accepts.
   */
  lemma ParsedNameShape(name: string)
    requires ParseBucket(name).Some?
    ensures var b := ParseBucket(name).value;
      && ValidBucket(b)
      && (|| name == BucketName(b)
          || (b.hour < 10 && name == Pad4(b.year) + "-" + Pad2(b.month) + "-" + Pad2(b.day) + "T" + [DigitChar(b.hour)] + ".log"))
  {
    var b := ParseBucket(name).value;
    var y := ReadYear(name).value;
    ReadYearShape(name);
    var s1 := Skip(y.rest, "-").value;
    SkipShape(y.rest, "-");
    var m := GetNum(s1, true).value;
    GetNumShape(s1, true);
    var s2 := Skip(m.rest, "-").value;
    SkipShape(m.rest, "-");
    var d := GetNum(s2, true).value;
    GetNumShape(s2, true);
    var s3 := Skip(d.rest, "T").value;
    SkipShape(d.rest, "T");
    var h := GetNum(s3, false).value;
    GetNumShape(s3, false);
    SkipShape(h.rest, ".log");
    assert h.rest == ".log";
    assert b == Bucket(y.value, m.value, d.value, h.value);
    var hourText := if s3 == Pad2(h.value) + h.rest then Pad2(h.value) else [DigitChar(h.value)];
    assert name == Pad4(y.value) + ("-" + (Pad2(m.value) + ("-" + (Pad2(d.value) + ("T" + (hourText + ".log"))))));
    Reassociate(Pad4(y.value), "-", Pad2(m.value), "-", Pad2(d.value), "T", hourText, ".log");
  }

  /** Only names that end in ".log" parse, so the sweep's suffix test never changes its answer. */
  lemma ParsedNameEndsInLog(name: string)
    requires ParseBucket(name).Some?
    ensures HasSuffix(name, ".log")
  {
    ParsedNameShape(name);
    var b := ParseBucket(name).value;
    var prefix := if name == BucketName(b) then Stamp(b)
      else Pad4(b.year) + "-" + Pad2(b.month) + "-" + Pad2(b.day) + "T" + [DigitChar(b.hour)];
    assert name == prefix + ".log";
    assert name[|name| - 4..] == ".log";
  }

  /** The name of 2025-03-10, 14h. */
  lemma ExampleName()
    ensures BucketName(Bucket(2025, 3, 10, 14)) == "2025-03-10T14.log"
  {
  }

  /**
   * Fields printed in the layout's widths parse back exactly when they form
   * a valid hour; the hour may be printed with one digit or two.
   */
  lemma ParseFields(y: int, m: int, d: int, h: int, hourText: string)
    requires 0 <= y < 10000 && 0 <= m < 100 && 0 <= d < 100
    requires (0 <= h < 100 && hourText == Pad2(h)) || (0 <= h < 10 && hourText == [DigitChar(h)])
    ensures ParseBucket(Pad4(y) + "-" + Pad2(m) + "-" + Pad2(d) + "T" + hourText + ".log")
         == if ValidBucket(Bucket(y, m, d, h)) then Some(Bucket(y, m, d, h)) else None
  {
    var t4 := hourText + ".log";
    var t3 := "T" + t4;
    var t2 := Pad2(d) + t3;
    var t1 := "-" + t2;
    var t0 := Pad2(m) + t1;
    var s := "-" + t0;
    Reassociate(Pad4(y), "-", Pad2(m), "-", Pad2(d), "T", hourText, ".log");
    ReadYearOfPad4(y, s);
    SkipLiteral("-", t0);
    GetNumOfPad2(m, t1, true);
    SkipLiteral("-", t2);
    GetNumOfPad2(d, t3, true);
    SkipLiteral("T", t4);
    if hourText == Pad2(h) {
      GetNumOfPad2(h, ".log", false);
    } else {
      assert t4[1..] == ".log";
    }
    assert GetNum(t4, false) == Some(Num(h, ".log"));
    SkipLiteral(".log", "");
    assert ".log" + "" == ".log";
    var full := Pad4(y) + s;
    if 1 <= m <= 12 && 0 <= h < 24 {
      assert ParseBucket(full) == if 1 <= d <= DaysIn(m, y) then Some(Bucket(y, m, d, h)) else None;
    } else {
      assert ParseBucket(full) == None;
    }
  }

  /** The digits of a few small numbers, spelt out. */
  lemma Digits()
    ensures Pad2(0) == "00" && Pad2(2) == "02" && Pad2(3) == "03" && Pad2(10) == "10"
    ensures Pad2(20) == "20" && Pad2(24) == "24" && Pad2(25) == "25" && Pad2(29) == "29"
    ensures DigitChar(5) == '5'
  {
    assert DigitChar(0) == '0' && DigitChar(1) == '1' && DigitChar(2) == '2' && DigitChar(3) == '3';
    assert DigitChar(4) == '4' && DigitChar(5) == '5' && DigitChar(9) == '9';
  }

  /** The name used in LeapDayName, spelt out from its fields. */
  lemma LeapDayText()
    ensures Pad4(2024) + "-" + Pad2(2) + "-" + Pad2(29) + "T" + Pad2(0) + ".log" == "2024-02-29T00.log"
  {
    Digits();
    assert Pad4(2024) == Pad2(20) + Pad2(24);
  }

  /** February 29 parses in a leap year. */
  lemma LeapDayName()
    ensures ParseBucket("2024-02-29T00.log") == Some(Bucket(2024, 2, 29, 0))
  {
    LeapDayText();
    assert IsLeap(2024);
    ParseFields(2024, 2, 29, 0, Pad2(0));
  }

  /** The name used in NonLeapDayName, spelt out from its fields. */
  lemma NonLeapDayText()
    ensures Pad4(2025) + "-" + Pad2(2) + "-" + Pad2(29) + "T" + Pad2(0) + ".log" == "2025-02-29T00.log"
  {
    Digits();
    assert Pad4(2025) == Pad2(20) + Pad2(25);
  }

  /** February 29 does not parse in a common year: that file is never swept. */
  lemma NonLeapDayName()
    ensures ParseBucket("2025-02-29T00.log") == None
  {
    NonLeapDayText();
    assert !IsLeap(2025);
    ParseFields(2025, 2, 29, 0, Pad2(0));
  }

  /** The name used in OneDigitHourName, spelt out from its fields. */
  lemma OneDigitHourText()
    ensures Pad4(2025) + "-" + Pad2(3) + "-" + Pad2(10) + "T" + [DigitChar(5)] + ".log" == "2025-03-10T5.log"
  {
    Digits();
    assert Pad4(2025) == Pad2(20) + Pad2(25);
  }

  /** A one-digit hour parses as that hour. */
  lemma OneDigitHourName()
    ensures ParseBucket("2025-03-10T5.log") == Some(Bucket(2025, 3, 10, 5))
  {
    OneDigitHourText();
    ParseFields(2025, 3, 10, 5, [DigitChar(5)]);
  }

  /** The name used in HourOutOfRangeName, spelt out from its fields. */
  lemma HourOutOfRangeText()
    ensures Pad4(2025) + "-" + Pad2(3) + "-" + Pad2(10) + "T" + Pad2(24) + ".log" == "2025-03-10T24.log"
  {
    Digits();
    assert Pad4(2025) == Pad2(20) + Pad2(25);
  }

  /** Hour 24 is out of range. */
  lemma HourOutOfRangeName()
    ensures ParseBucket("2025-03-10T24.log") == None
  {
    HourOutOfRangeText();
    ParseFields(2025, 3, 10, 24, Pad2(24));
  }
}
