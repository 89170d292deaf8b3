/** Dates as the page handles them: formatting a calendar date as DD/MM/YYYY,
    normalising spreadsheet date cells into that form, and reading a DD/MM/YYYY
    string back into the day number that `new Date(y, m - 1, d)` stands for. */
module Dates {
  import opened Optional
  import opened JsText

  /** What `getFullYear()`, `getMonth()` (zero-based) and `getDate()` report. */
  datatype CalendarDate = CalendarDate(year: int, month0: nat, day: nat)

  /** A date a JavaScript Date object can hold: month 0..11, day within the month. */
  predicate ValidDate(d: CalendarDate) {
    d.month0 < 12 && 1 <= d.day <= DaysInMonth(d.year, d.month0)
  }

  /** The page's date formatter: day and month padded to two digits, the year unpadded. */
  function FormatDate(d: CalendarDate): string {
    PadStart2(NatToString(d.day)) + "/" + PadStart2(NatToString(d.month0 + 1)) + "/" + IntToString(d.year)
  }

  /** Already in canonical form: two digits, a slash, two digits, a slash, four digits. */
  predicate IsCanonical(s: string) {
    && |s| == 10
    && IsDigit(s[0]) && IsDigit(s[1]) && s[2] == '/'
    && IsDigit(s[3]) && IsDigit(s[4]) && s[5] == '/'
    && IsDigit(s[6]) && IsDigit(s[7]) && IsDigit(s[8]) && IsDigit(s[9])
  }

  /** Day and month below 100 and a four-digit year: the formatted text has the canonical shape. */
  predicate FitsCanonical(d: CalendarDate) {
    d.day < 100 && d.month0 + 1 < 100 && 1000 <= d.year <= 9999
  }

  lemma NumeralOfLength(n: nat, k: nat)
    requires k >= 1 && (k > 1 ==> Pow10(k - 1) <= n) && n < Pow10(k)
    ensures |NatToString(n)| == k
  {
    var r := NatToString(n);
    if |r| < k {
      Pow10Monotone(|r|, k - 1);
    } else if |r| > k {
      Pow10Monotone(k, |r| - 1);
    }
  }

  lemma {:induction false} Pow10Monotone(a: nat, b: nat)
    requires a <= b
    ensures Pow10(a) <= Pow10(b)
  {
    if a < b {
      Pow10Monotone(a, b - 1);
    }
  }

  lemma PaddedNumeralShape(n: nat)
    requires n < 100
    ensures |PadStart2(NatToString(n))| == 2 && AllDigits(PadStart2(NatToString(n)))
  {
    var r := NatToString(n);
    if |r| > 2 {
      Pow10Monotone(2, |r| - 1);
    }
    PadStart2Value(r);
  }

  /** A date with two-digit day and month and a four-digit year formats to the canonical shape. */
  lemma FormatDateCanonical(d: CalendarDate)
    requires FitsCanonical(d)
    ensures IsCanonical(FormatDate(d))
  {
    var a := PadStart2(NatToString(d.day));
    var b := PadStart2(NatToString(d.month0 + 1));
    var c := IntToString(d.year);
    PaddedNumeralShape(d.day);
    PaddedNumeralShape(d.month0 + 1);
    FourDigitYear(d.year);
    assert FormatDate(d) == a + "/" + b + "/" + c;
    CanonicalShape(a, b, c);
  }

  lemma FourDigitYear(y: int)
    requires 1000 <= y <= 9999
    ensures |IntToString(y)| == 4 && AllDigits(IntToString(y))
  {
    assert Pow10(3) == 1000 && Pow10(4) == 10000;
    NumeralOfLength(y, 4);
  }

  lemma CanonicalShape(a: string, b: string, c: string)
    requires |a| == 2 && |b| == 2 && |c| == 4 && AllDigits(a) && AllDigits(b) && AllDigits(c)
    ensures IsCanonical(a + "/" + b + "/" + c)
  {
    var s := a + "/" + b + "/" + c;
    assert s[0] == a[0] && s[1] == a[1] && s[2] == '/';
    assert s[3] == b[0] && s[4] == b[1] && s[5] == '/';
    assert s[6] == c[0] && s[7] == c[1] && s[8] == c[2] && s[9] == c[3];
  }

  // ---------------------------------------------------------------------------
  // The serialised `Date(Y,M,D)` form

  /** Length of the run of decimal digits starting at `i`. */
  function DigitRun(s: string, i: nat): (n: nat)
    requires i <= |s|
    ensures i + n <= |s|
    ensures AllDigits(s[i..i + n])
    ensures i + n == |s| || !IsDigit(s[i + n])
    decreases |s| - i
  {
    if i < |s| && IsDigit(s[i]) then
      var m := DigitRun(s, i + 1);
      assert s[i..i + 1 + m] == [s[i]] + s[i + 1..i + 1 + m];
      1 + m
    else 0
  }

  /** One captured number of the pattern: its value and the index just past the
      character that must follow it. */
  datatype Field = Field(value: nat, next: nat)

  /** `\d+` at `i` followed by `stop`; the digit group can only end where its run does. */
  function FieldAt(s: string, i: nat, stop: char): (r: Option<Field>)
    requires i <= |s|
    ensures r.Some? ==> i < r.value.next <= |s|
  {
    var n := DigitRun(s, i);
    if n == 0 || i + n == |s| || s[i + n] != stop then None
    else Some(Field(DigitsValue(s[i..i + n]), i + n + 1))
  }

  /** The regular expression `Date\((\d+),(\d+),(\d+)\)` matched at position `i`:
      the three captured numbers as year, zero-based month and day. */
  function DateCallAt(s: string, i: nat): Option<CalendarDate>
    requires i <= |s|
  {
    if !("Date(" <= s[i..]) then None
    else match FieldAt(s, i + 5, ',')
      case None => None
      case Some(y) => match FieldAt(s, y.next, ',')
        case None => None
        case Some(m) => match FieldAt(s, m.next, ')')
          case None => None
          case Some(d) => Some(CalendarDate(y.value, m.value, d.value))
  }

  /** The first position from `i` to `n` at which `f` finds something, and what it finds. */
  function Leftmost<T>(f: nat -> Option<T>, i: nat, n: nat): Option<T>
    decreases n - i
  {
    if f(i).Some? then f(i)
    else if i >= n then None
    else Leftmost(f, i + 1, n)
  }

  /** The search fails exactly when no position from `i` to `n` finds anything, and
      otherwise returns what the first position that finds something finds. */
  lemma {:induction false} LeftmostFirst<T>(f: nat -> Option<T>, i: nat, n: nat)
    requires i <= n
    ensures Leftmost(f, i, n).None? <==> forall j :: i <= j <= n ==> f(j).None?
    ensures Leftmost(f, i, n).Some? ==>
              exists j :: i <= j <= n && f(j) == Leftmost(f, i, n) && forall k :: i <= k < j ==> f(k).None?
    decreases n - i
  {
    if f(i).Some? {
      assert f(i) == Leftmost(f, i, n);
    } else if i < n {
      LeftmostFirst(f, i + 1, n);
      if Leftmost(f, i, n).Some? {
        var j :| i + 1 <= j <= n && f(j) == Leftmost(f, i + 1, n) && forall k :: i + 1 <= k < j ==> f(k).None?;
        assert forall k :: i <= k < j ==> f(k).None?;
      }
    }
  }

  /** The pattern tried at every position of `s`; nothing past the end. */
  function DateCalls(s: string): nat -> Option<CalendarDate> {
    (j: nat) => if j <= |s| then DateCallAt(s, j) else None
  }

  /** `RegExp.prototype.exec` of the unanchored pattern: the leftmost match at or after `i`. */
  function FindDateCall(s: string, i: nat): Option<CalendarDate>
    requires i <= |s|
  {
    Leftmost(DateCalls(s), i, |s|)
  }

  /** The search fails exactly when no position from `i` on holds a match, and
      otherwise returns the match at the first position that holds one. */
  lemma FindDateCallLeftmost(s: string, i: nat)
    requires i <= |s|
    ensures FindDateCall(s, i).None? <==> forall j :: i <= j <= |s| ==> DateCallAt(s, j).None?
    ensures FindDateCall(s, i).Some? ==>
              exists j :: i <= j <= |s| && DateCallAt(s, j) == FindDateCall(s, i)
                          && forall k :: i <= k < j ==> DateCallAt(s, k).None?
  {
    var f := DateCalls(s);
    LeftmostFirst(f, i, |s|);
    assert forall j: nat :: i <= j <= |s| ==> f(j) == DateCallAt(s, j);
  }

  /** The general `new Date(str)` fallback, whose parsing is left to the JavaScript
      engine: Some(date) for a valid date, None for an invalid one. */
  type HostDateParser = string -> Option<CalendarDate>

  /** `parseGoogleSheetsDate`: empty stays empty, DD/MM/YYYY passes through, the
      serialised `Date(Y,M,D)` form is reformatted with the month shifted to one-based,
      anything else goes through the engine's parser and is returned unchanged when
      that fails. */
  function NormalizeDate(s: string, host: HostDateParser): (r: string)
    ensures IsCanonical(s) ==> r == s
    ensures "Date(" <= s && DateCallAt(s, 0).Some? ==> r == FormatDate(DateCallAt(s, 0).value)
    ensures "Date(" <= s && FindDateCall(s, 0).Some? ==> r == FormatDate(FindDateCall(s, 0).value)
    ensures !IsCanonical(s) && !("Date(" <= s && FindDateCall(s, 0).Some?) ==>
              r == (if s == "" then "" else match host(s) case Some(d) => FormatDate(d) case None => s)
  {
    if s == "" then ""
    else if IsCanonical(s) then s
    else if "Date(" <= s && FindDateCall(s, 0).Some? then FormatDate(FindDateCall(s, 0).value)
    else match host(s)
      case Some(d) => FormatDate(d)
      case None => s
  }

  lemma DateCallExample()
    ensures DateCallAt("Date(2024,2,5)", 0) == Some(CalendarDate(2024, 2, 5))
  {
    var s := "Date(2024,2,5)";
    ExampleFields();
    assert s[0..] == s && "Date(" <= s;
  }

  lemma ExampleFields()
    ensures FieldAt("Date(2024,2,5)", 5, ',') == Some(Field(2024, 10))
    ensures FieldAt("Date(2024,2,5)", 10, ',') == Some(Field(2, 12))
    ensures FieldAt("Date(2024,2,5)", 12, ')') == Some(Field(5, 14))
  {
    var s := "Date(2024,2,5)";
    ExampleDigitRuns();
    assert s[5..9] == "2024" && s[10..11] == "2" && s[12..13] == "5";
    ExampleDigitValues();
  }

  lemma ExampleDigitRuns()
    ensures DigitRun("Date(2024,2,5)", 5) == 4
    ensures DigitRun("Date(2024,2,5)", 10) == 1
    ensures DigitRun("Date(2024,2,5)", 12) == 1
  {
    var s := "Date(2024,2,5)";
    assert DigitRun(s, 9) == 0;
    assert DigitRun(s, 8) == 1;
    assert DigitRun(s, 7) == 2;
    assert DigitRun(s, 6) == 3;
    assert DigitRun(s, 11) == 0;
    assert DigitRun(s, 13) == 0;
  }

  lemma ExampleDigitValues()
    ensures DigitsValue("2024") == 2024 && DigitsValue("2") == 2 && DigitsValue("5") == 5
  {
    assert DigitsValue("2") == 2;
    assert DigitsValue("5") == 5;
    assert DigitsValue("20") == 20;
    assert DigitsValue("202") == 202;
    assert "2024"[..3] == "202";
  }

  lemma FormatDateExample()
    ensures FormatDate(CalendarDate(2024, 2, 5)) == "05/03/2024"
  {
    assert PadStart2(NatToString(5)) == "05";
    assert PadStart2(NatToString(2 + 1)) == "03";
    assert IntToString(2024) == "2024";
  }

  /** The worked case: `Date(2024,2,5)` is the 5th of March 2024. */
  lemma NormalizeSerialisedExample(host: HostDateParser)
    ensures NormalizeDate("Date(2024,2,5)", host) == "05/03/2024"
  {
    DateCallExample();
    FormatDateExample();
    assert "Date(" <= "Date(2024,2,5)";
  }

  /** Normalising a serialised date whose fields fit two-digit day and month and a
      four-digit year gives a canonical string, which a second normalisation keeps. */
  lemma SerialisedDateNormalisesOnce(s: string, host: HostDateParser)
    requires "Date(" <= s && FindDateCall(s, 0).Some? && FitsCanonical(FindDateCall(s, 0).value)
    ensures IsCanonical(NormalizeDate(s, host))
    ensures NormalizeDate(NormalizeDate(s, host), host) == NormalizeDate(s, host)
  {
    FormatDateCanonical(FindDateCall(s, 0).value);
  }

  /** Normalisation is idempotent whenever the dates it may format for `s` (from the
      serialised form, or from the engine's parser) have two-digit day and month and
      a four-digit year. */
  lemma NormalizeIdempotent(s: string, host: HostDateParser)
    requires "Date(" <= s && FindDateCall(s, 0).Some? ==> FitsCanonical(FindDateCall(s, 0).value)
    requires host(s).Some? ==> FitsCanonical(host(s).value)
    ensures NormalizeDate(NormalizeDate(s, host), host) == NormalizeDate(s, host)
  {
    if s != "" && !IsCanonical(s) {
      if "Date(" <= s && FindDateCall(s, 0).Some? {
        FormatDateCanonical(FindDateCall(s, 0).value);
      } else if host(s).Some? {
        FormatDateCanonical(host(s).value);
      }
    }
  }

  // ---------------------------------------------------------------------------
  // Reading DD/MM/YYYY back: `parseDateFromDDMMYYYY`

  /** The parts joined back with "/" between them. */
  function JoinSlash(parts: seq<string>): string
    requires |parts| >= 1
  {
    if |parts| == 1 then parts[0] else JoinSlash(parts[..|parts| - 1]) + "/" + parts[|parts| - 1]
  }

  lemma JoinSlashExtendLast(parts: seq<string>, c: char)
    requires |parts| >= 1
    ensures JoinSlash(parts[..|parts| - 1] + [parts[|parts| - 1] + [c]]) == JoinSlash(parts) + [c]
  {
    var n := |parts|;
    var q := parts[..n - 1] + [parts[n - 1] + [c]];
    if n > 1 {
      assert q[..n - 1] == parts[..n - 1];
    }
  }

  lemma JoinSlashAppendEmpty(parts: seq<string>)
    requires |parts| >= 1
    ensures JoinSlash(parts + [""]) == JoinSlash(parts) + "/"
  {
    assert (parts + [""])[..|parts|] == parts;
  }

  /** String.prototype.split("/"): the maximal slash-free pieces, in order. */
  function SplitSlash(s: string): (parts: seq<string>)
    ensures |parts| >= 1
  {
    if s == [] then [""]
    else
      var init := SplitSlash(s[..|s| - 1]);
      var c := s[|s| - 1];
      if c == '/' then init + [""]
      else init[..|init| - 1] + [init[|init| - 1] + [c]]
  }

  /** The pieces contain no "/". */
  lemma {:induction false} SplitSlashPieces(s: string)
    ensures forall k :: 0 <= k < |SplitSlash(s)| ==> '/' !in SplitSlash(s)[k]
    decreases |s|
  {
    if s != [] {
      var init := SplitSlash(s[..|s| - 1]);
      var c := s[|s| - 1];
      SplitSlashPieces(s[..|s| - 1]);
      if c != '/' {
        var last := init[|init| - 1] + [c];
        assert '/' !in last;
        assert SplitSlash(s) == init[..|init| - 1] + [last];
      }
    }
  }

  /** Joining the pieces with "/" gives the string back. */
  lemma {:induction false} SplitSlashJoins(s: string)
    ensures JoinSlash(SplitSlash(s)) == s
    decreases |s|
  {
    if s != [] {
      var init := SplitSlash(s[..|s| - 1]);
      var c := s[|s| - 1];
      SplitSlashJoins(s[..|s| - 1]);
      assert s == s[..|s| - 1] + [c];
      if c == '/' {
        JoinSlashAppendEmpty(init);
      } else {
        JoinSlashExtendLast(init, c);
      }
    }
  }

  lemma SplitSlashPushSlash(s: string)
    ensures SplitSlash(s + "/") == SplitSlash(s) + [""]
  {
    assert (s + "/")[..|s|] == s;
  }

  lemma SplitSlashPushChar(s: string, c: char)
    requires c != '/'
    ensures var init := SplitSlash(s); SplitSlash(s + [c]) == init[..|init| - 1] + [init[|init| - 1] + [c]]
  {
    assert (s + [c])[..|s|] == s;
  }

  lemma {:induction false} SplitSlashAppend(x: string, y: string)
    requires '/' !in y
    ensures SplitSlash(x + "/" + y) == SplitSlash(x) + [y]
    decreases |y|
  {
    if y == [] {
      assert x + "/" + y == x + "/";
      SplitSlashPushSlash(x);
    } else {
      var y' := y[..|y| - 1];
      var c := y[|y| - 1];
      assert x + "/" + y == (x + "/" + y') + [c];
      SplitSlashAppend(x, y');
      SplitSlashPushChar(x + "/" + y', c);
      var init := SplitSlash(x) + [y'];
      assert init[..|init| - 1] == SplitSlash(x) && init[|init| - 1] + [c] == y;
    }
  }

  lemma {:induction false} SplitSlashFree(y: string)
    requires '/' !in y
    ensures SplitSlash(y) == [y]
    decreases |y|
  {
    if y != [] {
      assert y[..|y| - 1] + [y[|y| - 1]] == y;
      SplitSlashFree(y[..|y| - 1]);
    }
  }

  /** Splitting undoes joining: split("/") recovers any list of slash-free parts. */
  lemma {:induction false} SplitJoinRoundTrip(parts: seq<string>)
    requires |parts| >= 1
    requires forall k :: 0 <= k < |parts| ==> '/' !in parts[k]
    ensures SplitSlash(JoinSlash(parts)) == parts
  {
    if |parts| == 1 {
      SplitSlashFree(parts[0]);
    } else {
      var init := parts[..|parts| - 1];
      SplitJoinRoundTrip(init);
      SplitSlashAppend(JoinSlash(init), parts[|parts| - 1]);
      assert init + [parts[|parts| - 1]] == parts;
    }
  }

  /** Day, one-based month and year as written in a DD/MM/YYYY-like string. */
  datatype DayMonthYear = DMY(day: nat, month: nat, year: nat)

  /** The three numeric parts of a date string: None for the empty string or when
      "/" does not split it into exactly three runs of digits. */
  function ReadDayMonthYear(s: string): (r: Option<DayMonthYear>)
    ensures r.Some? <==>
      s != "" && |SplitSlash(s)| == 3 && forall k :: 0 <= k < 3 ==> AllDigits(SplitSlash(s)[k])
    ensures r.Some? ==> r.value == DMY(DigitsValue(SplitSlash(s)[0]), DigitsValue(SplitSlash(s)[1]), DigitsValue(SplitSlash(s)[2]))
  {
    if s == "" then None
    else
      var p := SplitSlash(s);
      if |p| != 3 || !AllDigits(p[0]) || !AllDigits(p[1]) || !AllDigits(p[2]) then None
      else Some(DMY(DigitsValue(p[0]), DigitsValue(p[1]), DigitsValue(p[2])))
  }

  lemma SplitThree(a: string, b: string, c: string)
    requires '/' !in a && '/' !in b && '/' !in c
    ensures SplitSlash(a + "/" + b + "/" + c) == [a, b, c]
  {
    SplitSlashFree(a);
    SplitSlashAppend(a, b);
    SplitSlashAppend(a + "/" + b, c);
  }

  lemma DigitsHaveNoSlash(s: string)
    requires AllDigits(s)
    ensures '/' !in s
  {
  }

  /** `split("/")` takes a formatted date apart into exactly its three fields: the
      padded day, the padded one-based month and the year's numeral (signed when
      negative). */
  lemma FormatDateSplits(d: CalendarDate)
    ensures SplitSlash(FormatDate(d)) ==
      [PadStart2(NatToString(d.day)), PadStart2(NatToString(d.month0 + 1)), IntToString(d.year)]
  {
    var a := PadStart2(NatToString(d.day));
    var b := PadStart2(NatToString(d.month0 + 1));
    var c := IntToString(d.year);
    PadStart2Value(NatToString(d.day));
    PadStart2Value(NatToString(d.month0 + 1));
    DigitsHaveNoSlash(a);
    DigitsHaveNoSlash(b);
    if d.year < 0 {
      DigitsHaveNoSlash(NatToString(-d.year));
      assert c == "-" + NatToString(-d.year);
    } else {
      DigitsHaveNoSlash(c);
    }
    SplitThree(a, b, c);
  }

  /** A date of a negative year formats to text whose year part is not all digits,
      so it reads back as no date at all. */
  lemma NegativeYearUnread(d: CalendarDate)
    requires d.year < 0
    ensures ReadDayMonthYear(FormatDate(d)).None?
  {
    FormatDateSplits(d);
    assert !IsDigit(IntToString(d.year)[0]);
  }

  /** Reading a formatted date gives back its day, one-based month and year. */
  lemma ReadFormattedDate(d: CalendarDate)
    requires d.year >= 0
    ensures ReadDayMonthYear(FormatDate(d)) == Some(DMY(d.day, d.month0 + 1, d.year))
  {
    var a := PadStart2(NatToString(d.day));
    var b := PadStart2(NatToString(d.month0 + 1));
    var c := NatToString(d.year);
    PadStart2Value(NatToString(d.day));
    PadStart2Value(NatToString(d.month0 + 1));
    DigitsValueOfNatToString(d.day);
    DigitsValueOfNatToString(d.month0 + 1);
    DigitsValueOfNatToString(d.year);
    DigitsHaveNoSlash(a);
    DigitsHaveNoSlash(b);
    DigitsHaveNoSlash(c);
    assert IntToString(d.year) == c;
    assert FormatDate(d) == a + "/" + b + "/" + c;
    SplitThree(a, b, c);
  }

  // ---------------------------------------------------------------------------
  // Day numbers, as in section 21.4.1 of ECMA-262 (Date objects)

  /** DayFromYear: days from 1 January 1970 to 1 January of year `y`. */
  function DayFromYear(y: int): int {
    365 * (y - 1970) + (y - 1969) / 4 - (y - 1901) / 100 + (y - 1601) / 400
  }

  predicate InLeapYear(y: int) {
    y % 4 == 0 && (y % 100 != 0 || y % 400 == 0)
  }

  function DaysInMonth(y: int, m: nat): nat
    requires m < 12
  {
    if m == 1 then (if InLeapYear(y) then 29 else 28)
    else if m == 3 || m == 5 || m == 8 || m == 10 then 30
    else 31
  }

  /** Days in the months of year `y` before month `m` (zero-based). */
  function DaysBeforeMonth(y: int, m: nat): nat
    requires m < 12
  {
    [0, 31, 59, 90, 120, 151, 181, 212, 243, 273, 304, 334][m] + (if m >= 2 && InLeapYear(y) then 1 else 0)
  }

  /** The month table adds up: each month starts where the previous one ends, and
      December ends with the year. */
  lemma DaysBeforeMonthStep(y: int, m: nat)
    requires m < 12
    ensures DaysBeforeMonth(y, m) + DaysInMonth(y, m)
            == if m == 11 then (if InLeapYear(y) then 366 else 365) else DaysBeforeMonth(y, m + 1)
  {
  }

  /** MakeDay(year, month, date): months outside 0..11 carry into the year and days
      outside the month run on into the next ones. */
  function MakeDay(year: int, month: int, date: int): int {
    var ym := year + month / 12;
    var mn := month % 12;
    DayFromYear(ym) + DaysBeforeMonth(ym, mn) + date - 1
  }

  /** The day `new Date(y, m, d)` denotes; years 0..99 are read as 1900..1999. The
      local-time offset shifts every such date by less than a day and is left out. */
  function LocalDay(y: int, m: int, d: int): int {
    MakeDay(if 0 <= y <= 99 then 1900 + y else y, m, d)
  }

  /** `parseDateFromDDMMYYYY` reduced to its day number: None where the page gets null. */
  function DateKey(s: string): (r: Option<int>)
    ensures r.None? <==> ReadDayMonthYear(s).None?
    ensures r.Some? ==> var dmy := ReadDayMonthYear(s).value; r.value == LocalDay(dmy.year, dmy.month - 1, dmy.day)
  {
    match ReadDayMonthYear(s)
    case None => None
    case Some(dmy) => Some(LocalDay(dmy.year, dmy.month - 1, dmy.day))
  }

  /** A year is 365 days long, 366 in a leap year. */
  lemma DayFromYearStep(y: int)
    ensures DayFromYear(y + 1) == DayFromYear(y) + (if InLeapYear(y) then 366 else 365)
  {
    LeapCounts(y);
    LeapDivisors(y);
  }

  /** Every multiple of 400 is a multiple of 100, and every multiple of 100 one of 4. */
  lemma LeapDivisors(y: int)
    ensures y % 400 == 0 ==> y % 100 == 0
    ensures y % 100 == 0 ==> y % 4 == 0
  {
    if y % 400 == 0 {
      MultipleOf(y, 4 * (y / 400), 100);
    }
    if y % 100 == 0 {
      MultipleOf(y, 25 * (y / 100), 4);
    }
  }

  lemma MultipleOf(y: int, q: int, k: int)
    requires k == 4 || k == 100
    requires y == k * q
    ensures y % k == 0
  {
    if k == 4 {
      assert y == 4 * q;
    } else {
      assert y == 100 * q;
    }
  }

  /** Moving to the next year passes one more multiple of 4, 100 or 400 exactly when
      the year itself is such a multiple. */
  lemma LeapCounts(y: int)
    ensures (y + 1 - 1969) / 4 == (y - 1969) / 4 + (if y % 4 == 0 then 1 else 0)
    ensures (y + 1 - 1901) / 100 == (y - 1901) / 100 + (if y % 100 == 0 then 1 else 0)
    ensures (y + 1 - 1601) / 400 == (y - 1601) / 400 + (if y % 400 == 0 then 1 else 0)
  {
    var a, b := y / 4, y % 4;
    assert y == 4 * a + b && 0 <= b < 4;
    if b == 0 {
      assert y - 1969 == 4 * (a - 493) + 3 && y + 1 - 1969 == 4 * (a - 492);
    } else {
      assert y - 1969 == 4 * (a - 492) + (b - 1) && y + 1 - 1969 == 4 * (a - 492) + b;
    }
    var c, d := y / 100, y % 100;
    assert y == 100 * c + d && 0 <= d < 100;
    if d == 0 {
      assert y - 1901 == 100 * (c - 20) + 99 && y + 1 - 1901 == 100 * (c - 19);
    } else {
      assert y - 1901 == 100 * (c - 19) + (d - 1) && y + 1 - 1901 == 100 * (c - 19) + d;
    }
    var e, f := y / 400, y % 400;
    assert y == 400 * e + f && 0 <= f < 400;
    if f == 0 {
      assert y - 1601 == 400 * (e - 5) + 399 && y + 1 - 1601 == 400 * (e - 4);
    } else {
      assert y - 1601 == 400 * (e - 4) + (f - 1) && y + 1 - 1601 == 400 * (e - 4) + f;
    }
  }

  lemma {:induction false} DayFromYearMonotone(a: int, b: int)
    requires a < b
    ensures DayFromYear(a + 1) <= DayFromYear(b)
    decreases b - a
  {
    if a + 1 < b {
      DayFromYearMonotone(a, b - 1);
      DayFromYearStep(b - 1);
    }
  }

  lemma {:induction false} DaysBeforeMonthMonotone(y: int, m: nat, n: nat)
    requires m < n < 12
    ensures DaysBeforeMonth(y, m) + DaysInMonth(y, m) <= DaysBeforeMonth(y, n)
    decreases n - m
  {
    DaysBeforeMonthStep(y, m);
    if m + 1 < n {
      DaysBeforeMonthMonotone(y, m + 1, n);
      DaysBeforeMonthStep(y, m + 1);
    }
  }

  lemma MakeDayOfValid(d: CalendarDate)
    requires ValidDate(d)
    ensures MakeDay(d.year, d.month0, d.day) == DayFromYear(d.year) + DaysBeforeMonth(d.year, d.month0) + d.day - 1
  {
    assert d.month0 / 12 == 0 && d.month0 % 12 == d.month0;
  }

  /** Every valid date of year `y` falls within that year's days. */
  lemma MakeDayWithinYear(d: CalendarDate)
    requires ValidDate(d)
    ensures DayFromYear(d.year) <= MakeDay(d.year, d.month0, d.day) < DayFromYear(d.year + 1)
  {
    MakeDayOfValid(d);
    DayFromYearStep(d.year);
    DaysBeforeMonthStep(d.year, 11);
    if d.month0 < 11 {
      DaysBeforeMonthMonotone(d.year, d.month0, 11);
    }
  }

  /** Strict calendar order: earlier year, or same year and earlier month, or same month and earlier day. */
  predicate Earlier(d: CalendarDate, e: CalendarDate) {
    || d.year < e.year
    || (d.year == e.year && d.month0 < e.month0)
    || (d.year == e.year && d.month0 == e.month0 && d.day < e.day)
  }

  lemma EarlierHasSmallerDay(d: CalendarDate, e: CalendarDate)
    requires ValidDate(d) && ValidDate(e) && Earlier(d, e)
    ensures MakeDay(d.year, d.month0, d.day) < MakeDay(e.year, e.month0, e.day)
  {
    if d.year < e.year {
      EarlierYearSmallerDay(d, e);
    } else {
      MakeDayOfValid(d);
      MakeDayOfValid(e);
      if d.month0 < e.month0 {
        DaysBeforeMonthMonotone(d.year, d.month0, e.month0);
      }
    }
  }

  lemma EarlierYearSmallerDay(d: CalendarDate, e: CalendarDate)
    requires ValidDate(d) && ValidDate(e) && d.year < e.year
    ensures MakeDay(d.year, d.month0, d.day) < MakeDay(e.year, e.month0, e.day)
  {
    MakeDayWithinYear(d);
    MakeDayWithinYear(e);
    DayFromYearMonotone(d.year, e.year);
  }

  /** On valid dates, comparing day numbers is comparing calendar dates, in both directions. */
  lemma MakeDayChronological(d: CalendarDate, e: CalendarDate)
    requires ValidDate(d) && ValidDate(e)
    ensures MakeDay(d.year, d.month0, d.day) < MakeDay(e.year, e.month0, e.day) <==> Earlier(d, e)
    ensures MakeDay(d.year, d.month0, d.day) == MakeDay(e.year, e.month0, e.day) <==> d == e
  {
    if Earlier(d, e) {
      EarlierHasSmallerDay(d, e);
    } else if Earlier(e, d) {
      EarlierHasSmallerDay(e, d);
    }
  }

  /** The key of a formatted valid date from year 100 on is that date's own day
      number, so ordering by key orders formatted dates chronologically. */
  lemma DateKeyOfFormattedDate(d: CalendarDate)
    requires ValidDate(d) && d.year >= 100
    ensures DateKey(FormatDate(d)) == Some(MakeDay(d.year, d.month0, d.day))
  {
    ReadFormattedDate(d);
  }
}
