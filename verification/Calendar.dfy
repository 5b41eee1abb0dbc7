/** The calendar arithmetic of src/external/strptime.cxx. */
module Calendar {
  import CString
  import opened MachineInts

  /** C's remainder, which has the sign of the dividend. */
  function CRem(a: int, b: int): int
    requires b > 0
  {
    if a >= 0 then a % b else -((-a) % b)
  }

  /** `isleap` and `isleap_sum` */
  predicate IsLeap(y: int) {
    CRem(y, 4) == 0 && (CRem(y, 100) != 0 || CRem(y, 400) == 0)
  }

  predicate IsLeapSum(a: int, b: int) {
    IsLeap(CRem(a, 400) + CRem(b, 400))
  }

  lemma Remainder(x: int, b: int, q: int, r: int)
    requires b > 0 && x == b * q + r && 0 <= r < b
    ensures x % b == r
  {
    var d := x / b - q;
    assert b * (x / b) == b * q + b * d;
    assert d >= 1 ==> b * d >= b;
    assert d <= -1 ==> b * d <= -b;
  }

  lemma Multiple(x: int, b: int, q: int)
    requires b > 0 && x == b * q
    ensures x % b == 0
  {
    Remainder(x, b, q, 0);
  }

  lemma CRemZero(y: int, b: int)
    requires b > 0
    ensures CRem(y, b) == 0 <==> y % b == 0
  {
    if y < 0 {
      var q := y / b;
      assert y == b * q + y % b;
      if y % b == 0 {
        Multiple(-y, b, -q);
      } else {
        Remainder(-y, b, -q - 1, b - y % b);
      }
    }
  }

  /** The rule in terms of divisibility, for years of either sign. */
  lemma LeapRule(y: int)
    ensures IsLeap(y) <==> y % 4 == 0 && (y % 100 != 0 || y % 400 == 0)
  {
    CRemZero(y, 4);
    CRemZero(y, 100);
    CRemZero(y, 400);
  }

  lemma SameMod(x: int, y: int, b: int, k: int)
    requires b > 0 && x == y + b * k
    ensures x % b == y % b
  {
    assert y == b * (y / b) + y % b;
    assert b * (y / b) + b * k == b * (y / b + k);
    Remainder(x, b, y / b + k, y % b);
  }

  lemma SameMod400(x: int, y: int, k: int)
    requires x == y + 400 * k
    ensures x % 4 == y % 4 && x % 100 == y % 100 && x % 400 == y % 400
  {
    SameMod(x, y, 4, 100 * k);
    SameMod(x, y, 100, 4 * k);
    SameMod(x, y, 400, k);
  }

  /** How often 400 goes into a number, cut towards zero. */
  function CountOf(a: int): (k: int)
    ensures a == CRem(a, 400) + 400 * k
  {
    if a >= 0 then a / 400 else -((-a) / 400)
  }

  /** A leap year is known from a year count and its base without adding them: the sum of the remainders
      decides as the sum does, for arguments of either sign. */
  lemma LeapSum(a: int, b: int)
    ensures IsLeapSum(a, b) <==> IsLeap(a + b)
  {
    var s := CRem(a, 400) + CRem(b, 400);
    LeapRule(s);
    LeapRule(a + b);
    hide IsLeap, CRem;
    SameMod400(a + b, s, CountOf(a) + CountOf(b));
  }

  function LeapDay(y: int): int { if IsLeap(y) then 1 else 0 }

  /** The sum in `first_wday_of`. */
  function WdaySum(yr: nat): nat {
    2 * (3 - yr / 100 % 4) + yr % 100 + yr % 100 / 4 + (if IsLeap(yr) then 6 else 0) + 1
  }

  /** `first_wday_of`: 0 is Sunday. */
  function FirstWday(yr: nat): nat {
    WdaySum(yr) % 7
  }

  lemma SameMod7(a: int, b: int, k: int)
    requires a == b + 7 * k
    ensures a % 7 == b % 7
  {}

  /** Within a century the year's last two digits decide, but for its first year. */
  lemma LeapInCentury(y: nat, h: nat, r: nat)
    requires y == 100 * h + r && r < 100
    ensures y / 100 == h && y % 100 == r
    ensures IsLeap(y) <==> if r == 0 then h % 4 == 0 else r % 4 == 0
  {
    LeapRule(y);
    assert y % 4 == r % 4;
    if r == 0 { assert y % 400 == 100 * (h % 4); }
  }

  lemma SumInCentury(y: nat, h: nat, r: nat)
    requires y == 100 * h + r && r < 100
    ensures WdaySum(y) == 2 * (3 - h % 4) + r + r / 4 + 6 * LeapDay(y) + 1
    ensures LeapDay(y) == if r == 0 then (if h % 4 == 0 then 1 else 0) else (if r % 4 == 0 then 1 else 0)
  {
    LeapInCentury(y, h, r);
    hide IsLeap;
  }

  lemma NextQuarter(r: nat)
    ensures (r + 1) / 4 == r / 4 + (if (r + 1) % 4 == 0 then 1 else 0)
    ensures (r + 1) % 4 == (if r % 4 == 3 then 0 else r % 4 + 1)
  {}

  /** A year begins as many weekdays later as the year before it had days. */
  lemma WdayNext(y: nat)
    ensures FirstWday(y + 1) == (FirstWday(y) + 365 + LeapDay(y)) % 7
  {
    var h, r := y / 100, y % 100;
    SumInCentury(y, h, r);
    NextQuarter(r);
    NextQuarter(h);
    hide IsLeap, WdaySum, LeapDay;
    var l := LeapDay(y);
    var k;
    if r < 99 {
      SumInCentury(y + 1, h, r + 1);
      k := -52 + ((r + 1) / 4 - r / 4) - l;
    } else {
      SumInCentury(y + 1, h + 1, 0);
      k := if h % 4 == 3 then -68 else -70;
    }
    assert WdaySum(y + 1) == WdaySum(y) + 365 + l + 7 * k;
    SameMod7(WdaySum(y + 1), WdaySum(y) + 365 + l, k);
    SameMod7(WdaySum(y) + 365 + l, FirstWday(y) + 365 + l, WdaySum(y) / 7);
  }

  /** Days from the first of January of year 0 to that of year `y`. */
  function DaysBefore(y: nat): nat {
    if y == 0 then 0 else DaysBefore(y - 1) + 365 + LeapDay(y - 1)
  }

  /** Counting days from a Saturday gives the same weekday. */
  lemma {:induction false} WdayIs(y: nat)
    ensures FirstWday(y) == (6 + DaysBefore(y)) % 7
  {
    if y == 0 {
      LeapRule(0);
    } else {
      WdayIs(y - 1);
      WdayNext(y - 1);
      var d := 6 + DaysBefore(y - 1);
      hide FirstWday, LeapDay;
      SameMod7(d + 365 + LeapDay(y - 1), d % 7 + 365 + LeapDay(y - 1), d / 7);
    }
  }

  lemma NextFour(z: nat)
    ensures (z + 4) / 4 - (z + 3) / 4 == if z % 4 == 0 then 1 else 0
  {}

  lemma NextHundred(z: nat)
    ensures (z + 100) / 100 - (z + 99) / 100 == if z % 100 == 0 then 1 else 0
    ensures z % 100 == 0 ==> z % 4 == 0
  {
    var q, r := z / 100, z % 100;
    assert (z + 100) / 100 == q + 1;
    assert z % 100 == 0 ==> z == 4 * (25 * q);
  }

  lemma NextFourHundred(z: nat)
    ensures (z + 400) / 400 - (z + 399) / 400 == if z % 400 == 0 then 1 else 0
    ensures z % 400 == 0 ==> z % 100 == 0
  {
    var q := z / 400;
    assert (z + 400) / 400 == q + 1;
    assert z % 400 == 0 ==> z == 100 * (4 * q);
  }

  /** The number of days in closed form. */
  lemma {:induction false} DaysClosed(y: nat)
    ensures DaysBefore(y) == 365 * y + (y + 3) / 4 - (y + 99) / 100 + (y + 399) / 400
  {
    hide IsLeap;
    if y == 0 {
    } else {
      DaysClosed(y - 1);
      LeapRule(y - 1);
      NextFour(y - 1);
      NextHundred(y - 1);
      NextFourHundred(y - 1);
    }
  }

  /** After four hundred years the weekdays repeat. */
  lemma WdayPeriod(y: nat)
    ensures FirstWday(y + 400) == FirstWday(y)
  {
    WdayIs(y);
    WdayIs(y + 400);
    DaysClosed(y);
    DaysClosed(y + 400);
    hide FirstWday, DaysBefore;
    assert (y + 403) / 4 == (y + 3) / 4 + 100 && (y + 499) / 100 == (y + 99) / 100 + 4;
    assert (y + 799) / 400 == (y + 399) / 400 + 1;
    SameMod7(6 + DaysBefore(y + 400), 6 + DaysBefore(y), 20871);
  }

  /** The years 1970, 2000 and 2024 began on a Thursday, a Saturday and a Monday. */
  lemma KnownDays()
    ensures FirstWday(1970) == 4 && FirstWday(2000) == 6 && FirstWday(2024) == 1
  {
    LeapRule(1970);
    LeapRule(2000);
    LeapRule(2024);
  }

  // ---- days and months ----

  /** `start_of_month`, both rows one after the other as they are in memory. */
  const STARTS: seq<int> := [0, 31, 59, 90, 120, 151, 181, 212, 243, 273, 304, 334, 365,
                             0, 31, 60, 91, 121, 152, 182, 213, 244, 274, 305, 335, 366]

  function Row(leap: bool): nat { if leap then 13 else 0 }

  function StartOf(leap: bool, mon: nat): int
    requires mon <= 12
  {
    STARTS[Row(leap) + mon]
  }

  function MonthLength(leap: bool, mon: nat): nat
    requires mon < 12
  {
    if mon == 1 then (if leap then 29 else 28)
    else if mon == 3 || mon == 5 || mon == 8 || mon == 10 then 30
    else 31
  }

  function YearLength(leap: bool): nat { if leap then 366 else 365 }

  /** The table adds up the months' lengths. */
  lemma TableIs(leap: bool, mon: nat)
    requires mon < 12
    ensures StartOf(leap, 0) == 0 && StartOf(leap, mon + 1) == StartOf(leap, mon) + MonthLength(leap, mon)
    ensures StartOf(leap, 12) == YearLength(leap)
  {}

  /** From March on the months start as five months of 153 days in all say. */
  lemma MonthStarts(leap: bool, mon: nat)
    requires mon <= 12
    ensures StartOf(leap, mon)
            == if mon < 2 then 31 * mon else 59 + (153 * (mon - 2) + 2) / 5 + if leap then 1 else 0
  {}

  predicate ValidDate(leap: bool, mon: int, mday: int) {
    0 <= mon < 12 && 1 <= mday <= MonthLength(leap, mon)
  }

  /** Day of the year of a date. */
  function Yday(leap: bool, mon: nat, mday: int): int
    requires mon < 12
  {
    StartOf(leap, mon) + (mday - 1)
  }

  lemma {:induction false} StartsIncrease(leap: bool, m: nat, n: nat)
    requires m <= n <= 12
    ensures StartOf(leap, m) <= StartOf(leap, n)
    ensures m < n ==> StartOf(leap, m + 1) <= StartOf(leap, n)
    decreases n - m
  {
    if m == n {
    } else {
      TableIs(leap, m);
      StartsIncrease(leap, m + 1, n);
    }
  }

  lemma YdayInYear(leap: bool, mon: nat, mday: int)
    requires ValidDate(leap, mon, mday)
    ensures 0 <= Yday(leap, mon, mday) < YearLength(leap)
  {
    TableIs(leap, mon);
    StartsIncrease(leap, 0, mon);
    StartsIncrease(leap, mon + 1, 12);
  }

  /** No two dates of a year have the same day of the year. */
  lemma YdayInjective(leap: bool, mon: nat, mday: int, mon': nat, mday': int)
    requires ValidDate(leap, mon, mday) && ValidDate(leap, mon', mday')
    requires Yday(leap, mon, mday) == Yday(leap, mon', mday')
    ensures mon == mon' && mday == mday'
  {
    TableIs(leap, mon);
    TableIs(leap, mon');
    if mon < mon' {
      StartsIncrease(leap, mon, mon');
    } else if mon' < mon {
      StartsIncrease(leap, mon', mon);
    }
  }

  /** The search for month and day of the month. Day 365 of a year that has no such day runs on through the
      table's second row, and becomes the first of January of the next year. */
  method MonthAndDay(year: int, yday: int) returns (year': int, yday': int, mon: int, mday: int)
    requires 0 <= yday < 366
    ensures ValidDate(IsLeapSum(year', 1900), mon, mday) && yday' == Yday(IsLeapSum(year', 1900), mon, mday)
    ensures yday < YearLength(IsLeapSum(year, 1900)) ==> year' == year && yday' == yday
    ensures yday >= YearLength(IsLeapSum(year, 1900)) ==> year' == year + 1 && yday' == 0 && mon == 0 && mday == 1
  {
    year', yday' := year, yday;
    var leap := IsLeapSum(year', 1900);
    var i := 0;
    while yday' >= STARTS[Row(leap) + i]
      invariant 0 <= i && Row(leap) + i < |STARTS| && (leap ==> i <= 12)
      invariant 0 < i <= 12 ==> yday' >= StartOf(leap, i - 1)
      invariant i > 12 ==> yday' >= 365 && !leap
      decreases |STARTS| - i
    {
      TableIs(leap, 0);
      i := i + 1;
    }
    if i > 12 {
      i := 1;
      yday' := yday' - STARTS[Row(leap) + 12];
      year' := year' + 1;
    } else {
      TableIs(leap, i - 1);
    }
    mon := i - 1;
    leap := IsLeapSum(year', 1900);
    mday := yday' - STARTS[Row(leap) + mon] + 1;
  }

  /** From a date to its day of the year and back. */
  method DateRoundTrip(year: int, mon: nat, mday: int) returns (mon': int, mday': int)
    requires ValidDate(IsLeapSum(year, 1900), mon, mday)
    ensures mon' == mon && mday' == mday
  {
    var leap := IsLeapSum(year, 1900);
    YdayInYear(leap, mon, mday);
    var yday := StartOf(leap, mon) + (mday - 1);
    var y, d;
    y, d, mon', mday' := MonthAndDay(year, yday);
    YdayInjective(leap, mon, mday, mon', mday');
  }

  // ---- numbers in dates ----

  predicate IsDigit(c: char) { '0' <= c <= '9' }

  function DigitOf(c: char): nat
    requires IsDigit(c)
  {
    (c - '0') as nat
  }

  /** The number that `k` digits from `i` on write. */
  function ValueOf(s: string, i: nat, k: nat): nat
    requires i + k <= |s| && (forall j :: i <= j < i + k ==> IsDigit(s[j]))
  {
    if k == 0 then 0 else 10 * ValueOf(s, i, k - 1) + DigitOf(s[i + k - 1])
  }

  /** How many digits a limit has. */
  function Digits(n: nat): nat {
    if n == 0 then 0 else 1 + Digits(n / 10)
  }

  lemma {:induction false} SameValue(s: string, t: string, k: nat)
    requires k <= |s| && k <= |t| && s[..k] == t[..k] && forall j :: 0 <= j < k ==> IsDigit(s[j])
    ensures forall j :: 0 <= j < k ==> IsDigit(t[j])
    ensures ValueOf(s, 0, k) == ValueOf(t, 0, k)
  {
    forall j | 0 <= j < k ensures s[j] == t[j] { assert s[..k][j] == t[..k][j]; }
    if k == 0 {
    } else {
      assert s[..k - 1] == s[..k][..k - 1] == t[..k][..k - 1] == t[..k - 1];
      SameValue(s, t, k - 1);
    }
  }

  /** The digits of a number are read as that number. */
  lemma {:induction false} ReadsWritten(n: nat)
    ensures var s := CString.Decimal(n);
            (forall j :: 0 <= j < |s| ==> IsDigit(s[j])) && ValueOf(s, 0, |s|) == n
  {
    var s := CString.Decimal(n);
    if n < 10 {
      assert ValueOf(s, 0, 0) == 0;
    } else {
      var t := CString.Decimal(n / 10);
      ReadsWritten(n / 10);
      assert s[..|t|] == t == t[..|t|];
      SameValue(t, s, |t|);
    }
  }

  lemma {:induction false} ValueBelow(s: string, i: nat, k: nat)
    requires i + k <= |s| && (forall j :: i <= j < i + k ==> IsDigit(s[j]))
    ensures ValueOf(s, i, k) < PowerOf10(k)
  {
    if k == 0 {
    } else {
      ValueBelow(s, i, k - 1);
    }
  }

  lemma {:induction false} PowerGrows(k: nat, n: nat)
    requires k <= n
    ensures PowerOf10(k) <= PowerOf10(n)
  {
    if k == n {
    } else {
      PowerGrows(k, n - 1);
    }
  }

  lemma PowerOf9()
    ensures PowerOf10(9) == 1_000_000_000
  {
    assert PowerOf10(3) == 1000;
    assert PowerOf10(6) == 1_000_000;
  }

  lemma PowerPositive(k: nat)
    ensures PowerOf10(k) > 0
  {}

  /** A number has more than `k` digits exactly from the power of 10 on. */
  lemma {:induction false} DigitsAre(n: nat, k: nat)
    ensures Digits(n) > k <==> n >= PowerOf10(k)
    decreases k
  {
    if k == 0 {
    } else {
      PowerPositive(k - 1);
      DigitsAre(n / 10, k - 1);
    }
  }

  /** The `k` digits at `at` are read, modulo 2^32. */
  ghost predicate HasRead(buf: string, at: nat, k: nat, result: nat) {
    && at + k <= |buf| && (forall j :: at <= j < at + k ==> IsDigit(buf[j]))
    && result == ValueOf(buf, at, k) % TWO32
  }

  lemma ReadFirst(buf: string, at: nat)
    requires at < |buf| && IsDigit(buf[at])
    ensures HasRead(buf, at, 1, DigitOf(buf[at]))
  {
    assert ValueOf(buf, at, 0) == 0;
  }

  lemma DigitJoins(v: nat, d: nat)
    ensures ((v % TWO32 * 10) % TWO32 + d) % TWO32 == (10 * v + d) % TWO32
  {
    var q, r := v / TWO32, v % TWO32;
    assert 10 * v + d == (10 * q) * TWO32 + (r * 10 + d);
  }

  lemma ReadNext(buf: string, at: nat, k: nat, result: nat)
    requires HasRead(buf, at, k, result) && at + k < |buf| && IsDigit(buf[at + k])
    ensures HasRead(buf, at, k + 1, ((result * 10) % TWO32 + DigitOf(buf[at + k])) % TWO32)
  {
    var v, d := ValueOf(buf, at, k), DigitOf(buf[at + k]);
    assert ValueOf(buf, at, k + 1) == 10 * v + d;
    hide ValueOf;
    DigitJoins(v, d);
  }

  /** Limits below 10^9 leave room for nine digits, which are not enough to reach 2^32. */
  lemma NineDigits(s: string, i: nat, k: nat, ulim: nat)
    requires i + k <= |s| && (forall j :: i <= j < i + k ==> IsDigit(s[j]))
    requires ulim < 1_000_000_000 && k <= if ulim == 0 then 1 else Digits(ulim)
    ensures ValueOf(s, i, k) % TWO32 == ValueOf(s, i, k)
  {
    PowerOf9();
    hide ValueOf, Digits, PowerOf10;
    DigitsAre(ulim, 9);
    ValueBelow(s, i, k);
    PowerGrows(k, 9);
  }

  /** The reading goes on behind `k` digits: with another digit, if the limit has more digits than were read and
      ten times the number so far, modulo 2^32, does not exceed it. */
  ghost predicate GoesOn(buf: string, at: nat, k: nat, ulim: nat) {
    && at + k < |buf| && (forall j :: at <= j <= at + k ==> IsDigit(buf[j]))
    && PowerOf10(k) <= ulim && 10 * ValueOf(buf, at, k) % TWO32 <= ulim
  }

  lemma TenTimes(v: nat)
    ensures (v % TWO32 * 10) % TWO32 == 10 * v % TWO32
  {
    DigitJoins(v, 0);
  }

  lemma NoDigits(n: nat)
    ensures Digits(n) == 0 <==> n == 0
    ensures n != 0 ==> Digits(n) == 1 + Digits(n / 10)
  {}

  /** The test of the loop. */
  lemma LoopTest(buf: string, at: nat, k: nat, result: nat, rulim: nat, ulim: nat)
    requires HasRead(buf, at, k, result) && k > 0 && at + k < |buf|
    requires Digits(rulim) + k == if ulim == 0 then 1 else Digits(ulim)
    ensures (result * 10) % TWO32 <= ulim && rulim != 0 && IsDigit(buf[at + k]) <==> GoesOn(buf, at, k, ulim)
  {
    hide ValueOf, Digits, IsDigit, PowerOf10;
    TenTimes(ValueOf(buf, at, k));
    DigitsAre(ulim, k);
    NoDigits(rulim);
  }

  lemma Stops(buf: string, at: nat, k: nat, result: nat, ulim: nat)
    requires HasRead(buf, at, k, result) && at + k < |buf| && !GoesOn(buf, at, k, ulim)
    ensures !IsDigit(buf[at + k]) || PowerOf10(k) > ulim || 10 * ValueOf(buf, at, k) % TWO32 > ulim
  {}

  lemma ReadAll(buf: string, at: nat, k: nat, result: nat, ulim: nat)
    requires HasRead(buf, at, k, result) && k <= if ulim == 0 then 1 else Digits(ulim)
    ensures at + k <= |buf| && (forall j :: at <= j < at + k ==> IsDigit(buf[j]))
    ensures result == ValueOf(buf, at, k) % TWO32
    ensures ulim < 1_000_000_000 ==> result == ValueOf(buf, at, k)
  {
    if ulim < 1_000_000_000 { NineDigits(buf, at, k, ulim); }
  }

  /** `conv_num` on a string that ends with its NUL: the number of the longest run of digits that the limit
      leaves room for, if it is between the limits. It computes modulo 2^32, which makes no difference for
      limits below 10^9. */
  method ConvNum(buf: string, at: nat, llim: nat, ulim: nat) returns (ok: bool, result: nat, end: nat)
    requires at < |buf| && buf[|buf| - 1] == '\0' && ulim < TWO32
    ensures !IsDigit(buf[at]) ==> !ok
    ensures IsDigit(buf[at]) ==>
              && at < end < |buf| && (forall j :: at <= j < end ==> IsDigit(buf[j]))
              && (forall k :: 0 < k < end - at ==> GoesOn(buf, at, k, ulim))
              && (!IsDigit(buf[end]) || PowerOf10(end - at) > ulim
                  || 10 * ValueOf(buf, at, end - at) % TWO32 > ulim)
              && result == ValueOf(buf, at, end - at) % TWO32
              && (ulim < 1_000_000_000 ==> result == ValueOf(buf, at, end - at))
              && (ok <==> llim <= result <= ulim)
  {
    hide HasRead, ValueOf, DigitOf, GoesOn, PowerOf10, Digits;
    result, end := 0, at;
    var rulim := ulim;
    if !IsDigit(buf[at]) { return false, 0, at; }
    ReadFirst(buf, at);
    result := DigitOf(buf[end]);
    NoDigits(rulim);
    NoDigits(rulim / 10);
    rulim := rulim / 10;
    end := end + 1;
    while (result * 10) % TWO32 <= ulim && rulim != 0 && IsDigit(buf[end])
      invariant at < end < |buf| && HasRead(buf, at, end - at, result)
      invariant Digits(rulim) + (end - at) == (if ulim == 0 then 1 else Digits(ulim))
      invariant forall k :: 0 < k < end - at ==> GoesOn(buf, at, k, ulim)
      decreases |buf| - end
    {
      LoopTest(buf, at, end - at, result, rulim, ulim);
      ReadNext(buf, at, end - at, result);
      result := (result * 10) % TWO32;
      result := (result + DigitOf(buf[end])) % TWO32;
      NoDigits(rulim);
      rulim := rulim / 10;
      end := end + 1;
    }
    LoopTest(buf, at, end - at, result, rulim, ulim);
    Stops(buf, at, end - at, result, ulim);
    ReadAll(buf, at, end - at, result, ulim);
    ok := !(result < llim || result > ulim);
  }
}
