// SQLite's timestamp column (adapters/sqlite/db.go, encodeTime): when the byte
// order of RFC 3339 strings is the order of the instants they denote.

module Timestamp {
  import opened Common
  import opened Text

  /** An instant split into UTC calendar fields, as time.Format sees it. */
  datatype Civil = Civil(year: nat, month: nat, day: nat, hour: nat, minute: nat, second: nat, nanos: nat) {
    predicate Valid() {
      && year <= 9999 && 1 <= month <= 12 && 1 <= day <= DaysIn(year, month)
      && hour < 24 && minute < 60 && second < 60 && nanos < 1_000_000_000
    }
  }

  // ----- The calendar

  predicate IsLeap(y: nat) {
    y % 4 == 0 && (y % 100 != 0 || y % 400 == 0)
  }

  function DaysIn(y: nat, m: nat): (d: nat)
    ensures 28 <= d <= 31
  {
    if m == 2 then (if IsLeap(y) then 29 else 28)
    else if m == 4 || m == 6 || m == 9 || m == 11 then 30
    else 31
  }

  /** Days of year y before month m. */
  function MonthStart(y: nat, m: nat): nat {
    if m <= 1 then 0 else MonthStart(y, m - 1) + DaysIn(y, m - 1)
  }

  /** Days before year y, counted from year 0. */
  function YearStart(y: nat): nat {
    if y == 0 then 0 else YearStart(y - 1) + MonthStart(y - 1, 13)
  }

  function DayNumber(c: Civil): nat
    requires c.Valid()
  {
    YearStart(c.year) + MonthStart(c.year, c.month) + (c.day - 1)
  }

  /** Whole seconds since Go's zero time, 1 January of year 1. */
  function WholeSeconds(c: Civil): int
    requires c.Valid()
  {
    (DayNumber(c) - 366) * 86_400 + c.hour * 3_600 + c.minute * 60 + c.second
  }

  function Instant(c: Civil): Time
    requires c.Valid()
  {
    WholeSeconds(c) * SECOND + c.nanos
  }

  /** Days before year y by the Gregorian rule: a day more every fourth year, but not every
      hundredth, but every four-hundredth. */
  function GregorianStart(y: nat): int {
    365 * y + (y + 3) / 4 - (y + 99) / 100 + (y + 399) / 400
  }

  lemma {:induction false} YearsAreGregorian(y: nat)
    ensures YearStart(y) == GregorianStart(y)
  {
    if y > 0 {
      YearsAreGregorian(y - 1);
      YearLength(y - 1);
    }
  }

  lemma YearLength(y: nat)
    ensures MonthStart(y, 13) == GregorianStart(y + 1) - GregorianStart(y)
  {
    MonthsOfTheYear(y);
    GregorianYear(y);
  }

  lemma GregorianYear(y: nat)
    ensures GregorianStart(y + 1) ==
            GregorianStart(y) + 365 + if y % 4 == 0 && (y % 100 != 0 || y % 400 == 0) then 1 else 0
  {
    FourthYear(y);
    HundredthYear(y);
    FourHundredthYear(y);
    DividesOn(y);
  }

  lemma FourthYear(y: nat)
    ensures (y + 1 + 3) / 4 == (y + 3) / 4 + if y % 4 == 0 then 1 else 0
  {
  }

  lemma HundredthYear(y: nat)
    ensures (y + 1 + 99) / 100 == (y + 99) / 100 + if y % 100 == 0 then 1 else 0
  {
  }

  lemma FourHundredthYear(y: nat)
    ensures (y + 1 + 399) / 400 == (y + 399) / 400 + if y % 400 == 0 then 1 else 0
  {
  }

  lemma DividesOn(y: nat)
    ensures y % 400 == 0 ==> y % 100 == 0
    ensures y % 100 == 0 ==> y % 4 == 0
  {
    MultipleOf(4 * (y / 400), 100);
    MultipleOf(25 * (y / 100), 4);
  }

  lemma MultipleOf(m: nat, k: nat)
    requires k == 4 || k == 100
    ensures k * m % k == 0
  {
  }

  /** Where the months of a year begin. */
  lemma {:induction false} MonthsOfTheYear(y: nat)
    ensures var leap := if y % 4 == 0 && (y % 100 != 0 || y % 400 == 0) then 1 else 0;
            && MonthStart(y, 1) == 0 && MonthStart(y, 2) == 31
            && MonthStart(y, 3) == 59 + leap && MonthStart(y, 4) == 90 + leap && MonthStart(y, 5) == 120 + leap
            && MonthStart(y, 6) == 151 + leap && MonthStart(y, 7) == 181 + leap && MonthStart(y, 8) == 212 + leap
            && MonthStart(y, 9) == 243 + leap && MonthStart(y, 10) == 273 + leap && MonthStart(y, 11) == 304 + leap
            && MonthStart(y, 12) == 334 + leap && MonthStart(y, 13) == 365 + leap
  {
    assert MonthStart(y, 2) == 31;
    assert MonthStart(y, 4) == MonthStart(y, 3) + 31 == MonthStart(y, 2) + DaysIn(y, 2) + 31;
    assert MonthStart(y, 6) == MonthStart(y, 5) + 31 == MonthStart(y, 4) + 61;
    assert MonthStart(y, 8) == MonthStart(y, 7) + 31 == MonthStart(y, 6) + 61;
    assert MonthStart(y, 10) == MonthStart(y, 9) + 30 == MonthStart(y, 8) + 61;
    assert MonthStart(y, 12) == MonthStart(y, 11) + 30 == MonthStart(y, 10) + 61;
  }

  /** The Unix epoch, thirty years before 2000, is 62135596800 seconds after the zero time. */
  lemma {:induction false} UnixEpoch(c: Civil)
    requires c.Valid() && c.year + 30 == 2000 && c.month == 1 && c.day == 1
    requires c.hour == 0 && c.minute == 0 && c.second == 0 && c.nanos == 0
    ensures Instant(c) == 62_135_596_800 * SECOND
  {
    YearsAreGregorian(c.year);
    MonthsOfTheYear(c.year);
  }

  lemma ZeroTimeIsYearOne()
    ensures Instant(Civil(1, 1, 1, 0, 0, 0, 0)) == ZERO_TIME
  {
    assert MonthStart(0, 3) == 60 && MonthStart(0, 5) == 121 && MonthStart(0, 7) == 182;
    assert MonthStart(0, 9) == 244 && MonthStart(0, 11) == 305 && MonthStart(0, 13) == 366;
    assert YearStart(1) == 366;
  }

  lemma {:induction false} MonthStartMonotone(y: nat, m1: nat, m2: nat)
    requires 1 <= m1 < m2
    ensures MonthStart(y, m1) + DaysIn(y, m1) <= MonthStart(y, m2)
  {
    if m2 > m1 + 1 {
      MonthStartMonotone(y, m1, m2 - 1);
    }
  }

  lemma {:induction false} YearStartMonotone(y1: nat, y2: nat)
    requires y1 < y2
    ensures YearStart(y1) + MonthStart(y1, 13) <= YearStart(y2)
  {
    if y2 > y1 + 1 {
      YearStartMonotone(y1, y2 - 1);
    }
  }

  predicate DateLess(a: Civil, b: Civil) {
    a.year < b.year || (a.year == b.year && (a.month < b.month || (a.month == b.month && a.day < b.day)))
  }

  lemma {:induction false} DatesInOrder(a: Civil, b: Civil)
    requires a.Valid() && b.Valid() && DateLess(a, b)
    ensures DayNumber(a) < DayNumber(b)
  {
    MonthStartMonotone(a.year, a.month, 13);
    if a.year < b.year {
      YearStartMonotone(a.year, b.year);
    } else if a.month < b.month {
      MonthStartMonotone(a.year, a.month, b.month);
    }
  }

  predicate TimeLess(a: Civil, b: Civil) {
    a.hour < b.hour || (a.hour == b.hour && (a.minute < b.minute || (a.minute == b.minute && a.second < b.second)))
  }

  predicate SameDate(a: Civil, b: Civil) {
    a.year == b.year && a.month == b.month && a.day == b.day
  }

  predicate SameTime(a: Civil, b: Civil) {
    a.hour == b.hour && a.minute == b.minute && a.second == b.second
  }

  /** Calendar fields compare, most significant first, exactly as the seconds they denote. */
  lemma {:induction false} FieldsOrderSeconds(a: Civil, b: Civil)
    requires a.Valid() && b.Valid()
    ensures WholeSeconds(a) < WholeSeconds(b) <==> DateLess(a, b) || (SameDate(a, b) && TimeLess(a, b))
    ensures WholeSeconds(a) == WholeSeconds(b) <==> SameDate(a, b) && SameTime(a, b)
  {
    if DateLess(a, b) {
      DatesInOrder(a, b);
    } else if DateLess(b, a) {
      DatesInOrder(b, a);
    } else {
      assert SameDate(a, b);
    }
  }

  // ----- The encoding

  /** n in exactly k digits. */
  function Pad(k: nat, n: nat): (s: string)
    ensures |s| == k && AllDigits(s)
  {
    if k == 0 then "" else Pad(k - 1, n / 10) + [DigitChar(n % 10)]
  }

  function TrimZeros(s: string): (r: string)
    ensures |r| <= |s| && r == s[..|r|]
    ensures forall i :: |r| <= i < |s| ==> s[i] == '0'
    ensures r != "" ==> r[|r| - 1] != '0'
  {
    if s != "" && s[|s| - 1] == '0' then TrimZeros(s[..|s| - 1]) else s
  }

  /** The fraction's digits without trailing zeros. */
  function FractionDigits(nanos: nat): string {
    TrimZeros(Pad(9, nanos))
  }

  function Tail(nanos: nat): string {
    if nanos == 0 then "Z" else "." + (FractionDigits(nanos) + "Z")
  }

  function TimePart(c: Civil): string {
    Pad(2, c.hour) + (":" + (Pad(2, c.minute) + (":" + (Pad(2, c.second) + Tail(c.nanos)))))
  }

  /** encodeTime: RFC3339Nano in UTC. */
  function Encode(c: Civil): string {
    Pad(4, c.year) + ("-" + (Pad(2, c.month) + ("-" + (Pad(2, c.day) + ("T" + TimePart(c))))))
  }

  lemma {:induction false} ValueOfPad(k: nat, n: nat)
    requires n < Pow10(k)
    ensures Value(Pad(k, n)) == n
  {
    if k > 0 {
      ValueOfPad(k - 1, n / 10);
      assert Pad(k, n)[..k - 1] == Pad(k - 1, n / 10);
    }
  }

  /** s is n in exactly k digits. */
  predicate Column(s: string, k: nat, n: nat) {
    |s| == k && AllDigits(s) && Value(s) == n
  }

  /** The layout of section 5.6 of RFC 3339, in UTC: zero-padded columns around fixed separators. */
  lemma {:induction false} EncodedLayout(c: Civil) returns (y: string, mo: string, d: string, h: string, mi: string, s: string)
    requires c.Valid()
    ensures Column(y, 4, c.year) && Column(mo, 2, c.month) && Column(d, 2, c.day)
    ensures Column(h, 2, c.hour) && Column(mi, 2, c.minute) && Column(s, 2, c.second)
    ensures Encode(c) == y + ("-" + (mo + ("-" + (d + ("T" + (h + (":" + (mi + (":" + (s + Tail(c.nanos)))))))))))
  {
    PadIsColumn(4, c.year);
    PadIsColumn(2, c.month);
    PadIsColumn(2, c.day);
    PadIsColumn(2, c.hour);
    PadIsColumn(2, c.minute);
    PadIsColumn(2, c.second);
    y, mo, d := Pad(4, c.year), Pad(2, c.month), Pad(2, c.day);
    h, mi, s := Pad(2, c.hour), Pad(2, c.minute), Pad(2, c.second);
  }

  lemma PadIsColumn(k: nat, n: nat)
    requires (k == 2 && n < 100) || (k == 4 && n < 10_000) || (k == 9 && n < 1_000_000_000)
    ensures Column(Pad(k, n), k, n)
  {
    assert Pow10(2) == 100 && Pow10(4) == 10_000 && Pow10(9) == 1_000_000_000;
    ValueOfPad(k, n);
  }

  /** What follows the seconds: nothing but the zone on a whole second, and otherwise the fraction
      without trailing zeros, whose digits filled up to nine are the nanoseconds. */
  lemma {:induction false} TailLayout(nanos: nat) returns (f: string, zeros: string)
    requires nanos < 1_000_000_000
    ensures nanos == 0 ==> Tail(nanos) == "Z"
    ensures nanos > 0 ==> Tail(nanos) == "." + (f + "Z") && f != "" && f[|f| - 1] != '0'
    ensures Column(f + zeros, 9, nanos) && All(zeros, c => c == '0')
  {
    PadIsColumn(9, nanos);
    FractionOfZero(nanos);
    f := FractionDigits(nanos);
    zeros := Pad(9, nanos)[|f|..];
    assert f + zeros == Pad(9, nanos);
  }

  lemma {:induction false} PadInjective(k: nat, n: nat, m: nat)
    requires n < Pow10(k) && m < Pow10(k) && n != m
    ensures Pad(k, n) != Pad(k, m)
  {
    if k > 0 {
      var p, q := Pad(k, n), Pad(k, m);
      assert Front(p) == Pad(k - 1, n / 10) && Front(q) == Pad(k - 1, m / 10);
      if n / 10 != m / 10 {
        PadInjective(k - 1, n / 10, m / 10);
      } else {
        assert Last(p) == DigitChar(n % 10) && Last(q) == DigitChar(m % 10);
      }
    }
  }

  lemma {:induction false} PadOrder(k: nat, n: nat, m: nat)
    requires n < Pow10(k) && m < Pow10(k)
    ensures Less(Pad(k, n), Pad(k, m)) <==> n < m
  {
    if k > 0 {
      if n / 10 != m / 10 {
        PadInjective(k - 1, n / 10, m / 10);
        LessByHead(Pad(k - 1, n / 10), Pad(k - 1, m / 10), [DigitChar(n % 10)], [DigitChar(m % 10)]);
        PadOrder(k - 1, n / 10, m / 10);
      } else {
        LessAfterPrefix(Pad(k - 1, n / 10), [DigitChar(n % 10)], [DigitChar(m % 10)]);
      }
    }
  }

  /** A fixed-width field decides the order; equal fields leave it to the rest. */
  lemma {:induction false} FieldOrder(k: nat, n: nat, m: nat, x: string, y: string)
    requires n < Pow10(k) && m < Pow10(k)
    ensures Less(Pad(k, n) + x, Pad(k, m) + y) <==> n < m || (n == m && Less(x, y))
  {
    if n == m {
      LessAfterPrefix(Pad(k, n), x, y);
    } else {
      PadInjective(k, n, m);
      LessByHead(Pad(k, n), Pad(k, m), x, y);
      PadOrder(k, n, m);
    }
  }

  lemma {:induction false} TimePartOrder(a: Civil, b: Civil)
    requires a.Valid() && b.Valid()
    ensures Less(TimePart(a), TimePart(b)) <==> TimeLess(a, b) || (SameTime(a, b) && Less(Tail(a.nanos), Tail(b.nanos)))
  {
    assert Pow10(2) == 100;
    var sa, sb := Pad(2, a.second) + Tail(a.nanos), Pad(2, b.second) + Tail(b.nanos);
    var ma, mb := Pad(2, a.minute) + (":" + sa), Pad(2, b.minute) + (":" + sb);
    FieldOrder(2, a.second, b.second, Tail(a.nanos), Tail(b.nanos));
    LessAfterPrefix(":", sa, sb);
    FieldOrder(2, a.minute, b.minute, ":" + sa, ":" + sb);
    LessAfterPrefix(":", ma, mb);
    FieldOrder(2, a.hour, b.hour, ":" + ma, ":" + mb);
  }

  lemma {:induction false} EncodeOrder(a: Civil, b: Civil)
    requires a.Valid() && b.Valid()
    ensures Less(Encode(a), Encode(b)) <==>
            || WholeSeconds(a) < WholeSeconds(b)
            || (WholeSeconds(a) == WholeSeconds(b) && Less(Tail(a.nanos), Tail(b.nanos)))
  {
    assert Pow10(2) == 100 && Pow10(4) == 10_000;
    var ta, tb := "T" + TimePart(a), "T" + TimePart(b);
    var da, db := Pad(2, a.day) + ta, Pad(2, b.day) + tb;
    var ma, mb := Pad(2, a.month) + ("-" + da), Pad(2, b.month) + ("-" + db);
    TimePartOrder(a, b);
    LessAfterPrefix("T", TimePart(a), TimePart(b));
    FieldOrder(2, a.day, b.day, ta, tb);
    LessAfterPrefix("-", da, db);
    FieldOrder(2, a.month, b.month, "-" + da, "-" + db);
    LessAfterPrefix("-", ma, mb);
    FieldOrder(4, a.year, b.year, "-" + ma, "-" + mb);
    FieldsOrderSeconds(a, b);
  }

  // ----- Within one second

  /** Strings of which neither continues the other keep their order under any continuation. */
  lemma {:induction false} DivergingOrder(x: string, y: string, u: string, v: string)
    requires !(x <= y) && !(y <= x)
    ensures Less(x + u, y + v) <==> Less(x, y)
  {
    assert x != "" && y != "" by {
      assert "" <= x && "" <= y;
    }
    assert x == [x[0]] + x[1..] && y == [y[0]] + y[1..];
    if x[0] == y[0] {
      DivergingOrder(x[1..], y[1..], u, v);
      assert (x + u)[1..] == x[1..] + u && (y + v)[1..] == y[1..] + v;
    }
  }

  lemma {:induction false} FractionOfZero(nanos: nat)
    requires nanos < 1_000_000_000
    ensures FractionDigits(nanos) == "" <==> nanos == 0
  {
    assert Pow10(9) == 1_000_000_000;
    ZerosOnly(9);
    if FractionDigits(nanos) == "" {
      assert Pad(9, nanos) == Pad(9, 0);
      if nanos != 0 {
        PadInjective(9, nanos, 0);
        assert false;
      }
    }
  }

  lemma {:induction false} ZerosOnly(k: nat)
    ensures forall i :: 0 <= i < k ==> Pad(k, 0)[i] == '0'
    ensures TrimZeros(Pad(k, 0)) == ""
  {
    if k > 0 {
      ZerosOnly(k - 1);
    }
  }

  /** The digits of the smaller fraction cannot continue those of the larger. */
  lemma {:induction false} LargerIsNoPrefix(n: nat, m: nat)
    requires n < m < 1_000_000_000
    ensures !(FractionDigits(m) <= FractionDigits(n))
  {
    assert Pow10(9) == 1_000_000_000;
    var p, q := Pad(9, n), Pad(9, m);
    var d := FractionDigits(m);
    if d <= FractionDigits(n) {
      assert p[..|d|] == d && q[..|d|] == d;
      assert p == d + p[|d|..] && q == d + q[|d|..];
      LessAfterPrefix(d, p[|d|..], q[|d|..]);
      PadOrder(9, n, m);
      NothingBelowZeros(p[|d|..], q[|d|..]);
      assert false;
    }
  }

  lemma {:induction false} NothingBelowZeros(s: string, zeros: string)
    requires |s| == |zeros| && AllDigits(s) && forall i :: 0 <= i < |zeros| ==> zeros[i] == '0'
    ensures !Less(s, zeros)
  {
    if s != "" {
      NothingBelowZeros(s[1..], zeros[1..]);
    }
  }

  /** Within one second the encoding keeps the order of two instants exactly when the earlier
      fraction's digits do not begin the later one's; otherwise it reverses it. */
  lemma {:induction false} TailOrder(n: nat, m: nat)
    requires n < m < 1_000_000_000
    ensures Less(Tail(n), Tail(m)) <==> !(FractionDigits(n) <= FractionDigits(m))
    ensures Less(Tail(m), Tail(n)) <==> FractionDigits(n) <= FractionDigits(m)
  {
    FractionOfZero(n);
    FractionOfZero(m);
    if n > 0 {
      var x, y := FractionDigits(n) + "Z", FractionDigits(m) + "Z";
      FractionOrder(n, m);
      LessAfterPrefix(".", x, y);
      LessAfterPrefix(".", y, x);
    }
  }

  lemma {:induction false} FractionOrder(n: nat, m: nat)
    requires n < m < 1_000_000_000
    ensures var x, y := FractionDigits(n), FractionDigits(m);
            && (Less(x + "Z", y + "Z") <==> !(x <= y))
            && (Less(y + "Z", x + "Z") <==> x <= y)
  {
    var x, y := FractionDigits(n), FractionDigits(m);
    LargerIsNoPrefix(n, m);
    if x <= y {
      LetterAfterPrefix(x, y);
    } else {
      var p, q := Pad(9, n), Pad(9, m);
      assert Pow10(9) == 1_000_000_000;
      assert p == x + p[|x|..] && q == y + q[|y|..];
      PadOrder(9, n, m);
      DivergingOrder(x, y, p[|x|..], q[|y|..]);
      DivergingOrder(x, y, "Z", "Z");
      DivergingOrder(y, x, "Z", "Z");
      if Less(y, x) {
        LessTransitive(x, y, x);
        LessIrreflexive(x);
        assert false;
      }
    }
  }

  lemma {:induction false} LetterAfterPrefix(x: string, y: string)
    requires AllDigits(y) && x <= y && x != y
    ensures !Less(x + "Z", y + "Z") && Less(y + "Z", x + "Z")
  {
    var rest := y[|x|..] + "Z";
    assert IsDigit(rest[0]) by { assert rest[0] == y[|x|]; }
    assert y + "Z" == x + rest;
    LessAfterPrefix(x, "Z", rest);
    LessAfterPrefix(x, rest, "Z");
  }

  /** The string order of two encodings can be trusted: they denote the same instant, or fall in
      different seconds, or neither fraction's digits begin the other's. */
  predicate Comparable(a: Civil, b: Civil) {
    var x, y := FractionDigits(a.nanos), FractionDigits(b.nanos);
    a == b || !(SameDate(a, b) && SameTime(a, b)) || (!(x <= y) && !(y <= x))
  }

  /** For years 0000 to 9999 encoded timestamps order as instants do exactly for comparable pairs. */
  lemma {:induction false} EncodedOrderIff(a: Civil, b: Civil)
    requires a.Valid() && b.Valid()
    ensures Comparable(a, b) <==> (Less(Encode(a), Encode(b)) <==> Instant(a) < Instant(b))
    ensures Comparable(a, b) <==> Comparable(b, a)
  {
    EncodeOrder(a, b);
    FieldsOrderSeconds(a, b);
    FieldsOrderSeconds(b, a);
    if WholeSeconds(a) == WholeSeconds(b) {
      if a.nanos < b.nanos {
        TailOrder(a.nanos, b.nanos);
        LargerIsNoPrefix(a.nanos, b.nanos);
      } else if b.nanos < a.nanos {
        TailOrder(b.nanos, a.nanos);
        LargerIsNoPrefix(b.nanos, a.nanos);
      } else {
        LessIrreflexive(Tail(a.nanos));
      }
    }
  }

  /** The encoding loses nothing: two timestamps share a string only if they are the same instant. */
  lemma {:induction false} EncodeLosesNothing(a: Civil, b: Civil)
    requires a.Valid() && b.Valid() && Encode(a) == Encode(b)
    ensures a == b && Instant(a) == Instant(b)
  {
    LessIrreflexive(Encode(a));
    EncodeOrder(a, b);
    EncodeOrder(b, a);
    FieldsOrderSeconds(a, b);
    if a.nanos != b.nanos {
      TailOrder(if a.nanos < b.nanos then a.nanos else b.nanos, if a.nanos < b.nanos then b.nanos else a.nanos);
      assert false;
    }
  }
}
