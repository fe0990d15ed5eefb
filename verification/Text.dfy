// The string operations the code base takes from Go's standard library:
// splitting, joining, trimming, byte order and decimal numbers (ASCII only).

module Text {
  import opened Common

  // ----- Splitting and joining

  /** strings.Split with a one-character separator. */
  function SplitOn(s: string, sep: char): (parts: seq<string>)
    ensures |parts| >= 1
  {
    if s == "" then [""]
    else
      var rest := SplitOn(s[1..], sep);
      if s[0] == sep then [""] + rest else [[s[0]] + rest[0]] + rest[1..]
  }

  /** strings.Join with a one-character separator. */
  function JoinWith(parts: seq<string>, sep: char): string {
    if |parts| == 0 then ""
    else if |parts| == 1 then parts[0]
    else parts[0] + [sep] + JoinWith(parts[1..], sep)
  }

  /** Splitting undoes joining when no part holds the separator. */
  lemma {:induction false} SplitUndoesJoin(parts: seq<string>, sep: char)
    requires |parts| >= 1
    requires forall i :: 0 <= i < |parts| ==> sep !in parts[i]
    ensures SplitOn(JoinWith(parts, sep), sep) == parts
  {
    if |parts| == 1 {
      SplitWithoutSeparator(parts[0], sep);
    } else {
      SplitUndoesJoin(parts[1..], sep);
      SplitAtSeparator(parts[0], JoinWith(parts[1..], sep), sep);
      assert parts[0] + [sep] + JoinWith(parts[1..], sep) == parts[0] + ([sep] + JoinWith(parts[1..], sep));
    }
  }

  lemma {:induction false} SplitWithoutSeparator(s: string, sep: char)
    requires sep !in s
    ensures SplitOn(s, sep) == [s]
  {
    if s != "" {
      SplitWithoutSeparator(s[1..], sep);
      assert [s[0]] + s[1..] == s;
    }
  }

  lemma {:induction false} SplitAtSeparator(head: string, tail: string, sep: char)
    requires sep !in head
    ensures SplitOn(head + ([sep] + tail), sep) == [head] + SplitOn(tail, sep)
  {
    var whole := head + ([sep] + tail);
    if head == "" {
      assert whole == [sep] + tail;
      assert whole[1..] == tail;
    } else {
      assert whole[1..] == head[1..] + ([sep] + tail);
      SplitAtSeparator(head[1..], tail, sep);
      assert [head[0]] + head[1..] == head;
    }
  }

  /** Joining undoes splitting. */
  lemma {:induction false} JoinUndoesSplit(s: string, sep: char)
    ensures JoinWith(SplitOn(s, sep), sep) == s
  {
    if s != "" {
      JoinUndoesSplit(s[1..], sep);
      var rest := SplitOn(s[1..], sep);
      assert s == [s[0]] + s[1..];
      if s[0] == sep {
        assert ([""] + rest)[1..] == rest;
      } else {
        JoinAfterLetter(s[0], rest, sep);
      }
    }
  }

  lemma {:induction false} JoinAfterLetter(c: char, parts: seq<string>, sep: char)
    requires parts != []
    ensures JoinWith([[c] + parts[0]] + parts[1..], sep) == [c] + JoinWith(parts, sep)
  {
    var grown := [[c] + parts[0]] + parts[1..];
    assert grown[1..] == parts[1..];
    if |parts| > 1 {
      assert [c] + parts[0] + [sep] + JoinWith(parts[1..], sep) == [c] + (parts[0] + [sep] + JoinWith(parts[1..], sep));
    }
  }

  lemma {:induction false} PartsLackSeparator(s: string, sep: char)
    ensures forall i :: 0 <= i < |SplitOn(s, sep)| ==> sep !in SplitOn(s, sep)[i]
  {
    if s != "" {
      PartsLackSeparator(s[1..], sep);
    }
  }

  /** Splitting finds the only parts without the separator that join to the text. */
  lemma {:induction false} SplitsExactly(s: string, sep: char, parts: seq<string>)
    ensures SplitOn(s, sep) == parts <==>
            parts != [] && JoinWith(parts, sep) == s && forall i :: 0 <= i < |parts| ==> sep !in parts[i]
  {
    JoinUndoesSplit(s, sep);
    PartsLackSeparator(s, sep);
    if parts != [] && forall i :: 0 <= i < |parts| ==> sep !in parts[i] {
      SplitUndoesJoin(parts, sep);
    }
  }

  // ----- Trimming and case

  predicate IsSpace(c: char) {
    c == ' ' || '\t' <= c <= '\r'
  }

  function TrimLeft(s: string, drop: char -> bool): (r: string) {
    if s != "" && drop(s[0]) then TrimLeft(s[1..], drop) else s
  }

  function TrimRight(s: string, drop: char -> bool): (r: string) {
    if s != "" && drop(s[|s| - 1]) then TrimRight(s[..|s| - 1], drop) else s
  }

  predicate IsQuote(c: char) {
    c == '"'
  }

  /** strings.TrimFunc: drops a prefix and a suffix of unwanted characters. */
  function Trim(s: string, drop: char -> bool): (r: string) {
    TrimRight(TrimLeft(s, drop), drop)
  }

  function TrimSpace(s: string): string {
    Trim(s, IsSpace)
  }

  function LowerChar(c: char): char {
    if 'A' <= c <= 'Z' then (c as int + 32) as char else c
  }

  function ToLower(s: string): (r: string)
    ensures |r| == |s|
    ensures forall i :: 0 <= i < |s| ==> r[i] == LowerChar(s[i])
  {
    if s == "" then "" else [LowerChar(s[0])] + ToLower(s[1..])
  }

  predicate All(s: string, p: char -> bool) {
    forall i :: 0 <= i < |s| ==> p(s[i])
  }

  /** Trimming takes an unwanted prefix and an unwanted suffix off, and leaves neither end unwanted. */
  lemma {:induction false} TrimSplits(s: string, drop: char -> bool) returns (a: string, b: string)
    ensures s == a + Trim(s, drop) + b && All(a, drop) && All(b, drop)
    ensures Trim(s, drop) != "" ==> !drop(Trim(s, drop)[0]) && !drop(Trim(s, drop)[|Trim(s, drop)| - 1])
  {
    a := TrimLeftSplits(s, drop);
    b := TrimRightSplits(TrimLeft(s, drop), drop);
  }

  lemma {:induction false} TrimLeftSplits(s: string, drop: char -> bool) returns (a: string)
    ensures s == a + TrimLeft(s, drop) && All(a, drop)
    ensures TrimLeft(s, drop) != "" ==> !drop(TrimLeft(s, drop)[0])
  {
    if s != "" && drop(s[0]) {
      var rest := TrimLeftSplits(s[1..], drop);
      a := [s[0]] + rest;
      assert TrimLeft(s, drop) == TrimLeft(s[1..], drop);
      Uncons(s, rest, TrimLeft(s[1..], drop));
    } else {
      a := "";
    }
  }

  lemma {:induction false} TrimRightSplits(s: string, drop: char -> bool) returns (b: string)
    ensures s == TrimRight(s, drop) + b && All(b, drop)
    ensures TrimRight(s, drop) != "" ==> !drop(TrimRight(s, drop)[|TrimRight(s, drop)| - 1])
  {
    if s != "" && drop(s[|s| - 1]) {
      var rest := TrimRightSplits(s[..|s| - 1], drop);
      b := rest + [s[|s| - 1]];
      assert TrimRight(s, drop) == TrimRight(s[..|s| - 1], drop);
      Unsnoc(s, TrimRight(s[..|s| - 1], drop), rest);
    } else {
      b := "";
    }
  }

  lemma Uncons(s: string, a: string, b: string)
    requires s != "" && s[1..] == a + b
    ensures s == [s[0]] + a + b
  {
  }

  lemma Unsnoc(s: string, a: string, b: string)
    requires s != "" && s[..|s| - 1] == a + b
    ensures s == a + (b + [s[|s| - 1]])
  {
  }

  /** Whatever unwanted text surrounds it, trimming finds what begins and ends with wanted text. */
  lemma {:induction false} TrimOfPadded(a: string, s: string, b: string, drop: char -> bool)
    requires All(a, drop) && All(b, drop) && s != "" && !drop(s[0]) && !drop(s[|s| - 1])
    ensures Trim(a + s + b, drop) == s
  {
    assert a + s + b == a + (s + b);
    TrimLeftOfPadded(a, s + b, drop);
    TrimRightOfPadded(s, b, drop);
  }

  lemma {:induction false} TrimLeftOfPadded(a: string, s: string, drop: char -> bool)
    requires All(a, drop) && s != "" && !drop(s[0])
    ensures TrimLeft(a + s, drop) == s
  {
    if a == "" {
      assert a + s == s;
    } else {
      assert (a + s)[1..] == a[1..] + s && drop(a[0]);
      TrimLeftOfPadded(a[1..], s, drop);
    }
  }

  lemma {:induction false} TrimRightOfPadded(s: string, b: string, drop: char -> bool)
    requires All(b, drop) && s != "" && !drop(s[|s| - 1])
    ensures TrimRight(s + b, drop) == s
  {
    if b == "" {
      assert s + b == s;
    } else {
      var n := |s + b|;
      assert (s + b)[..n - 1] == s + b[..|b| - 1] && (s + b)[n - 1] == b[|b| - 1] && drop(b[|b| - 1]);
      TrimRightOfPadded(s, b[..|b| - 1], drop);
    }
  }

  /** s is e with some of its letters written as capitals. */
  predicate Spells(s: string, e: string) {
    |s| == |e| && forall i :: 0 <= i < |s| ==> s[i] == e[i] || ('A' <= s[i] <= 'Z' && s[i] as int + 32 == e[i] as int)
  }

  /** Text without capitals and without space at its ends. */
  predicate Plain(e: string) {
    && e != "" && !IsSpace(e[0]) && !IsSpace(e[|e| - 1])
    && forall i :: 0 <= i < |e| ==> !('A' <= e[i] <= 'Z')
  }

  /** text is e, in any letter case and with any space around it. */
  ghost predicate Writes(text: string, e: string) {
    exists a, s, b :: text == a + s + b && All(a, IsSpace) && All(b, IsSpace) && Spells(s, e)
  }

  /** Trimming and lower-casing give plain text back from exactly its spellings. */
  lemma {:induction false} NormalizedIff(text: string, e: string)
    requires Plain(e)
    ensures ToLower(TrimSpace(text)) == e <==> Writes(text, e)
  {
    if ToLower(TrimSpace(text)) == e {
      var a, b := TrimSplits(text, IsSpace);
      LowerSpells(TrimSpace(text), e);
      assert text == a + TrimSpace(text) + b;
    }
    forall a, s, b | text == a + s + b && All(a, IsSpace) && All(b, IsSpace) && Spells(s, e)
      ensures ToLower(TrimSpace(text)) == e
    {
      assert !IsSpace(s[0]) && !IsSpace(s[|s| - 1]);
      TrimOfPadded(a, s, b, IsSpace);
      LowerSpells(s, e);
    }
  }

  lemma {:induction false} LowerSpells(s: string, e: string)
    requires forall i :: 0 <= i < |e| ==> !('A' <= e[i] <= 'Z')
    ensures ToLower(s) == e <==> Spells(s, e)
  {
    if Spells(s, e) {
      forall i | 0 <= i < |s|
        ensures ToLower(s)[i] == e[i]
      {
      }
    }
    if ToLower(s) == e {
      forall i | 0 <= i < |s|
        ensures s[i] == e[i] || ('A' <= s[i] <= 'Z' && s[i] as int + 32 == e[i] as int)
      {
        assert ToLower(s)[i] == LowerChar(s[i]);
      }
    }
  }

  // ----- Byte order

  /** a sorts strictly before b, byte by byte, a proper prefix first. */
  predicate Less(a: string, b: string) {
    b != "" && (a == "" || a[0] < b[0] || (a[0] == b[0] && Less(a[1..], b[1..])))
  }

  lemma {:induction false} LessIrreflexive(a: string)
    ensures !Less(a, a)
  {
    if a != "" {
      LessIrreflexive(a[1..]);
    }
  }

  lemma {:induction false} LessTransitive(a: string, b: string, c: string)
    requires Less(a, b) && Less(b, c)
    ensures Less(a, c)
  {
    if a != "" && a[0] == b[0] && b[0] == c[0] {
      LessTransitive(a[1..], b[1..], c[1..]);
    }
  }

  lemma {:induction false} LessTotal(a: string, b: string)
    ensures a == b || Less(a, b) || Less(b, a)
  {
    if a != "" && b != "" && a[0] == b[0] {
      LessTotal(a[1..], b[1..]);
      assert a == [a[0]] + a[1..] && b == [b[0]] + b[1..];
    }
  }

  /** A common prefix does not change the order. */
  lemma {:induction false} LessAfterPrefix(p: string, a: string, b: string)
    ensures Less(p + a, p + b) <==> Less(a, b)
  {
    if p == "" {
      assert p + a == a && p + b == b;
    } else {
      LessAfterPrefix(p[1..], a, b);
      assert (p + a)[1..] == p[1..] + a && (p + b)[1..] == p[1..] + b;
    }
  }

  /** Equal-length heads decide the order whatever follows them. */
  lemma {:induction false} LessByHead(a: string, b: string, x: string, y: string)
    requires |a| == |b| && a != b
    ensures Less(a + x, b + y) <==> Less(a, b)
  {
    if a[0] == b[0] {
      assert a == [a[0]] + a[1..] && b == [b[0]] + b[1..];
      LessByHead(a[1..], b[1..], x, y);
      assert (a + x)[1..] == a[1..] + x && (b + y)[1..] == b[1..] + y;
    }
  }

  // ----- Decimal numbers

  predicate IsDigit(c: char) {
    '0' <= c <= '9'
  }

  predicate AllDigits(s: string) {
    forall i :: 0 <= i < |s| ==> IsDigit(s[i])
  }

  function DigitChar(d: nat): (c: char)
    requires d < 10
    ensures IsDigit(c)
  {
    (48 + d) as char
  }

  function DigitValue(c: char): (d: nat)
    requires IsDigit(c)
    ensures d < 10 && DigitChar(d) == c
  {
    c as int - 48
  }

  /** The usual decimal spelling: no sign, no leading zero except for 0 itself. */
  function Decimal(n: nat): (s: string)
    ensures |s| >= 1 && AllDigits(s)
  {
    if n < 10 then [DigitChar(n)] else Decimal(n / 10) + [DigitChar(n % 10)]
  }

  /** The number a run of digits denotes. */
  function Value(s: string): (n: nat)
    requires AllDigits(s)
  {
    if s == "" then 0 else 10 * Value(s[..|s| - 1]) + DigitValue(s[|s| - 1])
  }

  lemma {:induction false} ValueOfDecimal(n: nat)
    ensures Value(Decimal(n)) == n
  {
    if n < 10 {
      assert Decimal(n)[..0] == "";
    } else {
      ValueOfDecimal(n / 10);
      assert Decimal(n)[..|Decimal(n)| - 1] == Decimal(n / 10);
    }
  }

  /** A digit string without a leading zero is the spelling of its value. */
  lemma {:induction false} DecimalOfValue(s: string)
    requires AllDigits(s) && |s| >= 1 && s[0] != '0'
    ensures Value(s) >= 1 && Decimal(Value(s)) == s
  {
    var front := s[..|s| - 1];
    var last := DigitValue(s[|s| - 1]);
    if |s| == 1 {
      assert Value(front) == 0;
      assert s == [s[0]];
    } else {
      DecimalOfValue(front);
      DecimalSnoc(Value(front), last);
      assert s == front + [s[|s| - 1]];
    }
  }

  lemma DecimalSnoc(n: nat, d: nat)
    requires n >= 1 && d < 10
    ensures Decimal(10 * n + d) == Decimal(n) + [DigitChar(d)]
  {
    assert (10 * n + d) / 10 == n && (10 * n + d) % 10 == d;
  }

  lemma {:induction false} DecimalLeadingDigit(n: nat)
    requires n >= 1
    ensures Decimal(n)[0] != '0'
  {
    if n >= 10 {
      DecimalLeadingDigit(n / 10);
    }
  }

  function Pow10(k: nat): (p: nat)
    ensures p >= 1
  {
    if k == 0 then 1 else 10 * Pow10(k - 1)
  }

  /** n fits in k digits exactly when it is below 10^k. */
  lemma {:induction false} DecimalLength(n: nat, k: nat)
    requires k >= 1
    ensures |Decimal(n)| <= k <==> n < Pow10(k)
  {
    if n < 10 {
      Pow10Monotone(1, k);
    } else if k == 1 {
      assert |Decimal(n)| >= 2;
    } else {
      DecimalLength(n / 10, k - 1);
    }
  }

  lemma {:induction false} Pow10Monotone(i: nat, j: nat)
    requires i <= j
    ensures Pow10(i) <= Pow10(j)
  {
    if i < j {
      Pow10Monotone(i, j - 1);
    }
  }

  /** strconv.ParseInt(s, 10, 64): an optional sign, digits, and the int64 range. */
  function ParseInt64(s: string): (r: Option<int>)
    ensures r.Some? ==> -TWO_63 <= r.value < TWO_63
  {
    if s == "" then None
    else
      var neg := s[0] == '-';
      var digits := if s[0] == '+' || s[0] == '-' then s[1..] else s;
      if digits == "" || !AllDigits(digits) then None
      else
        var v := if neg then 0 - Value(digits) else Value(digits) + 0;
        if -TWO_63 <= v < TWO_63 then Some(v) else None
  }

  lemma {:induction false} ParseOfDecimal(n: nat)
    requires n < TWO_63
    ensures ParseInt64(Decimal(n)) == Some(n)
  {
    ValueOfDecimal(n);
    assert IsDigit(Decimal(n)[0]);
  }

  /** text is a sign, if any, and at least one digit, and v is the number they denote. */
  predicate Denotes(text: string, sign: string, digits: string, v: int) {
    && text == sign + digits && (sign == "" || sign == "+" || sign == "-") && digits != "" && AllDigits(digits)
    && v == if sign == "-" then 0 - Value(digits) else Value(digits) + 0
  }

  /** An optional sign and at least one digit, in the int64 range: nothing else is a number. */
  lemma {:induction false} ParseInt64Iff(s: string, v: int)
    ensures ParseInt64(s) == Some(v) <==> -TWO_63 <= v < TWO_63 && exists sign, digits :: Denotes(s, sign, digits, v)
  {
    if ParseInt64(s) == Some(v) {
      NumberIsSigned(s);
    }
    forall sign, digits | Denotes(s, sign, digits, v) && -TWO_63 <= v < TWO_63
      ensures ParseInt64(s) == Some(v)
    {
      SignedIsNumber(s, sign, digits, v);
    }
  }

  lemma {:induction false} NumberIsSigned(s: string)
    requires ParseInt64(s).Some?
    ensures exists sign, digits :: Denotes(s, sign, digits, ParseInt64(s).value)
  {
    var sign := if s[0] == '+' then "+" else if s[0] == '-' then "-" else "";
    var digits := if s[0] == '+' || s[0] == '-' then s[1..] else s;
    assert s == [s[0]] + s[1..];
    assert Denotes(s, sign, digits, ParseInt64(s).value);
  }

  lemma {:induction false} SignedIsNumber(s: string, sign: string, digits: string, v: int)
    requires Denotes(s, sign, digits, v) && -TWO_63 <= v < TWO_63
    ensures ParseInt64(s) == Some(v)
  {
    assert IsDigit(digits[0]);
    if sign == "" {
      assert s == digits;
    } else {
      assert s[0] == sign[0] && s[1..] == digits;
    }
  }
}
