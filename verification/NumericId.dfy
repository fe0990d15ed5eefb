// GitHub's numeric ID claims (oidc/github.go, numericIDClaim and isCanonicalDecimal).

module NumericId {
  import opened Common
  import opened Text

  /** A decoded claim; Absent also stands for a JSON null. */
  datatype Claim = Absent | Text(text: string) | Number(literal: string) | OtherType

  datatype ClaimError = Missing | Malformed

  predicate Canonical(s: string) {
    s != "" && s[0] != '0' && AllDigits(s)
  }

  /** isCanonicalDecimal. */
  method IsCanonicalDecimal(s: string) returns (ok: bool)
    ensures ok == Canonical(s)
    ensures ok <==> exists n: nat :: n >= 1 && s == Decimal(n)
  {
    CanonicalMeansDecimal(s);
    if s == "" || s[0] == '0' {
      return false;
    }
    for i := 0 to |s|
      invariant forall k :: 0 <= k < i ==> IsDigit(s[k])
    {
      if s[i] < '0' || s[i] > '9' {
        return false;
      }
    }
    return true;
  }

  lemma {:induction false} CanonicalMeansDecimal(s: string)
    ensures Canonical(s) <==> exists n: nat :: n >= 1 && s == Decimal(n)
  {
    if Canonical(s) {
      DecimalOfValue(s);
    }
    forall n: nat | n >= 1 && s == Decimal(n)
      ensures Canonical(s)
    {
      DecimalLeadingDigit(n);
    }
  }

  function NumericIdOf(c: Claim): Result<int, ClaimError> {
    match c
    case Absent => Err(Missing)
    case OtherType => Err(Malformed)
    case Text(s) => ParseId(s)
    case Number(s) => ParseId(s)
  }

  function ParseId(s: string): Result<int, ClaimError> {
    if !Canonical(s) then Err(Malformed)
    else match ParseInt64(s)
      case Some(id) => if id <= 0 then Err(Malformed) else Ok(id)
      case None => Err(Malformed)
  }

  lemma {:induction false} ParsesExactlyDecimals(s: string, n: int)
    ensures ParseId(s) == Ok(n) <==> 1 <= n < TWO_63 && s == Decimal(n)
  {
    if Canonical(s) {
      DecimalOfValue(s);
      assert ParseInt64(s) == if Value(s) < TWO_63 then Some(Value(s)) else None;
    }
    if 1 <= n < TWO_63 && s == Decimal(n) {
      DecimalLeadingDigit(n);
      ParseOfDecimal(n);
    }
  }

  /** Each ID has one spelling: exactly the decimal spellings of 1 .. 2^63 - 1 are accepted, as a
      string or as a number, and the result is that number. */
  lemma {:induction false} OneSpellingPerId(c: Claim, n: int)
    ensures NumericIdOf(c) == Ok(n) <==>
            1 <= n < TWO_63 && (c == Text(Decimal(n)) || c == Number(Decimal(n)))
  {
    match c
    case Text(s) => ParsesExactlyDecimals(s, n);
    case Number(s) => ParsesExactlyDecimals(s, n);
    case _ =>
  }

  /** A claim that is absent is missing; any other claim that is not such a spelling is malformed. */
  lemma {:induction false} RefusalsAreTold(c: Claim)
    ensures NumericIdOf(c) == Err(Missing) <==> c == Absent
    ensures NumericIdOf(c) == Err(Malformed) <==>
            c != Absent && forall n :: 1 <= n < TWO_63 ==> c != Text(Decimal(n)) && c != Number(Decimal(n))
  {
    if NumericIdOf(c).Ok? {
      OneSpellingPerId(c, NumericIdOf(c).value);
    }
    forall n | 1 <= n < TWO_63 && (c == Text(Decimal(n)) || c == Number(Decimal(n)))
      ensures NumericIdOf(c) == Ok(n)
    {
      OneSpellingPerId(c, n);
    }
  }
}
