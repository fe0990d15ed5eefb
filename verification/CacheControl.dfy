// How long a fetched key set counts as fresh (oidc/jwks.go, cacheTTL).

module CacheControl {
  import opened Common
  import opened Text

  const MIN_KEY_SET_TTL: int := 5 * MINUTE
  const MAX_KEY_SET_TTL: int := 24 * HOUR
  const DEFAULT_KEY_SET_TTL: int := HOUR

  /** What one comma-separated Cache-Control directive asks for. */
  datatype Directive = NoCaching | MaxAge(seconds: nat) | Ignored

  function Classify(raw: string): Directive {
    var d := ToLower(TrimSpace(raw));
    if d == "no-store" || d == "no-cache" then NoCaching
    else if "max-age=" <= d then Seconds(d[8..])
    else Ignored
  }

  /** What stands after "max-age=". */
  function Seconds(value: string): Directive {
    match ParseInt64(Trim(value, IsQuote))
    case Some(v) => if v >= 0 then MaxAge(v) else Ignored
    case None => Ignored
  }

  /** A max-age directive, in any letter case and with any space around it, is read back as the
      number it spells, quoted or not. */
  lemma {:induction false} MaxAgeIsRead(raw: string, n: nat)
    requires n < TWO_63
    requires Writes(raw, "max-age=" + Decimal(n)) || Writes(raw, "max-age=" + ("\"" + Decimal(n) + "\""))
    ensures Classify(raw) == MaxAge(n)
  {
    ParseOfDecimal(n);
    QuotesAreTrimmed(Decimal(n));
    if Writes(raw, "max-age=" + Decimal(n)) {
      ClassifyMaxAge(raw, Decimal(n));
    } else {
      ClassifyMaxAge(raw, "\"" + Decimal(n) + "\"");
    }
  }

  /** And only a max-age directive with a number that is not negative is: one with an unreadable
      value is ignored. */
  lemma {:induction false} MaxAgeIff(raw: string, n: nat)
    ensures Classify(raw) == MaxAge(n) <==>
            exists v ::
              && Plain("max-age=" + v) && Writes(raw, "max-age=" + v)
              && ParseInt64(Trim(v, IsQuote)) == Some(n as int)
  {
    if Classify(raw) == MaxAge(n) {
      MaxAgeHasValue(raw);
    }
    forall v | Plain("max-age=" + v) && Writes(raw, "max-age=" + v) && ParseInt64(Trim(v, IsQuote)) == Some(n as int)
      ensures Classify(raw) == MaxAge(n)
    {
      MaxAgeValueIsRead(raw, v);
    }
  }

  lemma {:induction false} MaxAgeHasValue(raw: string)
    requires Classify(raw).MaxAge?
    ensures exists v ::
              && Plain("max-age=" + v) && Writes(raw, "max-age=" + v)
              && ParseInt64(Trim(v, IsQuote)) == Some(Classify(raw).seconds as int)
  {
    var d := ToLower(TrimSpace(raw));
    var v := d[8..];
    assert d == "max-age=" + v;
    NormalIsPlain(raw);
    NormalizedIff(raw, "max-age=" + v);
  }

  lemma {:induction false} MaxAgeValueIsRead(raw: string, v: string)
    requires Plain("max-age=" + v) && Writes(raw, "max-age=" + v)
    ensures Classify(raw) == Seconds(v)
  {
    var d := "max-age=" + v;
    NormalizedIff(raw, d);
    assert d[0] == 'm' && "no-store"[0] == 'n' && "no-cache"[0] == 'n' && d[8..] == v;
  }

  lemma {:induction false} NormalIsPlain(raw: string)
    ensures var d := ToLower(TrimSpace(raw)); d != "" ==> Plain(d)
  {
    var a, b := TrimSplits(raw, IsSpace);
  }

  lemma {:induction false} ClassifyMaxAge(raw: string, value: string)
    requires value != "" && forall i :: 0 <= i < |value| ==> IsDigit(value[i]) || IsQuote(value[i])
    requires Writes(raw, "max-age=" + value)
    ensures Classify(raw) == Seconds(value)
  {
    PlainDirective(value);
    MaxAgeValueIsRead(raw, value);
  }

  /** Only no-store and no-cache, in any letter case and with any space around them, ask for no
      caching. */
  lemma {:induction false} NoCachingIff(raw: string)
    ensures Classify(raw) == NoCaching <==> Writes(raw, "no-store") || Writes(raw, "no-cache")
  {
    NormalizedIff(raw, "no-store");
    NormalizedIff(raw, "no-cache");
  }

  lemma {:induction false} QuotesAreTrimmed(d: string)
    requires d != "" && AllDigits(d)
    ensures Trim(d, IsQuote) == d && Trim("\"" + d + "\"", IsQuote) == d
  {
    var quoted := "\"" + d + "\"";
    assert IsDigit(d[0]) && IsDigit(d[|d| - 1]);
    assert quoted[1..] == d + "\"";
    assert TrimLeft(quoted, IsQuote) == d + "\"";
    assert (d + "\"")[..|d|] == d;
  }

  lemma {:induction false} PlainDirective(value: string)
    requires value != "" && forall i :: 0 <= i < |value| ==> IsDigit(value[i]) || IsQuote(value[i])
    ensures Plain("max-age=" + value)
  {
    var d := "max-age=" + value;
    assert d[0] == 'm' && d[|d| - 1] == value[|value| - 1];
    forall i | 0 <= i < |d|
      ensures !('A' <= d[i] <= 'Z')
    {
      if i >= 8 {
        assert d[i] == value[i - 8];
      }
    }
  }

  function ClassifyAll(raws: seq<string>): (ds: seq<Directive>)
    ensures |ds| == |raws|
    ensures forall i :: 0 <= i < |ds| ==> ds[i] == Classify(raws[i])
  {
    if raws == [] then [] else [Classify(raws[0])] + ClassifyAll(raws[1..])
  }

  /** The directives of a Cache-Control header. */
  function Directives(header: string): seq<Directive> {
    ClassifyAll(SplitOn(header, ','))
  }

  /** Directive i asks for these seconds, and no later one is a max-age. */
  predicate IsLastMaxAge(ds: seq<Directive>, i: int, seconds: nat) {
    0 <= i < |ds| && ds[i] == MaxAge(seconds) && forall j :: i < j < |ds| ==> !ds[j].MaxAge?
  }

  /** The last valid max-age, in seconds, if there is one. */
  function LastMaxAge(ds: seq<Directive>): (r: Option<nat>)
    ensures r.Some? <==> exists i :: 0 <= i < |ds| && ds[i].MaxAge?
  {
    if ds == [] then None
    else
      var last := ds[|ds| - 1];
      if last.MaxAge? then Some(last.seconds) else LastMaxAge(ds[..|ds| - 1])
  }

  lemma {:induction false} LastMaxAgeIff(ds: seq<Directive>, i: int, seconds: nat)
    requires IsLastMaxAge(ds, i, seconds)
    ensures LastMaxAge(ds) == Some(seconds)
  {
    if i < |ds| - 1 {
      LastMaxAgeIff(ds[..|ds| - 1], i, seconds);
    }
  }

  function Clamp(x: int, lo: int, hi: int): int {
    if x < lo then lo else if x > hi then hi else x
  }

  /** The freshness a directive list grants, over unbounded integers. */
  function Ttl(ds: seq<Directive>): (ttl: int)
    ensures MIN_KEY_SET_TTL <= ttl <= MAX_KEY_SET_TTL
  {
    if NoCaching in ds then MIN_KEY_SET_TTL
    else
      match LastMaxAge(ds)
      case Some(secs) => Clamp(secs * SECOND, MIN_KEY_SET_TTL, MAX_KEY_SET_TTL)
      case None => DEFAULT_KEY_SET_TTL
  }

  function Min64(a: int64, b: int64): int64 {
    if a < b then a else b
  }

  function Max64(a: int64, b: int64): int64 {
    if a > b then a else b
  }

  /** The loop variable of cacheTTL after the directives read so far. */
  function SoFar(maxAge: Option<nat>): int {
    match maxAge
    case Some(secs) => (if secs < 86_400 then secs else 86_400) * 1_000_000_000
    case None => 3_600_000_000_000
  }

  lemma ClampOfCapped(secs: nat)
    ensures Clamp(SoFar(Some(secs)), MIN_KEY_SET_TTL, MAX_KEY_SET_TTL) == Clamp(secs * SECOND, MIN_KEY_SET_TTL, MAX_KEY_SET_TTL)
  {
  }

  /** cacheTTL: one pass over the header in 64-bit arithmetic that cannot overflow. */
  method CacheTtl(cacheControl: string) returns (result: int64)
    ensures result as int == Ttl(Directives(cacheControl))
    ensures var ds := Directives(cacheControl);
            && MIN_KEY_SET_TTL <= result as int <= MAX_KEY_SET_TTL
            && (NoCaching in ds ==> result as int == MIN_KEY_SET_TTL)
            && (NoCaching !in ds && (forall i :: 0 <= i < |ds| ==> !ds[i].MaxAge?) ==> result as int == DEFAULT_KEY_SET_TTL)
            && (forall i, secs: nat :: NoCaching !in ds && IsLastMaxAge(ds, i, secs) ==>
                  && (secs * SECOND <= MIN_KEY_SET_TTL ==> result as int == MIN_KEY_SET_TTL)
                  && (MIN_KEY_SET_TTL <= secs * SECOND <= MAX_KEY_SET_TTL ==> result as int == secs * SECOND)
                  && (MAX_KEY_SET_TTL <= secs * SECOND ==> result as int == MAX_KEY_SET_TTL))
  {
    var ttl: int64 := 3_600_000_000_000;
    var parts := SplitOn(cacheControl, ',');
    ghost var ds := ClassifyAll(parts);
    for i := 0 to |parts|
      invariant NoCaching !in ds[..i]
      invariant 0 <= ttl as int <= MAX_KEY_SET_TTL
      invariant ttl as int == SoFar(LastMaxAge(ds[..i]))
    {
      LastOfDirectives(ds, i);
      assert ds[i] == Classify(parts[i]);
      var d := ToLower(TrimSpace(parts[i]));
      if d == "no-store" || d == "no-cache" {
        return 300_000_000_000;
      }
      if "max-age=" <= d {
        var secs := ParseInt64(Trim(d[8..], IsQuote));
        if secs.Some? && secs.value >= 0 {
          var capped: int64 := if secs.value < 86_400 then secs.value as int64 else 86_400;
          ttl := capped * 1_000_000_000;
        }
      }
    }
    assert ds[..|ds|] == ds;
    if LastMaxAge(ds).Some? {
      ClampOfCapped(LastMaxAge(ds).value);
    }
    result := Min64(Max64(ttl, 300_000_000_000), 86_400_000_000_000);
    GrantedIsLastMaxAge(ds);
  }

  lemma GrantedIsLastMaxAge(ds: seq<Directive>)
    requires NoCaching !in ds
    ensures (forall i :: 0 <= i < |ds| ==> !ds[i].MaxAge?) ==> Ttl(ds) == DEFAULT_KEY_SET_TTL
    ensures forall i, secs: nat :: IsLastMaxAge(ds, i, secs) ==> Ttl(ds) == Clamp(secs * SECOND, MIN_KEY_SET_TTL, MAX_KEY_SET_TTL)
  {
    forall i, secs: nat | IsLastMaxAge(ds, i, secs)
      ensures LastMaxAge(ds) == Some(secs)
    {
      LastMaxAgeIff(ds, i, secs);
    }
  }

  lemma LastOfDirectives(ds: seq<Directive>, i: nat)
    requires i < |ds|
    ensures ds[..i + 1] == ds[..i] + [ds[i]]
    ensures LastMaxAge(ds[..i + 1]) == if ds[i].MaxAge? then Some(ds[i].seconds) else LastMaxAge(ds[..i])
  {
    assert ds[..i + 1][..i] == ds[..i];
  }

  /** Verifier construction: the staleness bound, or none when the configuration is refused. */
  function EffectiveMaxStale(configured: int): (r: Option<int>)
    ensures r.Some? ==> r.value > MIN_KEY_SET_TTL
    ensures r.None? <==> configured < 0 || 0 < configured <= MIN_KEY_SET_TTL
    ensures r.Some? ==> r.value == if configured == 0 then 24 * HOUR else configured
  {
    if configured != 0 && configured <= MIN_KEY_SET_TTL then None
    else if configured == 0 then Some(24 * HOUR)
    else Some(configured)
  }
}
