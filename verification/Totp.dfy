// Time-based one-time passwords (domain/totp.go over adapters/memory/memory.go,
// TOTPRepo): truncation, the skew window and single use of time steps.  HMAC-SHA1
// and base32 decoding are uninterpreted functions.

module Totp {
  import opened Common
  import opened Text
  import Base64

  type Byte = Base64.Byte

  const TWO_32: int := 0x1_0000_0000
  const TWO_64: int := 0x1_0000_0000_0000_0000

  function ToUint64(x: int): nat {
    x % TWO_64
  }

  function ToInt64(x: int): (r: int)
    ensures -TWO_63 <= r < TWO_63
    ensures -TWO_63 <= x < TWO_63 ==> r == x
  {
    (x + TWO_63) % TWO_64 - TWO_63
  }

  /** An HMAC-SHA1 digest. */
  type Digest = d: seq<Byte> | |d| == 20 witness seq(20, i => 0)

  /** The primitives: the MAC of a key and a message, and the base32 decoder. */
  datatype Primitives = Primitives(mac: (seq<Byte>, seq<Byte>) -> Digest, decodeSecret: string -> Option<seq<Byte>>)

  datatype Error = NotFound | InvalidSecret | InvalidTOTP | Reused | DivisionByZero

  /** A zero period or digit count means the default. */
  datatype Config = Config(period: nat, digits: nat, skew: nat) {
    predicate Valid() {
      skew < 0x7FFF_FFFF_FFFF_FFFF
    }

    function Period(): (p: nat)
      ensures p >= 1
    {
      if period == 0 then 30 else period
    }

    function Digits(): (d: nat)
      ensures d >= 1
    {
      if digits == 0 then 6 else digits
    }

    /** The time step of a Unix time, as both Generate and validateStep compute it. */
    function Counter(unix: int): nat {
      ToUint64(unix) / Period()
    }
  }

  // ----- One code

  function BigEndian(k: nat, n: nat): (b: seq<Byte>)
    ensures |b| == k
  {
    if k == 0 then [] else BigEndian(k - 1, n / 256) + [n % 256]
  }

  /** Dynamic truncation, section 5.3 of RFC 4226: 31 bits at the offset the last byte names,
      which never reaches past the digest. */
  function Truncate(sum: Digest): (v: nat)
    ensures v < 0x8000_0000
  {
    var offset: int := sum[19] % 16;
    var b0: int := sum[offset] % 128;
    var b1: int := sum[offset + 1];
    var b2: int := sum[offset + 2];
    var b3: int := sum[offset + 3];
    b0 * 0x100_0000 + b1 * 0x1_0000 + b2 * 0x100 + b3
  }

  /** The number a big-endian byte string denotes. */
  function FromBigEndian(b: seq<Byte>): nat {
    if b == [] then 0 else FromBigEndian(b[..|b| - 1]) * 256 + b[|b| - 1]
  }

  function Pow256(k: nat): (p: nat)
    ensures p >= 1
  {
    if k == 0 then 1 else 256 * Pow256(k - 1)
  }

  /** The counter bytes give the counter back, so distinct steps are distinct MAC messages. */
  lemma {:induction false} CounterBytesRoundTrip(k: nat, n: nat)
    requires n < Pow256(k)
    ensures FromBigEndian(BigEndian(k, n)) == n
  {
    if k > 0 {
      CounterBytesRoundTrip(k - 1, n / 256);
      var b := BigEndian(k, n);
      assert b[..|b| - 1] == BigEndian(k - 1, n / 256);
    }
  }

  /** Truncation is the low 31 bits of the four bytes at the offset. */
  lemma {:induction false} TruncateIsLow31Bits(sum: Digest)
    ensures var offset := sum[19] % 16;
            offset + 4 <= 20 && Truncate(sum) == FromBigEndian(sum[offset..offset + 4]) % 0x8000_0000
  {
    var offset := sum[19] % 16;
    var b := sum[offset..offset + 4];
    assert b[..3][..2] == b[..2] && b[..2][..1] == b[..1] && b[..1][..0] == [];
    var b0: int, b1: int, b2: int, b3: int := b[0], b[1], b[2], b[3];
    assert FromBigEndian(b[..1]) == b0;
    assert FromBigEndian(b[..2]) == b0 * 256 + b1;
    assert FromBigEndian(b[..3]) == (b0 * 256 + b1) * 256 + b2;
    assert FromBigEndian(b) == ((b0 * 256 + b1) * 256 + b2) * 256 + b3;
    LowBits(b0, b1 * 0x1_0000 + b2 * 0x100 + b3);
  }

  lemma LowBits(b0: int, low: int)
    requires 0 <= b0 < 256 && 0 <= low < 0x100_0000
    ensures (b0 * 0x100_0000 + low) % 0x8000_0000 == b0 % 128 * 0x100_0000 + low
  {
    assert b0 == b0 / 128 * 128 + b0 % 128;
    assert b0 * 0x100_0000 + low == b0 / 128 * 0x8000_0000 + (b0 % 128 * 0x100_0000 + low);
  }

  /** Ten to the k in uint32 arithmetic, wrap-around included. */
  function Modulus(k: nat): nat {
    if k == 0 then 1 else Modulus(k - 1) * 10 % TWO_32
  }

  function LeftZeros(k: int): (s: string)
    ensures |s| == if k > 0 then k else 0
    ensures AllDigits(s)
  {
    if k <= 0 then "" else "0" + LeftZeros(k - 1)
  }

  /** The %0*d verb. */
  function ZeroPadded(width: nat, n: nat): string {
    LeftZeros(width - |Decimal(n)|) + Decimal(n)
  }

  function HotpCode(pr: Primitives, c: Config, secret: string, counter: nat): Result<string, Error>
  {
    match pr.decodeSecret(secret)
    case None => Err(InvalidSecret)
    case Some(key) =>
      var m := Modulus(c.Digits());
      if m == 0 then Err(DivisionByZero)
      else Ok(ZeroPadded(c.Digits(), Truncate(pr.mac(key, BigEndian(8, counter))) % m))
  }

  method Hotp(pr: Primitives, c: Config, secret: string, counter: nat) returns (r: Result<string, Error>)
    ensures r == HotpCode(pr, c, secret, counter)
  {
    var key := pr.decodeSecret(secret);
    if key.None? {
      return Err(InvalidSecret);
    }
    var value := Truncate(pr.mac(key.value, BigEndian(8, counter)));
    var m := 1;
    for i := 0 to c.Digits()
      invariant m == Modulus(i)
    {
      m := m * 10 % TWO_32;
    }
    if m == 0 {
      return Err(DivisionByZero);
    }
    return Ok(ZeroPadded(c.Digits(), value % m));
  }

  // ----- How many digits a code can have

  lemma {:induction false} ModulusIsPowerOfTen(k: nat)
    requires k <= 9
    ensures Modulus(k) == Pow10(k)
  {
    if k > 0 {
      ModulusIsPowerOfTen(k - 1);
      assert Pow10(k - 1) <= 100_000_000 by {
        Pow10Monotone(k - 1, 8);
        assert Pow10(8) == 100_000_000;
      }
      SmallModulus(Modulus(k - 1) * 10);
    }
  }

  lemma SmallModulus(x: int)
    requires 0 <= x < TWO_32
    ensures x % TWO_32 == x
  {
  }

  function Pow2(k: nat): (p: nat)
    ensures p >= 1
  {
    if k == 0 then 1 else 2 * Pow2(k - 1)
  }

  lemma {:induction false} Pow2Splits(a: nat, b: nat)
    ensures Pow2(a + b) == Pow2(a) * Pow2(b)
  {
    if a > 0 {
      Pow2Splits(a - 1, b);
    }
  }

  lemma OddStep(p: nat, rest: nat, q: int, c: int)
    requires q % 2 == 1
    ensures 10 * (p * q) - 2 * p * (2 * rest) * c == 2 * p * (5 * q - 2 * (rest * c))
    ensures (5 * q - 2 * (rest * c)) % 2 == 1
  {
    assert 2 * p * (5 * q) == 10 * (p * q);
    assert 2 * p * (2 * rest) * c == 2 * p * (2 * (rest * c));
    assert 2 * p * (5 * q - 2 * (rest * c)) == 2 * p * (5 * q) - 2 * p * (2 * (rest * c));
  }

  /** Up to 31 digits the modulus keeps an odd factor, so it is not zero. */
  lemma {:induction false} ModulusIsOddMultiple(k: nat) returns (q: int)
    requires k <= 31
    ensures Modulus(k) == Pow2(k) * q && q % 2 == 1
  {
    if k == 0 {
      q := 1;
    } else {
      var q0 := ModulusIsOddMultiple(k - 1);
      var c := Modulus(k - 1) * 10 / TWO_32;
      var p, rest := Pow2(k - 1), Pow2(31 - k);
      Pow2Splits(k, 32 - k);
      TwoTo32();
      assert TWO_32 == 2 * p * (2 * rest);
      OddStep(p, rest, q0, c);
      q := 5 * q0 - 2 * (rest * c);
    }
  }

  lemma TwoTo32()
    ensures Pow2(32) == TWO_32
  {
    assert Pow2(8) == 256;
    Pow2Splits(8, 8);
    Pow2Splits(16, 16);
  }

  lemma {:induction false} ModulusVanishes(k: nat)
    ensures Modulus(k) == 0 <==> k >= 32
  {
    if k <= 31 {
      var q := ModulusIsOddMultiple(k);
      ProductOfNonZero(Pow2(k), q);
    } else if k == 32 {
      var q := ModulusIsOddMultiple(k - 1);
      TwoTo32();
      LastFactorOfTwo(Modulus(k - 1), Pow2(k - 1), q);
    } else {
      ModulusVanishes(k - 1);
    }
  }

  lemma LastFactorOfTwo(m: int, p: int, q: int)
    requires m == p * q && 2 * p == TWO_32
    ensures m * 10 % TWO_32 == 0
  {
    assert p == 0x8000_0000;
    assert m * 10 == TWO_32 * (5 * q);
  }

  lemma ProductOfNonZero(a: int, b: int)
    requires a != 0 && b != 0
    ensures a * b != 0
  {
  }

  /** A decodable secret yields a code exactly up to 31 digits, and then one of exactly the
      configured number of decimal digits. */
  lemma {:induction false} CodeHasItsDigits(pr: Primitives, c: Config, secret: string, counter: nat)
    requires pr.decodeSecret(secret).Some?
    ensures HotpCode(pr, c, secret, counter).Ok? <==> c.Digits() <= 31
    ensures HotpCode(pr, c, secret, counter).Ok? ==>
              |HotpCode(pr, c, secret, counter).value| == c.Digits() && AllDigits(HotpCode(pr, c, secret, counter).value)
  {
    var d := c.Digits();
    ModulusVanishes(d);
    if d <= 31 {
      var v := Truncate(pr.mac(pr.decodeSecret(secret).value, BigEndian(8, counter))) % Modulus(d);
      if d <= 9 {
        ModulusIsPowerOfTen(d);
      } else {
        Pow10Monotone(10, d);
        assert Pow10(10) == 10_000_000_000;
      }
      DecimalLength(v, d);
    }
  }

  // ----- What a code is

  lemma {:induction false} ModulusIsReduced(k: nat)
    ensures Modulus(k) == Pow10(k) % TWO_32
  {
    if k > 0 {
      ModulusIsReduced(k - 1);
      ReduceTenfold(Pow10(k - 1));
    }
  }

  lemma ReduceTenfold(x: nat)
    ensures x % TWO_32 * 10 % TWO_32 == 10 * x % TWO_32
  {
    var q := x / TWO_32;
    assert 10 * x == x % TWO_32 * 10 + TWO_32 * (10 * q);
    SameRemainder(x % TWO_32 * 10, 10 * q);
  }

  lemma SameRemainder(a: nat, k: nat)
    ensures (a + TWO_32 * k) % TWO_32 == a % TWO_32
  {
  }

  lemma {:induction false} ValueAfterZeros(k: int, digits: string)
    requires AllDigits(digits)
    ensures Value(LeftZeros(k) + digits) == Value(digits)
    decreases |digits|, if k > 0 then k else 0
  {
    var s := LeftZeros(k) + digits;
    if digits == "" {
      if k > 0 {
        ValueAfterZeros(k - 1, "");
        ZerosFromBehind(k);
        assert LeftZeros(k - 1) + "" == LeftZeros(k - 1) && s == LeftZeros(k - 1) + "0";
        assert s[..|s| - 1] == LeftZeros(k - 1);
      }
    } else {
      var front := digits[..|digits| - 1];
      assert s[..|s| - 1] == LeftZeros(k) + front;
      ValueAfterZeros(k, front);
    }
  }

  lemma {:induction false} ZerosFromBehind(k: int)
    requires k > 0
    ensures LeftZeros(k) == LeftZeros(k - 1) + "0"
  {
    if k > 1 {
      ZerosFromBehind(k - 1);
    }
  }

  /** The code of a step, for every secret and MAC: its digits are the number that section 5.3 of
      RFC 4226 truncates from the MAC of the step's eight bytes, most significant first, reduced by
      the 32-bit power of ten. */
  lemma {:induction false} CodeIsTruncatedMac(pr: Primitives, c: Config, secret: string, counter: nat, message: seq<Byte>)
    requires pr.decodeSecret(secret).Some? && c.Digits() <= 31
    requires |message| == 8 && FromBigEndian(message) == counter
    ensures HotpCode(pr, c, secret, counter).Ok?
    ensures var digest := pr.mac(pr.decodeSecret(secret).value, message);
            var offset := digest[19] % 16;
            var code := HotpCode(pr, c, secret, counter).value;
            && AllDigits(code) && Pow10(c.Digits()) % TWO_32 > 0
            && Value(code) == FromBigEndian(digest[offset..offset + 4]) % 0x8000_0000 % (Pow10(c.Digits()) % TWO_32)
  {
    MessageOf(message);
    CodeHasItsDigits(pr, c, secret, counter);
    ModulusVanishes(c.Digits());
    ModulusIsReduced(c.Digits());
    var digest := pr.mac(pr.decodeSecret(secret).value, message);
    TruncateIsLow31Bits(digest);
    var v := Truncate(digest) % Modulus(c.Digits());
    ValueAfterZeros(c.Digits() - |Decimal(v)|, Decimal(v));
    ValueOfDecimal(v);
  }

  /** Eight bytes are the encoding of the number they denote. */
  lemma {:induction false} MessageOf(message: seq<Byte>)
    ensures BigEndian(|message|, FromBigEndian(message)) == message
  {
    if message != [] {
      var front := message[..|message| - 1];
      MessageOf(front);
      SplitByte(FromBigEndian(front), message[|message| - 1]);
      assert message == front + [message[|message| - 1]];
    }
  }

  lemma SplitByte(n: nat, b: Byte)
    ensures (n * 256 + b as int) / 256 == n && (n * 256 + b as int) % 256 == b as int
  {
  }

  /** Up to nine digits the reduction is by the power of ten itself. */
  lemma {:induction false} ReductionUpToNine(k: nat)
    requires k <= 9
    ensures Pow10(k) % TWO_32 == Pow10(k)
  {
    ModulusIsPowerOfTen(k);
    ModulusIsReduced(k);
  }

  /** A step spans one period: the counter of a 64-bit time is the number of whole periods up to it,
      a negative time being read as unsigned. */
  lemma {:induction false} CounterIsWholePeriods(c: Config, unix: int)
    requires -TWO_63 <= unix < TWO_63
    ensures var time := if unix < 0 then unix + TWO_64 else unix;
            c.Counter(unix) * c.Period() <= time < (c.Counter(unix) + 1) * c.Period()
  {
    assert ToUint64(unix) == if unix < 0 then unix + TWO_64 else unix;
    QuotientSpan(ToUint64(unix), c.Period());
  }

  lemma QuotientSpan(n: nat, p: nat)
    requires p >= 1
    ensures n / p * p <= n < (n / p + 1) * p
  {
    assert n == n / p * p + n % p;
    assert (n / p + 1) * p == n / p * p + p;
  }

  // ----- The skew window

  /** The first match among the window's steps from offset i on. */
  function FirstMatch(codeAt: nat -> Result<string, Error>, skew: nat, code: string, counter: int, i: int): Result<int, Error>
    decreases skew - i
  {
    if i > skew then Err(InvalidTOTP)
    else
      match codeAt(ToUint64(counter + i))
      case Err(e) => Err(e)
      case Ok(want) => if want == code then Ok(ToInt64(counter + i)) else FirstMatch(codeAt, skew, code, counter, i + 1)
  }

  function Codes(pr: Primitives, c: Config, secret: string): nat -> Result<string, Error> {
    (n: nat) => HotpCode(pr, c, secret, n)
  }

  /** validateStep's answer. */
  function MatchedStep(pr: Primitives, c: Config, secret: string, code: string, unix: int): Result<int, Error> {
    FirstMatch(Codes(pr, c, secret), c.skew, code, ToInt64(c.Counter(unix)), 0 - c.skew)
  }

  method ValidateStep(pr: Primitives, c: Config, secret: string, code: string, unix: int) returns (r: Result<int, Error>)
    requires c.Valid()
    ensures r == MatchedStep(pr, c, secret, code, unix)
  {
    r := SearchWindow(Codes(pr, c, secret), c.skew, code, ToInt64(c.Counter(unix)));
  }

  /** validateStep's loop, over the code of each step. */
  method SearchWindow(codeAt: nat -> Result<string, Error>, skew: nat, code: string, counter: int) returns (r: Result<int, Error>)
    ensures r == FirstMatch(codeAt, skew, code, counter, 0 - skew)
  {
    var i: int := 0 - skew;
    while i <= skew
      invariant 0 - skew <= i <= skew + 1
      invariant FirstMatch(codeAt, skew, code, counter, 0 - skew) == FirstMatch(codeAt, skew, code, counter, i)
    {
      var want := codeAt(ToUint64(counter + i));
      if want.Err? {
        return Err(want.error);
      }
      if want.value == code {
        return Ok(ToInt64(counter + i));
      }
      i := i + 1;
    }
    return Err(InvalidTOTP);
  }

  /** The step at offset k of the window around counter, wrap-around of the 64-bit counter included,
      has this code. */
  predicate Offers(codeAt: nat -> Result<string, Error>, code: string, counter: int, k: int) {
    codeAt(ToUint64(counter + k)) == Ok(code)
  }

  /** step is offset k of the window around the given clock reading, and code is its code. */
  ghost predicate MatchesAt(pr: Primitives, c: Config, secret: string, code: string, unix: int, k: int, step: int) {
    var counter := ToInt64(c.Counter(unix));
    0 - c.skew <= k <= c.skew && step == ToInt64(counter + k) && Offers(Codes(pr, c, secret), code, counter, k)
  }

  /** k is the window's first offset that has this code. */
  ghost predicate FirstOffer(codeAt: nat -> Result<string, Error>, skew: nat, code: string, counter: int, k: int) {
    && 0 - skew <= k <= skew && Offers(codeAt, code, counter, k)
    && forall j :: 0 - skew <= j < k ==> !Offers(codeAt, code, counter, j)
  }

  ghost predicate FirstAt(pr: Primitives, c: Config, secret: string, code: string, unix: int, k: int, step: int) {
    var counter := ToInt64(c.Counter(unix));
    FirstOffer(Codes(pr, c, secret), c.skew, code, counter, k) && step == ToInt64(counter + k)
  }

  /** A step is reported exactly when it is the window's first one whose code matches, wrap-around
      included. */
  lemma {:induction false} ReportsFirstMatch(pr: Primitives, c: Config, secret: string, code: string, unix: int, step: int)
    ensures MatchedStep(pr, c, secret, code, unix) == Ok(step) <==> exists k :: FirstAt(pr, c, secret, code, unix, k, step)
  {
    var counter := ToInt64(c.Counter(unix));
    if MatchedStep(pr, c, secret, code, unix) == Ok(step) {
      var k := FirstOffset(Codes(pr, c, secret), c.skew, code, counter, 0 - c.skew, step);
      assert FirstAt(pr, c, secret, code, unix, k, step);
    }
    forall k | FirstAt(pr, c, secret, code, unix, k, step)
      ensures MatchedStep(pr, c, secret, code, unix) == Ok(step)
    {
      FirstOffsetIsReported(pr, c, secret, code, unix, k, step);
    }
  }

  lemma {:induction false} FirstOffsetIsReported(
      pr: Primitives, c: Config, secret: string, code: string, unix: int, k: int, step: int)
    requires FirstAt(pr, c, secret, code, unix, k, step)
    ensures MatchedStep(pr, c, secret, code, unix) == Ok(step)
  {
    AllOrNone(pr, c, secret, ToUint64(ToInt64(c.Counter(unix)) + k));
    FoundAtFirstOffset(Codes(pr, c, secret), c.skew, code, ToInt64(c.Counter(unix)), 0 - c.skew, k);
  }

  /** One secret has a code at every step or at none. */
  lemma {:induction false} AllOrNone(pr: Primitives, c: Config, secret: string, at: nat)
    ensures Codes(pr, c, secret)(at).Ok? ==> forall n: nat :: Codes(pr, c, secret)(n).Ok?
  {
    if Codes(pr, c, secret)(at).Ok? {
      CodeHasItsDigits(pr, c, secret, at);
      forall n: nat
        ensures Codes(pr, c, secret)(n).Ok?
      {
        CodeHasItsDigits(pr, c, secret, n);
      }
    }
  }

  lemma {:induction false} FirstOffset(codeAt: nat -> Result<string, Error>, skew: nat, code: string, counter: int, from: int, step: int)
    returns (k: int)
    requires FirstMatch(codeAt, skew, code, counter, from) == Ok(step)
    ensures from <= k <= skew && step == ToInt64(counter + k) && Offers(codeAt, code, counter, k)
    ensures forall j :: from <= j < k ==> !Offers(codeAt, code, counter, j)
    decreases skew - from
  {
    if Offers(codeAt, code, counter, from) {
      k := from;
    } else {
      k := FirstOffset(codeAt, skew, code, counter, from + 1, step);
    }
  }

  lemma {:induction false} FoundAtFirstOffset(codeAt: nat -> Result<string, Error>, skew: nat, code: string, counter: int, from: int, k: int)
    requires forall n: nat :: codeAt(n).Ok?
    requires from <= k <= skew && Offers(codeAt, code, counter, k)
    requires forall j :: from <= j < k ==> !Offers(codeAt, code, counter, j)
    ensures FirstMatch(codeAt, skew, code, counter, from) == Ok(ToInt64(counter + k))
    decreases skew - from
  {
    if from < k {
      assert !Offers(codeAt, code, counter, from);
      FoundAtFirstOffset(codeAt, skew, code, counter, from + 1, k);
    }
  }

  /** step is the lowest of the steps within skew of counter that have this code. */
  ghost predicate LowestAt(codeAt: nat -> Result<string, Error>, skew: nat, code: string, counter: nat, step: int) {
    && 0 <= counter - skew <= step <= counter + skew && codeAt(step) == Ok(code)
    && forall s: nat :: counter - skew <= s < step ==> codeAt(s) != Ok(code)
  }

  /** Away from the ends of the counter's range, where the window does not wrap, that is the lowest
      matching step. */
  lemma {:induction false} ReportsLowestMatch(pr: Primitives, c: Config, secret: string, code: string, unix: int, step: int)
    requires c.skew <= c.Counter(unix) && c.Counter(unix) + c.skew < TWO_63
    ensures MatchedStep(pr, c, secret, code, unix) == Ok(step) <==>
            LowestAt(Codes(pr, c, secret), c.skew, code, c.Counter(unix), step)
  {
    var codeAt, counter := Codes(pr, c, secret), c.Counter(unix);
    Unwrapped(counter, 0);
    if codeAt(counter).Ok? {
      AllOrNone(pr, c, secret, counter);
      FirstMatchIsLowest(codeAt, c.skew, code, counter, 0 - c.skew, step);
    } else {
      NoCodeNoMatch(pr, c, secret, code, unix, counter, step);
    }
  }

  lemma {:induction false} NoCodeNoMatch(pr: Primitives, c: Config, secret: string, code: string, unix: int, at: nat, step: int)
    requires Codes(pr, c, secret)(at).Err?
    ensures MatchedStep(pr, c, secret, code, unix) != Ok(step)
    ensures step >= 0 ==> Codes(pr, c, secret)(step) != Ok(code)
  {
    if MatchedStep(pr, c, secret, code, unix) == Ok(step) {
      var k := FirstOffset(Codes(pr, c, secret), c.skew, code, ToInt64(c.Counter(unix)), 0 - c.skew, step);
      AllOrNone(pr, c, secret, ToUint64(ToInt64(c.Counter(unix)) + k));
      assert false;
    }
    if step >= 0 {
      AllOrNone(pr, c, secret, step);
    }
  }

  lemma Unwrapped(counter: nat, k: int)
    requires counter < TWO_63 && 0 <= counter + k < TWO_63
    ensures ToInt64(counter) == counter && ToInt64(counter + k) == counter + k && ToUint64(counter + k) == counter + k
  {
  }

  lemma {:induction false} FirstMatchIsLowest(codeAt: nat -> Result<string, Error>, skew: nat, code: string, counter: nat, i: int, step: int)
    requires forall n: nat :: codeAt(n).Ok?
    requires skew <= counter && counter + skew < TWO_63 && 0 - skew <= i <= skew + 1
    ensures FirstMatch(codeAt, skew, code, counter, i) == Ok(step) <==>
              && counter + i <= step <= counter + skew && codeAt(step) == Ok(code)
              && forall s: nat :: counter + i <= s < step ==> codeAt(s) != Ok(code)
    decreases skew - i
  {
    if i <= skew {
      Unwrapped(counter, i);
      FirstMatchIsLowest(codeAt, skew, code, counter, i + 1, step);
    }
  }

  /** Every code generated at some offset k of the validating window is accepted, wrap-around
      included, and the reported step is the first match of the window, at k or before. */
  lemma {:induction false} GeneratedCodesValidate(
      pr: Primitives, c: Config, secret: string, generated: int, unix: int, k: int, code: string)
    requires HotpCode(pr, c, secret, c.Counter(generated)) == Ok(code)
    requires 0 - c.skew <= k <= c.skew && c.Counter(generated) == ToUint64(ToInt64(c.Counter(unix)) + k)
    ensures var r := MatchedStep(pr, c, secret, code, unix);
            r.Ok? && exists j :: j <= k && FirstAt(pr, c, secret, code, unix, j, r.value)
  {
    CodeHasItsDigits(pr, c, secret, c.Counter(generated));
    var counter := ToInt64(c.Counter(unix));
    assert Offers(Codes(pr, c, secret), code, counter, k);
    var j := LowestOffset(Codes(pr, c, secret), code, counter, 0 - c.skew, k);
    var step := ToInt64(counter + j);
    assert FirstAt(pr, c, secret, code, unix, j, step);
    FirstOffsetIsReported(pr, c, secret, code, unix, j, step);
  }

  lemma {:induction false} LowestOffset(codeAt: nat -> Result<string, Error>, code: string, counter: int, from: int, k: int)
    returns (j: int)
    requires from <= k && Offers(codeAt, code, counter, k)
    ensures from <= j <= k && Offers(codeAt, code, counter, j)
    ensures forall i :: from <= i < j ==> !Offers(codeAt, code, counter, i)
    decreases k - from
  {
    if Offers(codeAt, code, counter, from) {
      j := from;
    } else {
      j := LowestOffset(codeAt, code, counter, from + 1, k);
    }
  }

  /** When there is no code at all, the reason is the secret or the digit count; otherwise a window
      without a match is the only refusal. */
  lemma {:induction false} RefusalsAreTold(pr: Primitives, c: Config, secret: string, code: string, unix: int)
    ensures var r := MatchedStep(pr, c, secret, code, unix);
            && (r == Err(InvalidSecret) <==> pr.decodeSecret(secret).None?)
            && (r == Err(DivisionByZero) <==> pr.decodeSecret(secret).Some? && c.Digits() >= 32)
            && (r == Err(InvalidTOTP) <==>
                  pr.decodeSecret(secret).Some? && c.Digits() <= 31 && !exists step, k :: FirstAt(pr, c, secret, code, unix, k, step))
  {
    var counter := ToInt64(c.Counter(unix));
    ModulusVanishes(c.Digits());
    if pr.decodeSecret(secret).Some? && c.Digits() <= 31 {
      CodeHasItsDigits(pr, c, secret, 0);
      AllOrNone(pr, c, secret, 0);
      NoOtherRefusal(Codes(pr, c, secret), c.skew, code, counter, 0 - c.skew);
      if MatchedStep(pr, c, secret, code, unix).Ok? {
        ReportsFirstMatch(pr, c, secret, code, unix, MatchedStep(pr, c, secret, code, unix).value);
      }
      forall step, k | FirstAt(pr, c, secret, code, unix, k, step)
        ensures MatchedStep(pr, c, secret, code, unix).Ok?
      {
        FirstOffsetIsReported(pr, c, secret, code, unix, k, step);
      }
    } else {
      forall step, k
        ensures !FirstAt(pr, c, secret, code, unix, k, step)
      {
      }
    }
  }

  lemma {:induction false} NoOtherRefusal(codeAt: nat -> Result<string, Error>, skew: nat, code: string, counter: int, from: int)
    requires forall n: nat :: codeAt(n).Ok?
    ensures var r := FirstMatch(codeAt, skew, code, counter, from); r.Ok? || r == Err(InvalidTOTP)
    decreases skew - from
  {
    if from <= skew && codeAt(ToUint64(counter + from)) != Ok(code) {
      NoOtherRefusal(codeAt, skew, code, counter, from + 1);
    }
  }

  // ----- The repository and single use

  function ConsumeStep(steps: map<string, int>, user: string, step: int): (map<string, int>, bool) {
    if user in steps && step <= steps[user] then (steps, false) else (steps[user := step], true)
  }

  class TotpRepo {
    var secrets: map<string, string>
    var steps: map<string, int>

    constructor ()
      ensures secrets == map[] && steps == map[]
    {
      secrets, steps := map[], map[];
    }

    method GetSecret(user: string) returns (r: Option<string>)
      ensures r == if user in secrets then Some(secrets[user]) else None
    {
      r := if user in secrets then Some(secrets[user]) else None;
    }

    method SetSecret(user: string, secret: string)
      modifies this
      ensures secrets == old(secrets)[user := secret] && steps == old(steps)
    {
      secrets := secrets[user := secret];
    }

    method DeleteSecret(user: string) returns (found: bool)
      modifies this
      ensures found == (user in old(secrets))
      ensures secrets == old(secrets) - {user}
      ensures steps == if found then old(steps) - {user} else old(steps)
    {
      if user !in secrets {
        return false;
      }
      secrets := secrets - {user};
      steps := steps - {user};
      return true;
    }

    method Consume(user: string, step: int) returns (isFresh: bool)
      modifies this
      ensures (steps, isFresh) == ConsumeStep(old(steps), user, step) && secrets == old(secrets)
      ensures isFresh <==> user !in old(steps) || step > old(steps)[user]
      ensures steps == if isFresh then old(steps)[user := step] else old(steps)
    {
      if user in steps && step <= steps[user] {
        return false;
      }
      steps := steps[user := step];
      return true;
    }
  }

  /** TOTPService.Verify run without interference. */
  method Verify(repo: TotpRepo, pr: Primitives, c: Config, user: string, code: string, unix: int) returns (r: Result<(), Error>)
    requires c.Valid()
    modifies repo
    ensures repo.secrets == old(repo.secrets)
    ensures if user !in old(repo.secrets) then r == Err(NotFound) && repo.steps == old(repo.steps)
            else match MatchedStep(pr, c, old(repo.secrets)[user], code, unix)
              case Err(e) => r == Err(e) && repo.steps == old(repo.steps)
              case Ok(step) =>
                var (steps, isFresh) := ConsumeStep(old(repo.steps), user, step);
                repo.steps == steps && r == if isFresh then Ok(()) else Err(Reused)
  {
    var secret := repo.GetSecret(user);
    if secret.None? {
      return Err(NotFound);
    }
    var step := ValidateStep(pr, c, secret.value, code, unix);
    if step.Err? {
      return Err(step.error);
    }
    var isFresh := repo.Consume(user, step.value);
    return if isFresh then Ok(()) else Err(Reused);
  }

  // ----- Interleaved runs

  /** A Verify call after it matched a step, or finished. */
  datatype Call = Matched(user: string, step: int) | Finished(result: Result<(), Error>)

  datatype State = State(secrets: map<string, string>, steps: map<string, int>, calls: map<nat, Call>)

  datatype Event =
    | Enroll(user: string, secret: string)
    | Disenroll(user: string)
    | ReadAndMatch(who: nat, user: string, code: string, unix: int)
    | ConsumeMatched(who: nat)

  const INITIAL := State(map[], map[], map[])

  predicate Enabled(s: State, e: Event) {
    match e
    case Enroll(_, _) => true
    case Disenroll(_) => true
    case ReadAndMatch(w, _, _, _) => w !in s.calls
    case ConsumeMatched(w) => w in s.calls && s.calls[w].Matched?
  }

  function Next(pr: Primitives, c: Config, s: State, e: Event): State
    requires Enabled(s, e)
  {
    match e
    case Enroll(user, secret) => s.(secrets := s.secrets[user := secret])
    case Disenroll(user) => if user in s.secrets then s.(secrets := s.secrets - {user}, steps := s.steps - {user}) else s
    case ReadAndMatch(w, user, code, unix) =>
      s.(calls := s.calls[w :=
        if user !in s.secrets then Finished(Err(NotFound))
        else match MatchedStep(pr, c, s.secrets[user], code, unix)
          case Ok(step) => Matched(user, step)
          case Err(err) => Finished(Err(err))])
    case ConsumeMatched(w) =>
      var (steps, isFresh) := ConsumeStep(s.steps, s.calls[w].user, s.calls[w].step);
      s.(steps := steps, calls := s.calls[w := Finished(if isFresh then Ok(()) else Err(Reused))])
  }

  ghost predicate Valid(pr: Primitives, c: Config, es: seq<Event>)
    decreases |es|, 0
  {
    es == [] || (Valid(pr, c, Front(es)) && Enabled(Exec(pr, c, Front(es)), Last(es)))
  }

  ghost function Exec(pr: Primitives, c: Config, es: seq<Event>): State
    requires Valid(pr, c, es)
    decreases |es|, 1
  {
    if es == [] then INITIAL else Next(pr, c, Exec(pr, c, Front(es)), Last(es))
  }

  /** The run's last event accepts step for user. */
  ghost predicate Accepts(pr: Primitives, c: Config, es: seq<Event>, user: string, step: int)
    requires es != [] && Valid(pr, c, es)
  {
    var s := Exec(pr, c, Front(es));
    Last(es).ConsumeMatched? && s.calls[Last(es).who] == Matched(user, step) && ConsumeStep(s.steps, user, step).1
  }

  /** Once accepted, a step stays at or below the recorded one until the user is disenrolled. */
  lemma {:induction false} RecordedStepOnlyGrows(pr: Primitives, c: Config, es: seq<Event>, n: nat, user: string, step: int)
    requires Valid(pr, c, es) && n < |es|
    requires Valid(pr, c, es[..n + 1]) && Accepts(pr, c, es[..n + 1], user, step)
    requires forall i :: n < i < |es| ==> es[i] != Disenroll(user)
    ensures user in Exec(pr, c, es).steps && step <= Exec(pr, c, es).steps[user]
  {
    if n == |es| - 1 {
      assert es[..n + 1] == es;
    } else {
      assert Front(es)[..n + 1] == es[..n + 1];
      forall i | n < i < |Front(es)|
        ensures Front(es)[i] != Disenroll(user)
      {
        assert Front(es)[i] == es[i];
      }
      RecordedStepOnlyGrows(pr, c, Front(es), n, user, step);
      assert Last(es) == es[|es| - 1];
    }
  }

  /** Between disenrolments the steps accepted for a user strictly increase, however Verify calls
      interleave, so no time step is accepted twice. */
  lemma {:induction false} AcceptedStepsIncrease(pr: Primitives, c: Config, es: seq<Event>, n: nat, user: string, step1: int, step2: int)
    requires Valid(pr, c, es) && n < |es| - 1
    requires Valid(pr, c, es[..n + 1]) && Accepts(pr, c, es[..n + 1], user, step1)
    requires Accepts(pr, c, es, user, step2)
    requires forall i :: n < i < |es| ==> es[i] != Disenroll(user)
    ensures step1 < step2
  {
    assert Front(es)[..n + 1] == es[..n + 1];
    forall i | n < i < |Front(es)|
      ensures Front(es)[i] != Disenroll(user)
    {
      assert Front(es)[i] == es[i];
    }
    RecordedStepOnlyGrows(pr, c, Front(es), n, user, step1);
  }

  /** Event i is the read of call w for user, which presented the code of step under the secret
      then enrolled, within the skew of that call's own clock reading. */
  ghost predicate MatchedIn(pr: Primitives, c: Config, es: seq<Event>, i: nat, w: nat, user: string, step: int) {
    && i < |es| && es[i].ReadAndMatch? && es[i].who == w && es[i].user == user
    && Valid(pr, c, es[..i]) && user in Exec(pr, c, es[..i]).secrets
    && exists k :: MatchesAt(pr, c, Exec(pr, c, es[..i]).secrets[user], es[i].code, es[i].unix, k, step)
  }

  lemma {:induction false} ReadIsMatchedIn(pr: Primitives, c: Config, es: seq<Event>, w: nat, user: string, step: int)
    requires Valid(pr, c, es) && es != [] && w !in Exec(pr, c, Front(es)).calls
    requires w in Exec(pr, c, es).calls && Exec(pr, c, es).calls[w] == Matched(user, step)
    ensures MatchedIn(pr, c, es, |es| - 1, w, user, step)
  {
    var s, e, i := Exec(pr, c, Front(es)), Last(es), |es| - 1;
    assert es[i] == e && es[..i] == Front(es);
    var k := MatchedOffset(pr, c, s.secrets[user], e.code, e.unix, step);
  }

  lemma {:induction false} MatchedOffset(pr: Primitives, c: Config, secret: string, code: string, unix: int, step: int) returns (k: int)
    requires MatchedStep(pr, c, secret, code, unix) == Ok(step)
    ensures MatchesAt(pr, c, secret, code, unix, k, step)
  {
    k := FirstOffset(Codes(pr, c, secret), c.skew, code, ToInt64(c.Counter(unix)), 0 - c.skew, step);
  }

  /** Every step a call goes on to consume was matched in that call's own window. */
  lemma {:induction false} MatchedStepIsInWindow(pr: Primitives, c: Config, es: seq<Event>, w: nat, user: string, step: int)
    requires Valid(pr, c, es)
    requires w in Exec(pr, c, es).calls && Exec(pr, c, es).calls[w] == Matched(user, step)
    ensures exists i: nat :: MatchedIn(pr, c, es, i, w, user, step)
  {
    if w in Exec(pr, c, Front(es)).calls {
      MatchedStepIsInWindow(pr, c, Front(es), w, user, step);
      var i: nat :| MatchedIn(pr, c, Front(es), i, w, user, step);
      assert es[i] == Front(es)[i] && es[..i] == Front(es)[..i];
      assert MatchedIn(pr, c, es, i, w, user, step);
    } else {
      ReadIsMatchedIn(pr, c, es, w, user, step);
    }
  }

  // ----- The secret an accepted code belongs to

  /** The user's enrolment after these events. */
  function EnrolledAs(user: string, es: seq<Event>): Option<string> {
    if es == [] then None
    else match Last(es)
      case Enroll(u, secret) => if u == user then Some(secret) else EnrolledAs(user, Front(es))
      case Disenroll(u) => if u == user then None else EnrolledAs(user, Front(es))
      case _ => EnrolledAs(user, Front(es))
  }

  lemma {:induction false} SecretsAreEnrolments(pr: Primitives, c: Config, es: seq<Event>, user: string)
    requires Valid(pr, c, es)
    ensures var secrets := Exec(pr, c, es).secrets;
            EnrolledAs(user, es) == if user in secrets then Some(secrets[user]) else None
  {
    if es != [] {
      SecretsAreEnrolments(pr, c, Front(es), user);
    }
  }

  /** An accepted step is one that the call matched at its read, event i; and the secret it matched
      is the one enrolled at acceptance exactly when the enrolments in between left the user's
      where it was. */
  lemma {:induction false} AcceptedCodeIsCurrentIff(pr: Primitives, c: Config, es: seq<Event>, user: string, step: int) returns (i: nat)
    requires Valid(pr, c, es) && es != [] && Accepts(pr, c, es, user, step)
    ensures MatchedIn(pr, c, Front(es), i, Last(es).who, user, step)
    ensures var matched := Exec(pr, c, Front(es)[..i]).secrets[user];
            var secrets := Exec(pr, c, es).secrets;
            user in secrets && secrets[user] == matched <==> EnrolledAs(user, es) == EnrolledAs(user, es[..i])
  {
    MatchedStepIsInWindow(pr, c, Front(es), Last(es).who, user, step);
    i :| MatchedIn(pr, c, Front(es), i, Last(es).who, user, step);
    assert es[..i] == Front(es)[..i];
    SecretsAreEnrolments(pr, c, es, user);
    SecretsAreEnrolments(pr, c, es[..i], user);
  }

  /** The exception is real: a call that matched before a disenrolment is accepted after it, and
      writes its step back. */
  lemma {:induction false} StaleCodeIsAccepted(pr: Primitives, c: Config, user: string, secret: string, code: string, unix: int, step: int)
    returns (es: seq<Event>)
    requires MatchedStep(pr, c, secret, code, unix) == Ok(step)
    ensures Valid(pr, c, es) && es != [] && Accepts(pr, c, es, user, step)
    ensures user !in Exec(pr, c, es).secrets && user in Exec(pr, c, es).steps && Exec(pr, c, es).steps[user] == step
  {
    var es1 := [Enroll(user, secret)];
    var es2 := es1 + [ReadAndMatch(0, user, code, unix)];
    var es3 := es2 + [Disenroll(user)];
    es := es3 + [ConsumeMatched(0)];
    assert Front(es1) == [] && Front(es2) == es1 && Front(es3) == es2 && Front(es) == es3;
    assert Exec(pr, c, es1).secrets == map[user := secret];
    assert Valid(pr, c, es2) && Exec(pr, c, es2).calls[0] == Matched(user, step);
    assert Valid(pr, c, es3) && Exec(pr, c, es3).calls[0] == Matched(user, step) && user !in Exec(pr, c, es3).steps;
  }

  // ----- Which steps are accepted

  /** The step accepted last for the user since the latest disenrolment. */
  ghost function LastAccepted(pr: Primitives, c: Config, es: seq<Event>, user: string): Option<int>
    requires Valid(pr, c, es)
  {
    if es == [] then None
    else
      var s, before := Exec(pr, c, Front(es)), LastAccepted(pr, c, Front(es), user);
      match Last(es)
      case Disenroll(u) => if u == user && user in s.secrets then None else before
      case ConsumeMatched(w) =>
        if s.calls[w].user == user && (before.None? || s.calls[w].step > before.value) then Some(s.calls[w].step) else before
      case _ => before
  }

  lemma {:induction false} StepsAreLastAccepted(pr: Primitives, c: Config, es: seq<Event>, user: string)
    requires Valid(pr, c, es)
    ensures var steps := Exec(pr, c, es).steps;
            LastAccepted(pr, c, es, user) == if user in steps then Some(steps[user]) else None
  {
    if es != [] {
      StepsAreLastAccepted(pr, c, Front(es), user);
    }
  }

  /** A matched step is accepted exactly when it is later than the one accepted last since the latest
      disenrolment, and the call answers accordingly. */
  lemma {:induction false} AcceptedIffLater(pr: Primitives, c: Config, es: seq<Event>, w: nat)
    requires Valid(pr, c, es) && es != [] && Last(es) == ConsumeMatched(w)
    ensures var call := Exec(pr, c, Front(es)).calls[w];
            var last := LastAccepted(pr, c, Front(es), call.user);
            var later := last.None? || call.step > last.value;
            && (Accepts(pr, c, es, call.user, call.step) <==> later)
            && Exec(pr, c, es).calls[w] == Finished(if later then Ok(()) else Err(Reused))
  {
    StepsAreLastAccepted(pr, c, Front(es), Exec(pr, c, Front(es)).calls[w].user);
  }
}
