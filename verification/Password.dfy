// The stored password format (domain/password.go): the PHC string of an argon2id
// hash, its decoder, and why a hashed password verifies.  argon2id itself is an
// uninterpreted function of password, salt and cost.

module Password {
  import opened Common
  import opened Text
  import opened Base64

  const MAX_PASSWORD_LEN: nat := 1024
  const ARGON2_VERSION: nat := 19

  datatype Cost = Cost(memory: nat, iterations: nat, parallelism: nat) {
    /** The Go field types: uint32, uint32 and uint8. */
    predicate Fits() {
      memory < 0x1_0000_0000 && iterations < 0x1_0000_0000 && parallelism < 256
    }
  }

  /** argon2.IDKey(password, salt, iterations, memory, parallelism, length). */
  type IdKey = (string, seq<Byte>, Cost, nat) -> seq<Byte>

  datatype Error = InvalidPassword | InvalidParams | InvalidHash | Mismatch | Panics

  /** argon2.IDKey panics without a pass over memory, a lane, or a byte of output to fill. */
  predicate Computable(c: Cost, keyLength: nat) {
    c.iterations >= 1 && c.parallelism >= 1 && keyLength >= 1
  }

  predicate PlaintextOk(plaintext: string) {
    plaintext != "" && |plaintext| <= MAX_PASSWORD_LEN
  }

  // ----- Printing

  function CostText(c: Cost): string {
    "m=" + (Decimal(c.memory) + (",t=" + (Decimal(c.iterations) + (",p=" + Decimal(c.parallelism)))))
  }

  function Parts(c: Cost, salt: seq<Byte>, key: seq<Byte>): seq<string> {
    ["", "argon2id", "v=" + Decimal(ARGON2_VERSION), CostText(c), Encode(Std, salt), Encode(Std, key)]
  }

  function PhcString(c: Cost, salt: seq<Byte>, key: seq<Byte>): string {
    JoinWith(Parts(c, salt, key), '$')
  }

  /** HashPassword with the random salt it draws. */
  function HashPassword(idKey: IdKey, plaintext: string, c: Cost, salt: seq<Byte>, keyLength: nat): Result<string, Error> {
    if !PlaintextOk(plaintext) then Err(InvalidPassword)
    else if c.memory == 0 || c.iterations == 0 || c.parallelism == 0 || salt == [] || keyLength == 0 then Err(InvalidParams)
    else Ok(PhcString(c, salt, idKey(plaintext, salt, c, keyLength)))
  }

  // ----- Scanning, as fmt.Sscanf does it

  function DigitRun(s: string): (n: nat)
    ensures n <= |s| && AllDigits(s[..n])
    ensures n < |s| ==> !IsDigit(s[n])
  {
    if s == "" || !IsDigit(s[0]) then 0
    else
      var n := DigitRun(s[1..]);
      assert s[..n + 1] == [s[0]] + s[1..][..n];
      n + 1
  }

  /** The space fmt.Sscanf skips before a number; a newline stops it. */
  predicate IsBlank(c: char) {
    IsSpace(c) && c != '\n'
  }

  /** %d into an unsigned variable below limit: the number and what follows it. */
  function ScanUint(s: string, limit: nat): Option<(nat, string)> {
    var t := TrimLeft(s, IsBlank);
    var n := DigitRun(t);
    if n == 0 || Value(t[..n]) >= limit then None else Some((Value(t[..n]), t[n..]))
  }

  /** A literal of the format string. */
  function ScanLiteral(lit: string, s: string): Option<string> {
    if lit <= s then Some(s[|lit|..]) else None
  }

  function ScanField(lit: string, limit: nat, s: string): Option<(nat, string)> {
    match ScanLiteral(lit, s)
    case Some(t) => ScanUint(t, limit)
    case None => None
  }

  function ScanCost(s: string): Option<Cost> {
    match ScanField("m=", 0x1_0000_0000, s)
    case None => None
    case Some((m, s1)) =>
      match ScanField(",t=", 0x1_0000_0000, s1)
      case None => None
      case Some((t, s2)) =>
        match ScanField(",p=", 256, s2)
        case None => None
        case Some((p, _)) => Some(Cost(m, t, p))
  }

  /** "v=%d" into a signed variable; only the library's own version passes, and that has no sign. */
  function VersionOk(s: string): bool {
    match ScanLiteral("v=", s)
    case None => false
    case Some(t) =>
      var u := TrimLeft(t, IsBlank);
      var digits := if u != "" && u[0] == '+' then u[1..] else u;
      var n := DigitRun(digits);
      n > 0 && Value(digits[..n]) == ARGON2_VERSION
  }

  datatype Decoded = Decoded(cost: Cost, salt: seq<Byte>, key: seq<Byte>)

  /** decodePHC. */
  function DecodePhc(encoded: string): Option<Decoded> {
    var parts := SplitOn(encoded, '$');
    if |parts| != 6 || parts[1] != "argon2id" || !VersionOk(parts[2]) then None
    else
      match ScanCost(parts[3])
      case None => None
      case Some(cost) =>
        match (DecodeString(Std, false, parts[4]), DecodeString(Std, false, parts[5]))
        case (Some(salt), Some(key)) => Some(Decoded(cost, salt, key))
        case _ => None
  }

  function Verify(idKey: IdKey, encoded: string, plaintext: string): Result<(), Error> {
    if !PlaintextOk(plaintext) then Err(InvalidPassword)
    else
      match DecodePhc(encoded)
      case None => Err(InvalidHash)
      case Some(d) =>
        if !Computable(d.cost, |d.key|) then Err(Panics)
        else if idKey(plaintext, d.salt, d.cost, |d.key|) == d.key then Ok(()) else Err(Mismatch)
  }

  // ----- Everything printed scans back

  lemma {:induction false} DigitRunOf(digits: string, rest: string)
    requires AllDigits(digits) && (rest != "" ==> !IsDigit(rest[0]))
    ensures DigitRun(digits + rest) == |digits|
  {
    if digits == "" {
      assert digits + rest == rest;
    } else {
      DigitRunOf(digits[1..], rest);
      assert (digits + rest)[1..] == digits[1..] + rest;
    }
  }

  lemma {:induction false} ScanOfDecimal(n: nat, limit: nat, rest: string)
    requires n < limit && (rest != "" ==> !IsDigit(rest[0]))
    ensures ScanUint(Decimal(n) + rest, limit) == Some((n, rest))
  {
    var d := Decimal(n);
    var s := d + rest;
    assert IsDigit(s[0]) by { assert s[0] == d[0]; }
    assert TrimLeft(s, IsBlank) == s;
    DigitRunOf(d, rest);
    assert s[..|d|] == d && s[|d|..] == rest;
    ValueOfDecimal(n);
  }

  lemma {:induction false} ScanOfField(lit: string, n: nat, limit: nat, rest: string)
    requires n < limit && (rest != "" ==> !IsDigit(rest[0]))
    ensures ScanField(lit, limit, lit + (Decimal(n) + rest)) == Some((n, rest))
  {
    var s := lit + (Decimal(n) + rest);
    assert s[|lit|..] == Decimal(n) + rest;
    ScanOfDecimal(n, limit, rest);
  }

  lemma {:induction false} ScanOfCost(c: Cost)
    requires c.Fits()
    ensures ScanCost(CostText(c)) == Some(c)
  {
    var s2 := ",p=" + (Decimal(c.parallelism) + "");
    var s1 := ",t=" + (Decimal(c.iterations) + s2);
    assert Decimal(c.parallelism) + "" == Decimal(c.parallelism);
    ScanOfField(",p=", c.parallelism, 256, "");
    ScanOfField(",t=", c.iterations, 0x1_0000_0000, s2);
    ScanOfField("m=", c.memory, 0x1_0000_0000, s1);
  }

  lemma VersionIsAccepted()
    ensures VersionOk("v=" + Decimal(ARGON2_VERSION))
  {
    var d := Decimal(ARGON2_VERSION);
    assert ("v=" + d)[2..] == d;
    assert IsDigit(d[0]);
    assert TrimLeft(d, IsBlank) == d;
    DigitRunOf(d, "");
    assert d + "" == d && d[..|d|] == d;
    ValueOfDecimal(ARGON2_VERSION);
  }

  lemma {:induction false} DigitsLackDollar(s: string)
    requires AllDigits(s)
    ensures '$' !in s
  {
  }

  lemma {:induction false} EncodingLacksDollar(b: seq<Byte>)
    ensures '$' !in Encode(Std, b)
  {
    EncodeStaysInAlphabet(Std, b);
    var s := Encode(Std, b);
    forall i | 0 <= i < |s|
      ensures s[i] != '$'
    {
      assert SextetOf(Std, s[i]).Some?;
    }
  }

  lemma {:induction false} PartsLackDollar(c: Cost, salt: seq<Byte>, key: seq<Byte>)
    ensures forall i :: 0 <= i < |Parts(c, salt, key)| ==> '$' !in Parts(c, salt, key)[i]
  {
    DigitsLackDollar(Decimal(ARGON2_VERSION));
    DigitsLackDollar(Decimal(c.memory));
    DigitsLackDollar(Decimal(c.iterations));
    DigitsLackDollar(Decimal(c.parallelism));
    EncodingLacksDollar(salt);
    EncodingLacksDollar(key);
    assert '$' !in CostText(c);
  }

  /** The decoder recovers cost, salt and key from everything the encoder prints. */
  lemma {:induction false} DecodeUndoesPrint(c: Cost, salt: seq<Byte>, key: seq<Byte>)
    requires c.Fits()
    ensures DecodePhc(PhcString(c, salt, key)) == Some(Decoded(c, salt, key))
  {
    PartsLackDollar(c, salt, key);
    SplitUndoesJoin(Parts(c, salt, key), '$');
    VersionIsAccepted();
    ScanOfCost(c);
    DecodeUndoesEncode(Std, false, salt);
    DecodeUndoesEncode(Std, false, key);
  }

  /** A stored hash accepts exactly the admissible passwords that argon2id maps to the stored key;
      in particular the password it was made from. */
  lemma {:induction false} VerifyAcceptsExactly(idKey: IdKey, plaintext: string, c: Cost, salt: seq<Byte>, keyLength: nat, attempt: string)
    requires c.Fits() && HashPassword(idKey, plaintext, c, salt, keyLength).Ok?
    requires |idKey(plaintext, salt, c, keyLength)| == keyLength
    ensures var stored := HashPassword(idKey, plaintext, c, salt, keyLength).value;
            && Verify(idKey, stored, plaintext) == Ok(())
            && (Verify(idKey, stored, attempt) == Ok(()) <==>
                  PlaintextOk(attempt) && idKey(attempt, salt, c, keyLength) == idKey(plaintext, salt, c, keyLength))
            && Verify(idKey, stored, attempt) != Err(InvalidHash) && Verify(idKey, stored, attempt) != Err(Panics)
  {
    DecodeUndoesPrint(c, salt, idKey(plaintext, salt, c, keyLength));
  }

  /** The decoder takes any cost that fits its fields, so a well-formed stored hash can name one that
      argon2id cannot run with: an admissible password then panics, exactly without passes, lanes or
      key bytes. */
  lemma {:induction false} PanicsExactlyOnEmptyCost(idKey: IdKey, c: Cost, salt: seq<Byte>, key: seq<Byte>, attempt: string)
    requires c.Fits()
    ensures DecodePhc(PhcString(c, salt, key)).Some?
    ensures Verify(idKey, PhcString(c, salt, key), attempt) == Err(Panics) <==>
            PlaintextOk(attempt) && (c.iterations == 0 || c.parallelism == 0 || key == [])
  {
    DecodeUndoesPrint(c, salt, key);
  }

  /** The PHC string, literally. */
  lemma {:induction false} PhcLayout(c: Cost, salt: seq<Byte>, key: seq<Byte>)
    ensures PhcString(c, salt, key) == "$argon2id$v=19$" + CostText(c) + "$" + Encode(Std, salt) + "$" + Encode(Std, key)
    ensures CostText(c) == "m=" + Decimal(c.memory) + ",t=" + Decimal(c.iterations) + ",p=" + Decimal(c.parallelism)
  {
    NineteenIsSpelled();
    JoinOfSix("", "argon2id", "v=19", CostText(c), Encode(Std, salt), Encode(Std, key));
    assert "" + "$" + "argon2id" + "$" + "v=19" + "$" == "$argon2id$v=19$";
  }

  lemma NineteenIsSpelled()
    ensures "v=" + Decimal(ARGON2_VERSION) == "v=19"
  {
    assert Decimal(1) == "1";
    assert Decimal(19) == Decimal(1) + "9";
  }

  lemma {:induction false} JoinOfSix(a: string, b: string, c: string, d: string, e: string, f: string)
    ensures JoinWith([a, b, c, d, e, f], '$') == a + "$" + b + "$" + c + "$" + d + "$" + e + "$" + f
  {
    assert [e, f][1..] == [f] && [d, e, f][1..] == [e, f] && [c, d, e, f][1..] == [d, e, f];
    assert [b, c, d, e, f][1..] == [c, d, e, f] && [a, b, c, d, e, f][1..] == [b, c, d, e, f];
    assert JoinWith([e, f], '$') == e + "$" + f;
    assert JoinWith([d, e, f], '$') == d + "$" + e + "$" + f;
    assert JoinWith([c, d, e, f], '$') == c + "$" + d + "$" + e + "$" + f;
    assert JoinWith([b, c, d, e, f], '$') == b + "$" + c + "$" + d + "$" + e + "$" + f;
  }

  /** A text of another shape is refused: not six fields, or another algorithm's name. */
  lemma {:induction false} OtherFormatsAreRefused(encoded: string)
    requires |SplitOn(encoded, '$')| != 6 || SplitOn(encoded, '$')[1] != "argon2id"
    ensures DecodePhc(encoded) == None
  {
  }

  /** So is another version, however it is spelled. */
  lemma {:induction false} OtherVersionsAreRefused(fields: seq<string>, version: nat)
    requires |fields| == 6 && (forall i :: 0 <= i < 6 ==> '$' !in fields[i])
    requires fields[2] == "v=" + Decimal(version) && version != ARGON2_VERSION
    ensures DecodePhc(JoinWith(fields, '$')) == None
  {
    SplitUndoesJoin(fields, '$');
    var d := Decimal(version);
    assert ("v=" + d)[2..] == d;
    assert IsDigit(d[0]);
    assert TrimLeft(d, IsBlank) == d;
    DigitRunOf(d, "");
    assert d + "" == d && d[..|d|] == d;
    ValueOfDecimal(version);
  }

  /** And a salt or key that is not base64. */
  lemma {:induction false} OtherBytesAreRefused(encoded: string)
    requires var fields := SplitOn(encoded, '$');
             |fields| == 6 && (DecodeString(Std, false, fields[4]).None? || DecodeString(Std, false, fields[5]).None?)
    ensures DecodePhc(encoded) == None
  {
  }

  /** Hashing refuses an empty or over-long password, then a parameter that is zero; nothing else. */
  lemma {:induction false} HashRefusals(idKey: IdKey, plaintext: string, c: Cost, salt: seq<Byte>, keyLength: nat)
    ensures var r := HashPassword(idKey, plaintext, c, salt, keyLength);
            && (r == Err(InvalidPassword) <==> plaintext == "" || |plaintext| > 1024)
            && (r.Ok? <==>
                  && 1 <= |plaintext| <= 1024
                  && c.memory >= 1 && c.iterations >= 1 && c.parallelism >= 1 && |salt| >= 1 && keyLength >= 1)
            && (r.Ok? ==> r.value == PhcString(c, salt, idKey(plaintext, salt, c, keyLength)))
  {
  }

  /** Verification refuses such a password before it looks at the hash, and then a text that does not
      decode. */
  lemma {:induction false} VerifyRefusals(idKey: IdKey, encoded: string, plaintext: string)
    ensures Verify(idKey, encoded, plaintext) == Err(InvalidPassword) <==> plaintext == "" || |plaintext| > 1024
    ensures Verify(idKey, encoded, plaintext) == Err(InvalidHash) <==> 1 <= |plaintext| <= 1024 && DecodePhc(encoded) == None
  {
  }

  lemma {:induction false} ScanOfLargeField(lit: string, n: nat, limit: nat, rest: string)
    requires n >= limit && (rest != "" ==> !IsDigit(rest[0]))
    ensures ScanField(lit, limit, lit + (Decimal(n) + rest)) == None
  {
    var s := lit + (Decimal(n) + rest);
    assert s[|lit|..] == Decimal(n) + rest;
    ScanOfLargeDecimal(n, limit, rest);
  }

  lemma {:induction false} ScanOfLargeDecimal(n: nat, limit: nat, rest: string)
    requires n >= limit && (rest != "" ==> !IsDigit(rest[0]))
    ensures ScanUint(Decimal(n) + rest, limit) == None
  {
    var d := Decimal(n);
    var s := d + rest;
    assert IsDigit(s[0]) by { assert s[0] == d[0]; }
    assert TrimLeft(s, IsBlank) == s;
    DigitRunOf(d, rest);
    assert s[..|d|] == d;
    ValueOfDecimal(n);
  }

  /** A cost decodes exactly when it fits the fields it is read into. */
  lemma {:induction false} DecodesIffFits(c: Cost, salt: seq<Byte>, key: seq<Byte>)
    ensures DecodePhc(PhcString(c, salt, key)) == if c.Fits() then Some(Decoded(c, salt, key)) else None
  {
    if c.Fits() {
      DecodeUndoesPrint(c, salt, key);
    } else {
      PartsLackDollar(c, salt, key);
      SplitUndoesJoin(Parts(c, salt, key), '$');
      LargeCostIsRefused(c);
    }
  }

  lemma {:induction false} LargeCostIsRefused(c: Cost)
    requires !c.Fits()
    ensures ScanCost(CostText(c)) == None
  {
    var s2 := ",p=" + (Decimal(c.parallelism) + "");
    var s1 := ",t=" + (Decimal(c.iterations) + s2);
    assert Decimal(c.parallelism) + "" == Decimal(c.parallelism);
    if c.memory >= 0x1_0000_0000 {
      ScanOfLargeField("m=", c.memory, 0x1_0000_0000, s1);
    } else {
      ScanOfField("m=", c.memory, 0x1_0000_0000, s1);
      if c.iterations >= 0x1_0000_0000 {
        ScanOfLargeField(",t=", c.iterations, 0x1_0000_0000, s2);
      } else {
        ScanOfField(",t=", c.iterations, 0x1_0000_0000, s2);
        ScanOfLargeField(",p=", c.parallelism, 256, "");
      }
    }
  }

  /** A number may stand behind blanks, but not behind a newline. */
  lemma {:induction false} BlanksBeforeNumbers(a: string, n: nat, limit: nat, rest: string)
    requires (forall i :: 0 <= i < |a| ==> a[i] in [' ', '\t', '\r']) && (rest != "" ==> !IsDigit(rest[0]))
    ensures ScanUint(a + (Decimal(n) + rest), limit) == if n < limit then Some((n, rest)) else None
    ensures ScanUint(a + ("\n" + rest), limit) == None
  {
    var s := Decimal(n) + rest;
    assert IsDigit(s[0]) by { assert s[0] == Decimal(n)[0]; }
    TrimLeftOfPadded(a, s, IsBlank);
    TrimLeftOfPadded("", s, IsBlank);
    assert "" + s == s;
    TrimLeftOfPadded(a, "\n" + rest, IsBlank);
    if n < limit {
      ScanOfDecimal(n, limit, rest);
    } else {
      ScanOfLargeDecimal(n, limit, rest);
    }
  }
}
