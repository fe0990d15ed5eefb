// Strict parsing of the compact JWS serialization (oidc/jws.go, parseCompact and
// decodeSegment).  The JSON checks on the two decoded documents are parameters.

module CompactJws {
  import opened Common
  import opened Text
  import opened Base64

  const MAX_TOKEN_BYTES: nat := 16_384

  predicate IsBase64UrlChar(c: char) {
    'A' <= c <= 'Z' || 'a' <= c <= 'z' || '0' <= c <= '9' || c == '-' || c == '_'
  }

  datatype SegmentError = Empty | NonCanonical

  function SegmentBytes(s: string): Result<seq<Byte>, SegmentError> {
    if s == "" then Err(Empty)
    else if !(forall i :: 0 <= i < |s| ==> IsBase64UrlChar(s[i])) then Err(NonCanonical)
    else match DecodeString(Url, true, s)
      case Some(b) => Ok(b)
      case None => Err(NonCanonical)
  }

  /** decodeSegment: the alphabet scan, then the strict decoder. */
  method DecodeSegment(s: string) returns (r: Result<seq<Byte>, SegmentError>)
    ensures r == SegmentBytes(s)
  {
    if s == "" {
      return Err(Empty);
    }
    for i := 0 to |s|
      invariant forall k :: 0 <= k < i ==> IsBase64UrlChar(s[k])
    {
      if !IsBase64UrlChar(s[i]) {
        return Err(NonCanonical);
      }
    }
    var b := DecodeString(Url, true, s);
    if b.None? {
      return Err(NonCanonical);
    }
    return Ok(b.value);
  }

  /** A segment is accepted exactly when it is the encoding of a non-empty byte string,
      and then that byte string is the result. */
  lemma {:induction false} SegmentsAreCanonical(s: string, b: seq<Byte>)
    ensures SegmentBytes(s) == Ok(b) <==> b != [] && s == Encode(Url, b)
  {
    if SegmentBytes(s) == Ok(b) {
      assert WithoutLineBreaks(s) == s;
      EncodeUndoesStrictDecode(Url, s);
    }
    if b != [] && s == Encode(Url, b) {
      EncodeStaysInAlphabet(Url, b);
      forall i | 0 <= i < |s|
        ensures IsBase64UrlChar(s[i]) && s[i] != '\r' && s[i] != '\n'
      {
        assert SextetOf(Url, s[i]).Some?;
      }
      assert WithoutLineBreaks(s) == s;
      DecodeUndoesEncode(Url, true, b);
    }
  }

  /** A line break put anywhere into an accepted segment leaves the strict decoder's answer as it
      was; only the alphabet scan refuses it. */
  lemma {:induction false} LineBreaksNeedTheScan(s: string, c: char, t: string)
    requires SegmentBytes(s + t).Ok? && (c == '\n' || c == '\r')
    ensures DecodeString(Url, true, s + [c] + t) == Some(SegmentBytes(s + t).value)
    ensures SegmentBytes(s + [c] + t) == Err(NonCanonical)
  {
    AcceptedIsDecoded(s + t);
    LineBreakIsSkipped(s, c, t);
    assert (s + [c] + t)[|s|] == c;
    BadLetterIsRefused(s + [c] + t, |s|);
  }

  lemma AcceptedIsDecoded(s: string)
    requires SegmentBytes(s).Ok?
    ensures DecodeString(Url, true, s) == Some(SegmentBytes(s).value)
  {
  }

  lemma BadLetterIsRefused(s: string, k: nat)
    requires k < |s| && !IsBase64UrlChar(s[k])
    ensures SegmentBytes(s) == Err(NonCanonical)
  {
  }

  lemma {:induction false} LineBreakIsSkipped(s: string, c: char, t: string)
    requires c == '\n' || c == '\r'
    ensures DecodeString(Url, true, s + [c] + t) == DecodeString(Url, true, s + t)
  {
    LineBreakIsDropped(s, c, t);
  }

  lemma {:induction false} LineBreakIsDropped(s: string, c: char, t: string)
    requires c == '\n' || c == '\r'
    ensures WithoutLineBreaks(s + [c] + t) == WithoutLineBreaks(s + t)
  {
    if s == "" {
      assert ([c] + t)[1..] == t && "" + [c] + t == [c] + t && "" + t == t;
    } else {
      assert (s + [c] + t)[1..] == s[1..] + [c] + t && (s + t)[1..] == s[1..] + t;
      LineBreakIsDropped(s[1..], c, t);
    }
  }

  datatype Jws<H> = Jws(header: H, signingInput: string, payload: seq<Byte>, signature: seq<Byte>)

  datatype ParseError =
    | TooLong
    | SegmentCount(n: nat)
    | BadSegment(index: nat, error: SegmentError)
    | BadHeader
    | BadClaims

  /** parseCompact, given what the header parser and the claims check say of the decoded bytes. */
  method ParseCompact<H>(raw: string, parseHeader: seq<Byte> -> Option<H>, claimsOk: seq<Byte> -> bool)
    returns (r: Result<Jws<H>, ParseError>)
    ensures r == Parsed(raw, parseHeader, claimsOk)
  {
    if |raw| > MAX_TOKEN_BYTES {
      return Err(TooLong);
    }
    var parts := SplitOn(raw, '.');
    if |parts| != 3 {
      return Err(SegmentCount(|parts|));
    }
    var segs: seq<seq<Byte>> := [];
    for i := 0 to 3
      invariant |segs| == i
      invariant forall k :: 0 <= k < i ==> SegmentBytes(parts[k]) == Ok(segs[k])
    {
      var seg := DecodeSegment(parts[i]);
      if seg.Err? {
        return Err(BadSegment(i, seg.error));
      }
      segs := segs + [seg.value];
    }
    var h := parseHeader(segs[0]);
    if h.None? {
      return Err(BadHeader);
    }
    if !claimsOk(segs[1]) {
      return Err(BadClaims);
    }
    return Ok(Jws(h.value, parts[0] + "." + parts[1], segs[1], segs[2]));
  }

  function Parsed<H>(raw: string, parseHeader: seq<Byte> -> Option<H>, claimsOk: seq<Byte> -> bool)
    : (r: Result<Jws<H>, ParseError>)
    ensures r.Ok? ==>
              var parts := SplitOn(raw, '.');
              |parts| == 3 && SegmentBytes(parts[0]).Ok? && SegmentBytes(parts[1]).Ok? && SegmentBytes(parts[2]).Ok?
  {
    if |raw| > MAX_TOKEN_BYTES then Err(TooLong)
    else
      var parts := SplitOn(raw, '.');
      if |parts| != 3 then Err(SegmentCount(|parts|))
      else Assembled(parts[0] + "." + parts[1], SegmentBytes(parts[0]), SegmentBytes(parts[1]), SegmentBytes(parts[2]),
                     parseHeader, claimsOk)
  }

  /** The first bad segment is reported, then the header, then the claims. */
  function Assembled<H>(
      signingInput: string, header: Result<seq<Byte>, SegmentError>, payload: Result<seq<Byte>, SegmentError>,
      signature: Result<seq<Byte>, SegmentError>, parseHeader: seq<Byte> -> Option<H>, claimsOk: seq<Byte> -> bool)
    : (r: Result<Jws<H>, ParseError>)
    ensures r.Ok? ==> header.Ok? && payload.Ok? && signature.Ok?
  {
    match (header, payload, signature)
    case (Err(e), _, _) => Err(BadSegment(0, e))
    case (_, Err(e), _) => Err(BadSegment(1, e))
    case (_, _, Err(e)) => Err(BadSegment(2, e))
    case (Ok(h), Ok(p), Ok(s)) =>
      if parseHeader(h).None? then Err(BadHeader)
      else if !claimsOk(p) then Err(BadClaims)
      else Ok(Jws(parseHeader(h).value, signingInput, p, s))
  }

  /** The compact serialization of three byte strings. */
  function Serialize(header: seq<Byte>, payload: seq<Byte>, signature: seq<Byte>): string {
    Encode(Url, header) + "." + Encode(Url, payload) + "." + Encode(Url, signature)
  }

  /** Exactly the serializations of three non-empty byte strings whose documents pass their checks
      are accepted, and what comes back is what was serialized. */
  lemma {:induction false} AcceptsExactlySerializations<H>(
      raw: string, parseHeader: seq<Byte> -> Option<H>, claimsOk: seq<Byte> -> bool, j: Jws<H>)
    ensures Parsed(raw, parseHeader, claimsOk) == Ok(j) <==>
            exists header: seq<Byte> ::
              && |raw| <= MAX_TOKEN_BYTES
              && header != [] && j.payload != [] && j.signature != []
              && raw == Serialize(header, j.payload, j.signature)
              && parseHeader(header) == Some(j.header) && claimsOk(j.payload)
              && j.signingInput == Encode(Url, header) + "." + Encode(Url, j.payload)
  {
    if Parsed(raw, parseHeader, claimsOk) == Ok(j) {
      var header := ParsedIsSerialized(raw, parseHeader, claimsOk, j);
    }
    forall header: seq<Byte> |
      && |raw| <= MAX_TOKEN_BYTES
      && header != [] && j.payload != [] && j.signature != []
      && raw == Serialize(header, j.payload, j.signature)
      && parseHeader(header) == Some(j.header) && claimsOk(j.payload)
      && j.signingInput == Encode(Url, header) + "." + Encode(Url, j.payload)
      ensures Parsed(raw, parseHeader, claimsOk) == Ok(j)
    {
      SerializedIsParsed(header, parseHeader, claimsOk, j);
    }
  }

  lemma {:induction false} ParsedIsSerialized<H>(
      raw: string, parseHeader: seq<Byte> -> Option<H>, claimsOk: seq<Byte> -> bool, j: Jws<H>) returns (header: seq<Byte>)
    requires Parsed(raw, parseHeader, claimsOk) == Ok(j)
    ensures |raw| <= MAX_TOKEN_BYTES && header != [] && j.payload != [] && j.signature != []
    ensures raw == Serialize(header, j.payload, j.signature)
    ensures parseHeader(header) == Some(j.header) && claimsOk(j.payload)
    ensures j.signingInput == Encode(Url, header) + "." + Encode(Url, j.payload)
  {
    var parts := SplitOn(raw, '.');
    header := SegmentBytes(parts[0]).value;
    SegmentsAreCanonical(parts[0], header);
    SegmentsAreCanonical(parts[1], j.payload);
    SegmentsAreCanonical(parts[2], j.signature);
    JoinOfThree(parts, '.');
    JoinUndoesSplit(raw, '.');
  }

  lemma {:induction false} SerializedIsParsed<H>(
      header: seq<Byte>, parseHeader: seq<Byte> -> Option<H>, claimsOk: seq<Byte> -> bool, j: Jws<H>)
    requires header != [] && j.payload != [] && j.signature != []
    requires |Serialize(header, j.payload, j.signature)| <= MAX_TOKEN_BYTES
    requires parseHeader(header) == Some(j.header) && claimsOk(j.payload)
    requires j.signingInput == Encode(Url, header) + "." + Encode(Url, j.payload)
    ensures Parsed(Serialize(header, j.payload, j.signature), parseHeader, claimsOk) == Ok(j)
  {
    SplitOfSerialization(header, j.payload, j.signature);
    SegmentsAreCanonical(Encode(Url, header), header);
    SegmentsAreCanonical(Encode(Url, j.payload), j.payload);
    SegmentsAreCanonical(Encode(Url, j.signature), j.signature);
  }

  /** Segment s is the encoding of a non-empty byte string. */
  ghost predicate IsSegment(s: string) {
    exists b: seq<Byte> :: b != [] && s == Encode(Url, b)
  }

  lemma {:induction false} SegmentOkIff(s: string)
    ensures SegmentBytes(s).Ok? <==> IsSegment(s)
    ensures SegmentBytes(s) == Err(Empty) <==> s == ""
  {
    if SegmentBytes(s).Ok? {
      SegmentsAreCanonical(s, SegmentBytes(s).value);
    }
    forall b: seq<Byte> | b != [] && s == Encode(Url, b)
      ensures SegmentBytes(s).Ok?
    {
      SegmentsAreCanonical(s, b);
    }
  }

  /** A token is too long or has the wrong number of segments before anything else is wrong with it. */
  lemma {:induction false} ShapeRefusalsAreTold<H>(raw: string, parseHeader: seq<Byte> -> Option<H>, claimsOk: seq<Byte> -> bool, n: nat)
    ensures var r := Parsed(raw, parseHeader, claimsOk);
            && (r == Err(TooLong) <==> |raw| > MAX_TOKEN_BYTES)
            && (r == Err(SegmentCount(n)) <==> |raw| <= MAX_TOKEN_BYTES && n == |SplitOn(raw, '.')| != 3)
  {
  }

  /** Then the first segment that is empty, or no encoding of bytes, is named. */
  lemma {:induction false} SegmentRefusalsAreTold<H>(
      raw: string, parseHeader: seq<Byte> -> Option<H>, claimsOk: seq<Byte> -> bool, i: nat, e: SegmentError)
    ensures Parsed(raw, parseHeader, claimsOk) == Err(BadSegment(i, e)) <==>
            var parts := SplitOn(raw, '.');
            && |raw| <= MAX_TOKEN_BYTES && |parts| == 3 && i < 3
            && (i > 0 ==> IsSegment(parts[0])) && (i > 1 ==> IsSegment(parts[1])) && !IsSegment(parts[i])
            && e == if parts[i] == "" then Empty else NonCanonical
  {
    var parts := SplitOn(raw, '.');
    if |parts| == 3 {
      SegmentOkIff(parts[0]);
      SegmentOkIff(parts[1]);
      SegmentOkIff(parts[2]);
      FirstBadSegment(parts[0] + "." + parts[1], SegmentBytes(parts[0]), SegmentBytes(parts[1]), SegmentBytes(parts[2]),
                      parseHeader, claimsOk, i, e);
    }
  }

  lemma FirstBadSegment<H>(
      signingInput: string, r0: Result<seq<Byte>, SegmentError>, r1: Result<seq<Byte>, SegmentError>,
      r2: Result<seq<Byte>, SegmentError>, parseHeader: seq<Byte> -> Option<H>, claimsOk: seq<Byte> -> bool,
      i: nat, e: SegmentError)
    ensures Assembled(signingInput, r0, r1, r2, parseHeader, claimsOk) == Err(BadSegment(i, e)) <==>
            || (i == 0 && r0 == Err(e))
            || (i == 1 && r0.Ok? && r1 == Err(e))
            || (i == 2 && r0.Ok? && r1.Ok? && r2 == Err(e))
  {
  }

  /** Three good segments leave the header and then the claims to refuse. */
  lemma {:induction false} DocumentRefusalsAreTold<H>(
      header: seq<Byte>, payload: seq<Byte>, signature: seq<Byte>, parseHeader: seq<Byte> -> Option<H>, claimsOk: seq<Byte> -> bool)
    requires header != [] && payload != [] && signature != []
    requires |Serialize(header, payload, signature)| <= MAX_TOKEN_BYTES
    ensures var r := Parsed(Serialize(header, payload, signature), parseHeader, claimsOk);
            && (r == Err(BadHeader) <==> parseHeader(header).None?)
            && (r == Err(BadClaims) <==> parseHeader(header).Some? && !claimsOk(payload))
  {
    SplitOfSerialization(header, payload, signature);
    SegmentsAreCanonical(Encode(Url, header), header);
    SegmentsAreCanonical(Encode(Url, payload), payload);
    SegmentsAreCanonical(Encode(Url, signature), signature);
  }

  lemma JoinOfThree(parts: seq<string>, sep: char)
    requires |parts| == 3
    ensures JoinWith(parts, sep) == parts[0] + [sep] + parts[1] + [sep] + parts[2]
  {
    assert parts[1..][1..] == [parts[2]];
    assert JoinWith(parts[1..], sep) == parts[1] + [sep] + parts[2];
  }

  lemma {:induction false} EncodingHasNoDot(b: seq<Byte>)
    ensures '.' !in Encode(Url, b)
  {
    EncodeStaysInAlphabet(Url, b);
    var s := Encode(Url, b);
    forall i | 0 <= i < |s|
      ensures s[i] != '.'
    {
      assert SextetOf(Url, s[i]).Some?;
    }
  }

  lemma {:induction false} SplitOfSerialization(header: seq<Byte>, payload: seq<Byte>, signature: seq<Byte>)
    ensures SplitOn(Serialize(header, payload, signature), '.') ==
            [Encode(Url, header), Encode(Url, payload), Encode(Url, signature)]
  {
    var parts := [Encode(Url, header), Encode(Url, payload), Encode(Url, signature)];
    EncodingHasNoDot(header);
    EncodingHasNoDot(payload);
    EncodingHasNoDot(signature);
    JoinOfThree(parts, '.');
    SplitUndoesJoin(parts, '.');
  }

  /** An accepted token is its signing input, a dot and the encoding of its signature, so nothing
      but the signed text and the signature can vary. */
  lemma {:induction false} TokenIsSigningInputAndSignature<H>(
      raw: string, parseHeader: seq<Byte> -> Option<H>, claimsOk: seq<Byte> -> bool, j: Jws<H>)
    requires Parsed(raw, parseHeader, claimsOk) == Ok(j)
    ensures raw == j.signingInput + "." + Encode(Url, j.signature)
  {
    AcceptsExactlySerializations(raw, parseHeader, claimsOk, j);
  }

  /** Two accepted tokens whose three segments decode alike are the same token. */
  lemma {:induction false} DecodedSegmentsDetermineToken<H>(
      raw1: string, raw2: string, parseHeader: seq<Byte> -> Option<H>, claimsOk: seq<Byte> -> bool)
    requires Parsed(raw1, parseHeader, claimsOk).Ok? && Parsed(raw2, parseHeader, claimsOk).Ok?
    requires DecodedSegments(raw1) == DecodedSegments(raw2)
    ensures raw1 == raw2
  {
    AcceptedSegmentsDecode(raw1, parseHeader, claimsOk);
    SegmentsDetermineText(raw1, raw2);
  }

  function DecodedSegments(raw: string): seq<Result<seq<Byte>, SegmentError>> {
    var parts := SplitOn(raw, '.');
    seq(|parts|, i requires 0 <= i < |parts| => SegmentBytes(parts[i]))
  }

  lemma AcceptedSegmentsDecode<H>(raw: string, parseHeader: seq<Byte> -> Option<H>, claimsOk: seq<Byte> -> bool)
    requires Parsed(raw, parseHeader, claimsOk).Ok?
    ensures |SplitOn(raw, '.')| == 3
    ensures forall i :: 0 <= i < 3 ==> SegmentBytes(SplitOn(raw, '.')[i]).Ok?
  {
  }

  lemma {:induction false} SegmentsDetermineText(raw1: string, raw2: string)
    requires forall i :: 0 <= i < |SplitOn(raw1, '.')| ==> SegmentBytes(SplitOn(raw1, '.')[i]).Ok?
    requires DecodedSegments(raw1) == DecodedSegments(raw2)
    ensures raw1 == raw2
  {
    var p1, p2 := SplitOn(raw1, '.'), SplitOn(raw2, '.');
    assert |p1| == |DecodedSegments(raw1)| == |p2|;
    forall i | 0 <= i < |p1|
      ensures p1[i] == p2[i]
    {
      assert SegmentBytes(p1[i]) == DecodedSegments(raw1)[i] == DecodedSegments(raw2)[i];
      SameSegment(p1[i], p2[i]);
    }
    assert p1 == p2;
    JoinUndoesSplit(raw1, '.');
    JoinUndoesSplit(raw2, '.');
  }

  lemma {:induction false} SameSegment(s1: string, s2: string)
    requires SegmentBytes(s1).Ok? && SegmentBytes(s1) == SegmentBytes(s2)
    ensures s1 == s2
  {
    SegmentsAreCanonical(s1, SegmentBytes(s1).value);
    SegmentsAreCanonical(s2, SegmentBytes(s1).value);
  }
}
