// Tokens whose two documents go through the JSON walker: what an accepted token
// is, from its text down to the members of its header and claims.

module StrictToken {
  import opened Common
  import opened Base64
  import opened CompactJws
  import opened JsonWalk

  /** A document checkJSONObject accepts, given what UTF-8 validation and the lexer make of it. */
  ghost predicate StrictDocument(utf8Valid: seq<Byte> -> bool, lexemes: seq<Byte> -> seq<Lexeme>, document: seq<Byte>) {
    utf8Valid(document) && StrictObject(lexemes(document))
  }

  /** An accepted token serializes two strict documents and a signature, and its signing input is
      exactly the encoding of those documents; whatever else encoding/json makes of the header, it
      was handed an unambiguous object. */
  lemma {:induction false} AcceptedTokensCarryStrictDocuments<H>(
      raw: string, utf8Valid: seq<Byte> -> bool, lexemes: seq<Byte> -> seq<Lexeme>, parseHeader: seq<Byte> -> Option<H>, j: Jws<H>)
    requires forall b :: parseHeader(b).Some? ==> utf8Valid(b) && Accepts(lexemes(b))
    requires Parsed(raw, parseHeader, b => utf8Valid(b) && Accepts(lexemes(b))) == Ok(j)
    ensures exists header: seq<Byte> ::
              && raw == Serialize(header, j.payload, j.signature)
              && j.signingInput == Encode(Url, header) + "." + Encode(Url, j.payload)
              && StrictDocument(utf8Valid, lexemes, header) && StrictDocument(utf8Valid, lexemes, j.payload)
  {
    var claimsOk := b => utf8Valid(b) && Accepts(lexemes(b));
    AcceptsExactlySerializations(raw, parseHeader, claimsOk, j);
    var header: seq<Byte> :|
      && raw == Serialize(header, j.payload, j.signature)
      && parseHeader(header) == Some(j.header) && claimsOk(j.payload)
      && j.signingInput == Encode(Url, header) + "." + Encode(Url, j.payload);
    AcceptsExactlyStrictObjects(lexemes(header));
    AcceptsExactlyStrictObjects(lexemes(j.payload));
  }
}
