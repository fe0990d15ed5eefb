// The duplicate-refusing JSON walker (oidc/jws.go, checkJSONObject, walkObject and
// walkValue) over the token decoder of encoding/json, from the level of lexemes up.
// The result: the walker accepts exactly the printed forms of objects without
// repeated member names whose containers nest at most 32 deep.

module JsonWalk {
  import opened Common

  const MAX_JSON_DEPTH: nat := 32

  /** Garbage stands for text that is no lexeme. */
  datatype Lexeme =
    | LBrace | RBrace | LBracket | RBracket | Comma | Colon
    | Str(text: string) | Scalar(text: string) | Garbage

  // ----- The decoder of encoding/json

  datatype TokenState =
    | TopValue
    | ArrayStart | ArrayValue | ArrayComma
    | ObjectStart | ObjectKey | ObjectColon | ObjectValue | ObjectComma

  datatype Dec = Dec(rest: seq<Lexeme>, state: TokenState, stack: seq<TokenState>)

  datatype Token = OpenObject | CloseObject | OpenArray | CloseArray | Text(text: string) | Atom(text: string)

  datatype Read = Got(token: Token, dec: Dec) | EndOfInput | Broken

  predicate ValueAllowed(st: TokenState) {
    st.TopValue? || st.ArrayStart? || st.ArrayValue? || st.ObjectValue?
  }

  /** The state once a value has been read. */
  function ValueEnd(st: TokenState): TokenState {
    match st
    case ArrayStart => ArrayComma
    case ArrayValue => ArrayComma
    case ObjectValue => ObjectComma
    case _ => st
  }

  function Close(d: Dec, token: Token): Read
    requires d.rest != []
  {
    if d.stack == [] then Broken
    else Got(token, Dec(d.rest[1..], ValueEnd(Last(d.stack)), Front(d.stack)))
  }

  /** One separator skipped, where the decoder expects it. */
  function Skip(d: Dec): Option<Dec>
    requires d.rest != []
  {
    match (d.rest[0], d.state)
    case (Colon, ObjectColon) => Some(d.(rest := d.rest[1..], state := ObjectValue))
    case (Comma, ArrayComma) => Some(d.(rest := d.rest[1..], state := ArrayValue))
    case (Comma, ObjectComma) => Some(d.(rest := d.rest[1..], state := ObjectKey))
    case _ => None
  }

  /** The token at the next lexeme; a separator here is out of place. */
  function Here(d: Dec): (r: Read)
    requires d.rest != []
    ensures r.Got? ==> r.dec.rest == d.rest[1..]
    ensures !r.EndOfInput?
  {
    var tail := d.rest[1..];
    match d.rest[0]
    case LBracket =>
      if ValueAllowed(d.state) then Got(OpenArray, Dec(tail, ArrayStart, d.stack + [d.state])) else Broken
    case LBrace =>
      if ValueAllowed(d.state) then Got(OpenObject, Dec(tail, ObjectStart, d.stack + [d.state])) else Broken
    case RBracket =>
      if d.state.ArrayStart? || d.state.ArrayComma? then Close(d, CloseArray) else Broken
    case RBrace =>
      if d.state.ObjectStart? || d.state.ObjectComma? then Close(d, CloseObject) else Broken
    case Str(s) =>
      if d.state.ObjectStart? || d.state.ObjectKey? then Got(Text(s), d.(rest := tail, state := ObjectColon))
      else if ValueAllowed(d.state) then Got(Text(s), d.(rest := tail, state := ValueEnd(d.state)))
      else Broken
    case Scalar(s) =>
      if ValueAllowed(d.state) then Got(Atom(s), d.(rest := tail, state := ValueEnd(d.state))) else Broken
    case _ => Broken
  }

  /** Decoder.Token: a separator is checked and skipped, never returned, and none follows another. */
  function NextToken(d: Dec): (r: Read)
    ensures r.Got? ==> |r.dec.rest| < |d.rest|
  {
    if d.rest == [] then EndOfInput
    else match Skip(d)
      case Some(d1) => if d1.rest == [] then EndOfInput else Here(d1)
      case None => Here(d)
  }

  /** Decoder.More. */
  predicate HasMore(d: Dec) {
    d.rest != [] && !d.rest[0].RBracket? && !d.rest[0].RBrace?
  }

  // ----- The walker

  function WalkObject(d: Dec, depth: nat, seen: set<string>): (r: Option<Dec>)
    ensures r.Some? ==> |r.value.rest| < |d.rest|
    decreases |d.rest|, 0
  {
    match NextToken(d)
    case Got(token, d1) =>
      if HasMore(d) then
        if !token.Text? || token.text in seen then None
        else
          match WalkValue(d1, depth)
          case Some(d2) => WalkObject(d2, depth, seen + {token.text})
          case None => None
      else Some(d1)
    case _ => None
  }

  function WalkValue(d: Dec, depth: nat): (r: Option<Dec>)
    ensures r.Some? ==> |r.value.rest| < |d.rest|
    decreases |d.rest|, 1
  {
    match NextToken(d)
    case Got(token, d1) => Descend(token, d1, depth)
    case _ => None
  }

  /** The rest of walkValue, once the value's first token has been read. */
  function Descend(token: Token, d: Dec, depth: nat): (r: Option<Dec>)
    ensures r.Some? ==> |r.value.rest| <= |d.rest|
    decreases |d.rest|, 3
  {
    if token.Text? || token.Atom? then Some(d)
    else if depth >= MAX_JSON_DEPTH then None
    else if token.OpenObject? then WalkObject(d, depth + 1, {})
    else WalkArray(d, depth + 1)
  }

  function WalkArray(d: Dec, depth: nat): (r: Option<Dec>)
    ensures r.Some? ==> |r.value.rest| < |d.rest|
    decreases |d.rest|, 2
  {
    if HasMore(d) then
      match WalkValue(d, depth)
      case Some(d1) => WalkArray(d1, depth)
      case None => None
    else
      match NextToken(d)
      case Got(_, d1) => Some(d1)
      case _ => None
  }

  lemma ValueStep(d: Dec, depth: nat)
    ensures WalkValue(d, depth) == if NextToken(d).Got? then Descend(NextToken(d).token, NextToken(d).dec, depth) else None
  {
  }

  lemma ArrayStep(d: Dec, depth: nat)
    requires HasMore(d)
    ensures WalkArray(d, depth) == if WalkValue(d, depth).Some? then WalkArray(WalkValue(d, depth).value, depth) else None
  {
  }

  lemma ArrayEnd(d: Dec, depth: nat)
    requires !HasMore(d)
    ensures WalkArray(d, depth) == if NextToken(d).Got? then Some(NextToken(d).dec) else None
  {
  }

  predicate Accepts(input: seq<Lexeme>) {
    var d := Dec(input, TopValue, []);
    match NextToken(d)
    case Got(OpenObject, d1) =>
      (match WalkObject(d1, 1, {})
       case Some(d2) => NextToken(d2).EndOfInput?
       case None => false)
    case _ => false
  }

  /** The decoder as the object the source drives. */
  class Decoder {
    const input: seq<Lexeme>
    var pos: nat
    var state: TokenState
    var stack: seq<TokenState>

    constructor (input: seq<Lexeme>)
      ensures Valid() && View() == Dec(input, TopValue, [])
    {
      this.input := input;
      pos, state, stack := 0, TopValue, [];
    }

    ghost predicate Valid()
      reads this
    {
      pos <= |input|
    }

    ghost function View(): Dec
      requires Valid()
      reads this
    {
      Dec(input[pos..], state, stack)
    }

    method More() returns (more: bool)
      requires Valid()
      ensures more == HasMore(View())
    {
      more := pos < |input| && !input[pos].RBracket? && !input[pos].RBrace?;
    }

    /** Decoder.Token: advances past one token, or stops at the lexeme that is out of place. */
    method ReadToken() returns (r: Option<Token>, ended: bool)
      requires Valid()
      modifies this
      ensures Valid()
      ensures match NextToken(old(View()))
              case Got(token, d) => r == Some(token) && View() == d && !ended
              case EndOfInput => r == None && ended
              case Broken => r == None && !ended
    {
      while pos < |input|
        invariant Valid()
        invariant View() == old(View()) || (old(pos) < |input| && Skip(old(View())) == Some(View()))
      {
        var skipped := SkipHere();
        if !skipped {
          r := ReadHere();
          return r, false;
        }
      }
      return None, true;
    }

    method SkipHere() returns (skipped: bool)
      requires Valid() && pos < |input|
      modifies this
      ensures Valid()
      ensures skipped ==> pos == old(pos) + 1 && Skip(old(View())) == Some(View())
      ensures !skipped ==> pos == old(pos) && View() == old(View()) && Skip(View()) == None
    {
      assert input[pos..][1..] == input[pos + 1..];
      if input[pos].Colon? && state.ObjectColon? {
        pos, state, skipped := pos + 1, ObjectValue, true;
      } else if input[pos].Comma? && state.ArrayComma? {
        pos, state, skipped := pos + 1, ArrayValue, true;
      } else if input[pos].Comma? && state.ObjectComma? {
        pos, state, skipped := pos + 1, ObjectKey, true;
      } else {
        skipped := false;
      }
    }

    method ReadHere() returns (r: Option<Token>)
      requires Valid() && pos < |input|
      modifies this
      ensures Valid()
      ensures match Here(old(View()))
              case Got(token, d) => r == Some(token) && View() == d
              case _ => r == None
    {
      assert input[pos..][1..] == input[pos + 1..];
      match input[pos]
      case LBracket =>
        if !ValueAllowed(state) {
          return None;
        }
        pos, stack, state := pos + 1, stack + [state], ArrayStart;
        return Some(OpenArray);
      case LBrace =>
        if !ValueAllowed(state) {
          return None;
        }
        pos, stack, state := pos + 1, stack + [state], ObjectStart;
        return Some(OpenObject);
      case RBracket =>
        if (!state.ArrayStart? && !state.ArrayComma?) || stack == [] {
          return None;
        }
        pos, state, stack := pos + 1, ValueEnd(Last(stack)), Front(stack);
        return Some(CloseArray);
      case RBrace =>
        if (!state.ObjectStart? && !state.ObjectComma?) || stack == [] {
          return None;
        }
        pos, state, stack := pos + 1, ValueEnd(Last(stack)), Front(stack);
        return Some(CloseObject);
      case Str(s) =>
        if state.ObjectStart? || state.ObjectKey? {
          pos, state := pos + 1, ObjectColon;
          return Some(Text(s));
        }
        if !ValueAllowed(state) {
          return None;
        }
        pos, state := pos + 1, ValueEnd(state);
        return Some(Text(s));
      case Scalar(s) =>
        if !ValueAllowed(state) {
          return None;
        }
        pos, state := pos + 1, ValueEnd(state);
        return Some(Atom(s));
      case _ =>
        return None;
    }
  }

  /** walkObject, positioned after the opening brace. */
  method WalkObjectIn(dec: Decoder, depth: nat) returns (ok: bool)
    requires dec.Valid()
    modifies dec
    ensures dec.Valid()
    ensures ok == WalkObject(old(dec.View()), depth, {}).Some?
    ensures ok ==> dec.View() == WalkObject(old(dec.View()), depth, {}).value
    decreases |dec.input| - dec.pos, 0
  {
    var seen: set<string> := {};
    var more := dec.More();
    while more
      invariant dec.Valid() && old(dec.pos) <= dec.pos
      invariant more == HasMore(dec.View())
      invariant WalkObject(old(dec.View()), depth, {}) == WalkObject(dec.View(), depth, seen)
      decreases |dec.input| - dec.pos
    {
      var token, _ := dec.ReadToken();
      if token.None? || !token.value.Text? || token.value.text in seen {
        return false;
      }
      seen := seen + {token.value.text};
      var valueOk := WalkValueIn(dec, depth);
      if !valueOk {
        return false;
      }
      more := dec.More();
    }
    var token, _ := dec.ReadToken();
    return token.Some?;
  }

  /** walkValue. */
  method WalkValueIn(dec: Decoder, depth: nat) returns (ok: bool)
    requires dec.Valid()
    modifies dec
    ensures dec.Valid()
    ensures ok == WalkValue(old(dec.View()), depth).Some?
    ensures ok ==> dec.View() == WalkValue(old(dec.View()), depth).value
    decreases |dec.input| - dec.pos, 1
  {
    var token, _ := dec.ReadToken();
    if token.None? {
      return false;
    }
    if token.value.Text? || token.value.Atom? {
      return true;
    }
    if depth >= MAX_JSON_DEPTH {
      return false;
    }
    if token.value.OpenObject? {
      ok := WalkObjectIn(dec, depth + 1);
      return;
    }
    ok := WalkArrayIn(dec, depth + 1);
  }

  /** walkValue's loop over the items of an array, positioned after the opening bracket. */
  method WalkArrayIn(dec: Decoder, depth: nat) returns (ok: bool)
    requires dec.Valid()
    modifies dec
    ensures dec.Valid()
    ensures ok == WalkArray(old(dec.View()), depth).Some?
    ensures ok ==> dec.View() == WalkArray(old(dec.View()), depth).value
    decreases |dec.input| - dec.pos, 2
  {
    var more := dec.More();
    while more
      invariant dec.Valid() && old(dec.pos) <= dec.pos
      invariant more == HasMore(dec.View())
      invariant WalkArray(old(dec.View()), depth) == WalkArray(dec.View(), depth)
      decreases |dec.input| - dec.pos
    {
      var valueOk := WalkValueIn(dec, depth);
      if !valueOk {
        return false;
      }
      more := dec.More();
    }
    var closing, _ := dec.ReadToken();
    return closing.Some?;
  }

  /** checkJSONObject, given what UTF-8 validation and the JSON lexer make of the document: accepted
      are exactly the valid texts of one object without repeated member names at any depth, with
      containers nested at most 32 deep. */
  method CheckJsonObject<D>(document: D, utf8Valid: D -> bool, lexemes: D -> seq<Lexeme>) returns (ok: bool)
    ensures ok <==> utf8Valid(document) && StrictObject(lexemes(document))
  {
    AcceptsExactlyStrictObjects(lexemes(document));
    if !utf8Valid(document) {
      return false;
    }
    var dec := new Decoder(lexemes(document));
    var token, _ := dec.ReadToken();
    if token != Some(OpenObject) {
      return false;
    }
    var objectOk := WalkObjectIn(dec, 1);
    if !objectOk {
      return false;
    }
    var _, ended := dec.ReadToken();
    return ended;
  }

  // ----- JSON values and how they are printed

  datatype Json = Leaf(text: string) | JStr(text: string) | Arr(items: Items) | Obj(members: Members)

  datatype Items = NoItems | Item(head: Json, tail: Items)

  datatype Members = NoMembers | Member(name: string, value: Json, tail: Members)

  function Print(v: Json): seq<Lexeme> {
    match v
    case Leaf(t) => [Scalar(t)]
    case JStr(t) => [Str(t)]
    case Arr(items) => [LBracket] + PrintItems(items) + [RBracket]
    case Obj(members) => [LBrace] + PrintMembers(members) + [RBrace]
  }

  function PrintItems(items: Items): seq<Lexeme> {
    match items
    case NoItems => []
    case Item(v, tail) => Print(v) + PrintMoreItems(tail)
  }

  /** Items after the first, each behind its comma. */
  function PrintMoreItems(items: Items): seq<Lexeme> {
    match items
    case NoItems => []
    case Item(v, tail) => [Comma] + Print(v) + PrintMoreItems(tail)
  }

  function PrintMembers(ms: Members): seq<Lexeme> {
    match ms
    case NoMembers => []
    case Member(n, v, tail) => [Str(n), Colon] + Print(v) + PrintMoreMembers(tail)
  }

  function PrintMoreMembers(ms: Members): seq<Lexeme> {
    match ms
    case NoMembers => []
    case Member(n, v, tail) => [Comma, Str(n), Colon] + Print(v) + PrintMoreMembers(tail)
  }

  /** How deep containers nest. */
  function Depth(v: Json): nat {
    match v
    case Leaf(_) => 0
    case JStr(_) => 0
    case Arr(items) => 1 + ItemsDepth(items)
    case Obj(members) => 1 + MembersDepth(members)
  }

  function Max(a: nat, b: nat): nat {
    if a > b then a else b
  }

  function ItemsDepth(items: Items): nat {
    match items
    case NoItems => 0
    case Item(v, tail) => Max(Depth(v), ItemsDepth(tail))
  }

  function MembersDepth(ms: Members): nat {
    match ms
    case NoMembers => 0
    case Member(_, v, tail) => Max(Depth(v), MembersDepth(tail))
  }

  function Names(ms: Members): set<string> {
    match ms
    case NoMembers => {}
    case Member(n, _, tail) => {n} + Names(tail)
  }

  /** No object anywhere in the value repeats a member name. */
  predicate Unambiguous(v: Json) {
    match v
    case Leaf(_) => true
    case JStr(_) => true
    case Arr(items) => ItemsUnambiguous(items)
    case Obj(members) => MembersUnambiguous(members)
  }

  predicate ItemsUnambiguous(items: Items) {
    match items
    case NoItems => true
    case Item(v, tail) => Unambiguous(v) && ItemsUnambiguous(tail)
  }

  predicate MembersUnambiguous(ms: Members) {
    match ms
    case NoMembers => true
    case Member(n, v, tail) => n !in Names(tail) && Unambiguous(v) && MembersUnambiguous(tail)
  }

  /** The printed form of an object in which no object repeats a member name and containers nest at
      most 32 deep. */
  ghost predicate StrictObject(input: seq<Lexeme>) {
    exists v: Json :: v.Obj? && Unambiguous(v) && Depth(v) <= MAX_JSON_DEPTH && input == Print(v)
  }

  // ----- The walker's verdict on a printed value

  /** The separator that stands before a value when the decoder is in state st. */
  function Lead(st: TokenState): seq<Lexeme> {
    if st.ArrayComma? then [Comma] else if st.ObjectColon? then [Colon] else []
  }

  predicate BeforeValue(st: TokenState) {
    st.ArrayStart? || st.ArrayComma? || st.ObjectColon?
  }

  /** The state after the value that BeforeValue announced. */
  function AfterValue(st: TokenState): TokenState {
    if st.ObjectColon? then ObjectComma else ArrayComma
  }

  function ItemsFrom(st: TokenState, items: Items): seq<Lexeme> {
    if st.ArrayStart? then PrintItems(items) else PrintMoreItems(items)
  }

  function MembersFrom(st: TokenState, ms: Members): seq<Lexeme> {
    if st.ObjectStart? then PrintMembers(ms) else PrintMoreMembers(ms)
  }

  /** Where the decoder stands once the container it is in has been closed. */
  function Popped(d: Dec, rest: seq<Lexeme>): Dec
    requires d.stack != []
  {
    Dec(rest, ValueEnd(Last(d.stack)), Front(d.stack))
  }

  lemma FirstOfPrint(v: Json)
    ensures Print(v) != [] && !Print(v)[0].RBracket? && !Print(v)[0].RBrace? && !Print(v)[0].Comma? && !Print(v)[0].Colon?
  {
  }

  /** The state in which the value itself is read, its separator behind. */
  function AtValue(st: TokenState): TokenState {
    if st.ObjectColon? then ObjectValue else if st.ArrayComma? then ArrayValue else st
  }

  lemma TokenPastLead(d: Dec, body: seq<Lexeme>)
    requires BeforeValue(d.state) && d.rest == Lead(d.state) + body
    ensures NextToken(d) == NextToken(Dec(body, AtValue(d.state), d.stack))
  {
    if d.state.ArrayStart? {
      assert d.rest == body;
    } else {
      assert d.rest[1..] == body;
    }
  }

  predicate InValue(st: TokenState) {
    st.ArrayStart? || st.ArrayValue? || st.ObjectValue?
  }

  /** The first token of a printed value, and where it leaves the decoder. */
  function Opening(v: Json, st: TokenState, stack: seq<TokenState>, rest: seq<Lexeme>): Read {
    match v
    case Leaf(t) => Got(Atom(t), Dec(rest, ValueEnd(st), stack))
    case JStr(t) => Got(Text(t), Dec(rest, ValueEnd(st), stack))
    case Arr(items) => Got(OpenArray, Dec(PrintItems(items) + [RBracket] + rest, ArrayStart, stack + [st]))
    case Obj(members) => Got(OpenObject, Dec(PrintMembers(members) + [RBrace] + rest, ObjectStart, stack + [st]))
  }

  lemma TokenAtValue(v: Json, st: TokenState, stack: seq<TokenState>, rest: seq<Lexeme>)
    requires InValue(st)
    ensures NextToken(Dec(Print(v) + rest, st, stack)) == Opening(v, st, stack, rest)
  {
    var body := Print(v) + rest;
    match v
    case Leaf(_) => assert body[1..] == rest;
    case JStr(_) => assert body[1..] == rest;
    case Arr(items) => assert body[1..] == PrintItems(items) + [RBracket] + rest;
    case Obj(members) => assert body[1..] == PrintMembers(members) + [RBrace] + rest;
  }

  /** Reading the first token of a printed value, through the separator before it. */
  lemma TokenOfValue(v: Json, d: Dec, rest: seq<Lexeme>)
    requires BeforeValue(d.state) && d.rest == Lead(d.state) + Print(v) + rest
    ensures HasMore(d)
    ensures NextToken(d) == Opening(v, AtValue(d.state), d.stack, rest)
  {
    FirstOfPrint(v);
    assert d.rest == Lead(d.state) + (Print(v) + rest);
    TokenPastLead(d, Print(v) + rest);
    TokenAtValue(v, AtValue(d.state), d.stack, rest);
  }

  /** On a printed value the walker consumes exactly that value, and accepts it exactly when it is
      unambiguous and its nesting fits below the current depth. */
  lemma {:induction false} WalkPrintedValue(v: Json, d: Dec, depth: nat, rest: seq<Lexeme>)
    requires BeforeValue(d.state) && d.rest == Lead(d.state) + Print(v) + rest
    requires depth <= MAX_JSON_DEPTH
    ensures WalkValue(d, depth) ==
            if Unambiguous(v) && depth + Depth(v) <= MAX_JSON_DEPTH
            then Some(Dec(rest, AfterValue(d.state), d.stack)) else None
    decreases v, 2
  {
    TokenOfValue(v, d, rest);
    WalkOpenedValue(v, d, depth, rest);
  }

  lemma {:induction false} WalkOpenedValue(v: Json, d: Dec, depth: nat, rest: seq<Lexeme>)
    requires BeforeValue(d.state) && NextToken(d) == Opening(v, AtValue(d.state), d.stack, rest)
    requires depth <= MAX_JSON_DEPTH
    ensures WalkValue(d, depth) ==
            if Unambiguous(v) && depth + Depth(v) <= MAX_JSON_DEPTH
            then Some(Dec(rest, AfterValue(d.state), d.stack)) else None
    decreases v, 1
  {
    ValueStep(d, depth);
    DescendIntoPrinted(v, AtValue(d.state), d.stack, depth, rest);
  }

  lemma {:induction false} DescendIntoPrinted(v: Json, st: TokenState, stack: seq<TokenState>, depth: nat, rest: seq<Lexeme>)
    requires InValue(st) && depth <= MAX_JSON_DEPTH
    ensures var r := Opening(v, st, stack, rest);
            Descend(r.token, r.dec, depth) ==
            if Unambiguous(v) && depth + Depth(v) <= MAX_JSON_DEPTH then Some(Dec(rest, ValueEnd(st), stack)) else None
    decreases v, 0
  {
    if depth < MAX_JSON_DEPTH {
      var d := Opening(v, st, stack, rest).dec;
      match v
      case Arr(items) => WalkPrintedItems(items, d, depth + 1, rest);
      case Obj(members) => WalkPrintedMembers(members, d, depth + 1, {}, rest);
      case _ =>
    }
  }

  lemma {:induction false} WalkPrintedItems(items: Items, d: Dec, depth: nat, rest: seq<Lexeme>)
    requires (d.state.ArrayStart? || d.state.ArrayComma?) && d.stack != []
    requires d.rest == ItemsFrom(d.state, items) + [RBracket] + rest
    requires depth <= MAX_JSON_DEPTH
    ensures WalkArray(d, depth) ==
            if ItemsUnambiguous(items) && depth + ItemsDepth(items) <= MAX_JSON_DEPTH then Some(Popped(d, rest)) else None
    decreases items
  {
    match items
    case NoItems =>
      EndOfItems(d, rest);
      ArrayEnd(d, depth);
    case Item(v, tail) =>
      var after := PrintMoreItems(tail) + [RBracket] + rest;
      ItemsJoin(d.state, v, tail, rest);
      TokenOfValue(v, d, after);
      ArrayStep(d, depth);
      WalkPrintedValue(v, d, depth, after);
      if WalkValue(d, depth).Some? {
        WalkPrintedItems(tail, Dec(after, ArrayComma, d.stack), depth, rest);
      }
  }

  lemma EndOfItems(d: Dec, rest: seq<Lexeme>)
    requires (d.state.ArrayStart? || d.state.ArrayComma?) && d.stack != []
    requires d.rest == ItemsFrom(d.state, NoItems) + [RBracket] + rest
    ensures !HasMore(d) && NextToken(d) == Got(CloseArray, Popped(d, rest))
  {
    assert d.rest[1..] == rest;
  }

  lemma {:induction false} WalkPrintedMembers(ms: Members, d: Dec, depth: nat, seen: set<string>, rest: seq<Lexeme>)
    requires (d.state.ObjectStart? || d.state.ObjectComma?) && d.stack != []
    requires d.rest == MembersFrom(d.state, ms) + [RBrace] + rest
    requires depth <= MAX_JSON_DEPTH
    ensures WalkObject(d, depth, seen) ==
            if MembersUnambiguous(ms) && Names(ms) !! seen && depth + MembersDepth(ms) <= MAX_JSON_DEPTH
            then Some(Popped(d, rest)) else None
    decreases ms
  {
    match ms
    case NoMembers =>
      assert d.rest[1..] == rest;
    case Member(n, v, tail) =>
      var after := PrintMoreMembers(tail) + [RBrace] + rest;
      var d1 := Dec([Colon] + Print(v) + after, ObjectColon, d.stack);
      MemberJoins(d.state, n, v, tail, rest);
      NameToken(d, n, d1.rest);
      if n !in seen {
        WalkPrintedValue(v, d1, depth, after);
        if WalkValue(d1, depth).Some? {
          WalkPrintedMembers(tail, Dec(after, ObjectComma, d.stack), depth, seen + {n}, rest);
        }
      }
  }

  lemma NameToken(d: Dec, n: string, after: seq<Lexeme>)
    requires d.state.ObjectStart? || d.state.ObjectComma?
    requires d.rest == NameFrom(d.state, n) + after
    ensures HasMore(d) && NextToken(d) == Got(Text(n), Dec(after, ObjectColon, d.stack))
  {
    if d.state.ObjectComma? {
      assert d.rest[1..] == [Str(n)] + after;
      assert ([Str(n)] + after)[1..] == after;
    } else {
      assert d.rest[1..] == after;
    }
  }

  // ----- Whatever the walker accepts is a printed value

  /** If the walker gets past a value, what it consumed is some value's printed form. */
  lemma {:induction false} WalkedValueIsPrinted(d: Dec, depth: nat) returns (v: Json)
    requires BeforeValue(d.state) && HasMore(d) && WalkValue(d, depth).Some?
    ensures var d' := WalkValue(d, depth).value;
            && d.rest == Lead(d.state) + Print(v) + d'.rest
            && d'.state == AfterValue(d.state) && d'.stack == d.stack
    decreases |d.rest|, 1
  {
    var body;
    v, body := WalkedBodyIsPrinted(d, depth);
    Regroup(Lead(d.state), Print(v), WalkValue(d, depth).value.rest);
  }

  lemma {:induction false} WalkedBodyIsPrinted(d: Dec, depth: nat) returns (v: Json, body: seq<Lexeme>)
    requires BeforeValue(d.state) && HasMore(d) && WalkValue(d, depth).Some?
    ensures var d' := WalkValue(d, depth).value;
            && d.rest == Lead(d.state) + body && body == Print(v) + d'.rest
            && d'.state == AfterValue(d.state) && d'.stack == d.stack
    decreases |d.rest|, 0
  {
    ValueStep(d, depth);
    body := ValueTokenIsRead(d);
    v := DescendedIsPrinted(NextToken(d).token, NextToken(d).dec, body, AtValue(d.state), d.stack, depth);
  }

  lemma Regroup(a: seq<Lexeme>, b: seq<Lexeme>, c: seq<Lexeme>)
    ensures a + (b + c) == a + b + c
  {
  }

  lemma ValueTokenIsRead(d: Dec) returns (body: seq<Lexeme>)
    requires BeforeValue(d.state) && HasMore(d) && NextToken(d).Got?
    ensures d.rest == Lead(d.state) + body
    ensures Follows(NextToken(d).token, NextToken(d).dec, body, AtValue(d.state), d.stack)
  {
    LeadIsRead(d);
    body := d.rest[|Lead(d.state)|..];
    TokenPastLead(d, body);
    OpeningIsRead(Dec(body, AtValue(d.state), d.stack));
  }

  lemma {:induction false} DescendedIsPrinted(token: Token, d: Dec, body: seq<Lexeme>, st: TokenState, stack: seq<TokenState>, depth: nat)
    returns (v: Json)
    requires InValue(st) && Descend(token, d, depth).Some?
    requires Follows(token, d, body, st, stack)
    ensures var d' := Descend(token, d, depth).value;
            body == Print(v) + d'.rest && d'.state == ValueEnd(st) && d'.stack == stack
    decreases |d.rest|, 3
  {
    var end := Descend(token, d, depth).value.rest;
    match token
    case Text(t) => v := JStr(t);
    case Atom(t) => v := Leaf(t);
    case OpenObject =>
      var ms := WalkedMembersArePrinted(d, depth + 1, {});
      v := Obj(ms);
      assert [LBrace] + (PrintMembers(ms) + [RBrace] + end) == Print(v) + end;
    case OpenArray =>
      var items := WalkedItemsArePrinted(d, depth + 1);
      v := Arr(items);
      assert [LBracket] + (PrintItems(items) + [RBracket] + end) == Print(v) + end;
  }

  /** What reading token off body, in a value position, says of body and of the decoder after it. */
  ghost predicate Follows(token: Token, d: Dec, body: seq<Lexeme>, st: TokenState, stack: seq<TokenState>) {
    match token
    case Text(t) => body == [Str(t)] + d.rest && d.state == ValueEnd(st) && d.stack == stack
    case Atom(t) => body == [Scalar(t)] + d.rest && d.state == ValueEnd(st) && d.stack == stack
    case OpenObject => body == [LBrace] + d.rest && d.state.ObjectStart? && d.stack == stack + [st]
    case OpenArray => body == [LBracket] + d.rest && d.state.ArrayStart? && d.stack == stack + [st]
    case _ => false
  }

  /** The first token of a value is one lexeme, and tells which state follows. */
  lemma OpeningIsRead(d: Dec)
    requires InValue(d.state) && NextToken(d).Got?
    requires d.rest != [] && !d.rest[0].RBracket? && !d.rest[0].RBrace?
    ensures Follows(NextToken(d).token, NextToken(d).dec, d.rest, d.state, d.stack)
  {
    assert d.rest == [d.rest[0]] + d.rest[1..];
  }

  lemma LeadIsRead(d: Dec)
    requires BeforeValue(d.state) && NextToken(d).Got? && HasMore(d)
    ensures |Lead(d.state)| < |d.rest| && d.rest == Lead(d.state) + d.rest[|Lead(d.state)|..]
    ensures !d.rest[|Lead(d.state)|].RBracket? && !d.rest[|Lead(d.state)|].RBrace?
  {
    if !d.state.ArrayStart? {
      SeparatorIsRead(d);
      ValueFollows(Skip(d).value);
    }
  }

  lemma SeparatorIsRead(d: Dec)
    requires (d.state.ArrayComma? || d.state.ObjectColon?) && NextToken(d).Got? && HasMore(d)
    ensures Skip(d).Some? && [d.rest[0]] == Lead(d.state) && NextToken(d) == NextToken(Skip(d).value)
  {
    OutOfPlace(d);
  }

  lemma OutOfPlace(d: Dec)
    requires (d.state.ArrayComma? || d.state.ObjectColon?) && HasMore(d)
    ensures Skip(d).None? ==> Here(d) == Broken
  {
  }

  lemma ValueFollows(d: Dec)
    requires (d.state.ArrayValue? || d.state.ObjectValue?) && NextToken(d).Got?
    ensures d.rest != [] && !d.rest[0].RBracket? && !d.rest[0].RBrace?
  {
  }

  lemma {:induction false} WalkedItemsArePrinted(d: Dec, depth: nat) returns (items: Items)
    requires (d.state.ArrayStart? || d.state.ArrayComma?) && d.stack != [] && WalkArray(d, depth).Some?
    ensures var d' := WalkArray(d, depth).value;
            d.rest == ItemsFrom(d.state, items) + [RBracket] + d'.rest && d' == Popped(d, d'.rest)
    decreases |d.rest|, 2
  {
    if HasMore(d) {
      ArrayStep(d, depth);
      var v := WalkedValueIsPrinted(d, depth);
      var tail := WalkedItemsArePrinted(WalkValue(d, depth).value, depth);
      items := Item(v, tail);
      ItemsJoin(d.state, v, tail, WalkArray(d, depth).value.rest);
    } else {
      ArrayEnd(d, depth);
      ArrayCloses(d);
      items := NoItems;
    }
  }

  lemma ItemsJoin(st: TokenState, v: Json, tail: Items, rest: seq<Lexeme>)
    requires st.ArrayStart? || st.ArrayComma?
    ensures Lead(st) + Print(v) + (PrintMoreItems(tail) + [RBracket] + rest) == ItemsFrom(st, Item(v, tail)) + [RBracket] + rest
  {
  }

  lemma ArrayCloses(d: Dec)
    requires (d.state.ArrayStart? || d.state.ArrayComma?) && d.stack != [] && !HasMore(d) && NextToken(d).Got?
    ensures d.rest == [RBracket] + NextToken(d).dec.rest && NextToken(d).dec == Popped(d, NextToken(d).dec.rest)
  {
    assert d.rest == [d.rest[0]] + d.rest[1..];
  }

  lemma {:induction false} WalkedMembersArePrinted(d: Dec, depth: nat, seen: set<string>) returns (ms: Members)
    requires (d.state.ObjectStart? || d.state.ObjectComma?) && d.stack != [] && WalkObject(d, depth, seen).Some?
    ensures var d' := WalkObject(d, depth, seen).value;
            d.rest == MembersFrom(d.state, ms) + [RBrace] + d'.rest && d' == Popped(d, d'.rest)
    decreases |d.rest|, 0
  {
    if HasMore(d) {
      var n, d1, d2 := MemberIsRead(d, depth, seen);
      var v := WalkedValueIsPrinted(d1, depth);
      var tail := WalkedMembersArePrinted(d2, depth, seen + {n});
      ms := Member(n, v, tail);
      MemberJoins(d.state, n, v, tail, WalkObject(d, depth, seen).value.rest);
    } else {
      ms := NoMembers;
      assert d.rest == [d.rest[0]] + d.rest[1..];
    }
  }

  lemma MemberIsRead(d: Dec, depth: nat, seen: set<string>) returns (n: string, d1: Dec, d2: Dec)
    requires (d.state.ObjectStart? || d.state.ObjectComma?) && HasMore(d) && WalkObject(d, depth, seen).Some?
    ensures d.rest == NameFrom(d.state, n) + d1.rest && |d1.rest| < |d.rest|
    ensures d1.state.ObjectColon? && d1.stack == d.stack && HasMore(d1)
    ensures WalkValue(d1, depth) == Some(d2)
    ensures WalkObject(d, depth, seen) == WalkObject(d2, depth, seen + {n})
  {
    n, d1 := NextToken(d).token.text, NextToken(d).dec;
    d2 := WalkValue(d1, depth).value;
    NameIsRead(d);
    ColonIsRead(d1, depth);
  }

  /** A member name as it is printed from state st, with the comma before it if there is one. */
  function NameFrom(st: TokenState, n: string): seq<Lexeme> {
    if st.ObjectComma? then [Comma, Str(n)] else [Str(n)]
  }

  lemma MemberJoins(st: TokenState, n: string, v: Json, tail: Members, rest: seq<Lexeme>)
    requires st.ObjectStart? || st.ObjectComma?
    ensures NameFrom(st, n) + ([Colon] + Print(v) + (PrintMoreMembers(tail) + [RBrace] + rest)) ==
            MembersFrom(st, Member(n, v, tail)) + [RBrace] + rest
  {
    HeadOfMembers(st, n, v, tail);
    RegroupFive(NameFrom(st, n), [Colon], Print(v), PrintMoreMembers(tail), [RBrace], rest);
  }

  lemma HeadOfMembers(st: TokenState, n: string, v: Json, tail: Members)
    requires st.ObjectStart? || st.ObjectComma?
    ensures MembersFrom(st, Member(n, v, tail)) == NameFrom(st, n) + [Colon] + Print(v) + PrintMoreMembers(tail)
  {
    assert [Str(n), Colon] == [Str(n)] + [Colon] && [Comma, Str(n), Colon] == [Comma, Str(n)] + [Colon];
  }

  lemma RegroupFive(a: seq<Lexeme>, b: seq<Lexeme>, c: seq<Lexeme>, d: seq<Lexeme>, e: seq<Lexeme>, f: seq<Lexeme>)
    ensures a + (b + c + (d + e + f)) == a + b + c + d + e + f
  {
  }

  lemma NameIsRead(d: Dec)
    requires (d.state.ObjectStart? || d.state.ObjectComma?) && HasMore(d)
    requires NextToken(d).Got? && NextToken(d).token.Text?
    ensures var r := NextToken(d);
            && d.rest == NameFrom(d.state, r.token.text) + r.dec.rest
            && r.dec.state.ObjectColon? && r.dec.stack == d.stack
  {
    assert d.rest == [d.rest[0]] + d.rest[1..];
    if d.state.ObjectComma? {
      var d1 := d.(rest := d.rest[1..], state := ObjectKey);
      assert NextToken(d) == NextToken(d1);
      assert d1.rest == [d1.rest[0]] + d1.rest[1..];
    }
  }

  lemma ColonIsRead(d: Dec, depth: nat)
    requires d.state.ObjectColon? && WalkValue(d, depth).Some?
    ensures HasMore(d)
  {
  }

  lemma {:induction false} AcceptedIsStrict(input: seq<Lexeme>)
    requires Accepts(input)
    ensures StrictObject(input)
  {
    var d := NextToken(Dec(input, TopValue, [])).dec;
    assert d == Dec(input[1..], ObjectStart, [TopValue]) && input == [LBrace] + input[1..];
    var ms := WalkedMembersArePrinted(d, 1, {});
    assert input[1..] == PrintMembers(ms) + [RBrace] + [];
    WalkPrintedMembers(ms, d, 1, {}, []);
    assert input == Print(Obj(ms));
  }

  lemma {:induction false} StrictIsAccepted(input: seq<Lexeme>, ms: Members)
    requires MembersUnambiguous(ms) && 1 + MembersDepth(ms) <= MAX_JSON_DEPTH
    requires input == [LBrace] + PrintMembers(ms) + [RBrace]
    ensures Accepts(input)
  {
    var d := Dec(input[1..], ObjectStart, [TopValue]);
    assert NextToken(Dec(input, TopValue, [])) == Got(OpenObject, d);
    assert d.rest == PrintMembers(ms) + [RBrace] + [];
    WalkPrintedMembers(ms, d, 1, {}, []);
  }

  /** The walker accepts exactly the strict objects. */
  lemma {:induction false} AcceptsExactlyStrictObjects(input: seq<Lexeme>)
    ensures Accepts(input) <==> StrictObject(input)
  {
    if Accepts(input) {
      AcceptedIsStrict(input);
    }
    if StrictObject(input) {
      var v: Json :| v.Obj? && Unambiguous(v) && Depth(v) <= MAX_JSON_DEPTH && input == Print(v);
      StrictIsAccepted(input, v.members);
    }
  }
}
