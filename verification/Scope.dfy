// Scopes of workload keys (domain/workload.go) and their two storage forms
// (adapters/sqlite/sqlite.go and adapters/pgstore/pgstore.go), for ASCII input.

module Scope {
  import opened Common
  import opened Text

  /** strings.Cut around the first colon. */
  function CutColon(s: string): Option<(string, string)> {
    if s == "" then None
    else if s[0] == ':' then Some(("", s[1..]))
    else match CutColon(s[1..])
      case Some(pair) => Some(([s[0]] + pair.0, pair.1))
      case None => None
  }

  predicate SegmentChar(c: char) {
    'a' <= c <= 'z' || '0' <= c <= '9' || c == '.' || c == '_' || c == '-'
  }

  /** validScopeSegment. */
  predicate ValidSegment(seg: string) {
    seg != "" && (seg == "*" || forall i :: 0 <= i < |seg| ==> SegmentChar(seg[i]))
  }

  /** splitScopeEntryAllowWildcard: the normalised halves of an entry, if it is well-formed. */
  function Halves(entry: string): Option<(string, string)> {
    match CutColon(ToLower(TrimSpace(entry)))
    case None => None
    case Some((res, act)) => if ':' in act || !ValidSegment(res) || !ValidSegment(act) then None else Some((res, act))
  }

  /** The canonical spelling of an entry. */
  function Normal(entry: string): Option<string> {
    match Halves(entry)
    case Some((res, act)) => Some(res + ":" + act)
    case None => None
  }

  ghost predicate StrictlySorted(xs: seq<string>) {
    forall i, j :: 0 <= i < j < |xs| ==> Less(xs[i], xs[j])
  }

  /** out is the scope NewScope builds from actions: their canonical spellings, sorted, each once. */
  ghost predicate IsScopeOf(actions: seq<string>, out: seq<string>) {
    && actions != []
    && (forall i :: 0 <= i < |actions| ==> Normal(actions[i]).Some?)
    && StrictlySorted(out)
    && (forall e :: e in out <==> exists i :: 0 <= i < |actions| && Normal(actions[i]) == Some(e))
  }

  // ----- Sorting

  /** Places x in a sorted list that does not hold it. */
  function Place(xs: seq<string>, x: string): (r: seq<string>)
    ensures forall e :: e in r <==> e in xs || e == x
  {
    if xs == [] then [x]
    else if Less(x, xs[0]) then [x] + xs
    else [xs[0]] + Place(xs[1..], x)
  }

  lemma {:induction false} PlaceKeepsSorted(xs: seq<string>, x: string)
    requires StrictlySorted(xs) && x !in xs
    ensures StrictlySorted(Place(xs, x))
  {
    if xs != [] {
      LessTotal(x, xs[0]);
      if Less(x, xs[0]) {
        forall i | 1 <= i < |xs|
          ensures Less(x, xs[i])
        {
          LessTransitive(x, xs[0], xs[i]);
        }
      } else {
        PlaceKeepsSorted(xs[1..], x);
        forall e | e in Place(xs[1..], x)
          ensures Less(xs[0], e)
        {
          if e in xs[1..] {
            var k :| 0 <= k < |xs[1..]| && xs[1..][k] == e;
          }
        }
      }
    }
  }

  /** A strictly sorted list is determined by its elements. */
  lemma {:induction false} SortedIsUnique(xs: seq<string>, ys: seq<string>)
    requires StrictlySorted(xs) && StrictlySorted(ys)
    requires forall e :: e in xs <==> e in ys
    ensures xs == ys
  {
    assert ys != [] ==> ys[0] in xs;
    if xs != [] {
      assert xs[0] in ys;
      SameLeast(xs, ys);
      forall e
        ensures e in xs[1..] <==> e in ys[1..]
      {
        SortedTail(xs, e);
        SortedTail(ys, e);
      }
      SortedIsUnique(xs[1..], ys[1..]);
      assert xs == [xs[0]] + xs[1..] && ys == [ys[0]] + ys[1..];
    }
  }

  lemma {:induction false} SameLeast(xs: seq<string>, ys: seq<string>)
    requires StrictlySorted(xs) && StrictlySorted(ys) && xs != [] && ys != []
    requires xs[0] in ys && ys[0] in xs
    ensures xs[0] == ys[0]
  {
    var i :| 0 <= i < |ys| && ys[i] == xs[0];
    var j :| 0 <= j < |xs| && xs[j] == ys[0];
    if i > 0 && j > 0 {
      LessTransitive(xs[0], ys[0], xs[0]);
      LessIrreflexive(xs[0]);
      assert false;
    }
  }

  lemma {:induction false} SortedTail(xs: seq<string>, e: string)
    requires StrictlySorted(xs) && xs != []
    ensures e in xs[1..] <==> e in xs && e != xs[0]
  {
    if e in xs[1..] {
      var k :| 0 <= k < |xs[1..]| && xs[1..][k] == e;
      assert Less(xs[0], xs[k + 1]);
      LessIrreflexive(xs[0]);
    }
    if e in xs && e != xs[0] {
      var k :| 0 <= k < |xs| && xs[k] == e;
      assert xs[1..][k - 1] == e;
    }
  }

  // ----- NewScope and Allows

  /** NewScope fails exactly on an empty or malformed list, and otherwise returns the scope. */
  method NewScope(actions: seq<string>) returns (r: Option<seq<string>>)
    ensures r.Some? <==> actions != [] && forall i :: 0 <= i < |actions| ==> Normal(actions[i]).Some?
    ensures r.Some? ==> IsScopeOf(actions, r.value)
  {
    var entries: set<string> := {};
    for i := 0 to |actions|
      invariant forall k :: 0 <= k < i ==> Normal(actions[k]).Some?
      invariant forall e :: e in entries <==> exists k :: 0 <= k < i && Normal(actions[k]) == Some(e)
    {
      var e := Normal(actions[i]);
      if e.None? {
        return None;
      }
      entries := entries + {e.value};
    }
    assert actions != [] ==> Normal(actions[0]).Some? && Normal(actions[0]).value in entries;
    if entries == {} {
      return None;
    }
    var out: seq<string> := [];
    var todo := entries;
    while todo != {}
      invariant todo <= entries && StrictlySorted(out)
      invariant forall e :: e in out <==> e in entries && e !in todo
      decreases todo
    {
      var e :| e in todo;
      PlaceKeepsSorted(out, e);
      out := Place(out, e);
      todo := todo - {e};
    }
    return Some(out);
  }

  predicate CoversHalf(granted: string, asked: string) {
    granted == "*" || granted == asked
  }

  /** An entry's halves cover the permission. */
  predicate Covers(halves: (string, string), resource: string, action: string) {
    CoversHalf(halves.0, resource) && CoversHalf(halves.1, action)
  }

  predicate EntryCovers(e: string, resource: string, action: string) {
    CutColon(e).Some? && Covers(CutColon(e).value, resource, action)
  }

  /** Allows: some stored entry covers the permission. */
  method Allows(entries: seq<string>, resource: string, action: string) returns (ok: bool)
    ensures ok <==> exists i :: 0 <= i < |entries| && EntryCovers(entries[i], resource, action)
    ensures ok <==> exists i, res, act ::
              && 0 <= i < |entries| && Joins(entries[i], res, act)
              && (res == "*" || res == resource) && (act == "*" || act == action)
  {
    CoveringEntries(entries, resource, action);
    for i := 0 to |entries|
      invariant forall k :: 0 <= k < i ==> !EntryCovers(entries[k], resource, action)
    {
      var cut := CutColon(entries[i]);
      if cut.None? {
        continue;
      }
      var (res, act) := cut.value;
      if (res == "*" || res == resource) && (act == "*" || act == action) {
        return true;
      }
    }
    return false;
  }

  /** entry is these two parts around its first colon. */
  predicate Joins(entry: string, res: string, act: string) {
    entry == res + ":" + act && ':' !in res
  }

  lemma {:induction false} CutIff(entry: string, res: string, act: string)
    ensures CutColon(entry) == Some((res, act)) <==> Joins(entry, res, act)
  {
    if Joins(entry, res, act) {
      CutOfJoined(res, act);
    }
    if CutColon(entry) == Some((res, act)) {
      CutJoins(entry);
    }
  }

  lemma {:induction false} CutJoins(entry: string)
    requires CutColon(entry).Some?
    ensures Joins(entry, CutColon(entry).value.0, CutColon(entry).value.1)
  {
    assert entry == [entry[0]] + entry[1..];
    if entry[0] != ':' {
      CutJoins(entry[1..]);
    }
  }

  /** An entry covers a permission exactly when each of its halves is the wildcard or the
      permission's own. */
  lemma {:induction false} EntryCoversIff(entry: string, resource: string, action: string)
    ensures EntryCovers(entry, resource, action) <==>
            exists res, act ::
              Joins(entry, res, act) && (res == "*" || res == resource) && (act == "*" || act == action)
  {
    if EntryCovers(entry, resource, action) {
      CutJoins(entry);
    }
    forall res, act | Joins(entry, res, act) && (res == "*" || res == resource) && (act == "*" || act == action)
      ensures EntryCovers(entry, resource, action)
    {
      CutIff(entry, res, act);
    }
  }

  lemma {:induction false} CoveringEntries(entries: seq<string>, resource: string, action: string)
    ensures (exists i :: 0 <= i < |entries| && EntryCovers(entries[i], resource, action)) <==>
            (exists i, res, act ::
               && 0 <= i < |entries| && Joins(entries[i], res, act)
               && (res == "*" || res == resource) && (act == "*" || act == action))
  {
    if i :| 0 <= i < |entries| && EntryCovers(entries[i], resource, action) {
      EntryCoversIff(entries[i], resource, action);
    }
    forall i, res, act |
      && 0 <= i < |entries| && Joins(entries[i], res, act)
      && (res == "*" || res == resource) && (act == "*" || act == action)
      ensures EntryCovers(entries[i], resource, action)
    {
      EntryCoversIff(entries[i], resource, action);
    }
  }

  lemma {:induction false} CutOfJoined(res: string, act: string)
    requires ':' !in res
    ensures CutColon(res + ":" + act) == Some((res, act))
  {
    var s := res + ":" + act;
    if res == "" {
      assert s[1..] == act;
    } else {
      assert s[1..] == res[1..] + ":" + act;
      CutOfJoined(res[1..], act);
      assert [res[0]] + res[1..] == res;
    }
  }

  lemma SegmentHasNoColon(seg: string)
    requires ValidSegment(seg)
    ensures ':' !in seg
  {
  }

  /** A scope allows a permission exactly when one of the entries it was built from spells, in any
      letter case and with any space around it, a resource and an action of which each is the
      wildcard or the permission's own. */
  lemma {:induction false} AllowsWhatWasGranted(actions: seq<string>, out: seq<string>, resource: string, action: string)
    requires IsScopeOf(actions, out)
    ensures (exists i :: 0 <= i < |out| && EntryCovers(out[i], resource, action)) <==>
            (exists i, res, act ::
               && 0 <= i < |actions| && Segment(res) && Segment(act) && Writes(actions[i], res + ":" + act)
               && (res == "*" || res == resource) && (act == "*" || act == action))
  {
    if i :| 0 <= i < |out| && EntryCovers(out[i], resource, action) {
      assert out[i] in out;
      var k :| 0 <= k < |actions| && Normal(actions[k]) == Some(out[i]);
      CutOfNormal(actions[k]);
      HalvesIff(actions[k], Halves(actions[k]).value.0, Halves(actions[k]).value.1);
    }
    forall i, res, act |
      && 0 <= i < |actions| && Segment(res) && Segment(act) && Writes(actions[i], res + ":" + act)
      && (res == "*" || res == resource) && (act == "*" || act == action)
      ensures exists j :: 0 <= j < |out| && EntryCovers(out[j], resource, action)
    {
      HalvesIff(actions[i], res, act);
      CutOfNormal(actions[i]);
      assert Normal(actions[i]).value in out;
      var j :| 0 <= j < |out| && out[j] == Normal(actions[i]).value;
      assert EntryCovers(out[j], resource, action);
    }
  }

  /** What a half may be: the wildcard, or letters, digits, dots, underscores and hyphens. */
  predicate Segment(seg: string) {
    seg == "*" ||
    (seg != "" && forall i :: 0 <= i < |seg| ==>
       'a' <= seg[i] <= 'z' || '0' <= seg[i] <= '9' || seg[i] in ['.', '_', '-'])
  }

  lemma SegmentIsValid(seg: string)
    ensures ValidSegment(seg) <==> Segment(seg)
  {
  }

  /** An entry is well-formed, with these halves, exactly when it spells them around one colon. */
  lemma {:induction false} HalvesIff(entry: string, res: string, act: string)
    ensures Halves(entry) == Some((res, act)) <==> Segment(res) && Segment(act) && Writes(entry, res + ":" + act)
  {
    SegmentIsValid(res);
    SegmentIsValid(act);
    var text := ToLower(TrimSpace(entry));
    if ValidSegment(res) && ValidSegment(act) {
      JoinedIsPlain(res, act);
      NormalizedIff(entry, res + ":" + act);
      SegmentHasNoColon(res);
      SegmentHasNoColon(act);
      CutIff(text, res, act);
    }
  }

  lemma JoinedIsPlain(res: string, act: string)
    requires ValidSegment(res) && ValidSegment(act)
    ensures Plain(res + ":" + act)
  {
    var e := res + ":" + act;
    forall i | 0 <= i < |e|
      ensures !('A' <= e[i] <= 'Z') && !IsSpace(e[i])
    {
      assert e[i] == ':' || EntryChar(e[i]);
    }
  }

  lemma {:induction false} CutOfNormal(entry: string)
    requires Halves(entry).Some?
    ensures CutColon(Normal(entry).value) == Halves(entry)
  {
    var (res, act) := Halves(entry).value;
    SegmentHasNoColon(res);
    CutOfJoined(res, act);
  }

  // ----- Canonical entries

  predicate EntryChar(c: char) {
    SegmentChar(c) || c == '*' || c == ':'
  }

  predicate Canonical(e: string) {
    |e| >= 3 && forall i :: 0 <= i < |e| ==> EntryChar(e[i])
  }

  lemma {:induction false} NormalIsCanonical(entry: string)
    requires Normal(entry).Some?
    ensures Canonical(Normal(entry).value)
  {
    var (res, act) := Halves(entry).value;
    assert forall i :: 0 <= i < |res| ==> EntryChar(res[i]);
    assert forall i :: 0 <= i < |act| ==> EntryChar(act[i]);
  }

  lemma TrimIsIdentity(s: string, drop: char -> bool)
    requires s != "" && !drop(s[0]) && !drop(s[|s| - 1])
    ensures Trim(s, drop) == s
  {
  }

  lemma LowerIsIdentity(e: string)
    requires Canonical(e)
    ensures ToLower(e) == e
  {
    forall i | 0 <= i < |e|
      ensures ToLower(e)[i] == e[i]
    {
      assert EntryChar(e[i]);
    }
  }

  /** Normalising twice changes nothing. */
  lemma {:induction false} NormalIsIdempotent(entry: string)
    requires Normal(entry).Some?
    ensures Normal(Normal(entry).value) == Normal(entry)
  {
    var e := Normal(entry).value;
    NormalIsCanonical(entry);
    assert EntryChar(e[0]) && EntryChar(e[|e| - 1]);
    TrimIsIdentity(e, IsSpace);
    LowerIsIdentity(e);
    CutOfNormal(entry);
  }

  /** NewScope is the identity on its own output. */
  lemma {:induction false} NewScopeIsIdempotent(actions: seq<string>, out: seq<string>, again: seq<string>)
    requires IsScopeOf(actions, out) && IsScopeOf(out, again)
    ensures again == out
  {
    forall e
      ensures e in again <==> e in out
    {
      OutputIsNormal(actions, out);
      if e in out {
        var i :| 0 <= i < |out| && out[i] == e;
        assert Normal(out[i]) == Some(e);
      }
      if e in again {
        var i :| 0 <= i < |out| && Normal(out[i]) == Some(e);
        assert out[i] == e;
      }
    }
    SortedIsUnique(again, out);
  }

  lemma {:induction false} OutputIsNormal(actions: seq<string>, out: seq<string>)
    requires IsScopeOf(actions, out)
    ensures out != []
    ensures forall i :: 0 <= i < |out| ==> Normal(out[i]) == Some(out[i]) && Canonical(out[i])
  {
    assert Normal(actions[0]).value in out;
    forall i | 0 <= i < |out|
      ensures Normal(out[i]) == Some(out[i]) && Canonical(out[i])
    {
      assert out[i] in out;
      var k :| 0 <= k < |actions| && Normal(actions[k]) == Some(out[i]);
      NormalIsIdempotent(actions[k]);
      NormalIsCanonical(actions[k]);
    }
  }

  // ----- Storage forms

  function EncodeSqlite(entries: seq<string>): string {
    JoinWith(entries, '\n')
  }

  function DecodeSqlite(s: string): seq<string> {
    if s == "" then [] else SplitOn(s, '\n')
  }

  /** The newline-joined column gives every scope back. */
  lemma {:induction false} SqliteRoundTrip(actions: seq<string>, out: seq<string>)
    requires IsScopeOf(actions, out)
    ensures DecodeSqlite(EncodeSqlite(out)) == out
  {
    OutputIsNormal(actions, out);
    CanonicalLacks(out, '\n');
    SplitUndoesJoin(out, '\n');
    JoinIsNotEmpty(out, '\n');
  }

  lemma {:induction false} JoinIsNotEmpty(parts: seq<string>, sep: char)
    requires parts != [] && parts[0] != ""
    ensures JoinWith(parts, sep) != ""
  {
  }

  lemma {:induction false} CanonicalLacks(entries: seq<string>, c: char)
    requires !EntryChar(c) && forall i :: 0 <= i < |entries| ==> Canonical(entries[i])
    ensures forall i :: 0 <= i < |entries| ==> c !in entries[i]
  {
    forall i, k | 0 <= i < |entries| && 0 <= k < |entries[i]|
      ensures entries[i][k] != c
    {
      assert Canonical(entries[i]) && EntryChar(entries[i][k]);
    }
  }

  function PgTextArray(entries: seq<string>): string {
    "{" + JoinWith(entries, ',') + "}"
  }

  /** The array literal's body: the text without surrounding space and one pair of braces. */
  function PgBody(raw: string): string {
    var t := TrimSpace(raw);
    var u := if "{" <= t then t[1..] else t;
    if u != "" && u[|u| - 1] == '}' then u[..|u| - 1] else u
  }

  function PgEntry(part: string): string {
    Trim(TrimSpace(part), IsQuote)
  }

  function PgEntries(parts: seq<string>): (out: seq<string>)
    ensures |out| == |parts|
    ensures forall i :: 0 <= i < |parts| ==> out[i] == PgEntry(parts[i])
  {
    if parts == [] then [] else [PgEntry(parts[0])] + PgEntries(parts[1..])
  }

  function PgScanned(raw: string): seq<string> {
    if PgBody(raw) == "" then [] else PgEntries(SplitOn(PgBody(raw), ','))
  }

  /** pgScope.Scan on a text value. */
  method PgScan(raw: string) returns (out: seq<string>)
    ensures out == PgScanned(raw)
  {
    var body := PgBody(raw);
    if body == "" {
      return [];
    }
    var parts := SplitOn(body, ',');
    out := [];
    for i := 0 to |parts|
      invariant |out| == i
      invariant forall k :: 0 <= k < i ==> out[k] == PgEntry(parts[k])
    {
      out := out + [Trim(TrimSpace(parts[i]), IsQuote)];
    }
  }

  /** The array literal gives every scope back. */
  lemma {:induction false} PostgresRoundTrip(actions: seq<string>, out: seq<string>)
    requires IsScopeOf(actions, out)
    ensures PgScanned(PgTextArray(out)) == out
  {
    OutputIsNormal(actions, out);
    BodyOfArray(JoinWith(out, ','));
    CanonicalLacks(out, ',');
    SplitUndoesJoin(out, ',');
    JoinIsNotEmpty(out, ',');
    forall i | 0 <= i < |out|
      ensures PgEntry(out[i]) == out[i]
    {
      EntryIsUntouched(out[i]);
    }
  }

  lemma BodyOfArray(body: string)
    ensures PgBody("{" + body + "}") == body
  {
    var raw := "{" + body + "}";
    TrimIsIdentity(raw, IsSpace);
    assert raw[1..] == body + "}";
  }

  lemma EntryIsUntouched(e: string)
    requires Canonical(e)
    ensures PgEntry(e) == e
  {
    assert EntryChar(e[0]) && EntryChar(e[|e| - 1]);
    TrimIsIdentity(e, IsSpace);
    TrimIsIdentity(e, IsQuote);
  }

  /** e as an array literal may hold it: bare or in quotes, with any space around it. */
  predicate Shown(part: string, e: string, a: string, b: string) {
    && All(a, IsSpace) && All(b, IsSpace)
    && (part == a + e + b || part == a + ("\"" + e + "\"") + b)
  }

  /** The scan reads a scope back from any such literal, whatever space and quotes it shows. */
  lemma {:induction false} ScanReadsShownEntries(
      actions: seq<string>, out: seq<string>, parts: seq<string>, before: string, after: string)
    requires IsScopeOf(actions, out) && |parts| == |out|
    requires forall i :: 0 <= i < |out| ==> exists a, b :: Shown(parts[i], out[i], a, b)
    requires All(before, IsSpace) && All(after, IsSpace)
    ensures PgScanned(before + ("{" + JoinWith(parts, ',') + "}") + after) == out
  {
    OutputIsNormal(actions, out);
    BodyOfPaddedArray(before, JoinWith(parts, ','), after);
    forall i | 0 <= i < |out|
      ensures PgEntry(parts[i]) == out[i] && ',' !in parts[i] && parts[i] != ""
    {
      var a, b :| Shown(parts[i], out[i], a, b);
      ShownEntryIsRead(parts[i], out[i], a, b);
    }
    SplitUndoesJoin(parts, ',');
    JoinIsNotEmpty(parts, ',');
  }

  lemma {:induction false} ShownEntryIsRead(part: string, e: string, a: string, b: string)
    requires Canonical(e) && Shown(part, e, a, b)
    ensures PgEntry(part) == e && ',' !in part && part != ""
  {
    assert EntryChar(e[0]) && EntryChar(e[|e| - 1]);
    var quoted := "\"" + e + "\"";
    if part == a + e + b {
      TrimOfPadded(a, e, b, IsSpace);
      TrimIsIdentity(e, IsQuote);
    } else {
      TrimOfPadded(a, quoted, b, IsSpace);
      TrimOfPadded("\"", e, "\"", IsQuote);
    }
    forall i | 0 <= i < |e|
      ensures e[i] != ','
    {
      assert EntryChar(e[i]);
    }
  }

  lemma {:induction false} BodyOfPaddedArray(before: string, body: string, after: string)
    requires All(before, IsSpace) && All(after, IsSpace)
    ensures PgBody(before + ("{" + body + "}") + after) == body
  {
    var raw := "{" + body + "}";
    TrimOfPadded(before, raw, after, IsSpace);
    assert raw[1..] == body + "}";
  }

  /** Empty columns are empty scopes. */
  lemma EmptyColumnsAreEmpty()
    ensures DecodeSqlite("") == [] && PgScanned("") == [] && PgScanned("{}") == []
  {
    BodyOfArray("");
    assert "{" + "" + "}" == "{}";
  }
}
