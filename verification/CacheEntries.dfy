/** Cache entries: selectors and when they match, stripping and merging of headers, and `Vary` made canonical. */
module CacheEntries {
  import opened Options
  import opened Text
  import opened Headers
  import opened HttpDates
  import opened Lowest
  import opened Octets

  /** A parsed URL: `target` is the text up to the query, the fragment apart. */
  datatype Url = Url(origin: string, target: string, fragment: string)

  datatype CacheKey = CacheKey(verb: string, target: string)

  function KeyOf(verb: string, url: Url): CacheKey {
    CacheKey(verb, url.target)
  }

  // ----- Selectors -----

  /** Field names with the values the fetching request gave them; an absent field has no values. */
  datatype Selector = Selector(fields: seq<(string, seq<string>)>)
  {
    predicate Matches(request: HeaderMap) {
      forall i :: 0 <= i < |fields| ==> GetAll(request, fields[i].0) == fields[i].1
    }

    predicate Names(name: string) {
      exists i :: 0 <= i < |fields| && fields[i].0 == name
    }
  }

  function SelectorOf(names: seq<string>, request: HeaderMap): (r: Selector)
    ensures r.Matches(request)
    ensures forall name :: r.Names(name) <==> name in names
  {
    var r := Selector(seq(|names|, i requires 0 <= i < |names| => (names[i], GetAll(request, names[i]))));
    assert forall i :: 0 <= i < |names| ==> r.fields[i].0 == names[i];
    r
  }

  /** A request matches exactly when it gives every named field the values the recorded one did. */
  lemma MatchesIffEqualValues(names: seq<string>, fetched: HeaderMap, request: HeaderMap)
    ensures SelectorOf(names, fetched).Matches(request) <==>
            forall name :: name in names ==> GetAll(request, name) == GetAll(fetched, name)
  {
    var r := SelectorOf(names, fetched);
    assert forall i :: 0 <= i < |names| ==> r.fields[i] == (names[i], GetAll(fetched, names[i])) && names[i] in names;
  }

  method SelectorMatches(selector: Selector, request: HeaderMap) returns (r: bool)
    ensures r == selector.Matches(request)
  {
    for i := 0 to |selector.fields|
      invariant forall k :: 0 <= k < i ==> GetAll(request, selector.fields[k].0) == selector.fields[k].1
    {
      var offered, expected := GetAll(request, selector.fields[i].0), selector.fields[i].1;
      var j := 0;
      while j < |offered| && j < |expected| && offered[j] == expected[j]
        invariant 0 <= j <= |offered| && j <= |expected| && offered[..j] == expected[..j]
      {
        j := j + 1;
      }
      if j < |offered| || j < |expected| {
        assert offered != expected;
        return false;
      }
      assert offered == offered[..j] && expected == expected[..j];
    }
    return true;
  }

  // ----- Entries -----

  datatype CacheEntry = CacheEntry(
    status: nat,
    version: nat,
    headers: HeaderMap,
    body: Bytes,
    selector: Selector,
    requestedAt: int,
    receivedAt: int
  )

  const SECOND := 1_000_000_000

  function DateField(h: HeaderMap, name: string): Option<int> {
    match Get(h, name)
    case None => None
    case Some(value) =>
      if !AllVisible(value) then None
      else match HttpDate(value)
           case None => None
           case Some(seconds) => Some(seconds * SECOND)
  }

  function EffectiveDate(e: CacheEntry): int {
    match DateField(e.headers, "date")
    case Some(date) => date
    case None => e.receivedAt
  }

  /** `delta-seconds` of section 1.2.2 of RFC 9111: an overlong value saturates. */
  function DeltaSeconds(value: string): (r: Option<nat>)
    ensures r.Some? <==> value != "" && AllDigits(value)
    ensures r.Some? && Decimal(value) <= U64_MAX ==> r.value == Decimal(value)
    ensures r.Some? && Decimal(value) > U64_MAX ==> r.value == U64_MAX
  {
    if value == "" || !AllDigits(value) then None
    else Some(MinNat(Decimal(value), U64_MAX))
  }

  function AgeField(e: CacheEntry): Option<nat> {
    match Get(e.headers, "age")
    case None => None
    case Some(value) => if AllVisible(value) then DeltaSeconds(value) else None
  }

  /** Present but unreadable is the epoch, which is long past; only an absent field is `None`. */
  function ExpiresField(e: CacheEntry): Option<int> {
    if !Has(e.headers, "expires") then None
    else match DateField(e.headers, "expires")
         case Some(date) => Some(date)
         case None => Some(0)
  }

  // ----- Hop-by-hop fields -----

  const HOP_BY_HOP: seq<string> :=
    ["connection", "keep-alive", "proxy-authenticate", "proxy-authorization", "proxy-connection", "te", "trailer",
     "transfer-encoding", "upgrade"]

  predicate IsHopByHop(name: string) {
    name in HOP_BY_HOP
  }

  /** The fields named by the first `n` pieces of a `Connection` value. */
  function NamedByPieces(pieces: seq<string>, n: nat): set<string>
    requires n <= |pieces|
  {
    if n == 0 then {}
    else if NameOf(pieces[n - 1]).Some? then NamedByPieces(pieces, n - 1) + {NameOf(pieces[n - 1]).value}
    else NamedByPieces(pieces, n - 1)
  }

  function NamedIn(value: string): set<string> {
    if AllVisible(value) then NamedByPieces(Pieces(value), |Pieces(value)|) else {}
  }

  function NamedByValues(values: seq<string>, n: nat): set<string>
    requires n <= |values|
  {
    if n == 0 then {} else NamedByValues(values, n - 1) + NamedIn(values[n - 1])
  }

  function NamedByConnection(h: HeaderMap): set<string> {
    NamedByValues(GetAll(h, "connection"), |GetAll(h, "connection")|)
  }

  /** What must not be stored: the hop-by-hop fields, and whatever `Connection` names. */
  function HopFields(h: HeaderMap): set<string> {
    (set name | name in h.Keys && IsHopByHop(name)) + NamedByConnection(h)
  }

  function WithoutHopByHop(h: HeaderMap): HeaderMap {
    h - HopFields(h)
  }

  method CollectNamed(value: string) returns (named: set<string>)
    ensures named == NamedIn(value)
  {
    named := {};
    if !AllVisible(value) { return; }
    var pieces := Pieces(value);
    for i := 0 to |pieces|
      invariant named == NamedByPieces(pieces, i)
    {
      if NameOf(pieces[i]).Some? {
        named := named + {NameOf(pieces[i]).value};
      }
    }
  }

  method CollectHop(h: HeaderMap) returns (hop: set<string>)
    ensures hop == HopFields(h)
  {
    var values := GetAll(h, "connection");
    var named: set<string> := {};
    for i := 0 to |values|
      invariant named == NamedByValues(values, i)
    {
      var more := CollectNamed(values[i]);
      named := named + more;
    }
    hop := (set name | name in h.Keys && IsHopByHop(name)) + named;
  }

  method StripHopByHop(h: HeaderMap) returns (r: HeaderMap)
    ensures r == WithoutHopByHop(h)
  {
    var hop := CollectHop(h);
    r := h;
    var pending := hop;
    while pending != {}
      invariant pending <= hop && r == h - (hop - pending)
      decreases pending
    {
      var name :| name in pending;
      r := r - {name};
      pending := pending - {name};
    }
  }

  /** Stripping removes whole fields and changes none that stay. */
  lemma StrippedField(h: HeaderMap, name: string)
    ensures GetAll(WithoutHopByHop(h), name) == if name in HopFields(h) then [] else GetAll(h, name)
  {
  }

  // ----- Refreshing -----

  /** A field of a 304 that speaks of the stored response rather than of the 304 itself. */
  predicate Carries(notModified: HeaderMap, name: string) {
    Has(notModified, name) && !IsHopByHop(name) && name != "content-length"
  }

  function Merged(stored: HeaderMap, notModified: HeaderMap): HeaderMap {
    stored + (map name | name in notModified && Carries(notModified, name) :: notModified[name])
  }

  /** Section 4.3.4 of RFC 9111: the 304's fields replace the stored ones, and the age restarts. */
  function Refreshed(e: CacheEntry, notModified: HeaderMap, requestedAt: int, receivedAt: int): CacheEntry {
    e.(headers := Merged(e.headers, notModified), requestedAt := requestedAt, receivedAt := receivedAt)
  }

  /** What a merge does to one field. */
  lemma MergedField(stored: HeaderMap, notModified: HeaderMap, name: string)
    ensures GetAll(Merged(stored, notModified), name) ==
            if Carries(notModified, name) then GetAll(notModified, name) else GetAll(stored, name)
  {
  }

  /** `insert` for the first value, `append` for the rest. */
  method CopyField(headers: HeaderMap, name: string, values: seq<string>) returns (r: HeaderMap)
    ensures r == if values == [] then headers else headers[name := values]
  {
    r := headers;
    if values != [] {
      r := r[name := [values[0]]];
      assert values[..1] == [values[0]];
      for i := 1 to |values|
        invariant r == headers[name := values[..i]]
      {
        r := r[name := r[name] + [values[i]]];
        assert values[..i + 1] == values[..i] + [values[i]];
      }
      assert values[..|values|] == values;
    }
  }

  function CarriedBut(notModified: HeaderMap, pending: set<string>): HeaderMap {
    map name | name in notModified && name !in pending && Carries(notModified, name) :: notModified[name]
  }

  lemma CarryOne(notModified: HeaderMap, pending: set<string>, name: string)
    requires name in pending && name in notModified
    ensures CarriedBut(notModified, pending - {name}) ==
            var carried := CarriedBut(notModified, pending);
            if Carries(notModified, name) then carried[name := notModified[name]] else carried
  {
  }

  lemma CarriedAll(notModified: HeaderMap)
    ensures CarriedBut(notModified, {}) == map name | name in notModified && Carries(notModified, name) :: notModified[name]
  {
  }

  method Refresh(e: CacheEntry, notModified: HeaderMap, requestedAt: int, receivedAt: int) returns (r: CacheEntry)
    ensures r == Refreshed(e, notModified, requestedAt, receivedAt)
  {
    var headers := e.headers;
    var pending := notModified.Keys;
    while pending != {}
      invariant pending <= notModified.Keys && headers == e.headers + CarriedBut(notModified, pending)
      decreases pending
    {
      var name :| name in pending;
      CarryOne(notModified, pending, name);
      if !IsHopByHop(name) && name != "content-length" {
        headers := CopyField(headers, name, notModified[name]);
      }
      pending := pending - {name};
    }
    CarriedAll(notModified);
    r := CacheEntry(e.status, e.version, headers, e.body, e.selector, requestedAt, receivedAt);
  }

  // ----- Vary -----

  datatype Listing = Unselectable | Listed(names: seq<string>)

  /** Reading on from piece `i`: `*`, or a name that is no token, cannot be selected by. */
  function ListPieces(pieces: seq<string>, i: nat, sofar: seq<string>): Listing
    requires i <= |pieces|
    decreases |pieces| - i
  {
    if i == |pieces| then Listed(sofar)
    else if pieces[i] == "" then ListPieces(pieces, i + 1, sofar)
    else if pieces[i] == "*" || NameOf(pieces[i]).None? then Unselectable
    else ListPieces(pieces, i + 1, sofar + [NameOf(pieces[i]).value])
  }

  function ListValues(values: seq<string>, i: nat, sofar: seq<string>): Listing
    requires i <= |values|
    decreases |values| - i
  {
    if i == |values| then Listed(sofar)
    else if !AllVisible(values[i]) then Unselectable
    else match ListPieces(Pieces(values[i]), 0, sofar)
         case Unselectable => Unselectable
         case Listed(names) => ListValues(values, i + 1, names)
  }

  function InsertName(sorted: seq<string>, name: string): seq<string> {
    if sorted == [] then [name]
    else if name == sorted[0] then sorted
    else if StrLess(name, sorted[0]) then [name] + sorted
    else [sorted[0]] + InsertName(sorted[1..], name)
  }

  /** Sorted, and each name once. */
  function Tidied(names: seq<string>): seq<string> {
    if names == [] then [] else InsertName(Tidied(names[..|names| - 1]), names[|names| - 1])
  }

  /** The fields a response is selected by, or `None` when this cache cannot select by them. */
  function VaryNames(h: HeaderMap): Option<seq<string>> {
    match ListValues(GetAll(h, "vary"), 0, [])
    case Unselectable => None
    case Listed(names) => Some(Tidied(names))
  }

  method ListPiecesOf(pieces: seq<string>, sofar: seq<string>) returns (r: Listing)
    ensures r == ListPieces(pieces, 0, sofar)
  {
    var names := sofar;
    for i := 0 to |pieces|
      invariant ListPieces(pieces, 0, sofar) == ListPieces(pieces, i, names)
    {
      if pieces[i] != "" {
        if pieces[i] == "*" || NameOf(pieces[i]).None? { return Unselectable; }
        names := names + [NameOf(pieces[i]).value];
      }
    }
    return Listed(names);
  }

  method ReadVaryNames(h: HeaderMap) returns (r: Option<seq<string>>)
    ensures r == VaryNames(h)
  {
    var values := GetAll(h, "vary");
    var names: seq<string> := [];
    for i := 0 to |values|
      invariant ListValues(values, 0, []) == ListValues(values, i, names)
    {
      if !AllVisible(values[i]) { return None; }
      var listing := ListPiecesOf(Pieces(values[i]), names);
      if listing.Unselectable? { return None; }
      names := listing.names;
    }
    var sorted: seq<string> := [];
    for i := 0 to |names|
      invariant sorted == Tidied(names[..i])
    {
      assert names[..i + 1][..i] == names[..i];
      sorted := InsertName(sorted, names[i]);
    }
    assert names[..|names|] == names;
    return Some(sorted);
  }

  lemma {:induction false} InsertNameSorts(sorted: seq<string>, name: string)
    requires Ascending(StrLess, sorted)
    ensures Ascending(StrLess, InsertName(sorted, name))
    ensures forall x :: x in InsertName(sorted, name) <==> x == name || x in sorted
  {
    if sorted != [] {
      StrLessTotal(name, sorted[0]);
      var rest := sorted[1..];
      assert forall x :: x in sorted <==> x == sorted[0] || x in rest;
      if name != sorted[0] && StrLess(name, sorted[0]) {
        forall x | x in sorted ensures StrLess(name, x) {
          if x != sorted[0] { StrLessTransitive(name, sorted[0], x); }
        }
      } else if name != sorted[0] {
        InsertNameSorts(rest, name);
        var r := InsertName(rest, name);
        assert forall x :: x in r ==> StrLess(sorted[0], x);
      }
    }
  }

  /** The names come out in order, each once, and none is lost or invented. */
  lemma {:induction false} TidiedIsTheSameSet(names: seq<string>)
    ensures Ascending(StrLess, Tidied(names))
    ensures forall x :: x in Tidied(names) <==> x in names
  {
    if names != [] {
      var front, last := names[..|names| - 1], names[|names| - 1];
      TidiedIsTheSameSet(front);
      InsertNameSorts(Tidied(front), last);
      assert forall x :: x in names <==> x in front || x == last;
    }
  }

  /** Two field lists select alike exactly when they name the same fields: order and repetition are lost. */
  lemma TidiedIsCanonical(a: seq<string>, b: seq<string>)
    ensures Tidied(a) == Tidied(b) <==> forall x :: x in a <==> x in b
  {
    TidiedIsTheSameSet(a);
    TidiedIsTheSameSet(b);
    if forall x :: x in a <==> x in b {
      AscendingIsUnique(Tidied(a), Tidied(b));
    }
  }

  lemma {:induction false} AscendingIsUnique(a: seq<string>, b: seq<string>)
    requires Ascending(StrLess, a) && Ascending(StrLess, b)
    requires forall x :: x in a <==> x in b
    ensures a == b
    decreases |a|
  {
    assert a != [] ==> a[0] in a && a[0] in b;
    assert b != [] ==> b[0] in b && b[0] in a;
    if a != [] && b != [] {
      StrLessTotal(a[0], b[0]);
      assert a[0] == b[0];
      var a', b' := a[1..], b[1..];
      forall x ensures x in a' <==> x in b' {
        SortedTail(a, x);
        SortedTail(b, x);
      }
      AscendingIsUnique(a', b');
    }
  }

  lemma SortedTail(s: seq<string>, x: string)
    requires s != [] && Ascending(StrLess, s)
    ensures x in s[1..] <==> x in s && x != s[0]
  {
    forall y | y in s[1..] ensures y != s[0] {
      StrLessTotal(s[0], y);
    }
  }
}
