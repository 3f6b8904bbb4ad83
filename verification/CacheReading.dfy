/** What a cache reads in a message, said of the text: its `Cache-Control` directives and its `Vary` list. */
module CacheReading {
  import opened Options
  import opened Text
  import opened Headers
  import opened CacheEntries
  import opened CachePolicy
  import opened Folds
  import Lowest

  // ----- Cache-Control -----

  /** The pieces of every readable line, in order. */
  function Tokens(values: seq<string>): seq<string> {
    if values == [] then []
    else (if AllVisible(values[0]) then Pieces(values[0]) else []) + Tokens(values[1..])
  }

  function Directives(h: HeaderMap): seq<string> {
    Tokens(GetAll(h, "cache-control"))
  }

  /** What stands before the first `=`. */
  function Word(token: string): string {
    match Find(token, '=') case None => token case Some(i) => Trim(token[..i])
  }

  /** What stands after it. */
  function Argument(token: string): Option<string> {
    match Find(token, '=') case None => None case Some(i) => Some(Trim(token[i + 1..]))
  }

  predicate Names(token: string, name: string) {
    token != "" && ToLower(Word(token)) == name
  }

  predicate Lists(tokens: seq<string>, name: string) {
    exists i :: 0 <= i < |tokens| && Names(tokens[i], name)
  }

  /** A number of seconds, bare or between quotes; one too large counts as the largest. */
  function SecondsIn(text: string): Option<nat> {
    var bare := if |text| >= 2 && text[0] == '"' == text[|text| - 1] then text[1..|text| - 1] else text;
    if bare != "" && AllDigits(bare) then Some(if Decimal(bare) < U64_MAX then Decimal(bare) else U64_MAX) else None
  }

  /** The seconds a directive is given, if it is this one and they can be read. */
  function Given(token: string, name: string): Option<nat> {
    if Names(token, name) && Argument(token).Some? then SecondsIn(Argument(token).value) else None
  }

  function AllGiven(tokens: seq<string>, name: string): seq<Option<nat>> {
    seq(|tokens|, i requires 0 <= i < |tokens| => Given(tokens[i], name))
  }

  predicate LastOf(given: seq<Option<nat>>, n: nat) {
    exists i :: 0 <= i < |given| && given[i] == Some(n) && forall j :: i < j < |given| ==> given[j].None?
  }

  /** The last readable argument the directive is given. */
  predicate LastGiven(tokens: seq<string>, name: string, n: nat) {
    LastOf(AllGiven(tokens, name), n)
  }

  lemma {:induction false} LinesAreTokens(cc: CacheControl, values: seq<string>)
    ensures AbsorbLines(cc, values) == AbsorbTokens(cc, Tokens(values))
    decreases |values|
  {
    if values != [] {
      LinesAreTokens(AbsorbLine(cc, values[0]), values[1..]);
      FoldInTwo(AbsorbToken, cc, if AllVisible(values[0]) then Pieces(values[0]) else [], Tokens(values[1..]));
    }
  }

  lemma OneMoreToken(cc: CacheControl, tokens: seq<string>)
    requires tokens != []
    ensures var front, last := tokens[..|tokens| - 1], tokens[|tokens| - 1];
            AbsorbTokens(cc, tokens) == AbsorbToken(AbsorbTokens(cc, front), last)
  {
    var front, last := tokens[..|tokens| - 1], tokens[|tokens| - 1];
    assert tokens == front + [last];
    FoldInTwo(AbsorbToken, cc, front, [last]);
    FoldOne(AbsorbToken, AbsorbTokens(cc, front), last);
  }

  function Unquoted(token: string): Option<string> {
    match Argument(token) case None => None case Some(text) => Some(Unquote(text))
  }

  lemma TokenIsADirective(cc: CacheControl, token: string)
    ensures AbsorbToken(cc, token) == if token == "" then cc else Directive(cc, Word(token), Unquoted(token))
  {
  }

  lemma TokenSets(cc: CacheControl, token: string)
    ensures AbsorbToken(cc, token).noStore <==> cc.noStore || Names(token, "no-store")
    ensures AbsorbToken(cc, token).noCache <==> cc.noCache || Names(token, "no-cache")
    ensures AbsorbToken(cc, token).isPrivate <==> cc.isPrivate || Names(token, "private")
    ensures AbsorbToken(cc, token).isPublic <==> cc.isPublic || Names(token, "public")
    ensures AbsorbToken(cc, token).mustRevalidate <==> cc.mustRevalidate || Names(token, "must-revalidate")
    ensures AbsorbToken(cc, token).immutable <==> cc.immutable || Names(token, "immutable")
  {
    TokenIsADirective(cc, token);
  }

  lemma ReadableSeconds(token: string, known: Option<nat>)
    ensures Seconds(Unquoted(token), known) ==
            if Argument(token).Some? && SecondsIn(Argument(token).value).Some? then SecondsIn(Argument(token).value) else known
  {
  }

  lemma TokenGives(cc: CacheControl, token: string)
    ensures var given := Given(token, "max-age"); AbsorbToken(cc, token).maxAge == if given.Some? then given else cc.maxAge
    ensures var given := Given(token, "s-maxage"); AbsorbToken(cc, token).sMaxage == if given.Some? then given else cc.sMaxage
  {
    TokenIsADirective(cc, token);
    ReadableSeconds(token, cc.maxAge);
    ReadableSeconds(token, cc.sMaxage);
  }

  lemma ListsOneMore(tokens: seq<string>, name: string)
    requires tokens != []
    ensures Lists(tokens, name) <==> Lists(tokens[..|tokens| - 1], name) || Names(tokens[|tokens| - 1], name)
  {
  }

  lemma LastOfOneMore(given: seq<Option<nat>>, last: Option<nat>, n: nat)
    ensures LastOf(given + [last], n) <==> if last.Some? then last.value == n else LastOf(given, n)
  {
    var longer := given + [last];
    assert longer[|given|] == last;
    if LastOf(longer, n) {
      var i :| 0 <= i < |longer| && longer[i] == Some(n) && forall j :: i < j < |longer| ==> longer[j].None?;
      if last.None? {
        assert given[i] == Some(n);
        assert forall j :: i < j < |given| ==> given[j] == longer[j];
      }
    }
    if last.None? && LastOf(given, n) {
      var i :| 0 <= i < |given| && given[i] == Some(n) && forall j :: i < j < |given| ==> given[j].None?;
      assert longer[i] == Some(n);
    }
  }

  lemma LastGivenOneMore(tokens: seq<string>, name: string, n: nat)
    requires tokens != []
    ensures var front, given := tokens[..|tokens| - 1], Given(tokens[|tokens| - 1], name);
            LastGiven(tokens, name, n) <==> if given.Some? then given.value == n else LastGiven(front, name, n)
  {
    var front, last := tokens[..|tokens| - 1], tokens[|tokens| - 1];
    assert AllGiven(tokens, name) == AllGiven(front, name) + [Given(last, name)];
    LastOfOneMore(AllGiven(front, name), Given(last, name), n);
  }

  lemma {:induction false} TokensSet(tokens: seq<string>)
    ensures var cc := AbsorbTokens(NO_DIRECTIVES, tokens);
            && (cc.noStore <==> Lists(tokens, "no-store")) && (cc.noCache <==> Lists(tokens, "no-cache"))
            && (cc.isPrivate <==> Lists(tokens, "private")) && (cc.isPublic <==> Lists(tokens, "public"))
            && (cc.mustRevalidate <==> Lists(tokens, "must-revalidate")) && (cc.immutable <==> Lists(tokens, "immutable"))
    decreases |tokens|
  {
    if tokens != [] {
      var front, last := tokens[..|tokens| - 1], tokens[|tokens| - 1];
      TokensSet(front);
      OneMoreToken(NO_DIRECTIVES, tokens);
      TokenSets(AbsorbTokens(NO_DIRECTIVES, front), last);
      ListsOneMore(tokens, "no-store");
      ListsOneMore(tokens, "no-cache");
      ListsOneMore(tokens, "private");
      ListsOneMore(tokens, "public");
      ListsOneMore(tokens, "must-revalidate");
      ListsOneMore(tokens, "immutable");
    }
  }

  lemma {:induction false} TokensGive(tokens: seq<string>, n: nat)
    ensures AbsorbTokens(NO_DIRECTIVES, tokens).maxAge == Some(n) <==> LastGiven(tokens, "max-age", n)
    ensures AbsorbTokens(NO_DIRECTIVES, tokens).sMaxage == Some(n) <==> LastGiven(tokens, "s-maxage", n)
    decreases |tokens|
  {
    if tokens != [] {
      var front, last := tokens[..|tokens| - 1], tokens[|tokens| - 1];
      TokensGive(front, n);
      OneMoreToken(NO_DIRECTIVES, tokens);
      TokenGives(AbsorbTokens(NO_DIRECTIVES, front), last);
      LastGivenOneMore(tokens, "max-age", n);
      LastGivenOneMore(tokens, "s-maxage", n);
    }
  }

  /** A directive holds exactly when some readable line lists it; nothing later takes it back. */
  lemma DirectiveIffListed(h: HeaderMap)
    ensures ControlOf(h).noStore <==> Lists(Directives(h), "no-store")
    ensures ControlOf(h).noCache <==> Lists(Directives(h), "no-cache")
    ensures ControlOf(h).isPrivate <==> Lists(Directives(h), "private")
    ensures ControlOf(h).isPublic <==> Lists(Directives(h), "public")
    ensures ControlOf(h).mustRevalidate <==> Lists(Directives(h), "must-revalidate")
    ensures ControlOf(h).immutable <==> Lists(Directives(h), "immutable")
  {
    LinesAreTokens(NO_DIRECTIVES, GetAll(h, "cache-control"));
    TokensSet(Directives(h));
  }

  /** An age limit is the last one that can be read. */
  lemma SecondsAreTheLast(h: HeaderMap, n: nat)
    ensures ControlOf(h).maxAge == Some(n) <==> LastGiven(Directives(h), "max-age", n)
    ensures ControlOf(h).sMaxage == Some(n) <==> LastGiven(Directives(h), "s-maxage", n)
  {
    LinesAreTokens(NO_DIRECTIVES, GetAll(h, "cache-control"));
    TokensGive(Directives(h), n);
  }

  /** Two lines mean what their comma-joined value means. */
  lemma TwoLinesAreOne(cc: CacheControl, a: string, b: string)
    requires AllVisible(a) && AllVisible(b)
    ensures AllVisible(a + [','] + b)
    ensures AbsorbLines(cc, [a, b]) == AbsorbLines(cc, [a + [','] + b])
  {
    PiecesJoin(a, b);
    assert Tokens([a, b]) == Pieces(a) + Pieces(b) by { assert [a, b][1..] == [b] && [b][1..] == []; }
    assert Tokens([a + [','] + b]) == Pieces(a + [','] + b);
    LinesAreTokens(cc, [a, b]);
    LinesAreTokens(cc, [a + [','] + b]);
  }

  /** A line of `Pragma` that asks for the origin. */
  predicate PragmaAsks(value: string) {
    AllVisible(value) && exists piece :: piece in Pieces(value) && ToLower(piece) == "no-cache"
  }

  /** A request insists on the origin by `no-cache`, or by `Pragma` where it has no `Cache-Control`. */
  predicate Insists(request: HeaderMap) {
    || Lists(Directives(request), "no-cache")
    || (GetAll(request, "cache-control") == [] && exists value :: value in GetAll(request, "pragma") && PragmaAsks(value))
  }

  lemma PragmaIsRead(value: string)
    ensures AsksNoCache(value) <==> PragmaAsks(value)
  {
    assert ToLower("no-cache") == "no-cache";
  }

  lemma InsistsIff(request: HeaderMap)
    ensures ControlOfRequest(request).noCache <==> Insists(request)
    ensures ControlOfRequest(request).noStore <==> Lists(Directives(request), "no-store")
    ensures ControlOfRequest(request).maxAge == ControlOf(request).maxAge
  {
    DirectiveIffListed(request);
    var pragma := GetAll(request, "pragma");
    forall value | value in pragma ensures AsksNoCache(value) <==> PragmaAsks(value) {
      PragmaIsRead(value);
    }
    assert (exists i :: 0 <= i < |pragma| && AsksNoCache(pragma[i])) <==> exists value :: value in pragma && PragmaAsks(value);
  }

  // ----- Connection -----

  /** Some readable `Connection` line has a piece that is the field's name. */
  predicate NamedByLine(values: seq<string>, name: string) {
    exists i :: 0 <= i < |values| && LineHas(values[i], name)
  }

  predicate LineHas(value: string, name: string) {
    AllVisible(value) && exists piece :: piece in Pieces(value) && NameOf(piece) == Some(name)
  }

  lemma {:induction false} PiecesNamed(pieces: seq<string>, n: nat, name: string)
    requires n <= |pieces|
    ensures name in NamedByPieces(pieces, n) <==> exists k :: 0 <= k < n && NameOf(pieces[k]) == Some(name)
  {
    if n > 0 { PiecesNamed(pieces, n - 1, name); }
  }

  lemma LineNames(value: string, name: string)
    ensures name in NamedIn(value) <==> LineHas(value, name)
  {
    PiecesNamed(Pieces(value), |Pieces(value)|, name);
  }

  lemma {:induction false} LinesName(values: seq<string>, n: nat, name: string)
    requires n <= |values|
    ensures name in NamedByValues(values, n) <==> NamedByLine(values[..n], name)
  {
    if n > 0 {
      LinesName(values, n - 1, name);
      LineNames(values[n - 1], name);
      OneMoreLine(values[..n - 1], values[n - 1], name);
      assert values[..n] == values[..n - 1] + [values[n - 1]];
    }
  }

  lemma OneMoreLine(values: seq<string>, value: string, name: string)
    ensures NamedByLine(values + [value], name) <==> NamedByLine(values, name) || LineHas(value, name)
  {
    var longer := values + [value];
    if NamedByLine(values, name) {
      var i :| 0 <= i < |values| && LineHas(values[i], name);
      assert longer[i] == values[i];
    }
    assert longer[|values|] == value;
  }

  /** What is stripped: the nine fixed hop-by-hop fields, and those a `Connection` line names. */
  lemma StrippedIff(h: HeaderMap, name: string)
    ensures GetAll(WithoutHopByHop(h), name) ==
            if name in {"connection", "keep-alive", "proxy-authenticate", "proxy-authorization", "proxy-connection",
                        "te", "trailer", "transfer-encoding", "upgrade"} || NamedByLine(GetAll(h, "connection"), name)
            then [] else GetAll(h, name)
  {
    var values := GetAll(h, "connection");
    LinesName(values, |values|, name);
    assert values[..|values|] == values;
  }

  // ----- Content-Length -----

  /** A length is visible text that is, between blanks, digits after at most one plus sign. */
  lemma LengthIff(value: string, n: nat)
    ensures DeclaredLength(value) == Some(n) <==>
            && AllVisible(value) && n <= U64_MAX
            && (var text := Trim(value);
                var digits := if text != "" && text[0] == '+' then text[1..] else text;
                digits != "" && AllDigits(digits) && Decimal(digits) == n)
  {
  }

  /** A length is read whatever blanks stand around it. */
  lemma LengthIsRead(before: string, n: nat, after: string)
    requires AllWhite(before) && AllVisible(before) && AllWhite(after) && AllVisible(after) && n <= U64_MAX
    ensures DeclaredLength(before + ToText(n) + after) == Some(n)
  {
    ToTextReadsBack(n);
    TrimsTo(before, ToText(n), after);
  }

  // ----- Vary -----

  predicate PieceSelects(piece: string) {
    piece == "" || (piece != "*" && NameOf(piece).Some?)
  }

  /** A `Vary` this cache can select by: readable, with no `*`, and made of field names. */
  predicate Selectable(values: seq<string>) {
    forall i :: 0 <= i < |values| ==> AllVisible(values[i]) && forall piece :: piece in Pieces(values[i]) ==> PieceSelects(piece)
  }

  /** Some piece of some value is the name. */
  predicate VariesOn(values: seq<string>, name: string) {
    exists i :: 0 <= i < |values| && exists piece :: piece in Pieces(values[i]) && piece != "" && NameOf(piece) == Some(name)
  }

  lemma {:induction false} PiecesListed(pieces: seq<string>, i: nat, sofar: seq<string>)
    requires i <= |pieces|
    ensures ListPieces(pieces, i, sofar).Listed? <==> forall k :: i <= k < |pieces| ==> PieceSelects(pieces[k])
    ensures var r := ListPieces(pieces, i, sofar);
            r.Listed? ==> forall name :: name in r.names <==>
                            name in sofar || exists k :: i <= k < |pieces| && pieces[k] != "" && NameOf(pieces[k]) == Some(name)
    decreases |pieces| - i
  {
    if i < |pieces| && PieceSelects(pieces[i]) {
      PiecesListed(pieces, i + 1, if pieces[i] == "" then sofar else sofar + [NameOf(pieces[i]).value]);
    }
  }

  lemma FirstValue(value: string, rest: seq<string>)
    ensures Selectable([value] + rest) <==>
            AllVisible(value) && Selectable(rest) && forall piece :: piece in Pieces(value) ==> PieceSelects(piece)
    ensures forall name :: VariesOn([value] + rest, name) <==>
                           VariesOn(rest, name) || exists piece :: piece in Pieces(value) && piece != "" && NameOf(piece) == Some(name)
  {
    var values := [value] + rest;
    assert values[0] == value && forall i :: 0 <= i < |rest| ==> values[i + 1] == rest[i];
    forall name ensures VariesOn(values, name) <==>
                        VariesOn(rest, name) || exists piece :: piece in Pieces(value) && piece != "" && NameOf(piece) == Some(name) {
      if VariesOn(values, name) {
        var i :| 0 <= i < |values| && exists piece :: piece in Pieces(values[i]) && piece != "" && NameOf(piece) == Some(name);
        assert i > 0 ==> rest[i - 1] == values[i];
      }
    }
  }

  lemma {:induction false} ValuesListed(values: seq<string>, i: nat, sofar: seq<string>)
    requires i <= |values|
    ensures ListValues(values, i, sofar).Listed? <==> Selectable(values[i..])
    ensures var r := ListValues(values, i, sofar);
            r.Listed? ==> forall name :: name in r.names <==> name in sofar || VariesOn(values[i..], name)
    decreases |values| - i
  {
    if i < |values| {
      var pieces, rest := Pieces(values[i]), values[i + 1..];
      PiecesListed(pieces, 0, sofar);
      assert values[i..] == [values[i]] + rest;
      FirstValue(values[i], rest);
      var listing := ListPieces(pieces, 0, sofar);
      if AllVisible(values[i]) && listing.Listed? {
        ValuesListed(values, i + 1, listing.names);
      }
    }
  }

  /** The fields a response is selected by are those its `Vary` names, whenever it names only fields. */
  lemma VaryIsRead(h: HeaderMap)
    ensures VaryNames(h).Some? <==> Selectable(GetAll(h, "vary"))
    ensures VaryNames(h).Some? ==> forall name :: name in VaryNames(h).value <==> VariesOn(GetAll(h, "vary"), name)
  {
    var values := GetAll(h, "vary");
    ValuesListed(values, 0, []);
    assert values[0..] == values;
    var listing := ListValues(values, 0, []);
    if listing.Listed? { TidiedIsTheSameSet(listing.names); }
  }

  /** Two lists select alike exactly when they name the same fields. */
  lemma VaryAgreesIff(a: HeaderMap, b: HeaderMap)
    requires Selectable(GetAll(a, "vary")) && Selectable(GetAll(b, "vary"))
    ensures VaryNames(a) == VaryNames(b) <==>
            forall name :: VariesOn(GetAll(a, "vary"), name) <==> VariesOn(GetAll(b, "vary"), name)
  {
    VaryIsRead(a);
    VaryIsRead(b);
    VaryIsAscending(a);
    VaryIsAscending(b);
    if forall name :: VariesOn(GetAll(a, "vary"), name) <==> VariesOn(GetAll(b, "vary"), name) {
      AscendingIsUnique(VaryNames(a).value, VaryNames(b).value);
    }
  }

  lemma VaryIsAscending(h: HeaderMap)
    ensures VaryNames(h).Some? ==> Lowest.Ascending(StrLess, VaryNames(h).value)
  {
    var listing := ListValues(GetAll(h, "vary"), 0, []);
    if listing.Listed? { TidiedIsTheSameSet(listing.names); }
  }
}
