/** Reading `Content-Encoding`, and the decoder stages it calls for (section 8.4 of RFC 9110). */
module ContentCodings {
  import opened Options
  import opened Text
  import opened Headers

  datatype Coding = Gzip | Deflate | Brotli | Zstd | Identity

  datatype DecodeError = Unreadable | TooManyCodings(limit: nat) | UnknownCoding(token: string)

  const MAX_CONTENT_CODINGS: nat := 8

  function ParseCoding(token: string): Option<Coding> {
    var t := Trim(token);
    if EqIgnoreCase(t, "gzip") || EqIgnoreCase(t, "x-gzip") then Some(Gzip)
    else if EqIgnoreCase(t, "deflate") then Some(Deflate)
    else if EqIgnoreCase(t, "br") then Some(Brotli)
    else if EqIgnoreCase(t, "zstd") then Some(Zstd)
    else if EqIgnoreCase(t, "identity") then Some(Identity)
    else None
  }

  function NamesOf(coding: Coding): set<string> {
    match coding
    case Gzip => {"gzip", "x-gzip"}
    case Deflate => {"deflate"}
    case Brotli => {"br"}
    case Zstd => {"zstd"}
    case Identity => {"identity"}
  }

  lemma NamesAreLower(name: string)
    requires name in {"gzip", "x-gzip", "deflate", "br", "zstd", "identity"}
    ensures ToLower(name) == name
  {
  }

  lemma NamesAreApart(token: string)
    ensures var t := ToLower(Trim(token));
            ParseCoding(token) ==
            if t == "gzip" || t == "x-gzip" then Some(Gzip) else if t == "deflate" then Some(Deflate)
            else if t == "br" then Some(Brotli) else if t == "zstd" then Some(Zstd)
            else if t == "identity" then Some(Identity) else None
  {
    NamesAreLower("gzip");
    NamesAreLower("x-gzip");
    NamesAreLower("deflate");
    NamesAreLower("br");
    NamesAreLower("zstd");
    NamesAreLower("identity");
  }

  /** A token means a coding exactly when, trimmed and in any case, it is one of that coding's names. */
  lemma NamedIff(token: string, coding: Coding)
    ensures ParseCoding(token) == Some(coding) <==> ToLower(Trim(token)) in NamesOf(coding)
  {
    NamesAreApart(token);
  }

  // ----- Reading the header -----

  type Parser = string -> Option<Coding>

  /** Reading on from piece `i`; the cap is looked at before the token. */
  function ReadPieces(parse: Parser, pieces: seq<string>, i: nat, sofar: seq<Coding>): Result<seq<Coding>, DecodeError>
    requires i <= |pieces|
    decreases |pieces| - i
  {
    if i == |pieces| then Ok(sofar)
    else if pieces[i] == "" then ReadPieces(parse, pieces, i + 1, sofar)
    else if |sofar| == MAX_CONTENT_CODINGS then Err(TooManyCodings(MAX_CONTENT_CODINGS))
    else
      match parse(pieces[i])
      case None => Err(UnknownCoding(pieces[i]))
      case Some(coding) => ReadPieces(parse, pieces, i + 1, sofar + [coding])
  }

  function ReadValues(parse: Parser, values: seq<string>, i: nat, sofar: seq<Coding>): Result<seq<Coding>, DecodeError>
    requires i <= |values|
    decreases |values| - i
  {
    if i == |values| then Ok(sofar)
    else if !AllVisible(values[i]) then Err(Unreadable)
    else
      match ReadPieces(parse, Pieces(values[i]), 0, sofar)
      case Err(error) => Err(error)
      case Ok(codings) => ReadValues(parse, values, i + 1, codings)
  }

  method ReadPiecesOf(parse: Parser, pieces: seq<string>, sofar: seq<Coding>)
    returns (r: Result<seq<Coding>, DecodeError>)
    ensures r == ReadPieces(parse, pieces, 0, sofar)
  {
    var codings := sofar;
    for i := 0 to |pieces|
      invariant ReadPieces(parse, pieces, 0, sofar) == ReadPieces(parse, pieces, i, codings)
    {
      if pieces[i] == "" { continue; }
      if |codings| == MAX_CONTENT_CODINGS { return Err(TooManyCodings(MAX_CONTENT_CODINGS)); }
      var coding := parse(pieces[i]);
      if coding.None? { return Err(UnknownCoding(pieces[i])); }
      codings := codings + [coding.value];
    }
    return Ok(codings);
  }

  method ParseContentEncoding(parse: Parser, values: seq<string>) returns (r: Result<seq<Coding>, DecodeError>)
    ensures r == ReadValues(parse, values, 0, [])
  {
    var codings: seq<Coding> := [];
    for i := 0 to |values|
      invariant ReadValues(parse, values, 0, []) == ReadValues(parse, values, i, codings)
    {
      if !AllVisible(values[i]) { return Err(Unreadable); }
      var more := ReadPiecesOf(parse, Pieces(values[i]), codings);
      if more.Err? { return Err(more.error); }
      codings := more.value;
    }
    return Ok(codings);
  }

  /** Every token the header lines hold, in order, from line `i` on. */
  function TokensFrom(values: seq<string>, i: nat): seq<string>
    requires i <= |values|
    decreases |values| - i
  {
    if i == |values| then [] else NonEmpty(Pieces(values[i])) + TokensFrom(values, i + 1)
  }

  predicate AllKnown(parse: Parser, tokens: seq<string>) {
    forall i :: 0 <= i < |tokens| ==> parse(tokens[i]).Some?
  }

  function CodingsOf(parse: Parser, tokens: seq<string>): (r: seq<Coding>)
    requires AllKnown(parse, tokens)
    ensures |r| == |tokens| && forall i :: 0 <= i < |tokens| ==> Some(r[i]) == parse(tokens[i])
  {
    seq(|tokens|, i requires 0 <= i < |tokens| => parse(tokens[i]).value)
  }

  predicate AllReadable(values: seq<string>, i: nat) {
    forall k :: i <= k < |values| ==> AllVisible(values[k])
  }

  /** The answer reading these tokens should give: all of them, if they are known and fit under the cap. */
  predicate Answers(parse: Parser, sofar: seq<Coding>, tokens: seq<string>, r: Result<seq<Coding>, DecodeError>) {
    && (r.Ok? <==> AllKnown(parse, tokens) && |sofar| + |tokens| <= MAX_CONTENT_CODINGS)
    && (r.Ok? ==> r.value == sofar + CodingsOf(parse, tokens))
  }

  lemma KnownInTwo(parse: Parser, a: seq<string>, b: seq<string>)
    ensures AllKnown(parse, a + b) <==> AllKnown(parse, a) && AllKnown(parse, b)
  {
    var all := a + b;
    assert (forall i :: 0 <= i < |a| ==> all[i] == a[i]) && forall i :: 0 <= i < |b| ==> all[|a| + i] == b[i];
  }

  lemma CodingsInTwo(parse: Parser, a: seq<string>, b: seq<string>)
    requires AllKnown(parse, a) && AllKnown(parse, b) && AllKnown(parse, a + b)
    ensures CodingsOf(parse, a + b) == CodingsOf(parse, a) + CodingsOf(parse, b)
  {
  }

  lemma Reassociated(a: seq<Coding>, b: seq<Coding>, c: seq<Coding>)
    ensures a + b + c == a + (b + c)
  {
  }

  /** Reading on from where a first reading stopped answers for the tokens of both. */
  lemma AnswersInTwo(parse: Parser, sofar: seq<Coding>, a: seq<string>, b: seq<string>,
                     first: Result<seq<Coding>, DecodeError>, second: Result<seq<Coding>, DecodeError>)
    requires Answers(parse, sofar, a, first)
    requires first.Ok? ==> Answers(parse, first.value, b, second)
    requires first.Err? ==> second.Err?
    ensures Answers(parse, sofar, a + b, second)
  {
    KnownInTwo(parse, a, b);
    if second.Ok? {
      CodingsInTwo(parse, a, b);
      Reassociated(sofar, CodingsOf(parse, a), CodingsOf(parse, b));
    }
  }

  lemma OneTokenAnswers(parse: Parser, sofar: seq<Coding>, token: string)
    requires |sofar| < MAX_CONTENT_CODINGS && parse(token).Some?
    ensures Answers(parse, sofar, [token], Ok(sofar + [parse(token).value]))
  {
  }

  /** A run of pieces gives the answer for its tokens. */
  lemma {:induction false} PiecesAnswer(parse: Parser, pieces: seq<string>, i: nat, sofar: seq<Coding>)
    requires i <= |pieces| && |sofar| <= MAX_CONTENT_CODINGS
    ensures Answers(parse, sofar, NonEmpty(pieces[i..]), ReadPieces(parse, pieces, i, sofar))
    decreases |pieces| - i
  {
    if i < |pieces| {
      assert pieces[i..][1..] == pieces[i + 1..] && pieces[i..][0] == pieces[i];
      var rest := NonEmpty(pieces[i + 1..]);
      if pieces[i] == "" {
        PiecesAnswer(parse, pieces, i + 1, sofar);
      } else if |sofar| < MAX_CONTENT_CODINGS && parse(pieces[i]).Some? {
        var next := sofar + [parse(pieces[i]).value];
        OneTokenAnswers(parse, sofar, pieces[i]);
        PiecesAnswer(parse, pieces, i + 1, next);
        AnswersInTwo(parse, sofar, [pieces[i]], rest, Ok(next), ReadPieces(parse, pieces, i + 1, next));
      } else {
        KnownInTwo(parse, [pieces[i]], rest);
        assert [pieces[i]][0] == pieces[i];
      }
    }
  }

  lemma LineAnswers(parse: Parser, pieces: seq<string>, sofar: seq<Coding>)
    requires |sofar| <= MAX_CONTENT_CODINGS
    ensures Answers(parse, sofar, NonEmpty(pieces), ReadPieces(parse, pieces, 0, sofar))
  {
    PiecesAnswer(parse, pieces, 0, sofar);
    assert pieces[0..] == pieces;
  }

  lemma {:induction false} ReadableLinesAnswer(parse: Parser, values: seq<string>, i: nat, sofar: seq<Coding>)
    requires i <= |values| && |sofar| <= MAX_CONTENT_CODINGS && AllReadable(values, i)
    ensures Answers(parse, sofar, TokensFrom(values, i), ReadValues(parse, values, i, sofar))
    decreases |values| - i
  {
    if i < |values| {
      var here := ReadPieces(parse, Pieces(values[i]), 0, sofar);
      LineAnswers(parse, Pieces(values[i]), sofar);
      if here.Ok? {
        ReadableLinesAnswer(parse, values, i + 1, here.value);
      }
      AnswersInTwo(parse, sofar, NonEmpty(Pieces(values[i])), TokensFrom(values, i + 1), here,
                   ReadValues(parse, values, i, sofar));
    }
  }

  lemma {:induction false} UnreadableLineRefuses(parse: Parser, values: seq<string>, i: nat, sofar: seq<Coding>)
    requires i <= |values| && !AllReadable(values, i)
    ensures ReadValues(parse, values, i, sofar).Err?
    decreases |values| - i
  {
    if i < |values| && AllVisible(values[i]) && ReadPieces(parse, Pieces(values[i]), 0, sofar).Ok? {
      UnreadableLineRefuses(parse, values, i + 1, ReadPieces(parse, Pieces(values[i]), 0, sofar).value);
    }
  }

  /**
   A header is accepted exactly when every line can be read, every token is known, and there are at
   most eight in all, however they are spread over lines; and then it means its tokens, in order.
   */
  lemma AcceptedIff(parse: Parser, values: seq<string>)
    ensures var tokens, r := TokensFrom(values, 0), ReadValues(parse, values, 0, []);
            && (r.Ok? <==> AllReadable(values, 0) && AllKnown(parse, tokens) && |tokens| <= 8)
            && (r.Ok? ==> r.value == CodingsOf(parse, tokens))
  {
    if AllReadable(values, 0) {
      ReadableLinesAnswer(parse, values, 0, []);
    } else {
      UnreadableLineRefuses(parse, values, 0, []);
    }
  }

  /** What an error says: the first thing in the way is a token that is unknown, a ninth one, or a line. */
  predicate InTheWay(parse: Parser, sofar: nat, tokens: seq<string>, error: DecodeError) {
    match error
    case UnknownCoding(token) =>
      exists k :: 0 <= k < |tokens| && tokens[k] == token && parse(token).None? && sofar + k < MAX_CONTENT_CODINGS
                  && AllKnown(parse, tokens[..k])
    case TooManyCodings(limit) =>
      && limit == MAX_CONTENT_CODINGS && 0 <= MAX_CONTENT_CODINGS - sofar < |tokens|
      && AllKnown(parse, tokens[..MAX_CONTENT_CODINGS - sofar])
    case Unreadable => false
  }

  lemma KnownBefore(parse: Parser, sofar: nat, front: seq<string>, tokens: seq<string>, error: DecodeError)
    requires AllKnown(parse, front) && sofar + |front| <= MAX_CONTENT_CODINGS && InTheWay(parse, sofar + |front|, tokens, error)
    ensures InTheWay(parse, sofar, front + tokens, error)
  {
    var longer, n := front + tokens, |front|;
    match error {
      case UnknownCoding(token) =>
        var k :| 0 <= k < |tokens| && tokens[k] == token && parse(token).None? && sofar + n + k < MAX_CONTENT_CODINGS
                 && AllKnown(parse, tokens[..k]);
        assert longer[n + k] == token && longer[..n + k] == front + tokens[..k];
      case TooManyCodings(_) =>
        var k := MAX_CONTENT_CODINGS - sofar - n;
        assert longer[..n + k] == front + tokens[..k];
    }
  }

  lemma MoreAfter(parse: Parser, sofar: nat, tokens: seq<string>, rest: seq<string>, error: DecodeError)
    requires InTheWay(parse, sofar, tokens, error)
    ensures InTheWay(parse, sofar, tokens + rest, error)
  {
    var longer := tokens + rest;
    match error {
      case UnknownCoding(token) =>
        var k :| 0 <= k < |tokens| && tokens[k] == token && parse(token).None? && sofar + k < MAX_CONTENT_CODINGS
                 && AllKnown(parse, tokens[..k]);
        assert longer[k] == token && longer[..k] == tokens[..k];
      case TooManyCodings(_) =>
        var k := MAX_CONTENT_CODINGS - sofar;
        assert longer[..k] == tokens[..k];
    }
  }

  lemma FirstIsInTheWay(parse: Parser, sofar: nat, tokens: seq<string>)
    requires tokens != [] && sofar <= MAX_CONTENT_CODINGS
    ensures sofar == MAX_CONTENT_CODINGS ==> InTheWay(parse, sofar, tokens, TooManyCodings(MAX_CONTENT_CODINGS))
    ensures sofar < MAX_CONTENT_CODINGS && parse(tokens[0]).None? ==> InTheWay(parse, sofar, tokens, UnknownCoding(tokens[0]))
  {
    assert tokens[..0] == [];
  }

  lemma {:induction false} PiecesRefuse(parse: Parser, pieces: seq<string>, i: nat, sofar: seq<Coding>)
    requires i <= |pieces| && |sofar| <= MAX_CONTENT_CODINGS
    ensures var r := ReadPieces(parse, pieces, i, sofar);
            r.Err? ==> InTheWay(parse, |sofar|, NonEmpty(pieces[i..]), r.error)
    decreases |pieces| - i
  {
    if i < |pieces| {
      var tokens := NonEmpty(pieces[i + 1..]);
      assert pieces[i..][1..] == pieces[i + 1..];
      if pieces[i] == "" {
        PiecesRefuse(parse, pieces, i + 1, sofar);
      } else {
        assert NonEmpty(pieces[i..]) == [pieces[i]] + tokens;
        FirstIsInTheWay(parse, |sofar|, [pieces[i]] + tokens);
        if |sofar| < MAX_CONTENT_CODINGS && parse(pieces[i]).Some? {
          PiecesRefuse(parse, pieces, i + 1, sofar + [parse(pieces[i]).value]);
          var r := ReadPieces(parse, pieces, i, sofar);
          if r.Err? { KnownBefore(parse, |sofar|, [pieces[i]], tokens, r.error); }
        }
      }
    }
  }

  /** Reading stops at a line that cannot be read, every line before it having been. */
  predicate StopsAt(parse: Parser, values: seq<string>, i: nat, k: nat) {
    && i <= k < |values| && !AllVisible(values[k])
    && forall j :: i <= j < k ==> AllVisible(values[j]) && AllKnown(parse, NonEmpty(Pieces(values[j])))
  }

  lemma LineRefuses(parse: Parser, value: string, sofar: seq<Coding>)
    requires |sofar| <= MAX_CONTENT_CODINGS
    ensures var r, tokens := ReadPieces(parse, Pieces(value), 0, sofar), NonEmpty(Pieces(value));
            && (r.Err? ==> InTheWay(parse, |sofar|, tokens, r.error))
            && (r.Ok? ==> AllKnown(parse, tokens) && |r.value| == |sofar| + |tokens| <= MAX_CONTENT_CODINGS)
  {
    var pieces := Pieces(value);
    PiecesRefuse(parse, pieces, 0, sofar);
    assert pieces[0..] == pieces;
    LineAnswers(parse, pieces, sofar);
  }

  lemma {:induction false} LinesStop(parse: Parser, values: seq<string>, i: nat, sofar: seq<Coding>)
    requires i <= |values| && |sofar| <= MAX_CONTENT_CODINGS
    ensures ReadValues(parse, values, i, sofar) == Err(Unreadable) ==> exists k :: StopsAt(parse, values, i, k)
    decreases |values| - i
  {
    if i < |values| && ReadValues(parse, values, i, sofar) == Err(Unreadable) {
      if AllVisible(values[i]) {
        var line := ReadPieces(parse, Pieces(values[i]), 0, sofar);
        LineRefuses(parse, values[i], sofar);
        PiecesAreReadable(parse, Pieces(values[i]), 0, sofar);
        LinesStop(parse, values, i + 1, line.value);
        var k :| StopsAt(parse, values, i + 1, k);
        assert StopsAt(parse, values, i, k);
      } else {
        assert StopsAt(parse, values, i, i);
      }
    }
  }

  lemma {:induction false} PiecesAreReadable(parse: Parser, pieces: seq<string>, i: nat, sofar: seq<Coding>)
    requires i <= |pieces|
    ensures ReadPieces(parse, pieces, i, sofar) != Err(Unreadable)
    decreases |pieces| - i
  {
    if i < |pieces| {
      if pieces[i] == "" {
        PiecesAreReadable(parse, pieces, i + 1, sofar);
      } else if parse(pieces[i]).Some? {
        PiecesAreReadable(parse, pieces, i + 1, sofar + [parse(pieces[i]).value]);
      }
    }
  }

  lemma {:induction false} LinesRefuse(parse: Parser, values: seq<string>, i: nat, sofar: seq<Coding>)
    requires i <= |values| && |sofar| <= MAX_CONTENT_CODINGS
    ensures var r := ReadValues(parse, values, i, sofar);
            r.Err? && !r.error.Unreadable? ==> InTheWay(parse, |sofar|, TokensFrom(values, i), r.error)
    decreases |values| - i
  {
    if i < |values| && AllVisible(values[i]) {
      var tokens, rest := NonEmpty(Pieces(values[i])), TokensFrom(values, i + 1);
      var line, r := ReadPieces(parse, Pieces(values[i]), 0, sofar), ReadValues(parse, values, i, sofar);
      LineRefuses(parse, values[i], sofar);
      if line.Err? {
        MoreAfter(parse, |sofar|, tokens, rest, line.error);
      } else {
        LinesRefuse(parse, values, i + 1, line.value);
        if r.Err? && !r.error.Unreadable? { KnownBefore(parse, |sofar|, tokens, rest, r.error); }
      }
    }
  }

  /** A header is refused for the first thing in the way. */
  lemma RefusedFor(parse: Parser, values: seq<string>)
    ensures var r := ReadValues(parse, values, 0, []);
            r.Err? ==> if r.error.Unreadable? then exists k :: StopsAt(parse, values, 0, k)
                       else InTheWay(parse, 0, TokensFrom(values, 0), r.error)
  {
    LinesRefuse(parse, values, 0, []);
    LinesStop(parse, values, 0, []);
  }

  // ----- Stages -----

  /** One decoder of the chain, and whether its input is what arrived on the wire. */
  datatype Layer = Layer(coding: Coding, counts: bool)

  /** The codings to undo, the last applied first. */
  function ToUndo(codings: seq<Coding>): seq<Coding> {
    if codings == [] then []
    else
      var last, front := codings[|codings| - 1], codings[..|codings| - 1];
      if last == Identity then ToUndo(front) else [last] + ToUndo(front)
  }

  function LayersFor(undo: seq<Coding>): (r: seq<Layer>)
    ensures |r| == |undo|
    ensures forall i :: 0 <= i < |undo| ==> r[i] == Layer(undo[i], i == 0)
  {
    seq(|undo|, i requires 0 <= i < |undo| => Layer(undo[i], i == 0))
  }

  lemma UndoOneMore(codings: seq<Coding>, i: nat)
    requires i < |codings|
    ensures ToUndo(codings[..i + 1]) == if codings[i] == Identity then ToUndo(codings[..i]) else [codings[i]] + ToUndo(codings[..i])
  {
    assert codings[..i + 1][..i] == codings[..i];
  }

  lemma LayersOneMore(undone: seq<Coding>, coding: Coding)
    ensures LayersFor(undone + [coding]) == LayersFor(undone) + [Layer(coding, undone == [])]
  {
  }

  /** Walks the codings backwards; identity builds no stage, so the next real coding still reads the wire. */
  method BuildLayers(codings: seq<Coding>) returns (layers: seq<Layer>)
    ensures layers == LayersFor(ToUndo(codings))
  {
    layers := [];
    var readsTheWire := true;
    var i := |codings|;
    ghost var undone: seq<Coding> := [];
    assert codings[..|codings|] == codings;
    while i > 0
      invariant 0 <= i <= |codings|
      invariant undone + ToUndo(codings[..i]) == ToUndo(codings)
      invariant layers == LayersFor(undone) && readsTheWire == (undone == [])
    {
      i := i - 1;
      UndoOneMore(codings, i);
      if codings[i] != Identity {
        LayersOneMore(undone, codings[i]);
        Reassociated(undone, [codings[i]], ToUndo(codings[..i]));
        layers := layers + [Layer(codings[i], readsTheWire)];
        readsTheWire := false;
        undone := undone + [codings[i]];
      }
    }
    assert undone + [] == undone;
  }

  /** The codings that are not identity, in the order they were applied. */
  function Real(codings: seq<Coding>): seq<Coding> {
    if codings == [] then []
    else
      var front, last := Real(codings[..|codings| - 1]), codings[|codings| - 1];
      if last == Identity then front else front + [last]
  }

  function Reversed(codings: seq<Coding>): (r: seq<Coding>)
    ensures |r| == |codings| && forall i :: 0 <= i < |r| ==> r[i] == codings[|codings| - 1 - i]
  {
    seq(|codings|, i requires 0 <= i < |codings| => codings[|codings| - 1 - i])
  }

  /** The stages undo the real codings, each once, in the reverse of the order they were applied. */
  lemma {:induction false} StagesReverseTheCodings(codings: seq<Coding>)
    ensures ToUndo(codings) == Reversed(Real(codings))
    decreases |codings|
  {
    if codings != [] {
      StagesReverseTheCodings(codings[..|codings| - 1]);
    }
  }

  lemma {:induction false} UndoIsReal(codings: seq<Coding>)
    ensures |ToUndo(codings)| <= |codings| && Identity !in ToUndo(codings)
  {
    if codings != [] { UndoIsReal(codings[..|codings| - 1]); }
  }

  /** The one stage that counts wire bytes undoes the last coding that is not identity. */
  lemma {:induction false} OnlyTheLastCodingCounts(codings: seq<Coding>) returns (k: nat)
    requires LayersFor(ToUndo(codings)) != []
    ensures k < |codings| && codings[k] == LayersFor(ToUndo(codings))[0].coding != Identity
    ensures forall j :: k < j < |codings| ==> codings[j] == Identity
    ensures forall i :: 0 <= i < |ToUndo(codings)| ==> (LayersFor(ToUndo(codings))[i].counts <==> i == 0)
    ensures |ToUndo(codings)| <= |codings| && Identity !in ToUndo(codings)
    decreases |codings|
  {
    var last, front := codings[|codings| - 1], codings[..|codings| - 1];
    UndoIsReal(front);
    if last != Identity {
      k := |codings| - 1;
    } else {
      k := OnlyTheLastCodingCounts(front);
    }
  }

  datatype Plan = Plan(headers: HeaderMap, layers: seq<Layer>)

  function PlanFor(h: HeaderMap): Result<Plan, DecodeError> {
    if !Has(h, "content-encoding") then Ok(Plan(h, []))
    else
      match ReadValues(ParseCoding, GetAll(h, "content-encoding"), 0, [])
      case Err(error) => Err(error)
      case Ok(codings) => Ok(Plan(h - {"content-encoding", "content-length"}, LayersFor(ToUndo(codings))))
  }

  /** Decodes a response: an error leaves nothing decoded, and success drops the fields that spoke of the encoded form. */
  method DecodeResponse(h: HeaderMap) returns (r: Result<Plan, DecodeError>)
    ensures r == PlanFor(h)
  {
    if !Has(h, "content-encoding") { return Ok(Plan(h, [])); }
    var codings := ParseContentEncoding(ParseCoding, GetAll(h, "content-encoding"));
    if codings.Err? { return Err(codings.error); }
    var layers := BuildLayers(codings.value);
    return Ok(Plan(h - {"content-encoding", "content-length"}, layers));
  }

  /** What a decoded response has left, and what stands between its body and the wire. */
  lemma PlanIs(h: HeaderMap)
    ensures GetAll(h, "content-encoding") == [] ==> PlanFor(h) == Ok(Plan(h, []))
    ensures var r := PlanFor(h);
            GetAll(h, "content-encoding") != [] && r.Ok? ==>
              && (forall name :: GetAll(r.value.headers, name) ==
                                 if name == "content-encoding" || name == "content-length" then [] else GetAll(h, name))
              && AllKnown(ParseCoding, TokensFrom(GetAll(h, "content-encoding"), 0))
              && (var undo := Reversed(Real(CodingsOf(ParseCoding, TokensFrom(GetAll(h, "content-encoding"), 0))));
                  |r.value.layers| == |undo| && forall i :: 0 <= i < |undo| ==> r.value.layers[i] == Layer(undo[i], i == 0))
  {
    var values := GetAll(h, "content-encoding");
    AcceptedIff(ParseCoding, values);
    if PlanFor(h).Ok? && values != [] {
      StagesReverseTheCodings(CodingsOf(ParseCoding, TokensFrom(values, 0)));
    }
  }
}
