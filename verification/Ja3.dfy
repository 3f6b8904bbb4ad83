/** The JA3 string: printed from a hello and one wire order, and read back from a capture. */
module Ja3 {
  import opened Options
  import opened Text
  import opened ExtensionOrders

  /** The parts of a hello that JA3 looks at. */
  datatype Hello = Hello(version: Id, ciphers: seq<Id>, groups: seq<Id>, formats: seq<Id>)

  function Texts(values: seq<Id>): (r: seq<string>)
    ensures |r| == |values|
    ensures forall i :: 0 <= i < |values| ==> r[i] == ToText(values[i] as nat)
  {
    seq(|values|, i requires 0 <= i < |values| => ToText(values[i] as nat))
  }

  function JoinDashes(values: seq<Id>): string {
    Join(Texts(values), "-")
  }

  /** Version, ciphers, extensions, curves and point formats. */
  function Fields(hello: Hello, order: seq<Id>): seq<string> {
    [ToText(hello.version as nat), JoinDashes(WithoutGrease(hello.ciphers)), JoinDashes(WithoutGrease(order)),
     JoinDashes(WithoutGrease(hello.groups)), JoinDashes(hello.formats)]
  }

  function Print(hello: Hello, order: seq<Id>): string {
    Join(Fields(hello, order), ",")
  }

  datatype ParseError = WrongFieldCount(found: nat) | NotACodePoint(text: string)

  /** The code points of the pieces from `i` on, or the first piece that is not one. */
  function ParsePieces(pieces: seq<string>, i: nat, sofar: seq<Id>): Result<seq<Id>, ParseError>
    requires i <= |pieces|
    decreases |pieces| - i
  {
    if i == |pieces| then Ok(sofar)
    else
      match ParseUnsigned(pieces[i], 65535)
      case None => Err(NotACodePoint(pieces[i]))
      case Some(value) => ParsePieces(pieces, i + 1, sofar + [value as Id])
  }

  /** An empty field is an empty list, not a list of one empty piece. */
  function ParseDashed(field: string): Result<seq<Id>, ParseError> {
    if field == "" then Ok([]) else ParsePieces(Split(field, '-'), 0, [])
  }

  /** The extensions recorded in the third field of a JA3 string. */
  function Extensions(ja3: string): Result<seq<Id>, ParseError> {
    var fields := Split(ja3, ',');
    if |fields| != 5 then Err(WrongFieldCount(|fields|)) else ParseDashed(fields[2])
  }

  predicate CodePoint(text: string) {
    ParseUnsigned(text, 65535).Some?
  }

  /** A list of pieces reads as its code points, or fails on the first that is none. */
  lemma {:induction false} PiecesRead(pieces: seq<string>, i: nat, sofar: seq<Id>)
    requires i <= |pieces|
    ensures var r := ParsePieces(pieces, i, sofar);
            && (r.Ok? <==> forall k :: i <= k < |pieces| ==> CodePoint(pieces[k]))
            && (r.Err? ==> exists k :: i <= k < |pieces| && r.error == NotACodePoint(pieces[k]) && !CodePoint(pieces[k])
                                       && forall j :: i <= j < k ==> CodePoint(pieces[j]))
    decreases |pieces| - i
  {
    if i < |pieces| && CodePoint(pieces[i]) {
      var more := sofar + [ParseUnsigned(pieces[i], 65535).value as Id];
      PiecesRead(pieces, i + 1, more);
    }
  }

  /** A string is read exactly when it has five fields and the third is empty or dashed code points. */
  lemma ReadIff(ja3: string)
    ensures var fields := Split(ja3, ',');
            && (Extensions(ja3).Ok? <==>
                  |fields| == 5 && (fields[2] == "" || forall piece :: piece in Split(fields[2], '-') ==> CodePoint(piece)))
            && (Extensions(ja3) == Err(WrongFieldCount(|fields|)) <==> |fields| != 5)
            && (|fields| == 5 && Extensions(ja3).Err? ==>
                  Extensions(ja3).error.NotACodePoint? && Extensions(ja3).error.text in Split(fields[2], '-')
                  && !CodePoint(Extensions(ja3).error.text))
  {
    var fields := Split(ja3, ',');
    if |fields| == 5 { PiecesRead(Split(fields[2], '-'), 0, []); }
  }

  // ----- Joining and splitting -----

  /** Pieces without the separator, joined and split again, are the same pieces. */
  lemma {:induction false} SplitUndoesJoin(parts: seq<string>, c: char)
    requires parts != [] && forall i :: 0 <= i < |parts| ==> c !in parts[i]
    ensures Split(Join(parts, [c]), c) == parts
    decreases |parts|
  {
    var sep := x => x == c;
    assert c !in parts[0];
    if |parts| == 1 {
      SplitByOnly(parts[0], sep);
    } else {
      SplitUndoesJoin(parts[1..], c);
      SplitByFirst(parts[0], c, Join(parts[1..], [c]), sep);
    }
  }

  lemma {:induction false} JoinedUses(parts: seq<string>, sep: string, ok: char -> bool)
    requires forall i, k :: 0 <= i < |parts| && 0 <= k < |parts[i]| ==> ok(parts[i][k])
    requires forall k :: 0 <= k < |sep| ==> ok(sep[k])
    ensures forall k :: 0 <= k < |Join(parts, sep)| ==> ok(Join(parts, sep)[k])
    decreases |parts|
  {
    if |parts| > 1 { JoinedUses(parts[1..], sep, ok); }
  }

  predicate DigitOrDash(c: char) {
    IsDigit(c) || c == '-'
  }

  lemma DashedHasNoComma(values: seq<Id>)
    ensures ',' !in JoinDashes(values)
  {
    var parts := Texts(values);
    forall i, k | 0 <= i < |parts| && 0 <= k < |parts[i]| ensures DigitOrDash(parts[i][k]) {
      ToTextReadsBack(values[i] as nat);
    }
    JoinedUses(parts, "-", DigitOrDash);
  }

  lemma FieldsComeBack(hello: Hello, order: seq<Id>)
    ensures Split(Print(hello, order), ',') == Fields(hello, order)
  {
    ToTextReadsBack(hello.version as nat);
    DashedHasNoComma(WithoutGrease(hello.ciphers));
    DashedHasNoComma(WithoutGrease(order));
    DashedHasNoComma(WithoutGrease(hello.groups));
    DashedHasNoComma(hello.formats);
    SplitUndoesJoin(Fields(hello, order), ',');
  }

  lemma TextParses(value: Id)
    ensures ParseUnsigned(ToText(value as nat), 65535) == Some(value as nat)
  {
    ToTextReadsBack(value as nat);
  }

  lemma {:induction false} TextsParse(values: seq<Id>, i: nat)
    requires i <= |values|
    ensures ParsePieces(Texts(values), i, values[..i]) == Ok(values)
    decreases |values| - i
  {
    if i == |values| {
      assert values[..i] == values;
    } else {
      TextParses(values[i]);
      assert values[..i] + [values[i]] == values[..i + 1];
      TextsParse(values, i + 1);
    }
  }

  lemma JoinIsNotEmpty(parts: seq<string>, sep: string)
    requires parts != [] && parts[0] != ""
    ensures Join(parts, sep) != ""
  {
  }

  /** A dashed list reads back as itself, the empty list included. */
  lemma DashedComesBack(values: seq<Id>)
    ensures ParseDashed(JoinDashes(values)) == Ok(values)
  {
    var parts := Texts(values);
    if values != [] {
      forall i | 0 <= i < |parts| ensures '-' !in parts[i] && parts[i] != "" {
        ToTextReadsBack(values[i] as nat);
      }
      JoinIsNotEmpty(parts, "-");
      SplitUndoesJoin(parts, '-');
      TextsParse(values, 0);
      assert values[..0] == [];
    }
  }

  /** For every hello and wire order, the printed string yields exactly that order without its GREASE. */
  lemma PrintedOrderComesBack(hello: Hello, order: seq<Id>)
    ensures Extensions(Print(hello, order)) == Ok(WithoutGrease(order))
  {
    FieldsComeBack(hello, order);
    DashedComesBack(WithoutGrease(order));
  }

  /** Each of the five fields, read by itself, gives back the part of the hello that belongs there. */
  lemma EveryFieldComesBack(hello: Hello, order: seq<Id>)
    ensures var fields := Split(Print(hello, order), ',');
            && |fields| == 5
            && ParseUnsigned(fields[0], 65535) == Some(hello.version as nat)
            && ParseDashed(fields[1]) == Ok(WithoutGrease(hello.ciphers))
            && ParseDashed(fields[2]) == Ok(WithoutGrease(order))
            && ParseDashed(fields[3]) == Ok(WithoutGrease(hello.groups))
            && ParseDashed(fields[4]) == Ok(hello.formats)
  {
    FieldsComeBack(hello, order);
    TextParses(hello.version);
    DashedComesBack(WithoutGrease(hello.ciphers));
    DashedComesBack(WithoutGrease(order));
    DashedComesBack(WithoutGrease(hello.groups));
    DashedComesBack(hello.formats);
  }

  /** Two hellos print alike exactly when they agree on everything JA3 keeps. */
  lemma PrintsAlikeIff(a: Hello, orderA: seq<Id>, b: Hello, orderB: seq<Id>)
    ensures Print(a, orderA) == Print(b, orderB) <==>
            && a.version == b.version && WithoutGrease(a.ciphers) == WithoutGrease(b.ciphers)
            && WithoutGrease(orderA) == WithoutGrease(orderB) && WithoutGrease(a.groups) == WithoutGrease(b.groups)
            && a.formats == b.formats
  {
    if Print(a, orderA) == Print(b, orderB) {
      FieldsComeBack(a, orderA);
      FieldsComeBack(b, orderB);
      var f, g := Fields(a, orderA), Fields(b, orderB);
      assert f[0] == g[0] && f[1] == g[1] && f[2] == g[2] && f[3] == g[3] && f[4] == g[4];
      TextParses(a.version);
      TextParses(b.version);
      DashedComesBack(WithoutGrease(a.ciphers));
      DashedComesBack(WithoutGrease(b.ciphers));
      DashedComesBack(WithoutGrease(orderA));
      DashedComesBack(WithoutGrease(orderB));
      DashedComesBack(WithoutGrease(a.groups));
      DashedComesBack(WithoutGrease(b.groups));
      DashedComesBack(a.formats);
      DashedComesBack(b.formats);
    }
  }
}
