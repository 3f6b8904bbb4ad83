/** Header fields: a multimap from lower-case names to the values in the order they were sent. */
module Headers {
  import opened Options
  import opened Text

  type HeaderMap = map<string, seq<string>>

  function GetAll(h: HeaderMap, name: string): seq<string> {
    if name in h then h[name] else []
  }

  predicate Has(h: HeaderMap, name: string) {
    GetAll(h, name) != []
  }

  function Get(h: HeaderMap, name: string): Option<string> {
    if Has(h, name) then Some(GetAll(h, name)[0]) else None
  }

  /** The token characters of section 5.6.2 of RFC 9110. */
  predicate IsTokenChar(c: char) {
    IsDigit(c) || 'A' <= c <= 'Z' || 'a' <= c <= 'z' || c in "!#$%&'*+-.^_`|~"
  }

  const MAX_NAME := 65535

  /** `HeaderName::from_bytes`: a token, in lower case. */
  function NameOf(token: string): Option<string> {
    if 0 < |token| <= MAX_NAME && forall i :: 0 <= i < |token| ==> IsTokenChar(token[i]) then Some(ToLower(token)) else None
  }

  /** A comma-separated value, each piece trimmed. */
  function Pieces(text: string): (r: seq<string>) {
    var split := Split(text, ',');
    seq(|split|, i requires 0 <= i < |split| => Trim(split[i]))
  }

  lemma PiecesJoin(a: string, b: string)
    ensures Pieces(a + [','] + b) == Pieces(a) + Pieces(b)
  {
    SplitJoins(a, ',', b);
  }
}
