/** Byte-string helpers: the parts of Rust's `str` the parsers lean on. */
module Text {
  import opened Options

  predicate IsWhite(c: char) {
    c == ' ' || '\t' <= c <= '\r'
  }

  predicate IsDigit(c: char) {
    '0' <= c <= '9'
  }

  predicate AllDigits(s: string) {
    forall i :: 0 <= i < |s| ==> IsDigit(s[i])
  }

  /** What a header value may hold if it is to be read as text: visible ASCII, space and tab. */
  predicate IsVisible(c: char) {
    ' ' <= c <= '~' || c == '\t'
  }

  predicate AllVisible(s: string) {
    forall i :: 0 <= i < |s| ==> IsVisible(s[i])
  }

  function ToLowerChar(c: char): char {
    if 'A' <= c <= 'Z' then c - 'A' + 'a' else c
  }

  function ToLower(s: string): (r: string)
    ensures |r| == |s|
    ensures forall i :: 0 <= i < |s| ==> r[i] == ToLowerChar(s[i])
  {
    seq(|s|, i requires 0 <= i < |s| => ToLowerChar(s[i]))
  }

  predicate EqIgnoreCase(a: string, b: string) {
    ToLower(a) == ToLower(b)
  }

  predicate StartsWith(s: string, prefix: string) {
    prefix <= s
  }

  predicate EndsWith(s: string, suffix: string) {
    |suffix| <= |s| && s[|s| - |suffix|..] == suffix
  }

  predicate StartsWithIgnoreCase(s: string, prefix: string) {
    |prefix| <= |s| && EqIgnoreCase(s[..|prefix|], prefix)
  }

  /** The first position from `i` on that is not white space. */
  function SkipWhite(s: string, i: nat): (j: nat)
    requires i <= |s|
    ensures i <= j <= |s|
    ensures j < |s| ==> !IsWhite(s[j])
    decreases |s| - i
  {
    if i < |s| && IsWhite(s[i]) then SkipWhite(s, i + 1) else i
  }

  /** The end of `s[i..j]` once trailing white space is dropped. */
  function DropWhite(s: string, i: nat, j: nat): (k: nat)
    requires i <= j <= |s|
    ensures i <= k <= j
    ensures i < k ==> !IsWhite(s[k - 1])
    decreases j
  {
    if i < j && IsWhite(s[j - 1]) then DropWhite(s, i, j - 1) else j
  }

  function Trim(s: string): (r: string) {
    var i := SkipWhite(s, 0);
    s[i..DropWhite(s, i, |s|)]
  }

  predicate AllWhite(s: string) {
    forall i :: 0 <= i < |s| ==> IsWhite(s[i])
  }

  lemma {:induction false} SkipsTo(s: string, i: nat, n: nat)
    requires i <= n <= |s| && (forall k :: i <= k < n ==> IsWhite(s[k])) && (n == |s| || !IsWhite(s[n]))
    ensures SkipWhite(s, i) == n
    decreases n - i
  {
    if i < n { SkipsTo(s, i + 1, n); }
  }

  lemma {:induction false} DropsTo(s: string, i: nat, n: nat, j: nat)
    requires i <= n <= j <= |s| && (forall k :: n <= k < j ==> IsWhite(s[k])) && (n == i || !IsWhite(s[n - 1]))
    ensures DropWhite(s, i, j) == n
    decreases j - n
  {
    if n < j { DropsTo(s, i, n, j - 1); }
  }

  /** White space before and after goes, and nothing else. */
  lemma TrimsTo(before: string, core: string, after: string)
    requires AllWhite(before) && AllWhite(after) && core != "" && !IsWhite(core[0]) && !IsWhite(core[|core| - 1])
    ensures Trim(before + core + after) == core
  {
    var s, i, n := before + core + after, |before|, |before| + |core|;
    SkipsTo(s, 0, i);
    DropsTo(s, i, n, |s|);
  }

  function FindFrom(s: string, c: char, i: nat): (r: Option<nat>)
    requires i <= |s|
    ensures r.Some? ==> i <= r.value < |s| && s[r.value] == c && forall k :: i <= k < r.value ==> s[k] != c
    ensures r.None? ==> forall k :: i <= k < |s| ==> s[k] != c
    decreases |s| - i
  {
    if i == |s| then None
    else if s[i] == c then Some(i)
    else FindFrom(s, c, i + 1)
  }

  /** The position of the first `c`. */
  function Find(s: string, c: char): Option<nat> {
    FindFrom(s, c, 0)
  }

  /** The position of the last `c` before `j`. */
  function FindLastBefore(s: string, c: char, j: nat): (r: Option<nat>)
    requires j <= |s|
    ensures r.Some? ==> r.value < j && s[r.value] == c && forall k :: r.value < k < j ==> s[k] != c
    ensures r.None? ==> forall k :: 0 <= k < j ==> s[k] != c
  {
    if j == 0 then None
    else if s[j - 1] == c then Some(j - 1)
    else FindLastBefore(s, c, j - 1)
  }

  function FindLast(s: string, c: char): Option<nat> {
    FindLastBefore(s, c, |s|)
  }

  /** The pieces of `s` between characters satisfying `sep`; always at least one. */
  function SplitBy(s: string, sep: char -> bool): (r: seq<string>)
    ensures |r| >= 1
  {
    if s == [] then [""]
    else
      var rest := SplitBy(s[1..], sep);
      if sep(s[0]) then [""] + rest
      else [[s[0]] + rest[0]] + rest[1..]
  }

  /** No piece holds a separator, and every character of a piece comes from the whole. */
  lemma {:induction false} PiecesAreFree(s: string, sep: char -> bool)
    ensures forall k :: 0 <= k < |SplitBy(s, sep)| ==> Free(SplitBy(s, sep)[k], sep)
    ensures forall k, i :: 0 <= k < |SplitBy(s, sep)| && 0 <= i < |SplitBy(s, sep)[k]| ==> SplitBy(s, sep)[k][i] in s
  {
    if s != [] {
      PiecesAreFree(s[1..], sep);
    }
  }

  function Split(s: string, c: char): (r: seq<string>)
    ensures |r| >= 1
  {
    SplitBy(s, x => x == c)
  }

  lemma PiecesOf(s: string, c: char)
    ensures forall k :: 0 <= k < |Split(s, c)| ==> c !in Split(s, c)[k]
    ensures forall k, i :: 0 <= k < |Split(s, c)| && 0 <= i < |Split(s, c)[k]| ==> Split(s, c)[k][i] in s
  {
    PiecesAreFree(s, x => x == c);
  }

  predicate Free(s: string, sep: char -> bool) {
    forall i :: 0 <= i < |s| ==> !sep(s[i])
  }

  /** A piece free of separators, then a separator, is the first piece. */
  lemma {:induction false} SplitByFirst(a: string, d: char, b: string, sep: char -> bool)
    requires Free(a, sep) && sep(d)
    ensures SplitBy(a + [d] + b, sep) == [a] + SplitBy(b, sep)
    decreases |a|
  {
    var s := a + [d] + b;
    if a == [] {
      assert s[1..] == b;
    } else {
      SplitByFirst(a[1..], d, b, sep);
      assert s[1..] == a[1..] + [d] + b;
      assert [a[0]] + a[1..] == a;
    }
  }

  lemma {:induction false} SplitByOnly(a: string, sep: char -> bool)
    requires Free(a, sep)
    ensures SplitBy(a, sep) == [a]
    decreases |a|
  {
    if a != [] {
      SplitByOnly(a[1..], sep);
      assert [a[0]] + a[1..] == a;
    }
  }

  /** Joining two texts with a separator joins their pieces. */
  lemma {:induction false} SplitByJoins(a: string, d: char, b: string, sep: char -> bool)
    requires sep(d)
    ensures SplitBy(a + [d] + b, sep) == SplitBy(a, sep) + SplitBy(b, sep)
    decreases |a|
  {
    var s := a + [d] + b;
    if a == [] {
      assert s[1..] == b;
    } else {
      SplitByJoins(a[1..], d, b, sep);
      assert s[1..] == a[1..] + [d] + b;
      GrowFirst(SplitBy(a[1..], sep), SplitBy(b, sep), a[0]);
    }
  }

  lemma GrowFirst(front: seq<string>, back: seq<string>, c: char)
    requires front != []
    ensures [[c] + (front + back)[0]] + (front + back)[1..] == ([[c] + front[0]] + front[1..]) + back
    ensures [""] + (front + back) == ([""] + front) + back
  {
  }

  lemma SplitJoins(a: string, c: char, b: string)
    ensures Split(a + [c] + b, c) == Split(a, c) + Split(b, c)
  {
    SplitByJoins(a, c, b, x => x == c);
  }

  function NonEmpty(pieces: seq<string>): (r: seq<string>)
    ensures forall p :: p in r ==> p != "" && p in pieces
  {
    if pieces == [] then []
    else if pieces[0] == "" then NonEmpty(pieces[1..])
    else [pieces[0]] + NonEmpty(pieces[1..])
  }

  /** `a` joined by `sep`. */
  function Join(parts: seq<string>, sep: string): string {
    if parts == [] then ""
    else if |parts| == 1 then parts[0]
    else parts[0] + sep + Join(parts[1..], sep)
  }

  lemma SplitAfterBlank(s: string, c: char)
    requires c != ' '
    ensures Split(" " + s, c) == [" " + Split(s, c)[0]] + Split(s, c)[1..]
  {
    assert (" " + s)[1..] == s;
  }

  /** Parts joined by a character and a blank are cut apart again at the character. */
  lemma {:induction false} JoinedPieces(parts: seq<string>, c: char)
    requires c != ' ' && parts != [] && forall i :: 0 <= i < |parts| ==> c !in parts[i]
    ensures var pieces := Split(Join(parts, [c, ' ']), c);
            |pieces| == |parts| && forall i :: 0 <= i < |parts| ==> pieces[i] == (if i == 0 then "" else " ") + parts[i]
    decreases |parts|
  {
    var sep := x => x == c;
    if |parts| == 1 {
      SplitByOnly(parts[0], sep);
      assert "" + parts[0] == parts[0];
    } else {
      var rest := Join(parts[1..], [c, ' ']);
      JoinedPieces(parts[1..], c);
      assert Join(parts, [c, ' ']) == parts[0] + [c] + (" " + rest);
      SplitByFirst(parts[0], c, " " + rest, sep);
      SplitAfterBlank(rest, c);
      var tail := Split(rest, c);
      assert tail[0] == "" + parts[1] == parts[1];
      assert "" + parts[0] == parts[0];
      var pieces := Split(Join(parts, [c, ' ']), c);
      assert pieces == [parts[0]] + ([" " + tail[0]] + tail[1..]);
      forall i | 0 <= i < |parts| ensures pieces[i] == (if i == 0 then "" else " ") + parts[i] {
        if i > 1 { assert pieces[i] == tail[i - 1]; }
      }
    }
  }

  function DigitValue(c: char): (d: nat)
    requires IsDigit(c)
    ensures d < 10
  {
    c as int - '0' as int
  }

  /** The value of a run of decimal digits. */
  function Decimal(s: string): nat
    requires AllDigits(s)
  {
    if s == [] then 0 else 10 * Decimal(s[..|s| - 1]) + DigitValue(s[|s| - 1])
  }

  function Digit(n: nat): (c: char)
    requires n < 10
    ensures IsDigit(c) && DigitValue(c) == n
  {
    '0' + n as char
  }

  /** A number in decimal, as `to_string` writes it. */
  function ToText(n: nat): string {
    if n < 10 then [Digit(n)] else ToText(n / 10) + [Digit(n % 10)]
  }

  lemma {:induction false} ToTextReadsBack(n: nat)
    ensures ToText(n) != "" && AllDigits(ToText(n)) && Decimal(ToText(n)) == n
  {
    if n < 10 {
      assert [Digit(n)][..0] == "";
    } else {
      var front := ToText(n / 10);
      ToTextReadsBack(n / 10);
      assert (front + [Digit(n % 10)])[..|front|] == front;
    }
  }

  /** `str::parse` for an unsigned integer of the given largest value: an optional `+`, then digits. */
  function ParseUnsigned(s: string, max: nat): (r: Option<nat>)
    ensures r.Some? ==> r.value <= max
  {
    var digits := if s != [] && s[0] == '+' then s[1..] else s;
    if digits == [] || !AllDigits(digits) then None
    else if Decimal(digits) > max then None
    else Some(Decimal(digits))
  }

  const I64_MAX: int := 0x7FFF_FFFF_FFFF_FFFF
  const U64_MAX: nat := 0xFFFF_FFFF_FFFF_FFFF

  /** `str::parse::<i64>`. */
  function ParseI64(s: string): (r: Option<int>)
    ensures r.Some? ==> -I64_MAX - 1 <= r.value <= I64_MAX
  {
    if s != [] && s[0] == '-' then
      var digits := s[1..];
      if digits == [] || !AllDigits(digits) || Decimal(digits) > I64_MAX + 1 then None
      else
        var value: int := 0 - Decimal(digits);
        Some(value)
    else ParseUnsigned(s, I64_MAX)
  }

  /** Whole-message order of byte strings, as Rust compares `str`. */
  predicate StrLess(a: string, b: string)
    decreases |a|
  {
    if b == [] then false
    else if a == [] then true
    else a[0] < b[0] || (a[0] == b[0] && StrLess(a[1..], b[1..]))
  }

  lemma {:induction false} StrLessTotal(a: string, b: string)
    ensures a == b || StrLess(a, b) || StrLess(b, a)
    ensures !(StrLess(a, b) && StrLess(b, a))
    ensures a == b ==> !StrLess(a, b)
    decreases |a|
  {
    if a != [] && b != [] {
      StrLessTotal(a[1..], b[1..]);
      assert a == [a[0]] + a[1..];
      assert b == [b[0]] + b[1..];
    }
  }

  lemma {:induction false} StrLessTransitive(a: string, b: string, c: string)
    requires StrLess(a, b) && StrLess(b, c)
    ensures StrLess(a, c)
    decreases |a|
  {
    if a != [] && a[0] == b[0] && b[0] == c[0] {
      StrLessTransitive(a[1..], b[1..], c[1..]);
    }
  }
}
