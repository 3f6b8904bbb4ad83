/** TLS extension lists: the set offered, the orders a client may send, and how one is generated. */
module ExtensionOrders {
  import opened Options

  /** A code point. */
  newtype Id = x: int | 0 <= x < 65536

  const PRE_SHARED_KEY: Id := 41

  /** The reserved code points of RFC 8701: two equal bytes ending in `A`. */
  predicate IsGrease(id: Id) {
    id / 256 == id % 256 && id % 16 == 10
  }

  function GreaseAt(i: nat): Id
    requires i < 16
  {
    (0x0a0a + 0x1010 * i) as Id
  }

  /** Whatever the first draw and whatever the step of 1 to 15 taken from it, two different GREASE points result. */
  lemma DrawnPairDiffers(first: nat, offset: nat)
    requires first < 16 && 1 <= offset < 16
    ensures GreaseAt(first) != GreaseAt((first + offset) % 16)
    ensures IsGrease(GreaseAt(first)) && IsGrease(GreaseAt((first + offset) % 16))
    ensures GreaseAt(first) / 4096 == first as Id
  {
    GreaseIsGrease(first);
    GreaseIsGrease((first + offset) % 16);
  }

  lemma GreaseIsGrease(i: nat)
    requires i < 16
    ensures IsGrease(GreaseAt(i)) && GreaseAt(i) / 4096 == i as Id
  {
    assert GreaseAt(i) as int == (0x0a + 0x10 * i) * 256 + (0x0a + 0x10 * i);
  }

  /** The sixteen points are the only ones. */
  lemma GreaseIff(id: Id)
    ensures IsGrease(id) <==> exists i :: 0 <= i < 16 && id == GreaseAt(i)
  {
    if IsGrease(id) {
      var byte := id as int / 256;
      assert id as int == 257 * byte;
      assert byte == 16 * (byte / 16) + 10;
      assert id == GreaseAt(byte / 16);
    }
    if exists i :: 0 <= i < 16 && id == GreaseAt(i) {
      var i :| 0 <= i < 16 && id == GreaseAt(i);
      GreaseIsGrease(i);
    }
  }

  // ----- Lists without repeats -----

  predicate Distinct(s: seq<Id>) {
    forall i, j :: 0 <= i < j < |s| ==> s[i] != s[j]
  }

  predicate Ascending(s: seq<Id>) {
    forall i, j :: 0 <= i < j < |s| ==> s[i] < s[j]
  }

  predicate GreaseFree(s: seq<Id>) {
    forall i :: 0 <= i < |s| ==> !IsGrease(s[i])
  }

  lemma DistinctConcat(a: seq<Id>, b: seq<Id>)
    requires Distinct(a) && Distinct(b) && forall x :: x in a ==> x !in b
    ensures Distinct(a + b)
  {
    assert forall i :: 0 <= i < |a| ==> a[i] in a;
    assert forall i :: 0 <= i < |b| ==> b[i] in b;
  }

  lemma {:induction false} DistinctIffCountedOnce(s: seq<Id>)
    ensures Distinct(s) <==> forall x :: multiset(s)[x] <= 1
    decreases |s|
  {
    if s != [] {
      var front, last := s[..|s| - 1], s[|s| - 1];
      DistinctIffCountedOnce(front);
      assert s == front + [last];
      assert multiset(s) == multiset(front) + multiset{last};
      if Distinct(s) {
        assert last !in front;
        assert multiset(front)[last] == 0;
      } else if Distinct(front) {
        var i, j :| 0 <= i < j < |s| && s[i] == s[j];
        assert j == |s| - 1 && front[i] == last;
        assert multiset(s)[last] >= 2;
      } else {
        var x :| multiset(front)[x] > 1;
        assert multiset(s)[x] > 1;
      }
    }
  }

  lemma PermutationIsDistinct(a: seq<Id>, b: seq<Id>)
    requires multiset(a) == multiset(b) && Distinct(b)
    ensures Distinct(a) && forall x :: x in a <==> x in b
  {
    DistinctIffCountedOnce(a);
    DistinctIffCountedOnce(b);
    forall x ensures x in a <==> x in b {
      assert x in a <==> x in multiset(a);
      assert x in b <==> x in multiset(b);
    }
  }

  function Filtered(s: seq<Id>, keep: Id -> bool): (r: seq<Id>)
    ensures forall x :: x in r <==> x in s && keep(x)
  {
    if s == [] then []
    else
      var front := Filtered(s[..|s| - 1], keep);
      assert forall x :: x in s <==> x in s[..|s| - 1] || x == s[|s| - 1];
      if keep(s[|s| - 1]) then front + [s[|s| - 1]] else front
  }

  lemma {:induction false} FilteredIsDistinct(s: seq<Id>, keep: Id -> bool)
    requires Distinct(s)
    ensures Distinct(Filtered(s, keep))
  {
    if s != [] {
      var front := s[..|s| - 1];
      FilteredIsDistinct(front, keep);
      assert s[|s| - 1] !in front;
    }
  }

  lemma {:induction false} FilteredInTwo(a: seq<Id>, b: seq<Id>, keep: Id -> bool)
    ensures Filtered(a + b, keep) == Filtered(a, keep) + Filtered(b, keep)
    decreases |b|
  {
    if b == [] {
      assert a + b == a;
    } else {
      FilteredInTwo(a, b[..|b| - 1], keep);
      assert (a + b)[..|a + b| - 1] == a + b[..|b| - 1];
    }
  }

  lemma {:induction false} FilteredAll(s: seq<Id>, keep: Id -> bool)
    requires forall x :: x in s ==> keep(x)
    ensures Filtered(s, keep) == s
  {
    if s != [] {
      var front, last := s[..|s| - 1], s[|s| - 1];
      assert s == front + [last];
      FilteredAll(front, keep);
    }
  }

  // ----- The set offered -----

  method BinarySearch(ids: seq<Id>, id: Id) returns (found: bool, at: nat)
    requires Ascending(ids)
    ensures at <= |ids| && found == (id in ids)
    ensures found ==> at < |ids| && ids[at] == id
    ensures !found ==> (forall i :: 0 <= i < at ==> ids[i] < id) && forall i :: at <= i < |ids| ==> id < ids[i]
  {
    var low, high := 0, |ids|;
    while low < high
      invariant 0 <= low <= high <= |ids|
      invariant forall i :: 0 <= i < low ==> ids[i] < id
      invariant forall i :: high <= i < |ids| ==> id < ids[i]
    {
      var middle := (low + high) / 2;
      if ids[middle] == id { return true, middle; }
      if ids[middle] < id { low := middle + 1; } else { high := middle; }
    }
    return false, low;
  }

  /** The extensions a client offers: ascending, without repeats, and never GREASE. */
  class ExtensionSet {
    var ids: seq<Id>

    predicate Valid()
      reads this
    {
      Ascending(ids) && GreaseFree(ids)
    }

    constructor (offered: seq<Id>)
      ensures Valid() && forall x :: x in ids <==> x in offered && !IsGrease(x)
    {
      ids := [];
      new;
      for i := 0 to |offered|
        invariant Valid() && forall x :: x in ids <==> x in offered[..i] && !IsGrease(x)
      {
        var _ := Insert(offered[i]);
      }
    }

    /** Adds an extension, saying whether it was new; GREASE is placement, not membership. */
    method Insert(id: Id) returns (added: bool)
      requires Valid()
      modifies this
      ensures Valid() && added == (!IsGrease(id) && id !in old(ids))
      ensures forall x :: x in ids <==> x in old(ids) || (x == id && added)
    {
      if IsGrease(id) { return false; }
      var found, at := BinarySearch(ids, id);
      if found { return false; }
      ids := ids[..at] + [id] + ids[at..];
      return true;
    }

    method Remove(id: Id) returns (removed: bool)
      requires Valid()
      modifies this
      ensures Valid() && removed == (id in old(ids))
      ensures forall x :: x in ids <==> x in old(ids) && x != id
    {
      var found, at := BinarySearch(ids, id);
      if found {
        ids := ids[..at] + ids[at + 1..];
      }
      return found;
    }
  }

  // ----- Orders a client may send -----

  datatype SpecError =
    | DuplicateExtension(value: Id)
    | PreSharedKeyNotLast(index: nat, len: nat)
    | MisplacedGrease(value: Id, index: nat)
    | UnpinnableExtension(value: Id)

  /** The last position before `n` that does not hold `pre_shared_key`. */
  function LastOther(ids: seq<Id>, n: nat): (r: Option<nat>)
    requires n <= |ids|
    ensures r.Some? ==> r.value < n && ids[r.value] != PRE_SHARED_KEY && forall k :: r.value < k < n ==> ids[k] == PRE_SHARED_KEY
    ensures r.None? ==> forall k :: 0 <= k < n ==> ids[k] == PRE_SHARED_KEY
  {
    if n == 0 then None
    else if ids[n - 1] != PRE_SHARED_KEY then Some(n - 1)
    else LastOther(ids, n - 1)
  }

  /** No repeats; `pre_shared_key` last (section 4.2.11 of RFC 8446); GREASE only at the edges. */
  predicate WellOrdered(ids: seq<Id>) {
    && Distinct(ids)
    && (forall i :: 0 <= i < |ids| - 1 ==> ids[i] != PRE_SHARED_KEY)
    && forall i :: 0 <= i < |ids| && IsGrease(ids[i]) ==> i == 0 || Some(i) == LastOther(ids, |ids|)
  }

  /** The first repeat or misplaced key from position `i` on. */
  function FirstFault(ids: seq<Id>, i: nat): Option<SpecError>
    requires i <= |ids|
    decreases |ids| - i
  {
    if i == |ids| then None
    else if ids[i] in ids[..i] then Some(DuplicateExtension(ids[i]))
    else if ids[i] == PRE_SHARED_KEY && i + 1 != |ids| then Some(PreSharedKeyNotLast(i, |ids|))
    else FirstFault(ids, i + 1)
  }

  function FirstMisplaced(ids: seq<Id>, i: nat): Option<SpecError>
    requires i <= |ids|
    decreases |ids| - i
  {
    if i == |ids| then None
    else if IsGrease(ids[i]) && i != 0 && Some(i) != LastOther(ids, |ids|) then Some(MisplacedGrease(ids[i], i))
    else FirstMisplaced(ids, i + 1)
  }

  /** What the validating constructor answers. */
  function Validated(ids: seq<Id>): Result<seq<Id>, SpecError> {
    if FirstFault(ids, 0).Some? then Err(FirstFault(ids, 0).value)
    else if FirstMisplaced(ids, 0).Some? then Err(FirstMisplaced(ids, 0).value)
    else Ok(ids)
  }

  method ValidateOrder(ids: seq<Id>) returns (r: Result<seq<Id>, SpecError>)
    ensures r == Validated(ids)
  {
    for i := 0 to |ids|
      invariant FirstFault(ids, 0) == FirstFault(ids, i)
    {
      if ids[i] in ids[..i] { return Err(DuplicateExtension(ids[i])); }
      if ids[i] == PRE_SHARED_KEY && i + 1 != |ids| { return Err(PreSharedKeyNotLast(i, |ids|)); }
    }
    var edge := LastOther(ids, |ids|);
    for i := 0 to |ids|
      invariant FirstMisplaced(ids, 0) == FirstMisplaced(ids, i)
    {
      if IsGrease(ids[i]) && i != 0 && Some(i) != edge { return Err(MisplacedGrease(ids[i], i)); }
    }
    return Ok(ids);
  }

  lemma {:induction false} NoFaultIff(ids: seq<Id>, i: nat)
    requires i <= |ids|
    ensures FirstFault(ids, i).None? <==>
            forall j :: i <= j < |ids| ==> ids[j] !in ids[..j] && (ids[j] == PRE_SHARED_KEY ==> j + 1 == |ids|)
    decreases |ids| - i
  {
    if i < |ids| { NoFaultIff(ids, i + 1); }
  }

  lemma {:induction false} NoneMisplacedIff(ids: seq<Id>, i: nat)
    requires i <= |ids|
    ensures FirstMisplaced(ids, i).None? <==>
            forall j :: i <= j < |ids| && IsGrease(ids[j]) ==> j == 0 || Some(j) == LastOther(ids, |ids|)
    decreases |ids| - i
  {
    if i < |ids| { NoneMisplacedIff(ids, i + 1); }
  }

  lemma DistinctIff(ids: seq<Id>)
    ensures Distinct(ids) <==> forall j :: 0 <= j < |ids| ==> ids[j] !in ids[..j]
  {
    if Distinct(ids) {
      forall j | 0 <= j < |ids| ensures ids[j] !in ids[..j] {
        assert forall i :: 0 <= i < j ==> ids[..j][i] == ids[i];
      }
    } else {
      var i, j :| 0 <= i < j < |ids| && ids[i] == ids[j];
      assert ids[..j][i] == ids[j];
    }
  }

  /** The constructor accepts exactly the orders a client may send, and hands them back unchanged. */
  lemma ValidatedIff(ids: seq<Id>)
    ensures Validated(ids) == Ok(ids) <==> WellOrdered(ids)
    ensures Validated(ids).Ok? ==> Validated(ids) == Ok(ids)
  {
    NoFaultIff(ids, 0);
    NoneMisplacedIff(ids, 0);
    DistinctIff(ids);
  }

  /** What an error says of a list is true of it. */
  predicate IsAFault(ids: seq<Id>, error: SpecError) {
    match error
    case DuplicateExtension(value) => exists i, j :: 0 <= i < j < |ids| && ids[i] == ids[j] == value
    case PreSharedKeyNotLast(index, len) => index + 1 < len == |ids| && ids[index] == PRE_SHARED_KEY
    case MisplacedGrease(value, index) =>
      0 < index < |ids| && ids[index] == value && IsGrease(value) && exists k :: index < k < |ids| && ids[k] != PRE_SHARED_KEY
    case UnpinnableExtension(value) => value in ids && (value == PRE_SHARED_KEY || IsGrease(value))
  }

  lemma {:induction false} FaultIsReal(ids: seq<Id>, i: nat)
    requires i <= |ids|
    ensures FirstFault(ids, i).Some? ==> IsAFault(ids, FirstFault(ids, i).value)
    decreases |ids| - i
  {
    if i < |ids| {
      if ids[i] in ids[..i] {
        var j :| 0 <= j < i && ids[j] == ids[i];
      }
      FaultIsReal(ids, i + 1);
    }
  }

  lemma {:induction false} MisplacedIsReal(ids: seq<Id>, i: nat)
    requires i <= |ids|
    ensures FirstMisplaced(ids, i).Some? ==> IsAFault(ids, FirstMisplaced(ids, i).value)
    decreases |ids| - i
  {
    if i < |ids| {
      assert !IsGrease(PRE_SHARED_KEY);
      if IsGrease(ids[i]) && Some(i) != LastOther(ids, |ids|) {
        assert LastOther(ids, |ids|).value > i;
      }
      MisplacedIsReal(ids, i + 1);
    }
  }

  /** An order is refused with something that is wrong with it. */
  lemma RefusalIsReal(ids: seq<Id>)
    ensures Validated(ids).Err? ==> IsAFault(ids, Validated(ids).error)
  {
    FaultIsReal(ids, 0);
    MisplacedIsReal(ids, 0);
  }

  // ----- Pins -----

  datatype ShufflePins = ShufflePins(first: seq<Id>, last: seq<Id>)

  predicate Pinnable(ids: seq<Id>) {
    Distinct(ids) && GreaseFree(ids) && PRE_SHARED_KEY !in ids
  }

  function FirstUnpinnable(ids: seq<Id>, i: nat): Option<SpecError>
    requires i <= |ids|
    decreases |ids| - i
  {
    if i == |ids| then None
    else if ids[i] == PRE_SHARED_KEY || IsGrease(ids[i]) then Some(UnpinnableExtension(ids[i]))
    else if ids[i] in ids[..i] then Some(DuplicateExtension(ids[i]))
    else FirstUnpinnable(ids, i + 1)
  }

  method NewPins(first: seq<Id>, last: seq<Id>) returns (r: Result<ShufflePins, SpecError>)
    ensures r == match FirstUnpinnable(first + last, 0) { case Some(error) => Err(error) case None => Ok(ShufflePins(first, last)) }
    ensures r.Ok? <==> Pinnable(first + last)
  {
    var all := first + last;
    var seen: seq<Id> := [];
    PinnableIff(all, 0);
    DistinctIff(all);
    for i := 0 to |all|
      invariant seen == all[..i] && FirstUnpinnable(all, 0) == FirstUnpinnable(all, i)
    {
      var id := all[i];
      if id == PRE_SHARED_KEY || IsGrease(id) { return Err(UnpinnableExtension(id)); }
      if id in seen { return Err(DuplicateExtension(id)); }
      seen := seen + [id];
    }
    return Ok(ShufflePins(first, last));
  }

  lemma {:induction false} PinnableIff(ids: seq<Id>, i: nat)
    requires i <= |ids|
    ensures FirstUnpinnable(ids, i).None? <==>
            forall j :: i <= j < |ids| ==> ids[j] !in ids[..j] && ids[j] != PRE_SHARED_KEY && !IsGrease(ids[j])
    decreases |ids| - i
  {
    if i < |ids| { PinnableIff(ids, i + 1); }
  }

  lemma {:induction false} UnpinnableIsReal(ids: seq<Id>, i: nat)
    requires i <= |ids|
    ensures FirstUnpinnable(ids, i).Some? ==> IsAFault(ids, FirstUnpinnable(ids, i).value)
    decreases |ids| - i
  {
    if i < |ids| {
      if ids[i] in ids[..i] {
        var j :| 0 <= j < i && ids[j] == ids[i];
      }
      UnpinnableIsReal(ids, i + 1);
    }
  }

  // ----- The generator -----

  /** The extensions free to move, in ascending order. */
  function Body(ids: seq<Id>, pins: ShufflePins): seq<Id> {
    Filtered(ids, id => id != PRE_SHARED_KEY && id !in pins.first && id !in pins.last)
  }

  function Edge(grease: Option<(Id, Id)>, second: bool): seq<Id> {
    match grease
    case None => []
    case Some(pair) => [if second then pair.1 else pair.0]
  }

  function Tail(ids: seq<Id>): seq<Id> {
    if PRE_SHARED_KEY in ids then [PRE_SHARED_KEY] else []
  }

  function Assembled(ids: seq<Id>, pins: ShufflePins, body: seq<Id>, grease: Option<(Id, Id)>): seq<Id> {
    Edge(grease, false) + (pins.first + body + pins.last) + Edge(grease, true) + Tail(ids)
  }

  method Assemble(ids: seq<Id>, pins: ShufflePins, body: seq<Id>, grease: Option<(Id, Id)>) returns (order: seq<Id>)
    ensures order == Assembled(ids, pins, body, grease)
  {
    order := [];
    if grease.Some? { order := order + [grease.value.0]; }
    order := order + pins.first;
    order := order + body;
    order := order + pins.last;
    if grease.Some? { order := order + [grease.value.1]; }
    if PRE_SHARED_KEY in ids { order := order + [PRE_SHARED_KEY]; }
    assert Edge(grease, false) + pins.first + body + pins.last == Edge(grease, false) + (pins.first + body + pins.last);
  }

  /** A set as the type keeps it, validated pins, and a distinct GREASE pair. */
  predicate Generates(ids: seq<Id>, pins: ShufflePins, grease: Option<(Id, Id)>) {
    && Ascending(ids) && GreaseFree(ids)
    && Pinnable(pins.first + pins.last)
    && (grease.Some? ==> IsGrease(grease.value.0) && IsGrease(grease.value.1) && grease.value.0 != grease.value.1)
  }

  /** Pins and free extensions together: no repeats, no GREASE, no `pre_shared_key`. */
  lemma MiddleIsPinnable(ids: seq<Id>, pins: ShufflePins, body: seq<Id>)
    requires Generates(ids, pins, None) && multiset(body) == multiset(Body(ids, pins))
    ensures Pinnable(pins.first + body + pins.last)
    ensures forall x :: x in pins.first + body + pins.last <==>
              x in pins.first || x in pins.last || (x in ids && x != PRE_SHARED_KEY)
  {
    var keep := id => id != PRE_SHARED_KEY && id !in pins.first && id !in pins.last;
    FilteredIsDistinct(ids, keep);
    PermutationIsDistinct(body, Body(ids, pins));
    assert forall x :: x in pins.first ==> x in pins.first + pins.last;
    assert forall x :: x in pins.last ==> x in pins.first + pins.last;
    PinsAreApart(pins);
    DistinctConcat(pins.first, body);
    DistinctConcat(pins.first + body, pins.last);
    forall x | x in pins.first + body + pins.last ensures !IsGrease(x) && x != PRE_SHARED_KEY {
    }
  }

  lemma PinsAreApart(pins: ShufflePins)
    requires Distinct(pins.first + pins.last)
    ensures Distinct(pins.first) && Distinct(pins.last) && forall x :: x in pins.first ==> x !in pins.last
  {
    var all := pins.first + pins.last;
    assert forall i :: 0 <= i < |pins.first| ==> all[i] == pins.first[i];
    assert forall i :: 0 <= i < |pins.last| ==> all[|pins.first| + i] == pins.last[i];
  }

  lemma BracketedIsDistinct(first: seq<Id>, middle: seq<Id>, second: seq<Id>, tail: seq<Id>)
    requires Distinct(first) && Pinnable(middle) && Distinct(second) && Distinct(tail)
    requires (forall x :: x in first || x in second ==> IsGrease(x)) && (forall x :: x in first ==> x !in second)
    requires forall x :: x in tail ==> x == PRE_SHARED_KEY
    ensures Distinct(first + middle + second + tail) && PRE_SHARED_KEY !in first + middle + second
  {
    assert !IsGrease(PRE_SHARED_KEY);
    assert forall x :: x in middle ==> !IsGrease(x);
    DistinctConcat(first, middle);
    DistinctConcat(first + middle, second);
    DistinctConcat(first + middle + second, tail);
  }

  /** Before a key that is last or absent, the last element is the last that is not the key. */
  lemma LastBeforeTheKey(bracketed: seq<Id>, tail: seq<Id>)
    requires PRE_SHARED_KEY !in bracketed && bracketed != [] && (tail == [] || tail == [PRE_SHARED_KEY])
    ensures LastOther(bracketed + tail, |bracketed + tail|) == Some(|bracketed| - 1)
  {
    var order := bracketed + tail;
    assert order[|bracketed| - 1] == bracketed[|bracketed| - 1];
    assert bracketed[|bracketed| - 1] in bracketed;
    assert tail != [] ==> order[|bracketed|] == PRE_SHARED_KEY;
  }

  /** GREASE in a bracketed list is at its ends. */
  lemma GreaseIsAtTheEnds(first: seq<Id>, middle: seq<Id>, second: seq<Id>)
    requires |first| <= 1 && |second| <= 1 && GreaseFree(middle)
    ensures var bracketed := first + middle + second;
            forall i :: 0 < i < |bracketed| - 1 ==> !IsGrease(bracketed[i])
  {
    var bracketed := first + middle + second;
    forall i | 0 < i < |bracketed| - 1 ensures !IsGrease(bracketed[i]) {
      assert bracketed[i] == middle[i - |first|];
    }
  }

  /** Laying GREASE and the key around a clean middle always gives an order a client may send. */
  lemma LaidOutIsWellOrdered(middle: seq<Id>, grease: Option<(Id, Id)>, tail: seq<Id>)
    requires Pinnable(middle) && (tail == [] || tail == [PRE_SHARED_KEY])
    requires grease.Some? ==> IsGrease(grease.value.0) && IsGrease(grease.value.1) && grease.value.0 != grease.value.1
    ensures WellOrdered(Edge(grease, false) + middle + Edge(grease, true) + tail)
  {
    var first, second := Edge(grease, false), Edge(grease, true);
    var bracketed := first + middle + second;
    var order := bracketed + tail;
    BracketedIsDistinct(first, middle, second, tail);
    GreaseIsAtTheEnds(first, middle, second);
    assert forall i :: 0 <= i < |bracketed| ==> order[i] == bracketed[i];
    assert !IsGrease(PRE_SHARED_KEY);
    forall i | 0 <= i < |order| && IsGrease(order[i]) ensures i == 0 || Some(i) == LastOther(order, |order|) {
      assert i < |bracketed|;
      LastBeforeTheKey(bracketed, tail);
    }
  }

  /**
   Whatever the set, the pins, the permutation of the free extensions and the GREASE pair, the
   validating constructor accepts the order that was assembled without it.
   */
  lemma GeneratorMeetsValidator(ids: seq<Id>, pins: ShufflePins, body: seq<Id>, grease: Option<(Id, Id)>)
    requires Generates(ids, pins, grease) && multiset(body) == multiset(Body(ids, pins))
    ensures Validated(Assembled(ids, pins, body, grease)) == Ok(Assembled(ids, pins, body, grease))
  {
    MiddleIsPinnable(ids, pins, body);
    LaidOutIsWellOrdered(pins.first + body + pins.last, grease, Tail(ids));
    ValidatedIff(Assembled(ids, pins, body, grease));
  }

  /** The list has the part at a position. */
  predicate Holds(whole: seq<Id>, at: nat, part: seq<Id>) {
    at + |part| <= |whole| && forall k :: 0 <= k < |part| ==> whole[at + k] == part[k]
  }

  lemma MiddleStaysPut(order: seq<Id>, edge: nat, front: seq<Id>, first: seq<Id>, body: seq<Id>, last: seq<Id>,
                       back: seq<Id>)
    requires order == front + (first + body + last) + back && edge == |front|
    ensures Holds(order, edge, first)
    ensures Holds(order, edge + |first|, body)
    ensures Holds(order, edge + |first| + |body|, last)
  {
    var middle, i, j := first + body + last, |first|, |first| + |body|;
    HoldsParts(first, body, last);
    HeldInside(front, middle, back, 0, first);
    HeldInside(front, middle, back, i, body);
    HeldInside(front, middle, back, j, last);
  }

  lemma EndsStayPut(middle: seq<Id>, grease: Option<(Id, Id)>, tail: seq<Id>)
    requires |tail| <= 1
    ensures var order, edge := Edge(grease, false) + middle + (Edge(grease, true) + tail), if grease.Some? then 1 else 0;
            && |order| == edge + |middle| + edge + |tail|
            && (grease.Some? ==> order[0] == grease.value.0 && order[edge + |middle|] == grease.value.1)
            && (tail != [] ==> order[|order| - 1] == tail[0])
  {
  }

  lemma AssembledInThree(ids: seq<Id>, pins: ShufflePins, body: seq<Id>, grease: Option<(Id, Id)>)
    ensures Assembled(ids, pins, body, grease) ==
            Edge(grease, false) + (pins.first + body + pins.last) + (Edge(grease, true) + Tail(ids))
  {
  }

  /**
   A GREASE point in front and one behind the pins and the free extensions, and the key at the very end.
   */
  lemma EdgesStayPut(ids: seq<Id>, pins: ShufflePins, body: seq<Id>, grease: Option<(Id, Id)>)
    ensures var order := Assembled(ids, pins, body, grease);
            var edge := if grease.Some? then 1 else 0;
            var middle := |pins.first| + |body| + |pins.last|;
            && |order| == edge + middle + edge + (if PRE_SHARED_KEY in ids then 1 else 0)
            && (grease.Some? ==> order[0] == grease.value.0 && order[edge + middle] == grease.value.1)
            && (PRE_SHARED_KEY in ids ==> order[|order| - 1] == PRE_SHARED_KEY)
  {
    AssembledInThree(ids, pins, body, grease);
    EndsStayPut(pins.first + body + pins.last, grease, Tail(ids));
  }

  /** The first pins right after the one GREASE point, the last right before the other, the free extensions between them. */
  lemma PinsStayPut(ids: seq<Id>, pins: ShufflePins, body: seq<Id>, grease: Option<(Id, Id)>)
    ensures var order, edge := Assembled(ids, pins, body, grease), if grease.Some? then 1 else 0;
            && Holds(order, edge, pins.first)
            && Holds(order, edge + |pins.first|, body)
            && Holds(order, edge + |pins.first| + |body|, pins.last)
  {
    var order, edge := Assembled(ids, pins, body, grease), if grease.Some? then 1 else 0;
    AssembledInThree(ids, pins, body, grease);
    MiddleStaysPut(order, edge, Edge(grease, false), pins.first, body, pins.last, Edge(grease, true) + Tail(ids));
  }

  lemma HoldsParts(a: seq<Id>, b: seq<Id>, c: seq<Id>)
    ensures Holds(a + b + c, 0, a) && Holds(a + b + c, |a|, b) && Holds(a + b + c, |a| + |b|, c)
  {
  }

  lemma HeldInside(front: seq<Id>, middle: seq<Id>, back: seq<Id>, at: nat, part: seq<Id>)
    requires Holds(middle, at, part)
    ensures Holds(front + middle + back, |front| + at, part)
  {
    var whole := front + middle + back;
    forall k | 0 <= k < |part| ensures whole[|front| + at + k] == part[k] {
      assert whole[|front| + (at + k)] == middle[at + k];
    }
  }

  function WithoutGrease(ids: seq<Id>): seq<Id> {
    Filtered(ids, id => !IsGrease(id))
  }

  lemma EdgesVanish(first: seq<Id>, middle: seq<Id>, second: seq<Id>, tail: seq<Id>)
    requires (forall x :: x in first || x in second ==> IsGrease(x)) && forall x :: x in middle || x in tail ==> !IsGrease(x)
    ensures WithoutGrease(first + middle + second + tail) == middle + tail
  {
    var keep := (id: Id) => !IsGrease(id);
    FilteredInTwo(first + middle + second, tail, keep);
    FilteredInTwo(first + middle, second, keep);
    FilteredInTwo(first, middle, keep);
    FilteredAll(middle, keep);
    FilteredAll(tail, keep);
    NoneKept(first, keep);
    NoneKept(second, keep);
    assert [] + middle == middle && middle + [] == middle;
  }

  lemma {:induction false} NoneKept(s: seq<Id>, keep: Id -> bool)
    requires forall x :: x in s ==> !keep(x)
    ensures Filtered(s, keep) == []
  {
    if s != [] { NoneKept(s[..|s| - 1], keep); }
  }

  /** The order without its GREASE is the middle and the key, and its members are the pins and the set. */
  lemma OrderWithoutGrease(ids: seq<Id>, pins: ShufflePins, body: seq<Id>, grease: Option<(Id, Id)>)
    requires Generates(ids, pins, grease) && multiset(body) == multiset(Body(ids, pins))
    ensures var order := WithoutGrease(Assembled(ids, pins, body, grease));
            Distinct(order) && forall x :: x in order <==> x in pins.first || x in pins.last || x in ids
  {
    var middle := pins.first + body + pins.last;
    MiddleIsPinnable(ids, pins, body);
    assert !IsGrease(PRE_SHARED_KEY);
    assert forall x :: x in middle ==> !IsGrease(x);
    EdgesVanish(Edge(grease, false), middle, Edge(grease, true), Tail(ids));
    DistinctConcat(middle, Tail(ids));
  }

  /** The order without GREASE is a permutation of the set exactly when every pin is a member of the set. */
  lemma OrderIsAPermutation(ids: seq<Id>, pins: ShufflePins, body: seq<Id>, grease: Option<(Id, Id)>)
    requires Generates(ids, pins, grease) && multiset(body) == multiset(Body(ids, pins))
    ensures multiset(WithoutGrease(Assembled(ids, pins, body, grease))) == multiset(ids) <==>
            forall x :: x in pins.first || x in pins.last ==> x in ids
  {
    var order := WithoutGrease(Assembled(ids, pins, body, grease));
    OrderWithoutGrease(ids, pins, body, grease);
    if forall x :: x in pins.first || x in pins.last ==> x in ids {
      SameMembersSameMultiset(order, ids);
    } else {
      var x :| (x in pins.first || x in pins.last) && x !in ids;
      assert x in multiset(order) && x !in multiset(ids);
    }
  }

  lemma SameMembersSameMultiset(a: seq<Id>, b: seq<Id>)
    requires Distinct(a) && Distinct(b) && forall x :: x in a <==> x in b
    ensures multiset(a) == multiset(b)
  {
    DistinctIffCountedOnce(a);
    DistinctIffCountedOnce(b);
    forall x ensures multiset(a)[x] == multiset(b)[x] {
      assert x in multiset(a) <==> x in a;
      assert x in multiset(b) <==> x in b;
    }
  }

  // ----- Adding and removing `pre_shared_key` -----

  function WithoutKey(ids: seq<Id>): seq<Id> {
    Filtered(ids, id => id != PRE_SHARED_KEY)
  }

  function WithKey(ids: seq<Id>): seq<Id> {
    WithoutKey(ids) + [PRE_SHARED_KEY]
  }

  /** In an order a client may send, the key can only be the last element. */
  lemma KeyComesOff(ids: seq<Id>)
    requires WellOrdered(ids)
    ensures WithoutKey(ids) == if ids != [] && ids[|ids| - 1] == PRE_SHARED_KEY then ids[..|ids| - 1] else ids
  {
    var keep := (id: Id) => id != PRE_SHARED_KEY;
    if ids != [] {
      var front := ids[..|ids| - 1];
      assert forall x :: x in front ==> keep(x);
      FilteredAll(front, keep);
      assert ids == front + [ids[|ids| - 1]];
    }
  }

  /** Neither operation can spoil a valid fixed order, though neither validates its result. */
  lemma KeyKeepsOrderValid(ids: seq<Id>)
    requires WellOrdered(ids)
    ensures WellOrdered(WithoutKey(ids)) && WellOrdered(WithKey(ids))
    ensures PRE_SHARED_KEY !in WithoutKey(ids)
    ensures WithKey(WithoutKey(ids)) == WithKey(ids) && WithoutKey(WithKey(ids)) == WithoutKey(ids)
  {
    KeyComesOff(ids);
    var bare := WithoutKey(ids);
    BareIsWellOrdered(ids, bare);
    KeyGoesOn(bare);
    KeyComesOff(bare);
    KeyComesOff(bare + [PRE_SHARED_KEY]);
  }

  lemma BareIsWellOrdered(ids: seq<Id>, bare: seq<Id>)
    requires WellOrdered(ids) && PRE_SHARED_KEY !in bare
    requires bare == ids || ids == bare + [PRE_SHARED_KEY]
    ensures WellOrdered(bare)
  {
    assert forall i :: 0 <= i < |bare| ==> ids[i] == bare[i] && bare[i] in bare;
    if bare != [] {
      assert LastOther(bare, |bare|) == Some(|bare| - 1);
      assert LastOther(ids, |ids|) == Some(|bare| - 1);
    }
  }

  lemma KeyGoesOn(bare: seq<Id>)
    requires WellOrdered(bare) && PRE_SHARED_KEY !in bare
    ensures WellOrdered(bare + [PRE_SHARED_KEY])
  {
    var order := bare + [PRE_SHARED_KEY];
    assert forall i :: 0 <= i < |bare| ==> order[i] == bare[i] && bare[i] in bare;
    assert !IsGrease(PRE_SHARED_KEY);
    if bare != [] {
      assert LastOther(bare, |bare|) == Some(|bare| - 1);
      assert LastOther(order, |order|) == Some(|bare| - 1);
    }
  }
}
