/** The item list of the forum reply status field. It applies the field's default
    value lazily: reading delta 0 of an empty list appends the default item, so
    replies stored before the field existed still read a status. The default item
    is a parameter; where it comes from (the field definition) is not modelled. */
module ForumReplyFieldItemList {
  import opened Wrappers

  /** The items stored in the list, by delta. */
  datatype ItemList<T> = ItemList(items: seq<T>)

  /** The list after a read, and the item the read returned (None for NULL). */
  datatype GetResult<T> = GetResult(list: ItemList<T>, item: Option<T>)

  /** The inherited `offsetExists`: the delta holds a stored item. */
  predicate ParentOffsetExists<T>(l: ItemList<T>, delta: int) {
    0 <= delta < |l.items|
  }

  /** The inherited `get`: the stored item at `delta`, or NULL. */
  function ParentGet<T>(l: ItemList<T>, delta: int): (r: Option<T>)
    ensures r.Some? <==> ParentOffsetExists(l, delta)
    ensures r.Some? ==> r.value == l.items[delta]
  {
    if 0 <= delta < |l.items| then Some(l.items[delta]) else None
  }

  /** `get`: delta 0 of an empty list appends the default item and returns it;
      every other read is the inherited one and leaves the list as it is. */
  function Get<T>(l: ItemList<T>, delta: int, default: T): (r: GetResult<T>)
    ensures delta == 0 && |l.items| == 0 ==> r.list.items == [default] && r.item == Some(default)
    ensures delta != 0 || |l.items| > 0 ==> r.list == l && r.item == ParentGet(l, delta)
    ensures l.items <= r.list.items && |r.list.items| <= |l.items| + 1
  {
    if delta == 0 && |l.items| == 0 then
      GetResult(ItemList(l.items + [default]), Some(default))
    else
      GetResult(l, ParentGet(l, delta))
  }

  /** `offsetExists`: forced true for delta 0, the inherited answer otherwise. */
  function OffsetExists<T>(l: ItemList<T>, delta: int): (b: bool)
    ensures delta == 0 ==> b
    ensures delta != 0 ==> (b <==> 0 <= delta < |l.items|)
  {
    delta == 0 || ParentOffsetExists(l, delta)
  }

  /** `offsetExists` answers exactly whether `get` returns an item: delta 0 always,
      any other delta when it is stored. */
  lemma OffsetExistsAgreesWithGet<T>(l: ItemList<T>, delta: int, default: T)
    ensures OffsetExists(l, delta) <==> Get(l, delta, default).item.Some?
    ensures OffsetExists(l, 0)
    ensures delta != 0 ==> (OffsetExists(l, delta) <==> 0 <= delta < |l.items|)
  {}

  /** After one read of delta 0 the forced answer of `offsetExists(0)` is also the
      stored truth, and a second read of delta 0 changes nothing and returns the
      same item. */
  lemma GetZeroIdempotent<T>(l: ItemList<T>, default: T)
    ensures ParentOffsetExists(Get(l, 0, default).list, 0)
    ensures Get(Get(l, 0, default).list, 0, default).list == Get(l, 0, default).list
    ensures Get(Get(l, 0, default).list, 0, default).item == Get(l, 0, default).item
  {}

  /** A sequence of reads, threading the list through; the items returned in order. */
  function GetAll<T>(l: ItemList<T>, deltas: seq<int>, default: T): (r: (ItemList<T>, seq<Option<T>>))
    ensures |r.1| == |deltas|
    decreases |deltas|
  {
    if |deltas| == 0 then (l, [])
    else
      var first := Get(l, deltas[0], default);
      var rest := GetAll(first.list, deltas[1..], default);
      (rest.0, [first.item] + rest.1)
  }

  /** However many reads happen, the default is appended at most once, and only
      when the list was empty and delta 0 was read. */
  lemma {:induction false} GetAllAppendsAtMostOnce<T>(l: ItemList<T>, deltas: seq<int>, default: T)
    ensures GetAll(l, deltas, default).0.items ==
      if |l.items| == 0 && 0 in deltas then [default] else l.items
    decreases |deltas|
  {
    if |deltas| > 0 {
      assert deltas == [deltas[0]] + deltas[1..];
      GetAllAppendsAtMostOnce(Get(l, deltas[0], default).list, deltas[1..], default);
    }
  }

  // Deltas as PHP values. The two overrides test delta 0 differently: `get` with
  // the loose `==`, `offsetExists` with the strict `===`. On integers the two
  // tests agree, and the integer model above is the whole story; on the other
  // scalars they do not.

  /** A PHP scalar passed as a delta. Floats are not modelled. */
  datatype Scalar = IntScalar(i: int) | StringScalar(s: string) | BoolScalar(b: bool) | NullScalar

  /** PHP's loose `$x == 0`. NULL and FALSE equal 0. How a string compares with 0
      depends on the PHP version (PHP 7 converts its leading numeric prefix, PHP 8
      compares numerically only numeric strings), so it is the parameter
      `stringIsZero`; every version has `"0" == 0`. */
  predicate LooselyZero(x: Scalar, stringIsZero: string -> bool) {
    match x
    case IntScalar(i) => i == 0
    case StringScalar(s) => stringIsZero(s)
    case BoolScalar(b) => !b
    case NullScalar => true
  }

  /** PHP's strict `$x === 0`. */
  predicate StrictlyZero(x: Scalar) {
    x == IntScalar(0)
  }

  predicate IsDigit(c: char) {
    '0' <= c <= '9'
  }

  /** A decimal numeral without a leading zero. */
  predicate CanonicalDigits(s: string) {
    |s| > 0 && s[0] != '0' && forall i | 0 <= i < |s| :: IsDigit(s[i])
  }

  /** The value of a decimal numeral. */
  function DigitsValue(s: string): (n: nat)
    requires forall i | 0 <= i < |s| :: IsDigit(s[i])
    ensures |s| > 0 && s[0] != '0' ==> n > 0
    decreases |s|
  {
    if |s| == 0 then 0
    else
      assert IsDigit(s[|s| - 1]);
      assert |s| > 1 ==> s[..|s| - 1][0] == s[0];
      DigitsValue(s[..|s| - 1]) * 10 + (s[|s| - 1] as int - '0' as int)
  }

  /** The integer key PHP converts a string array key to: "0", or digits without a
      leading zero, optionally after a '-'. Any other string stays a string key.
      The platform integer range is not modelled. */
  function IntegerKey(s: string): (r: Option<int>)
    ensures r == Some(0) <==> s == "0"
  {
    if s == "0" then Some(0)
    else if |s| > 0 && s[0] == '-' && CanonicalDigits(s[1..]) then Some(-(DigitsValue(s[1..]) as int))
    else if CanonicalDigits(s) then Some(DigitsValue(s))
    else None
  }

  /** The integer array key a scalar delta selects, or None for a string key (NULL
      becomes the key ""), which a list never holds. */
  function ArrayKey(x: Scalar): Option<int> {
    match x
    case IntScalar(i) => Some(i)
    case StringScalar(s) => IntegerKey(s)
    case BoolScalar(b) => Some(if b then 1 else 0)
    case NullScalar => None
  }

  /** The inherited `offsetExists`, which is `isset` on the stored items. */
  predicate ParentOffsetExistsAt<T>(l: ItemList<T>, x: Scalar) {
    match ArrayKey(x)
    case Some(k) => ParentOffsetExists(l, k)
    case None => false
  }

  /** `offsetExists` on a scalar delta: true for the integer 0 only, the inherited
      answer otherwise. */
  function OffsetExistsAt<T>(l: ItemList<T>, x: Scalar): (b: bool)
    ensures StrictlyZero(x) ==> b
    ensures !StrictlyZero(x) ==> (b <==> ArrayKey(x).Some? && 0 <= ArrayKey(x).value < |l.items|)
    ensures |l.items| == 0 ==> (b <==> x == IntScalar(0))
  {
    StrictlyZero(x) || ParentOffsetExistsAt(l, x)
  }

  /** Whether `get` on a scalar delta takes its own branch, appending the default,
      rather than the inherited read. */
  predicate GetAppendsDefault<T>(l: ItemList<T>, x: Scalar, stringIsZero: string -> bool) {
    LooselyZero(x, stringIsZero) && |l.items| == 0
  }

  /** On integer deltas the scalar model is the integer one: `get` appends exactly
      when `Get` does, and `offsetExists` answers as `OffsetExists`. */
  lemma ScalarDeltaIntegers<T>(l: ItemList<T>, i: int, default: T, stringIsZero: string -> bool)
    ensures GetAppendsDefault(l, IntScalar(i), stringIsZero) <==> |Get(l, i, default).list.items| > |l.items|
    ensures OffsetExistsAt(l, IntScalar(i)) <==> OffsetExists(l, i)
  {}

  /** Where the two overrides disagree: `get` appends and returns the default while
      `offsetExists` denies the offset exactly for an empty list and a delta that is
      loosely but not strictly 0 — NULL, FALSE, or a string that PHP compares equal
      to 0, such as "0". */
  lemma GetAndOffsetExistsDisagree<T>(l: ItemList<T>, x: Scalar, stringIsZero: string -> bool)
    ensures GetAppendsDefault(l, x, stringIsZero) && !OffsetExistsAt(l, x) <==>
      |l.items| == 0 && (x == NullScalar || x == BoolScalar(false) || (x.StringScalar? && stringIsZero(x.s)))
  {}

  /** The numeric string "0" on an empty list is such a delta. */
  lemma ZeroStringDisagrees<T>(l: ItemList<T>, stringIsZero: string -> bool)
    requires |l.items| == 0 && stringIsZero("0")
    ensures GetAppendsDefault(l, StringScalar("0"), stringIsZero)
    ensures !OffsetExistsAt(l, StringScalar("0"))
  {}
}
