/** An ordered PHP array reduced to what the form code relies on: keys are unique,
    iteration follows insertion order, assigning to an existing key replaces the
    value in place, assigning to a new key appends, and `unset` removes the key. */
module PhpArray {
  import opened Wrappers

  /** Array keys; every array in the modelled code is keyed by strings. */
  type Key = string

  datatype Entry<V> = Entry(key: Key, value: V)

  /** The keys in iteration order. */
  function Keys<V>(a: seq<Entry<V>>): (ks: seq<Key>)
    ensures |ks| == |a|
    ensures forall i | 0 <= i < |a| :: ks[i] == a[i].key
  {
    seq(|a|, i requires 0 <= i < |a| => a[i].key)
  }

  /** No key occurs twice: every array built by PHP has this shape. */
  predicate UniqueKeys<V>(a: seq<Entry<V>>) {
    forall i, j | 0 <= i < j < |a| :: a[i].key != a[j].key
  }

  /** The keys with `k` dropped, the others in their order. */
  function Without(ks: seq<Key>, k: Key): (r: seq<Key>)
    ensures k !in r
    ensures forall x | x in ks && x != k :: x in r
    ensures forall x | x in r :: x in ks
    decreases |ks|
  {
    if |ks| == 0 then []
    else if ks[0] == k then Without(ks[1..], k)
    else [ks[0]] + Without(ks[1..], k)
  }

  lemma {:induction false} WithoutAbsent(ks: seq<Key>, k: Key)
    requires k !in ks
    ensures Without(ks, k) == ks
    decreases |ks|
  {
    if |ks| > 0 {
      assert ks[1..] + [] == ks[1..];
      WithoutAbsent(ks[1..], k);
    }
  }

  lemma {:induction false} WithoutAppend(xs: seq<Key>, ys: seq<Key>, k: Key)
    ensures Without(xs + ys, k) == Without(xs, k) + Without(ys, k)
    decreases |xs|
  {
    if |xs| == 0 {
      assert xs + ys == ys;
    } else {
      assert (xs + ys)[0] == xs[0];
      assert (xs + ys)[1..] == xs[1..] + ys;
      WithoutAppend(xs[1..], ys, k);
    }
  }
  /** Removing a key that only occurs as the last element drops that element. */
  lemma WithoutLast(ks: seq<Key>, k: Key)
    requires k !in ks
    ensures Without(ks + [k], k) == ks
  {
    WithoutAppend(ks, [k], k);
    WithoutAbsent(ks, k);
    assert Without([k], k) == [];
  }


  /** Position of the first occurrence of `k` in `ks`, searching from `from`. */
  function IndexFrom(ks: seq<Key>, k: Key, from: nat): (r: Option<nat>)
    requires from <= |ks|
    requires forall j | 0 <= j < from :: ks[j] != k
    ensures r.Some? ==> r.value < |ks| && ks[r.value] == k && forall j | 0 <= j < r.value :: ks[j] != k
    ensures r.None? ==> k !in ks
    decreases |ks| - from
  {
    if from == |ks| then None
    else if ks[from] == k then Some(from)
    else IndexFrom(ks, k, from + 1)
  }

  /** Position of the entry stored under `k`, if any. */
  function IndexOf<V>(a: seq<Entry<V>>, k: Key): (r: Option<nat>)
    ensures r.Some? ==> r.value < |a| && a[r.value].key == k && forall j | 0 <= j < r.value :: a[j].key != k
    ensures r.None? <==> k !in Keys(a)
  {
    IndexFrom(Keys(a), k, 0)
  }

  /** `$a[$k]`: the value stored under `k`, or None when the key is not set. */
  function Lookup<V>(a: seq<Entry<V>>, k: Key): (r: Option<V>)
    ensures r.None? <==> k !in Keys(a)
    ensures r.Some? ==> exists i :: 0 <= i < |a| && a[i] == Entry(k, r.value)
  {
    match IndexOf(a, k)
    case Some(i) => Some(a[i].value)
    case None => None
  }

  /** Lookup only depends on the entries, read by key. */
  lemma LookupAt<V>(a: seq<Entry<V>>, i: nat)
    requires UniqueKeys(a) && i < |a|
    ensures Lookup(a, a[i].key) == Some(a[i].value)
  {}

  /** `$a[$k] = $v`: overwrite in place when `k` is set, append otherwise. */
  function Set<V>(a: seq<Entry<V>>, k: Key, v: V): (r: seq<Entry<V>>)
    requires UniqueKeys(a)
    ensures UniqueKeys(r)
    ensures k in Keys(a) ==> Keys(r) == Keys(a)
    ensures k !in Keys(a) ==> Keys(r) == Keys(a) + [k]
    ensures Lookup(r, k) == Some(v)
    ensures forall x | x != k :: Lookup(r, x) == Lookup(a, x)
  {
    match IndexOf(a, k)
    case Some(i) =>
      var r := a[i := Entry(k, v)];
      assert Keys(r) == Keys(a);
      LookupAt(r, i);
      forall x | x != k ensures Lookup(r, x) == Lookup(a, x) {
        if x in Keys(a) {
          var j :| 0 <= j < |a| && a[j].key == x;
          LookupAt(a, j);
          LookupAt(r, j);
        }
      }
      r
    case None =>
      var r := a + [Entry(k, v)];
      assert Keys(r) == Keys(a) + [k];
      LookupAt(r, |a|);
      forall x | x != k ensures Lookup(r, x) == Lookup(a, x) {
        if x in Keys(a) {
          var j :| 0 <= j < |a| && a[j].key == x;
          LookupAt(a, j);
          LookupAt(r, j);
        }
      }
      r
  }

  lemma RemoveAtUnique<V>(a: seq<Entry<V>>, i: nat)
    requires UniqueKeys(a) && i < |a|
    ensures UniqueKeys(a[..i] + a[i + 1..])
  {}

  lemma KeysSplit<V>(a: seq<Entry<V>>, i: nat)
    requires i < |a|
    ensures Keys(a) == Keys(a[..i]) + [a[i].key] + Keys(a[i + 1..])
    ensures Keys(a[..i] + a[i + 1..]) == Keys(a[..i]) + Keys(a[i + 1..])
  {}

  lemma UniqueKeyNotElsewhere<V>(a: seq<Entry<V>>, i: nat)
    requires UniqueKeys(a) && i < |a|
    ensures a[i].key !in Keys(a[..i]) && a[i].key !in Keys(a[i + 1..])
  {}

  /** Dropping the entry at `i` drops exactly its key from the key order. */
  lemma RemoveAtKeys<V>(a: seq<Entry<V>>, i: nat)
    requires UniqueKeys(a) && i < |a|
    ensures UniqueKeys(a[..i] + a[i + 1..])
    ensures Keys(a[..i] + a[i + 1..]) == Without(Keys(a), a[i].key)
  {
    RemoveAtUnique(a, i);
    var k := a[i].key;
    var pre, post := Keys(a[..i]), Keys(a[i + 1..]);
    KeysSplit(a, i);
    UniqueKeyNotElsewhere(a, i);
    calc {
      Without(Keys(a), k);
      { WithoutAppend(pre + [k], post, k); }
      Without(pre + [k], k) + Without(post, k);
      { WithoutAppend(pre, [k], k); }
      Without(pre, k) + Without([k], k) + Without(post, k);
      { WithoutAbsent(pre, k); WithoutAbsent(post, k); assert Without([k], k) == []; }
      pre + post;
    }
  }

  /** Dropping the entry at `i` keeps every other key's value. */
  lemma RemoveAtLookup<V>(a: seq<Entry<V>>, i: nat, x: Key)
    requires UniqueKeys(a) && i < |a| && x != a[i].key
    ensures Lookup(a[..i] + a[i + 1..], x) == Lookup(a, x)
  {
    var r := a[..i] + a[i + 1..];
    RemoveAtUnique(a, i);
    if x in Keys(a) {
      var j :| 0 <= j < |a| && Keys(a)[j] == x;
      LookupAt(a, j);
      if j < i {
        assert r[j] == a[j];
        LookupAt(r, j);
      } else {
        assert r[j - 1] == a[j];
        LookupAt(r, j - 1);
      }
    } else {
      forall j | 0 <= j < |r| ensures Keys(r)[j] != x {
        if j < i {
          assert r[j] == a[j] && Keys(a)[j] == a[j].key;
        } else {
          assert r[j] == a[j + 1] && Keys(a)[j + 1] == a[j + 1].key;
        }
      }
    }
  }

  /** `unset($a[$k])`. */
  function Unset<V>(a: seq<Entry<V>>, k: Key): (r: seq<Entry<V>>)
    requires UniqueKeys(a)
    ensures UniqueKeys(r)
    ensures Keys(r) == Without(Keys(a), k)
    ensures Lookup(r, k) == None
    ensures forall x | x != k :: Lookup(r, x) == Lookup(a, x)
  {
    match IndexOf(a, k)
    case Some(i) =>
      RemoveAtKeys(a, i);
      forall x | x != k ensures Lookup(a[..i] + a[i + 1..], x) == Lookup(a, x) {
        RemoveAtLookup(a, i, x);
      }
      a[..i] + a[i + 1..]
    case None =>
      WithoutAbsent(Keys(a), k);
      a
  }

  /** Two arrays with the same keys in the same order and the same value under
      every key are the same array. */
  lemma Extensionality<V>(a: seq<Entry<V>>, b: seq<Entry<V>>)
    requires UniqueKeys(a) && UniqueKeys(b)
    requires Keys(a) == Keys(b)
    requires forall x :: Lookup(a, x) == Lookup(b, x)
    ensures a == b
  {
    forall i | 0 <= i < |a| ensures a[i] == b[i] {
      assert Keys(a)[i] == Keys(b)[i];
      LookupAt(a, i);
      LookupAt(b, i);
    }
  }
}
