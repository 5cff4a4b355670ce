/** Python dicts keep keys in first-insertion order, and the assembler's
    searches return the first match in that order. An insertion-ordered
    dict is therefore a sequence of items with distinct keys. */
module Dicts {
  import opened Seqs

  datatype Item<K, V> = Item(key: K, val: V)

  /** The dict's keys in iteration order. */
  function Keys<K(==), V>(d: seq<Item<K, V>>): (ks: seq<K>)
    ensures |ks| == |d| && forall i :: 0 <= i < |d| ==> ks[i] == d[i].key
  {
    seq(|d|, i requires 0 <= i < |d| => d[i].key)
  }

  predicate DistinctKeys<K(==), V>(d: seq<Item<K, V>>)
  {
    forall i, j :: 0 <= i < j < |d| ==> d[i].key != d[j].key
  }

  /** Position of key `k` in iteration order. */
  function IndexOfKey<K(==), V>(d: seq<Item<K, V>>, k: K): (i: nat)
    requires k in Keys(d)
    ensures i < |d| && d[i].key == k
    ensures forall j :: 0 <= j < i ==> d[j].key != k
  {
    if d[0].key == k then 0
    else
      assert Keys(d[1..]) == Keys(d)[1..];
      1 + IndexOfKey(d[1..], k)
  }

  /** The position of a key is its first occurrence. */
  lemma IndexOfKeyIs<K, V>(d: seq<Item<K, V>>, k: K, i: nat)
    requires i < |d| && d[i].key == k
    requires forall j :: 0 <= j < i ==> d[j].key != k
    ensures k in Keys(d) && IndexOfKey(d, k) == i
  {
  }

  /** `d[k]`. */
  function Get<K(==), V>(d: seq<Item<K, V>>, k: K): V
    requires k in Keys(d)
  {
    d[IndexOfKey(d, k)].val
  }

  /** `d[k] = v`: replaces the value in place when `k` is a key, and
      otherwise appends a new key at the end. */
  function Put<K(==), V>(d: seq<Item<K, V>>, k: K, v: V): (d': seq<Item<K, V>>)
    ensures k in Keys(d')
    ensures k in Keys(d) ==> |d'| == |d|
    ensures k !in Keys(d) ==> d' == d + [Item(k, v)]
  {
    if k in Keys(d) then
      var i := IndexOfKey(d, k);
      assert Keys(d[i := Item(k, v)])[i] == k;
      d[i := Item(k, v)]
    else
      assert Keys(d + [Item(k, v)])[|d|] == k;
      d + [Item(k, v)]
  }

  /** `d.pop(k)`. */
  function Pop<K(==), V>(d: seq<Item<K, V>>, k: K): (d': seq<Item<K, V>>)
    requires k in Keys(d)
    ensures |d'| == |d| - 1
  {
    var i := IndexOfKey(d, k);
    d[..i] + d[i + 1..]
  }

  /** After `d[k] = v`, reading `d[k]` gives `v`, and no other key moves. */
  lemma PutThenGet<K, V>(d: seq<Item<K, V>>, k: K, v: V)
    ensures Get(Put(d, k, v), k) == v
    ensures k in Keys(d) ==> Keys(Put(d, k, v)) == Keys(d)
  {
    if k in Keys(d) {
      IndexOfKeyIs(Put(d, k, v), k, IndexOfKey(d, k));
    } else {
      forall j | 0 <= j < |d| ensures d[j].key != k {
        assert Keys(d)[j] == d[j].key;
      }
      IndexOfKeyIs(Put(d, k, v), k, |d|);
    }
  }

  /** Writing one key leaves every other key's value alone. */
  lemma PutOther<K, V>(d: seq<Item<K, V>>, k: K, v: V, other: K)
    requires other in Keys(d) && other != k
    ensures other in Keys(Put(d, k, v)) && Get(Put(d, k, v), other) == Get(d, other)
  {
    var i := IndexOfKey(d, other);
    assert Put(d, k, v)[i] == d[i];
    forall j | 0 <= j < i ensures Put(d, k, v)[j].key != other {
      assert j < |d| && Put(d, k, v)[j].key in {d[j].key, k};
    }
    IndexOfKeyIs(Put(d, k, v), other, i);
  }

  /** `d.pop(k)` removes exactly key `k`. */
  lemma PopRemovesKey<K, V>(d: seq<Item<K, V>>, k: K)
    requires DistinctKeys(d) && k in Keys(d)
    ensures k !in Keys(Pop(d, k))
    ensures forall x :: x != k ==> (x in Keys(Pop(d, k)) <==> x in Keys(d))
    ensures DistinctKeys(Pop(d, k))
  {
    var i := IndexOfKey(d, k);
    var d' := Pop(d, k);
    assert forall j :: 0 <= j < |d'| ==> d'[j] == if j < i then d[j] else d[j + 1];
    forall x | x in Keys(d) && x != k ensures x in Keys(d') {
      var j :| 0 <= j < |d| && Keys(d)[j] == x;
      assert Keys(d')[if j < i then j else j - 1] == x;
    }
  }

  /** The test "is not `k`". */
  function Other<K(==)>(k: K): K -> bool
  {
    x => x != k
  }

  /** The keys other than `k`, in iteration order. */
  function OtherKeys<K(==), V>(d: seq<Item<K, V>>, k: K): seq<K>
  {
    Filter(Other(k), Keys(d))
  }

  /** `d'` agrees with `d` away from key `k`: the same other keys, in the
      same order, each with the same value. */
  ghost predicate SameOthers<K(!new), V>(d: seq<Item<K, V>>, d': seq<Item<K, V>>, k: K)
  {
    && OtherKeys(d', k) == OtherKeys(d, k)
    && (forall x :: x != k ==> (x in Keys(d') <==> x in Keys(d)))
    && (forall x :: x != k && x in Keys(d) ==> Get(d', x) == Get(d, x))
  }

  /** `d[k] = v` leaves every other item as it was, in its place. */
  lemma PutKeepsOthers<K(!new), V>(d: seq<Item<K, V>>, k: K, v: V)
    ensures SameOthers(d, Put(d, k, v), k)
  {
    var d' := Put(d, k, v);
    PutThenGet(d, k, v);
    if k !in Keys(d) {
      assert Keys(d') == Keys(d) + [k];
      FilterSnoc(Other(k), Keys(d), k);
    }
    forall x | x != k && x in Keys(d)
      ensures x in Keys(d') && Get(d', x) == Get(d, x)
    {
      PutOther(d, k, v, x);
    }
  }

  /** A run of keys without `k` passes the test unchanged. */
  lemma OthersUnchanged<K>(ks: seq<K>, k: K)
    requires k !in ks
    ensures Filter(Other(k), ks) == ks
  {
    FilterIdentity(Other(k), ks);
  }

  /** `d.pop(k)` removes key `k` from the key order, and only it. */
  lemma PopKeysOrder<K, V>(d: seq<Item<K, V>>, k: K)
    requires DistinctKeys(d) && k in Keys(d)
    ensures Keys(Pop(d, k)) == OtherKeys(d, k)
  {
    var i := IndexOfKey(d, k);
    var ks := Keys(d);
    PopKeys(d, k);
    KeyRunsAvoid(d, k);
    FilterOutOne(ks[..i], k, ks[i + 1..]);
  }

  /** The keys around `k`, before and after `d.pop(k)`. */
  lemma PopKeys<K, V>(d: seq<Item<K, V>>, k: K)
    requires k in Keys(d)
    ensures var i, ks := IndexOfKey(d, k), Keys(d);
      ks == ks[..i] + [k] + ks[i + 1..] && Keys(Pop(d, k)) == ks[..i] + ks[i + 1..]
  {
    var i, ks := IndexOfKey(d, k), Keys(d);
    var d' := Pop(d, k);
    assert ks == ks[..i] + [k] + ks[i + 1..];
    forall j | 0 <= j < |d'| ensures Keys(d')[j] == (ks[..i] + ks[i + 1..])[j] {
      if j < i {
        assert d'[j] == d[j];
      } else {
        assert d'[j] == d[j + 1];
      }
    }
  }

  /** In a dict without repeated keys, `k` occurs neither before nor after its place. */
  lemma KeyRunsAvoid<K, V>(d: seq<Item<K, V>>, k: K)
    requires DistinctKeys(d) && k in Keys(d)
    ensures var i, ks := IndexOfKey(d, k), Keys(d);
      k !in ks[..i] && k !in ks[i + 1..]
  {
    var i, ks := IndexOfKey(d, k), Keys(d);
    forall j | 0 <= j < |d| && j != i ensures ks[j] != k {
      assert d[i].key == k;
    }
  }

  /** Dropping the one occurrence of `k` from a run of keys. */
  lemma FilterOutOne<K>(front: seq<K>, k: K, back: seq<K>)
    requires k !in front && k !in back
    ensures Filter(Other(k), front + [k] + back) == front + back
  {
    FilterSnoc(Other(k), front, k);
    assert !Other(k)(k);
    OthersUnchanged(front, k);
    assert Filter(Other(k), front + [k]) == front;
    FilterAppend(Other(k), front + [k], back);
    OthersUnchanged(back, k);
  }

  /** `d.pop(k)` leaves every other item as it was, in its place. */
  lemma PopKeepsOthers<K(!new), V>(d: seq<Item<K, V>>, k: K)
    requires DistinctKeys(d) && k in Keys(d)
    ensures Keys(Pop(d, k)) == OtherKeys(d, k)
    ensures SameOthers(d, Pop(d, k), k)
  {
    PopRemovesKey(d, k);
    PopKeysOrder(d, k);
    FilterIdempotent(Other(k), Keys(d));
    forall x | x != k && x in Keys(d)
      ensures Get(Pop(d, k), x) == Get(d, x)
    {
      PopOtherValue(d, k, x);
    }
  }

  /** After `d.pop(k)` another key reads as before. */
  lemma PopOtherValue<K, V>(d: seq<Item<K, V>>, k: K, x: K)
    requires DistinctKeys(d) && k in Keys(d) && x in Keys(d) && x != k
    ensures x in Keys(Pop(d, k)) && Get(Pop(d, k), x) == Get(d, x)
  {
    var i := IndexOfKey(d, k);
    var d' := Pop(d, k);
    PopRemovesKey(d, k);
    var j := IndexOfKey(d, x);
    var j' := if j < i then j else j - 1;
    assert d'[j'] == d[j];
    GetAt(d, j);
    GetAt(d', j');
  }

  lemma DistinctKeysPut<K, V>(d: seq<Item<K, V>>, k: K, v: V)
    requires DistinctKeys(d)
    ensures DistinctKeys(Put(d, k, v))
  {
  }

  /** Appending a new key leaves the existing keys' values alone. */
  lemma AppendGet<K, V>(d: seq<Item<K, V>>, item: Item<K, V>, k: K)
    requires k in Keys(d)
    ensures k in Keys(d + [item]) && Get(d + [item], k) == Get(d, k)
  {
    var i := IndexOfKey(d, k);
    IndexOfKeyIs(d + [item], k, i);
  }

  /** In a dict without repeated keys, the item holding a key is the one `Get` reads. */
  lemma GetAt<K, V>(d: seq<Item<K, V>>, i: nat)
    requires DistinctKeys(d) && i < |d|
    ensures d[i].key in Keys(d) && Get(d, d[i].key) == d[i].val
  {
  }
}
