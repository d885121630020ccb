/**
  A `std::map` keyed by strings, modelled as an association list kept in
  strictly increasing key order. Iterating a `std::map` visits its entries in
  this order, which is why the environment serializes its uint64 parameters
  sorted by id.

  Keys compare lexicographically by character code, as `std::string::compare`
  does.
 */
module OrderedMap {

  /** Lexicographic strict order on strings. */
  predicate Less(a: string, b: string)
    decreases |a|
  {
    if |a| == 0 then |b| > 0
    else if |b| == 0 then false
    else a[0] < b[0] || (a[0] == b[0] && Less(a[1..], b[1..]))
  }

  lemma {:induction false} LessIrreflexive(a: string)
    ensures !Less(a, a)
    decreases |a|
  {
    if |a| > 0 {
      LessIrreflexive(a[1..]);
    }
  }

  lemma {:induction false} LessTransitive(a: string, b: string, c: string)
    requires Less(a, b) && Less(b, c)
    ensures Less(a, c)
    decreases |a|
  {
    if |a| > 0 && a[0] == b[0] && b[0] == c[0] {
      LessTransitive(a[1..], b[1..], c[1..]);
    }
  }

  lemma {:induction false} LessAsymmetric(a: string, b: string)
    requires Less(a, b)
    ensures !Less(b, a)
    decreases |a|
  {
    if |a| > 0 && a[0] == b[0] {
      LessAsymmetric(a[1..], b[1..]);
    }
  }

  /** Any two distinct strings are ordered one way or the other. */
  lemma {:induction false} LessTotal(a: string, b: string)
    requires a != b
    ensures Less(a, b) || Less(b, a)
    decreases |a|
  {
    if |a| > 0 && |b| > 0 && a[0] == b[0] {
      assert a == [a[0]] + a[1..] && b == [b[0]] + b[1..];
      LessTotal(a[1..], b[1..]);
    }
  }

  /** Association list with strictly increasing keys: the shape a `std::map` iterates in. */
  type Entries<V> = seq<(string, V)>

  ghost predicate Sorted<V>(m: Entries<V>) {
    forall i, j :: 0 <= i < j < |m| ==> Less(m[i].0, m[j].0)
  }

  /** Every key of `m` lies strictly above `k`. */
  ghost predicate AllAbove<V>(m: Entries<V>, k: string) {
    forall i :: 0 <= i < |m| ==> Less(k, m[i].0)
  }

  /** The key/value view of an association list; an earlier entry shadows a later one. */
  function ToMap<V>(m: Entries<V>): map<string, V> {
    if |m| == 0 then map[] else ToMap(m[1..])[m[0].0 := m[0].1]
  }

  /** A list whose keys all lie above `k` has no entry for `k`. */
  lemma {:induction false} AboveNotIn<V>(m: Entries<V>, k: string)
    requires AllAbove(m, k)
    ensures k !in ToMap(m)
    decreases |m|
  {
    if |m| > 0 {
      assert AllAbove(m[1..], k) by {
        forall i | 0 <= i < |m[1..]| ensures Less(k, m[1..][i].0) {
          assert m[1..][i] == m[i + 1];
        }
      }
      AboveNotIn(m[1..], k);
      LessIrreflexive(k);
    }
  }

  /** Splitting a non-empty sorted list into its head and tail. */
  lemma SortedTail<V>(m: Entries<V>)
    requires Sorted(m) && |m| > 0
    ensures Sorted(m[1..]) && AllAbove(m[1..], m[0].0)
  {
    assert forall i :: 0 <= i < |m[1..]| ==> m[1..][i] == m[i + 1];
  }

  /** Putting an entry in front of a sorted list whose keys lie above it keeps it sorted. */
  lemma SortedCons<V>(x: (string, V), tail: Entries<V>)
    requires Sorted(tail) && AllAbove(tail, x.0)
    ensures Sorted([x] + tail)
  {
    var r := [x] + tail;
    assert forall i :: 0 < i < |r| ==> r[i] == tail[i - 1];
  }

  /** A lower bound of a non-empty list bounds its head and its tail. */
  lemma AboveTail<V>(m: Entries<V>, k: string)
    requires |m| > 0 && AllAbove(m, k)
    ensures Less(k, m[0].0) && AllAbove(m[1..], k)
  {
    assert forall i :: 0 <= i < |m[1..]| ==> m[1..][i] == m[i + 1];
  }

  /** A lower bound of a head and of a tail bounds the list they make. */
  lemma AboveCons<V>(x: (string, V), tail: Entries<V>, k: string)
    requires Less(k, x.0) && AllAbove(tail, k)
    ensures AllAbove([x] + tail, k)
  {
    var r := [x] + tail;
    assert forall i :: 0 < i < |r| ==> r[i] == tail[i - 1];
  }

  /** The view of a list with an entry in front. */
  lemma ToMapCons<V>(x: (string, V), tail: Entries<V>)
    ensures ToMap([x] + tail) == ToMap(tail)[x.0 := x.1]
  {
    assert ([x] + tail)[1..] == tail;
  }

  /** Putting one entry in front of two lists whose views differ by one update elsewhere. */
  lemma ToMapConsUpdate<V>(x: (string, V), a: Entries<V>, b: Entries<V>, key: string, value: V)
    requires x.0 != key && ToMap(b) == ToMap(a)[key := value]
    ensures ToMap([x] + b) == ToMap([x] + a)[key := value]
  {
    ToMapCons(x, a);
    ToMapCons(x, b);
  }

  /** Lower bounds carried over from one tail to another survive putting the same head on both. */
  lemma BoundsCons<V>(x: (string, V), a: Entries<V>, b: Entries<V>, key: string)
    requires forall k :: AllAbove(a, k) && Less(k, key) ==> AllAbove(b, k)
    ensures forall k :: AllAbove([x] + a, k) && Less(k, key) ==> AllAbove([x] + b, k)
  {
    forall k | AllAbove([x] + a, k) && Less(k, key)
      ensures AllAbove([x] + b, k)
    {
      AboveTail([x] + a, k);
      assert ([x] + a)[1..] == a;
      AboveCons(x, b, k);
    }
  }

  /** The view after replacing the head's value. */
  lemma HeadValueView<V>(m: Entries<V>, value: V)
    requires |m| > 0
    ensures ToMap([(m[0].0, value)] + m[1..]) == ToMap(m)[m[0].0 := value]
  {
    ToMapCons((m[0].0, value), m[1..]);
  }

  /** The view after dropping a head whose key the tail does not hold. */
  lemma DropHeadView<V>(m: Entries<V>)
    requires |m| > 0 && m[0].0 !in ToMap(m[1..])
    ensures ToMap(m[1..]) == ToMap(m) - {m[0].0}
  {
  }

  /** Replacing the head's value leaves the keys, and so every lower bound, alone. */
  lemma SameKeysBounds<V>(m: Entries<V>, value: V)
    requires |m| > 0
    ensures forall k :: AllAbove(m, k) ==> AllAbove([(m[0].0, value)] + m[1..], k)
  {
    var r := [(m[0].0, value)] + m[1..];
    assert forall i :: 0 <= i < |r| ==> r[i].0 == m[i].0;
  }

  /** Overwriting the value of the head entry. */
  lemma AssignAtHead<V>(m: Entries<V>, value: V)
    requires Sorted(m) && |m| > 0
    ensures var r := [(m[0].0, value)] + m[1..];
      && Sorted(r)
      && ToMap(r) == ToMap(m)[m[0].0 := value]
      && forall k :: AllAbove(m, k) ==> AllAbove(r, k)
  {
    var x := (m[0].0, value);
    SortedTail(m);
    SortedCons(x, m[1..]);
    HeadValueView(m, value);
    SameKeysBounds(m, value);
  }

  /** Inserting a key below every key of the list, in front. */
  lemma AssignBeforeHead<V>(m: Entries<V>, key: string, value: V)
    requires Sorted(m) && |m| > 0 && Less(key, m[0].0)
    ensures var r := [(key, value)] + m;
      && Sorted(r)
      && ToMap(r) == ToMap(m)[key := value]
      && forall k :: AllAbove(m, k) && Less(k, key) ==> AllAbove(r, k)
  {
    var x := (key, value);
    assert AllAbove(m, key) by {
      forall j | 0 < j < |m| ensures Less(key, m[j].0) {
        LessTransitive(key, m[0].0, m[j].0);
      }
    }
    SortedCons(x, m);
    ToMapCons(x, m);
    forall k | AllAbove(m, k) && Less(k, key)
      ensures AllAbove([x] + m, k)
    {
      AboveCons(x, m, k);
    }
  }

  /** Putting the head back in front of a tail that was updated at a key above the head. */
  lemma AssignAfterHead<V>(m: Entries<V>, key: string, value: V, tail: Entries<V>)
    requires Sorted(m) && |m| > 0 && Less(m[0].0, key)
    requires Sorted(tail) && ToMap(tail) == ToMap(m[1..])[key := value]
    requires forall k :: AllAbove(m[1..], k) && Less(k, key) ==> AllAbove(tail, k)
    ensures var r := [m[0]] + tail;
      && Sorted(r)
      && ToMap(r) == ToMap(m)[key := value]
      && forall k :: AllAbove(m, k) && Less(k, key) ==> AllAbove(r, k)
  {
    assert m == [m[0]] + m[1..];
    SortedTail(m);
    SortedCons(m[0], tail);
    LessIrreflexive(key);
    ToMapConsUpdate(m[0], m[1..], tail, key, value);
    BoundsCons(m[0], m[1..], tail, key);
  }

  /**
    `m[key] = value`: overwrites the entry with that key, or inserts a new one
    at the place that keeps the keys sorted.
   */
  function Assign<V>(m: Entries<V>, key: string, value: V): (r: Entries<V>)
    requires Sorted(m)
    ensures Sorted(r)
    ensures ToMap(r) == ToMap(m)[key := value]
    ensures forall k :: AllAbove(m, k) && Less(k, key) ==> AllAbove(r, k)
    decreases |m|
  {
    if |m| == 0 then
      [(key, value)]
    else if m[0].0 == key then
      AssignAtHead(m, value);
      [(key, value)] + m[1..]
    else if Less(key, m[0].0) then
      AssignBeforeHead(m, key, value);
      [(key, value)] + m
    else
      LessTotal(key, m[0].0);
      SortedTail(m);
      var tail := Assign(m[1..], key, value);
      AssignAfterHead(m, key, value, tail);
      [m[0]] + tail
  }

  /** Dropping the head entry. */
  lemma EraseAtHead<V>(m: Entries<V>)
    requires Sorted(m) && |m| > 0
    ensures Sorted(m[1..])
    ensures ToMap(m[1..]) == ToMap(m) - {m[0].0}
    ensures forall k :: AllAbove(m, k) ==> AllAbove(m[1..], k)
  {
    SortedTail(m);
    AboveNotIn(m[1..], m[0].0);
    DropHeadView(m);
    forall k | AllAbove(m, k)
      ensures AllAbove(m[1..], k)
    {
      AboveTail(m, k);
    }
  }

  /** Putting the head back in front of a tail that had a key erased. */
  lemma EraseAfterHead<V>(m: Entries<V>, key: string, tail: Entries<V>)
    requires Sorted(m) && |m| > 0 && m[0].0 != key
    requires Sorted(tail) && ToMap(tail) == ToMap(m[1..]) - {key}
    requires forall k :: AllAbove(m[1..], k) ==> AllAbove(tail, k)
    ensures var r := [m[0]] + tail;
      && Sorted(r)
      && ToMap(r) == ToMap(m) - {key}
      && forall k :: AllAbove(m, k) ==> AllAbove(r, k)
  {
    SortedTail(m);
    SortedCons(m[0], tail);
    ToMapCons(m[0], tail);
    ToMapCons(m[0], m[1..]);
    assert m == [m[0]] + m[1..];
    forall k | AllAbove(m, k)
      ensures AllAbove([m[0]] + tail, k)
    {
      AboveTail(m, k);
      AboveCons(m[0], tail, k);
    }
  }

  /** `erase(key)`: removes the entry with that key, if there is one. */
  function Erase<V>(m: Entries<V>, key: string): (r: Entries<V>)
    requires Sorted(m)
    ensures Sorted(r)
    ensures ToMap(r) == ToMap(m) - {key}
    ensures forall k :: AllAbove(m, k) ==> AllAbove(r, k)
    decreases |m|
  {
    if |m| == 0 then
      m
    else if m[0].0 == key then
      EraseAtHead(m);
      m[1..]
    else
      SortedTail(m);
      var tail := Erase(m[1..], key);
      EraseAfterHead(m, key, tail);
      [m[0]] + tail
  }

  /** Every key of the map view comes from some entry of the list. */
  lemma {:induction false} KeyHasEntry<V>(m: Entries<V>, k: string)
    requires k in ToMap(m)
    ensures exists i :: 0 <= i < |m| && m[i].0 == k
    decreases |m|
  {
    if m[0].0 != k {
      KeyHasEntry(m[1..], k);
      var i :| 0 <= i < |m[1..]| && m[1..][i].0 == k;
      assert m[i + 1].0 == k;
    }
  }

  /** The head of a sorted list is the least key of its map view, and carries its value. */
  lemma HeadIsLeast<V>(m: Entries<V>, k: string)
    requires Sorted(m) && |m| > 0 && k in ToMap(m)
    ensures m[0].0 in ToMap(m) && ToMap(m)[m[0].0] == m[0].1
    ensures k == m[0].0 || Less(m[0].0, k)
  {
    KeyHasEntry(m, k);
  }

  /** A sorted list is determined by its map view: the two sorted lists with one view are equal. */
  lemma {:induction false} SortedExtensional<V>(a: Entries<V>, b: Entries<V>)
    requires Sorted(a) && Sorted(b) && ToMap(a) == ToMap(b)
    ensures a == b
    decreases |a|
  {
    assert |a| == 0 <==> |b| == 0 by {
      if |a| > 0 {
        assert a[0].0 in ToMap(b);
      }
      if |b| > 0 {
        assert b[0].0 in ToMap(a);
      }
    }
    if |a| > 0 {
      var ka, kb := a[0].0, b[0].0;
      HeadIsLeast(a, kb);
      HeadIsLeast(b, ka);
      assert ka == kb by {
        if Less(ka, kb) {
          LessAsymmetric(ka, kb);
        }
      }
      SortedTail(a);
      SortedTail(b);
      AboveNotIn(a[1..], ka);
      AboveNotIn(b[1..], kb);
      assert ToMap(a[1..]) == ToMap(a) - {ka};
      assert ToMap(b[1..]) == ToMap(b) - {kb};
      SortedExtensional(a[1..], b[1..]);
      assert a == [a[0]] + a[1..] && b == [b[0]] + b[1..];
    }
  }
}
