/**
 * A JavaScript `Map`: entries in insertion order, each key at most once.
 * `set` on a present key replaces the value where it stands; on a new key
 * it appends. `delete` removes the key's entry and keeps the rest in order.
 */
module Dict {
  import opened Wrappers

  type Dict<K, V> = seq<(K, V)>

  /** No key occurs twice: the invariant every `Map` keeps. */
  predicate Unique<K(==), V>(d: Dict<K, V>) {
    forall i, j :: 0 <= i < j < |d| ==> d[i].0 != d[j].0
  }

  /** `r` is `s` with some elements left out and the others kept in their order. */
  predicate Subsequence<T(==)>(r: seq<T>, s: seq<T>)
    decreases |s|
  {
    if r == [] then true
    else if s == [] then false
    else if r[0] == s[0] then Subsequence(r[1..], s[1..])
    else Subsequence(r, s[1..])
  }

  /** Leaving out a new last element keeps a subsequence. */
  lemma {:induction false} SubsequenceExtend<T>(r: seq<T>, s: seq<T>, x: T)
    requires Subsequence(r, s)
    ensures Subsequence(r, s + [x])
    decreases |s|
  {
    if r != [] {
      assert (s + [x])[0] == s[0] && (s + [x])[1..] == s[1..] + [x];
      if r[0] == s[0] {
        SubsequenceExtend(r[1..], s[1..], x);
      } else {
        SubsequenceExtend(r, s[1..], x);
      }
    }
  }

  /** Keeping a new last element on both sides keeps a subsequence. */
  lemma {:induction false} SubsequenceSnoc<T>(r: seq<T>, s: seq<T>, x: T)
    requires Subsequence(r, s)
    ensures Subsequence(r + [x], s + [x])
    decreases |s|
  {
    var r' := r + [x];
    if s == [] {
      assert r == [] && r' == [x] && r'[1..] == [];
    } else {
      assert (s + [x])[0] == s[0] && (s + [x])[1..] == s[1..] + [x];
      if r == [] {
        assert r' == [x] && r'[1..] == [];
        if x != s[0] {
          SubsequenceSnoc(r, s[1..], x);
        }
      } else {
        assert r'[0] == r[0] && r'[1..] == r[1..] + [x];
        if r[0] == s[0] {
          SubsequenceSnoc(r[1..], s[1..], x);
        } else {
          SubsequenceSnoc(r, s[1..], x);
        }
      }
    }
  }

  predicate HasKey<K(==), V>(d: Dict<K, V>, k: K) {
    exists i :: 0 <= i < |d| && d[i].0 == k
  }

  /** `map.get(k)`: the value stored under `k`, or `undefined`. */
  function Get<K(==), V>(d: Dict<K, V>, k: K): (r: Option<V>)
    ensures r.Some? <==> HasKey(d, k)
    ensures r.Some? ==> (k, r.value) in d
  {
    if d == [] then None
    else if d[0].0 == k then Some(d[0].1)
    else
      var r := Get(d[1..], k);
      assert HasKey(d[1..], k) ==> HasKey(d, k) by {
        if HasKey(d[1..], k) {
          var i :| 0 <= i < |d[1..]| && d[1..][i].0 == k;
          assert d[i + 1].0 == k;
        }
      }
      assert HasKey(d, k) ==> HasKey(d[1..], k) by {
        if HasKey(d, k) {
          var i :| 0 <= i < |d| && d[i].0 == k;
          assert i > 0 && d[1..][i - 1].0 == k;
        }
      }
      r
  }

  /** In a map, the value found under the key of entry `i` is entry `i`'s value. */
  lemma {:induction false} GetAt<K, V>(d: Dict<K, V>, i: nat)
    requires Unique(d)
    requires i < |d|
    ensures Get(d, d[i].0) == Some(d[i].1)
  {
    if i > 0 {
      assert d[0].0 != d[i].0;
      assert d[1..][i - 1] == d[i];
      GetAt(d[1..], i - 1);
    }
  }

  /** In a map, `get(k)` yields `v` exactly when the entry (k, v) is present. */
  lemma GetIffMember<K, V>(d: Dict<K, V>, k: K, v: V)
    requires Unique(d)
    ensures Get(d, k) == Some(v) <==> (k, v) in d
  {
    if (k, v) in d {
      var i :| 0 <= i < |d| && d[i] == (k, v);
      GetAt(d, i);
    }
  }

  /** `map.set(k, v)`. */
  function Set<K(==,!new), V>(d: Dict<K, V>, k: K, v: V): (r: Dict<K, V>)
    ensures Get(r, k) == Some(v)
    ensures forall k' :: k' != k ==> Get(r, k') == Get(d, k')
    ensures HasKey(d, k) ==> |r| == |d|
    ensures !HasKey(d, k) ==> r == d + [(k, v)]
    ensures Unique(d) ==> Unique(r)
    ensures forall i :: 0 <= i < |d| ==> r[i].0 == d[i].0
  {
    if d == [] then [(k, v)]
    else if d[0].0 == k then
      SetAtHead(d, k, v);
      [(k, v)] + d[1..]
    else
      var rest := Set(d[1..], k, v);
      SetBehindHead(d, k, v, rest);
      [d[0]] + rest
  }

  /** Setting the first key replaces its value and keeps the rest of the map. */
  lemma SetAtHead<K, V>(d: Dict<K, V>, k: K, v: V)
    requires d != [] && d[0].0 == k
    ensures HasKey(d, k)
    ensures Unique(d) ==> Unique([(k, v)] + d[1..])
  {
    if Unique(d) {
      forall i, j | 0 <= i < j < |d| ensures ([(k, v)] + d[1..])[i].0 != ([(k, v)] + d[1..])[j].0 {
        assert d[i].0 != d[j].0;
      }
    }
  }

  /** The map's keys past its first entry. */
  lemma HasKeyInTail<K, V>(d: Dict<K, V>, k: K)
    requires d != [] && d[0].0 != k
    ensures HasKey(d, k) <==> HasKey(d[1..], k)
  {
    if HasKey(d, k) {
      var i :| 0 <= i < |d| && d[i].0 == k;
      assert d[1..][i - 1].0 == k;
    }
    if HasKey(d[1..], k) {
      var i :| 0 <= i < |d[1..]| && d[1..][i].0 == k;
      assert d[i + 1].0 == k;
    }
  }

  /** Looking up a key in a map whose first entry is kept in front of an updated tail. */
  lemma GetBehindHead<K, V>(d: Dict<K, V>, k: K, v: V, rest: Dict<K, V>)
    requires d != [] && d[0].0 != k
    requires Get(rest, k) == Some(v)
    requires forall k' :: k' != k ==> Get(rest, k') == Get(d[1..], k')
    ensures Get([d[0]] + rest, k) == Some(v)
    ensures forall k' :: k' != k ==> Get([d[0]] + rest, k') == Get(d, k')
  {
    assert ([d[0]] + rest)[1..] == rest;
  }

  /** Setting a key behind the first entry: the first entry stays in front of the updated tail. */
  lemma SetBehindHead<K, V>(d: Dict<K, V>, k: K, v: V, rest: Dict<K, V>)
    requires d != [] && d[0].0 != k
    requires Get(rest, k) == Some(v)
    requires forall k' :: k' != k ==> Get(rest, k') == Get(d[1..], k')
    requires HasKey(d[1..], k) ==> |rest| == |d[1..]|
    requires !HasKey(d[1..], k) ==> rest == d[1..] + [(k, v)]
    requires Unique(d[1..]) ==> Unique(rest)
    requires forall i :: 0 <= i < |d[1..]| ==> rest[i].0 == d[1..][i].0
    ensures Get([d[0]] + rest, k) == Some(v)
    ensures forall k' :: k' != k ==> Get([d[0]] + rest, k') == Get(d, k')
    ensures HasKey(d, k) ==> |[d[0]] + rest| == |d|
    ensures !HasKey(d, k) ==> [d[0]] + rest == d + [(k, v)]
    ensures Unique(d) ==> Unique([d[0]] + rest)
    ensures forall i :: 0 <= i < |d| ==> ([d[0]] + rest)[i].0 == d[i].0
  {
    var r := [d[0]] + rest;
    GetBehindHead(d, k, v, rest);
    HasKeyInTail(d, k);
    if !HasKey(d, k) {
      calc {
        r;
        [d[0]] + (d[1..] + [(k, v)]);
        ([d[0]] + d[1..]) + [(k, v)];
        { assert [d[0]] + d[1..] == d; }
        d + [(k, v)];
      }
    }
    forall i | 0 <= i < |d| ensures r[i].0 == d[i].0 {
      if i > 0 {
        assert r[i] == rest[i - 1] && d[1..][i - 1] == d[i];
      }
    }
    if Unique(d) {
      UniqueBehindHead(d, k, rest);
    }
  }

  /** Entries put behind the head of a map, under keys the map's tail had or under `k`, keep its keys distinct. */
  lemma UniqueBehindHead<K, V>(d: Dict<K, V>, k: K, rest: Dict<K, V>)
    requires d != [] && d[0].0 != k && Unique(d)
    requires forall k' :: k' != k ==> Get(rest, k') == Get(d[1..], k')
    requires Unique(d[1..]) ==> Unique(rest)
    ensures Unique([d[0]] + rest)
  {
    var r := [d[0]] + rest;
    assert Unique(d[1..]) by {
      forall i, j | 0 <= i < j < |d[1..]| ensures d[1..][i].0 != d[1..][j].0 {
        assert d[1..][i] == d[i + 1] && d[1..][j] == d[j + 1];
      }
    }
    assert !HasKey(d[1..], d[0].0) by {
      forall i | 0 <= i < |d[1..]| ensures d[1..][i].0 != d[0].0 {
        assert d[1..][i] == d[i + 1];
      }
    }
    assert Get(rest, d[0].0) == Get(d[1..], d[0].0);
    forall i, j | 0 <= i < j < |r| ensures r[i].0 != r[j].0 {
      if i == 0 {
        assert r[j] == rest[j - 1];
      } else {
        assert r[i] == rest[i - 1] && r[j] == rest[j - 1];
      }
    }
  }

  /** `map.delete(k)`. */
  function Delete<K(==,!new), V>(d: Dict<K, V>, k: K): (r: Dict<K, V>)
    ensures Get(r, k) == None
    ensures forall k' :: k' != k ==> Get(r, k') == Get(d, k')
    ensures |r| <= |d|
    ensures Unique(d) ==> Unique(r)
    ensures forall e :: e in r ==> e in d && e.0 != k
    ensures forall i :: 0 <= i < |d| && d[i].0 != k ==> d[i] in r
    ensures Subsequence(r, d)
  {
    if d == [] then []
    else if d[0].0 == k then
      var rest := Delete(d[1..], k);
      assert forall i :: 1 <= i < |d| ==> d[i] == d[1..][i - 1];
      assert rest != [] ==> rest[0] != d[0];
      rest
    else
      var rest := Delete(d[1..], k);
      assert forall i :: 1 <= i < |d| ==> d[i] == d[1..][i - 1];
      assert ([d[0]] + rest)[1..] == rest;
      assert forall e :: e in [d[0]] + rest ==> e == d[0] || e in rest;
      assert Unique(d) ==> forall e :: e in rest ==> e.0 != d[0].0 by {
        if Unique(d) {
          forall e | e in rest ensures e.0 != d[0].0 {
            var i :| 0 <= i < |d[1..]| && d[1..][i] == e;
            assert d[i + 1] == e;
          }
        }
      }
      [d[0]] + rest
  }

  /** Deleting an absent key changes nothing. */
  lemma {:induction false} DeleteAbsent<K(!new), V>(d: Dict<K, V>, k: K)
    requires !HasKey(d, k)
    ensures Delete(d, k) == d
  {
    if d != [] {
      var tail := d[1..];
      assert !HasKey(tail, k) by {
        forall j | 0 <= j < |tail| ensures tail[j].0 != k {
          assert tail[j] == d[j + 1];
        }
      }
      DeleteAbsent(tail, k);
      assert d == [d[0]] + tail;
    }
  }

  /** Deleting a key that the front part lacks deletes it from the back part only. */
  lemma {:induction false} DeleteBehind<K(!new), V>(a: Dict<K, V>, b: Dict<K, V>, k: K)
    requires !HasKey(a, k)
    ensures Delete(a + b, k) == a + Delete(b, k)
  {
    if a != [] {
      var tail := a[1..];
      assert (a + b)[0] == a[0] && (a + b)[1..] == tail + b;
      assert !HasKey(tail, k) by {
        forall j | 0 <= j < |tail| ensures tail[j].0 != k {
          assert tail[j] == a[j + 1];
        }
      }
      calc {
        Delete(a + b, k);
        [a[0]] + Delete(tail + b, k);
        { DeleteBehind(tail, b, k); }
        [a[0]] + (tail + Delete(b, k));
        { assert a == [a[0]] + tail; }
        a + Delete(b, k);
      }
    } else {
      assert a + b == b;
      assert a + Delete(b, k) == Delete(b, k);
    }
  }

  /** The keys, in insertion order (`map.keys()`). */
  function KeySeq<K(==), V>(d: Dict<K, V>): (ks: seq<K>)
    ensures |ks| == |d|
    ensures forall i :: 0 <= i < |d| ==> ks[i] == d[i].0
  {
    seq(|d|, i requires 0 <= i < |d| => d[i].0)
  }

  /** The values, in insertion order (`Array.from(map.values())`). */
  function Values<K(==), V>(d: Dict<K, V>): (vs: seq<V>)
    ensures |vs| == |d|
    ensures forall i :: 0 <= i < |d| ==> vs[i] == d[i].1
  {
    seq(|d|, i requires 0 <= i < |d| => d[i].1)
  }

  /** A key is among the pairs exactly when it is among all but the last or is the last one's. */
  lemma HasKeyDropLast<K, V>(pairs: seq<(K, V)>, k: K)
    requires pairs != []
    ensures HasKey(pairs, k) <==> HasKey(pairs[..|pairs| - 1], k) || pairs[|pairs| - 1].0 == k
  {
    var init := pairs[..|pairs| - 1];
    if HasKey(init, k) {
      var i :| 0 <= i < |init| && init[i].0 == k;
      assert pairs[i].0 == k;
    }
    if HasKey(pairs, k) && pairs[|pairs| - 1].0 != k {
      var i :| 0 <= i < |pairs| && pairs[i].0 == k;
      assert init[i].0 == k;
    }
  }

  /** All but the last entry of a map form a map without the last entry's key. */
  lemma UniqueDropLast<K, V>(d: Dict<K, V>)
    requires d != []
    ensures Unique(d) ==> Unique(d[..|d| - 1]) && !HasKey(d[..|d| - 1], d[|d| - 1].0)
  {
    var init := d[..|d| - 1];
    if Unique(d) {
      forall i | 0 <= i < |init| ensures init[i].0 != d[|d| - 1].0 {
        assert init[i] == d[i];
      }
    }
  }

  /** The value of the last pair with key `k`, if any. */
  function LastValue<K(==), V>(pairs: seq<(K, V)>, k: K): Option<V> {
    if pairs == [] then None
    else if pairs[|pairs| - 1].0 == k then Some(pairs[|pairs| - 1].1)
    else LastValue(pairs[..|pairs| - 1], k)
  }

  /** Each key once, at the position of its first occurrence. */
  function FirstOccurrences<K(==)>(ks: seq<K>): seq<K> {
    if ks == [] then []
    else
      var init := FirstOccurrences(ks[..|ks| - 1]);
      if ks[|ks| - 1] in init then init else init + [ks[|ks| - 1]]
  }

  /** The keys of a map are exactly the keys it has. */
  lemma KeySeqHasKey<K, V>(d: Dict<K, V>, k: K)
    ensures k in KeySeq(d) <==> HasKey(d, k)
  {
    if k in KeySeq(d) {
      var i :| 0 <= i < |d| && KeySeq(d)[i] == k;
    }
    if HasKey(d, k) {
      var i :| 0 <= i < |d| && d[i].0 == k;
      assert KeySeq(d)[i] == k;
    }
  }

  /**
   * `new Map(pairs)`: the pairs are `set` one after the other, so a
   * repeated key keeps its first position and its last value. Rebuilding a
   * map from its own entries gives the same map.
   */
  function FromPairs<K(==,!new), V>(pairs: seq<(K, V)>): (r: Dict<K, V>)
    ensures Unique(r)
    ensures forall k :: HasKey(r, k) <==> HasKey(pairs, k)
    ensures forall k :: Get(r, k) == LastValue(pairs, k)
    ensures KeySeq(r) == FirstOccurrences(KeySeq(pairs))
    ensures Unique(pairs) ==> r == pairs
  {
    if pairs == [] then []
    else
      var front := pairs[..|pairs| - 1];
      var init := FromPairs(front);
      var last := pairs[|pairs| - 1];
      var r := Set(init, last.0, last.1);
      FromPairsStep(pairs, init);
      LastValueStep(pairs, init);
      FirstOccurrencesStep(pairs, init);
      r
  }

  /** Setting the last pair on the map of the others gives a map of all the pairs. */
  lemma FromPairsStep<K(!new), V>(pairs: seq<(K, V)>, init: Dict<K, V>)
    requires pairs != []
    requires Unique(init)
    requires forall k :: HasKey(init, k) <==> HasKey(pairs[..|pairs| - 1], k)
    requires Unique(pairs[..|pairs| - 1]) ==> init == pairs[..|pairs| - 1]
    ensures var r := Set(init, pairs[|pairs| - 1].0, pairs[|pairs| - 1].1);
      && Unique(r)
      && (forall k :: HasKey(r, k) <==> HasKey(pairs, k))
      && (Unique(pairs) ==> r == pairs)
  {
    var last := pairs[|pairs| - 1];
    var r := Set(init, last.0, last.1);
    forall k ensures HasKey(r, k) <==> HasKey(pairs, k) {
      HasKeyDropLast(pairs, k);
      assert Get(r, k).Some? <==> HasKey(r, k);
      assert Get(init, k).Some? <==> HasKey(init, k);
    }
    UniqueDropLast(pairs);
    if Unique(pairs) {
      assert pairs == pairs[..|pairs| - 1] + [last];
    }
  }

  /** Setting the last pair makes its value the one found under its key. */
  lemma LastValueStep<K(!new), V>(pairs: seq<(K, V)>, init: Dict<K, V>)
    requires pairs != []
    requires forall k :: Get(init, k) == LastValue(pairs[..|pairs| - 1], k)
    ensures var r := Set(init, pairs[|pairs| - 1].0, pairs[|pairs| - 1].1);
      forall k :: Get(r, k) == LastValue(pairs, k)
  {
  }

  /** Setting the last pair puts its key last, unless it came earlier. */
  lemma FirstOccurrencesStep<K(!new), V>(pairs: seq<(K, V)>, init: Dict<K, V>)
    requires pairs != []
    requires KeySeq(init) == FirstOccurrences(KeySeq(pairs[..|pairs| - 1]))
    ensures KeySeq(Set(init, pairs[|pairs| - 1].0, pairs[|pairs| - 1].1)) == FirstOccurrences(KeySeq(pairs))
  {
    var last := pairs[|pairs| - 1];
    var r := Set(init, last.0, last.1);
    var ks := KeySeq(pairs);
    assert ks[..|ks| - 1] == KeySeq(pairs[..|pairs| - 1]);
    assert ks[|ks| - 1] == last.0;
    KeySeqHasKey(init, last.0);
    if HasKey(init, last.0) {
      assert KeySeq(r) == KeySeq(init);
    } else {
      assert KeySeq(r) == KeySeq(init) + [last.0];
    }
  }
}
