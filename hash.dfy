/**
 * The fingerprint canonicaliser: `stableValue` rebuilds a JSON value with
 * every object's entries sorted by key, and `stableHashPayload` is the
 * fingerprint compared on idempotent replay.
 */
module Hash {
  import opened Wrappers
  import opened Json
  import opened Sorting

  /** The entry comparator `([a], [b]) => a.localeCompare(b)`, read as "sorts before". */
  predicate KeyBefore(x: Entry, y: Entry) {
    StrLess(x.key, y.key)
  }

  lemma KeyBeforeIsStrictWeakOrder()
    ensures StrictWeakOrder(KeyBefore)
  {
    forall a: Entry, b: Entry | KeyBefore(a, b) ensures !KeyBefore(b, a) {
      StrLessAsymmetric(a.key, b.key);
    }
    forall a: Entry, b: Entry, c: Entry | !KeyBefore(b, a) && !KeyBefore(c, b) ensures !KeyBefore(c, a) {
      StrNotLessTransitive(a.key, b.key, c.key);
    }
  }

  /**
   * Arrays are rebuilt element by element; objects (non-null) are rebuilt
   * from their entries sorted by key, each value canonicalised; every
   * primitive, null included, is returned as it is.
   */
  function StableValue(v: Value): (r: Value)
    ensures IsPrimitive(v) ==> r == v
    ensures v.Arr? ==> r.Arr? && |r.items| == |v.items|
    ensures v.Obj? ==> r.Obj? && |r.entries| == |v.entries|
  {
    match v
    case Arr(items) => Arr(seq(|items|, i requires 0 <= i < |items| => StableValue(items[i])))
    case Obj(entries) =>
      var sorted := SortBy(entries, KeyBefore);
      assert forall e | e in sorted :: e in entries by {
        forall e | e in sorted ensures e in entries { assert e in multiset(sorted); }
      }
      Obj(seq(|sorted|, i requires 0 <= i < |sorted| && sorted[i] in entries =>
        Entry(sorted[i].key, StableValue(sorted[i].value))))
    case _ => v
  }

  /** Arrays are canonicalised element by element, keeping their order and length. */
  lemma ArrayCanonicalised(items: seq<Value>)
    ensures StableValue(Arr(items)).Arr? && |StableValue(Arr(items)).items| == |items|
    ensures forall i :: 0 <= i < |items| ==> StableValue(Arr(items)).items[i] == StableValue(items[i])
  {
  }

  /** `stableHashPayload`: the fingerprint is the canonical form of the payload. */
  function StableHashPayload(payload: Value): (r: Value)
    ensures IsPrimitive(payload) ==> r == payload
    ensures WellFormed(payload) ==> Canonical(r)
  {
    StableValueCanonical(payload);
    StableValue(payload)
  }

  /** The canonical form of `obj[k]`. */
  function StableOpt(o: Option<Value>): Option<Value> {
    match o
    case Some(v) => Some(StableValue(v))
    case None => None
  }

  /** Keys strictly increasing: sorted by key and no key twice. */
  predicate StrictlyKeySorted(es: seq<Entry>) {
    forall i, j :: 0 <= i < j < |es| ==> StrLess(es[i].key, es[j].key)
  }

  /** Every object nested in `v` has its entries strictly sorted by key. */
  ghost predicate Canonical(v: Value) {
    match v
    case Arr(items) => forall i :: 0 <= i < |items| ==> Canonical(items[i])
    case Obj(entries) =>
      && StrictlyKeySorted(entries)
      && forall i :: 0 <= i < |entries| ==> Canonical(entries[i].value)
    case _ => true
  }

  // ---------------------------------------------------------------------
  // Facts about entry lists

  /** Reordering entries keeps their keys unique. */
  lemma PermutationKeepsUniqueKeys(xs: seq<Entry>, s: seq<Entry>)
    requires multiset(s) == multiset(xs)
    requires UniqueKeys(xs)
    ensures UniqueKeys(s)
  {
    forall i, j | 0 <= i < j < |s| ensures s[i].key != s[j].key {
      assert s[i] in multiset(xs) && s[j] in multiset(xs);
      var p :| 0 <= p < |xs| && xs[p] == s[i];
      var q :| 0 <= q < |xs| && xs[q] == s[j];
      if s[i] == s[j] {
        TwoPositionsCountTwice(s, i, j);
        var p', q' := TwoPositionsOf(xs, s[i]);
        assert false;
      }
    }
  }

  lemma TwoPositionsCountTwice<T>(s: seq<T>, i: nat, j: nat)
    requires i < j < |s| && s[i] == s[j]
    ensures multiset(s)[s[i]] >= 2
  {
    assert s == s[..i] + [s[i]] + s[i + 1..j] + [s[j]] + s[j + 1..];
  }

  lemma {:induction false} TwoPositionsOf<T>(s: seq<T>, x: T) returns (p: nat, q: nat)
    requires multiset(s)[x] >= 2
    ensures p < q < |s| && s[p] == x && s[q] == x
  {
    assert s == [s[0]] + s[1..];
    if s[0] == x {
      assert x in multiset(s[1..]);
      var k :| 0 <= k < |s[1..]| && s[1..][k] == x;
      p, q := 0, k + 1;
    } else {
      var p', q' := TwoPositionsOf(s[1..], x);
      p, q := p' + 1, q' + 1;
    }
  }

  /** Sorted by key with unique keys means strictly increasing keys. */
  lemma SortedUniqueIsStrict(s: seq<Entry>)
    requires SortedBy(s, KeyBefore)
    requires UniqueKeys(s)
    ensures StrictlyKeySorted(s)
  {
    forall i, j | 0 <= i < j < |s| ensures StrLess(s[i].key, s[j].key) {
      assert !KeyBefore(s[j], s[i]);
      StrLessTotal(s[i].key, s[j].key);
    }
  }

  lemma HeadIsMember<T>(s: seq<T>)
    ensures s != [] ==> s[0] in s
  {
  }

  /** Two strictly increasing key lists with the same keys are the same list. */
  lemma {:induction false} StrictlySortedDetermined(a: seq<string>, b: seq<string>)
    requires forall i, j :: 0 <= i < j < |a| ==> StrLess(a[i], a[j])
    requires forall i, j :: 0 <= i < j < |b| ==> StrLess(b[i], b[j])
    requires forall x :: x in a <==> x in b
    ensures a == b
  {
    if a == [] {
      HeadIsMember(b);
    } else {
      assert a[0] in a;
      assert b != [];
      assert b[0] in b;
      var k :| 0 <= k < |a| && a[k] == b[0];
      var m :| 0 <= m < |b| && b[m] == a[0];
      if k > 0 && m > 0 {
        StrLessAsymmetric(a[0], b[0]);
      }
      assert a[0] == b[0];
      StrLessIrreflexive(a[0]);
      assert a[0] !in a[1..];
      assert b[0] !in b[1..];
      assert a == [a[0]] + a[1..] && b == [b[0]] + b[1..];
      forall x ensures x in a[1..] <==> x in b[1..] {
        assert x in a <==> x in b;
        assert x in a <==> x == a[0] || x in a[1..];
        assert x in b <==> x == b[0] || x in b[1..];
      }
      StrictlySortedDetermined(a[1..], b[1..]);
    }
  }

  function KeysOf(es: seq<Entry>): (ks: seq<string>)
    ensures |ks| == |es|
    ensures forall i :: 0 <= i < |es| ==> ks[i] == es[i].key
  {
    seq(|es|, i requires 0 <= i < |es| => es[i].key)
  }

  // ---------------------------------------------------------------------
  // What the canonicaliser does to an object

  /** An object's canonical entries: its sorted entries, each value canonicalised. */
  lemma StableObjectEntries(es: seq<Entry>)
    ensures StableValue(Obj(es)).Obj?
    ensures KeysOf(StableValue(Obj(es)).entries) == KeysOf(SortBy(es, KeyBefore))
    ensures forall i :: 0 <= i < |es| ==>
      StableValue(Obj(es)).entries[i].value == StableValue(SortBy(es, KeyBefore)[i].value)
  {
  }

  /** Sorting an object's entries keeps unique keys unique and puts them in strictly increasing order. */
  lemma SortedEntriesStrict(es: seq<Entry>)
    requires UniqueKeys(es)
    ensures UniqueKeys(SortBy(es, KeyBefore))
    ensures StrictlyKeySorted(SortBy(es, KeyBefore))
  {
    KeyBeforeIsStrictWeakOrder();
    SortBySorted(es, KeyBefore);
    PermutationKeepsUniqueKeys(es, SortBy(es, KeyBefore));
    SortedUniqueIsStrict(SortBy(es, KeyBefore));
  }

  /**
   * Canonicalising an object with unique keys yields an object whose keys
   * are strictly increasing (so sorted and still unique), which has the
   * same keys, and whose value under each key is the canonical form of the
   * original value under that key.
   */
  lemma ObjectCanonicalised(es: seq<Entry>)
    requires UniqueKeys(es)
    ensures StableValue(Obj(es)).Obj?
    ensures StrictlyKeySorted(StableValue(Obj(es)).entries)
    ensures forall k :: Lookup(StableValue(Obj(es)).entries, k) == StableOpt(Lookup(es, k))
  {
    var sorted := SortBy(es, KeyBefore);
    var r := StableValue(Obj(es)).entries;
    StableObjectEntries(es);
    SortedEntriesStrict(es);
    assert StrictlyKeySorted(r) by {
      forall i, j | 0 <= i < j < |r| ensures StrLess(r[i].key, r[j].key) {
        assert KeysOf(r)[i] == KeysOf(sorted)[i] && KeysOf(r)[j] == KeysOf(sorted)[j];
      }
    }
    assert UniqueKeys(r) by {
      forall i, j | 0 <= i < j < |r| ensures r[i].key != r[j].key {
        StrLessIrreflexive(r[i].key);
      }
    }
    forall k ensures Lookup(r, k) == StableOpt(Lookup(es, k)) {
      LookupAfterCanonical(es, r, k);
    }
  }

  /** Every key of `es` is a key of any `r` listing the keys of a permutation of `es`. */
  lemma KeysSurvivePermutation(es: seq<Entry>, sorted: seq<Entry>, r: seq<Entry>)
    requires multiset(sorted) == multiset(es)
    requires KeysOf(r) == KeysOf(sorted)
    ensures forall p :: 0 <= p < |es| ==> es[p].key in KeysOf(r)
  {
    forall p | 0 <= p < |es| ensures es[p].key in KeysOf(r) {
      assert es[p] in multiset(es);
      assert es[p] in sorted;
      var i :| 0 <= i < |sorted| && sorted[i] == es[p];
      assert KeysOf(sorted)[i] == es[p].key;
    }
  }

  lemma EveryKeySurvives(es: seq<Entry>, r: seq<Entry>)
    requires KeysOf(r) == KeysOf(SortBy(es, KeyBefore))
    ensures forall p :: 0 <= p < |es| ==> es[p].key in KeysOf(r)
  {
    KeysSurvivePermutation(es, SortBy(es, KeyBefore), r);
  }

  lemma LookupAfterCanonical(es: seq<Entry>, r: seq<Entry>, k: string)
    requires UniqueKeys(es) && UniqueKeys(r) && UniqueKeys(SortBy(es, KeyBefore))
    requires KeysOf(r) == KeysOf(SortBy(es, KeyBefore))
    requires forall i :: 0 <= i < |es| ==> r[i].value == StableValue(SortBy(es, KeyBefore)[i].value)
    ensures Lookup(r, k) == StableOpt(Lookup(es, k))
  {
    var sorted := SortBy(es, KeyBefore);
    EveryKeySurvives(es, r);
    if k in KeysOf(r) {
      var i :| 0 <= i < |r| && KeysOf(r)[i] == k;
      LookupAt(r, i);
      assert KeysOf(sorted)[i] == k;
      assert sorted[i] in multiset(es);
      var p :| 0 <= p < |es| && es[p] == sorted[i];
      LookupAt(es, p);
    }
  }

  // ---------------------------------------------------------------------
  // Canonical form, idempotence, key-order insensitivity

  /** The canonicaliser's output is canonical. */
  lemma {:induction false} StableValueCanonical(v: Value)
    ensures WellFormed(v) ==> Canonical(StableValue(v))
    decreases v
  {
    if !WellFormed(v) { return; }
    match v
    case Arr(items) =>
      forall i | 0 <= i < |items| ensures Canonical(StableValue(v).items[i]) {
        StableValueCanonical(items[i]);
      }
    case Obj(es) =>
      ObjectCanonicalised(es);
      var sorted := SortBy(es, KeyBefore);
      var r := StableValue(v).entries;
      forall i | 0 <= i < |r| ensures Canonical(r[i].value) {
        assert sorted[i] in multiset(es);
        var p :| 0 <= p < |es| && es[p] == sorted[i];
        StableValueCanonical(es[p].value);
      }
    case _ =>
  }

  /** A canonical value is a fixed point of the canonicaliser. */
  lemma {:induction false} CanonicalFixpoint(v: Value)
    requires Canonical(v)
    ensures StableValue(v) == v
    decreases v
  {
    match v
    case Arr(items) =>
      forall i | 0 <= i < |items| ensures StableValue(items[i]) == items[i] {
        CanonicalFixpoint(items[i]);
      }
      assert StableValue(v).items == items;
    case Obj(es) =>
      assert SortedBy(es, KeyBefore) by {
        forall i, j | 0 <= i < j < |es| ensures !KeyBefore(es[j], es[i]) {
          StrLessAsymmetric(es[i].key, es[j].key);
        }
      }
      SortByOfSorted(es, KeyBefore);
      forall i | 0 <= i < |es| ensures StableValue(es[i].value) == es[i].value {
        CanonicalFixpoint(es[i].value);
      }
      assert StableValue(v).entries == es;
    case _ =>
  }

  /** Canonicalising twice is canonicalising once, for every value. */
  lemma {:induction false} StableValueIdempotent(v: Value)
    ensures StableValue(StableValue(v)) == StableValue(v)
    decreases v
  {
    match v
    case Arr(items) =>
      var r := StableValue(v);
      forall i | 0 <= i < |items| ensures StableValue(r.items[i]) == r.items[i] {
        StableValueIdempotent(items[i]);
      }
      assert StableValue(r).items == r.items;
    case Obj(es) =>
      forall p | 0 <= p < |es| ensures StableValue(StableValue(es[p].value)) == StableValue(es[p].value) {
        StableValueIdempotent(es[p].value);
      }
      ObjectIdempotent(es);
    case _ =>
  }

  /** An object whose values canonicalise idempotently canonicalises idempotently. */
  lemma ObjectIdempotent(es: seq<Entry>)
    requires forall p :: 0 <= p < |es| ==> StableValue(StableValue(es[p].value)) == StableValue(es[p].value)
    ensures StableValue(StableValue(Obj(es))) == StableValue(Obj(es))
  {
    var sorted := SortBy(es, KeyBefore);
    var r := StableValue(Obj(es)).entries;
    KeyBeforeIsStrictWeakOrder();
    SortBySorted(es, KeyBefore);
    assert forall i :: 0 <= i < |r| ==> r[i] == Entry(sorted[i].key, StableValue(sorted[i].value));
    assert SortedBy(r, KeyBefore) by {
      forall i, j | 0 <= i < j < |r| ensures !KeyBefore(r[j], r[i]) {
        assert !KeyBefore(sorted[j], sorted[i]);
      }
    }
    SortByOfSorted(r, KeyBefore);
    forall i | 0 <= i < |r| ensures StableValue(r[i].value) == r[i].value {
      assert sorted[i] in multiset(es);
      var p :| 0 <= p < |es| && es[p] == sorted[i];
    }
    assert StableValue(StableValue(Obj(es))).entries == r;
  }

  /** With unique keys on both sides, reordering entries does not change `obj[k]`. */
  lemma LookupPermutation(xs: seq<Entry>, s: seq<Entry>, k: string)
    requires multiset(s) == multiset(xs)
    requires UniqueKeys(xs) && UniqueKeys(s)
    ensures Lookup(s, k) == Lookup(xs, k)
  {
    if Lookup(s, k).Some? {
      LookupIffMember(s, k, Lookup(s, k).value);
      assert Entry(k, Lookup(s, k).value) in multiset(xs);
      LookupIffMember(xs, k, Lookup(s, k).value);
    }
    if Lookup(xs, k).Some? {
      LookupIffMember(xs, k, Lookup(xs, k).value);
      assert Entry(k, Lookup(xs, k).value) in multiset(s);
      LookupIffMember(s, k, Lookup(xs, k).value);
    }
  }

  /**
   * `a` and `b` differ at most in the order of the entries of their objects,
   * at any depth: arrays agree position by position; objects have unique
   * keys, the same keys, and related values under each key.
   */
  ghost predicate SameUpToKeyOrder(a: Value, b: Value)
    decreases a
  {
    match a
    case Arr(xs) =>
      && b.Arr? && |xs| == |b.items|
      && forall i :: 0 <= i < |xs| ==> SameUpToKeyOrder(xs[i], b.items[i])
    case Obj(xs) =>
      && b.Obj? && UniqueKeys(xs) && UniqueKeys(b.entries)
      && (forall k :: Lookup(xs, k).Some? <==> Lookup(b.entries, k).Some?)
      && forall i :: 0 <= i < |xs| ==>
           && Lookup(b.entries, xs[i].key).Some?
           && SameUpToKeyOrder(xs[i].value, Lookup(b.entries, xs[i].key).value)
    case _ => a == b
  }

  /** Every well-formed value is the same as itself up to key order. */
  lemma {:induction false} SameUpToKeyOrderReflexive(v: Value)
    requires WellFormed(v)
    ensures SameUpToKeyOrder(v, v)
    decreases v
  {
    match v
    case Arr(xs) =>
      forall i | 0 <= i < |xs| ensures SameUpToKeyOrder(xs[i], xs[i]) {
        SameUpToKeyOrderReflexive(xs[i]);
      }
    case Obj(xs) =>
      forall i | 0 <= i < |xs|
        ensures Lookup(xs, xs[i].key).Some? && SameUpToKeyOrder(xs[i].value, Lookup(xs, xs[i].key).value)
      {
        LookupAt(xs, i);
        SameUpToKeyOrderReflexive(xs[i].value);
      }
    case _ =>
  }

  /** Sorting two related objects' entries lines their keys up. */
  lemma AlignKeys(xs: seq<Entry>, ys: seq<Entry>)
    requires SameUpToKeyOrder(Obj(xs), Obj(ys))
    ensures UniqueKeys(SortBy(xs, KeyBefore)) && UniqueKeys(SortBy(ys, KeyBefore))
    ensures KeysOf(SortBy(xs, KeyBefore)) == KeysOf(SortBy(ys, KeyBefore))
  {
    var sx, sy := SortBy(xs, KeyBefore), SortBy(ys, KeyBefore);
    SortedEntriesStrict(xs);
    SortedEntriesStrict(ys);
    forall k ensures k in KeysOf(sx) <==> k in KeysOf(sy) {
      LookupPermutation(xs, sx, k);
      LookupPermutation(ys, sy, k);
      assert k in KeysOf(sx) <==> Lookup(sx, k).Some?;
      assert k in KeysOf(sy) <==> Lookup(sy, k).Some?;
    }
    StrictlySortedDetermined(KeysOf(sx), KeysOf(sy));
  }

  /** The entries at one position of two related sorted objects have related values. */
  lemma PairAt(xs: seq<Entry>, ys: seq<Entry>, i: nat) returns (p: nat)
    requires SameUpToKeyOrder(Obj(xs), Obj(ys))
    requires i < |xs|
    ensures |SortBy(ys, KeyBefore)| == |xs|
    ensures p < |xs| && xs[p] == SortBy(xs, KeyBefore)[i]
    ensures SameUpToKeyOrder(xs[p].value, SortBy(ys, KeyBefore)[i].value)
  {
    var sx, sy := SortBy(xs, KeyBefore), SortBy(ys, KeyBefore);
    AlignKeys(xs, ys);
    var k := sx[i].key;
    assert KeysOf(sx)[i] == KeysOf(sy)[i];
    LookupAt(sx, i);
    LookupAt(sy, i);
    LookupPermutation(xs, sx, k);
    LookupPermutation(ys, sy, k);
    LookupIffMember(xs, k, sx[i].value);
    p :| 0 <= p < |xs| && xs[p] == sx[i];
  }

  /** Values that differ only in object key order have the same canonical form. */
  lemma {:induction false} KeyOrderIrrelevant(a: Value, b: Value)
    requires SameUpToKeyOrder(a, b)
    ensures StableValue(a) == StableValue(b)
    decreases a
  {
    match a
    case Arr(xs) =>
      forall i | 0 <= i < |xs| ensures StableValue(xs[i]) == StableValue(b.items[i]) {
        KeyOrderIrrelevant(xs[i], b.items[i]);
      }
      assert StableValue(a).items == StableValue(b).items;
    case Obj(xs) =>
      var ys := b.entries;
      var rx, ry := StableValue(a).entries, StableValue(b).entries;
      AlignKeys(xs, ys);
      StableObjectEntries(xs);
      StableObjectEntries(ys);
      forall i | 0 <= i < |rx| ensures rx[i] == ry[i] {
        var p := PairAt(xs, ys, i);
        KeyOrderIrrelevant(xs[p].value, SortBy(ys, KeyBefore)[i].value);
        assert KeysOf(rx)[i] == KeysOf(ry)[i];
      }
      assert rx == ry;
    case _ =>
  }

  /** Payloads that differ only in the order of object keys fingerprint alike. */
  lemma FingerprintIgnoresKeyOrder(a: Value, b: Value)
    requires SameUpToKeyOrder(a, b)
    ensures StableHashPayload(a) == StableHashPayload(b)
  {
    KeyOrderIrrelevant(a, b);
  }
}
