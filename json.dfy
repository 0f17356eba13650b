/**
 * JSON values as JavaScript holds them: the `unknown` payloads that are
 * fingerprinted, subject attributes and subject filters. An object is the
 * list of its own enumerable entries in property order.
 */
module Json {
  import opened Wrappers

  datatype Value =
    | Null
    | Bool(b: bool)
    | Num(n: real)
    | Str(s: string)
    | Arr(items: seq<Value>)
    | Obj(entries: seq<Entry>)

  datatype Entry = Entry(key: string, value: Value)

  /** Neither an array nor an object: compared by value, never by reference. */
  predicate IsPrimitive(v: Value) {
    !v.Arr? && !v.Obj?
  }

  /** No key occurs twice: true of every JavaScript object. */
  predicate UniqueKeys(es: seq<Entry>) {
    forall i, j :: 0 <= i < j < |es| ==> es[i].key != es[j].key
  }

  /** Every object nested anywhere in `v` has unique keys. */
  ghost predicate WellFormed(v: Value) {
    match v
    case Arr(items) => forall i :: 0 <= i < |items| ==> WellFormed(items[i])
    case Obj(entries) =>
      && UniqueKeys(entries)
      && forall i :: 0 <= i < |entries| ==> WellFormed(entries[i].value)
    case _ => true
  }

  /** The property `obj[k]`: the value stored under `k`, or None (undefined). */
  function Lookup(es: seq<Entry>, k: string): (r: Option<Value>)
    ensures r.Some? <==> exists i :: 0 <= i < |es| && es[i].key == k
    ensures r.Some? ==> Entry(k, r.value) in es
  {
    if es == [] then None
    else if es[0].key == k then Some(es[0].value)
    else
      var r := Lookup(es[1..], k);
      assert forall i :: 1 <= i < |es| ==> es[i] == es[1..][i - 1];
      r
  }

  /** With unique keys, the entry at position `i` is what `obj[key]` yields. */
  lemma {:induction false} LookupAt(es: seq<Entry>, i: nat)
    requires UniqueKeys(es)
    requires i < |es|
    ensures Lookup(es, es[i].key) == Some(es[i].value)
  {
    if i > 0 {
      assert UniqueKeys(es[1..]) by {
        forall p, q | 0 <= p < q < |es[1..]| ensures es[1..][p].key != es[1..][q].key {
          assert es[1..][p] == es[p + 1] && es[1..][q] == es[q + 1];
        }
      }
      assert es[1..][i - 1] == es[i];
      LookupAt(es[1..], i - 1);
    }
  }

  /** With unique keys, `obj[k]` is `v` exactly when the entry (k, v) is present. */
  lemma LookupIffMember(es: seq<Entry>, k: string, v: Value)
    requires UniqueKeys(es)
    ensures Lookup(es, k) == Some(v) <==> Entry(k, v) in es
  {
    if Entry(k, v) in es {
      var i :| 0 <= i < |es| && es[i] == Entry(k, v);
      LookupAt(es, i);
    }
  }

  /** JavaScript's `===` between two JSON values held in distinct objects. */
  predicate StrictEquals(a: Value, b: Value) {
    IsPrimitive(a) && a == b
  }
}
