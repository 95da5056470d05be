/**
 * JavaScript objects used as dictionaries: the `users` and `auth` objects of the
 * JSON stores and a user's `collection`. An object is its key sequence, in the
 * order `Object.keys`, `Object.values` and `Object.entries` enumerate it, together
 * with the map from keys to values.
 *
 * ECMAScript enumerates the keys that are array indices first, in ascending
 * numeric order, and then the other string keys in the order they were added
 * (OrdinaryOwnPropertyKeys, section 10.1.11.1 of ECMA-262). User ids are
 * numerals, so this is the order in which every pass over the users meets them.
 */
module JsObjects {
  import opened Wrappers
  import opened Text

  /** Keys ECMAScript treats as array indices: canonical numerals below 2^32 - 1. */
  predicate IsArrayIndex(k: string) {
    IsCanonicalNumeral(k) && DecimalValue(k) <= 4294967294
  }

  predicate Distinct(keys: seq<string>) {
    forall i, j :: 0 <= i < j < |keys| ==> keys[i] != keys[j]
  }

  /** Every array-index key comes before the later ones, in ascending numeric order. */
  predicate InEnumerationOrder(keys: seq<string>) {
    forall i, j :: 0 <= i < j < |keys| && IsArrayIndex(keys[j]) ==>
      IsArrayIndex(keys[i]) && DecimalValue(keys[i]) < DecimalValue(keys[j])
  }

  datatype Object<V> = Object(keys: seq<string>, entries: map<string, V>)

  ghost predicate Valid<V>(o: Object<V>) {
    && Distinct(o.keys)
    && (forall k :: k in o.entries <==> k in o.keys)
    && InEnumerationOrder(o.keys)
  }

  /** `{}` */
  function EmptyObject<V>(): (o: Object<V>)
    ensures Valid(o) && o.keys == []
  {
    Object([], map[])
  }

  /** `o[k]`, where a missing key reads as `undefined`. */
  function Get<V>(o: Object<V>, k: string): Option<V> {
    if k in o.entries then Some(o.entries[k]) else None
  }

  /** `Object.values(o)`, in enumeration order. */
  function Values<V>(o: Object<V>): (vs: seq<V>)
    requires Valid(o)
    ensures |vs| == |o.keys|
    ensures forall i :: 0 <= i < |o.keys| ==> vs[i] == o.entries[o.keys[i]]
  {
    seq(|o.keys|, i requires 0 <= i < |o.keys| => o.entries[o.keys[i]])
  }

  /** The position a new array-index key with value `n` takes: after the index keys below `n`. */
  function IndexSlot(keys: seq<string>, n: nat): (p: nat)
    ensures p <= |keys|
    ensures forall i :: 0 <= i < p ==> IsArrayIndex(keys[i]) && DecimalValue(keys[i]) < n
    ensures p < |keys| ==> !IsArrayIndex(keys[p]) || DecimalValue(keys[p]) >= n
  {
    if keys == [] || !IsArrayIndex(keys[0]) || DecimalValue(keys[0]) >= n then 0
    else 1 + IndexSlot(keys[1..], n)
  }

  lemma InsertIndexKey(keys: seq<string>, k: string)
    requires Distinct(keys) && InEnumerationOrder(keys)
    requires IsArrayIndex(k) && k !in keys
    ensures var p := IndexSlot(keys, DecimalValue(k));
            var r := keys[..p] + [k] + keys[p..];
            Distinct(r) && InEnumerationOrder(r)
  {
    var p := IndexSlot(keys, DecimalValue(k));
    InsertDistinct(keys, k, p);
    AboveSlot(keys, k);
    InsertOrdered(keys, k, p);
  }

  /** A key not yet present keeps the keys distinct wherever it goes. */
  lemma InsertDistinct(keys: seq<string>, k: string, p: nat)
    requires Distinct(keys) && k !in keys && p <= |keys|
    ensures Distinct(keys[..p] + [k] + keys[p..])
  {
    var r := keys[..p] + [k] + keys[p..];
    forall i, j | 0 <= i < j < |r|
      ensures r[i] != r[j]
    {
      if j < p {
        assert r[i] == keys[i] && r[j] == keys[j];
      } else if j == p {
        assert r[j] == k && r[i] == keys[i];
      } else if i < p {
        assert r[i] == keys[i] && r[j] == keys[j - 1];
      } else if i == p {
        assert r[i] == k && r[j] == keys[j - 1];
      } else {
        assert r[i] == keys[i - 1] && r[j] == keys[j - 1];
      }
    }
  }

  /** An index key put between the index keys below it and the keys above it keeps the enumeration order. */
  lemma InsertOrdered(keys: seq<string>, k: string, p: nat)
    requires InEnumerationOrder(keys) && IsArrayIndex(k) && p <= |keys|
    requires forall i :: 0 <= i < p ==> IsArrayIndex(keys[i]) && DecimalValue(keys[i]) < DecimalValue(k)
    requires forall j :: p <= j < |keys| && IsArrayIndex(keys[j]) ==> DecimalValue(keys[j]) > DecimalValue(k)
    ensures InEnumerationOrder(keys[..p] + [k] + keys[p..])
  {
    var r := keys[..p] + [k] + keys[p..];
    forall i, j | 0 <= i < j < |r| && IsArrayIndex(r[j])
      ensures IsArrayIndex(r[i]) && DecimalValue(r[i]) < DecimalValue(r[j])
    {
      InsertedAt(keys, k, p, i);
      InsertedAt(keys, k, p, j);
      if i < p && p < j {
        assert DecimalValue(keys[i]) < DecimalValue(k) < DecimalValue(keys[j - 1]);
      }
    }
  }

  /** The element at each position once `k` is put at position `p`. */
  lemma InsertedAt(keys: seq<string>, k: string, p: nat, x: nat)
    requires p <= |keys| && x <= |keys|
    ensures var r := keys[..p] + [k] + keys[p..];
            |r| == |keys| + 1 &&
            r[x] == (if x < p then keys[x] else if x == p then k else keys[x - 1])
  {
  }

  /** Every index key from the slot on is above the new key. */
  lemma AboveSlot(keys: seq<string>, k: string)
    requires InEnumerationOrder(keys)
    requires IsArrayIndex(k) && k !in keys
    ensures var p := IndexSlot(keys, DecimalValue(k));
            forall j :: p <= j < |keys| && IsArrayIndex(keys[j]) ==> DecimalValue(keys[j]) > DecimalValue(k)
  {
    var n := DecimalValue(k);
    var p := IndexSlot(keys, n);
    forall j | p <= j < |keys| && IsArrayIndex(keys[j])
      ensures DecimalValue(keys[j]) > n
    {
      assert IsArrayIndex(keys[p]);
      if DecimalValue(keys[p]) == n {
        CanonicalNumeralInjective(keys[p], k);
      }
    }
  }

  /** `o[k] = v`: an existing key keeps its place, a new key takes its place in enumeration order. */
  function Put<V>(o: Object<V>, k: string, v: V): (r: Object<V>)
    requires Valid(o)
    ensures Valid(r)
    ensures r.entries == o.entries[k := v]
    ensures k in o.entries ==> r.keys == o.keys
    ensures k !in o.entries ==>
              exists p :: 0 <= p <= |o.keys| && r.keys == o.keys[..p] + [k] + o.keys[p..]
    ensures k !in o.entries && !IsArrayIndex(k) ==> r.keys == o.keys + [k]
  {
    if k in o.entries then Object(o.keys, o.entries[k := v])
    else if IsArrayIndex(k) then
      var p := IndexSlot(o.keys, DecimalValue(k));
      InsertIndexKey(o.keys, k);
      Object(o.keys[..p] + [k] + o.keys[p..], o.entries[k := v])
    else
      assert o.keys + [k] == o.keys[..|o.keys|] + [k] + o.keys[|o.keys|..];
      Object(o.keys + [k], o.entries[k := v])
  }
}
