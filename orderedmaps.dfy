/** Python dictionaries remember insertion order, and the bot depends on it:
    /releasenode frees the first node a user owns, the claim scan takes the
    first matching pending claim, and preference eviction drops the oldest
    key. An ODict is a map together with its keys in insertion order. */
module OrderedMaps {

  ghost predicate Distinct<K>(s: seq<K>) {
    forall i, j :: 0 <= i < j < |s| ==> s[i] != s[j]
  }

  /** The position of x in s (its first occurrence). */
  function IndexOf<K(==)>(s: seq<K>, x: K): (i: nat)
    requires x in s
    ensures i < |s| && s[i] == x
    ensures forall j :: 0 <= j < i ==> s[j] != x
  {
    if s[0] == x then 0 else 1 + IndexOf(s[1..], x)
  }

  datatype ODict<K(==,!new), V> = ODict(keys: seq<K>, vals: map<K, V>) {

    /** keys lists every key of vals exactly once. */
    ghost predicate Valid() {
      Distinct(keys) && (forall k :: k in vals <==> k in keys)
    }

    /** d[k] = v: an existing key keeps its place, a new key goes last. */
    function Put(k: K, v: V): (d: ODict<K, V>)
      requires Valid()
      ensures d.Valid() && d.vals == vals[k := v]
      ensures k in vals ==> d.keys == keys
      ensures k !in vals ==> d.keys == keys + [k]
    {
      if k in vals then ODict(keys, vals[k := v]) else ODict(keys + [k], vals[k := v])
    }

    /** del d[k] (no effect when k is absent): the other keys keep their order. */
    function Remove(k: K): (d: ODict<K, V>)
      requires Valid()
      ensures d.Valid() && d.vals == vals - {k}
      ensures k !in vals ==> d.keys == keys
      ensures k in vals ==> var i := IndexOf(keys, k); d.keys == keys[..i] + keys[i + 1..]
    {
      if k !in vals then this
      else
        var i := IndexOf(keys, k);
        var ks := keys[..i] + keys[i + 1..];
        assert forall a :: 0 <= a < |ks| ==> ks[a] == keys[if a < i then a else a + 1];
        ODict(ks, vals - {k})
    }

    /** The dictionary left after deleting its first key n times, as the
        eviction loops do. */
    function Drop(n: nat): (d: ODict<K, V>)
      requires Valid() && n <= |keys|
      ensures d.Valid() && d.keys == keys[n..]
      ensures forall k :: k in d.vals ==> k in vals && d.vals[k] == vals[k]
    {
      var ks := keys[n..];
      assert forall i :: 0 <= i < |ks| ==> ks[i] == keys[n + i];
      ODict(ks, map k | k in vals && k in ks :: vals[k])
    }
  }

  function Empty<K(==,!new), V>(): (d: ODict<K, V>)
    ensures d.Valid() && d.keys == [] && d.vals == map[]
  {
    ODict([], map[])
  }

  /** Deleting the first key of Drop(n) gives Drop(n + 1). */
  lemma DropStep<K(!new), V>(d: ODict<K, V>, n: nat)
    requires d.Valid() && n < |d.keys|
    ensures d.Drop(n).Remove(d.keys[n]) == d.Drop(n + 1)
  {
    DropStepKeys(d, n);
    DropStepVals(d, n);
  }

  lemma DropStepKeys<K(!new), V>(d: ODict<K, V>, n: nat)
    requires d.Valid() && n < |d.keys|
    ensures d.Drop(n).Remove(d.keys[n]).keys == d.Drop(n + 1).keys
  {
    var p := d.Drop(n);
    assert p.keys[0] == d.keys[n];
    assert IndexOf(p.keys, d.keys[n]) == 0;
  }

  lemma DropStepVals<K(!new), V>(d: ODict<K, V>, n: nat)
    requires d.Valid() && n < |d.keys|
    ensures d.Drop(n).Remove(d.keys[n]).vals == d.Drop(n + 1).vals
  {
    RestrictStep(d.vals, d.keys, n);
  }

  /** Restricting a map to keys[n..] and then deleting keys[n] is restricting
      it to keys[n + 1..]. */
  lemma RestrictStep<K(!new), V>(vals: map<K, V>, keys: seq<K>, n: nat)
    requires Distinct(keys) && n < |keys|
    ensures (map k | k in vals && k in keys[n..] :: vals[k]) - {keys[n]}
         == (map k | k in vals && k in keys[n + 1..] :: vals[k])
  {
    var a := (map k | k in vals && k in keys[n..] :: vals[k]) - {keys[n]};
    var b := map k | k in vals && k in keys[n + 1..] :: vals[k];
    forall x | x in a ensures x in b {
      var i :| n <= i < |keys| && keys[i] == x;
      assert keys[n + 1..][i - n - 1] == x;
    }
    forall x | x in b ensures x in a {
      var i :| n + 1 <= i < |keys| && keys[i] == x;
      assert keys[n..][i - n] == x;
    }
  }
}
