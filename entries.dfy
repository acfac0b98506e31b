/** A `BTreeMap<K, V>` seen as the key/value pairs it yields, in iteration order.
    The model does not know the key ordering; it relies only on what the
    conversions need: keys are distinct, `insert` replaces the value of a key
    already present and keeps its place, and a new key goes after the keys already
    there (which is where a sorted map puts it whenever keys arrive in ascending
    order, as they do in both conversions). */
module Entries {
  /** The set of keys of a map. */
  function KeySet<K, V>(es: seq<(K, V)>): set<K> {
    set i | 0 <= i < |es| :: es[i].0
  }

  lemma KeySetConcat<K, V>(a: seq<(K, V)>, b: seq<(K, V)>)
    ensures KeySet(a + b) == KeySet(a) + KeySet(b)
  {
    var c := a + b;
    forall x | x in KeySet(c) ensures x in KeySet(a) + KeySet(b) {
      var i :| 0 <= i < |c| && c[i].0 == x;
      if i < |a| { assert c[i] == a[i]; } else { assert c[i] == b[i - |a|]; }
    }
    forall x | x in KeySet(a) + KeySet(b) ensures x in KeySet(c) {
      if x in KeySet(a) {
        var i :| 0 <= i < |a| && a[i].0 == x;
        assert c[i] == a[i];
      } else {
        var i :| 0 <= i < |b| && b[i].0 == x;
        assert c[|a| + i] == b[i];
      }
    }
  }

  /** The invariant of a `BTreeMap`: no key occurs twice. */
  predicate DistinctKeys<K(==), V>(es: seq<(K, V)>) {
    forall i, j :: 0 <= i < j < |es| ==> es[i].0 != es[j].0
  }

  /** `BTreeMap::insert`: afterwards `k` is bound to `v`, every other binding
      is kept and no other is added, and the invariant is kept. */
  function Insert<K(==), V>(es: seq<(K, V)>, k: K, v: V): (r: seq<(K, V)>)
    ensures KeySet(r) == KeySet(es) + {k}
    ensures (k, v) in r
    ensures forall i :: 0 <= i < |es| && es[i].0 != k ==> es[i] in r
    ensures forall i :: 0 <= i < |r| && r[i].0 != k ==> r[i] in es
    ensures k !in KeySet(es) ==> r == es + [(k, v)]
    ensures k in KeySet(es) ==> |r| == |es|
    ensures k in KeySet(es) ==> forall i :: 0 <= i < |es| ==> r[i].0 == es[i].0
    ensures k in KeySet(es) ==> forall i :: 0 <= i < |es| && es[i].0 != k ==> r[i] == es[i]
    ensures DistinctKeys(es) ==> DistinctKeys(r)
  {
    if k in KeySet(es) then
      var r := seq(|es|, i requires 0 <= i < |es| => if es[i].0 == k then (k, v) else es[i]);
      assert forall i :: 0 <= i < |es| ==> r[i].0 == es[i].0;
      assert KeySet(r) == KeySet(es);
      var j :| 0 <= j < |es| && es[j].0 == k;
      assert r[j] == (k, v);
      r
    else
      KeySetConcat(es, [(k, v)]);
      assert KeySet([(k, v)]) == {k} by { assert [(k, v)][0] == (k, v); }
      es + [(k, v)]
  }

  /** The map that inserting `ps` one after another into an empty map yields:
      what the conversions' `for` loops build with `insert`. */
  function FromPairs<K(==), V>(ps: seq<(K, V)>): (r: seq<(K, V)>)
    ensures KeySet(r) == KeySet(ps)
    ensures DistinctKeys(r)
    decreases |ps|
  {
    if ps == [] then []
    else
      var init := ps[..|ps| - 1];
      assert ps == init + [ps[|ps| - 1]];
      KeySetConcat(init, [ps[|ps| - 1]]);
      Insert(FromPairs(init), ps[|ps| - 1].0, ps[|ps| - 1].1)
  }

  /** The last value inserted for a key is the one the map keeps: a pair of `ps`
      whose key does not occur again later in `ps` is a binding of the map. */
  lemma {:induction false} FromPairsLastWins<K, V>(ps: seq<(K, V)>, j: nat)
    requires j < |ps|
    requires forall l :: j < l < |ps| ==> ps[l].0 != ps[j].0
    ensures ps[j] in FromPairs(ps)
  {
    var init := ps[..|ps| - 1];
    var last := ps[|ps| - 1];
    if j < |ps| - 1 {
      FromPairsLastWins(init, j);
      var m := FromPairs(init);
      var i :| 0 <= i < |m| && m[i] == ps[j];
      assert m[i].0 != last.0;
    }
  }

  /** Inserting pairs whose keys are already distinct changes nothing: the map
      holds exactly those pairs, in the same order. */
  lemma {:induction false} FromDistinctPairs<K, V>(ps: seq<(K, V)>)
    requires DistinctKeys(ps)
    ensures FromPairs(ps) == ps
  {
    if ps != [] {
      var init := ps[..|ps| - 1];
      assert DistinctKeys(init);
      FromDistinctPairs(init);
      assert ps == init + [ps[|ps| - 1]];
      assert ps[|ps| - 1].0 !in KeySet(init);
    }
  }
}
