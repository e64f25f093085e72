/** The PHP associative array that each manager keeps in a field, modelled as
    the sequence of its (key, value) entries in insertion order. PHP keeps
    at most one entry per key: assigning to a present key replaces the value
    where it stands, assigning to an absent key appends, and `unset` removes
    the entry and closes the gap. */
module PhpArray {

  /** At most one entry per key: what every PHP array satisfies. */
  ghost predicate UniqueKeys<K, V>(es: seq<(K, V)>) {
    forall i, j :: 0 <= i < j < |es| ==> es[i].0 != es[j].0
  }

  /** Every entry is stored under the key its value carries (`getId()` or
      `getUserId()` of the record). */
  ghost predicate KeyedBy<K, V>(es: seq<(K, V)>, key: V -> K) {
    forall i :: 0 <= i < |es| ==> es[i].0 == key(es[i].1)
  }

  /** `array_key_exists(k, es)`. */
  predicate HasKey<K(==), V>(es: seq<(K, V)>, k: K) {
    exists i :: 0 <= i < |es| && es[i].0 == k
  }

  /** The position of the entry stored under `k`. */
  function IndexOf<K(==), V>(es: seq<(K, V)>, k: K): (i: nat)
    requires HasKey(es, k)
    ensures i < |es| && es[i].0 == k
    ensures forall j :: 0 <= j < i ==> es[j].0 != k
  {
    if es[0].0 == k then 0
    else
      assert HasKey(es[1..], k) by {
        var i :| 0 <= i < |es| && es[i].0 == k;
        assert es[1..][i - 1].0 == k;
      }
      1 + IndexOf(es[1..], k)
  }

  /** `$es[k]` for a present key. */
  function Get<K(==), V>(es: seq<(K, V)>, k: K): (v: V)
    requires HasKey(es, k)
    ensures exists i :: 0 <= i < |es| && es[i].0 == k && es[i].1 == v
    ensures UniqueKeys(es) ==> forall i :: 0 <= i < |es| && es[i].0 == k ==> es[i].1 == v
  {
    es[IndexOf(es, k)].1
  }

  /** `$es[k] = v`: replaces the value in place when `k` is present,
      and appends a new last entry when it is not. */
  function Put<K(==,!new), V>(es: seq<(K, V)>, k: K, v: V): (r: seq<(K, V)>)
    ensures !HasKey(es, k) ==> r == es + [(k, v)]
    ensures HasKey(es, k) ==>
              && |r| == |es|
              && r[IndexOf(es, k)] == (k, v)
              && forall j :: 0 <= j < |es| && j != IndexOf(es, k) ==> r[j] == es[j]
    ensures forall x :: HasKey(r, x) <==> HasKey(es, x) || x == k
    ensures UniqueKeys(es) ==> UniqueKeys(r)
  {
    if HasKey(es, k) then
      var r := es[IndexOf(es, k) := (k, v)];
      assert forall x :: HasKey(es, x) ==> HasKey(r, x) by {
        forall x | HasKey(es, x) ensures HasKey(r, x) {
          var i :| 0 <= i < |es| && es[i].0 == x;
          assert r[i].0 == x;
        }
      }
      r
    else
      var r := es + [(k, v)];
      assert r[|es|].0 == k;
      assert forall x :: HasKey(es, x) ==> HasKey(r, x) by {
        forall x | HasKey(es, x) ensures HasKey(r, x) {
          var i :| 0 <= i < |es| && es[i].0 == x;
          assert r[i].0 == x;
        }
      }
      r
  }

  /** `unset($es[k])`: removes the entry stored under `k`; the others keep
      their order. */
  function Remove<K(==), V>(es: seq<(K, V)>, k: K): (r: seq<(K, V)>)
    ensures !HasKey(es, k) ==> r == es
    ensures HasKey(es, k) ==> r == es[..IndexOf(es, k)] + es[IndexOf(es, k) + 1..]
    ensures UniqueKeys(es) ==> UniqueKeys(r) && !HasKey(r, k)
  {
    if HasKey(es, k) then
      var i := IndexOf(es, k);
      var r := es[..i] + es[i + 1..];
      assert forall j :: 0 <= j < |r| ==> r[j] == (if j < i then es[j] else es[j + 1]);
      r
    else es
  }

  /** `array_values($es)`, and the order in which `foreach` visits values. */
  function Values<K, V>(es: seq<(K, V)>): (vs: seq<V>)
    ensures |vs| == |es|
    ensures forall i :: 0 <= i < |es| ==> vs[i] == es[i].1
  {
    if es == [] then [] else Values(es[..|es| - 1]) + [es[|es| - 1].1]
  }

  /** The array that the load loop builds from the decoded file records:
      it starts empty and assigns each record under its key, in file order. */
  function KeyBy<K(==,!new), V>(vs: seq<V>, key: V -> K): (r: seq<(K, V)>)
    ensures UniqueKeys(r) && KeyedBy(r, key)
  {
    if vs == [] then []
    else
      var prev := KeyBy(vs[..|vs| - 1], key);
      var v := vs[|vs| - 1];
      var r := Put(prev, key(v), v);
      assert KeyedBy(r, key) by {
        forall i | 0 <= i < |r| ensures r[i].0 == key(r[i].1) {
          if HasKey(prev, key(v)) && i != IndexOf(prev, key(v)) {
            assert r[i] == prev[i];
          }
        }
      }
      r
  }

  /** The largest key, or 0 when no key is positive: the `$maxId` that the
      id-assignment loop finds, starting from 0. */
  function MaxKey<V>(es: seq<(int, V)>): (m: int)
    ensures m >= 0
    ensures forall i :: 0 <= i < |es| ==> es[i].0 <= m
    ensures m == 0 || exists i :: 0 <= i < |es| && es[i].0 == m
    ensures !HasKey(es, m + 1)
  {
    if es == [] then 0
    else
      var m := MaxKey(es[..|es| - 1]);
      var k := es[|es| - 1].0;
      assert forall i :: 0 <= i < |es| - 1 ==> es[..|es| - 1][i] == es[i];
      if k > m then k else m
  }

  /** The id-assignment loop: the largest key, starting from 0. In a loaded
      array every key is the `getId()` of its record, so scanning the keys
      scans the ids. */
  method MaxId<V>(es: seq<(int, V)>) returns (maxId: int)
    ensures maxId == MaxKey(es)
  {
    maxId := 0;
    for i := 0 to |es|
      invariant maxId == MaxKey(es[..i])
    {
      assert es[..i + 1][..i] == es[..i];
      if es[i].0 > maxId {
        maxId := es[i].0;
      }
    }
    assert es[..|es|] == es;
  }

  // ---------------------------------------------------------------------
  // Lemmas about the load loop, the save loop and id assignment
  // ---------------------------------------------------------------------

  /** After a load, a key is present exactly when some file record carries it. */
  lemma {:induction false} KeyByHasKey<K(!new), V>(vs: seq<V>, key: V -> K, k: K)
    ensures HasKey(KeyBy(vs, key), k) <==> exists i :: 0 <= i < |vs| && key(vs[i]) == k
  {
    if vs != [] {
      var init := vs[..|vs| - 1];
      var v := vs[|vs| - 1];
      KeyByHasKey(init, key, k);
      assert HasKey(KeyBy(vs, key), k) <==> HasKey(KeyBy(init, key), k) || key(v) == k;
      SomeKeySnoc(vs, init, key, k);
    }
  }

  /** Some record carries key k exactly when one before the last does or
      the last does. */
  lemma SomeKeySnoc<K, V>(vs: seq<V>, init: seq<V>, key: V -> K, k: K)
    requires vs != [] && init == vs[..|vs| - 1]
    ensures (exists i :: 0 <= i < |vs| && key(vs[i]) == k) <==>
            (exists i :: 0 <= i < |init| && key(init[i]) == k) || key(vs[|vs| - 1]) == k
  {
    if exists i :: 0 <= i < |vs| && key(vs[i]) == k {
      var i :| 0 <= i < |vs| && key(vs[i]) == k;
      if i < |vs| - 1 {
        assert init[i] == vs[i];
      }
    }
    if exists i :: 0 <= i < |init| && key(init[i]) == k {
      var i :| 0 <= i < |init| && key(init[i]) == k;
      assert vs[i] == init[i];
    }
  }

  /** On duplicate keys in the file, the record that comes last wins. */
  lemma {:induction false} KeyByLastWins<K(!new), V>(vs: seq<V>, key: V -> K, i: nat)
    requires i < |vs|
    requires forall j :: i < j < |vs| ==> key(vs[j]) != key(vs[i])
    ensures HasKey(KeyBy(vs, key), key(vs[i]))
    ensures Get(KeyBy(vs, key), key(vs[i])) == vs[i]
  {
    var k := key(vs[i]);
    var init := vs[..|vs| - 1];
    var prev := KeyBy(init, key);
    var v := vs[|vs| - 1];
    var r := KeyBy(vs, key);
    if i == |vs| - 1 {
      if HasKey(prev, k) {
        assert r[IndexOf(prev, k)] == (k, v);
      } else {
        assert r[|prev|] == (k, v);
      }
    } else {
      forall j | i < j < |init| ensures key(init[j]) != key(init[i]) {
        assert init[j] == vs[j];
      }
      KeyByLastWins(init, key, i);
      assert init[i] == vs[i];
      assert key(v) != k;
      var p := IndexOf(prev, k);
      if HasKey(prev, key(v)) {
        assert p != IndexOf(prev, key(v));
        assert r[p] == prev[p];
      } else {
        assert r[p] == prev[p];
      }
      assert HasKey(r, k);
    }
  }

  /** Loading one more record whose key is not yet stored appends it. */
  lemma KeyByAppendFresh<K(!new), V>(vs: seq<V>, key: V -> K, v: V)
    requires !HasKey(KeyBy(vs, key), key(v))
    ensures KeyBy(vs + [v], key) == KeyBy(vs, key) + [(key(v), v)]
  {
    assert (vs + [v])[..|vs|] == vs;
  }

  /** The values of an array with one more entry. */
  lemma ValuesAppend<K, V>(es: seq<(K, V)>, e: (K, V))
    ensures Values(es + [e]) == Values(es) + [e.1]
  {
    assert (es + [e])[..|es|] == es;
  }

  /** When the file's records carry distinct keys, the loaded array holds
      them in file order. */
  lemma {:induction false} KeyByDistinct<K(!new), V>(vs: seq<V>, key: V -> K)
    requires forall i, j :: 0 <= i < j < |vs| ==> key(vs[i]) != key(vs[j])
    ensures Values(KeyBy(vs, key)) == vs
  {
    if vs != [] {
      var init := vs[..|vs| - 1];
      var v := vs[|vs| - 1];
      assert vs == init + [v];
      assert forall i, j :: 0 <= i < j < |init| ==> key(init[i]) != key(init[j]) by {
        forall i, j | 0 <= i < j < |init| ensures key(init[i]) != key(init[j]) {
          assert init[i] == vs[i] && init[j] == vs[j];
        }
      }
      KeyByDistinct(init, key);
      assert !HasKey(KeyBy(init, key), key(v)) by {
        KeyByHasKey(init, key, key(v));
        forall j | 0 <= j < |init| ensures key(init[j]) != key(v) {
          assert init[j] == vs[j];
        }
      }
      KeyByAppendFresh(init, key, v);
      ValuesAppend(KeyBy(init, key), (key(v), v));
    }
  }

  /** Saving writes the values in order and loading keys them again, so a
      save followed by a load gives back the same array. */
  lemma {:induction false} SaveThenLoad<K(!new), V>(es: seq<(K, V)>, key: V -> K)
    requires UniqueKeys(es) && KeyedBy(es, key)
    ensures KeyBy(Values(es), key) == es
  {
    if es != [] {
      var init := es[..|es| - 1];
      var last := es[|es| - 1];
      assert UniqueKeys(init) && KeyedBy(init, key);
      SaveThenLoad(init, key);
      assert Values(es)[..|es| - 1] == Values(init);
      assert !HasKey(init, last.0) by {
        assert forall i :: 0 <= i < |init| ==> init[i].0 != es[|es| - 1].0;
      }
      assert es == init + [last];
    }
  }

  /** Assigning a record under its own key keeps the array keyed by records. */
  lemma PutKeyed<K(!new), V>(es: seq<(K, V)>, key: V -> K, v: V)
    requires UniqueKeys(es) && KeyedBy(es, key)
    ensures UniqueKeys(Put(es, key(v), v)) && KeyedBy(Put(es, key(v), v), key)
  {
    var r := Put(es, key(v), v);
    if HasKey(es, key(v)) {
      forall j | 0 <= j < |r| ensures r[j].0 == key(r[j].1) {
        if j != IndexOf(es, key(v)) {
          assert r[j] == es[j];
        }
      }
    }
  }

  /** Entry i of a sequence with entry p cut out: the entries before p keep
      their index, the ones after it move down by one. */
  lemma CutAt<T>(es: seq<T>, p: nat, i: nat)
    requires p < |es| && i < |es| - 1
    ensures |es[..p] + es[p + 1..]| == |es| - 1
    ensures (es[..p] + es[p + 1..])[i] == es[if i < p then i else i + 1]
  {
    if i < p {
      assert (es[..p] + es[p + 1..])[i] == es[..p][i];
    } else {
      assert (es[..p] + es[p + 1..])[i] == es[p + 1..][i - p];
    }
  }

  /** `unset` keeps the array keyed by records. */
  lemma RemoveKeyed<K(!new), V>(es: seq<(K, V)>, key: V -> K, k: K)
    requires UniqueKeys(es) && KeyedBy(es, key)
    ensures UniqueKeys(Remove(es, k)) && KeyedBy(Remove(es, k), key)
  {
    var r := Remove(es, k);
    if HasKey(es, k) {
      var p := IndexOf(es, k);
      forall j | 0 <= j < |r| ensures r[j].0 == key(r[j].1) {
        assert r[j] == es[if j < p then j else j + 1];
      }
    }
  }

  /** A record stored under a fresh key is found again by that key once the
      array is saved and reloaded. */
  lemma AddThenGet<K(!new), V>(es: seq<(K, V)>, key: V -> K, v: V)
    requires UniqueKeys(es) && KeyedBy(es, key) && !HasKey(es, key(v))
    ensures var reloaded := KeyBy(Values(Put(es, key(v), v)), key);
            HasKey(reloaded, key(v)) && Get(reloaded, key(v)) == v
  {
    var r := Put(es, key(v), v);
    SaveThenLoad(r, key);
    assert r[|es|] == (key(v), v);
    assert IndexOf(r, key(v)) == |es|;
  }

  /** Cutting out entry p keeps the key of every other entry. */
  lemma CutKeepsKey<K, V>(es: seq<(K, V)>, p: nat, q: nat)
    requires p < |es| && q < |es| && q != p
    ensures HasKey(es[..p] + es[p + 1..], es[q].0)
  {
    var i := if q < p then q else q - 1;
    CutAt(es, p, i);
  }

  /** `unset` keeps every other key. */
  lemma RemoveKeepsOthers<K(!new), V>(es: seq<(K, V)>, k: K, x: K)
    requires HasKey(es, x) && x != k
    ensures HasKey(Remove(es, k), x)
  {
    if HasKey(es, k) {
      CutKeepsKey(es, IndexOf(es, k), IndexOf(es, x));
    }
  }

  /** After `unset` of the largest key every remaining key is below it. */
  lemma RemoveTopLeavesSmaller<V>(es: seq<(int, V)>, k: int)
    requires UniqueKeys(es) && HasKey(es, k) && k == MaxKey(es)
    ensures forall i :: 0 <= i < |Remove(es, k)| ==> Remove(es, k)[i].0 < k
  {
    var p := IndexOf(es, k);
    var r := Remove(es, k);
    assert r == es[..p] + es[p + 1..];
    forall i | 0 <= i < |r| ensures r[i].0 < k {
      CutAt(es, p, i);
      var j := if i < p then i else i + 1;
      assert es[j].0 <= k;
      assert es[j].0 != k by {
        if p < j {
          assert es[p].0 != es[j].0;
        }
      }
    }
  }

  /** Deleting the entry with the largest key frees that key for the next
      assignment: the next id is at most the deleted one, and equal to it
      when the key just below is stored or the deleted key is 1. */
  lemma TopKeyReused<V>(es: seq<(int, V)>, k: int)
    requires UniqueKeys(es) && HasKey(es, k) && k == MaxKey(es) && k > 0
    ensures MaxKey(Remove(es, k)) + 1 <= k
    ensures (k == 1 || HasKey(es, k - 1)) ==> MaxKey(Remove(es, k)) + 1 == k
  {
    var r := Remove(es, k);
    RemoveTopLeavesSmaller(es, k);
    if MaxKey(r) != 0 {
      var i :| 0 <= i < |r| && r[i].0 == MaxKey(r);
    }
    if HasKey(es, k - 1) {
      RemoveKeepsOthers(es, k, k - 1);
    }
  }
}
