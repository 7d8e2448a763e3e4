/**
 * Building a `HashMap` from a sequence of key/value pairs, and walking a
 * `HashMap` in one of its (unspecified) iteration orders.
 */
module Collections {
  import opened Bytes

  /** Position `i` holds the last pair of `ps` with key `ps[i].0`. */
  ghost predicate IsLastOccurrence<V>(ps: seq<(Str, V)>, i: int)
    requires 0 <= i < |ps|
  {
    forall j | i < j < |ps| :: ps[j].0 != ps[i].0
  }

  /**
   * The map `collect::<HashMap<_, _>>()` builds from `ps`: the pairs are
   * inserted in order, so a later pair overwrites an earlier one with the
   * same key.
   */
  function Collect<V>(ps: seq<(Str, V)>): (m: map<Str, V>)
    ensures |ps| > 0 ==> ps[|ps| - 1].0 in m && m[ps[|ps| - 1].0] == ps[|ps| - 1].1
    decreases |ps|
  {
    if |ps| == 0 then map[] else Collect(ps[..|ps| - 1])[ps[|ps| - 1].0 := ps[|ps| - 1].1]
  }

  /** The keys of `Collect(ps)` are exactly the keys occurring in `ps`. */
  lemma {:induction false} CollectKeys<V>(ps: seq<(Str, V)>, k: Str)
    ensures k in Collect(ps) <==> exists i | 0 <= i < |ps| :: ps[i].0 == k
    decreases |ps|
  {
    if |ps| > 0 {
      var init := ps[..|ps| - 1];
      CollectKeys(init, k);
      if i :| 0 <= i < |init| && init[i].0 == k {
        assert ps[i].0 == k;
      }
      if i :| 0 <= i < |ps| && ps[i].0 == k {
        if i < |init| {
          assert init[i].0 == k;
        }
      }
    }
  }

  /** The value `Collect(ps)` holds for a key is that of its last pair in `ps`. */
  lemma {:induction false} CollectLast<V>(ps: seq<(Str, V)>, i: int)
    requires 0 <= i < |ps| && IsLastOccurrence(ps, i)
    ensures ps[i].0 in Collect(ps) && Collect(ps)[ps[i].0] == ps[i].1
    decreases |ps|
  {
    var init := ps[..|ps| - 1];
    if i < |init| {
      assert init[i] == ps[i];
      forall j | i < j < |init|
        ensures init[j].0 != init[i].0
      {
        assert init[j] == ps[j];
      }
      CollectLast(init, i);
    }
  }

  /** Every entry of `Collect(ps)` is one of the pairs of `ps`. */
  lemma {:induction false} CollectFrom<V>(ps: seq<(Str, V)>, k: Str)
    requires k in Collect(ps)
    ensures exists i | 0 <= i < |ps| :: ps[i] == (k, Collect(ps)[k])
    decreases |ps|
  {
    var init, last := ps[..|ps| - 1], ps[|ps| - 1];
    if k == last.0 {
      assert ps[|ps| - 1] == (k, Collect(ps)[k]);
    } else {
      CollectFrom(init, k);
      var i :| 0 <= i < |init| && init[i] == (k, Collect(init)[k]);
      assert ps[i] == init[i];
    }
  }

  /** Inserting one more pair is a `HashMap::insert` on the map built so far. */
  lemma CollectSnoc<V>(ps: seq<(Str, V)>, key: Str, value: V)
    ensures Collect(ps + [(key, value)]) == Collect(ps)[key := value]
  {
    assert (ps + [(key, value)])[..|ps|] == ps;
  }

  /** `order` lists every key of `m` exactly once: one iteration order of `m`. */
  ghost predicate Enumerates<V>(order: seq<Str>, m: map<Str, V>)
  {
    && (forall i, j | 0 <= i < j < |order| :: order[i] != order[j])
    && (forall k :: k in m <==> k in order)
  }

  /** The pairs `m.into_iter()` yields when it visits the keys in `order`. */
  function EntriesInOrder<V>(m: map<Str, V>, order: seq<Str>): (ps: seq<(Str, V)>)
    requires forall k | k in order :: k in m
    ensures |ps| == |order|
    ensures forall i | 0 <= i < |order| :: ps[i] == (order[i], m[order[i]])
  {
    seq(|order|, i requires 0 <= i < |order| => (order[i], m[order[i]]))
  }

  /**
   * Collecting the pairs of a map, whatever order they come in, gives back
   * the map.
   */
  lemma {:induction false} CollectEnumeration<V>(m: map<Str, V>, order: seq<Str>)
    requires Enumerates(order, m)
    ensures Collect(EntriesInOrder(m, order)) == m
  {
    var ps := EntriesInOrder(m, order);
    var r := Collect(ps);
    forall k | k in m
      ensures k in r && r[k] == m[k]
    {
      var i :| 0 <= i < |order| && order[i] == k;
      assert ps[i].0 == k;
      assert IsLastOccurrence(ps, i);
      CollectLast(ps, i);
    }
    forall k | k in r
      ensures k in m
    {
      CollectKeys(ps, k);
      var i :| 0 <= i < |ps| && ps[i].0 == k;
      assert order[i] == k;
    }
  }
}
