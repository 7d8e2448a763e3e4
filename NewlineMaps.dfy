/**
 * The newline-separated key/value format read by
 * `ByteArrayRef::to_str_map_on_newlines`: the text is split on `'\n'` and
 * consecutive fields are paired up as key, value, key, value, ...
 */
module NewlineMaps {
  import opened Bytes
  import opened Collections

  /**
   * The fields of `s` between newlines, as `str::split('\n')` yields them:
   * there is always at least one field, and empty fields are kept.
   */
  function Split(s: Str): (fields: seq<Str>)
    ensures |fields| >= 1
    ensures forall i | 0 <= i < |fields| :: NEWLINE !in fields[i]
    decreases |s|
  {
    if |s| == 0 then [[]]
    else
      var rest := Split(s[1..]);
      if s[0] == NEWLINE then [[]] + rest
      else [[s[0]] + rest[0]] + rest[1..]
  }

  /** The fields written out with a newline between each two: the inverse of `Split`. */
  function Join(fields: seq<Str>): (s: Str)
    requires |fields| >= 1
    decreases |fields|
  {
    if |fields| == 1 then fields[0] else fields[0] + [NEWLINE] + Join(fields[1..])
  }

  /**
   * `chunks_exact(2)` followed by `map(|pair| (pair[0], pair[1]))`: field
   * `2 * i` becomes the key and field `2 * i + 1` the value of pair `i`, and a
   * trailing field without a partner is dropped.
   */
  function Pairs(fields: seq<Str>): (ps: seq<(Str, Str)>)
    ensures |ps| == |fields| / 2
    ensures forall i | 0 <= i < |ps| :: ps[i] == (fields[2 * i], fields[2 * i + 1])
    decreases |fields|
  {
    if |fields| < 2 then [] else [(fields[0], fields[1])] + Pairs(fields[2..])
  }

  /**
   * The map `to_str_map_on_newlines` reads from the text `s`: neither a key
   * nor a value can hold a newline, since every one is a field of `s`.
   */
  function ParseMap(s: Str): (r: map<Str, Str>)
    ensures forall k | k in r :: NEWLINE !in k && NEWLINE !in r[k]
  {
    var fields := Split(s);
    var ps := Pairs(fields);
    assert forall k | k in Collect(ps) :: NEWLINE !in k && NEWLINE !in Collect(ps)[k] by {
      forall k | k in Collect(ps)
        ensures NEWLINE !in k && NEWLINE !in Collect(ps)[k]
      {
        CollectFrom(ps, k);
        var i :| 0 <= i < |ps| && ps[i] == (k, Collect(ps)[k]);
        assert ps[i] == (fields[2 * i], fields[2 * i + 1]);
      }
    }
    Collect(ps)
  }

  /**
   * The keys collected from the pairs of `fields` are the fields at even
   * positions `2 * i` that have a partner field `2 * i + 1`.
   */
  lemma PairedKeys(fields: seq<Str>, k: Str)
    ensures k in Collect(Pairs(fields)) <==> exists i | 0 <= i < |fields| / 2 :: fields[2 * i] == k
  {
    var ps := Pairs(fields);
    CollectKeys(ps, k);
    if k in Collect(ps) {
      var i :| 0 <= i < |ps| && ps[i].0 == k;
      assert fields[2 * i] == k;
    } else {
      forall i | 0 <= i < |fields| / 2
        ensures fields[2 * i] != k
      {
        assert ps[i].0 == fields[2 * i];
      }
    }
  }

  /**
   * The value collected for the key at field `2 * i` is field `2 * i + 1`
   * when no later pair has the same key.
   */
  lemma LastPairWins(fields: seq<Str>, i: nat)
    requires i < |fields| / 2
    requires forall j | i < j < |fields| / 2 :: fields[2 * j] != fields[2 * i]
    ensures fields[2 * i] in Collect(Pairs(fields))
    ensures Collect(Pairs(fields))[fields[2 * i]] == fields[2 * i + 1]
  {
    var ps := Pairs(fields);
    assert ps[i] == (fields[2 * i], fields[2 * i + 1]);
    forall j | i < j < |ps|
      ensures ps[j].0 != ps[i].0
    {
      assert ps[j].0 == fields[2 * j];
    }
    CollectLast(ps, i);
  }

  /** Key/value pairs laid out as the fields key, value, key, value, ... */
  function Flatten(ps: seq<(Str, Str)>): (fields: seq<Str>)
    ensures |fields| == 2 * |ps|
    decreases |ps|
  {
    if |ps| == 0 then [] else [ps[0].0, ps[0].1] + Flatten(ps[1..])
  }

  /** Joining the fields of a text gives the text back. */
  lemma {:induction false} JoinSplit(s: Str)
    ensures Join(Split(s)) == s
    decreases |s|
  {
    if |s| > 0 {
      var rest := Split(s[1..]);
      JoinSplit(s[1..]);
      if s[0] == NEWLINE {
        assert ([[]] + rest)[1..] == rest;
      } else if |rest| > 1 {
        var fields := [[s[0]] + rest[0]] + rest[1..];
        assert fields[1..] == rest[1..];
        assert Join(rest) == rest[0] + [NEWLINE] + Join(rest[1..]);
      }
    }
  }

  /** A text with no newline in front of `t` extends the first field of `t`. */
  lemma {:induction false} SplitPrefix(a: Str, t: Str)
    requires NEWLINE !in a
    ensures Split(a + t) == [a + Split(t)[0]] + Split(t)[1..]
    decreases |a|
  {
    var st := Split(t);
    if |a| > 0 {
      var at := a + t;
      assert at[0] == a[0] && at[0] != NEWLINE && at[1..] == a[1..] + t;
      assert NEWLINE !in a[1..] by {
        assert forall x | x in a[1..] :: x in a;
      }
      SplitPrefix(a[1..], t);
      var rest := Split(at[1..]);
      assert rest == [a[1..] + st[0]] + st[1..];
      assert Split(at) == [[a[0]] + rest[0]] + rest[1..];
      assert [a[0]] + (a[1..] + st[0]) == a + st[0];
    } else {
      assert a + t == t;
      assert [] + st[0] == st[0];
      assert [st[0]] + st[1..] == st;
    }
  }

  /** Splitting fields that hold no newline, once joined, gives the fields back. */
  lemma {:induction false} SplitJoin(fields: seq<Str>)
    requires |fields| >= 1
    requires forall i | 0 <= i < |fields| :: NEWLINE !in fields[i]
    ensures Split(Join(fields)) == fields
    decreases |fields|
  {
    if |fields| == 1 {
      SplitPrefix(fields[0], []);
      assert fields[0] + [] == fields[0];
    } else {
      var t := [NEWLINE] + Join(fields[1..]);
      SplitJoin(fields[1..]);
      assert t[1..] == Join(fields[1..]);
      assert Split(t) == [[]] + fields[1..];
      assert fields[0] + [NEWLINE] + Join(fields[1..]) == fields[0] + t;
      SplitPrefix(fields[0], t);
      assert fields[0] + [] == fields[0];
      assert [fields[0]] + fields[1..] == fields;
    }
  }

  /** Pairing up the flattened pairs gives the pairs back. */
  lemma {:induction false} PairsFlatten(ps: seq<(Str, Str)>)
    ensures Pairs(Flatten(ps)) == ps
    decreases |ps|
  {
    if |ps| > 0 {
      PairsFlatten(ps[1..]);
      assert Flatten(ps)[2..] == Flatten(ps[1..]);
      assert [ps[0]] + ps[1..] == ps;
    }
  }

  /** Flattening pairs whose keys and values hold no newline gives fields without newlines. */
  lemma {:induction false} FlattenWithoutNewlines(ps: seq<(Str, Str)>)
    requires forall i | 0 <= i < |ps| :: NEWLINE !in ps[i].0 && NEWLINE !in ps[i].1
    ensures forall i | 0 <= i < |Flatten(ps)| :: NEWLINE !in Flatten(ps)[i]
    decreases |ps|
  {
    if |ps| > 0 {
      FlattenWithoutNewlines(ps[1..]);
      assert Flatten(ps) == [ps[0].0, ps[0].1] + Flatten(ps[1..]);
    }
  }

  /** The text a caller writes for the pairs `ps`: each key and value on a line of its own. */
  function Format(ps: seq<(Str, Str)>): Str
    requires |ps| >= 1
  {
    Join(Flatten(ps))
  }

  /**
   * Reading the newline format back: when no key or value contains a
   * newline, parsing the formatted pairs gives the map that inserting them
   * in order gives, so a repeated key takes its last value.
   */
  lemma ParseFormat(ps: seq<(Str, Str)>)
    requires |ps| >= 1
    requires forall i | 0 <= i < |ps| :: NEWLINE !in ps[i].0 && NEWLINE !in ps[i].1
    ensures ParseMap(Format(ps)) == Collect(ps)
  {
    PairsFlatten(ps);
    FlattenWithoutNewlines(ps);
    SplitJoin(Flatten(ps));
  }

  /**
   * Writing a whole map in the newline format, in any iteration order of its
   * keys, and parsing it again gives the map back.
   */
  lemma ParseFormatMap(m: map<Str, Str>, order: seq<Str>)
    requires Enumerates(order, m) && |order| >= 1
    requires forall k | k in m :: NEWLINE !in k && NEWLINE !in m[k]
    ensures ParseMap(Format(EntriesInOrder(m, order))) == m
  {
    var ps := EntriesInOrder(m, order);
    ParseFormat(ps);
    CollectEnumeration(m, order);
  }
}
