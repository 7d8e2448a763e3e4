/**
 * `Map`: the accumulator the host fills through an opaque handle
 * (`map_new`, `map_add`) and then hands over in one consuming call
 * (`Map::into_map`, `Map::into_hash_map`).
 */
module Maps {
  import opened Bytes
  import opened Wrappers
  import opened ByteArrayRefs
  import Collections

  /** The accumulated entries, `HashMap<String, Option<String>>`; `None` is an absent value. */
  type Data = map<Str, Option<Str>>

  /** The life of a handle: Open until one `into_*` call consumes it. */
  datatype State = Open | Consumed

  /** The accumulator a `*mut Map` handle points to. */
  class Map {
    var data: Data
    var disableFree: bool
    ghost var state: State

    /** A new, empty accumulator. */
    constructor (disableFree: bool)
      ensures data == map[] && this.disableFree == disableFree && state == Open
    {
      data := map[];
      this.disableFree := disableFree;
      state := Open;
    }

    /**
     * `Map::into_map`: a null handle gives `None`; otherwise the handle is
     * consumed and its entries are handed over as they are, absent values
     * included.
     */
    static method IntoMap(source: Map?) returns (r: Option<Data>)
      requires source != null ==> source.state == Open
      modifies source
      ensures source == null ==> r == None
      ensures source != null ==> r == Some(old(source.data)) && source.state == Consumed
    {
      if source == null {
        r := None;
      } else {
        r := Some(source.data);
        source.state := Consumed;
      }
    }

    /**
     * `Map::into_hash_map`: a null handle gives `None`; otherwise the handle
     * is consumed and its entries are handed over with every absent value
     * replaced by the empty string.
     */
    static method IntoHashMap(source: Map?) returns (r: Option<map<Str, Str>>)
      requires source != null ==> source.state == Open
      modifies source
      ensures source == null ==> r == None
      ensures source != null ==> r == Some(UnwrapOrDefault(old(source.data))) && source.state == Consumed
    {
      if source == null {
        r := None;
      } else {
        r := Some(map k | k in source.data :: source.data[k].GetOr([]));
        source.state := Consumed;
      }
    }
  }

  /**
   * `v.unwrap_or_default()` on every value: the same keys, a present value
   * kept, an absent one turned into `""`.
   */
  function UnwrapOrDefault(data: Data): (r: map<Str, Str>)
    ensures r.Keys == data.Keys
    ensures forall k | k in data :: r[k] == (if data[k].Some? then data[k].value else [])
  {
    map k | k in data :: data[k].GetOr([])
  }

  /** The accumulator contents in which every value of `m` is present. */
  function AllPresent(m: map<Str, Str>): (data: Data)
    ensures data.Keys == m.Keys
    ensures forall k | k in m :: data[k] == Some(m[k])
  {
    map k | k in m :: Some(m[k])
  }

  /** Replacing absent values by `""` undoes `AllPresent`. */
  lemma UnwrapAllPresent(m: map<Str, Str>)
    ensures UnwrapOrDefault(AllPresent(m)) == m
  {
  }

  /**
   * `into_hash_map` cannot tell an absent value from an empty one: two
   * accumulators that differ only there hand over the same map.
   */
  lemma UnwrapForgetsAbsence(data: Data, k: Str)
    requires k in data && data[k] == None
    ensures UnwrapOrDefault(data) == UnwrapOrDefault(data[k := Some([])])
    ensures data != data[k := Some([])]
  {
  }

  /**
   * `map_new`: a fresh, open, empty accumulator. Its `disable_free` flag is
   * chosen by the runtime's allocation policy, a parameter here, and
   * `capacity` is only a size hint.
   */
  method MapNew(capacity: nat, disableFree: bool) returns (m: Map)
    ensures fresh(m) && m.state == Open && m.data == map[] && m.disableFree == disableFree
  {
    m := new Map(disableFree);
  }

  /** The value `map_add` stores for a value pointer: null is absent. */
  function StoredValue(value: Option<ByteArrayRef>): (r: Option<Str>)
    requires value.Some? ==> value.value.Valid()
    ensures r.None? <==> value.None?
    ensures value.Some? ==> r.value == value.value.ToSlice()
  {
    match value
    case None => None
    case Some(v) => Some(v.ToOwnedString())
  }

  /**
   * `map_add`: a null handle gives `false` and changes nothing. Otherwise the
   * entry for the key's text is inserted or overwritten (absent when the
   * value pointer is null), every other entry stays as it was, and the
   * result is `true`.
   */
  method MapAdd(m: Map?, key: ByteArrayRef, value: Option<ByteArrayRef>) returns (ok: bool)
    requires m != null ==> key.Valid() && (value.Some? ==> value.value.Valid())
    requires m != null ==> m.state == Open
    modifies m
    ensures ok <==> m != null
    ensures m != null ==> m.state == Open && m.disableFree == old(m.disableFree)
    ensures m != null ==> m.data == old(m.data)[key.ToSlice() := StoredValue(value)]
  {
    if m == null {
      return false;
    }
    if value.None? {
      m.data := m.data[key.ToOwnedString() := None];
    } else {
      m.data := m.data[key.ToOwnedString() := Some(value.value.ToOwnedString())];
    }
    ok := true;
  }

  /** Adding key `order[i]` with its value extends the map built from the first `i` entries. */
  lemma PopulateStep(entries: Data, order: seq<Str>, i: nat, data: Data, value: Option<ByteArrayRef>)
    requires Collections.Enumerates(order, entries) && i < |order|
    requires data == Collections.Collect(Collections.EntriesInOrder(entries, order)[..i])
    requires entries[order[i]].None? ==> value == None
    requires entries[order[i]].Some? ==> value == Some(FromString(entries[order[i]].value))
    ensures data[FromString(order[i]).ToSlice() := StoredValue(value)]
         == Collections.Collect(Collections.EntriesInOrder(entries, order)[..i + 1])
  {
    var ps, k := Collections.EntriesInOrder(entries, order), order[i];
    assert FromString(k).ToSlice() == k;
    if entries[k].Some? {
      assert value.value.ToSlice() == entries[k].value;
    }
    assert ps[..i + 1] == ps[..i] + [(k, entries[k])];
    Collections.CollectSnoc(ps[..i], k, entries[k]);
  }

  /**
   * `map_add` on a null handle answers `false` without reading the key or
   * the value, so any views at all may be passed.
   */
  method MapAddNullHandle(key: ByteArrayRef, value: Option<ByteArrayRef>) returns (ok: bool)
    ensures !ok
  {
    ok := MapAdd(null, key, value);
  }

  /**
   * A host filling a new map with the entries of `entries`, in any order of
   * its keys, and then calling `into_map`, gets `entries` back, absent values
   * included; with `into_hash_map` instead it gets them with absent values
   * as `""`.
   */
  method PopulateAndTake(entries: Data, order: seq<Str>, hashMap: bool)
    returns (r: Option<Data>, h: Option<map<Str, Str>>)
    requires Collections.Enumerates(order, entries)
    ensures !hashMap ==> r == Some(entries) && h == None
    ensures hashMap ==> r == None && h == Some(UnwrapOrDefault(entries))
  {
    var m := MapNew(|order|, false);
    ghost var ps := Collections.EntriesInOrder(entries, order);
    var i := 0;
    while i < |order|
      invariant 0 <= i <= |order|
      invariant fresh(m) && m.state == Open
      invariant m.data == Collections.Collect(ps[..i])
    {
      var k := order[i];
      var value: Option<ByteArrayRef> := None;
      if entries[k].Some? {
        value := Some(FromString(entries[k].value));
      }
      ghost var before := m.data;
      var ok := MapAdd(m, FromString(k), value);
      PopulateStep(entries, order, i, before, value);
      i := i + 1;
    }
    assert ps[..i] == ps;
    Collections.CollectEnumeration(entries, order);
    if hashMap {
      r := None;
      h := Map.IntoHashMap(m);
    } else {
      r := Map.IntoMap(m);
      h := None;
    }
  }

  /**
   * The concrete exchange: `add("a", "1")`, `add("b", null)`, then
   * `into_map` gives `{"a": Some("1"), "b": None}`; an equal accumulator
   * taken with `into_hash_map` gives `{"a": "1", "b": ""}`; a null handle is
   * refused by all three calls.
   */
  method Exchange()
    returns (r: Option<Data>, h: Option<map<Str, Str>>,
             nullAdd: bool, nullMap: Option<Data>, nullHashMap: Option<map<Str, Str>>)
    ensures r == Some(map[[97] := Some([49]), [98] := None])
    ensures h == Some(map[[97] := [49], [98] := []])
    ensures !nullAdd && nullMap == None && nullHashMap == None
  {
    var a, one, b := FromStr([97]), FromStr([49]), FromStr([98]);
    assert a.ToSlice() == [97] && one.ToSlice() == [49] && b.ToSlice() == [98];
    var m := MapNew(2, false);
    var ok := MapAdd(m, a, Some(one));
    ok := MapAdd(m, b, None);
    r := Map.IntoMap(m);
    var n := MapNew(2, false);
    ok := MapAdd(n, a, Some(one));
    ok := MapAdd(n, b, None);
    h := Map.IntoHashMap(n);
    ghost var taken: Data := map[[97] := Some([49]), [98] := None];
    assert UnwrapOrDefault(taken).Keys == {[97], [98]};
    assert UnwrapOrDefault(taken) == map[[97] := [49], [98] := []];
    nullAdd := MapAdd(null, a, Some(one));
    nullMap := Map.IntoMap(null);
    nullHashMap := Map.IntoHashMap(null);
  }
}
