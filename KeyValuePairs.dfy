/**
 * `KeyValuePair`: one map entry handed to the host, owning its key and
 * (unless absent) its value; and the conversions that turn a whole map
 * into such entries.
 */
module KeyValuePairs {
  import opened Bytes
  import opened Wrappers
  import opened Collections
  import opened OwnedBuffers
  import Maps

  /**
   * The C struct `KeyValuePair { key, key_length, value, value_length }`.
   * An absent value is `value == null`, `value_length == 0`.
   */
  datatype KeyValuePair = KeyValuePair(key: Ptr, keyLength: nat, value: Ptr, valueLength: nat)

  /** The buffers `Drop for KeyValuePair` frees: the key always, the value when non-null. */
  function Owned(e: KeyValuePair): (r: set<BufferId>)
    requires e.key.Ptr?
    ensures e.key.buffer in r
    ensures e.value.Ptr? ==> e.value.buffer in r
    ensures forall id | id in r :: id == e.key.buffer || (e.value.Ptr? && id == e.value.buffer)
  {
    {e.key.buffer} + (if e.value.Ptr? then {e.value.buffer} else {})
  }

  /** The buffers of all of `entries`. */
  ghost function OwnedByAll(entries: seq<KeyValuePair>): set<BufferId>
    requires forall i | 0 <= i < |entries| :: entries[i].key.Ptr?
    decreases |entries|
  {
    if |entries| == 0 then {}
    else OwnedByAll(entries[..|entries| - 1]) + Owned(entries[|entries| - 1])
  }

  /**
   * `e` holds `key` and `value` in buffers of `blocks`, each allocated with
   * exactly its length as capacity; an absent value is `(null, 0)`.
   */
  ghost predicate Carries(blocks: map<BufferId, Block>, e: KeyValuePair, key: Str, value: Option<Str>)
  {
    && e.key.Ptr? && e.key.buffer in blocks && blocks[e.key.buffer] == Block(key, |key|)
    && e.keyLength == |key|
    && match value
       case None => e.value == Null && e.valueLength == 0
       case Some(v) =>
         && e.value.Ptr? && e.value.buffer != e.key.buffer
         && e.value.buffer in blocks && blocks[e.value.buffer] == Block(v, |v|)
         && e.valueLength == |v|
  }

  /**
   * `entries` is `input` handed over in the iteration order `order`: one
   * entry per key, carrying that key and its value; the entries' buffers
   * are new (not in `before`), no two entries share one, and `after` is
   * `before` plus exactly those buffers.
   */
  ghost predicate Transfers(input: Maps.Data, order: seq<Str>, entries: seq<KeyValuePair>,
                            before: map<BufferId, Block>, after: map<BufferId, Block>)
  {
    && Enumerates(order, input)
    && |entries| == |order|
    && (forall i | 0 <= i < |entries| :: Carries(after, entries[i], order[i], input[order[i]]))
    && (forall i | 0 <= i < |entries| :: Owned(entries[i]) !! before.Keys)
    && (forall i, j | 0 <= i < j < |entries| :: Owned(entries[i]) !! Owned(entries[j]))
    && after.Keys == before.Keys + OwnedByAll(entries)
    && (forall id | id in before :: after[id] == before[id])
  }

  /** Appending one entry adds its buffers. */
  lemma OwnedByAllSnoc(entries: seq<KeyValuePair>, e: KeyValuePair)
    requires forall i | 0 <= i < |entries| :: entries[i].key.Ptr?
    requires e.key.Ptr?
    ensures OwnedByAll(entries + [e]) == OwnedByAll(entries) + Owned(e)
  {
    assert (entries + [e])[..|entries|] == entries;
  }

  /** A buffer owned by all the entries is owned by one of them. */
  lemma {:induction false} OwnedByOne(entries: seq<KeyValuePair>, id: BufferId)
    requires forall i | 0 <= i < |entries| :: entries[i].key.Ptr?
    requires id in OwnedByAll(entries)
    ensures exists i | 0 <= i < |entries| :: id in Owned(entries[i])
    decreases |entries|
  {
    var init := entries[..|entries| - 1];
    if id !in Owned(entries[|entries| - 1]) {
      OwnedByOne(init, id);
      var i :| 0 <= i < |init| && id in Owned(init[i]);
      assert entries[i] == init[i];
    }
  }

  /**
   * One step of the conversion as written: the key's and a present value's
   * own `String` buffers are handed over with whatever capacity they have,
   * but only their lengths are recorded. The entry can be dropped, which
   * rebuilds each buffer with its length as capacity, exactly when no
   * string had spare capacity.
   */
  method IntoEntryAsWritten(heap: Allocator, key: Vec, value: Option<Vec>) returns (e: KeyValuePair)
    requires heap.Valid() && |key.bytes| <= key.capacity
    requires value.Some? ==> |value.value.bytes| <= value.value.capacity
    modifies heap
    ensures heap.Valid() && heap.arrays == old(heap.arrays) && heap.next >= old(heap.next)
    ensures e.key.Ptr? && e.key.buffer in heap.blocks && heap.blocks[e.key.buffer] == Block(key.bytes, key.capacity)
    ensures forall id | id in Owned(e) :: old(heap.next) <= id < heap.next
    ensures heap.blocks.Keys == old(heap.blocks).Keys + Owned(e)
    ensures forall id | id in old(heap.blocks) :: heap.blocks[id] == old(heap.blocks)[id]
    ensures e.keyLength == |key.bytes|
    ensures value.None? ==> e.value == Null && e.valueLength == 0
    ensures value.Some? ==>
      && e.value.Ptr? && e.value.buffer != e.key.buffer && e.value.buffer in heap.blocks
      && heap.blocks[e.value.buffer] == Block(value.value.bytes, value.value.capacity)
      && e.valueLength == |value.value.bytes|
    ensures Droppable(heap.blocks, e) <==>
      key.capacity == |key.bytes| && (value.Some? ==> value.value.capacity == |value.value.bytes|)
  {
    var keyPtr := heap.IntoRaw(key.bytes, key.capacity);
    match value {
      case None =>
        e := KeyValuePair(keyPtr, |key.bytes|, Null, 0);
      case Some(v) =>
        var valuePtr := heap.IntoRaw(v.bytes, v.capacity);
        e := KeyValuePair(keyPtr, |key.bytes|, valuePtr, |v.bytes|);
    }
  }

  /**
   * The mismatch on one input: the key `"a"` held in a `String` of capacity
   * 8 becomes an entry whose drop would free the buffer with capacity 1,
   * which `String::from_raw_parts` forbids.
   */
  method IntoEntryAsWrittenWithSpareCapacity()
  {
    var heap := new Allocator();
    var e := IntoEntryAsWritten(heap, Vec([97], 8), None);
    assert e.keyLength == 1 && heap.blocks[e.key.buffer].capacity == 8;
    assert !Droppable(heap.blocks, e);
  }

  /**
   * One step of the conversion, corrected: each string is shrunk to its
   * length before it is handed over (`into_boxed_str`), so the key, and a
   * present value, become buffers of exactly their length, as the drop
   * needs.
   */
  method IntoEntry(heap: Allocator, key: Str, value: Option<Str>) returns (e: KeyValuePair)
    requires heap.Valid()
    modifies heap
    ensures heap.Valid() && heap.arrays == old(heap.arrays) && heap.next >= old(heap.next)
    ensures Carries(heap.blocks, e, key, value)
    ensures forall id | id in Owned(e) :: old(heap.next) <= id < heap.next
    ensures heap.blocks.Keys == old(heap.blocks).Keys + Owned(e)
    ensures forall id | id in old(heap.blocks) :: heap.blocks[id] == old(heap.blocks)[id]
  {
    var keyPtr := heap.IntoRaw(key, |key|);
    match value {
      case None =>
        e := KeyValuePair(keyPtr, |key|, Null, 0);
      case Some(v) =>
        var valuePtr := heap.IntoRaw(v, |v|);
        e := KeyValuePair(keyPtr, |key|, valuePtr, |v|);
    }
  }

  /** The keys of `input` not in `remaining` are those of `order`, each once. */
  ghost predicate OrderPart(input: Maps.Data, remaining: set<Str>, order: seq<Str>)
  {
    && remaining <= input.Keys
    && (forall k :: k in order <==> k in input && k !in remaining)
    && (forall i, j | 0 <= i < j < |order| :: order[i] != order[j])
  }

  /** Entry `i` carries key `order[i]` and its value, in buffers of `blocks`. */
  ghost predicate CarryPart(input: Maps.Data, order: seq<Str>, entries: seq<KeyValuePair>, blocks: map<BufferId, Block>)
  {
    && |entries| == |order|
    && (forall i | 0 <= i < |order| :: order[i] in input)
    && (forall i | 0 <= i < |entries| :: Carries(blocks, entries[i], order[i], input[order[i]]))
  }

  /** The entries' buffers lie in `[base, top)`, and no two entries share one. */
  ghost predicate RangePart(entries: seq<KeyValuePair>, base: nat, top: nat)
  {
    && base <= top
    && (forall i | 0 <= i < |entries| :: entries[i].key.Ptr?)
    && (forall i | 0 <= i < |entries| :: forall id | id in Owned(entries[i]) :: base <= id < top)
    && (forall i, j | 0 <= i < j < |entries| :: Owned(entries[i]) !! Owned(entries[j]))
  }

  /** `after` is `before`, whose buffers all lie below `base`, plus the entries' buffers. */
  ghost predicate HeapPart(entries: seq<KeyValuePair>, before: map<BufferId, Block>, after: map<BufferId, Block>, base: nat)
  {
    && (forall i | 0 <= i < |entries| :: entries[i].key.Ptr?)
    && (forall id | id in before :: id < base)
    && after.Keys == before.Keys + OwnedByAll(entries)
    && (forall id | id in before :: after[id] == before[id])
  }

  /**
   * Part way through the conversion: the keys in `order` (those of `input`
   * not in `remaining`) have become `entries`, whose buffers lie in
   * `[base, top)`, above every buffer of `before`.
   */
  ghost predicate Progress(input: Maps.Data, remaining: set<Str>, order: seq<Str>, entries: seq<KeyValuePair>,
                           before: map<BufferId, Block>, after: map<BufferId, Block>, base: nat, top: nat)
  {
    && OrderPart(input, remaining, order)
    && CarryPart(input, order, entries, after)
    && RangePart(entries, base, top)
    && HeapPart(entries, before, after, base)
  }

  /** Appending a remaining key keeps `order` duplicate-free and in step with `remaining`. */
  lemma OrderStep(input: Maps.Data, remaining: set<Str>, order: seq<Str>, k: Str)
    requires OrderPart(input, remaining, order) && k in remaining
    ensures OrderPart(input, remaining - {k}, order + [k])
  {
  }

  /** Entries already converted keep their buffers when more are allocated. */
  lemma CarriesStep(input: Maps.Data, order: seq<Str>, entries: seq<KeyValuePair>,
                    mid: map<BufferId, Block>, after: map<BufferId, Block>, k: Str, e: KeyValuePair)
    requires CarryPart(input, order, entries, mid) && k in input
    requires Carries(after, e, k, input[k])
    requires mid.Keys <= after.Keys
    requires forall id | id in mid :: after[id] == mid[id]
    ensures CarryPart(input, order + [k], entries + [e], after)
  {
    var order', entries' := order + [k], entries + [e];
    forall i | 0 <= i < |entries'|
      ensures order'[i] in input && Carries(after, entries'[i], order'[i], input[order'[i]])
    {
      if i < |entries| {
        assert entries'[i] == entries[i] && order'[i] == order[i];
        assert Carries(mid, entries[i], order[i], input[order[i]]);
      }
    }
  }

  /** The new entry's buffers lie above those of the entries before it. */
  lemma RangeStep(entries: seq<KeyValuePair>, e: KeyValuePair, base: nat, top: nat, top': nat)
    requires RangePart(entries, base, top) && top <= top'
    requires e.key.Ptr?
    requires forall id | id in Owned(e) :: top <= id < top'
    ensures RangePart(entries + [e], base, top')
  {
    var entries' := entries + [e];
    forall i | 0 <= i < |entries'|
      ensures entries'[i].key.Ptr? && forall id | id in Owned(entries'[i]) :: base <= id < top'
    {
      if i < |entries| {
        assert entries'[i] == entries[i];
      }
    }
    forall i, j | 0 <= i < j < |entries'|
      ensures Owned(entries'[i]) !! Owned(entries'[j])
    {
      assert entries'[i] == entries[i];
      if j == |entries| {
        assert forall id | id in Owned(entries[i]) :: id < top;
      } else {
        assert entries'[j] == entries[j];
      }
    }
  }

  /** Allocating the new entry's buffers adds exactly them to the heap. */
  lemma HeapStep(entries: seq<KeyValuePair>, e: KeyValuePair, before: map<BufferId, Block>,
                 mid: map<BufferId, Block>, after: map<BufferId, Block>, base: nat)
    requires HeapPart(entries, before, mid, base) && e.key.Ptr?
    requires after.Keys == mid.Keys + Owned(e)
    requires forall id | id in mid :: after[id] == mid[id]
    ensures HeapPart(entries + [e], before, after, base)
  {
    OwnedByAllSnoc(entries, e);
    assert forall i | 0 <= i < |entries| + 1 :: (entries + [e])[i].key.Ptr? by {
      assert forall i | 0 <= i < |entries| :: (entries + [e])[i] == entries[i];
    }
  }

  /** Converting one more key keeps `Progress`. */
  lemma ProgressStep(input: Maps.Data, remaining: set<Str>, order: seq<Str>, entries: seq<KeyValuePair>,
                     before: map<BufferId, Block>, mid: map<BufferId, Block>, after: map<BufferId, Block>,
                     base: nat, top: nat, top': nat, k: Str, e: KeyValuePair)
    requires Progress(input, remaining, order, entries, before, mid, base, top)
    requires k in remaining && top <= top'
    requires Carries(after, e, k, input[k])
    requires forall id | id in Owned(e) :: top <= id < top'
    requires after.Keys == mid.Keys + Owned(e)
    requires forall id | id in mid :: after[id] == mid[id]
    ensures Progress(input, remaining - {k}, order + [k], entries + [e], before, after, base, top')
  {
    OrderStep(input, remaining, order, k);
    CarriesStep(input, order, entries, mid, after, k, e);
    RangeStep(entries, e, base, top, top');
    HeapStep(entries, e, before, mid, after, base);
  }

  /** Once no key remains, `Progress` is a complete transfer. */
  lemma ProgressDone(input: Maps.Data, order: seq<Str>, entries: seq<KeyValuePair>,
                     before: map<BufferId, Block>, after: map<BufferId, Block>, base: nat, top: nat)
    requires Progress(input, {}, order, entries, before, after, base, top)
    ensures Transfers(input, order, entries, before, after)
  {
    forall i | 0 <= i < |entries|
      ensures Owned(entries[i]) !! before.Keys
    {
      assert forall id | id in Owned(entries[i]) :: base <= id;
    }
  }

  /**
   * `KeyValuePair::from_optional_hash_map`: every key of `input`, in the
   * map's own iteration order (`order`), becomes one entry. Its key and a
   * present value are handed over as their own buffers; an absent value
   * becomes `(null, 0)`.
   */
  method FromOptionalHashMap(heap: Allocator, input: Maps.Data)
    returns (entries: seq<KeyValuePair>, ghost order: seq<Str>)
    requires heap.Valid()
    modifies heap
    ensures heap.Valid() && heap.arrays == old(heap.arrays)
    ensures Transfers(input, order, entries, old(heap.blocks), heap.blocks)
  {
    entries, order := [], [];
    var remaining := input.Keys;
    while remaining != {}
      invariant heap.Valid() && heap.arrays == old(heap.arrays) && heap.next >= old(heap.next)
      invariant Progress(input, remaining, order, entries, old(heap.blocks), heap.blocks, old(heap.next), heap.next)
      decreases remaining
    {
      var k :| k in remaining;
      ghost var mid, top := heap.blocks, heap.next;
      var e := IntoEntry(heap, k, input[k]);
      ProgressStep(input, remaining, order, entries, old(heap.blocks), mid, heap.blocks, old(heap.next), top, heap.next, k, e);
      entries, order := entries + [e], order + [k];
      remaining := remaining - {k};
    }
    ProgressDone(input, order, entries, old(heap.blocks), heap.blocks, old(heap.next), heap.next);
  }

  /**
   * `KeyValuePair::from_hash_map`: as `from_optional_hash_map` with every
   * value present, so every entry carries a non-null value.
   */
  method FromHashMap(heap: Allocator, input: map<Str, Str>)
    returns (entries: seq<KeyValuePair>, ghost order: seq<Str>)
    requires heap.Valid()
    modifies heap
    ensures heap.Valid() && heap.arrays == old(heap.arrays)
    ensures Transfers(Maps.AllPresent(input), order, entries, old(heap.blocks), heap.blocks)
    ensures forall i | 0 <= i < |entries| :: Carries(heap.blocks, entries[i], order[i], Some(input[order[i]]))
  {
    entries, order := FromOptionalHashMap(heap, Maps.AllPresent(input));
  }

  /**
   * `e` may be dropped: its key, and its value when non-null, are distinct
   * live buffers whose capacity is the recorded length.
   */
  ghost predicate Droppable(blocks: map<BufferId, Block>, e: KeyValuePair)
  {
    && e.key.Ptr? && e.key.buffer in blocks
    && blocks[e.key.buffer].capacity == e.keyLength && e.keyLength <= |blocks[e.key.buffer].bytes|
    && (e.value.Ptr? ==>
          && e.value.buffer != e.key.buffer && e.value.buffer in blocks
          && blocks[e.value.buffer].capacity == e.valueLength
          && e.valueLength <= |blocks[e.value.buffer].bytes|)
  }

  /**
   * `Drop for KeyValuePair`: the key is rebuilt into a `String` and freed;
   * the value is freed the same way only when its pointer is non-null, so an
   * absent value never touches memory.
   */
  method Drop(heap: Allocator, e: KeyValuePair)
    requires heap.Valid() && Droppable(heap.blocks, e)
    modifies heap
    ensures heap.Valid() && heap.arrays == old(heap.arrays)
    ensures heap.blocks == old(heap.blocks) - Owned(e)
  {
    heap.FreeRawParts(e.key, e.keyLength, e.keyLength);
    if e.value.Ptr? {
      heap.FreeRawParts(e.value, e.valueLength, e.valueLength);
    }
  }

  /**
   * Every entry of a conversion can be dropped, no buffer is owned by two
   * entries, and once every entry is dropped the heap is as before the
   * conversion: nothing leaks and nothing is freed twice.
   */
  lemma TransferIsReclaimable(input: Maps.Data, order: seq<Str>, entries: seq<KeyValuePair>,
                              before: map<BufferId, Block>, after: map<BufferId, Block>)
    requires Transfers(input, order, entries, before, after)
    ensures forall i | 0 <= i < |entries| :: Droppable(after, entries[i])
    ensures after - OwnedByAll(entries) == before
  {
    forall id | id in OwnedByAll(entries)
      ensures id !in before
    {
      OwnedByOne(entries, id);
    }
  }
}
