/**
 * Owned buffers handed across the boundary: `ByteArray` (bytes) and
 * `DynamicArray` (a sequence of `ByteArray`s), and the native allocations
 * they own.
 */
module OwnedBuffers {
  import opened Bytes

  /** The identity of one native allocation. */
  type BufferId = nat

  /** A raw `data` pointer: null, or the start of a native allocation. */
  datatype Ptr = Null | Ptr(buffer: BufferId)

  /** A Rust `Vec<u8>` or `String` by value: its bytes and the capacity of its allocation. */
  datatype Vec = Vec(bytes: seq<uint8>, capacity: nat)

  /** A byte allocation: the bytes written so far and the capacity it was allocated with. */
  datatype Block = Block(bytes: seq<uint8>, capacity: nat)

  /** The C struct `ByteArray { data, size, cap, disable_free }`. */
  datatype ByteArray = ByteArray(data: Ptr, size: nat, cap: nat, disableFree: bool)

  /** The C struct `DynamicArray { data, size, cap, disable_free }`; `data` points at `ByteArray`s. */
  datatype DynamicArray = DynamicArray(data: Ptr, size: nat, cap: nat, disableFree: bool)

  /** The storage of a `Vec<ByteArray>`: its elements and its capacity. */
  datatype ArrayBlock = ArrayBlock(elems: seq<ByteArray>, capacity: nat)

  /**
   * The native allocations the bridge is responsible for: byte buffers and
   * `ByteArray` storage, each under its own identity, from the moment the
   * bridge allocates or takes over a buffer until it is freed.
   */
  class Allocator {
    ghost var blocks: map<BufferId, Block>
    ghost var arrays: map<BufferId, ArrayBlock>
    var next: BufferId

    ghost predicate Valid()
      reads this
    {
      && (forall id | id in blocks :: id < next && |blocks[id].bytes| <= blocks[id].capacity)
      && (forall id | id in arrays :: id < next && id !in blocks && |arrays[id].elems| <= arrays[id].capacity)
    }

    constructor ()
      ensures Valid() && blocks == map[] && arrays == map[]
    {
      blocks, arrays, next := map[], map[], 0;
    }

    /** A byte buffer starts to be owned through a raw pointer (`ManuallyDrop::new(vec).as_mut_ptr()`). */
    method IntoRaw(bytes: seq<uint8>, capacity: nat) returns (p: Ptr)
      requires Valid() && |bytes| <= capacity
      modifies this
      ensures Valid() && next > old(next)
      ensures p == Ptr(old(next)) && p.buffer !in old(blocks) && p.buffer !in old(arrays)
      ensures blocks == old(blocks)[p.buffer := Block(bytes, capacity)] && arrays == old(arrays)
    {
      p := Ptr(next);
      blocks := blocks[next := Block(bytes, capacity)];
      next := next + 1;
    }

    /**
     * `Vec::from_raw_parts(data, size, capacity)` dropped at once: frees the
     * buffer. The capacity must be the one the buffer was allocated with.
     */
    method FreeRawParts(p: Ptr, size: nat, capacity: nat)
      requires Valid() && p.Ptr? && p.buffer in blocks
      requires blocks[p.buffer].capacity == capacity && size <= |blocks[p.buffer].bytes|
      modifies this
      ensures Valid() && next == old(next)
      ensures blocks == old(blocks) - {p.buffer} && arrays == old(arrays)
    {
      blocks := blocks - {p.buffer};
    }

    /** `collect()` allocates the storage of a `Vec<ByteArray>`. */
    method AllocateArray(elems: seq<ByteArray>, capacity: nat) returns (p: Ptr)
      requires Valid() && |elems| <= capacity
      modifies this
      ensures Valid() && next > old(next)
      ensures p == Ptr(old(next)) && p.buffer !in old(blocks) && p.buffer !in old(arrays)
      ensures arrays == old(arrays)[p.buffer := ArrayBlock(elems, capacity)] && blocks == old(blocks)
    {
      p := Ptr(next);
      arrays := arrays[next := ArrayBlock(elems, capacity)];
      next := next + 1;
    }

    /** The storage of a `Vec<ByteArray>` is freed (its elements are dropped separately). */
    method FreeArray(p: Ptr)
      requires Valid() && p.Ptr? && p.buffer in arrays
      modifies this
      ensures Valid() && next == old(next)
      ensures arrays == old(arrays) - {p.buffer} && blocks == old(blocks)
    {
      arrays := arrays - {p.buffer};
    }
  }

  /** The byte buffers that the `ByteArray`s in `elems` point at. */
  ghost function BuffersOf(elems: seq<ByteArray>): set<BufferId>
  {
    set i | 0 <= i < |elems| && elems[i].data.Ptr? :: elems[i].data.buffer
  }

  /**
   * `elems` are the `ByteArray`s of the strings `input`, each owning a new
   * buffer (not in `before`, exact capacity) that holds its string, no two
   * sharing one; `after` is `before` plus exactly those buffers.
   */
  ghost predicate OwnStrings(elems: seq<ByteArray>, input: seq<Str>,
                             before: map<BufferId, Block>, after: map<BufferId, Block>)
  {
    && |elems| == |input|
    && (forall i | 0 <= i < |elems| ::
          && elems[i] == ByteArray(elems[i].data, |input[i]|, |input[i]|, false)
          && elems[i].data.Ptr? && elems[i].data.buffer !in before
          && elems[i].data.buffer in after && after[elems[i].data.buffer] == Block(input[i], |input[i]|))
    && (forall i, j | 0 <= i < j < |elems| :: elems[i].data != elems[j].data)
    && after.Keys == before.Keys + BuffersOf(elems)
    && (forall id | id in before :: after[id] == before[id])
  }

  /**
   * `ByteArray::from_vec`: the vector's buffer becomes owned through `data`,
   * with `size` its length, `cap` its capacity and freeing enabled.
   */
  method FromVec(heap: Allocator, vec: Vec) returns (b: ByteArray)
    requires heap.Valid() && |vec.bytes| <= vec.capacity
    modifies heap
    ensures heap.Valid() && heap.next > old(heap.next)
    ensures b.data.Ptr? && b.data.buffer == old(heap.next)
    ensures b.data.buffer !in old(heap.blocks) && b.data.buffer !in old(heap.arrays)
    ensures heap.blocks == old(heap.blocks)[b.data.buffer := Block(vec.bytes, vec.capacity)]
    ensures heap.arrays == old(heap.arrays)
    ensures b.size == |vec.bytes| && b.cap == vec.capacity && b.cap >= b.size && !b.disableFree
  {
    var data := heap.IntoRaw(vec.bytes, vec.capacity);
    b := ByteArray(data, |vec.bytes|, vec.capacity, false);
  }

  /** `ByteArray::from_utf8`: `from_vec` of the string's bytes (`into_bytes` keeps the buffer). */
  method FromUtf8(heap: Allocator, s: Vec) returns (b: ByteArray)
    requires heap.Valid() && |s.bytes| <= s.capacity
    modifies heap
    ensures heap.Valid() && heap.next > old(heap.next)
    ensures b.data.Ptr? && b.data.buffer == old(heap.next)
    ensures b.data.buffer !in old(heap.blocks) && b.data.buffer !in old(heap.arrays)
    ensures heap.blocks == old(heap.blocks)[b.data.buffer := Block(s.bytes, s.capacity)]
    ensures heap.arrays == old(heap.arrays)
    ensures b.size == |s.bytes| && b.cap == s.capacity && !b.disableFree
  {
    b := FromVec(heap, s);
  }

  /**
   * `ByteArray::from_vec_disable_free`: as `from_vec`, but with
   * `disable_free` set. What a free does with the flag is decided by
   * `byte_array_free`, which is not part of this model.
   */
  method FromVecDisableFree(heap: Allocator, vec: Vec) returns (b: ByteArray)
    requires heap.Valid() && |vec.bytes| <= vec.capacity
    modifies heap
    ensures heap.Valid() && heap.next > old(heap.next)
    ensures b.data.Ptr? && b.data.buffer !in old(heap.blocks) && b.data.buffer !in old(heap.arrays)
    ensures heap.blocks == old(heap.blocks)[b.data.buffer := Block(vec.bytes, vec.capacity)]
    ensures heap.arrays == old(heap.arrays)
    ensures b.size == |vec.bytes| && b.cap == vec.capacity && b.disableFree
  {
    b := FromVec(heap, vec);
    b := b.(disableFree := true);
  }

  /** `b` may be dropped: a non-null `data` is a live buffer with the layout `b` records. */
  ghost predicate Droppable(blocks: map<BufferId, Block>, b: ByteArray)
  {
    b.data.Ptr? ==>
      && b.data.buffer in blocks
      && blocks[b.data.buffer].capacity == b.cap
      && b.size <= |blocks[b.data.buffer].bytes|
  }

  /**
   * `Drop for ByteArray`: a non-null `data` is rebuilt into a vector and
   * freed; a null `data` is left alone.
   */
  method Drop(heap: Allocator, b: ByteArray)
    requires heap.Valid() && Droppable(heap.blocks, b)
    modifies heap
    ensures heap.Valid() && heap.next == old(heap.next) && heap.arrays == old(heap.arrays)
    ensures b.data.Ptr? ==> heap.blocks == old(heap.blocks) - {b.data.buffer}
    ensures b.data.Null? ==> heap.blocks == old(heap.blocks)
  {
    if b.data.Ptr? {
      heap.FreeRawParts(b.data, b.size, b.cap);
    }
  }

  /**
   * `input.into_iter().map(|path| ByteArray::from_utf8(path.to_string())).collect()`:
   * one `ByteArray` per string, each owning a fresh copy of the string
   * made with exactly its length as capacity.
   */
  method ByteArraysOf(heap: Allocator, input: seq<Str>) returns (elems: seq<ByteArray>)
    requires heap.Valid()
    modifies heap
    ensures heap.Valid() && heap.next >= old(heap.next) && heap.arrays == old(heap.arrays)
    ensures OwnStrings(elems, input, old(heap.blocks), heap.blocks)
  {
    elems := [];
    var i := 0;
    while i < |input|
      invariant 0 <= i <= |input|
      invariant heap.Valid() && heap.next >= old(heap.next) && heap.arrays == old(heap.arrays)
      invariant OwnStrings(elems, input[..i], old(heap.blocks), heap.blocks)
      invariant forall j | 0 <= j < |elems| :: elems[j].data.buffer < heap.next
    {
      ghost var mid, top := heap.blocks, heap.next;
      var b := FromUtf8(heap, Vec(input[i], |input[i]|));
      OwnStringsStep(elems, input[..i], input[i], old(heap.blocks), mid, heap.blocks, top, b);
      assert input[..i + 1] == input[..i] + [input[i]];
      elems := elems + [b];
      i := i + 1;
    }
    assert input[..i] == input;
  }

  /** One more string, copied into a buffer above all earlier ones, keeps `OwnStrings`. */
  lemma OwnStringsStep(elems: seq<ByteArray>, input: seq<Str>, s: Str,
                       before: map<BufferId, Block>, mid: map<BufferId, Block>, after: map<BufferId, Block>,
                       top: nat, b: ByteArray)
    requires OwnStrings(elems, input, before, mid)
    requires forall j | 0 <= j < |elems| :: elems[j].data.buffer < top
    requires b == ByteArray(b.data, |s|, |s|, false) && b.data == Ptr(top)
    requires top !in mid
    requires after == mid[top := Block(s, |s|)]
    ensures OwnStrings(elems + [b], input + [s], before, after)
  {
    var elems', input' := elems + [b], input + [s];
    assert BuffersOf(elems') == BuffersOf(elems) + {top} by {
      assert forall j | 0 <= j < |elems| :: elems'[j] == elems[j];
      assert elems'[|elems|] == b;
    }
    forall i | 0 <= i < |elems'|
      ensures && elems'[i] == ByteArray(elems'[i].data, |input'[i]|, |input'[i]|, false)
              && elems'[i].data.Ptr? && elems'[i].data.buffer !in before
              && elems'[i].data.buffer in after && after[elems'[i].data.buffer] == Block(input'[i], |input'[i]|)
    {
      if i < |elems| {
        assert elems'[i] == elems[i] && input'[i] == input[i];
      }
    }
    forall i, j | 0 <= i < j < |elems'|
      ensures elems'[i].data != elems'[j].data
    {
      assert elems'[i] == elems[i];
      if j < |elems| {
        assert elems'[j] == elems[j];
      }
    }
  }

  /**
   * `DynamicArray::from_vec_string` with the collected vector kept alive
   * (wrapped in `ManuallyDrop`, as `ByteArray::from_vec` does): the result
   * owns storage holding one `ByteArray` per string, element `i` owning a
   * buffer with the bytes of `input[i]`, and freeing is enabled.
   */
  method FromVecString(heap: Allocator, input: seq<Str>) returns (d: DynamicArray)
    requires heap.Valid()
    modifies heap
    ensures heap.Valid()
    ensures d.size == |input| && d.cap >= d.size && !d.disableFree
    ensures d.data.Ptr? && d.data.buffer !in old(heap.arrays) && d.data.buffer !in old(heap.blocks)
    ensures d.data.buffer in heap.arrays && heap.arrays[d.data.buffer].capacity == d.cap
    ensures heap.arrays == old(heap.arrays)[d.data.buffer := heap.arrays[d.data.buffer]]
    ensures OwnStrings(heap.arrays[d.data.buffer].elems, input, old(heap.blocks), heap.blocks)
  {
    var elems := ByteArraysOf(heap, input);
    var data := heap.AllocateArray(elems, |elems|);
    d := DynamicArray(data, |elems|, |elems|, false);
  }

  /**
   * `DynamicArray::from_vec_string` as written: the collected vector is a
   * local that is dropped on return, so every element's buffer and then the
   * storage itself are freed. The caller receives a `size` of `|input|` and
   * a `data` pointer to storage that is no longer allocated, and the net
   * effect on the heap is nothing.
   */
  method FromVecStringAsWritten(heap: Allocator, input: seq<Str>) returns (d: DynamicArray)
    requires heap.Valid()
    modifies heap
    ensures heap.Valid()
    ensures d.size == |input| && !d.disableFree
    ensures d.data.Ptr? && d.data.buffer !in heap.arrays && d.data.buffer !in heap.blocks
    ensures heap.blocks == old(heap.blocks) && heap.arrays == old(heap.arrays)
  {
    var elems := ByteArraysOf(heap, input);
    var data := heap.AllocateArray(elems, |elems|);
    d := DynamicArray(data, |elems|, |elems|, false);
    // End of scope: the local `Vec<ByteArray>` is dropped.
    ReleaseStrings(elems, input, old(heap.blocks), heap.blocks);
    DropElements(heap, elems);
    heap.FreeArray(data);
  }

  /** Freeing the buffers of `OwnStrings` gives back the heap from before. */
  lemma ReleaseStrings(elems: seq<ByteArray>, input: seq<Str>,
                       before: map<BufferId, Block>, after: map<BufferId, Block>)
    requires OwnStrings(elems, input, before, after)
    ensures after - BuffersOf(elems) == before
    ensures forall i, j | 0 <= i < j < |elems| :: elems[i].data != elems[j].data
    ensures forall i | 0 <= i < |elems| :: elems[i].data.Ptr? && Droppable(after, elems[i])
  {
    forall id | id in BuffersOf(elems)
      ensures id !in before
    {
      var i :| 0 <= i < |elems| && elems[i].data.Ptr? && elems[i].data.buffer == id;
    }
  }

  /**
   * Dropping a `Vec<ByteArray>`'s elements in order: each element's buffer
   * is freed once.
   */
  method DropElements(heap: Allocator, elems: seq<ByteArray>)
    requires heap.Valid()
    requires forall i, j | 0 <= i < j < |elems| :: elems[i].data != elems[j].data
    requires forall i | 0 <= i < |elems| :: elems[i].data.Ptr? && Droppable(heap.blocks, elems[i])
    modifies heap
    ensures heap.Valid() && heap.next == old(heap.next) && heap.arrays == old(heap.arrays)
    ensures heap.blocks == old(heap.blocks) - BuffersOf(elems)
  {
    var i := 0;
    while i < |elems|
      invariant 0 <= i <= |elems|
      invariant heap.Valid() && heap.next == old(heap.next) && heap.arrays == old(heap.arrays)
      invariant heap.blocks == old(heap.blocks) - BuffersOf(elems[..i])
      invariant forall j | i <= j < |elems| :: Droppable(heap.blocks, elems[j])
    {
      Drop(heap, elems[i]);
      assert BuffersOf(elems[..i + 1]) == BuffersOf(elems[..i]) + {elems[i].data.buffer} by {
        assert forall j | 0 <= j < i :: elems[..i + 1][j] == elems[..i][j];
        assert elems[..i + 1][i] == elems[i];
      }
      i := i + 1;
    }
    assert elems[..i] == elems;
  }

  /**
   * The use after free in `from_vec_string` as written, on the input
   * `["a"]`: the host is told there is one element, but the storage `data`
   * points at is already freed, and the heap holds nothing for it.
   */
  method FromVecStringAsWrittenOnOneString()
  {
    var heap := new Allocator();
    var d := FromVecStringAsWritten(heap, [[97]]);
    assert d.size == 1 && d.data.buffer !in heap.arrays;
    assert heap.blocks == map[] && heap.arrays == map[];
    var kept := new Allocator();
    var e := FromVecString(kept, [[97]]);
    assert e.size == 1 && e.data.buffer in kept.arrays;
    assert kept.blocks[kept.arrays[e.data.buffer].elems[0].data.buffer].bytes == [97];
  }
}
