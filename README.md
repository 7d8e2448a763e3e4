# Delta Lake .NET bridge: marshalling layer

This project models the marshalling layer of the Rust bridge that the .NET
Delta Lake bindings call through the C ABI (`src/DeltaLake/Bridge/src/lib.rs`)
and proves properties of that model in Dafny. It covers four areas:

- **The `Map` accumulator.** The host creates a map (`map_new`) and fills it
  entry by entry (`map_add`). It then hands the map to Rust in one consuming
  call (`Map::into_map`, `Map::into_hash_map`).
- **Borrowed byte views.** A `ByteArrayRef` is a view of bytes the host owns.
  The model covers its readings as a slice, a string, an optional value
  (size 0 means absent), and a newline-separated key/value map.
- **Key/value transfer.** `KeyValuePair::from_optional_hash_map` and
  `from_hash_map` turn a map into one native entry per key; `Drop for
  KeyValuePair` gives the entry's buffers back.
- **Owned buffers.** `ByteArray::from_vec` / `from_utf8` /
  `from_vec_disable_free` and `DynamicArray::from_vec_string` hand memory to
  the host; `Drop for ByteArray` reclaims it.

Strings are byte sequences (`Bytes.Str = seq<uint8>`). Native memory is
modelled by an `OwnedBuffers.Allocator`:

- ghost maps `blocks` (byte buffers) and `arrays` (storage of
  `Vec<ByteArray>`) record live allocations;
- a counter `next` hands out fresh buffer identities;
- `IntoRaw` stands for `ManuallyDrop::new(..).as_mut_ptr()`;
- `FreeRawParts` stands for `Vec::from_raw_parts` / `String::from_raw_parts`
  followed by a drop. It demands the capacity the buffer was allocated with.

`HashMap` iteration order is unspecified. The conversions therefore pick
each next key nondeterministically, and a ghost `order` output names the
order taken. Every property is stated for all orders.

The code is organised in modules:

- `Wrappers`, `Bytes`: `Option`, bytes and byte strings.
- `Collections`: `collect::<HashMap<_, _>>()` (`Collect`, later pairs win),
  and the pairs of a map in one of its iteration orders.
- `NewlineMaps`: the `'\n'` splitter, the pairing of fields, and the
  inverse format.
- `ByteArrayRefs`: the `ByteArrayRef` view.
- `Maps`: the `Map` accumulator and its handle life cycle.
- `OwnedBuffers`: the allocator, `ByteArray`, `DynamicArray`.
- `KeyValuePairs`: the entries and their transfer and drop.

## Model

`to_str_map_on_newlines` is `ByteArrayRefs.ByteArrayRef.ToStrMapOnNewlines`, defined as
`NewlineMaps.ParseMap` of the viewed text. Its properties are `ParseMap`'s contract and the
`MapOnNewlines*` lemmas below.

| member | source | states |
|---|---|---|
| Collections.Collect | src/DeltaLake/Bridge/src/lib.rs:227-229 | the pair inserted last is in the collected map with its value |
| Collections.CollectKeys | src/DeltaLake/Bridge/src/lib.rs:227-229 | a key is in the collected map iff some pair carries it |
| Collections.CollectLast | src/DeltaLake/Bridge/src/lib.rs:227-229 | a key's value in the collected map is the value of its last pair (a later insert overwrites) |
| Collections.CollectFrom | src/DeltaLake/Bridge/src/lib.rs:227-229 | every entry of the collected map is one of the pairs it was collected from |
| Collections.CollectSnoc | src/DeltaLake/Bridge/src/lib.rs:227-229 | collecting one more pair is a `HashMap::insert` on the map collected so far |
| Collections.EntriesInOrder | src/DeltaLake/Bridge/src/lib.rs:35-37 | the pairs `into_iter()` yields for a visiting order: one per position, the key and its value |
| Collections.CollectEnumeration | src/DeltaLake/Bridge/src/lib.rs:103-106 | collecting the pairs of a map, in any iteration order, gives back the same map |
| NewlineMaps.Split | src/DeltaLake/Bridge/src/lib.rs:226 | `split('\n')` yields at least one field, and no field contains a newline |
| NewlineMaps.JoinSplit | src/DeltaLake/Bridge/src/lib.rs:226 | the fields joined with newlines give the text back: the split loses nothing |
| NewlineMaps.SplitJoin | src/DeltaLake/Bridge/src/lib.rs:226 | fields without newlines, joined and split again, come back unchanged |
| NewlineMaps.SplitPrefix | src/DeltaLake/Bridge/src/lib.rs:226 | newline-free text in front of `t` extends the first field of `t` and leaves the others |
| NewlineMaps.Pairs | src/DeltaLake/Bridge/src/lib.rs:227-228 | `chunks_exact(2)`: `|fields| / 2` pairs, pair `i` is fields `2i` and `2i+1`, an odd last field is dropped |
| NewlineMaps.ParseMap | src/DeltaLake/Bridge/src/lib.rs:225-230 | the map read from a text: no key and no value holds a newline |
| NewlineMaps.PairedKeys | src/DeltaLake/Bridge/src/lib.rs:225-230 | a key is in the parsed map iff it is field `2i` for some pair `i` |
| NewlineMaps.LastPairWins | src/DeltaLake/Bridge/src/lib.rs:225-230 | the value of a key is field `2i+1`, where `2i` is the key's last position as a key |
| NewlineMaps.Flatten | src/DeltaLake/Bridge/src/lib.rs:225-230 | laying out pairs as key, value, ... gives twice as many fields |
| NewlineMaps.PairsFlatten | src/DeltaLake/Bridge/src/lib.rs:227-228 | pairing up the laid-out pairs gives the pairs back |
| NewlineMaps.FlattenWithoutNewlines | src/DeltaLake/Bridge/src/lib.rs:225-230 | keys and values without newlines give fields without newlines |
| NewlineMaps.ParseFormat | src/DeltaLake/Bridge/src/lib.rs:225-230 | text written as key, value, ... lines parses to the map of inserting those pairs in order |
| NewlineMaps.ParseFormatMap | src/DeltaLake/Bridge/src/lib.rs:225-230 | a map written in the newline format, in any key order, parses back to itself |
| ByteArrayRefs.ByteArrayRef.ToSlice | src/DeltaLake/Bridge/src/lib.rs:172-174 | exactly `size` bytes, the prefix of the memory at `data` |
| ByteArrayRefs.ByteArrayRef.ToVec | src/DeltaLake/Bridge/src/lib.rs:181-183 | a copy of the viewed bytes |
| ByteArrayRefs.ByteArrayRef.ToStr | src/DeltaLake/Bridge/src/lib.rs:185-190 | the viewed bytes, read as text without a UTF-8 check |
| ByteArrayRefs.ByteArrayRef.ToOwnedString | src/DeltaLake/Bridge/src/lib.rs:192-194 | an owned copy of the viewed bytes |
| ByteArrayRefs.ByteArrayRef.ToOptionSlice | src/DeltaLake/Bridge/src/lib.rs:196-203 | `None` iff `size == 0`, otherwise `Some` of the viewed bytes |
| ByteArrayRefs.ByteArrayRef.ToOptionVec | src/DeltaLake/Bridge/src/lib.rs:205-211 | `None` iff `size == 0`, otherwise `Some` of a copy of the viewed bytes |
| ByteArrayRefs.ByteArrayRef.ToOptionStr | src/DeltaLake/Bridge/src/lib.rs:213-219 | `None` iff `size == 0`, otherwise `Some` of the viewed text |
| ByteArrayRefs.ByteArrayRef.ToOptionString | src/DeltaLake/Bridge/src/lib.rs:221-223 | `None` iff `size == 0`, otherwise `Some` of an owned copy of the text |
| ByteArrayRefs.ByteArrayRef.ToStringMapOnNewlines | src/DeltaLake/Bridge/src/lib.rs:232-237 | copying every key and value gives exactly the map of `to_str_map_on_newlines` |
| ByteArrayRefs.FromStr | src/DeltaLake/Bridge/src/lib.rs:158-163 | a valid view whose size is the string's length |
| ByteArrayRefs.FromString | src/DeltaLake/Bridge/src/lib.rs:165-170 | a valid view whose size is the string's length |
| ByteArrayRefs.ToStrFromStr | src/DeltaLake/Bridge/src/lib.rs:158-194 | `to_str` / `to_owned_string` of a view built by `from_str` or `from_string` give the string back |
| ByteArrayRefs.EmptyIsAbsent | src/DeltaLake/Bridge/src/lib.rs:205-223 | no view yields a present empty value; the view of `""` yields absent |
| ByteArrayRefs.MapOnNewlinesKeys | src/DeltaLake/Bridge/src/lib.rs:225-230 | the keys of the newline map are exactly the fields `2i` that have a partner `2i+1` |
| ByteArrayRefs.MapOnNewlinesLastWins | src/DeltaLake/Bridge/src/lib.rs:225-230 | a repeated key takes the value of its later pair |
| ByteArrayRefs.MapOnNewlinesDropsUnpairedField | src/DeltaLake/Bridge/src/lib.rs:227 | with an odd number of fields, the map is that of the fields without the last one |
| ByteArrayRefs.MapOnNewlinesOfEmpty | src/DeltaLake/Bridge/src/lib.rs:225-237 | an empty view reads as the empty map, through both functions |
| ByteArrayRefs.MapOnNewlinesReadsFormat | src/DeltaLake/Bridge/src/lib.rs:225-237 | a map written one key or value per line, in any order, reads back as the same map |
| Maps.Map.constructor | src/DeltaLake/Bridge/src/lib.rs:91-94 | a new accumulator is empty, open, and holds the given `disable_free` |
| Maps.Map.IntoMap | src/DeltaLake/Bridge/src/lib.rs:112-120 | a null handle gives `None`; otherwise the handle is consumed and the result is exactly the accumulated data, absent values kept |
| Maps.Map.IntoHashMap | src/DeltaLake/Bridge/src/lib.rs:97-110 | a null handle gives `None`; otherwise the handle is consumed and the result is the data with absent values as `""` |
| Maps.UnwrapOrDefault | src/DeltaLake/Bridge/src/lib.rs:103-106 | same keys; a present value kept, an absent one becomes `""` |
| Maps.AllPresent | src/DeltaLake/Bridge/src/lib.rs:58-74 | a map of present values with the same keys |
| Maps.UnwrapAllPresent | src/DeltaLake/Bridge/src/lib.rs:103-106 | `unwrap_or_default` on values that are all present changes nothing |
| Maps.UnwrapForgetsAbsence | src/DeltaLake/Bridge/src/lib.rs:103-106 | an absent value and a present `""` are different data but hand over the same map |
| Maps.MapNew | src/DeltaLake/Bridge/src/lib.rs:123-127 | the handle is fresh, open and empty |
| Maps.StoredValue | src/DeltaLake/Bridge/src/lib.rs:140-146 | a null value pointer stores absent; otherwise the value's text is stored |
| Maps.MapAdd | src/DeltaLake/Bridge/src/lib.rs:129-149 | key and value views need be readable only when the handle is non-null; `true` iff the handle is non-null; a null handle changes nothing; otherwise the key's entry is set (overwritten) to the stored value, every other entry is kept, and the handle stays open |
| Maps.MapAddNullHandle | src/DeltaLake/Bridge/src/lib.rs:135-137 | with a null handle `map_add` gives `false` for any key and value views, readable or not |
| Maps.PopulateStep | src/DeltaLake/Bridge/src/lib.rs:138-146 | one `map_add` of the next entry extends the map built so far by that entry |
| Maps.PopulateAndTake | src/DeltaLake/Bridge/src/lib.rs:97-149 | adding every entry of a map, in any order, then `into_map` gives the map back; `into_hash_map` gives it with absent values as `""` |
| Maps.Exchange | src/DeltaLake/Bridge/src/lib.rs:97-149 | `add("a","1")`, `add("b",null)` hand over `{a: Some("1"), b: None}`, or `{a: "1", b: ""}`; on a null handle `map_add` gives `false` and `into_map` / `into_hash_map` give `None` |
| OwnedBuffers.Allocator.IntoRaw | src/DeltaLake/Bridge/src/lib.rs:290-299 | the buffer becomes owned under a new identity with its bytes and capacity |
| OwnedBuffers.Allocator.FreeRawParts | src/DeltaLake/Bridge/src/lib.rs:318-328 | rebuilding with the allocated capacity and dropping frees exactly that buffer |
| OwnedBuffers.Allocator.AllocateArray | src/DeltaLake/Bridge/src/lib.rs:262-265 | `collect()` allocates storage for the `ByteArray`s under a new identity, holding them with the given capacity; byte buffers are untouched |
| OwnedBuffers.Allocator.FreeArray | src/DeltaLake/Bridge/src/lib.rs:261-272 | the drop of the local `Vec<ByteArray>` at the end of the function frees exactly its storage; byte buffers are untouched |
| OwnedBuffers.FromVec | src/DeltaLake/Bridge/src/lib.rs:290-299 | `data` owns a new buffer with the vector's bytes, `size` is its length, `cap` its capacity (at least `size`), freeing enabled |
| OwnedBuffers.FromUtf8 | src/DeltaLake/Bridge/src/lib.rs:286-288 | as `from_vec` on the string's bytes |
| OwnedBuffers.FromVecDisableFree | src/DeltaLake/Bridge/src/lib.rs:301-306 | the fields of `from_vec`, with `disable_free` set |
| OwnedBuffers.Drop | src/DeltaLake/Bridge/src/lib.rs:318-328 | a non-null `data` frees exactly its buffer; a null `data` changes nothing |
| OwnedBuffers.ByteArraysOf | src/DeltaLake/Bridge/src/lib.rs:262-265 | one `ByteArray` per string, element `i` owning a new exact-capacity buffer holding `input[i]`, no two sharing one |
| OwnedBuffers.OwnStringsStep | src/DeltaLake/Bridge/src/lib.rs:262-265 | one more string copied into a new buffer keeps that ownership relation |
| OwnedBuffers.FromVecString | src/DeltaLake/Bridge/src/lib.rs:261-272 | corrected: `size` is the input length, `cap >= size`, freeing enabled, `data` is live storage whose element `i` holds the bytes of `input[i]` |
| OwnedBuffers.FromVecStringAsWritten | src/DeltaLake/Bridge/src/lib.rs:261-272 | as written: `size` is the input length, but at return `data` points at freed storage and every element buffer is freed |
| OwnedBuffers.ReleaseStrings | src/DeltaLake/Bridge/src/lib.rs:318-328 | the element buffers are distinct and droppable, and freeing them restores the heap of before |
| OwnedBuffers.DropElements | src/DeltaLake/Bridge/src/lib.rs:318-328 | dropping the elements of a `Vec<ByteArray>` frees exactly their buffers |
| KeyValuePairs.Owned | src/DeltaLake/Bridge/src/lib.rs:77-90 | the buffers a drop frees: the key, and the value when non-null |
| KeyValuePairs.OwnedByAllSnoc | src/DeltaLake/Bridge/src/lib.rs:32-56 | one more entry adds exactly its own buffers |
| KeyValuePairs.OwnedByOne | src/DeltaLake/Bridge/src/lib.rs:32-56 | every buffer of the entries belongs to one entry |
| KeyValuePairs.IntoEntryAsWritten | src/DeltaLake/Bridge/src/lib.rs:37-52 | as written: the key's and value's own buffers are handed over as new buffers with their capacities, every other buffer is kept, and only lengths are recorded; an absent value is `(null, 0)`; the entry is droppable iff no string had spare capacity |
| KeyValuePairs.IntoEntry | src/DeltaLake/Bridge/src/lib.rs:37-52 | corrected (strings shrunk to their length first): the key, and a present value, become new buffers of exact length; an absent value is `(null, 0)` |
| KeyValuePairs.OrderStep | src/DeltaLake/Bridge/src/lib.rs:35-37 | visiting one more remaining key keeps the visited keys distinct and complementary to the remaining ones |
| KeyValuePairs.CarriesStep | src/DeltaLake/Bridge/src/lib.rs:35-54 | entries already made keep their key and value when the next entry is allocated |
| KeyValuePairs.RangeStep | src/DeltaLake/Bridge/src/lib.rs:35-54 | the next entry's buffers are disjoint from all earlier entries' buffers |
| KeyValuePairs.HeapStep | src/DeltaLake/Bridge/src/lib.rs:35-54 | the heap grows by exactly the next entry's buffers |
| KeyValuePairs.ProgressStep | src/DeltaLake/Bridge/src/lib.rs:35-54 | one more converted key keeps the partial-conversion invariant |
| KeyValuePairs.ProgressDone | src/DeltaLake/Bridge/src/lib.rs:35-55 | with no key remaining, the partial conversion is a complete transfer |
| KeyValuePairs.FromOptionalHashMap | src/DeltaLake/Bridge/src/lib.rs:32-56 | one entry per input key, in some iteration order without repeats; the key's bytes and length; value `(null, 0)` iff absent, else its bytes and length; all buffers new and disjoint; the heap grows by exactly them |
| KeyValuePairs.FromHashMap | src/DeltaLake/Bridge/src/lib.rs:58-74 | the same transfer, with every entry carrying its non-null value |
| KeyValuePairs.Drop | src/DeltaLake/Bridge/src/lib.rs:77-90 | the key's buffer is always freed, the value's only when its pointer is non-null, nothing else |
| KeyValuePairs.TransferIsReclaimable | src/DeltaLake/Bridge/src/lib.rs:32-90 | for the corrected conversion (keys and values of exactly their length): every transferred entry can be dropped, and dropping them all restores the heap, so nothing leaks and nothing is freed twice |

## Left out

- `CancellationToken` with `cancellation_token_new` / `cancel` / `free` (lib.rs:330-352): a wrapper over a Tokio cancellation token whose point is cross-thread signalling; there is no sequential logic to state.
- `Runtime::allocate_map` (called by `map_new`, lib.rs:126) lives in `runtime.rs`, which is not part of this model. `Maps.MapNew` takes the resulting `disable_free` as a parameter and starts empty. The `capacity` hint has no observable effect.
- What a free does with `disable_free` (`byte_array_free` in `runtime.rs`, mentioned at lib.rs:320-323) is not part of this model. Only how the flag is set is modelled.
- The modules `error`, `runtime`, `schema`, `sql` and `table` (lib.rs:11-16) wrap the Delta engine and are not part of this model.
- `ArrayRef` (lib.rs:240-248) is a declaration with no behaviour.
- `ByteArrayRef::to_slice_mut` (lib.rs:176-179) is left out: it only differs from `to_slice` by handing out a mutable alias, and the model has no aliasing.
- `ByteArray::into_raw` (lib.rs:308-310) boxes a `ByteArray` for the host; the box itself is not modelled.
- `unsafe impl Send/Sync for ByteArray` (lib.rs:315-316): thread safety is out of scope.
- UTF-8 validity: `to_str` uses `from_utf8_unchecked` (lib.rs:189), so text is a byte sequence and no check is modelled.
- Raw-pointer mechanics are abstracted away:
  - `Box::into_raw(Box::new(..))` for each entry, and the boxed slice of entry pointers (lib.rs:47-55), become a `seq<KeyValuePair>`;
  - the release of a consumed `Map` box (`Box::from_raw`, lib.rs:101, 116) becomes a ghost `Consumed` state;
  - a borrowed view is modelled by the memory it can read.
- KeyValuePairs.IntoEntry / KeyValuePairs.FromOptionalHashMap / KeyValuePairs.FromHashMap: the whole conversion is modelled with the corrected step, in which every key and value has capacity equal to its length. Strings with spare capacity are covered only by `IntoEntryAsWritten`, one entry at a time: see "## Findings".
- OwnedBuffers.ByteArraysOf: `path.to_string()` is modelled as an exact-capacity copy. The collected `Vec<ByteArray>` is given capacity equal to its length, and `FromVecString` states only `cap >= size` about its `cap`.
- KeyValuePairs.FromHashMap is modelled as `from_optional_hash_map` on the same map with every value present. The two source functions build the same entries then.

## Findings

| source | as written | input that shows it | evidently intended | confidence | as-written member | corrected member |
|---|---|---|---|---|---|---|
| src/DeltaLake/Bridge/src/lib.rs:261-272 | `from_vec_string` collects a local `Vec<ByteArray>` and returns its pointer, length and capacity without `ManuallyDrop`, so the vector is dropped at return. That frees each element's bytes (`Drop for ByteArray`) and then the storage `data` points at. | `["a"]`: the result reports `size == 1`, but its `data` and the buffer holding `"a"` are both freed | keep the vector alive: wrap `data` in `ManuallyDrop`, as `from_vec` wraps `vec` at lib.rs:292, so the host owns the storage and the strings | not executed | OwnedBuffers.FromVecStringAsWritten | OwnedBuffers.FromVecString |
| src/DeltaLake/Bridge/src/lib.rs:37-52 | `from_optional_hash_map` / `from_hash_map` leak each key and value `String` with `ManuallyDrop` and keep its capacity, but record only its length. `Drop for KeyValuePair` then rebuilds each with `String::from_raw_parts(p, len, len)`, which requires the capacity the buffer was allocated with. | a key `"a"` held in a `String` of capacity 8 (`String::with_capacity(8)` then `push('a')`): the entry's drop frees its buffer with capacity 1 | shrink each string to its length before leaking it (`into_boxed_str`), or record the capacity | not executed | KeyValuePairs.IntoEntryAsWritten | KeyValuePairs.IntoEntry |
