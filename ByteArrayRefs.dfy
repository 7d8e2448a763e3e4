/** `ByteArrayRef`: a borrowed view of bytes that the caller (the host) owns. */
module ByteArrayRefs {
  import opened Bytes
  import opened Wrappers
  import opened NewlineMaps

  /**
   * The C struct `{ data, size }`. `memory` is what can be read starting at
   * `data`; the view covers its first `size` bytes. A view never frees.
   */
  datatype ByteArrayRef = ByteArrayRef(memory: seq<uint8>, size: nat) {

    /** The caller's promise: `size` bytes can be read at `data`. */
    predicate Valid()
    {
      size <= |memory|
    }

    /** `to_slice`: the `size` bytes at `data`, borrowed. */
    function ToSlice(): (r: seq<uint8>)
      requires Valid()
      ensures |r| == size && r <= memory
    {
      memory[..size]
    }

    /** `to_vec`: an owned copy of the viewed bytes. */
    function ToVec(): (r: seq<uint8>)
      requires Valid()
      ensures r == ToSlice()
    {
      ToSlice()
    }

    /** `to_str`: the viewed bytes read as UTF-8 text, without any check. */
    function ToStr(): (r: Str)
      requires Valid()
      ensures r == ToSlice()
    {
      memory[..size]
    }

    /** `to_owned_string`: an owned copy of `to_str`. */
    function ToOwnedString(): (r: Str)
      requires Valid()
      ensures r == ToSlice()
    {
      ToStr()
    }

    /** `to_option_slice`: a view of size 0 means "absent". */
    function ToOptionSlice(): (r: Option<seq<uint8>>)
      requires Valid()
      ensures r.None? <==> size == 0
      ensures r.Some? ==> r.value == ToSlice()
    {
      if size == 0 then None else Some(ToSlice())
    }

    /** `to_option_vec`: a view of size 0 means "absent". */
    function ToOptionVec(): (r: Option<seq<uint8>>)
      requires Valid()
      ensures r.None? <==> size == 0
      ensures r.Some? ==> r.value == ToSlice()
    {
      if size == 0 then None else Some(ToVec())
    }

    /** `to_option_str`: a view of size 0 means "absent". */
    function ToOptionStr(): (r: Option<Str>)
      requires Valid()
      ensures r.None? <==> size == 0
      ensures r.Some? ==> r.value == ToSlice()
    {
      if size == 0 then None else Some(ToStr())
    }

    /** `to_option_string`: `to_option_str` with the text copied. */
    function ToOptionString(): (r: Option<Str>)
      requires Valid()
      ensures r.None? <==> size == 0
      ensures r.Some? ==> r.value == ToSlice()
    {
      match ToOptionStr()
      case None => None
      case Some(s) => Some(s)
    }

    /**
     * `to_str_map_on_newlines`: the text split on `'\n'`, consecutive fields
     * paired up as key and value, collected into a map.
     */
    function ToStrMapOnNewlines(): map<Str, Str>
      requires Valid()
    {
      ParseMap(ToStr())
    }

    /** `to_string_map_on_newlines`: the same map with every key and value copied. */
    function ToStringMapOnNewlines(): (r: map<Str, Str>)
      requires Valid()
      ensures r == ToStrMapOnNewlines()
    {
      var m := ToStrMapOnNewlines();
      map k | k in m :: m[k]
    }
  }

  /** `from_str`: a view of the bytes of `s`. */
  function FromStr(s: Str): (r: ByteArrayRef)
    ensures r.Valid() && r.size == |s|
  {
    ByteArrayRef(s, |s|)
  }

  /** `from_string`: a view of the bytes of an owned `String`. */
  function FromString(s: Str): (r: ByteArrayRef)
    ensures r.Valid() && r.size == |s|
  {
    ByteArrayRef(s, |s|)
  }

  /** Reading a view made from a string gives the string back. */
  lemma ToStrFromStr(s: Str)
    ensures FromStr(s).ToStr() == s
    ensures FromString(s).ToStr() == s
    ensures FromStr(s).ToOwnedString() == s
    ensures FromString(s).ToOwnedString() == s
  {
  }

  /**
   * The "size 0 means absent" convention is lossy: no view ever yields an
   * explicitly empty optional value, and the view of `""` yields "absent".
   */
  lemma EmptyIsAbsent(v: ByteArrayRef)
    requires v.Valid()
    ensures v.ToOptionString() != Some([])
    ensures v.ToOptionVec() != Some([])
    ensures FromStr([]).ToOptionString() == None
  {
  }

  /**
   * The keys of the newline map are exactly the fields at even positions
   * `2 * i` that have a partner field `2 * i + 1`.
   */
  lemma MapOnNewlinesKeys(v: ByteArrayRef, k: Str)
    requires v.Valid()
    ensures var fields := Split(v.ToStr());
            k in v.ToStrMapOnNewlines() <==> exists i | 0 <= i < |fields| / 2 :: fields[2 * i] == k
  {
    assert v.ToStrMapOnNewlines() == Collections.Collect(Pairs(Split(v.ToStr())));
    PairedKeys(Split(v.ToStr()), k);
  }

  /**
   * The value of a key is the field after its last occurrence as a key: a
   * later duplicate key wins.
   */
  lemma MapOnNewlinesLastWins(v: ByteArrayRef, i: nat)
    requires v.Valid()
    requires i < |Split(v.ToStr())| / 2
    requires var fields := Split(v.ToStr());
             forall j | i < j < |fields| / 2 :: fields[2 * j] != fields[2 * i]
    ensures var fields := Split(v.ToStr());
            fields[2 * i] in v.ToStrMapOnNewlines()
            && v.ToStrMapOnNewlines()[fields[2 * i]] == fields[2 * i + 1]
  {
    assert v.ToStrMapOnNewlines() == Collections.Collect(Pairs(Split(v.ToStr())));
    LastPairWins(Split(v.ToStr()), i);
  }

  /**
   * A trailing field without a partner is ignored: when the text has an odd
   * number of fields, the map is that of the fields without the last one.
   */
  lemma MapOnNewlinesDropsUnpairedField(v: ByteArrayRef)
    requires v.Valid()
    requires |Split(v.ToStr())| % 2 == 1
    ensures var fields := Split(v.ToStr());
            v.ToStrMapOnNewlines() == Collections.Collect(Pairs(fields[..|fields| - 1]))
  {
    var fields := Split(v.ToStr());
    var shorter := fields[..|fields| - 1];
    assert |shorter| / 2 == |fields| / 2;
    assert forall i | 0 <= i < |shorter| :: shorter[i] == fields[i];
    assert Pairs(fields) == Pairs(shorter);
    assert v.ToStrMapOnNewlines() == Collections.Collect(Pairs(fields));
  }

  /** An empty view reads as the empty map. */
  lemma MapOnNewlinesOfEmpty(v: ByteArrayRef)
    requires v.Valid() && v.size == 0
    ensures v.ToStrMapOnNewlines() == map[]
    ensures v.ToStringMapOnNewlines() == map[]
  {
    assert v.ToStr() == [];
  }

  /**
   * A map written in the newline format (every key and value on a line of
   * its own, in any order of the keys) reads back as the same map.
   */
  lemma MapOnNewlinesReadsFormat(m: map<Str, Str>, order: seq<Str>)
    requires Collections.Enumerates(order, m) && |order| >= 1
    requires forall k | k in m :: NEWLINE !in k && NEWLINE !in m[k]
    ensures FromStr(Format(Collections.EntriesInOrder(m, order))).ToStringMapOnNewlines() == m
  {
    var text := Format(Collections.EntriesInOrder(m, order));
    var v := FromStr(text);
    assert v.ToSlice() == text;
    ParseFormatMap(m, order);
  }
}
