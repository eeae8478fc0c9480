/** The token dictionaries of the binary XML format. */
module Tokens {
  import opened ByteStrings

  const LIST_EMPTY: Byte := 0
  const DICTIONARY_0: Byte := 236
  const DICTIONARY_3: Byte := 239
  const INTEROP_JID: Byte := 245
  const FB_JID: Byte := 246
  const AD_JID: Byte := 247
  const LIST_8: Byte := 248
  const LIST_16: Byte := 249
  const JID_PAIR: Byte := 250
  const HEX_8: Byte := 251
  const BINARY_8: Byte := 252
  const BINARY_20: Byte := 253
  const BINARY_32: Byte := 254
  const NIBBLE_8: Byte := 255

  const PACKED_MAX := 127

  /** The two token tables.  The proofs use nothing about them but their sizes and that the byte of an
  empty list is not taken by a single-byte token. */
  datatype Dictionary = Dictionary(single: seq<Bytes>, double: seq<seq<Bytes>>)

  predicate Sized(d: Dictionary)
  {
    && 0 < |d.single| <= 236
    && d.single[0] == []
    && |d.double| <= 4
    && forall k :: 0 <= k < |d.double| ==> |d.double[k]| <= 256
  }

  /** The last position of `t` in `table`, which is what filling an index map in table order leaves. */
  function LastIndex(table: seq<Bytes>, t: Bytes): (r: Option<nat>)
    ensures r.Some? ==> r.value < |table| && table[r.value] == t
    ensures r.None? <==> t !in table
  {
    if table == [] then None
    else if table[|table| - 1] == t then Some(|table| - 1)
    else LastIndex(table[..|table| - 1], t)
  }

  function LastDoubleIndex(tables: seq<seq<Bytes>>, t: Bytes): (r: Option<(nat, nat)>)
    ensures r.Some? ==> r.value.0 < |tables| && r.value.1 < |tables[r.value.0]| && tables[r.value.0][r.value.1] == t
    ensures r.None? ==> forall k :: 0 <= k < |tables| ==> t !in tables[k]
  {
    if tables == [] then None
    else
      var last := LastIndex(tables[|tables| - 1], t);
      if last.Some? then Some((|tables| - 1, last.value))
      else LastDoubleIndex(tables[..|tables| - 1], t)
  }

  /** The empty string is never a single-byte token, whatever the table says. */
  function IndexOfSingleToken(d: Dictionary, t: Bytes): Option<nat> {
    if t == [] then None else LastIndex(d.single, t)
  }

  function IndexOfDoubleByteToken(d: Dictionary, t: Bytes): Option<(nat, nat)> {
    LastDoubleIndex(d.double, t)
  }

  function GetDoubleToken(d: Dictionary, dictionary: nat, index: nat): Option<Bytes> {
    if dictionary >= |d.double| || index >= |d.double[dictionary]| then None
    else Some(d.double[dictionary][index])
  }
}
