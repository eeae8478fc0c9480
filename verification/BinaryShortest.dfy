/** The form the writer chooses for a string, against every form in which the reader takes it. */
module BinaryShortest {
  import opened ByteStrings
  import opened Tokens
  import opened BinaryNode
  import opened BinaryFormat
  import opened BinaryRoundTrip

  /** As the tables are: the empty string is a single-byte token nowhere but at the byte of an empty list. */
  predicate OneEmptyToken(d: Dictionary)
  {
    Sized(d) && forall k :: 0 < k < |d.single| ==> d.single[k] != []
  }

  predicate Spells(d: Dictionary, b: Bytes, s: Bytes)
  {
    ParseValue(d, b, true) == Ok(Leaf(Str(s)), [])
  }

  predicate IsToken(d: Dictionary, s: Bytes)
  {
    IndexOfSingleToken(d, s).Some? || IndexOfDoubleByteToken(d, s).Some?
  }

  /** The characters that the reader unpacks: the filler of an odd nibble string is one of them. */
  predicate Unpacks(tag: Byte, c: Byte)
  {
    (tag == NIBBLE_8 && (NibbleChar(c) || c == 0)) || (tag == HEX_8 && HexChar(c))
  }

  predicate AllUnpack(tag: Byte, s: Bytes)
  {
    forall i :: 0 <= i < |s| ==> Unpacks(tag, s[i])
  }

  /** Text that the reader would unpack but the writer does not pack: longer than 127 characters, or with a zero. */
  predicate Missed(d: Dictionary, s: Bytes)
  {
    && !IsToken(d, s) && !ValidNibble(s) && !ValidHex(s)
    && 2 <= |s| <= 254 && (AllUnpack(NIBBLE_8, s) || AllUnpack(HEX_8, s))
  }

  lemma RawLength(s: Bytes)
    requires |s| < MAX_INT_32
    ensures |RawBytes(s)| == |s| + (if |s| < 256 then 2 else if |s| < 0x10_0000 then 4 else 5)
  {
  }

  lemma WrittenLength(d: Dictionary, s: Bytes)
    requires Sized(d)
    ensures |EncString(d, s)| == if IndexOfSingleToken(d, s).Some? then 1
                                 else if IndexOfDoubleByteToken(d, s).Some? then 2
                                 else if ValidNibble(s) || ValidHex(s) then 2 + (|s| + 1) / 2
                                 else |RawBytes(s)|
  {
    hide RawBytes, LastIndex, LastDoubleIndex;
  }

  /** A length and that many bytes take at least as much room as the raw form the writer has. */
  lemma RawForm(b: Bytes, length: Parsed<nat>, s: Bytes)
    requires |b| >= 1
    requires || (b[0] == BINARY_8 && length == ReadIntN(b[1..], 1)) || (b[0] == BINARY_20 && length == ReadInt20(b[1..]))
             || (b[0] == BINARY_32 && length == ReadIntN(b[1..], 4))
    requires |s| < MAX_INT_32 && BytesOrString(length, true) == Ok(Leaf(Str(s)), [])
    ensures |b| >= |RawBytes(s)|
  {
    hide RawBytes, FromBigEndian;
    RawLength(s);
    var body := b[1..];
    if b[0] == BINARY_8 {
      FromBigEndianOne(body[..1]);
    }
  }

  lemma FromBigEndianOne(bs: Bytes)
    requires |bs| == 1
    ensures FromBigEndian(bs) == bs[0]
  {
    assert bs[..0] == [];
  }

  lemma {:induction false} UnpackedText(tag: Byte, s: Bytes, count: nat)
    requires tag == NIBBLE_8 || tag == HEX_8
    ensures var r := UnpackPairs(tag, s, count);
            r.Ok? ==> |s| == count + |r.rest| && AllUnpack(tag, r.value)
  {
    if count > 0 && |s| >= 1 {
      UnpackedText(tag, s[1..], count - 1);
    }
  }

  lemma PackedForm(tag: Byte, b: Bytes, s: Bytes)
    requires (tag == NIBBLE_8 || tag == HEX_8) && ReadPacked(tag, b) == Ok(Leaf(Str(s)), [])
    ensures |s| <= 254 && |b| == 1 + (|s| + 1) / 2 && AllUnpack(tag, s)
  {
    hide UnpackPairs, Unpacks;
    UnpackedText(tag, b[1..], b[0] % 128);
  }

  /** Identifiers and lists are no strings. */
  lemma NoString(d: Dictionary, s: Bytes, t: Bytes, rest: Bytes)
    ensures ParseFBJID(d, s) != Ok(Leaf(Str(t)), rest)
    ensures ParseInteropJID(d, s) != Ok(Leaf(Str(t)), rest)
    ensures ParseJIDPair(d, s) != Ok(Leaf(Str(t)), rest)
    ensures ParseADJID(d, s) != Ok(Leaf(Str(t)), rest)
  {
    hide ParseValue;
  }

  lemma NoList(d: Dictionary, tag: Byte, s: Bytes, t: Bytes, rest: Bytes)
    requires tag == LIST_8 || tag == LIST_16
    ensures ParseList(d, tag, s) != Ok(Leaf(Str(t)), rest)
  {
    hide ParseNodes;
  }

  /** Every form of a string that the reader takes is a token, a packed form, or no shorter than the raw form. */
  lemma FormsOf(d: Dictionary, b: Bytes, s: Bytes)
    requires OneEmptyToken(d) && |s| < MAX_INT_32 && Spells(d, b, s)
    ensures || (|b| == 1 && IndexOfSingleToken(d, s).Some?)
            || (|b| == 2 && IndexOfDoubleByteToken(d, s).Some?)
            || (|s| <= 254 && |b| == 2 + (|s| + 1) / 2 && (AllUnpack(NIBBLE_8, s) || AllUnpack(HEX_8, s)))
            || |b| >= |RawBytes(s)|
  {
    hide LastIndex, LastDoubleIndex, ReadPacked, BytesOrString, ParseFBJID, ParseInteropJID, ParseJIDPair, ParseADJID,
         ParseList, RawBytes, AllUnpack;
    var tag, body := b[0], b[1..];
    if tag == LIST_8 || tag == LIST_16 {
      NoList(d, tag, body, s, []);
    } else if tag == BINARY_8 {
      RawForm(b, ReadIntN(body, 1), s);
    } else if tag == BINARY_20 {
      RawForm(b, ReadInt20(body), s);
    } else if tag == BINARY_32 {
      RawForm(b, ReadIntN(body, 4), s);
    } else if tag == NIBBLE_8 || tag == HEX_8 {
      PackedForm(tag, body, s);
    } else if tag == FB_JID || tag == INTEROP_JID || tag == JID_PAIR || tag == AD_JID {
      NoString(d, body, s, []);
    }
  }

  /** Text of the characters that unpack has a packed form. */
  lemma {:induction false} Packs(tag: Byte, s: Bytes) returns (b: Bytes)
    requires (tag == NIBBLE_8 || tag == HEX_8) && AllUnpack(tag, s)
    ensures |b| == (|s| + 1) / 2
    ensures var r := UnpackPairs(tag, b, |b|);
            r.Ok? && r.rest == [] && s <= r.value
    decreases |s|
  {
    if s == [] {
      b := [];
    } else {
      var high, low := PackChar(tag, s[0]), if |s| > 1 then PackChar(tag, s[1]) else 0;
      var tail := if |s| > 1 then s[2..] else [];
      var more := Packs(tag, tail);
      b := [Nibbles(high, low)] + more;
      assert b[1..] == more && b[0] / 16 == high && b[0] % 16 == low;
      UnpacksBack(tag, s[0]);
      if |s| > 1 {
        UnpacksBack(tag, s[1]);
        assert s == [s[0], s[1]] + tail;
      }
    }
  }

  lemma UnpacksBack(tag: Byte, c: Byte)
    requires Unpacks(tag, c)
    ensures UnpackChar(tag, PackChar(tag, c)) == Some(c)
  {
  }

  lemma PackedSpelling(d: Dictionary, tag: Byte, s: Bytes) returns (b: Bytes)
    requires (tag == NIBBLE_8 || tag == HEX_8) && AllUnpack(tag, s) && 2 <= |s| <= 254
    ensures Spells(d, b, s) && |b| == 2 + (|s| + 1) / 2
  {
    hide UnpackPairs, AllUnpack;
    var pairs := Packs(tag, s);
    var flag := if |s| % 2 != 0 then 128 else 0;
    b := [tag, |pairs| + flag] + pairs;
    assert b[1..][1..] == pairs && b[1..][0] % 128 == |pairs|;
    var text := UnpackPairs(tag, pairs, |pairs|).value;
    assert |text| == 2 * |pairs|;
    assert text[..|s|] == s;
    assert |s| % 2 == 0 ==> text == s;
    assert |s| % 2 != 0 ==> text[..|text| - 1] == s;
    assert ReadPacked(tag, b[1..]) == Ok(Leaf(Str(s)), []);
  }

  /** The writer's form is the shortest that the reader takes, exactly for strings that it does not miss to pack. */
  lemma ShortestIff(d: Dictionary, s: Bytes)
    requires OneEmptyToken(d) && |s| < MAX_INT_32
    ensures Spells(d, EncString(d, s), s)
    ensures (forall b :: Spells(d, b, s) ==> |EncString(d, s)| <= |b|) <==> !Missed(d, s)
  {
    hide Spells, EncString, IndexOfSingleToken, IndexOfDoubleByteToken, RawBytes, AllUnpack;
    ReadsBack(d, s);
    WrittenLength(d, s);
    RawLength(s);
    if Missed(d, s) {
      var b := PackedSpelling(d, if AllUnpack(NIBBLE_8, s) then NIBBLE_8 else HEX_8, s);
      assert |b| < |EncString(d, s)|;
    } else {
      forall b | Spells(d, b, s) ensures |EncString(d, s)| <= |b| {
        FormsOf(d, b, s);
        ShortAreValid(s);
      }
    }
  }

  lemma ShortAreValid(s: Bytes)
    ensures |s| == 0 ==> ValidNibble(s)
  {
  }

  lemma ReadsBack(d: Dictionary, s: Bytes)
    requires Sized(d) && |s| < MAX_INT_32
    ensures Spells(d, EncString(d, s), s)
  {
    hide EncString, ParseValue;
    ReadBackString(d, s, [], true);
    assert EncString(d, s) + [] == EncString(d, s);
  }
}
