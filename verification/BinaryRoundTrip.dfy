/** Reading undoes writing: for every tree, every visiting order and every continuation of the input. */
module BinaryRoundTrip {
  import opened ByteStrings
  import opened Jid
  import opened Tokens
  import opened BinaryNode
  import opened BinaryFormat
  import opened BinaryEncoder
  import opened BinaryDecoder

  // ---------- Integers, strings and identifiers ----------

  lemma ReadBackIntN(value: nat, n: nat, rest: Bytes)
    ensures ReadIntN(BigEndian(value, n) + rest, n) == Ok(value % Pow256(n), rest)
  {
    var s := BigEndian(value, n) + rest;
    assert s[..n] == BigEndian(value, n) && s[n..] == rest;
    BigEndianInverse(value, n);
  }

  lemma Widths()
    ensures Pow256(1) == 0x100 && Pow256(2) == 0x1_0000 && Pow256(4) == 0x1_0000_0000
  {
    assert Pow256(0) == 1 && Pow256(1) == 0x100 && Pow256(2) == 0x1_0000 && Pow256(3) == 0x100_0000;
  }

  lemma ReadBackInt20(value: nat, rest: Bytes)
    requires value < 0x10_0000
    ensures ReadInt20(Int20(value) + rest) == Ok(value, rest)
  {
    assert (Int20(value) + rest)[3..] == rest;
    assert value / 0x1_0000 * 0x1_0000 + (value / 0x100) % 0x100 * 0x100 + value % 0x100 == value;
  }

  lemma ReadBackPayload(text: Bytes, rest: Bytes, asString: bool)
    ensures BytesOrString(Ok(|text|, text + rest), asString) == Ok(Leaf(if asString then Str(text) else Bin(text)), rest)
  {
    assert (text + rest)[..|text|] == text && (text + rest)[|text|..] == rest;
  }

  lemma DispatchBinary(d: Dictionary, s: Bytes, asString: bool)
    requires s != []
    ensures s[0] == BINARY_8 ==> ParseValue(d, s, asString) == BytesOrString(ReadIntN(s[1..], 1), asString)
    ensures s[0] == BINARY_20 ==> ParseValue(d, s, asString) == BytesOrString(ReadInt20(s[1..]), asString)
    ensures s[0] == BINARY_32 ==> ParseValue(d, s, asString) == BytesOrString(ReadIntN(s[1..], 4), asString)
  {
    hide BytesOrString, ReadIntN, ReadInt20;
  }

  lemma ReadBackRaw(d: Dictionary, text: Bytes, rest: Bytes, asString: bool)
    requires |text| < MAX_INT_32
    ensures ParseValue(d, RawBytes(text) + rest, asString) == Ok(Leaf(if asString then Str(text) else Bin(text)), rest)
  {
    hide *;
    var n, body := |text|, text + rest;
    var length := RawLength(text, rest);
    Widths();
    ReadBackPayload(text, rest, asString);
    DispatchBinary(d, RawBytes(text) + rest, asString);
    if n < 256 {
      ReadBackIntN(n, 1, body);
    } else if n < 0x10_0000 {
      ReadBackInt20(n, body);
    } else {
      ReadBackIntN(n, 4, body);
    }
  }

  lemma RawLength(text: Bytes, rest: Bytes) returns (length: Bytes)
    requires |text| < MAX_INT_32
    ensures RawBytes(text) + rest != [] && |text| < 0x1_0000_0000
    ensures var tag := (RawBytes(text) + rest)[0];
            (RawBytes(text) + rest)[1..] == length + (text + rest) &&
            if |text| < 256 then tag == BINARY_8 && length == BigEndian(|text|, 1)
            else if |text| < 0x10_0000 then tag == BINARY_20 && length == Int20(|text|)
            else tag == BINARY_32 && length == BigEndian(|text|, 4)
  {
    hide BigEndian, Int20;
    length := ByteLength(|text|)[1..];
  }

  lemma UnpackPacked(tag: Byte, c: Byte)
    requires PackableChar(tag, c)
    ensures UnpackChar(tag, PackChar(tag, c)) == Some(c)
    ensures UnpackChar(tag, 15).Some? && PackChar(tag, 0) == 15
  {
  }

  lemma UnpackStep(tag: Byte, first: Byte, second: Byte, s: Bytes, count: nat, text: Bytes, rest: Bytes)
    requires first < 16 && second < 16
    requires UnpackChar(tag, first).Some? && UnpackChar(tag, second).Some?
    requires UnpackPairs(tag, s, count) == Ok(text, rest)
    ensures UnpackPairs(tag, [Nibbles(first, second)] + s, count + 1)
         == Ok([UnpackChar(tag, first).value, UnpackChar(tag, second).value] + text, rest)
  {
    hide UnpackChar;
    var s' := [Nibbles(first, second)] + s;
    assert s'[1..] == s && s'[0] / 16 == first && s'[0] % 16 == second;
  }

  /** The filler of an odd-length string unpacks to a byte, which the reader then drops. */
  lemma {:induction false} ReadBackPairs(tag: Byte, text: Bytes, rest: Bytes) returns (filler: Bytes)
    requires Packable(tag, text)
    ensures |filler| == |text| % 2
    ensures UnpackPairs(tag, PackPairs(tag, text) + rest, (|text| + 1) / 2) == Ok(text + filler, rest)
  {
    hide *;
    if text == [] {
      filler := [];
      ReadBackNone(tag, rest);
      assert text + filler == [];
    } else if |text| == 1 {
      assert text == [text[0]];
      PackPairsSingle(tag, text);
      filler := ReadBackLast(tag, text[0], rest);
    } else {
      var tail := text[2..];
      PackPairsUnfold(tag, text);
      Halves(|text|);
      filler := ReadBackPairs(tag, tail, rest);
      ReadBackPair(tag, text, tail, rest, filler);
    }
  }

  lemma UnpackNothing(tag: Byte, rest: Bytes)
    ensures UnpackPairs(tag, rest, 0) == Ok([], rest)
  {
  }

  lemma ReadBackNone(tag: Byte, rest: Bytes)
    requires Packable(tag, [])
    ensures UnpackPairs(tag, PackPairs(tag, []) + rest, 0) == Ok([], rest)
  {
    assert PackPairs(tag, []) + rest == rest;
  }

  lemma PackPairsSingle(tag: Byte, text: Bytes)
    requires Packable(tag, text) && |text| == 1
    ensures PackableChar(tag, text[0]) && PackPairs(tag, text) == [PackBytePair(tag, text[0], 0)]
  {
    assert PackableChar(tag, text[0]);
  }

  lemma Halves(n: nat)
    requires n >= 2
    ensures (n - 2) % 2 == n % 2 && (n - 2 + 1) / 2 == (n - 1) / 2 && (n - 1) / 2 + 1 == (n + 1) / 2
  {
  }

  lemma ReadBackLast(tag: Byte, c: Byte, rest: Bytes) returns (filler: Bytes)
    requires PackableChar(tag, c)
    ensures |filler| == 1
    ensures UnpackPairs(tag, [PackBytePair(tag, c, 0)] + rest, 1) == Ok([c] + filler, rest)
  {
    hide *;
    UnpackPacked(tag, c);
    filler := [UnpackChar(tag, 15).value];
    UnpackNothing(tag, rest);
    BytePairIs(tag, c, 0);
    UnpackStep(tag, PackChar(tag, c), 15, rest, 0, [], rest);
    assert [c] + filler == [c, filler[0]] + [];
  }

  lemma ReadBackPair(tag: Byte, text: Bytes, tail: Bytes, rest: Bytes, filler: Bytes)
    requires Packable(tag, text) && |text| >= 2
    requires tail == text[2..]
    requires Packable(tag, tail)
    requires UnpackPairs(tag, PackPairs(tag, tail) + rest, (|text| - 1) / 2) == Ok(tail + filler, rest)
    ensures UnpackPairs(tag, PackPairs(tag, text) + rest, (|text| + 1) / 2) == Ok(text + filler, rest)
  {
    hide *;
    var c, c' := text[0], text[1];
    PackPairsUnfold(tag, text);
    UnpackPacked(tag, c);
    UnpackPacked(tag, c');
    Halves(|text|);
    var packed := PackPairs(tag, tail);
    var head := PackBytePair(tag, c, c');
    BytePairIs(tag, c, c');
    UnpackStep(tag, PackChar(tag, c), PackChar(tag, c'), packed + rest, (|text| - 1) / 2, tail + filler, rest);
    Associate([head], packed, rest);
    assert text == [c, c'] + tail;
    Associate([c, c'], tail, filler);
  }

  lemma BytePairIs(tag: Byte, c: Byte, c': Byte)
    requires PackableChar(tag, c) && (PackableChar(tag, c') || c' == 0)
    ensures PackBytePair(tag, c, c') == Nibbles(PackChar(tag, c), PackChar(tag, c'))
  {
  }

  lemma ReadBackPacked(d: Dictionary, tag: Byte, text: Bytes, rest: Bytes, asString: bool)
    requires Packable(tag, text)
    ensures ParseValue(d, PackedBytes(tag, text) + rest, asString) == Ok(Leaf(Str(text)), rest)
  {
    hide PackPairs, UnpackPairs, PackableChar;
    var filler := ReadBackPairs(tag, text, rest);
    var s := PackedBytes(tag, text) + rest;
    assert s[1..][1..] == PackPairs(tag, text) + rest;
    assert s[1..][0] % 128 == (|text| + 1) / 2;
    assert s[1..][0] >= 128 <==> |text| % 2 == 1;
    if |text| % 2 == 1 {
      assert (text + filler)[..|text + filler| - 1] == text;
    } else {
      assert text + filler == text;
    }
    assert ReadPacked(tag, s[1..]) == Ok(Leaf(Str(text)), rest);
  }

  lemma ReadBackString(d: Dictionary, text: Bytes, rest: Bytes, asString: bool)
    requires Sized(d) && |text| < MAX_INT_32
    ensures ParseValue(d, EncString(d, text) + rest, asString)
         == Ok(Leaf(CanonicalScalar(d, Str(text), asString)), rest)
  {
    hide PackedBytes, RawBytes, LastIndex, LastDoubleIndex, ParseList, ReadPacked;
    var s := EncString(d, text) + rest;
    if IndexOfSingleToken(d, text).Some? {
      assert s[1..] == rest;
    } else if IndexOfDoubleByteToken(d, text).Some? {
      assert s[1..][1..] == rest;
    } else if ValidNibble(text) {
      ReadBackPacked(d, NIBBLE_8, text, rest, asString);
    } else if ValidHex(text) {
      ReadBackPacked(d, HEX_8, text, rest, asString);
    } else {
      ReadBackRaw(d, text, rest, asString);
    }
  }

  lemma ReadBackUInt16(value: UInt16, rest: Bytes)
    ensures var s := BigEndian(value, 2) + rest;
            |s| >= 2 && UInt16Of(s[..2]) == value && s[2..] == rest
  {
    Widths();
    BigEndianInverse(value, 2);
    var s := BigEndian(value, 2) + rest;
    assert s[..2] == BigEndian(value, 2);
  }

  lemma ReadBackADJID(d: Dictionary, j: JID, rest: Bytes)
    requires Sized(d) && |j.user| < MAX_INT_32 && UsesADForm(j)
    ensures ParseADJID(d, EncJID(d, j)[1..] + rest) == Ok(Leaf(JidOf(CanonicalJID(j))), rest)
  {
    hide EncString, ParseValue;
    var s := EncJID(d, j)[1..] + rest;
    assert s[2..] == EncString(d, j.user) + rest;
    ReadBackString(d, j.user, rest, true);
  }

  lemma ReadBackFBJID(d: Dictionary, j: JID, rest: Bytes)
    requires Sized(d) && |j.user| < MAX_INT_32 && !UsesADForm(j) && j.server == MESSENGER_SERVER
    ensures ParseFBJID(d, EncJID(d, j)[1..] + rest) == Ok(Leaf(JidOf(CanonicalJID(j))), rest)
  {
    hide EncString, ParseValue, BigEndian;
    var s := EncJID(d, j)[1..] + rest;
    var s1 := BigEndian(j.device, 2) + (EncString(d, j.server) + rest);
    assert s == EncString(d, j.user) + s1;
    ReadBackString(d, j.user, s1, true);
    ReadBackUInt16(j.device, EncString(d, j.server) + rest);
    ReadBackString(d, j.server, rest, true);
  }

  lemma ReadBackInteropJID(d: Dictionary, j: JID, rest: Bytes)
    requires Sized(d) && |j.user| < MAX_INT_32 && !UsesADForm(j) && j.server == INTEROP_SERVER
    ensures ParseInteropJID(d, EncJID(d, j)[1..] + rest) == Ok(Leaf(JidOf(CanonicalJID(j))), rest)
  {
    ServersDiffer();
    hide EncString, ParseValue, BigEndian, UInt16Of;
    var s := EncJID(d, j)[1..] + rest;
    var s2 := BigEndian(j.integrator, 2) + (EncString(d, j.server) + rest);
    var s1 := BigEndian(j.device, 2) + s2;
    assert s == EncString(d, j.user) + s1;
    ReadBackString(d, j.user, s1, true);
    ReadBackUInt16(j.device, s2);
    ReadBackUInt16(j.integrator, EncString(d, j.server) + rest);
    assert s1[2..][..2] == s1[2..4] && s1[2..][2..] == s1[4..];
    ReadBackString(d, j.server, rest, true);
  }

  lemma ReadBackJIDPair(d: Dictionary, j: JID, rest: Bytes)
    requires Sized(d) && |j.user| < MAX_INT_32 && |j.server| < MAX_INT_32
    requires !UsesADForm(j) && j.server != MESSENGER_SERVER && j.server != INTEROP_SERVER
    ensures ParseJIDPair(d, EncJID(d, j)[1..] + rest) == Ok(Leaf(JidOf(CanonicalJID(j))), rest)
  {
    hide EncString;
    var s := EncJID(d, j)[1..] + rest;
    var s1 := EncString(d, j.server) + rest;
    if j.user == [] {
      assert s == [LIST_EMPTY] + s1;
      assert s[1..] == s1;
      assert ParseValue(d, s, true) == Ok(ABSENT, s1);
    } else {
      assert s == EncString(d, j.user) + s1;
      ReadBackString(d, j.user, s1, true);
    }
    ReadBackString(d, j.server, rest, true);
  }

  lemma ReadBackJID(d: Dictionary, j: JID, rest: Bytes, asString: bool)
    requires Sized(d) && |j.user| < MAX_INT_32 && |j.server| < MAX_INT_32
    ensures ParseValue(d, EncJID(d, j) + rest, asString) == Ok(Leaf(JidOf(CanonicalJID(j))), rest)
  {
    hide EncString, ParseADJID, ParseFBJID, ParseInteropJID, ParseJIDPair, ParseList, ReadPacked;
    var s := EncJID(d, j) + rest;
    assert s[1..] == EncJID(d, j)[1..] + rest;
    if UsesADForm(j) {
      ReadBackADJID(d, j, rest);
    } else if j.server == MESSENGER_SERVER {
      ReadBackFBJID(d, j, rest);
    } else if j.server == INTEROP_SERVER {
      ServersDiffer();
      ReadBackInteropJID(d, j, rest);
    } else {
      ReadBackJIDPair(d, j, rest);
    }
  }

  /** Every scalar comes back in its canonical form, whatever follows it in the input. */
  lemma ReadBackScalar(d: Dictionary, v: Scalar, rest: Bytes, asString: bool)
    requires Sized(d) && EncodableScalar(v)
    ensures ParseValue(d, EncScalar(d, v) + rest, asString) == Ok(Leaf(CanonicalScalar(d, v, asString)), rest)
  {
    hide EncString, EncJID, RawBytes, ParseList;
    match v
    case Nil => assert ([LIST_EMPTY] + rest)[1..] == rest;
    case Bin(bytes) => hide ParseValue; ReadBackRaw(d, bytes, rest, asString);
    case JidOf(jid) => hide ParseValue; ReadBackJID(d, jid, rest, asString);
    case Str(text) => hide ParseValue; ReadBackString(d, text, rest, asString);
    case Num(n) => hide ParseValue; ReadBackString(d, Decimal(n), rest, asString);
    case Boolean(b) => hide ParseValue; ReadBackString(d, ScalarText(v), rest, asString);
  }

  // ---------- List headers ----------

  lemma ReadBackListStart(size: nat, rest: Bytes)
    requires size > 0
    ensures var s := ListStart(size) + rest;
            |s| > 0 && (s[0] == LIST_8 || s[0] == LIST_16) &&
            ReadListSize(s[0], s[1..]) == Ok(if size < 256 then size else size % 0x1_0000, rest)
  {
    hide BigEndian, ReadIntN;
    Widths();
    var s := ListStart(size) + rest;
    if size < 256 {
      assert s[1..] == BigEndian(size, 1) + rest;
      ReadBackIntN(size, 1, rest);
    } else {
      assert s[1..] == BigEndian(size, 2) + rest;
      ReadBackIntN(size, 2, rest);
    }
  }

  // ---------- Taking sequences apart from the front ----------

  lemma {:induction false} EncNodesFront(d: Dictionary, nodes: seq<Written>)
    requires Sized(d) && nodes != []
    ensures EncNodes(d, nodes) == EncNode(d, nodes[0]) + EncNodes(d, nodes[1..])
  {
    hide EncNode;
    var init, last := nodes[..|nodes| - 1], nodes[|nodes| - 1];
    if init == [] {
      assert nodes[1..] == [];
    } else {
      EncNodesFront(d, init);
      assert nodes[1..][..|nodes| - 2] == init[1..];
      Associate(EncNode(d, init[0]), EncNodes(d, init[1..]), EncNode(d, last));
    }
  }

  lemma {:induction false} EncAttrsFront(d: Dictionary, attrs: seq<WAttr>)
    requires Sized(d) && attrs != []
    ensures EncAttrs(d, attrs) == EncAttr(d, attrs[0]) + EncAttrs(d, attrs[1..])
    ensures CountWritten(attrs) == CountWritten(attrs[1..]) + if WSkipped(attrs[0].value) then 0 else 1
  {
    hide EncAttr;
    var init, last := attrs[..|attrs| - 1], attrs[|attrs| - 1];
    if init == [] {
      assert attrs[1..] == [];
    } else {
      EncAttrsFront(d, init);
      assert attrs[1..][..|attrs| - 2] == init[1..];
      Associate(EncAttr(d, init[0]), EncAttrs(d, init[1..]), EncAttr(d, last));
    }
  }

  lemma {:induction false} AttrMapFront(attrs: seq<WAttr>)
    requires attrs != [] && DistinctKeys(attrs)
    ensures attrs[0].key !in AttrMap(attrs[1..])
    ensures AttrMap(attrs) == AttrMap(attrs[1..])[attrs[0].key := ForgetValue(attrs[0].value)]
  {
    hide ForgetValue;
    var init, last := attrs[..|attrs| - 1], attrs[|attrs| - 1];
    if init == [] {
      assert attrs[1..] == [];
    } else {
      AttrMapFront(init);
      assert attrs[1..][..|attrs| - 2] == init[1..];
      assert attrs[0].key != last.key;
    }
  }

  // ---------- Trees ----------

  function CanonicalAttrs(d: Dictionary, m: map<Bytes, Value>): map<Bytes, Value> {
    map k | k in m && !Skipped(m[k]) :: CanonicalValue(d, m[k], true)
  }

  /** What the writer needs of an attribute, and what the reader needs of it. */
  predicate WritableAttr(a: WAttr)
  {
    && OrderedValue(a.value)
    && (!WSkipped(a.value) ==> |a.key| < MAX_INT_32 && EncodableValue(ForgetValue(a.value)))
  }

  predicate ReadableAttr(a: WAttr)
  {
    WSkipped(a.value) || ReadableValue(ForgetValue(a.value))
  }

  predicate WritableAttrs(attrs: seq<WAttr>)
  {
    DistinctKeys(attrs) && forall a | a in attrs :: WritableAttr(a)
  }

  predicate WritableNode(w: Written)
  {
    Ordered(w) && Encodable(Forget(w))
  }

  lemma AttrsOfNode(w: Written)
    requires WritableNode(w) && w.tag != ZERO_TAG
    ensures WritableAttrs(w.attrs) && |w.tag| < MAX_INT_32
    ensures OrderedValue(w.content) && EncodableValue(ForgetValue(w.content))
    ensures ListSize(Forget(w)) == 2 * CountWritten(w.attrs) + 1 + WHasContent(w)
  {
    hide *;
    WritableIsOrdered(w);
    OrderedParts(w);
    AttrsWritable(w);
    SizeOfList(w);
  }

  lemma WritableIsOrdered(w: Written)
    requires WritableNode(w)
    ensures Ordered(w)
  {
  }

  lemma OrderedParts(w: Written)
    requires Ordered(w)
    ensures DistinctKeys(w.attrs) && OrderedValue(w.content) && forall a | a in w.attrs :: OrderedValue(a.value)
  {
    hide OrderedValue;
  }

  lemma AttrsWritable(w: Written)
    requires WritableNode(w) && w.tag != ZERO_TAG
    ensures WritableAttrs(w.attrs) && |w.tag| < MAX_INT_32 && EncodableValue(ForgetValue(w.content))
  {
    hide AttrMap, OrderedValue, EncodableValue, ForgetValue, Skipped, WSkipped;
    EntriesOf(w);
    forall a | a in w.attrs
      ensures WritableAttr(a)
    {
      SkippedForgets(a.value);
    }
  }

  lemma SizeOfList(w: Written)
    requires DistinctKeys(w.attrs)
    ensures ListSize(Forget(w)) == 2 * CountWritten(w.attrs) + 1 + WHasContent(w)
  {
    hide AttrMap, CountWritten;
    CountIsOrderFree(w.attrs);
  }

  lemma EntriesOf(w: Written)
    requires DistinctKeys(w.attrs)
    ensures forall a | a in w.attrs :: a.key in AttrMap(w.attrs) && AttrMap(w.attrs)[a.key] == ForgetValue(a.value)
    ensures forall k | k in AttrMap(w.attrs) :: exists a | a in w.attrs :: a.key == k
  {
    CountIsOrderFree(w.attrs);
    forall a | a in w.attrs
      ensures a.key in AttrMap(w.attrs) && AttrMap(w.attrs)[a.key] == ForgetValue(a.value)
    {
      EntryOf(w.attrs, a);
    }
  }

  lemma {:induction false} EntryOf(attrs: seq<WAttr>, a: WAttr)
    requires DistinctKeys(attrs) && a in attrs
    ensures a.key in AttrMap(attrs) && AttrMap(attrs)[a.key] == ForgetValue(a.value)
  {
    hide ForgetValue;
    var init, last := attrs[..|attrs| - 1], attrs[|attrs| - 1];
    assert attrs == init + [last];
    if a != last {
      EntryOf(init, a);
      var i :| 0 <= i < |init| && init[i] == a;
      assert attrs[i].key != last.key;
    }
  }

  /** Up to the attributes, reading a written node depends only on the list size that came through. */
  lemma ReadBackHeader(d: Dictionary, w: Written, size: nat, body: Bytes, rest: Bytes)
    requires Sized(d) && w.tag != ZERO_TAG && |w.tag| < MAX_INT_32
    requires size == 2 * CountWritten(w.attrs) + 1 + WHasContent(w)
    requires body == EncAttrs(d, w.attrs) + (EncContent(d, w) + rest)
    ensures var listSize := if size < 256 then size else size % 0x1_0000;
            ParseNode(d, EncNode(d, w) + rest) ==
            if listSize == 0 || w.tag == [] then Fail(InvalidNode) else ParseNodeBody(d, w.tag, listSize, body)
  {
    hide EncAttrs, EncContent, EncString, ListStart, ParseValue, ParseNodeBody, BinaryFormat.ReadListSize;
    var s1 := EncString(d, w.tag) + body;
    var s := ListStart(size) + s1;
    assert EncNode(d, w) + rest == s;
    ReadBackListStart(size, s1);
    ReadBackString(d, w.tag, body, true);
  }

  lemma ReadableParts(w: Written)
    requires WritableNode(w) && w.tag != ZERO_TAG
    ensures Readable(Forget(w)) <==>
            && w.tag != []
            && 2 * CountWritten(w.attrs) + 1 + WHasContent(w) < 0x1_0000
            && (forall a | a in w.attrs :: ReadableAttr(a))
            && ReadableValue(ForgetValue(w.content))
  {
    hide AttrMap, CountWritten, ReadableValue, ForgetValue, ListSize;
    AttrsOfNode(w);
    EntriesOf(w);
    var n := Forget(w);
    if Readable(n) {
      forall a | a in w.attrs
        ensures ReadableAttr(a)
      {
        assert n.attrs[a.key] == ForgetValue(a.value);
        SkippedForgets(a.value);
      }
    }
    if (forall a | a in w.attrs :: ReadableAttr(a)) {
      forall k | k in n.attrs && !Skipped(n.attrs[k])
        ensures ReadableValue(n.attrs[k])
      {
        var a :| a in w.attrs && a.key == k;
        SkippedForgets(a.value);
        assert ReadableAttr(a);
      }
    }
  }

  lemma ReadableTag(w: Written)
    requires Readable(Forget(w))
    ensures w.tag != [] && w.tag != ZERO_TAG
  {
  }

  lemma CanonicalParts(d: Dictionary, w: Written)
    ensures Canonical(d, Forget(w))
         == Node(w.tag, CanonicalAttrs(d, AttrMap(w.attrs)), CanonicalValue(d, ForgetValue(w.content), false))
  {
    hide AttrMap, CanonicalValue, ForgetValue;
    assert Canonical(d, Forget(w)).attrs == CanonicalAttrs(d, AttrMap(w.attrs));
  }

  lemma {:induction false} ReadBackNode(d: Dictionary, w: Written, rest: Bytes)
    requires Sized(d) && WritableNode(w) && Readable(Forget(w))
    ensures ParseNode(d, EncNode(d, w) + rest) == Ok(Canonical(d, Forget(w)), rest)
    decreases w, 1
  {
    hide *;
    ReadableTag(w);
    AttrsOfNode(w);
    ReadableParts(w);
    CanonicalParts(d, w);
    var size, content := 2 * CountWritten(w.attrs) + 1 + WHasContent(w), EncContent(d, w) + rest;
    ReadBackHeader(d, w, size, EncAttrs(d, w.attrs) + content, rest);
    ReadBackAttrs(d, w.attrs, content, map[]);
    assert map[] + CanonicalAttrs(d, AttrMap(w.attrs)) == CanonicalAttrs(d, AttrMap(w.attrs));
    ReadBackContent(d, w, rest);
    ReadBackBody(d, w, size, rest);
  }

  lemma {:induction false} ReadBackContent(d: Dictionary, w: Written, rest: Bytes)
    requires Sized(d) && OrderedValue(w.content)
    requires EncodableValue(ForgetValue(w.content)) && ReadableValue(ForgetValue(w.content))
    ensures if WHasContent(w) == 0 then EncContent(d, w) + rest == rest && ForgetValue(w.content) == ABSENT
            else ParseValue(d, EncContent(d, w) + rest, false)
                 == Ok(CanonicalValue(d, ForgetValue(w.content), false), rest)
    decreases w, 0
  {
    if WHasContent(w) == 1 {
      ReadBackValue(d, w.content, rest, false);
    }
  }

  lemma ReadBackBody(d: Dictionary, w: Written, size: nat, rest: Bytes)
    requires Sized(d) && 0 < size < 0x1_0000
    requires size == 2 * CountWritten(w.attrs) + 1 + WHasContent(w)
    requires var content := EncContent(d, w) + rest;
             ParseAttrs(d, EncAttrs(d, w.attrs) + content, CountWritten(w.attrs), map[])
             == Ok(CanonicalAttrs(d, AttrMap(w.attrs)), content)
    requires if WHasContent(w) == 0 then EncContent(d, w) + rest == rest && ForgetValue(w.content) == ABSENT
             else ParseValue(d, EncContent(d, w) + rest, false)
                  == Ok(CanonicalValue(d, ForgetValue(w.content), false), rest)
    ensures ParseNodeBody(d, w.tag, size, EncAttrs(d, w.attrs) + (EncContent(d, w) + rest))
         == Ok(Node(w.tag, CanonicalAttrs(d, AttrMap(w.attrs)), CanonicalValue(d, ForgetValue(w.content), false)), rest)
  {
    hide EncAttrs, EncContent, ParseAttrs, ParseValue, CanonicalAttrs;
    assert (size - 1) / 2 == CountWritten(w.attrs);
    assert size % 2 == 1 <==> WHasContent(w) == 0;
  }

  lemma {:induction false} ReadBackValue(d: Dictionary, v: WValue, rest: Bytes, asString: bool)
    requires Sized(d) && OrderedValue(v) && EncodableValue(ForgetValue(v)) && ReadableValue(ForgetValue(v))
    ensures ParseValue(d, EncValue(d, v) + rest, asString) == Ok(CanonicalValue(d, ForgetValue(v), asString), rest)
    decreases v, 1
  {
    hide *;
    if v.WLeaf? {
      ReadBackLeaf(d, v, rest, asString);
    } else if v.nodes == [] {
      ReadBackEmptyList(d, v, rest, asString);
    } else {
      var nodes := v.nodes;
      ChildrenParts(nodes);
      ChildrenCanonical(d, nodes, asString);
      ReadBackNodes(d, nodes, rest);
      ReadBackList(d, nodes, |nodes|, rest, asString);
    }
  }

  lemma ReadBackLeaf(d: Dictionary, v: WValue, rest: Bytes, asString: bool)
    requires Sized(d) && v.WLeaf? && EncodableValue(ForgetValue(v))
    ensures ParseValue(d, EncValue(d, v) + rest, asString) == Ok(CanonicalValue(d, ForgetValue(v), asString), rest)
  {
    hide ParseValue, EncScalar, CanonicalScalar, EncodableScalar;
    ReadBackScalar(d, v.scalar, rest, asString);
  }

  /** An empty list is written like nil and comes back as nil. */
  lemma ReadBackEmptyList(d: Dictionary, v: WValue, rest: Bytes, asString: bool)
    requires Sized(d) && v == WChildren([])
    ensures ParseValue(d, EncValue(d, v) + rest, asString) == Ok(CanonicalValue(d, ForgetValue(v), asString), rest)
  {
    assert (EncValue(d, v) + rest)[1..] == rest;
  }

  lemma ChildrenCanonical(d: Dictionary, nodes: seq<Written>, asString: bool)
    requires nodes != []
    ensures CanonicalValue(d, ForgetValue(WChildren(nodes)), asString) == Children(CanonicalAll(d, ForgetAll(nodes)))
  {
    hide CanonicalAll;
  }

  lemma ChildrenParts(nodes: seq<Written>)
    requires OrderedValue(WChildren(nodes)) && EncodableValue(ForgetValue(WChildren(nodes)))
    ensures forall n | n in nodes :: WritableNode(n)
    ensures ReadableValue(ForgetValue(WChildren(nodes))) <==> |nodes| < 0x1_0000 && forall n | n in nodes :: Readable(Forget(n))
  {
    hide Ordered, Encodable, Readable, Forget;
    ForgottenElements(nodes);
    forall n | n in nodes
      ensures Forget(n) in ForgetAll(nodes)
    {
      var i :| 0 <= i < |nodes| && nodes[i] == n;
      assert ForgetAll(nodes)[i] == Forget(n);
    }
    forall m | m in ForgetAll(nodes)
      ensures exists n | n in nodes :: Forget(n) == m
    {
      var i :| 0 <= i < |nodes| && ForgetAll(nodes)[i] == m;
      assert nodes[i] in nodes && Forget(nodes[i]) == m;
    }
  }

  lemma {:induction false} ForgottenElements(nodes: seq<Written>)
    ensures forall i :: 0 <= i < |nodes| ==> ForgetAll(nodes)[i] == Forget(nodes[i])
  {
    if nodes != [] {
      ForgottenElements(nodes[1..]);
      forall i | 0 <= i < |nodes|
        ensures ForgetAll(nodes)[i] == Forget(nodes[i])
      {
        if i > 0 {
          assert nodes[1..][i - 1] == nodes[i];
        }
      }
    }
  }

  /** A written list is read as the number of nodes its header says. */
  lemma ReadBackList(d: Dictionary, nodes: seq<Written>, size: nat, rest: Bytes, asString: bool)
    requires Sized(d) && nodes != []
    requires size == if |nodes| < 256 then |nodes| else |nodes| % 0x1_0000
    ensures ParseValue(d, EncValue(d, WChildren(nodes)) + rest, asString)
         == match ParseNodes(d, EncNodes(d, nodes) + rest, size)
            case Fail(e) => Fail(e)
            case Ok(read, rest') => Ok(Children(read), rest')
  {
    hide EncNodes, ParseNodes, ListStart, BinaryFormat.ReadListSize, ReadPacked, BytesOrString;
    var body := EncNodes(d, nodes) + rest;
    var s := ListStart(|nodes|) + body;
    assert EncValue(d, WChildren(nodes)) + rest == s;
    ReadBackListStart(|nodes|, body);
    assert ParseValue(d, s, asString) == ParseList(d, s[0], s[1..]);
  }

  lemma {:induction false} ReadBackNodes(d: Dictionary, nodes: seq<Written>, rest: Bytes)
    requires Sized(d) && forall n | n in nodes :: WritableNode(n) && Readable(Forget(n))
    ensures ParseNodes(d, EncNodes(d, nodes) + rest, |nodes|) == Ok(CanonicalAll(d, ForgetAll(nodes)), rest)
    decreases nodes
  {
    if nodes == [] {
      assert EncNodes(d, nodes) + rest == rest;
    } else {
      hide EncNode, ParseNode, Canonical, Forget, Readable, WritableNode;
      var tail := EncNodes(d, nodes[1..]) + rest;
      EncNodesFront(d, nodes);
      Associate(EncNode(d, nodes[0]), EncNodes(d, nodes[1..]), rest);
      ReadBackNode(d, nodes[0], tail);
      ReadBackNodes(d, nodes[1..], rest);
    }
  }

  lemma {:induction false} ReadBackAttrs(d: Dictionary, attrs: seq<WAttr>, rest: Bytes, acc: map<Bytes, Value>)
    requires Sized(d) && WritableAttrs(attrs) && forall a | a in attrs :: ReadableAttr(a)
    ensures ParseAttrs(d, EncAttrs(d, attrs) + rest, CountWritten(attrs), acc)
         == Ok(acc + CanonicalAttrs(d, AttrMap(attrs)), rest)
    decreases attrs
  {
    hide *;
    if attrs == [] {
      ReadBackNoAttrs(d, rest, acc);
    } else {
      var a, tail := attrs[0], EncAttrs(d, attrs[1..]) + rest;
      WritableFront(attrs);
      assert ReadableAttr(a);
      AttrParts(a);
      AttrMapFront(attrs);
      CanonicalAttrsFront(d, AttrMap(attrs[1..]), a.key, ForgetValue(a.value), acc);
      EncAttrsFront(d, attrs);
      Associate(EncAttr(d, a), EncAttrs(d, attrs[1..]), rest);
      if WSkipped(a.value) {
        SkippedIsEmpty(d, a);
        assert EncAttr(d, a) + tail == tail;
        ReadBackAttrs(d, attrs[1..], rest, acc);
      } else {
        ReadBackValue(d, a.value, tail, true);
        ReadBackKey(d, a, CountWritten(attrs), tail, acc);
        ReadBackAttrs(d, attrs[1..], rest, acc[a.key := CanonicalValue(d, ForgetValue(a.value), true)]);
      }
    }
  }

  lemma ReadBackNoAttrs(d: Dictionary, rest: Bytes, acc: map<Bytes, Value>)
    requires Sized(d)
    ensures ParseAttrs(d, EncAttrs(d, []) + rest, CountWritten([]), acc)
         == Ok(acc + CanonicalAttrs(d, AttrMap([])), rest)
  {
    assert EncAttrs(d, []) + rest == rest;
    assert acc + CanonicalAttrs(d, AttrMap([])) == acc;
  }

  lemma WritableFront(attrs: seq<WAttr>)
    requires attrs != [] && WritableAttrs(attrs)
    ensures DistinctKeys(attrs) && WritableAttr(attrs[0]) && WritableAttrs(attrs[1..])
  {
    hide WritableAttr;
  }

  lemma AttrParts(a: WAttr)
    requires WritableAttr(a)
    ensures WSkipped(a.value) <==> Skipped(ForgetValue(a.value))
    ensures !WSkipped(a.value) ==>
            OrderedValue(a.value) && |a.key| < MAX_INT_32 && EncodableValue(ForgetValue(a.value))
    ensures !WSkipped(a.value) ==> (ReadableAttr(a) <==> ReadableValue(ForgetValue(a.value)))
  {
  }

  lemma SkippedIsEmpty(d: Dictionary, a: WAttr)
    requires Sized(d) && WSkipped(a.value)
    ensures EncAttr(d, a) == []
  {
  }

  lemma CanonicalAttrsFront(d: Dictionary, m: map<Bytes, Value>, key: Bytes, value: Value, acc: map<Bytes, Value>)
    requires key !in m
    ensures acc + CanonicalAttrs(d, m[key := value])
         == (if Skipped(value) then acc else acc[key := CanonicalValue(d, value, true)]) + CanonicalAttrs(d, m)
  {
    hide CanonicalValue;
    var m' := m[key := value];
    assert forall k :: k in m' <==> k in m || k == key;
  }

  /** The key of a written attribute is read back, and then whatever the bytes of its value are read as. */
  lemma ReadBackKey(d: Dictionary, a: WAttr, count: nat, tail: Bytes, acc: map<Bytes, Value>)
    requires Sized(d) && count > 0 && !WSkipped(a.value) && |a.key| < MAX_INT_32
    ensures ParseAttrs(d, EncAttr(d, a) + tail, count, acc)
         == match ParseValue(d, EncValue(d, a.value) + tail, true)
            case Fail(e) => Fail(e)
            case Ok(value, s) => ParseAttrs(d, s, count - 1, acc[a.key := value])
  {
    hide EncString, EncValue, ParseValue;
    var s := EncValue(d, a.value) + tail;
    Associate(EncString(d, a.key), EncValue(d, a.value), tail);
    ReadBackString(d, a.key, s, true);
  }

  // ---------- Trees that do not come back ----------

  /** An element tagged "0" is written as an empty list header, which no reader accepts. */
  lemma ZeroTagFails(d: Dictionary, w: Written, rest: Bytes)
    requires Sized(d) && w.tag == ZERO_TAG
    ensures ParseNode(d, EncNode(d, w) + rest).Fail?
  {
    hide ParseValue, ParseNodeBody;
    assert (EncNode(d, w) + rest)[1..] == [LIST_EMPTY] + rest;
    assert ([LIST_EMPTY] + rest)[..1] == [0] && ([LIST_EMPTY] + rest)[1..] == rest;
    FromBigEndianPush([], 0);
    assert [] + [0] == [0];
  }

  /** Reading `count` attributes adds at most `count` keys, and one fewer if a key read before changes. */
  lemma {:induction false} AttrsBound(d: Dictionary, s: Bytes, count: nat, acc: map<Bytes, Value>, k: Bytes)
    requires k in acc
    ensures var r := ParseAttrs(d, s, count, acc);
            r.Ok? ==> k in r.value && |r.value| <= |acc| + count - if r.value[k] == acc[k] then 0 else 1
    decreases count
  {
    hide ParseValue;
    if count > 0 {
      match ParseValue(d, s, true)
      case Fail(_) =>
      case Ok(key, s1) =>
        if IsStr(key) {
          match ParseValue(d, s1, true)
          case Fail(_) =>
          case Ok(value, s2) =>
            SizeOfInsert(acc, key.scalar.s, value);
            AttrsBound(d, s2, count - 1, acc[key.scalar.s := value], k);
        }
    }
  }

  lemma SizeOfInsert<K, V>(m: map<K, V>, k: K, v: V)
    ensures |m[k := v]| == |m| + if k in m then 0 else 1
  {
    assert m[k := v].Keys == m.Keys + {k};
  }

  lemma {:induction false} AttrsCount(d: Dictionary, s: Bytes, count: nat, acc: map<Bytes, Value>)
    ensures var r := ParseAttrs(d, s, count, acc);
            r.Ok? ==> |r.value| <= |acc| + count
    decreases count
  {
    hide ParseValue;
    if count > 0 {
      match ParseValue(d, s, true)
      case Fail(_) =>
      case Ok(key, s1) =>
        if IsStr(key) {
          match ParseValue(d, s1, true)
          case Fail(_) =>
          case Ok(value, s2) =>
            SizeOfInsert(acc, key.scalar.s, value);
            AttrsCount(d, s2, count - 1, acc[key.scalar.s := value]);
        }
    }
  }

  lemma CanonicalAttrsSize(d: Dictionary, attrs: seq<WAttr>)
    requires DistinctKeys(attrs)
    ensures |CanonicalAttrs(d, AttrMap(attrs))| == CountWritten(attrs)
  {
    hide AttrMap, CountWritten, CanonicalValue;
    CountIsOrderFree(attrs);
    assert CanonicalAttrs(d, AttrMap(attrs)).Keys == WrittenIn(AttrMap(attrs));
  }

  ghost predicate Differs<T>(r: Parsed<T>, value: T) {
    r.Ok? ==> r.value != value
  }

  lemma {:induction false} UnreadableAttrs(d: Dictionary, attrs: seq<WAttr>, rest: Bytes, acc: map<Bytes, Value>)
    requires Sized(d) && WritableAttrs(attrs) && (exists a | a in attrs :: !ReadableAttr(a))
    requires acc.Keys !! AttrMap(attrs).Keys
    ensures Differs(ParseAttrs(d, EncAttrs(d, attrs) + rest, CountWritten(attrs), acc),
                    acc + CanonicalAttrs(d, AttrMap(attrs)))
    decreases attrs
  {
    hide *;
    var a, tail := attrs[0], EncAttrs(d, attrs[1..]) + rest;
    WritableFront(attrs);
    AttrParts(a);
    AttrMapFront(attrs);
    CanonicalAttrsFront(d, AttrMap(attrs[1..]), a.key, ForgetValue(a.value), acc);
    EncAttrsFront(d, attrs);
    Associate(EncAttr(d, a), EncAttrs(d, attrs[1..]), rest);
    if WSkipped(a.value) {
      SkippedIsEmpty(d, a);
      assert EncAttr(d, a) + tail == tail;
      SkippedIsReadable(a);
      UnreadableTail(attrs);
      UnreadableAttrs(d, attrs[1..], rest, acc);
    } else if ReadableAttr(a) {
      UnreadableTail(attrs);
      ReadBackValue(d, a.value, tail, true);
      ReadBackKey(d, a, CountWritten(attrs), tail, acc);
      UnreadableAttrs(d, attrs[1..], rest, acc[a.key := CanonicalValue(d, ForgetValue(a.value), true)]);
    } else {
      UnreadableValue(d, a.value, tail, true);
      ReadBackKey(d, a, CountWritten(attrs), tail, acc);
      var r := ParseValue(d, EncValue(d, a.value) + tail, true);
      DiffersElim(r, CanonicalValue(d, ForgetValue(a.value), true));
      if r.Ok? {
        WrongAttr(d, attrs, acc, r.value, r.rest);
      }
      DiffersIntro(ParseAttrs(d, EncAttrs(d, attrs) + rest, CountWritten(attrs), acc),
                   acc + CanonicalAttrs(d, AttrMap(attrs)));
    }
  }

  lemma DiffersElim<T>(r: Parsed<T>, value: T)
    requires Differs(r, value)
    ensures r.Ok? ==> r.value != value
  {
  }

  lemma DiffersIntro<T>(r: Parsed<T>, value: T)
    requires r.Ok? ==> r.value != value
    ensures Differs(r, value)
  {
  }

  lemma SkippedIsReadable(a: WAttr)
    requires WSkipped(a.value)
    ensures ReadableAttr(a)
  {
  }

  lemma UnreadableTail(attrs: seq<WAttr>)
    requires attrs != [] && (exists a | a in attrs :: !ReadableAttr(a)) && ReadableAttr(attrs[0])
    ensures exists a | a in attrs[1..] :: !ReadableAttr(a)
  {
    hide ReadableAttr;
    var a :| a in attrs && !ReadableAttr(a);
    var i :| 0 <= i < |attrs| && attrs[i] == a;
    assert attrs[1..][i - 1] == a;
  }

  /** Once an attribute is read wrong, no continuation can make the finished map right. */
  lemma WrongAttr(d: Dictionary, attrs: seq<WAttr>, acc: map<Bytes, Value>, wrong: Value, s: Bytes)
    requires Sized(d) && attrs != [] && DistinctKeys(attrs) && !WSkipped(attrs[0].value)
    requires acc.Keys !! AttrMap(attrs).Keys
    requires wrong != CanonicalValue(d, ForgetValue(attrs[0].value), true)
    requires CountWritten(attrs) > 0
    ensures var r := ParseAttrs(d, s, CountWritten(attrs) - 1, acc[attrs[0].key := wrong]);
            r.Ok? ==> r.value != acc + CanonicalAttrs(d, AttrMap(attrs))
  {
    hide *;
    var key := attrs[0].key;
    AttrMapFront(attrs);
    SkippedForgets(attrs[0].value);
    CanonicalEntry(d, AttrMap(attrs), key);
    CanonicalAttrsSize(d, attrs);
    SizeOfUnion(acc, CanonicalAttrs(d, AttrMap(attrs)));
    SizeOfInsert(acc, key, wrong);
    AttrsBound(d, s, CountWritten(attrs) - 1, acc[key := wrong], key);
  }

  lemma CanonicalEntry(d: Dictionary, m: map<Bytes, Value>, key: Bytes)
    requires key in m && !Skipped(m[key])
    ensures CanonicalAttrs(d, m).Keys <= m.Keys
    ensures key in CanonicalAttrs(d, m) && CanonicalAttrs(d, m)[key] == CanonicalValue(d, m[key], true)
  {
    hide CanonicalValue, Skipped;
  }

  lemma SizeOfUnion<K, V>(m: map<K, V>, n: map<K, V>)
    requires m.Keys !! n.Keys
    ensures |m + n| == |m| + |n|
  {
    assert (m + n).Keys == m.Keys + n.Keys;
  }

  lemma {:induction false} UnreadableValue(d: Dictionary, v: WValue, rest: Bytes, asString: bool)
    requires Sized(d) && OrderedValue(v) && EncodableValue(ForgetValue(v)) && !ReadableValue(ForgetValue(v))
    ensures Differs(ParseValue(d, EncValue(d, v) + rest, asString), CanonicalValue(d, ForgetValue(v), asString))
    decreases v, 1
  {
    hide *;
    UnreadableIsList(v);
    var nodes := v.nodes;
    ChildrenParts(nodes);
    ChildrenCanonical(d, nodes, asString);
    var size := if |nodes| < 256 then |nodes| else |nodes| % 0x1_0000;
    ReadBackList(d, nodes, size, rest, asString);
    if size == |nodes| {
      UnreadableNodes(d, nodes, rest);
      DiffersElim(ParseNodes(d, EncNodes(d, nodes) + rest, size), CanonicalAll(d, ForgetAll(nodes)));
    }
    DiffersIntro(ParseValue(d, EncValue(d, v) + rest, asString), CanonicalValue(d, ForgetValue(v), asString));
  }

  lemma UnreadableIsList(v: WValue)
    requires !ReadableValue(ForgetValue(v))
    ensures v.WChildren? && v.nodes != []
  {
  }

  lemma {:induction false} UnreadableNodes(d: Dictionary, nodes: seq<Written>, rest: Bytes)
    requires Sized(d) && (forall n | n in nodes :: WritableNode(n)) && exists n | n in nodes :: !Readable(Forget(n))
    ensures Differs(ParseNodes(d, EncNodes(d, nodes) + rest, |nodes|), CanonicalAll(d, ForgetAll(nodes)))
    decreases nodes
  {
    hide *;
    var first, others := nodes[0], nodes[1..];
    var tail := EncNodes(d, others) + rest;
    EncNodesFront(d, nodes);
    Associate(EncNode(d, first), EncNodes(d, others), rest);
    var r := ParseNode(d, EncNode(d, first) + tail);
    if Readable(Forget(first)) {
      UnreadableOthers(nodes);
      ReadBackNode(d, first, tail);
      UnreadableNodes(d, others, rest);
      DiffersElim(ParseNodes(d, tail, |others|), CanonicalAll(d, ForgetAll(others)));
    } else {
      UnreadableNode(d, first, tail);
      DiffersElim(r, Canonical(d, Forget(first)));
    }
    NodesFront(d, nodes, EncNode(d, first) + tail);
    if r.Ok? {
      var read := ParseNodes(d, r.rest, |others|);
      if read.Ok? {
        PrependDiffers(r.value, read.value, Canonical(d, Forget(first)), CanonicalAll(d, ForgetAll(others)));
      }
    }
    DiffersIntro(ParseNodes(d, EncNodes(d, nodes) + rest, |nodes|), CanonicalAll(d, ForgetAll(nodes)));
  }

  lemma PrependDiffers<T>(a: T, s: seq<T>, b: T, t: seq<T>)
    requires a != b || s != t
    ensures [a] + s != [b] + t
  {
    if a != b {
      assert ([a] + s)[0] != ([b] + t)[0];
    } else {
      assert ([a] + s)[1..] == s && ([b] + t)[1..] == t;
    }
  }

  lemma UnreadableOthers(nodes: seq<Written>)
    requires nodes != [] && (exists n | n in nodes :: !Readable(Forget(n))) && Readable(Forget(nodes[0]))
    ensures exists n | n in nodes[1..] :: !Readable(Forget(n))
  {
    hide Readable, Forget;
    var n :| n in nodes && !Readable(Forget(n));
    var i :| 0 <= i < |nodes| && nodes[i] == n;
    assert nodes[1..][i - 1] == n;
  }

  lemma NodesFront(d: Dictionary, nodes: seq<Written>, s: Bytes)
    requires nodes != []
    ensures CanonicalAll(d, ForgetAll(nodes))
         == [Canonical(d, Forget(nodes[0]))] + CanonicalAll(d, ForgetAll(nodes[1..]))
    ensures ParseNodes(d, s, |nodes|)
         == match ParseNode(d, s)
            case Fail(e) => Fail(e)
            case Ok(node, s1) =>
              match ParseNodes(d, s1, |nodes| - 1)
              case Fail(e) => Fail(e)
              case Ok(others, rest) => Ok([node] + others, rest)
  {
    hide Canonical, Forget, ParseNode;
    assert ForgetAll(nodes)[1..] == ForgetAll(nodes[1..]);
  }

  lemma {:induction false} UnreadableNode(d: Dictionary, w: Written, rest: Bytes)
    requires Sized(d) && WritableNode(w) && !Readable(Forget(w))
    ensures Differs(ParseNode(d, EncNode(d, w) + rest), Canonical(d, Forget(w)))
    decreases w, 1
  {
    hide *;
    var r := ParseNode(d, EncNode(d, w) + rest);
    if w.tag == ZERO_TAG {
      ZeroTagFails(d, w, rest);
    } else {
      AttrsOfNode(w);
      ReadableParts(w);
      CanonicalParts(d, w);
      var size, content := 2 * CountWritten(w.attrs) + 1 + WHasContent(w), EncContent(d, w) + rest;
      var body := EncAttrs(d, w.attrs) + content;
      ReadBackHeader(d, w, size, body, rest);
      if w.tag != [] {
        if size >= 0x1_0000 {
          TooManyAttrs(d, w, size % 0x1_0000, body);
        } else if forall a | a in w.attrs :: ReadableAttr(a) {
          ReadBackAttrs(d, w.attrs, content, map[]);
          UnreadableContent(d, w, size, rest);
        } else {
          UnreadableAttrs(d, w.attrs, content, map[]);
          WrongAttrs(d, w, size, content);
        }
      }
    }
    DiffersIntro(r, Canonical(d, Forget(w)));
  }

  /** A list size that overflowed its header leaves the reader short of attributes. */
  lemma TooManyAttrs(d: Dictionary, w: Written, listSize: nat, body: Bytes)
    requires WritableNode(w) && w.tag != ZERO_TAG
    requires 2 * CountWritten(w.attrs) + 1 + WHasContent(w) >= 0x1_0000
    requires listSize == (2 * CountWritten(w.attrs) + 1 + WHasContent(w)) % 0x1_0000
    ensures listSize > 0 ==>
            var r := ParseNodeBody(d, w.tag, listSize, body);
            r.Ok? ==> r.value.attrs != CanonicalAttrs(d, AttrMap(w.attrs))
  {
    hide CountWritten, AttrMap, CanonicalAttrs, ParseAttrs, ParseValue, Encodable, Ordered;
    if listSize > 0 {
      AttrsOfNode(w);
      OrderedKeys(w);
      CanonicalAttrsSize(d, w.attrs);
      AttrsCount(d, body, (listSize - 1) / 2, map[]);
      assert (listSize - 1) / 2 < CountWritten(w.attrs);
    }
  }

  lemma OrderedKeys(w: Written)
    requires WritableNode(w)
    ensures DistinctKeys(w.attrs)
  {
  }

  lemma WrongAttrs(d: Dictionary, w: Written, size: nat, content: Bytes)
    requires Sized(d) && size == 2 * CountWritten(w.attrs) + 1 + WHasContent(w)
    requires Differs(ParseAttrs(d, EncAttrs(d, w.attrs) + content, CountWritten(w.attrs), map[]),
                     map[] + CanonicalAttrs(d, AttrMap(w.attrs)))
    ensures var r := ParseNodeBody(d, w.tag, size, EncAttrs(d, w.attrs) + content);
            r.Ok? ==> r.value.attrs != CanonicalAttrs(d, AttrMap(w.attrs))
  {
    hide CountWritten, AttrMap, CanonicalAttrs, ParseAttrs, ParseValue, EncAttrs;
    assert (size - 1) / 2 == CountWritten(w.attrs);
    assert map[] + CanonicalAttrs(d, AttrMap(w.attrs)) == CanonicalAttrs(d, AttrMap(w.attrs));
  }

  lemma {:induction false} UnreadableContent(d: Dictionary, w: Written, size: nat, rest: Bytes)
    requires Sized(d) && OrderedValue(w.content)
    requires EncodableValue(ForgetValue(w.content)) && !ReadableValue(ForgetValue(w.content))
    requires size == 2 * CountWritten(w.attrs) + 1 + WHasContent(w)
    requires var content := EncContent(d, w) + rest;
             ParseAttrs(d, EncAttrs(d, w.attrs) + content, CountWritten(w.attrs), map[])
             == Ok(map[] + CanonicalAttrs(d, AttrMap(w.attrs)), content)
    ensures var r := ParseNodeBody(d, w.tag, size, EncAttrs(d, w.attrs) + (EncContent(d, w) + rest));
            r.Ok? ==> r.value.content != CanonicalValue(d, ForgetValue(w.content), false)
    decreases w, 0
  {
    hide CountWritten, AttrMap, CanonicalAttrs, ParseAttrs, ParseValue, EncAttrs, EncValue, CanonicalValue;
    UnreadableIsList(w.content);
    assert (size - 1) / 2 == CountWritten(w.attrs) && size % 2 == 0;
    UnreadableValue(d, w.content, rest, false);
  }

  // ---------- The main results ----------

  /** For every tree, every visiting order and every continuation of the input: reading the encoding gives
  the canonical form of the tree and stops exactly at its end if and only if no element is tagged "" or
  "0" and every list length fits 16 bits.  In particular the reader then meets no failed assertion. */
  lemma RoundTrip(d: Dictionary, w: Written, rest: Bytes)
    requires Sized(d) && Ordered(w) && Encodable(Forget(w))
    ensures ParseNode(d, EncNode(d, w) + rest) == Ok(Canonical(d, Forget(w)), rest) <==> Readable(Forget(w))
  {
    hide EncNode, ParseNode, Canonical, Forget, Readable, Ordered, Encodable;
    if Readable(Forget(w)) {
      ReadBackNode(d, w, rest);
    } else {
      UnreadableNode(d, w, rest);
    }
  }

  /** `Unmarshal` after dropping the leading zero byte undoes `Marshal`, under the same condition. */
  method MarshalThenUnmarshal(d: Dictionary, n: Node) returns (r: Unmarshalled)
    requires Sized(d) && Encodable(n)
    ensures r == Whole(Canonical(d, n)) <==> Readable(n)
  {
    hide EncNode, ParseNode, Canonical, Readable, Ordered, Encodable, Forget;
    var data := Marshal(d, n);
    ghost var w :| Ordered(w) && Forget(w) == n && data == [0] + EncNode(d, w);
    RoundTrip(d, w, []);
    assert data[1..] == EncNode(d, w) + [];
    r := Unmarshal(d, data[1..]);
    if Readable(n) {
    } else {
      UnreadableNode(d, w, []);
    }
  }
}
