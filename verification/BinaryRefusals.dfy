/** What the reader makes of input that the writer never writes. */
module BinaryRefusals {
  import opened ByteStrings
  import opened Tokens
  import opened Jid
  import opened BinaryNode
  import opened BinaryFormat
  import opened BinaryRoundTrip

  // ---------- Nodes ----------

  /** A node begins with the tag of a list. */
  lemma NodeNeedsList(d: Dictionary, tag: Byte, rest: Bytes)
    requires tag !in {LIST_EMPTY, LIST_8, LIST_16}
    ensures ParseNode(d, [tag] + rest) == Fail(BadListTag)
  {
    hide ParseValue;
  }

  /** A list of nothing is no node, whatever string follows; nor is an element without a name. */
  lemma EmptyListIsNoNode(d: Dictionary, name: Bytes, rest: Bytes)
    requires Sized(d) && |name| < MAX_INT_32
    ensures ParseNode(d, [LIST_EMPTY] + (EncString(d, name) + rest)) == Fail(InvalidNode)
  {
    hide ParseValue, EncString;
    ReadBackString(d, name, rest, true);
  }

  lemma NamelessIsNoNode(d: Dictionary, size: Byte, rest: Bytes)
    requires Sized(d)
    ensures ParseNode(d, [LIST_8, size] + (EncString(d, []) + rest)) == Fail(InvalidNode)
  {
    hide ParseValue, EncString, FromBigEndian;
    ReadBackString(d, [], rest, true);
    var s := [LIST_8, size] + (EncString(d, []) + rest);
    assert s[1..][1..] == EncString(d, []) + rest;
  }

  /** An identifier for a name fails an unchecked assertion. */
  lemma NameIsNoIdentifier(d: Dictionary, size: Byte, j: JID, rest: Bytes)
    requires Sized(d) && EncodableScalar(JidOf(j))
    ensures ParseNode(d, [LIST_8, size] + (EncScalar(d, JidOf(j)) + rest)) == Fail(ReadError.Panic)
  {
    hide ParseValue, EncScalar, FromBigEndian, CanonicalJID;
    ReadBackScalar(d, JidOf(j), rest, true);
    var s := [LIST_8, size] + (EncScalar(d, JidOf(j)) + rest);
    assert s[1..][1..] == EncScalar(d, JidOf(j)) + rest;
  }

  /** For an attribute key that is checked: neither nil nor an identifier is one. */
  lemma KeyIsAString(d: Dictionary, j: JID, rest: Bytes, count: nat, acc: map<Bytes, Value>)
    requires Sized(d) && EncodableScalar(JidOf(j)) && count > 0
    ensures ParseAttrs(d, EncScalar(d, JidOf(j)) + rest, count, acc) == Fail(NonStringKey)
    ensures ParseAttrs(d, [LIST_EMPTY] + rest, count, acc) == Fail(NonStringKey)
  {
    hide ParseValue, EncScalar, CanonicalJID;
    ReadBackScalar(d, JidOf(j), rest, true);
    NilIsRead(d, rest);
  }

  lemma NilIsRead(d: Dictionary, rest: Bytes)
    ensures ParseValue(d, [LIST_EMPTY] + rest, true) == Ok(ABSENT, rest)
  {
  }

  // ---------- Strings ----------

  /** Bytes that are neither a token nor the start of another form. */
  lemma NoToken(d: Dictionary, tag: Byte, rest: Bytes, asString: bool)
    requires Sized(d) && |d.single| <= tag < 245 && !(DICTIONARY_0 <= tag <= DICTIONARY_3)
    ensures ParseValue(d, [tag] + rest, asString) == Fail(InvalidToken)
  {
  }

  lemma NoDoubleToken(d: Dictionary, k: nat, index: Byte, rest: Bytes, asString: bool)
    requires k < 4 && (k < |d.double| ==> index >= |d.double[k]|)
    ensures ParseValue(d, [DICTIONARY_0 + k, index] + rest, asString) == Fail(TokenOutOfBounds)
  {
    var s := [DICTIONARY_0 + k, index] + rest;
    assert s[1..][0] == index;
  }

  /** The nibbles 12, 13 and 14 stand for nothing. */
  lemma BadNibble(d: Dictionary, length: Byte, high: Byte, low: Byte, rest: Bytes, asString: bool)
    requires length % 128 > 0 && high < 16 && low < 16 && (12 <= high <= 14 || 12 <= low <= 14)
    ensures ParseValue(d, [NIBBLE_8, length, 16 * high + low] + rest, asString) == Fail(BadPackedByte)
  {
    var s := [NIBBLE_8, length, 16 * high + low] + rest;
    var pairs := s[1..][1..];
    assert pairs[0] == 16 * high + low && pairs[0] / 16 == high && pairs[0] % 16 == low;
    assert UnpackPairs(NIBBLE_8, pairs, length % 128) == Fail(BadPackedByte);
  }

  /** The odd length flag on an empty packed string: the reader slices out of range. */
  lemma OddEmptyPanics(d: Dictionary, tag: Byte, rest: Bytes, asString: bool)
    requires tag == NIBBLE_8 || tag == HEX_8
    ensures ParseValue(d, [tag, 128] + rest, asString) == Fail(ReadError.Panic)
  {
    var s := [tag, 128] + rest;
    assert s[1..][0] == 128;
  }

  // ---------- Identifiers ----------

  /** The domain byte of the full form decides the server; a byte that is no domain is kept as agent, without a server. */
  lemma DomainDecides(d: Dictionary, domain: Byte, device: Byte, user: Bytes, rest: Bytes, asString: bool)
    requires Sized(d) && |user| < MAX_INT_32
    ensures ParseValue(d, [AD_JID, domain, device] + (EncString(d, user) + rest), asString)
         == Ok(Leaf(JidOf(if domain == 0 then JID(user, 0, device, 0, Ascii("s.whatsapp.net"))
                          else if domain == 1 then JID(user, 0, device, 0, Ascii("lid"))
                          else if domain == 128 then JID(user, 0, device, 0, Ascii("hosted"))
                          else if domain == 129 then JID(user, 0, device, 0, Ascii("hosted.lid"))
                          else JID(user, domain, device, 0, []))), rest)
  {
    hide EncString, Ascii;
    ReadBackString(d, user, rest, true);
    var s := [AD_JID, domain, device] + (EncString(d, user) + rest);
    assert s[1..][2..] == EncString(d, user) + rest && s[1..][0] == domain && s[1..][1] == device;
    ADIs(d, s, asString);
    ParsedAD(d, s[1..], user, rest);
  }

  lemma ADIs(d: Dictionary, s: Bytes, asString: bool)
    requires s != [] && s[0] == AD_JID
    ensures ParseValue(d, s, asString) == ParseADJID(d, s[1..])
  {
    hide ParseADJID;
  }

  lemma ParsedAD(d: Dictionary, s: Bytes, user: Bytes, rest: Bytes)
    requires |s| >= 2 && ParseValue(d, s[2..], true) == Ok(Leaf(Str(user)), rest)
    ensures ParseADJID(d, s) == Ok(Leaf(JidOf(NewADJID(user, s[0], s[1]))), rest)
  {
    hide ParseValue, NewADJID;
  }

  /** The forms of the interop and the messenger servers are for no other server. */
  lemma OwnServerOnly(d: Dictionary, user: Bytes, numbers: Bytes, server: Bytes, rest: Bytes)
    requires Sized(d) && |user| < MAX_INT_32 && |server| < MAX_INT_32
    ensures |numbers| == 4 && server != INTEROP_SERVER ==>
              ParseInteropJID(d, EncString(d, user) + (numbers + (EncString(d, server) + rest))) == Fail(InvalidJIDType)
    ensures |numbers| == 2 && server != MESSENGER_SERVER ==>
              ParseFBJID(d, EncString(d, user) + (numbers + (EncString(d, server) + rest))) == Fail(InvalidJIDType)
  {
    hide EncString, ParseValue;
    var tail := numbers + (EncString(d, server) + rest);
    ReadBackString(d, user, tail, true);
    ReadBackString(d, server, rest, true);
    assert tail[|numbers|..] == EncString(d, server) + rest;
  }

  /** A pair without a server is refused. */
  lemma PairNeedsServer(d: Dictionary, user: Bytes, rest: Bytes)
    requires Sized(d) && |user| < MAX_INT_32
    ensures ParseJIDPair(d, EncString(d, user) + ([LIST_EMPTY] + rest)) == Fail(InvalidJIDType)
  {
    hide EncString, ParseValue;
    ReadBackString(d, user, [LIST_EMPTY] + rest, true);
    NilIsRead(d, rest);
  }
}
