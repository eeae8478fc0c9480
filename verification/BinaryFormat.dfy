/** The byte format of a node: what the writer appends and what the reader accepts, as functions. */
module BinaryFormat {
  import opened ByteStrings
  import opened Jid
  import opened Tokens
  import opened BinaryNode

  // ---------- Writing ----------

  function Int20(value: nat): Bytes {
    [(value / 0x1_0000) % 16, (value / 0x100) % 0x100, value % 0x100]
  }

  /** The length prefix of a byte string.  The last branch is where the writer panics. */
  function ByteLength(length: nat): Bytes {
    if length < 256 then [BINARY_8] + BigEndian(length, 1)
    else if length < 0x10_0000 then [BINARY_20] + Int20(length)
    else if length < MAX_INT_32 then [BINARY_32] + BigEndian(length, 4)
    else []
  }

  function RawBytes(s: Bytes): Bytes {
    ByteLength(|s|) + s
  }

  function PackNibble(c: Byte): Byte
    requires NibbleChar(c) || c == 0
  {
    if c == MINUS then 10 else if c == DOT then 11 else if c == 0 then 15 else c - ZERO
  }

  function PackHex(c: Byte): Byte
    requires HexChar(c) || c == 0
  {
    if IsDigit(c) then c - ZERO else if c == 0 then 15 else 10 + c - UPPER_A
  }

  predicate PackableChar(tag: Byte, c: Byte)
  {
    (tag == NIBBLE_8 && NibbleChar(c)) || (tag == HEX_8 && HexChar(c))
  }

  predicate Packable(tag: Byte, s: Bytes)
  {
    && (tag == NIBBLE_8 || tag == HEX_8)
    && |s| <= PACKED_MAX
    && forall i :: 0 <= i < |s| ==> PackableChar(tag, s[i])
  }

  function PackChar(tag: Byte, c: Byte): (r: Byte)
    requires PackableChar(tag, c) || (c == 0 && (tag == NIBBLE_8 || tag == HEX_8))
    ensures r < 16
  {
    if tag == NIBBLE_8 then PackNibble(c) else PackHex(c)
  }

  function PackBytePair(tag: Byte, first: Byte, second: Byte): Byte
    requires PackableChar(tag, first)
    requires PackableChar(tag, second) || second == 0
  {
    Nibbles(PackChar(tag, first), PackChar(tag, second))
  }

  function Nibbles(high: Byte, low: Byte): Byte
    requires high < 16 && low < 16
  {
    high * 16 + low
  }

  function PackPairs(tag: Byte, s: Bytes): (r: Bytes)
    requires Packable(tag, s)
    ensures |r| == (|s| + 1) / 2
  {
    if s == [] then []
    else if |s| == 1 then [PackBytePair(tag, s[0], 0)]
    else [PackBytePair(tag, s[0], s[1])] + PackPairs(tag, s[2..])
  }

  function PackedBytes(tag: Byte, s: Bytes): Bytes
    requires Packable(tag, s)
  {
    [tag, (|s| + 1) / 2 + if |s| % 2 != 0 then 128 else 0] + PackPairs(tag, s)
  }

  function EncString(d: Dictionary, s: Bytes): Bytes
    requires Sized(d)
  {
    if IndexOfSingleToken(d, s).Some? then [IndexOfSingleToken(d, s).value]
    else if IndexOfDoubleByteToken(d, s).Some? then
      var (dictionary, index) := IndexOfDoubleByteToken(d, s).value;
      [DICTIONARY_0 + dictionary, index]
    else if ValidNibble(s) then PackedBytes(NIBBLE_8, s)
    else if ValidHex(s) then PackedBytes(HEX_8, s)
    else RawBytes(s)
  }

  function EncJID(d: Dictionary, j: JID): Bytes
    requires Sized(d)
  {
    if UsesADForm(j) then
      [AD_JID, ActualAgent(j), j.device % 256] + EncString(d, j.user)
    else if j.server == MESSENGER_SERVER then
      [FB_JID] + EncString(d, j.user) + BigEndian(j.device, 2) + EncString(d, j.server)
    else if j.server == INTEROP_SERVER then
      [INTEROP_JID] + EncString(d, j.user) + BigEndian(j.device, 2) + BigEndian(j.integrator, 2) + EncString(d, j.server)
    else
      [JID_PAIR] + (if j.user == [] then [LIST_EMPTY] else EncString(d, j.user)) + EncString(d, j.server)
  }

  function EncScalar(d: Dictionary, s: Scalar): Bytes
    requires Sized(d)
  {
    match s
    case Nil => [LIST_EMPTY]
    case Bin(bytes) => RawBytes(bytes)
    case JidOf(jid) => EncJID(d, jid)
    case Unsupported => []
    case _ => EncString(d, ScalarText(s))
  }

  function ListStart(size: nat): Bytes {
    if size == 0 then [LIST_EMPTY]
    else if size < 256 then [LIST_8] + BigEndian(size, 1)
    else [LIST_16] + BigEndian(size, 2)
  }

  function CountWritten(attrs: seq<WAttr>): nat {
    if attrs == [] then 0
    else CountWritten(attrs[..|attrs| - 1]) + if WSkipped(attrs[|attrs| - 1].value) then 0 else 1
  }

  function EncValue(d: Dictionary, v: WValue): Bytes
    requires Sized(d)
    decreases v, 0
  {
    match v
    case WLeaf(s) => EncScalar(d, s)
    case WChildren(nodes) => ListStart(|nodes|) + EncNodes(d, nodes)
  }

  function EncNodes(d: Dictionary, nodes: seq<Written>): Bytes
    requires Sized(d)
    decreases nodes, 0
  {
    if nodes == [] then [] else EncNodes(d, nodes[..|nodes| - 1]) + EncNode(d, nodes[|nodes| - 1])
  }

  function EncAttr(d: Dictionary, a: WAttr): Bytes
    requires Sized(d)
    decreases a, 0
  {
    if WSkipped(a.value) then [] else EncString(d, a.key) + EncValue(d, a.value)
  }

  function EncAttrs(d: Dictionary, attrs: seq<WAttr>): Bytes
    requires Sized(d)
    decreases attrs, 0
  {
    if attrs == [] then [] else EncAttrs(d, attrs[..|attrs| - 1]) + EncAttr(d, attrs[|attrs| - 1])
  }

  function WHasContent(w: Written): nat {
    if w.content == WLeaf(Nil) then 0 else 1
  }

  function EncContent(d: Dictionary, w: Written): Bytes
    requires Sized(d)
    decreases w, 0
  {
    if w.content == WLeaf(Nil) then [] else EncValue(d, w.content)
  }

  function EncNode(d: Dictionary, w: Written): Bytes
    requires Sized(d)
    decreases w, 1
  {
    if w.tag == ZERO_TAG then [LIST_8, LIST_EMPTY]
    else
      ListStart(2 * CountWritten(w.attrs) + 1 + WHasContent(w))
      + EncString(d, w.tag) + EncAttrs(d, w.attrs) + EncContent(d, w)
  }

  // ---------- Reading ----------

  /** Every way a read can end without a value.  `Panic` is a failed type assertion or an index out of range. */
  datatype ReadError = EOF | InvalidToken | InvalidNode | NonStringKey | InvalidJIDType | BadPackedByte | BadListTag
                     | TokenOutOfBounds | Panic

  datatype Parsed<+T> = Ok(value: T, rest: Bytes) | Fail(error: ReadError)

  /** Every successful read leaves strictly fewer bytes, which is what makes the reader terminate. */
  predicate Advances<T>(s: Bytes, r: Parsed<T>)
  {
    r.Ok? ==> |r.rest| < |s|
  }

  function ReadByte(s: Bytes): (r: Parsed<Byte>)
    ensures Advances(s, r)
  {
    if |s| < 1 then Fail(EOF) else Ok(s[0], s[1..])
  }

  function ReadIntN(s: Bytes, n: nat): (r: Parsed<nat>)
    ensures n > 0 ==> Advances(s, r)
  {
    if |s| < n then Fail(EOF) else Ok(FromBigEndian(s[..n]), s[n..])
  }

  function ReadInt20(s: Bytes): (r: Parsed<nat>)
    ensures Advances(s, r)
  {
    if |s| < 3 then Fail(EOF) else Ok((s[0] as int % 16) * 0x1_0000 + s[1] as int * 0x100 + s[2], s[3..])
  }

  function ReadRaw(s: Bytes, length: nat): (r: Parsed<Bytes>)
    ensures r.Ok? ==> |r.rest| <= |s|
  {
    if |s| < length then Fail(EOF) else Ok(s[..length], s[length..])
  }

  function BytesOrString(length: Parsed<nat>, asString: bool): (r: Parsed<Value>)
    ensures r.Ok? ==> length.Ok? && |r.rest| <= |length.rest|
  {
    match length
    case Fail(e) => Fail(e)
    case Ok(n, s) =>
      match ReadRaw(s, n)
      case Fail(e) => Fail(e)
      case Ok(data, rest) => Ok(Leaf(if asString then Str(data) else Bin(data)), rest)
  }

  function UnpackChar(tag: Byte, value: Byte): Option<Byte>
    requires value < 16
  {
    if value < 10 then Some(ZERO + value)
    else if tag == HEX_8 then Some(UPPER_A + value - 10)
    else if value == 10 then Some(MINUS)
    else if value == 11 then Some(DOT)
    else if value == 15 then Some(0)
    else None
  }

  function UnpackPairs(tag: Byte, s: Bytes, count: nat): (r: Parsed<Bytes>)
    ensures r.Ok? ==> |r.rest| <= |s| && |r.value| == 2 * count
    decreases count
  {
    if count == 0 then Ok([], s)
    else if |s| < 1 then Fail(EOF)
    else
      var first, second := UnpackChar(tag, s[0] / 16), UnpackChar(tag, s[0] % 16);
      if first.None? || second.None? then Fail(BadPackedByte)
      else
        match UnpackPairs(tag, s[1..], count - 1)
        case Fail(e) => Fail(e)
        case Ok(text, rest) => Ok([first.value, second.value] + text, rest)
  }

  /** An odd-length flag on an empty packed string makes the reader slice out of range. */
  function ReadPacked(tag: Byte, s: Bytes): (r: Parsed<Value>)
    ensures Advances(s, r)
  {
    if |s| < 1 then Fail(EOF)
    else
      match UnpackPairs(tag, s[1..], s[0] % 128)
      case Fail(e) => Fail(e)
      case Ok(text, rest) =>
        if s[0] < 128 then Ok(Leaf(Str(text)), rest)
        else if text == [] then Fail(Panic)
        else Ok(Leaf(Str(text[..|text| - 1])), rest)
  }

  function ReadListSize(tag: Byte, s: Bytes): (r: Parsed<nat>)
    ensures r.Ok? ==> |r.rest| <= |s|
  {
    if tag == LIST_EMPTY then Ok(0, s)
    else if tag == LIST_8 then ReadIntN(s, 1)
    else if tag == LIST_16 then ReadIntN(s, 2)
    else Fail(BadListTag)
  }

  /** The values an unchecked assertion to `string` accepts; on any other it panics. */
  predicate IsStr(v: Value)
  {
    v.Leaf? && v.scalar.Str?
  }

  function ParseValue(d: Dictionary, s: Bytes, asString: bool): (r: Parsed<Value>)
    ensures Advances(s, r)
    decreases |s|, 0
  {
    if |s| < 1 then Fail(EOF)
    else
      var tag, body := s[0], s[1..];
      if tag == LIST_EMPTY then Ok(ABSENT, body)
      else if tag == LIST_8 || tag == LIST_16 then ParseList(d, tag, body)
      else if tag == BINARY_8 then BytesOrString(ReadIntN(body, 1), asString)
      else if tag == BINARY_20 then BytesOrString(ReadInt20(body), asString)
      else if tag == BINARY_32 then BytesOrString(ReadIntN(body, 4), asString)
      else if DICTIONARY_0 <= tag <= DICTIONARY_3 then ParseDoubleToken(d, tag, body)
      else if tag == FB_JID then ParseFBJID(d, body)
      else if tag == INTEROP_JID then ParseInteropJID(d, body)
      else if tag == JID_PAIR then ParseJIDPair(d, body)
      else if tag == AD_JID then ParseADJID(d, body)
      else if tag == NIBBLE_8 || tag == HEX_8 then ReadPacked(tag, body)
      else if tag < |d.single| then Ok(Leaf(Str(d.single[tag])), body)
      else Fail(InvalidToken)
  }

  function ParseDoubleToken(d: Dictionary, tag: Byte, s: Bytes): (r: Parsed<Value>)
    requires DICTIONARY_0 <= tag <= DICTIONARY_3
    ensures Advances(s, r)
  {
    if |s| < 1 then Fail(EOF)
    else
      match GetDoubleToken(d, tag - DICTIONARY_0, s[0])
      case None => Fail(TokenOutOfBounds)
      case Some(t) => Ok(Leaf(Str(t)), s[1..])
  }

  function ParseJIDPair(d: Dictionary, s: Bytes): (r: Parsed<Value>)
    ensures Advances(s, r)
    decreases |s|, 1
  {
    match ParseValue(d, s, true)
    case Fail(e) => Fail(e)
    case Ok(user, s1) =>
      match ParseValue(d, s1, true)
      case Fail(e) => Fail(e)
      case Ok(server, s2) =>
        if server == ABSENT then Fail(InvalidJIDType)
        else if !IsStr(server) then Fail(Panic)
        else if user == ABSENT then Ok(Leaf(JidOf(NewJID([], server.scalar.s))), s2)
        else if !IsStr(user) then Fail(Panic)
        else Ok(Leaf(JidOf(NewJID(user.scalar.s, server.scalar.s))), s2)
  }

  function ParseInteropJID(d: Dictionary, s: Bytes): (r: Parsed<Value>)
    ensures Advances(s, r)
    decreases |s|, 1
  {
    match ParseValue(d, s, true)
    case Fail(e) => Fail(e)
    case Ok(user, s1) =>
      if |s1| < 2 then Fail(EOF)
      else if |s1| < 4 then Fail(EOF)
      else
        match ParseValue(d, s1[4..], true)
        case Fail(e) => Fail(e)
        case Ok(server, s2) =>
          if server != Leaf(Str(INTEROP_SERVER)) then Fail(InvalidJIDType)
          else if !IsStr(user) then Fail(Panic)
          else Ok(Leaf(JidOf(JID(user.scalar.s, 0, UInt16Of(s1[..2]), UInt16Of(s1[2..4]), INTEROP_SERVER))), s2)
  }

  function ParseFBJID(d: Dictionary, s: Bytes): (r: Parsed<Value>)
    ensures Advances(s, r)
    decreases |s|, 1
  {
    match ParseValue(d, s, true)
    case Fail(e) => Fail(e)
    case Ok(user, s1) =>
      if |s1| < 2 then Fail(EOF)
      else
        match ParseValue(d, s1[2..], true)
        case Fail(e) => Fail(e)
        case Ok(server, s2) =>
          if server != Leaf(Str(MESSENGER_SERVER)) then Fail(InvalidJIDType)
          else if !IsStr(user) then Fail(Panic)
          else Ok(Leaf(JidOf(JID(user.scalar.s, 0, UInt16Of(s1[..2]), 0, MESSENGER_SERVER))), s2)
  }

  function ParseADJID(d: Dictionary, s: Bytes): (r: Parsed<Value>)
    ensures Advances(s, r)
    decreases |s|, 1
  {
    if |s| < 2 then Fail(EOF)
    else
      match ParseValue(d, s[2..], true)
      case Fail(e) => Fail(e)
      case Ok(user, rest) =>
        if !IsStr(user) then Fail(Panic)
        else Ok(Leaf(JidOf(NewADJID(user.scalar.s, s[0], s[1]))), rest)
  }

  /** A two-byte big-endian integer. */
  function UInt16Of(bs: Bytes): (r: UInt16)
    requires |bs| == 2
    ensures r == FromBigEndian(bs)
  {
    FromBigEndian2(bs[0], bs[1]);
    assert bs == [bs[0], bs[1]];
    bs[0] as int * 256 + bs[1]
  }

  function ParseList(d: Dictionary, tag: Byte, s: Bytes): (r: Parsed<Value>)
    requires tag == LIST_8 || tag == LIST_16
    ensures Advances(s, r)
    decreases |s|, 4
  {
    match ReadListSize(tag, s)
    case Fail(e) => Fail(e)
    case Ok(size, s1) =>
      match ParseNodes(d, s1, size)
      case Fail(e) => Fail(e)
      case Ok(nodes, rest) => Ok(Children(nodes), rest)
  }

  function ParseNodes(d: Dictionary, s: Bytes, count: nat): (r: Parsed<seq<Node>>)
    ensures r.Ok? ==> |r.rest| <= |s| && |r.value| == count
    decreases |s|, 3, count
  {
    if count == 0 then Ok([], s)
    else
      match ParseNode(d, s)
      case Fail(e) => Fail(e)
      case Ok(node, s1) =>
        match ParseNodes(d, s1, count - 1)
        case Fail(e) => Fail(e)
        case Ok(nodes, rest) => Ok([node] + nodes, rest)
  }

  /** `acc` is the map filled so far: a repeated key overwrites. */
  function ParseAttrs(d: Dictionary, s: Bytes, count: nat, acc: map<Bytes, Value>): (r: Parsed<map<Bytes, Value>>)
    ensures r.Ok? ==> |r.rest| <= |s|
    decreases |s|, 1, count
  {
    if count == 0 then Ok(acc, s)
    else
      match ParseValue(d, s, true)
      case Fail(e) => Fail(e)
      case Ok(key, s1) =>
        if !IsStr(key) then Fail(NonStringKey)
        else
          match ParseValue(d, s1, true)
          case Fail(e) => Fail(e)
          case Ok(value, s2) => ParseAttrs(d, s2, count - 1, acc[key.scalar.s := value])
  }

  function ParseNode(d: Dictionary, s: Bytes): (r: Parsed<Node>)
    ensures Advances(s, r)
    decreases |s|, 2
  {
    if |s| < 1 then Fail(EOF)
    else
      match ReadListSize(s[0], s[1..])
      case Fail(e) => Fail(e)
      case Ok(listSize, s1) =>
        match ParseValue(d, s1, true)
        case Fail(e) => Fail(e)
        case Ok(tag, s2) =>
          if !IsStr(tag) then Fail(Panic)
          else if listSize == 0 || tag.scalar.s == [] then Fail(InvalidNode)
          else ParseNodeBody(d, tag.scalar.s, listSize, s2)
  }

  /** The attributes and, when the list size is even, the content. */
  function ParseNodeBody(d: Dictionary, tag: Bytes, listSize: nat, s: Bytes): (r: Parsed<Node>)
    requires listSize > 0
    ensures r.Ok? ==> |r.rest| <= |s|
    decreases |s|, 2
  {
    match ParseAttrs(d, s, (listSize - 1) / 2, map[])
    case Fail(e) => Fail(e)
    case Ok(attrs, s1) =>
      if listSize % 2 == 1 then Ok(Node(tag, attrs, ABSENT), s1)
      else
        match ParseValue(d, s1, false)
        case Fail(e) => Fail(e)
        case Ok(content, s2) => Ok(Node(tag, attrs, content), s2)
  }
}
