/** XML elements, the order in which one marshalling run visits their attributes, and the form in which
they come back from the wire. */
module BinaryNode {
  import opened ByteStrings
  import opened Jid
  import opened Tokens

  /** A Go value of type `any` that is not a list of nodes. */
  datatype Scalar =
    | Nil
    | Str(s: Bytes)
    | Num(n: int)
    | Boolean(b: bool)
    | Bin(bytes: Bytes)
    | JidOf(jid: JID)
    | Unsupported

  datatype Value = Leaf(scalar: Scalar) | Children(nodes: seq<Node>)

  datatype Node = Node(tag: Bytes, attrs: map<Bytes, Value>, content: Value)

  const ABSENT: Value := Leaf(Nil)

  /** A node together with an order in which `range` visits each of its attribute maps. */
  datatype WAttr = WAttr(key: Bytes, value: WValue)
  datatype WValue = WLeaf(scalar: Scalar) | WChildren(nodes: seq<Written>)
  datatype Written = Written(tag: Bytes, attrs: seq<WAttr>, content: WValue)

  function AttrMap(attrs: seq<WAttr>): map<Bytes, Value>
    decreases attrs
  {
    if attrs == [] then map[]
    else
      var last := attrs[|attrs| - 1];
      AttrMap(attrs[..|attrs| - 1])[last.key := ForgetValue(last.value)]
  }

  function ForgetValue(v: WValue): Value {
    match v
    case WLeaf(s) => Leaf(s)
    case WChildren(nodes) => Children(ForgetAll(nodes))
  }

  function ForgetAll(nodes: seq<Written>): (r: seq<Node>)
    ensures |r| == |nodes|
  {
    if nodes == [] then [] else [Forget(nodes[0])] + ForgetAll(nodes[1..])
  }

  /** The node without the visiting order. */
  function Forget(w: Written): Node {
    Node(w.tag, AttrMap(w.attrs), ForgetValue(w.content))
  }

  predicate DistinctKeys(attrs: seq<WAttr>)
  {
    forall i, j :: 0 <= i < j < |attrs| ==> attrs[i].key != attrs[j].key
  }

  /** A map is visited once per key, everywhere in the tree. */
  predicate Ordered(w: Written)
  {
    && DistinctKeys(w.attrs)
    && (forall a | a in w.attrs :: OrderedValue(a.value))
    && OrderedValue(w.content)
  }

  predicate OrderedValue(v: WValue)
  {
    v.WChildren? ==> forall n | n in v.nodes :: Ordered(n)
  }

  /** Attributes whose value is nil or the empty string are not written. */
  predicate Skipped(v: Value)
  {
    v == Leaf(Nil) || v == Leaf(Str([]))
  }

  predicate WSkipped(v: WValue)
  {
    v == WLeaf(Nil) || v == WLeaf(Str([]))
  }

  // ---------- Strings ----------

  predicate ValidNibble(s: Bytes)
  {
    |s| <= PACKED_MAX && forall i :: 0 <= i < |s| ==> NibbleChar(s[i])
  }

  predicate NibbleChar(c: Byte)
  {
    IsDigit(c) || c == MINUS || c == DOT
  }

  predicate ValidHex(s: Bytes)
  {
    |s| <= PACKED_MAX && forall i :: 0 <= i < |s| ==> HexChar(s[i])
  }

  predicate HexChar(c: Byte)
  {
    IsDigit(c) || UPPER_A <= c <= UPPER_A + 5
  }

  const DOT: Byte := '.' as int
  const UPPER_A: Byte := 'A' as int

  /** Whether `writeString` finds a shorter form than the raw bytes. */
  predicate Shortened(d: Dictionary, s: Bytes)
  {
    IndexOfSingleToken(d, s).Some? || IndexOfDoubleByteToken(d, s).Some? || ValidNibble(s) || ValidHex(s)
  }

  /** The string a scalar is written as, when it is written as a string. */
  function ScalarText(s: Scalar): Bytes
    requires s.Str? || s.Num? || s.Boolean?
  {
    match s
    case Str(text) => text
    case Num(n) => Decimal(n)
    case Boolean(b) => if b then Ascii("true") else Ascii("false")
  }

  // ---------- What comes back ----------

  /** The identifier a reader sees: the fields its wire form carries, with the rest zero. */
  function CanonicalJID(j: JID): JID {
    if UsesADForm(j) then NewADJID(j.user, ActualAgent(j), j.device % 256)
    else if j.server == MESSENGER_SERVER then JID(j.user, 0, j.device, 0, j.server)
    else if j.server == INTEROP_SERVER then JID(j.user, 0, j.device, j.integrator, j.server)
    else NewJID(j.user, j.server)
  }

  predicate UsesADForm(j: JID)
  {
    || ((j.server == DEFAULT_USER_SERVER || j.server == HIDDEN_USER_SERVER) && j.device > 0)
    || j.server == HOSTED_SERVER
    || j.server == HOSTED_LID_SERVER
  }

  function CanonicalScalar(d: Dictionary, s: Scalar, asString: bool): Scalar {
    match s
    case Bin(bytes) => if asString then Str(bytes) else s
    case JidOf(jid) => JidOf(CanonicalJID(jid))
    case Nil => s
    case Unsupported => s
    case _ =>
      var text := ScalarText(s);
      if asString || Shortened(d, text) then Str(text) else Bin(text)
  }

  function CanonicalValue(d: Dictionary, v: Value, asString: bool): Value {
    match v
    case Leaf(s) => Leaf(CanonicalScalar(d, s, asString))
    case Children(nodes) => if nodes == [] then ABSENT else Children(CanonicalAll(d, nodes))
  }

  function CanonicalAll(d: Dictionary, nodes: seq<Node>): (r: seq<Node>)
    ensures |r| == |nodes|
  {
    if nodes == [] then [] else [Canonical(d, nodes[0])] + CanonicalAll(d, nodes[1..])
  }

  /** The node a reader sees.  It is defined on attribute maps, so no visiting order can influence it. */
  function Canonical(d: Dictionary, n: Node): Node {
    Node(n.tag,
         map k | k in n.attrs && !Skipped(n.attrs[k]) :: CanonicalValue(d, n.attrs[k], true),
         CanonicalValue(d, n.content, false))
  }

  /** Exactly which identifiers survive the wire unchanged, server by server. */
  lemma CanonicalJIDIdentity(j: JID)
    ensures CanonicalJID(j) == j <==>
            && j.rawAgent == 0
            && (j.server != INTEROP_SERVER ==> j.integrator == 0)
            && (j.server in {DEFAULT_USER_SERVER, HIDDEN_USER_SERVER, HOSTED_SERVER, HOSTED_LID_SERVER} ==> j.device < 256)
            && (j.device > 0 ==> j.server in {DEFAULT_USER_SERVER, HIDDEN_USER_SERVER, HOSTED_SERVER, HOSTED_LID_SERVER,
                                              MESSENGER_SERVER, INTEROP_SERVER})
  {
    ServersDiffer();
  }

  // ---------- When the writer panics, and when the wire form is too narrow ----------

  const MAX_INT_32 := 0x7FFF_FFFF

  predicate EncodableScalar(s: Scalar)
  {
    match s
    case Unsupported => false
    case Str(text) => |text| < MAX_INT_32
    case Num(n) => |Decimal(n)| < MAX_INT_32
    case Bin(bytes) => |bytes| < MAX_INT_32
    case JidOf(jid) => |jid.user| < MAX_INT_32 && |jid.server| < MAX_INT_32
    case _ => true
  }

  /** The writer does not panic: no unsupported type and no byte string of 2^31 - 1 bytes or more.
  Below a node tagged "0" nothing is written, so nothing is required. */
  predicate Encodable(n: Node)
  {
    n.tag != ZERO_TAG ==>
      && |n.tag| < MAX_INT_32
      && (forall k | k in n.attrs && !Skipped(n.attrs[k]) :: |k| < MAX_INT_32 && EncodableValue(n.attrs[k]))
      && EncodableValue(n.content)
  }

  predicate EncodableValue(v: Value)
  {
    match v
    case Leaf(s) => EncodableScalar(s)
    case Children(nodes) => forall n | n in nodes :: Encodable(n)
  }

  const ZERO_TAG: Bytes := Ascii("0")

  /** The condition for reading a node back: no element is tagged "" or "0", and every list length fits
  the 16 bits of the longest list header. */
  predicate Readable(n: Node)
  {
    && n.tag != []
    && n.tag != ZERO_TAG
    && ListSize(n) < 0x1_0000
    && (forall k | k in n.attrs && !Skipped(n.attrs[k]) :: ReadableValue(n.attrs[k]))
    && ReadableValue(n.content)
  }

  predicate ReadableValue(v: Value)
  {
    v.Children? ==> |v.nodes| < 0x1_0000 && forall n | n in v.nodes :: Readable(n)
  }

  /** The keys that are written. */
  function WrittenIn(attrs: map<Bytes, Value>): set<Bytes> {
    set k | k in attrs && !Skipped(attrs[k])
  }

  function HasContent(n: Node): nat {
    if n.content == ABSENT then 0 else 1
  }

  /** One item for the tag, two for each written attribute, one for the content. */
  function ListSize(n: Node): nat {
    2 * |WrittenIn(n.attrs)| + 1 + HasContent(n)
  }
}
