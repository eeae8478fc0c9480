/** The reader of the binary XML format: an index moving over a fixed buffer. */
module BinaryDecoder {
  import opened ByteStrings
  import opened Jid
  import opened Tokens
  import opened BinaryNode
  import opened BinaryFormat

  datatype Outcome<+T> = Success(value: T) | Failure(error: ReadError)

  class Decoder {
    const d: Dictionary
    const data: Bytes
    var index: nat

    constructor (d: Dictionary, data: Bytes)
      ensures this.d == d && this.data == data && index == 0
    {
      this.d, this.data, index := d, data, 0;
    }

    ghost predicate Valid()
      reads this
    {
      index <= |data|
    }

    /** The bytes not read yet. */
    ghost function Remaining(): Bytes
      reads this
      requires Valid()
    {
      data[index..]
    }

    /** A method read exactly what the format function reads: the value is the same, the index stands at
    the rest, and a failure is the same failure. */
    ghost predicate Reads<T>(r: Outcome<T>, parsed: Parsed<T>)
      reads this
      requires Valid()
    {
      match r
      case Success(value) => parsed == Ok(value, Remaining())
      case Failure(error) => parsed == Fail(error)
    }

    method ReadByte() returns (r: Outcome<Byte>)
      requires Valid()
      modifies this
      ensures Valid() && old(index) <= index
      ensures Reads(r, BinaryFormat.ReadByte(old(Remaining())))
    {
      if index + 1 > |data| {
        return Failure(EOF);
      }
      var b := data[index];
      index := index + 1;
      return Success(b);
    }

    method ReadIntN(n: nat) returns (r: Outcome<nat>)
      requires Valid()
      modifies this
      ensures Valid() && old(index) <= index
      ensures Reads(r, BinaryFormat.ReadIntN(old(Remaining()), n))
    {
      hide FromBigEndian, Pow256;
      if index + n > |data| {
        return Failure(EOF);
      }
      var ret := 0;
      NothingShifted(data, index, n);
      for i := 0 to n
        invariant index == old(index)
        invariant ret == Shifted(data, index, n, i)
      {
        ShiftIn(data, index, n, i);
        ret := ret + ShiftedByte(data[index + i], n - i - 1);
      }
      AllShifted(data, index, n);
      assert data[index..][..n] == data[index..index + n] && data[index..][n..] == data[index + n..];
      index := index + n;
      return Success(ret);
    }

    method ReadInt20() returns (r: Outcome<nat>)
      requires Valid()
      modifies this
      ensures Valid() && old(index) <= index
      ensures Reads(r, BinaryFormat.ReadInt20(old(Remaining())))
    {
      if index + 3 > |data| {
        return Failure(EOF);
      }
      var ret := (data[index] as int % 16) * 0x1_0000 + data[index + 1] as int * 0x100 + data[index + 2];
      index := index + 3;
      return Success(ret);
    }

    method ReadRaw(length: nat) returns (r: Outcome<Bytes>)
      requires Valid()
      modifies this
      ensures Valid() && old(index) <= index
      ensures Reads(r, BinaryFormat.ReadRaw(old(Remaining()), length))
    {
      if index + length > |data| {
        return Failure(EOF);
      }
      var ret := data[index..index + length];
      assert data[index..][..length] == ret && data[index..][length..] == data[index + length..];
      index := index + length;
      return Success(ret);
    }

    method ReadPacked8(tag: Byte) returns (r: Outcome<Value>)
      requires Valid()
      modifies this
      ensures Valid() && old(index) <= index
      ensures Reads(r, ReadPacked(tag, old(Remaining())))
    {
      hide UnpackPairs, UnpackChar, PrependText;
      var start := ReadByte();
      if start.Failure? {
        return Failure(start.error);
      }
      var startByte := start.value;
      ghost var pairs := Remaining();
      PrependNothing(UnpackPairs(tag, pairs, startByte % 128));
      var build: Bytes := [];
      for i := 0 to startByte % 128
        invariant Valid() && old(index) < index
        invariant UnpackPairs(tag, pairs, startByte % 128)
               == PrependText(build, UnpackPairs(tag, Remaining(), startByte % 128 - i))
      {
        PairsStep(tag, build, Remaining(), startByte % 128 - i);
        var curr := ReadByte();
        if curr.Failure? {
          return Failure(curr.error);
        }
        var lower := UnpackChar(tag, curr.value / 16);
        if lower.None? {
          return Failure(BadPackedByte);
        }
        var upper := UnpackChar(tag, curr.value % 16);
        if upper.None? {
          return Failure(BadPackedByte);
        }
        assert build + [lower.value] + [upper.value] == build + [lower.value, upper.value];
        build := build + [lower.value] + [upper.value];
      }
      PairsDone(tag, build, Remaining());
      if startByte / 128 != 0 {
        if |build| == 0 {
          return Failure(Panic);
        }
        build := build[..|build| - 1];
      }
      return Success(Leaf(Str(build)));
    }

    method ReadListSize(tag: Byte) returns (r: Outcome<nat>)
      requires Valid()
      modifies this
      ensures Valid() && old(index) <= index
      ensures Reads(r, BinaryFormat.ReadListSize(tag, old(Remaining())))
    {
      if tag == LIST_EMPTY {
        r := Success(0);
      } else if tag == LIST_8 {
        r := ReadIntN(1);
      } else if tag == LIST_16 {
        r := ReadIntN(2);
      } else {
        r := Failure(BadListTag);
      }
    }

    method ReadBytesOrString(length: nat, asString: bool) returns (r: Outcome<Value>)
      requires Valid()
      modifies this
      ensures Valid() && old(index) <= index
      ensures Reads(r, BytesOrString(Ok(length, old(Remaining())), asString))
    {
      var raw := ReadRaw(length);
      if raw.Failure? {
        return Failure(raw.error);
      }
      return Success(Leaf(if asString then Str(raw.value) else Bin(raw.value)));
    }

    method Read(asString: bool) returns (r: Outcome<Value>)
      requires Valid()
      modifies this
      ensures Valid() && old(index) <= index
      ensures Reads(r, ParseValue(d, old(Remaining()), asString))
      decreases |data| - index, 0
    {
      var tagByte := ReadByte();
      if tagByte.Failure? {
        return Failure(tagByte.error);
      }
      var tag := tagByte.value;
      if tag == LIST_EMPTY {
        r := Success(ABSENT);
      } else if tag == LIST_8 || tag == LIST_16 {
        r := ReadList(tag);
      } else if tag == BINARY_8 {
        var size := ReadIntN(1);
        if size.Failure? {
          return Failure(size.error);
        }
        r := ReadBytesOrString(size.value, asString);
      } else if tag == BINARY_20 {
        var size := ReadInt20();
        if size.Failure? {
          return Failure(size.error);
        }
        r := ReadBytesOrString(size.value, asString);
      } else if tag == BINARY_32 {
        var size := ReadIntN(4);
        if size.Failure? {
          return Failure(size.error);
        }
        r := ReadBytesOrString(size.value, asString);
      } else if DICTIONARY_0 <= tag <= DICTIONARY_3 {
        r := ReadDoubleToken(tag);
      } else if tag == FB_JID {
        r := ReadFBJID();
      } else if tag == INTEROP_JID {
        r := ReadInteropJID();
      } else if tag == JID_PAIR {
        r := ReadJIDPair();
      } else if tag == AD_JID {
        r := ReadADJID();
      } else if tag == NIBBLE_8 || tag == HEX_8 {
        r := ReadPacked8(tag);
      } else if tag < |d.single| {
        r := Success(Leaf(Str(d.single[tag])));
      } else {
        r := Failure(InvalidToken);
      }
    }

    method ReadDoubleToken(tag: Byte) returns (r: Outcome<Value>)
      requires Valid() && DICTIONARY_0 <= tag <= DICTIONARY_3
      modifies this
      ensures Valid() && old(index) <= index
      ensures Reads(r, ParseDoubleToken(d, tag, old(Remaining())))
    {
      var i := ReadByte();
      if i.Failure? {
        return Failure(i.error);
      }
      var t := GetDoubleToken(d, tag - DICTIONARY_0, i.value);
      r := if t.None? then Failure(TokenOutOfBounds) else Success(Leaf(Str(t.value)));
    }

    method ReadJIDPair() returns (r: Outcome<Value>)
      requires Valid()
      modifies this
      ensures Valid() && old(index) <= index
      ensures Reads(r, ParseJIDPair(d, old(Remaining())))
      decreases |data| - index, 1
    {
      var user := Read(true);
      if user.Failure? {
        return Failure(user.error);
      }
      var server := Read(true);
      if server.Failure? {
        return Failure(server.error);
      } else if server.value == ABSENT {
        return Failure(InvalidJIDType);
      } else if !IsStr(server.value) {
        return Failure(Panic);
      } else if user.value == ABSENT {
        return Success(Leaf(JidOf(NewJID([], server.value.scalar.s))));
      } else if !IsStr(user.value) {
        return Failure(Panic);
      }
      return Success(Leaf(JidOf(NewJID(user.value.scalar.s, server.value.scalar.s))));
    }

    method ReadUInt16() returns (r: Outcome<UInt16>)
      requires Valid()
      modifies this
      ensures Valid() && old(index) <= index
      ensures Reads(r, if |old(Remaining())| < 2 then Fail(EOF)
                       else Ok(UInt16Of(old(Remaining())[..2]), old(Remaining())[2..]))
    {
      ghost var s := Remaining();
      var n := ReadIntN(2);
      if n.Failure? {
        return Failure(n.error);
      }
      assert n.value == UInt16Of(s[..2]);
      var value: UInt16 := n.value;
      return Success(value);
    }

    method ReadInteropJID() returns (r: Outcome<Value>)
      requires Valid()
      modifies this
      ensures Valid() && old(index) <= index
      ensures Reads(r, ParseInteropJID(d, old(Remaining())))
      decreases |data| - index, 1
    {
      var user := Read(true);
      if user.Failure? {
        return Failure(user.error);
      }
      ghost var s1 := Remaining();
      var device := ReadUInt16();
      if device.Failure? {
        return Failure(device.error);
      }
      var integrator := ReadUInt16();
      if integrator.Failure? {
        return Failure(integrator.error);
      }
      assert s1[2..][2..] == s1[4..] && s1[2..][..2] == s1[2..4];
      var server := Read(true);
      if server.Failure? {
        return Failure(server.error);
      } else if server.value != Leaf(Str(INTEROP_SERVER)) {
        return Failure(InvalidJIDType);
      } else if !IsStr(user.value) {
        return Failure(Panic);
      }
      return Success(Leaf(JidOf(JID(user.value.scalar.s, 0, device.value, integrator.value, INTEROP_SERVER))));
    }

    method ReadFBJID() returns (r: Outcome<Value>)
      requires Valid()
      modifies this
      ensures Valid() && old(index) <= index
      ensures Reads(r, ParseFBJID(d, old(Remaining())))
      decreases |data| - index, 1
    {
      var user := Read(true);
      if user.Failure? {
        return Failure(user.error);
      }
      var device := ReadUInt16();
      if device.Failure? {
        return Failure(device.error);
      }
      var server := Read(true);
      if server.Failure? {
        return Failure(server.error);
      } else if server.value != Leaf(Str(MESSENGER_SERVER)) {
        return Failure(InvalidJIDType);
      } else if !IsStr(user.value) {
        return Failure(Panic);
      }
      return Success(Leaf(JidOf(JID(user.value.scalar.s, 0, device.value, 0, server.value.scalar.s))));
    }

    method ReadADJID() returns (r: Outcome<Value>)
      requires Valid()
      modifies this
      ensures Valid() && old(index) <= index
      ensures Reads(r, ParseADJID(d, old(Remaining())))
      decreases |data| - index, 1
    {
      ghost var s := Remaining();
      var agent := ReadByte();
      if agent.Failure? {
        return Failure(agent.error);
      }
      var device := ReadByte();
      if device.Failure? {
        return Failure(device.error);
      }
      assert Remaining() == s[2..];
      var user := Read(true);
      if user.Failure? {
        return Failure(user.error);
      } else if !IsStr(user.value) {
        return Failure(Panic);
      }
      return Success(Leaf(JidOf(NewADJID(user.value.scalar.s, agent.value, device.value))));
    }

    method ReadAttributes(n: nat) returns (r: Outcome<map<Bytes, Value>>)
      requires Valid()
      modifies this
      ensures Valid() && old(index) <= index
      ensures Reads(r, ParseAttrs(d, old(Remaining()), n, map[]))
      decreases |data| - index, 1
    {
      ghost var all := ParseAttrs(d, Remaining(), n, map[]);
      var ret: map<Bytes, Value> := map[];
      for i := 0 to n
        invariant Valid() && old(index) <= index
        invariant all == ParseAttrs(d, Remaining(), n - i, ret)
      {
        var key := Read(true);
        if key.Failure? {
          return Failure(key.error);
        }
        if !IsStr(key.value) {
          return Failure(NonStringKey);
        }
        var value := Read(true);
        if value.Failure? {
          return Failure(value.error);
        }
        ret := ret[key.value.scalar.s := value.value];
      }
      return Success(ret);
    }

    method ReadList(tag: Byte) returns (r: Outcome<Value>)
      requires Valid() && (tag == LIST_8 || tag == LIST_16)
      modifies this
      ensures Valid() && old(index) <= index
      ensures Reads(r, ParseList(d, tag, old(Remaining())))
      decreases |data| - index, 4
    {
      hide ParseNode, ParseNodes, BinaryFormat.ReadListSize, PrependNodes;
      var size := ReadListSize(tag);
      if size.Failure? {
        return Failure(size.error);
      }
      ghost var all := ParseNodes(d, Remaining(), size.value);
      var ret: seq<Node> := [];
      PrependNoNodes(all);
      for i := 0 to size.value
        invariant Valid() && old(index) <= index
        invariant all == PrependNodes(ret, ParseNodes(d, Remaining(), size.value - i))
      {
        NodesStep(d, ret, Remaining(), size.value - i);
        var n := ReadNode();
        if n.Failure? {
          return Failure(n.error);
        }
        ret := ret + [n.value];
      }
      NodesDone(d, ret, Remaining());
      return Success(Children(ret));
    }

    method ReadNode() returns (r: Outcome<Node>)
      requires Valid()
      modifies this
      ensures Valid() && old(index) <= index
      ensures Reads(r, ParseNode(d, old(Remaining())))
      decreases |data| - index, 2
    {
      hide ParseValue, ParseNodeBody, BinaryFormat.ReadListSize;
      var size := ReadByte();
      if size.Failure? {
        return Failure(size.error);
      }
      var listSize := ReadListSize(size.value);
      if listSize.Failure? {
        return Failure(listSize.error);
      }
      var rawDesc := Read(true);
      if rawDesc.Failure? {
        return Failure(rawDesc.error);
      }
      if !IsStr(rawDesc.value) {
        return Failure(Panic);
      }
      var tag := rawDesc.value.scalar.s;
      if listSize.value == 0 || tag == [] {
        return Failure(InvalidNode);
      }
      r := ReadNodeBody(tag, listSize.value);
    }

    method ReadNodeBody(tag: Bytes, listSize: nat) returns (r: Outcome<Node>)
      requires Valid() && listSize > 0
      modifies this
      ensures Valid() && old(index) <= index
      ensures Reads(r, ParseNodeBody(d, tag, listSize, old(Remaining())))
      decreases |data| - index, 2
    {
      hide ParseValue, ParseAttrs;
      var attrs := ReadAttributes((listSize - 1) / 2);
      if attrs.Failure? {
        return Failure(attrs.error);
      }
      if listSize % 2 == 1 {
        return Success(Node(tag, attrs.value, ABSENT));
      }
      var content := Read(false);
      if content.Failure? {
        return Failure(content.error);
      }
      return Success(Node(tag, attrs.value, content.value));
    }
  }

  /** `b` shifted left by `places` bytes. */
  function ShiftedByte(b: Byte, places: nat): nat {
    b as int * Pow256(places)
  }

  /** The first `i` of `n` bytes, shifted to where they belong in an `n`-byte integer. */
  function Shifted(data: Bytes, index: nat, n: nat, i: nat): nat
    requires i <= n && index + n <= |data|
  {
    FromBigEndian(data[index..index + i]) * Pow256(n - i)
  }

  lemma NothingShifted(data: Bytes, index: nat, n: nat)
    requires index + n <= |data|
    ensures Shifted(data, index, n, 0) == 0
  {
  }

  lemma AllShifted(data: Bytes, index: nat, n: nat)
    requires index + n <= |data|
    ensures Shifted(data, index, n, n) == FromBigEndian(data[index..index + n])
  {
  }

  lemma ShiftIn(data: Bytes, index: nat, n: nat, i: nat)
    requires i < n && index + n <= |data|
    ensures Shifted(data, index, n, i + 1) == Shifted(data, index, n, i) + ShiftedByte(data[index + i], n - i - 1)
  {
    hide FromBigEndian;
    assert data[index..index + i] + [data[index + i]] == data[index..index + i + 1];
    FromBigEndianPush(data[index..index + i], data[index + i]);
    Distribute(FromBigEndian(data[index..index + i]), data[index + i], Pow256(n - i - 1));
  }

  lemma Distribute(high: nat, low: nat, p: nat)
    ensures high * (256 * p) + low * p == (high * 256 + low) * p
  {
    assert high * (256 * p) == (high * 256) * p;
  }

  /** The result of reading `text` and then whatever `r` reads. */
  function PrependText(text: Bytes, r: Parsed<Bytes>): Parsed<Bytes> {
    match r
    case Ok(more, rest) => Ok(text + more, rest)
    case Fail(e) => Fail(e)
  }

  lemma PrependNothing(r: Parsed<Bytes>)
    ensures PrependText([], r) == r
  {
    if r.Ok? {
      assert [] + r.value == r.value;
    }
  }

  lemma PrependTextTwice(a: Bytes, b: Bytes, r: Parsed<Bytes>)
    ensures PrependText(a, PrependText(b, r)) == PrependText(a + b, r)
  {
    if r.Ok? {
      assert a + (b + r.value) == a + b + r.value;
    }
  }

  lemma PairsDone(tag: Byte, text: Bytes, s: Bytes)
    ensures PrependText(text, UnpackPairs(tag, s, 0)) == Ok(text, s)
  {
    assert text + [] == text;
  }

  lemma PairsStep(tag: Byte, text: Bytes, s: Bytes, count: nat)
    requires count > 0
    ensures PrependText(text, UnpackPairs(tag, s, count))
         == if |s| < 1 then Fail(EOF)
            else
              var first, second := UnpackChar(tag, s[0] / 16), UnpackChar(tag, s[0] % 16);
              if first.None? || second.None? then Fail(BadPackedByte)
              else PrependText(text + [first.value, second.value], UnpackPairs(tag, s[1..], count - 1))
  {
    hide UnpackChar;
    if |s| >= 1 {
      var first, second := UnpackChar(tag, s[0] / 16), UnpackChar(tag, s[0] % 16);
      if first.Some? && second.Some? {
        PrependTextTwice(text, [first.value, second.value], UnpackPairs(tag, s[1..], count - 1));
      }
    }
  }

  function PrependNodes(nodes: seq<Node>, r: Parsed<seq<Node>>): Parsed<seq<Node>> {
    match r
    case Ok(more, rest) => Ok(nodes + more, rest)
    case Fail(e) => Fail(e)
  }

  lemma PrependNoNodes(r: Parsed<seq<Node>>)
    ensures PrependNodes([], r) == r
  {
    if r.Ok? {
      assert [] + r.value == r.value;
    }
  }

  lemma PrependNodesTwice(a: seq<Node>, b: seq<Node>, r: Parsed<seq<Node>>)
    ensures PrependNodes(a, PrependNodes(b, r)) == PrependNodes(a + b, r)
  {
    if r.Ok? {
      assert a + (b + r.value) == a + b + r.value;
    }
  }

  lemma NodesDone(d: Dictionary, nodes: seq<Node>, s: Bytes)
    ensures PrependNodes(nodes, ParseNodes(d, s, 0)) == Ok(nodes, s)
  {
    assert nodes + [] == nodes;
  }

  lemma NodesStep(d: Dictionary, nodes: seq<Node>, s: Bytes, count: nat)
    requires count > 0
    ensures PrependNodes(nodes, ParseNodes(d, s, count))
         == match ParseNode(d, s)
            case Fail(e) => Fail(e)
            case Ok(n, rest) => PrependNodes(nodes + [n], ParseNodes(d, rest, count - 1))
  {
    hide ParseNode;
    match ParseNode(d, s)
    case Fail(_) =>
    case Ok(n, rest) => PrependNodesTwice(nodes, [n], ParseNodes(d, rest, count - 1));
  }

  datatype Unmarshalled = Whole(node: Node) | Leftover(node: Node, bytes: nat) | Malformed(error: ReadError)

  /** Unmarshalling accepts exactly the inputs that are one node with nothing after it. */
  method Unmarshal(d: Dictionary, data: Bytes) returns (r: Unmarshalled)
    ensures match ParseNode(d, data)
            case Fail(e) => r == Malformed(e)
            case Ok(node, rest) => r == if rest == [] then Whole(node) else Leftover(node, |rest|)
  {
    hide ParseNode;
    var decoder := new Decoder(d, data);
    assert decoder.Remaining() == data;
    var n := decoder.ReadNode();
    if n.Failure? {
      return Malformed(n.error);
    } else if decoder.index != |data| {
      return Leftover(n.value, |data| - decoder.index);
    }
    return Whole(n.value);
  }
}
