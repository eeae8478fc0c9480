/** The writer of the binary XML format, which appends to a growing buffer. */
module BinaryEncoder {
  import opened ByteStrings
  import opened Jid
  import opened Tokens
  import opened BinaryNode
  import opened BinaryFormat

  /** The number of attributes a visiting order writes does not depend on the order. */
  lemma {:induction false} CountIsOrderFree(attrs: seq<WAttr>)
    requires DistinctKeys(attrs)
    ensures AttrMap(attrs).Keys == set a | a in attrs :: a.key
    ensures CountWritten(attrs) == |WrittenIn(AttrMap(attrs))|
  {
    hide WrittenIn, ForgetValue;
    if attrs == [] {
      NothingWritten(attrs);
    } else {
      var init, last := attrs[..|attrs| - 1], attrs[|attrs| - 1];
      CountIsOrderFree(init);
      NewKey(attrs);
      SkippedForgets(last.value);
      WrittenInPush(AttrMap(init), last.key, ForgetValue(last.value));
    }
  }

  lemma SkippedForgets(v: WValue)
    ensures WSkipped(v) <==> Skipped(ForgetValue(v))
  {
  }

  lemma NewKey(attrs: seq<WAttr>)
    requires attrs != [] && DistinctKeys(attrs)
    requires AttrMap(attrs[..|attrs| - 1]).Keys == set a | a in attrs[..|attrs| - 1] :: a.key
    ensures attrs[|attrs| - 1].key !in AttrMap(attrs[..|attrs| - 1])
    ensures (set a | a in attrs :: a.key) == (set a | a in attrs[..|attrs| - 1] :: a.key) + {attrs[|attrs| - 1].key}
  {
    hide AttrMap;
    var init, last := attrs[..|attrs| - 1], attrs[|attrs| - 1];
    assert attrs == init + [last];
    assert forall i :: 0 <= i < |init| ==> init[i] == attrs[i] && attrs[i].key != last.key;
  }

  lemma NothingWritten(attrs: seq<WAttr>)
    requires attrs == []
    ensures WrittenIn(AttrMap(attrs)) == {} && AttrMap(attrs).Keys == set a | a in attrs :: a.key
  {
  }

  lemma WrittenInPush(m: map<Bytes, Value>, key: Bytes, value: Value)
    requires key !in m
    ensures |WrittenIn(m[key := value])| == |WrittenIn(m)| + if Skipped(value) then 0 else 1
  {
    var after := m[key := value];
    forall k
      ensures k in WrittenIn(after) <==> k in WrittenIn(m) || (k == key && !Skipped(value))
    {
    }
    if Skipped(value) {
      assert WrittenIn(after) == WrittenIn(m);
    } else {
      assert WrittenIn(after) == WrittenIn(m) + {key};
    }
  }

  /** Every node has a visiting order. */
  lemma AnOrder(n: Node) returns (w: Written)
    ensures Ordered(w) && Forget(w) == n
    decreases n, 1
  {
    var attrs: seq<WAttr> := [];
    var keys := n.attrs.Keys;
    while keys != {}
      invariant keys <= n.attrs.Keys
      invariant VisitedSoFar(n.attrs, keys, attrs)
      decreases |keys|
    {
      var k :| k in keys;
      var v := AnOrderOfValue(n.attrs[k]);
      VisitOne(n.attrs, keys, attrs, k, v);
      attrs, keys := attrs + [WAttr(k, v)], keys - {k};
    }
    assert AttrMap(attrs) == n.attrs;
    var content := AnOrderOfValue(n.content);
    w := Written(n.tag, attrs, content);
  }

  lemma AnOrderOfValue(v: Value) returns (w: WValue)
    ensures OrderedValue(w) && ForgetValue(w) == v
    decreases v, 0
  {
    match v
    case Leaf(s) => w := WLeaf(s);
    case Children(nodes) =>
      var ws: seq<Written> := [];
      for i := 0 to |nodes|
        invariant |ws| == i && ForgetAll(ws) == nodes[..i] && forall n | n in ws :: Ordered(n)
      {
        var n := AnOrder(nodes[i]);
        ForgetAllPush(ws, n);
        ws := ws + [n];
      }
      w := WChildren(ws);
  }

  lemma {:induction false} ForgetAllPush(ws: seq<Written>, w: Written)
    ensures ForgetAll(ws + [w]) == ForgetAll(ws) + [Forget(w)]
  {
    if ws == [] {
      assert ws + [w] == [w];
    } else {
      assert (ws + [w])[1..] == ws[1..] + [w];
      ForgetAllPush(ws[1..], w);
    }
  }

  /** `attrs` lists, in a visiting order, the entries of `m` whose key is no longer in `keys`. */
  ghost predicate VisitedSoFar(m: map<Bytes, Value>, keys: set<Bytes>, attrs: seq<WAttr>)
  {
    && DistinctKeys(attrs)
    && (forall a | a in attrs :: OrderedValue(a.value) && a.key !in keys)
    && AttrMap(attrs) == map k | k in m && k !in keys :: m[k]
  }

  lemma NothingVisited(m: map<Bytes, Value>)
    ensures VisitedSoFar(m, m.Keys, [])
  {
    assert (set k | k in m && k !in m.Keys) == {};
  }

  lemma VisitOne(m: map<Bytes, Value>, keys: set<Bytes>, attrs: seq<WAttr>, k: Bytes, v: WValue)
    requires VisitedSoFar(m, keys, attrs) && k in keys && keys <= m.Keys
    requires OrderedValue(v) && ForgetValue(v) == m[k]
    ensures VisitedSoFar(m, keys - {k}, attrs + [WAttr(k, v)])
  {
    var attrs' := attrs + [WAttr(k, v)];
    assert attrs'[..|attrs'| - 1] == attrs;
    forall i, j | 0 <= i < j < |attrs'|
      ensures attrs'[i].key != attrs'[j].key
    {
      assert attrs'[i] in attrs;
    }
  }

  class Encoder {
    const d: Dictionary
    var data: Bytes

    /** A new buffer starts with the zero byte that says "not compressed". */
    constructor (d: Dictionary)
      ensures this.d == d && data == [0]
    {
      this.d := d;
      data := [0];
    }

    method PushByte(b: Byte)
      modifies this
      ensures data == old(data) + [b]
    {
      data := data + [b];
    }

    method PushBytes(bytes: Bytes)
      modifies this
      ensures data == old(data) + bytes
    {
      data := data + bytes;
    }

    method PushIntN(value: nat, n: nat)
      modifies this
      ensures data == old(data) + BigEndian(value, n)
    {
      for i := 0 to n
        invariant data == old(data) + BigEndian(value, n)[..i]
      {
        BigEndianAt(value, n, i);
        PushByte((value / Pow256(n - i - 1)) % 256);
      }
    }

    method PushInt20(value: nat)
      modifies this
      ensures data == old(data) + Int20(value)
    {
      PushBytes([(value / 0x1_0000) % 16, (value / 0x100) % 0x100, value % 0x100]);
    }

    method WriteByteLength(length: nat)
      requires length < MAX_INT_32
      modifies this
      ensures data == old(data) + ByteLength(length)
    {
      if length < 256 {
        PushByte(BINARY_8);
        PushIntN(length, 1);
      } else if length < 0x10_0000 {
        PushByte(BINARY_20);
        PushInt20(length);
      } else {
        PushByte(BINARY_32);
        PushIntN(length, 4);
      }
    }

    method WriteBytes(value: Bytes)
      requires |value| < MAX_INT_32
      modifies this
      ensures data == old(data) + RawBytes(value)
    {
      WriteByteLength(|value|);
      PushBytes(value);
    }

    method WritePackedBytes(value: Bytes, tag: Byte)
      requires Packable(tag, value)
      modifies this
      ensures data == old(data) + PackedBytes(tag, value)
    {
      hide *;
      PushByte(tag);
      PackableLength(tag, value);
      var roundedLength := (|value| + 1) / 2;
      if |value| % 2 != 0 {
        roundedLength := roundedLength + 128;
      }
      PushByte(roundedLength);
      ghost var start := data;
      PackedNothing(tag, value);
      for i := 0 to |value| / 2
        invariant data == start + PackedUpTo(tag, value, 2 * i)
      {
        PackPairsPush(tag, value, i);
        PushByte(PackBytePair(tag, value[2 * i], value[2 * i + 1]));
      }
      if |value| % 2 != 0 {
        PackPairsLast(tag, value);
        PushByte(PackBytePair(tag, value[|value| - 1], 0));
      }
      PackedBytesParts(tag, value, roundedLength);
      Associate(old(data), [tag, roundedLength], PackedUpTo(tag, value, |value|));
    }

    method WriteString(s: Bytes)
      requires Sized(d) && |s| < MAX_INT_32
      modifies this
      ensures data == old(data) + EncString(d, s)
    {
      var single := IndexOfSingleToken(d, s);
      if single.Some? {
        PushByte(single.value);
      } else {
        var double := IndexOfDoubleByteToken(d, s);
        if double.Some? {
          PushByte(DICTIONARY_0 + double.value.0);
          PushByte(double.value.1);
        } else if ValidNibble(s) {
          WritePackedBytes(s, NIBBLE_8);
        } else if ValidHex(s) {
          WritePackedBytes(s, HEX_8);
        } else {
          WriteBytes(s);
        }
      }
    }

    method WriteJID(j: JID)
      requires Sized(d) && |j.user| < MAX_INT_32 && |j.server| < MAX_INT_32
      modifies this
      ensures data == old(data) + EncJID(d, j)
    {
      hide *;
      JIDParts(d, j);
      if ((j.server == DEFAULT_USER_SERVER || j.server == HIDDEN_USER_SERVER) && j.device > 0)
         || j.server == HOSTED_SERVER || j.server == HOSTED_LID_SERVER {
        PushByte(AD_JID);
        PushByte(ActualAgent(j));
        PushByte(j.device % 256);
        WriteString(j.user);
      } else if j.server == MESSENGER_SERVER {
        PushByte(FB_JID);
        WriteString(j.user);
        PushIntN(j.device, 2);
        WriteString(j.server);
      } else if j.server == INTEROP_SERVER {
        PushByte(INTEROP_JID);
        WriteString(j.user);
        PushIntN(j.device, 2);
        PushIntN(j.integrator, 2);
        WriteString(j.server);
      } else {
        PushByte(JID_PAIR);
        if |j.user| == 0 {
          PushByte(LIST_EMPTY);
        } else {
          WriteString(j.user);
        }
        WriteString(j.server);
      }
      JIDPartsAppended(d, j, old(data));
    }

    method WriteListStart(listSize: nat)
      modifies this
      ensures data == old(data) + ListStart(listSize)
    {
      if listSize == 0 {
        PushByte(LIST_EMPTY);
      } else if listSize < 256 {
        PushByte(LIST_8);
        PushIntN(listSize, 1);
      } else {
        PushByte(LIST_16);
        PushIntN(listSize, 2);
      }
    }

    method CountAttributes(attrs: map<Bytes, Value>) returns (count: nat)
      ensures count == |WrittenIn(attrs)|
    {
      count := 0;
      var keys := attrs.Keys;
      while keys != {}
        invariant keys <= attrs.Keys
        invariant count == |set k | k in attrs && k !in keys && !Skipped(attrs[k])|
        decreases |keys|
      {
        var key :| key in keys;
        ghost var before := set k | k in attrs && k !in keys && !Skipped(attrs[k]);
        ghost var after := set k | k in attrs && k !in keys - {key} && !Skipped(attrs[k]);
        keys := keys - {key};
        if Skipped(attrs[key]) {
          assert after == before;
          continue;
        }
        assert after == before + {key};
        count := count + 1;
      }
      assert WrittenIn(attrs) == set k | k in attrs && k !in keys && !Skipped(attrs[k]);
    }

    /** Visits the map in whatever order `range` happens to take. */
    method WriteAttributes(attrs: map<Bytes, Value>, ghost owner: Node) returns (ghost ws: seq<WAttr>)
      requires Sized(d) && attrs == owner.attrs
      requires forall k | k in attrs && !Skipped(attrs[k]) :: |k| < MAX_INT_32 && EncodableValue(attrs[k])
      modifies this
      ensures VisitedSoFar(attrs, {}, ws)
      ensures data == old(data) + EncAttrs(d, ws)
      decreases owner, 1
    {
      hide *;
      ws := [];
      NothingVisited(attrs);
      EncNoAttrs(d);
      var keys := attrs.Keys;
      while keys != {}
        invariant keys <= attrs.Keys
        invariant VisitedSoFar(attrs, keys, ws)
        invariant data == old(data) + EncAttrs(d, ws)
        decreases |keys|
      {
        var key :| key in keys;
        ghost var v;
        if Skipped(attrs[key]) {
          SkippedIsLeaf(attrs[key]);
          v := WLeaf(attrs[key].scalar);
        } else {
          WriteString(key);
          v := Write(attrs[key]);
        }
        EncAttrsPush(d, ws, key, v);
        VisitOne(attrs, keys, ws, key, v);
        ws, keys := ws + [WAttr(key, v)], keys - {key};
      }
    }

    method Write(v: Value) returns (ghost w: WValue)
      requires Sized(d) && EncodableValue(v)
      modifies this
      ensures OrderedValue(w) && ForgetValue(w) == v
      ensures data == old(data) + EncValue(d, w)
      decreases v, 1
    {
      hide EncString, EncJID, RawBytes, ListStart, EncNodes, Forget, ForgetAll, Ordered, Encodable, Decimal;
      match v
      case Leaf(s) =>
        w := WLeaf(s);
        match s {
          case Nil => PushByte(LIST_EMPTY);
          case JidOf(jid) => WriteJID(jid);
          case Bin(bytes) => WriteBytes(bytes);
          case Str(text) => WriteString(text);
          case Num(n) => WriteString(Decimal(n));
          case Boolean(b) => WriteString(if b then Ascii("true") else Ascii("false"));
        }
      case Children(nodes) =>
        WriteListStart(|nodes|);
        ghost var ws := WriteNodes(nodes, v);
        w := WChildren(ws);
    }

    method WriteNodes(nodes: seq<Node>, ghost owner: Value) returns (ghost ws: seq<Written>)
      requires Sized(d) && owner == Children(nodes) && EncodableValue(owner)
      modifies this
      ensures ForgetAll(ws) == nodes && forall n | n in ws :: Ordered(n)
      ensures data == old(data) + EncNodes(d, ws)
      decreases owner, 0
    {
      hide EncNode, ListStart, Forget, Ordered;
      ws := [];
      for i := 0 to |nodes|
        invariant |ws| == i && ForgetAll(ws) == nodes[..i] && forall n | n in ws :: Ordered(n)
        invariant data == old(data) + EncNodes(d, ws)
      {
        ghost var n := WriteNode(nodes[i]);
        ForgetAllPush(ws, n);
        assert (ws + [n])[..|ws|] == ws;
        ws := ws + [n];
      }
    }

    /** The buffer grows by the encoding of the node in one of its visiting orders. */
    method WriteNode(n: Node) returns (ghost w: Written)
      requires Sized(d) && Encodable(n)
      modifies this
      ensures Ordered(w) && Forget(w) == n
      ensures data == old(data) + EncNode(d, w)
      decreases n, 3
    {
      if n.tag == ZERO_TAG {
        PushByte(LIST_8);
        PushByte(LIST_EMPTY);
        w := AnOrder(n);
      } else {
        w := WriteElement(n);
      }
    }

    method WriteElement(n: Node) returns (ghost w: Written)
      requires Sized(d) && Encodable(n) && n.tag != ZERO_TAG
      modifies this
      ensures Ordered(w) && Forget(w) == n
      ensures data == old(data) + EncNode(d, w)
      decreases n, 2
    {
      hide *;
      EncodableParts(n);
      ghost var start := data;
      var hasContent := 0;
      if n.content != ABSENT {
        hasContent := 1;
      }
      var count := CountAttributes(n.attrs);
      WriteListStart(2 * count + 1 + hasContent);
      WriteString(n.tag);
      ghost var attrs := WriteAttributes(n.attrs, n);
      AllVisited(n.attrs, attrs);
      if n.content != ABSENT {
        ghost var content := Write(n.content);
        w := Written(n.tag, attrs, content);
      } else {
        w := Written(n.tag, attrs, WLeaf(Nil));
      }
      WrittenElement(d, n, w);
      assert data == start + EncNode(d, w);
    }
  }

  lemma EncodableParts(n: Node)
    requires Encodable(n) && n.tag != ZERO_TAG
    ensures |n.tag| < MAX_INT_32 && EncodableValue(n.content)
    ensures forall k | k in n.attrs && !Skipped(n.attrs[k]) :: |k| < MAX_INT_32 && EncodableValue(n.attrs[k])
  {
  }

  lemma WrittenElement(d: Dictionary, n: Node, w: Written)
    requires Sized(d) && n.tag != ZERO_TAG && w.tag == n.tag
    requires AttrMap(w.attrs) == n.attrs && CountWritten(w.attrs) == |WrittenIn(n.attrs)|
    requires DistinctKeys(w.attrs) && forall a | a in w.attrs :: OrderedValue(a.value)
    requires if n.content == ABSENT then w.content == WLeaf(Nil)
             else OrderedValue(w.content) && ForgetValue(w.content) == n.content
    ensures Ordered(w) && Forget(w) == n
    ensures EncNode(d, w)
         == ListStart(2 * |WrittenIn(n.attrs)| + 1 + if n.content == ABSENT then 0 else 1)
            + EncString(d, n.tag) + EncAttrs(d, w.attrs)
            + if n.content == ABSENT then [] else EncValue(d, w.content)
  {
    hide EncString, EncAttrs, EncValue, ListStart, AttrMap, WrittenIn, CountWritten;
  }

  lemma AllVisited(m: map<Bytes, Value>, attrs: seq<WAttr>)
    requires VisitedSoFar(m, {}, attrs)
    ensures AttrMap(attrs) == m && CountWritten(attrs) == |WrittenIn(m)|
    ensures DistinctKeys(attrs) && forall a | a in attrs :: OrderedValue(a.value)
  {
    CountIsOrderFree(attrs);
  }

  lemma JIDParts(d: Dictionary, j: JID)
    requires Sized(d)
    ensures UsesADForm(j) <==>
            ((j.server == DEFAULT_USER_SERVER || j.server == HIDDEN_USER_SERVER) && j.device > 0)
            || j.server == HOSTED_SERVER || j.server == HOSTED_LID_SERVER
  {
  }

  /** Appending the parts of an identifier one by one appends its encoding. */
  lemma JIDPartsAppended(d: Dictionary, j: JID, start: Bytes)
    requires Sized(d)
    ensures start + EncJID(d, j) ==
            if UsesADForm(j) then
              start + [AD_JID] + [ActualAgent(j)] + [j.device % 256] + EncString(d, j.user)
            else if j.server == MESSENGER_SERVER then
              start + [FB_JID] + EncString(d, j.user) + BigEndian(j.device, 2) + EncString(d, j.server)
            else if j.server == INTEROP_SERVER then
              start + [INTEROP_JID] + EncString(d, j.user) + BigEndian(j.device, 2) + BigEndian(j.integrator, 2)
              + EncString(d, j.server)
            else
              start + [JID_PAIR] + (if j.user == [] then [LIST_EMPTY] else EncString(d, j.user)) + EncString(d, j.server)
  {
    hide EncString, BigEndian, ActualAgent;
  }

  lemma EncNoAttrs(d: Dictionary)
    requires Sized(d)
    ensures EncAttrs(d, []) == []
  {
  }

  lemma EncAttrsPush(d: Dictionary, attrs: seq<WAttr>, key: Bytes, v: WValue)
    requires Sized(d)
    ensures EncAttrs(d, attrs + [WAttr(key, v)])
         == EncAttrs(d, attrs) + if Skipped(ForgetValue(v)) then [] else EncString(d, key) + EncValue(d, v)
  {
    hide EncString, EncValue;
    var attrs' := attrs + [WAttr(key, v)];
    assert attrs'[..|attrs'| - 1] == attrs;
  }

  lemma SkippedIsLeaf(v: Value)
    requires Skipped(v)
    ensures v.Leaf?
    ensures OrderedValue(WLeaf(v.scalar)) && ForgetValue(WLeaf(v.scalar)) == v
  {
  }

  lemma {:induction false} PackPairsAppend(tag: Byte, a: Bytes, b: Bytes)
    requires Packable(tag, a) && Packable(tag, b) && |a| % 2 == 0 && |a| + |b| <= PACKED_MAX
    ensures Packable(tag, a + b)
    ensures PackPairs(tag, a + b) == PackPairs(tag, a) + PackPairs(tag, b)
  {
    hide *;
    PackableAppend(tag, a, b);
    if a == [] {
      assert a + b == b;
      PackNothing(tag);
      assert PackPairs(tag, a) + PackPairs(tag, b) == PackPairs(tag, b);
    } else {
      assert |a| >= 2;
      PackPairsUnfold(tag, a);
      assert (a + b)[2..] == a[2..] + b;
      PackPairsUnfold(tag, a + b);
      PackPairsAppend(tag, a[2..], b);
      Associate([PackBytePair(tag, a[0], a[1])], PackPairs(tag, a[2..]), PackPairs(tag, b));
    }
  }

  lemma PackableAppend(tag: Byte, a: Bytes, b: Bytes)
    requires Packable(tag, a) && Packable(tag, b) && |a| + |b| <= PACKED_MAX
    ensures Packable(tag, a + b)
  {
    hide PackableChar;
  }

  lemma PackNothing(tag: Byte)
    requires Packable(tag, [])
    ensures PackPairs(tag, []) == []
  {
  }

  lemma PackPairsUnfold(tag: Byte, text: Bytes)
    requires Packable(tag, text) && |text| >= 2
    ensures Packable(tag, text[2..]) && PackableChar(tag, text[0]) && PackableChar(tag, text[1])
    ensures PackPairs(tag, text) == [PackBytePair(tag, text[0], text[1])] + PackPairs(tag, text[2..])
  {
    hide PackableChar, PackBytePair;
    assert PackableChar(tag, text[0]) && PackableChar(tag, text[1]);
  }

  lemma PackableLength(tag: Byte, value: Bytes)
    requires Packable(tag, value)
    ensures |value| <= 127 && Packable(tag, [])
  {
  }

  /** The packed form of the first `k` characters. */
  function PackedUpTo(tag: Byte, value: Bytes, k: nat): Bytes
    requires Packable(tag, value) && k <= |value|
  {
    PackPairs(tag, value[..k])
  }

  lemma PackedNothing(tag: Byte, value: Bytes)
    requires Packable(tag, value)
    ensures PackedUpTo(tag, value, 0) == []
  {
  }

  lemma PackedBytesParts(tag: Byte, value: Bytes, roundedLength: Byte)
    requires Packable(tag, value)
    requires roundedLength == (|value| + 1) / 2 + if |value| % 2 != 0 then 128 else 0
    ensures PackedBytes(tag, value) == [tag, roundedLength] + PackedUpTo(tag, value, |value|)
  {
    hide PackPairs;
    assert value[..|value|] == value;
  }

  lemma PackPairsPush(tag: Byte, value: Bytes, i: nat)
    requires Packable(tag, value) && 2 * i + 1 < |value|
    ensures PackableChar(tag, value[2 * i]) && PackableChar(tag, value[2 * i + 1])
    ensures PackedUpTo(tag, value, 2 * (i + 1))
         == PackedUpTo(tag, value, 2 * i) + [PackBytePair(tag, value[2 * i], value[2 * i + 1])]
  {
    hide PackableChar, PackBytePair;
    var pair := value[2 * i..2 * i + 2];
    assert PackableChar(tag, value[2 * i]) && PackableChar(tag, value[2 * i + 1]);
    assert value[..2 * i] + pair == value[..2 * (i + 1)];
    PackPairsAppend(tag, value[..2 * i], pair);
    assert pair == [value[2 * i], value[2 * i + 1]] && pair[2..] == [];
  }

  lemma PackPairsLast(tag: Byte, value: Bytes)
    requires Packable(tag, value) && |value| % 2 == 1
    ensures PackableChar(tag, value[|value| - 1])
    ensures PackedUpTo(tag, value, |value|)
         == PackedUpTo(tag, value, 2 * (|value| / 2)) + [PackBytePair(tag, value[|value| - 1], 0)]
  {
    hide PackableChar, PackBytePair;
    var last := value[|value| - 1..];
    assert PackableChar(tag, value[|value| - 1]);
    assert value[..|value| - 1] + last == value[..|value|];
    PackPairsAppend(tag, value[..|value| - 1], last);
  }

  /** The zero byte and the encoding of the node in one of its visiting orders. */
  ghost predicate IsMarshalled(d: Dictionary, n: Node, data: Bytes)
    requires Sized(d)
  {
    exists w :: Ordered(w) && Forget(w) == n && data == [0] + EncNode(d, w)
  }

  method Marshal(d: Dictionary, n: Node) returns (data: Bytes)
    requires Sized(d) && Encodable(n)
    ensures IsMarshalled(d, n, data)
  {
    hide EncNode, Ordered, Forget, Encodable;
    var e := new Encoder(d);
    ghost var w := e.WriteNode(n);
    data := e.data;
    assert Ordered(w) && Forget(w) == n;
  }
}
