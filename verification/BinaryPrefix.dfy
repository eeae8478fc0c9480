/** The reader and the bytes it has not seen: what it has read it would read again with more behind it, and every
failure but the end of the input is final. */
module BinaryPrefix {
  import opened ByteStrings
  import opened Tokens
  import opened Jid
  import opened BinaryNode
  import opened BinaryFormat
  import opened BinaryRoundTrip

  /** The outcome `r'` with `t` behind the input that had the outcome `r`. */
  ghost predicate Extends<T>(r: Parsed<T>, r': Parsed<T>, t: Bytes)
  {
    match r
    case Ok(value, rest) => r' == Ok(value, rest + t)
    case Fail(e) => e != EOF ==> r' == Fail(e)
  }

  // ---------- Pieces ----------

  /** With more behind it, an input keeps what can be cut from it. */
  lemma More(s: Bytes, t: Bytes, n: nat)
    requires n <= |s|
    ensures (s + t)[..n] == s[..n] && (s + t)[n..] == s[n..] + t
  {
  }

  lemma IntNExtends(s: Bytes, n: nat, t: Bytes)
    ensures Extends(ReadIntN(s, n), ReadIntN(s + t, n), t)
  {
    hide FromBigEndian;
    if n <= |s| {
      More(s, t, n);
    }
  }

  lemma Int20Extends(s: Bytes, t: Bytes)
    ensures Extends(ReadInt20(s), ReadInt20(s + t), t)
  {
    if 3 <= |s| {
      More(s, t, 3);
    }
  }

  lemma BytesExtend(length: Parsed<nat>, length': Parsed<nat>, asString: bool, t: Bytes)
    requires Extends(length, length', t)
    ensures Extends(BytesOrString(length, asString), BytesOrString(length', asString), t)
  {
    match length
    case Ok(n, s) =>
      if n <= |s| {
        More(s, t, n);
      }
    case Fail(_) =>
  }

  lemma {:induction false} UnpackExtends(tag: Byte, s: Bytes, count: nat, t: Bytes)
    ensures Extends(UnpackPairs(tag, s, count), UnpackPairs(tag, s + t, count), t)
    decreases count
  {
    hide UnpackChar;
    if count > 0 && |s| >= 1 {
      More(s, t, 1);
      UnpackExtends(tag, s[1..], count - 1, t);
    }
  }

  lemma PackedExtends(tag: Byte, s: Bytes, t: Bytes)
    ensures Extends(ReadPacked(tag, s), ReadPacked(tag, s + t), t)
  {
    hide UnpackPairs;
    if |s| >= 1 {
      More(s, t, 1);
      UnpackExtends(tag, s[1..], s[0] % 128, t);
    }
  }

  lemma DoubleExtends(d: Dictionary, tag: Byte, s: Bytes, t: Bytes)
    requires DICTIONARY_0 <= tag <= DICTIONARY_3
    ensures Extends(ParseDoubleToken(d, tag, s), ParseDoubleToken(d, tag, s + t), t)
  {
    if |s| >= 1 {
      More(s, t, 1);
    }
  }

  lemma ListSizeExtends(tag: Byte, s: Bytes, t: Bytes)
    ensures Extends(ReadListSize(tag, s), ReadListSize(tag, s + t), t)
  {
    hide ReadIntN;
    IntNExtends(s, 1, t);
    IntNExtends(s, 2, t);
  }

  // ---------- Values and nodes ----------

  lemma {:induction false} ValueExtends(d: Dictionary, s: Bytes, asString: bool, t: Bytes)
    ensures Extends(ParseValue(d, s, asString), ParseValue(d, s + t, asString), t)
    decreases |s|, 0
  {
    hide ReadIntN, ReadInt20, BytesOrString, ReadPacked, ParseDoubleToken, ParseFBJID, ParseInteropJID, ParseJIDPair,
         ParseADJID, ParseList;
    if |s| >= 1 {
      More(s, t, 1);
      var tag, body := s[0], s[1..];
      if tag == LIST_8 || tag == LIST_16 {
        ListExtends(d, tag, body, t);
      } else if tag == BINARY_8 {
        IntNExtends(body, 1, t);
        BytesExtend(ReadIntN(body, 1), ReadIntN(body + t, 1), asString, t);
      } else if tag == BINARY_20 {
        Int20Extends(body, t);
        BytesExtend(ReadInt20(body), ReadInt20(body + t), asString, t);
      } else if tag == BINARY_32 {
        IntNExtends(body, 4, t);
        BytesExtend(ReadIntN(body, 4), ReadIntN(body + t, 4), asString, t);
      } else if DICTIONARY_0 <= tag <= DICTIONARY_3 {
        DoubleExtends(d, tag, body, t);
      } else if tag == FB_JID {
        FBExtends(d, body, t);
      } else if tag == INTEROP_JID {
        InteropExtends(d, body, t);
      } else if tag == JID_PAIR {
        PairExtends(d, body, t);
      } else if tag == AD_JID {
        ADExtends(d, body, t);
      } else if tag == NIBBLE_8 || tag == HEX_8 {
        PackedExtends(tag, body, t);
      }
    }
  }

  lemma {:induction false} PairExtends(d: Dictionary, s: Bytes, t: Bytes)
    ensures Extends(ParseJIDPair(d, s), ParseJIDPair(d, s + t), t)
    decreases |s|, 1
  {
    hide ParseValue;
    ValueExtends(d, s, true, t);
    match ParseValue(d, s, true)
    case Fail(_) =>
    case Ok(_, s1) => ValueExtends(d, s1, true, t);
  }

  lemma {:induction false} InteropExtends(d: Dictionary, s: Bytes, t: Bytes)
    ensures Extends(ParseInteropJID(d, s), ParseInteropJID(d, s + t), t)
    decreases |s|, 1
  {
    hide ParseValue, UInt16Of;
    ValueExtends(d, s, true, t);
    match ParseValue(d, s, true)
    case Fail(_) =>
    case Ok(_, s1) =>
      if |s1| >= 4 {
        More(s1, t, 2);
        More(s1, t, 4);
        assert (s1 + t)[2..4] == s1[2..4];
        ValueExtends(d, s1[4..], true, t);
      }
  }

  lemma {:induction false} FBExtends(d: Dictionary, s: Bytes, t: Bytes)
    ensures Extends(ParseFBJID(d, s), ParseFBJID(d, s + t), t)
    decreases |s|, 1
  {
    hide ParseValue, UInt16Of;
    ValueExtends(d, s, true, t);
    match ParseValue(d, s, true)
    case Fail(_) =>
    case Ok(_, s1) =>
      if |s1| >= 2 {
        More(s1, t, 2);
        ValueExtends(d, s1[2..], true, t);
      }
  }

  lemma {:induction false} ADExtends(d: Dictionary, s: Bytes, t: Bytes)
    ensures Extends(ParseADJID(d, s), ParseADJID(d, s + t), t)
    decreases |s|, 1
  {
    hide ParseValue;
    if |s| >= 2 {
      More(s, t, 2);
      ValueExtends(d, s[2..], true, t);
    }
  }

  lemma {:induction false} ListExtends(d: Dictionary, tag: Byte, s: Bytes, t: Bytes)
    requires tag == LIST_8 || tag == LIST_16
    ensures Extends(ParseList(d, tag, s), ParseList(d, tag, s + t), t)
    decreases |s|, 4
  {
    hide ReadListSize, ParseNodes;
    ListSizeExtends(tag, s, t);
    match ReadListSize(tag, s)
    case Fail(_) =>
    case Ok(size, s1) => NodesExtend(d, s1, size, t);
  }

  lemma {:induction false} NodesExtend(d: Dictionary, s: Bytes, count: nat, t: Bytes)
    ensures Extends(ParseNodes(d, s, count), ParseNodes(d, s + t, count), t)
    decreases |s|, 3, count
  {
    hide ParseNode;
    if count > 0 {
      NodeExtends(d, s, t);
      match ParseNode(d, s)
      case Fail(_) =>
      case Ok(_, s1) => NodesExtend(d, s1, count - 1, t);
    }
  }

  lemma {:induction false} AttrsExtend(d: Dictionary, s: Bytes, count: nat, acc: map<Bytes, Value>, t: Bytes)
    ensures Extends(ParseAttrs(d, s, count, acc), ParseAttrs(d, s + t, count, acc), t)
    decreases |s|, 1, count
  {
    hide ParseValue;
    if count > 0 {
      ValueExtends(d, s, true, t);
      match ParseValue(d, s, true)
      case Fail(_) =>
      case Ok(key, s1) =>
        if IsStr(key) {
          ValueExtends(d, s1, true, t);
          match ParseValue(d, s1, true)
          case Fail(_) =>
          case Ok(value, s2) => AttrsExtend(d, s2, count - 1, acc[key.scalar.s := value], t);
        }
    }
  }

  /** What one node was read from, it is read from whatever follows; and no failure but the end of the input is mended
  by more input. */
  lemma {:induction false} NodeExtends(d: Dictionary, s: Bytes, t: Bytes)
    ensures Extends(ParseNode(d, s), ParseNode(d, s + t), t)
    decreases |s|, 2
  {
    hide ReadListSize, ParseValue, ParseNodeBody;
    if |s| >= 1 {
      More(s, t, 1);
      ListSizeExtends(s[0], s[1..], t);
      match ReadListSize(s[0], s[1..])
      case Fail(_) =>
      case Ok(listSize, s1) =>
        ValueExtends(d, s1, true, t);
        match ParseValue(d, s1, true)
        case Fail(_) =>
        case Ok(tag, s2) =>
          if IsStr(tag) && listSize > 0 && tag.scalar.s != [] {
            BodyExtends(d, tag.scalar.s, listSize, s2, t);
          }
    }
  }

  lemma {:induction false} BodyExtends(d: Dictionary, tag: Bytes, listSize: nat, s: Bytes, t: Bytes)
    requires listSize > 0
    ensures Extends(ParseNodeBody(d, tag, listSize, s), ParseNodeBody(d, tag, listSize, s + t), t)
    decreases |s|, 2
  {
    hide ParseAttrs, ParseValue;
    AttrsExtend(d, s, (listSize - 1) / 2, map[], t);
    match ParseAttrs(d, s, (listSize - 1) / 2, map[])
    case Fail(_) =>
    case Ok(_, s1) =>
      if listSize % 2 == 0 {
        ValueExtends(d, s1, false, t);
      }
  }

  // ---------- What follows ----------

  /** No accepted input is the beginning of another. */
  lemma PrefixFree(d: Dictionary, s: Bytes, t: Bytes, n: Node, n': Node)
    requires ParseNode(d, s) == Ok(n, []) && ParseNode(d, s + t) == Ok(n', [])
    ensures t == [] && n == n'
  {
    hide ParseNode;
    NodeExtends(d, s, t);
  }

  /** An encoding cut short anywhere is the end of the input for the reader, and never another node or another error. */
  lemma CutIsEOF(d: Dictionary, w: Written, k: nat)
    requires Sized(d) && Ordered(w) && Encodable(Forget(w)) && Readable(Forget(w)) && k < |EncNode(d, w)|
    ensures ParseNode(d, EncNode(d, w)[..k]) == Fail(EOF)
  {
    hide ParseNode, EncNode, Sized, Ordered, Encodable, Readable, Forget, Canonical;
    var all := EncNode(d, w);
    RoundTrip(d, w, []);
    assert all + [] == all && all[..k] + all[k..] == all;
    NodeExtends(d, all[..k], all[k..]);
  }
}
