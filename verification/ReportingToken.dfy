/** Extracting the content of a reporting token: a filter on the bytes of a protobuf message.

The comparison that sorts the extracted fields looks at field numbers only, so what the sort does to a list
is a permutation chosen by its sequence of numbers.  `Order` is any such choice. */
module ReportingToken {
  import opened ByteStrings

  datatype FieldConfig = FieldConfig(number: nat, isMessage: bool, subfields: seq<FieldConfig>)

  const WIRE_VARINT := 0
  const WIRE_64_BIT := 1
  const WIRE_BYTES := 2
  const WIRE_32_BIT := 5

  const TWO_64 := 0x1_0000_0000_0000_0000
  const TWO_62 := 0x4000_0000_0000_0000

  // ---------- Varints ----------

  datatype Varint = Varint(value: nat, n: nat) | Truncated | Overflow

  /** `binary.Uvarint` with `i` bytes read before `s`. */
  function UvarintFrom(s: Bytes, i: nat): (r: Varint)
    ensures r.Varint? ==> i < r.n <= i + |s|
  {
    if s == [] then Truncated
    else if i == 10 then Overflow
    else if s[0] < 128 then (if i == 9 && s[0] > 1 then Overflow else Varint(s[0], i + 1))
    else
      match UvarintFrom(s[1..], i + 1)
      case Varint(value, n) => Varint((s[0] - 128) + 128 * value, n)
      case Truncated => Truncated
      case Overflow => Overflow
  }

  function Uvarint(s: Bytes): (r: Varint)
    ensures r.Varint? ==> 0 < r.n <= |s|
  {
    UvarintFrom(s, 0)
  }

  /** `binary.PutUvarint` */
  function PutUvarint(v: nat): (r: Bytes)
    ensures |r| > 0
  {
    if v < 128 then [v] else [v % 128 + 128] + PutUvarint(v / 128)
  }

  /** The values that fit the varint bytes from position `i` on. */
  function Room(i: nat): nat
    requires i <= 9
  {
    [0x1_0000_0000_0000_0000, 0x200_0000_0000_0000, 0x4_0000_0000_0000, 0x800_0000_0000, 0x10_0000_0000,
     0x2000_0000, 0x40_0000, 0x8000, 0x100, 0x2][i]
  }

  lemma {:induction false} ReadBackVarintFrom(v: nat, rest: Bytes, i: nat)
    requires i <= 9 && v < Room(i)
    ensures UvarintFrom(PutUvarint(v) + rest, i) == Varint(v, i + |PutUvarint(v)|)
  {
    var s := PutUvarint(v) + rest;
    if v >= 128 {
      assert i < 9 && v / 128 < Room(i + 1);
      assert s[1..] == PutUvarint(v / 128) + rest;
      ReadBackVarintFrom(v / 128, rest, i + 1);
    }
  }

  /** Every 64-bit value is read back, whatever follows. */
  lemma ReadBackVarint(v: nat, rest: Bytes)
    requires v < TWO_64
    ensures Uvarint(PutUvarint(v) + rest) == Varint(v, |PutUvarint(v)|)
  {
    ReadBackVarintFrom(v, rest, 0);
  }

  // ---------- Sorting ----------

  type Order = seq<nat> -> seq<nat>

  predicate IsSorting(nums: seq<nat>, p: seq<nat>)
  {
    && |p| == |nums|
    && (forall i :: 0 <= i < |p| ==> p[i] < |nums|)
    && (forall i, j :: 0 <= i < j < |p| ==> p[i] != p[j])
    && forall i, j :: 0 <= i < j < |p| ==> nums[p[i]] <= nums[p[j]]
  }

  ghost predicate Sorts(order: Order)
  {
    forall nums :: IsSorting(nums, order(nums))
  }

  function Arrange<T>(items: seq<T>, p: seq<nat>): (r: seq<T>)
    requires |p| == |items| && forall i :: 0 <= i < |p| ==> p[i] < |items|
    ensures |r| == |items|
  {
    seq(|p|, i requires 0 <= i < |p| => items[p[i]])
  }

  // ---------- The extractor ----------

  /** A field to keep: its number and its bytes, tag included. */
  datatype Piece = Piece(num: nat, bytes: Bytes)

  /** `Nothing` is the early `return nil` on an unknown wire type.  `Stuck` is a slice out of range, or an offset
  moved backwards by a varint of more than 64 bits. */
  datatype Scan = Pieces(pieces: seq<Piece>) | Nothing | Stuck

  datatype Outcome = Done(content: Bytes) | Crashed

  datatype Extent = Extent(header: nat, length: nat) | UnknownWireType | NoExtent

  /** How many bytes after the tag belong to a field: a length prefix, then a value. */
  function ExtentOf(wireType: nat, s: Bytes): (r: Extent)
    ensures r.Extent? ==> r.header <= |s|
  {
    if wireType == WIRE_VARINT then
      match Uvarint(s)
      case Varint(_, n) => Extent(0, n)
      case Truncated => Extent(0, 0)
      case Overflow => NoExtent
    else if wireType == WIRE_64_BIT then Extent(0, 8)
    else if wireType == WIRE_BYTES then
      match Uvarint(s)
      case Varint(l, n) => if l < TWO_62 then Extent(n, l) else NoExtent
      case Truncated => Extent(0, 0)
      case Overflow => NoExtent
    else if wireType == WIRE_32_BIT then Extent(0, 4)
    else UnknownWireType
  }

  /** The first entry for a field number. */
  function ConfigFor(config: seq<FieldConfig>, num: nat): (r: Option<FieldConfig>)
    ensures r.Some? ==> r.value in config && r.value.number == num
    ensures r.None? <==> forall c | c in config :: c.number != num
  {
    if config == [] then None
    else if config[0].number == num then Some(config[0])
    else ConfigFor(config[1..], num)
  }

  predicate IsNested(c: FieldConfig)
  {
    c.isMessage || |c.subfields| > 0
  }

  function Prepend(pieces: seq<Piece>, r: Scan): Scan {
    match r
    case Pieces(more) => Pieces(pieces + more)
    case Nothing => Nothing
    case Stuck => Stuck
  }

  /** `spare` is what lies behind `s` in its backing array: a slice may reach into it, a read may not. */
  function ScanFields(order: Order, s: Bytes, spare: Bytes, config: seq<FieldConfig>): Scan
    requires Sorts(order)
    decreases |s| + |spare|, 0
  {
    if s == [] then Pieces([])
    else
      match Uvarint(s)
      case Truncated => Pieces([])
      case Overflow => Pieces([])
      case Varint(tag, tagLen) =>
        var num, wireType, body := tag / 8, tag % 8, s[tagLen..];
        match ExtentOf(wireType, body)
        case UnknownWireType => Nothing
        case NoExtent => Stuck
        case Extent(header, length) =>
          var end, reach := header + length, body + spare;
          match ConfigFor(config, num)
          case None => ScanRest(order, body, spare, end, config)
          case Some(c) =>
            if end > |reach| then Stuck
            else
              match PieceOf(order, tag, s[..tagLen] + reach[..end], wireType, reach[header..end], reach[end..], c)
              case Stuck => Stuck
              case Nothing => Nothing
              case Pieces(pieces) => Prepend(pieces, ScanRest(order, body, spare, end, config))
  }

  /** The loop goes on behind the field, unless that is the end or beyond. */
  function ScanRest(order: Order, body: Bytes, spare: Bytes, end: nat, config: seq<FieldConfig>): Scan
    requires Sorts(order)
    decreases |body| + |spare|, 3
  {
    if end >= |body| then Pieces([]) else ScanFields(order, body[end..], spare, config)
  }

  /** The piece of a configured field: its bytes, or a nested message filtered and measured anew. */
  function PieceOf(order: Order, tag: nat, whole: Bytes, wireType: nat, value: Bytes, beyond: Bytes, c: FieldConfig): Scan
    requires Sorts(order)
    decreases |value| + |beyond|, 2
  {
    if wireType == WIRE_BYTES && IsNested(c) then
      match Extract(order, value, beyond, c.subfields)
      case Crashed => Stuck
      case Done(sub) =>
        if |sub| > 0 then Pieces([Piece(tag / 8, PutUvarint(tag) + PutUvarint(|sub|) + sub)]) else Pieces([])
    else Pieces([Piece(tag / 8, whole)])
  }

  function Numbers(pieces: seq<Piece>): (r: seq<nat>)
    ensures |r| == |pieces|
  {
    seq(|pieces|, i requires 0 <= i < |pieces| => pieces[i].num)
  }

  function Concatenate(pieces: seq<Piece>): Bytes {
    if pieces == [] then [] else Concatenate(pieces[..|pieces| - 1]) + pieces[|pieces| - 1].bytes
  }

  function Sorted(order: Order, pieces: seq<Piece>): seq<Piece>
    requires Sorts(order)
  {
    assert IsSorting(Numbers(pieces), order(Numbers(pieces)));
    Arrange(pieces, order(Numbers(pieces)))
  }

  function Extract(order: Order, s: Bytes, spare: Bytes, config: seq<FieldConfig>): Outcome
    requires Sorts(order)
    decreases |s| + |spare|, 1
  {
    match ScanFields(order, s, spare, config)
    case Stuck => Crashed
    case Nothing => Done([])
    case Pieces(pieces) => Done(Concatenate(Sorted(order, pieces)))
  }

  // ---------- The loop ----------

  method GetConfigForField(config: seq<FieldConfig>, num: nat) returns (r: Option<FieldConfig>)
    ensures r == ConfigFor(config, num)
  {
    for i := 0 to |config|
      invariant ConfigFor(config, num) == ConfigFor(config[i..], num)
    {
      assert config[i..][1..] == config[i + 1..];
      if config[i].number == num {
        return Some(config[i]);
      }
    }
    return None;
  }

  method ExtractReportingTokenContent(order: Order, data: Bytes, spare: Bytes, config: seq<FieldConfig>)
    returns (r: Outcome)
    requires Sorts(order)
    ensures r == Extract(order, data, spare, config)
    decreases |data| + |spare|, 0
  {
    hide Sorts, Concatenate, Sorted, ExtentOf, ConfigFor, Uvarint, PieceOf;
    var fields: seq<Piece> := [];
    var i := 0;
    PrependNothing(ScanFields(order, data, spare, config));
    assert data[0..] == data;
    while i < |data|
      invariant i <= |data|
      invariant ScanFields(order, data, spare, config) == Prepend(fields, ScanFields(order, data[i..], spare, config))
      decreases |data| - i
    {
      var s := data[i..];
      var t := Uvarint(s);
      if !t.Varint? {
        assert ScanFields(order, s, spare, config) == Pieces([]);
        PrependDone(fields);
        break;
      }
      var tag, tagLen := t.value, t.n;
      var fieldNum, wireType := tag / 8, tag % 8;
      var body := data[i + tagLen..];
      assert body == s[tagLen..];
      var extent := ExtentOf(wireType, body);
      if extent.UnknownWireType? {
        return Done([]);
      }
      if extent.NoExtent? {
        return Crashed;
      }
      var end, reach := extent.header + extent.length, body + spare;
      var fieldCfg := GetConfigForField(config, fieldNum);
      if fieldCfg.Some? {
        if end > |reach| {
          return Crashed;
        }
        var found := PieceFound(order, tag, s[..tagLen] + reach[..end], wireType, reach[extent.header..end], reach[end..],
                                fieldCfg.value);
        if found.Stuck? {
          return Crashed;
        }
        if found.Nothing? {
          return Done([]);
        }
        PrependTwice(fields, found.pieces, ScanRest(order, body, spare, end, config));
        fields := fields + found.pieces;
      }
      assert ScanFields(order, data, spare, config) == Prepend(fields, ScanRest(order, body, spare, end, config));
      if end >= |body| {
        PrependDone(fields);
        i := |data|;
        break;
      }
      assert body[end..] == data[i + tagLen + end..];
      i := i + tagLen + end;
    }
    if i == |data| {
      assert data[i..] == [];
      PrependDone(fields);
    }
    return Done(Concatenate(Sorted(order, fields)));
  }

  method PieceFound(order: Order, tag: nat, whole: Bytes, wireType: nat, value: Bytes, beyond: Bytes, c: FieldConfig)
    returns (r: Scan)
    requires Sorts(order)
    ensures r == PieceOf(order, tag, whole, wireType, value, beyond, c)
    decreases |value| + |beyond|, 1
  {
    hide Sorts;
    if wireType == WIRE_BYTES && IsNested(c) {
      var sub := ExtractReportingTokenContent(order, value, beyond, c.subfields);
      if sub.Crashed? {
        r := Stuck;
      } else if |sub.content| > 0 {
        r := Pieces([Piece(tag / 8, PutUvarint(tag) + PutUvarint(|sub.content|) + sub.content)]);
      } else {
        r := Pieces([]);
      }
    } else {
      r := Pieces([Piece(tag / 8, whole)]);
    }
  }

  lemma OnePiece(order: Order, piece: Piece)
    requires Sorts(order)
    ensures Concatenate(Sorted(order, [piece])) == piece.bytes
  {
    var one := [piece];
    var p := order(Numbers(one));
    assert IsSorting(Numbers(one), p);
    assert Sorted(order, one) == one;
    assert one[..0] == [] && [] + piece.bytes == piece.bytes;
  }

  /** A kept 32-bit field cut off after its tag and whatever bytes there are. */
  lemma ScanTruncated(order: Order, body: Bytes, spare: Bytes)
    requires Sorts(order) && |body| < 4
    ensures var config := [FieldConfig(1, false, [])];
            ScanFields(order, [13] + body, spare, config)
            == if |body| + |spare| < 4 then Stuck else Pieces([Piece(1, [13] + (body + spare)[..4])])
  {
    hide Sorts, Sorted, Concatenate;
    var s: Bytes, config := [13] + body, [FieldConfig(1, false, [])];
    assert Uvarint(s) == Varint(13, 1) && s[1..] == body && s[..1] == [13];
    assert ConfigFor(config, 1) == Some(config[0]);
    if |body| + |spare| >= 4 {
      PrependDone([Piece(1, [13] + (body + spare)[..4])]);
    }
  }

  /** A truncated field that is kept takes in bytes from behind the message; the slice fails only where the backing
  array ends. */
  lemma TruncatedReachesBeyond(order: Order)
    requires Sorts(order)
    ensures var config := [FieldConfig(1, false, [])];
            && Extract(order, [13, 9], [], config) == Crashed
            && Extract(order, [13, 9], [1, 2, 3, 4], config) == Done([13, 9, 1, 2, 3])
  {
    hide Sorts, ScanFields, Sorted, Concatenate;
    ScanTruncated(order, [9], []);
    ScanTruncated(order, [9], [1, 2, 3, 4]);
    assert [13] + [9] == [13, 9];
    assert [13] + ([9] + [1, 2, 3, 4])[..4] == [13, 9, 1, 2, 3];
    OnePiece(order, Piece(1, [13, 9, 1, 2, 3]));
  }

  lemma PrependNothing(r: Scan)
    ensures Prepend([], r) == r
  {
    if r.Pieces? {
      assert [] + r.pieces == r.pieces;
    }
  }

  lemma PrependDone(pieces: seq<Piece>)
    ensures Prepend(pieces, Pieces([])) == Pieces(pieces)
  {
    assert pieces + [] == pieces;
  }

  lemma PrependTwice(a: seq<Piece>, b: seq<Piece>, r: Scan)
    ensures Prepend(a, Prepend(b, r)) == Prepend(a + b, r)
  {
    if r.Pieces? {
      assert a + (b + r.pieces) == a + b + r.pieces;
    }
  }
}
