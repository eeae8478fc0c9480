/** The extractor on well-formed messages: it is a projection of the message tree. */
module ReportingTree {
  import opened ByteStrings
  import opened Collections
  import opened ReportingToken

  datatype Payload =
    | VarintOf(value: nat)
    | Fixed64(bytes8: Bytes)
    | Fixed32(bytes4: Bytes)
    | Raw(bytes: Bytes)
    | Message(fields: seq<Field>)

  datatype Field = Field(num: nat, payload: Payload)

  function WireType(p: Payload): nat {
    match p
    case VarintOf(_) => WIRE_VARINT
    case Fixed64(_) => WIRE_64_BIT
    case Fixed32(_) => WIRE_32_BIT
    case Raw(_) => WIRE_BYTES
    case Message(_) => WIRE_BYTES
  }

  function Tag(f: Field): nat {
    f.num * 8 + WireType(f.payload)
  }

  function Measured(bytes: Bytes): (r: Bytes)
    ensures |r| > |bytes|
  {
    PutUvarint(|bytes|) + bytes
  }

  function EncodePayload(p: Payload): Bytes
    decreases p
  {
    match p
    case VarintOf(v) => PutUvarint(v)
    case Fixed64(bytes) => bytes
    case Fixed32(bytes) => bytes
    case Raw(bytes) => Measured(bytes)
    case Message(fields) => Measured(Encode(fields))
  }

  function EncodeField(f: Field): (r: Bytes)
    ensures |r| > 0
    decreases f
  {
    PutUvarint(Tag(f)) + EncodePayload(f.payload)
  }

  function Encode(fields: seq<Field>): (r: Bytes)
    ensures fields != [] ==> r != []
    decreases fields
  {
    if fields == [] then [] else EncodeField(fields[0]) + Encode(fields[1..])
  }

  /** Numbers and values fit their wire forms. */
  predicate WellFormed(fields: seq<Field>)
    decreases fields
  {
    forall f | f in fields :: WellFormedField(f)
  }

  predicate WellFormedField(f: Field)
    decreases f
  {
    && Tag(f) < ReportingToken.TWO_64
    && match f.payload
       case VarintOf(v) => v < ReportingToken.TWO_64
       case Fixed64(bytes) => |bytes| == 8
       case Fixed32(bytes) => |bytes| == 4
       case Raw(bytes) => |bytes| < TWO_62
       case Message(sub) => WellFormed(sub) && |Encode(sub)| < TWO_62
  }

  /** Where the configuration expects a message, the tree has one. */
  predicate Conforms(fields: seq<Field>, config: seq<FieldConfig>)
    decreases fields
  {
    forall f | f in fields :: ConformsField(f, config)
  }

  predicate ConformsField(f: Field, config: seq<FieldConfig>)
    decreases f
  {
    match ConfigFor(config, f.num)
    case None => true
    case Some(c) =>
      IsNested(c) && WireType(f.payload) == WIRE_BYTES ==> f.payload.Message? && Conforms(f.payload.fields, c.subfields)
  }

  // ---------- The projection ----------

  /** The configured fields, nested messages projected and dropped when nothing is left of them. */
  function Kept(order: Order, fields: seq<Field>, config: seq<FieldConfig>): seq<Field>
    requires Sorts(order)
    decreases fields, 1
  {
    if fields == [] then [] else KeptField(order, fields[0], config) + Kept(order, fields[1..], config)
  }

  function KeptField(order: Order, f: Field, config: seq<FieldConfig>): seq<Field>
    requires Sorts(order)
    decreases f, 1
  {
    match ConfigFor(config, f.num)
    case None => []
    case Some(c) =>
      if IsNested(c) && f.payload.Message? then
        var sub := Project(order, f.payload.fields, c.subfields);
        if sub == [] then [] else [Field(f.num, Message(sub))]
      else [f]
  }

  function FieldNumbers(fields: seq<Field>): (r: seq<nat>)
    ensures |r| == |fields|
  {
    seq(|fields|, i requires 0 <= i < |fields| => fields[i].num)
  }

  function SortedFields(order: Order, fields: seq<Field>): (r: seq<Field>)
    requires Sorts(order)
    ensures |r| == |fields|
  {
    assert IsSorting(FieldNumbers(fields), order(FieldNumbers(fields)));
    Arrange(fields, order(FieldNumbers(fields)))
  }

  function Project(order: Order, fields: seq<Field>, config: seq<FieldConfig>): seq<Field>
    requires Sorts(order)
    decreases fields, 2
  {
    SortedFields(order, Kept(order, fields, config))
  }

  // ---------- The extractor computes the projection ----------

  function PieceFor(f: Field): Piece {
    Piece(f.num, EncodeField(f))
  }

  function PiecesFor(fields: seq<Field>): (r: seq<Piece>)
    ensures |r| == |fields|
  {
    seq(|fields|, i requires 0 <= i < |fields| => PieceFor(fields[i]))
  }

  lemma PiecesAppend(a: seq<Field>, b: seq<Field>)
    ensures PiecesFor(a + b) == PiecesFor(a) + PiecesFor(b)
  {
  }

  lemma {:induction false} EncodeBack(fields: seq<Field>)
    requires fields != []
    ensures Encode(fields) == Encode(fields[..|fields| - 1]) + EncodeField(fields[|fields| - 1])
  {
    hide EncodeField;
    if |fields| == 1 {
      assert fields[1..] == [];
    } else {
      EncodeBack(fields[1..]);
      assert fields[1..][..|fields| - 2] == fields[..|fields| - 1][1..];
      Associate(EncodeField(fields[0]), Encode(fields[..|fields| - 1][1..]), EncodeField(fields[|fields| - 1]));
    }
  }

  lemma {:induction false} ConcatenatePieces(fields: seq<Field>)
    ensures Concatenate(PiecesFor(fields)) == Encode(fields)
  {
    hide EncodeField;
    if fields == [] {
    } else {
      var init := fields[..|fields| - 1];
      ConcatenatePieces(init);
      EncodeBack(fields);
      assert PiecesFor(fields)[..|fields| - 1] == PiecesFor(init);
    }
  }

  lemma SortedPieces(order: Order, fields: seq<Field>)
    requires Sorts(order)
    ensures Sorted(order, PiecesFor(fields)) == PiecesFor(SortedFields(order, fields))
  {
    assert Numbers(PiecesFor(fields)) == FieldNumbers(fields);
    var p := order(FieldNumbers(fields));
    assert IsSorting(FieldNumbers(fields), p);
  }

  lemma TagParts(f: Field)
    ensures Tag(f) / 8 == f.num && Tag(f) % 8 == WireType(f.payload)
  {
  }

  /** The extent of a well-formed payload is the payload. */
  lemma PayloadExtent(p: Payload, num: nat, rest: Bytes) returns (header: nat)
    requires WellFormedField(Field(num, p))
    ensures header <= |EncodePayload(p)|
    ensures ExtentOf(WireType(p), EncodePayload(p) + rest) == Extent(header, |EncodePayload(p)| - header)
    ensures p.Message? ==> EncodePayload(p)[header..] == Encode(p.fields)
  {
    hide Encode, PutUvarint, UvarintFrom, Uvarint;
    header := 0;
    match p
    case VarintOf(v) => ReadBackVarint(v, rest);
    case Fixed64(_) =>
    case Fixed32(_) =>
    case Raw(bytes) =>
      header := |PutUvarint(|bytes|)|;
      MeasuredExtent(bytes, rest);
    case Message(fields) =>
      header := |PutUvarint(|Encode(fields)|)|;
      MeasuredExtent(Encode(fields), rest);
  }

  lemma MeasuredExtent(bytes: Bytes, rest: Bytes)
    requires |bytes| < TWO_62
    ensures var header := |PutUvarint(|bytes|)|;
            && |Measured(bytes)| == header + |bytes| && Measured(bytes)[header..] == bytes
            && ExtentOf(WIRE_BYTES, Measured(bytes) + rest) == Extent(header, |bytes|)
  {
    hide PutUvarint, Uvarint;
    ReadBackVarint(|bytes|, bytes + rest);
    Associate(PutUvarint(|bytes|), bytes, rest);
  }

  /** Scanning one encoded field and what follows it. */
  lemma {:induction false} ScanFieldOf(order: Order, f: Field, rest: Bytes, spare: Bytes, config: seq<FieldConfig>)
    requires Sorts(order) && WellFormedField(f) && ConformsField(f, config)
    ensures ScanFields(order, EncodeField(f) + rest, spare, config)
         == Prepend(PiecesFor(KeptField(order, f, config)), ScanFields(order, rest, spare, config))
    decreases f, 1
  {
    var s, payload := EncodeField(f) + rest, EncodePayload(f.payload);
    var header := PayloadExtent(f.payload, f.num, rest);
    ReadBackVarint(Tag(f), payload + rest);
    TagParts(f);
    Associate(PutUvarint(Tag(f)), payload, rest);
    ScanOne(order, s, Tag(f), |PutUvarint(Tag(f))|, payload, rest, spare, header, config);
    match ConfigFor(config, f.num)
    case None =>
      PrependNothing(ScanFields(order, rest, spare, config));
      assert PiecesFor([]) == [];
    case Some(c) =>
      if IsNested(c) && f.payload.Message? {
        var sub := f.payload.fields;
        ExtractIsProjection(order, sub, rest + spare, c.subfields);
        NestedPiece(order, f, c);
      } else {
        assert PiecesFor([f]) == [PieceFor(f)];
      }
  }

  lemma NestedPiece(order: Order, f: Field, c: FieldConfig)
    requires Sorts(order) && f.payload.Message?
    ensures var sub := Project(order, f.payload.fields, c.subfields);
            && (sub == [] <==> Encode(sub) == [])
            && PiecesFor([Field(f.num, Message(sub))])
               == [Piece(f.num, PutUvarint(Tag(f)) + PutUvarint(|Encode(sub)|) + Encode(sub))]
  {
    hide Project, PutUvarint;
    var sub := Project(order, f.payload.fields, c.subfields);
    var g := Field(f.num, Message(sub));
    Associate(PutUvarint(Tag(f)), PutUvarint(|Encode(sub)|), Encode(sub));
    assert EncodeField(g) == PutUvarint(Tag(g)) + Measured(Encode(sub)) && Tag(g) == Tag(f);
    assert PiecesFor([g]) == [PieceFor(g)];
  }

  lemma ScanOne(order: Order, s: Bytes, tag: nat, tagLen: nat, payload: Bytes, rest: Bytes, spare: Bytes, header: nat,
                config: seq<FieldConfig>)
    requires Sorts(order) && s != [] && 0 < tagLen <= |s|
    requires Uvarint(s) == Varint(tag, tagLen) && s[tagLen..] == payload + rest
    requires header <= |payload| && ExtentOf(tag % 8, payload + rest) == Extent(header, |payload| - header)
    ensures ScanFields(order, s, spare, config)
         == match ConfigFor(config, tag / 8)
            case None => ScanFields(order, rest, spare, config)
            case Some(c) =>
              match PieceOf(order, tag, s[..tagLen + |payload|], tag % 8, payload[header..], rest + spare, c)
              case Stuck => Stuck
              case Nothing => Nothing
              case Pieces(pieces) => Prepend(pieces, ScanFields(order, rest, spare, config))
  {
    hide PieceOf, ExtentOf, Uvarint, ConfigFor, Sorts;
    ScanParts(s, tagLen, payload, rest, spare, header);
    assert ScanRest(order, payload + rest, spare, |payload|, config) == ScanFields(order, rest, spare, config);
  }

  lemma ScanParts(s: Bytes, tagLen: nat, payload: Bytes, rest: Bytes, spare: Bytes, header: nat)
    requires tagLen <= |s| && s[tagLen..] == payload + rest && header <= |payload|
    ensures var reach := (payload + rest) + spare;
            && (payload + rest)[|payload|..] == rest && reach[|payload|..] == rest + spare
            && reach[header..|payload|] == payload[header..]
            && s[..tagLen] + reach[..|payload|] == s[..tagLen + |payload|]
  {
    var reach := (payload + rest) + spare;
    assert s == s[..tagLen] + (payload + rest) && reach[..|payload|] == payload;
  }

  lemma {:induction false} ScanEncoded(order: Order, fields: seq<Field>, spare: Bytes, config: seq<FieldConfig>)
    requires Sorts(order) && WellFormed(fields) && Conforms(fields, config)
    ensures ScanFields(order, Encode(fields), spare, config) == Pieces(PiecesFor(Kept(order, fields, config)))
    decreases fields, 1
  {
    hide Sorts, EncodeField, KeptField, WellFormedField, ConformsField;
    if fields == [] {
      assert PiecesFor(Kept(order, fields, config)) == [];
    } else {
      assert fields[0] in fields;
      ScanEncoded(order, fields[1..], spare, config);
      ScanFieldOf(order, fields[0], Encode(fields[1..]), spare, config);
      PiecesAppend(KeptField(order, fields[0], config), Kept(order, fields[1..], config));
    }
  }

  /** On the encoding of any well-formed message that fits the configuration, whatever lies behind it, the extractor
  returns the encoding of its projection.  It never leaves the message, and its offset always moves forward. */
  lemma {:induction false} ExtractIsProjection(order: Order, fields: seq<Field>, spare: Bytes, config: seq<FieldConfig>)
    requires Sorts(order) && WellFormed(fields) && Conforms(fields, config)
    ensures Extract(order, Encode(fields), spare, config) == Done(Encode(Project(order, fields, config)))
    decreases fields, 2
  {
    hide Sorts, Encode, Kept, ScanFields, Sorted, SortedFields, Concatenate;
    ScanEncoded(order, fields, spare, config);
    SortedPieces(order, Kept(order, fields, config));
    ConcatenatePieces(Project(order, fields, config));
  }

  // ---------- What a projection is ----------

  /** The fields of a message without their order, at every level. */
  datatype Shape = Leaf(num: nat, payload: Payload) | Nested(num: nat, fields: multiset<Shape>)

  function ShapeOf(f: Field): Shape
    decreases f
  {
    if f.payload.Message? then Nested(f.num, ShapesOf(f.payload.fields)) else Leaf(f.num, f.payload)
  }

  function ShapesOf(fields: seq<Field>): (r: multiset<Shape>)
    ensures |r| == |fields|
    decreases fields
  {
    if fields == [] then multiset{} else multiset{ShapeOf(fields[0])} + ShapesOf(fields[1..])
  }

  lemma {:induction false} ShapesAppend(a: seq<Field>, b: seq<Field>)
    ensures ShapesOf(a + b) == ShapesOf(a) + ShapesOf(b)
  {
    hide ShapeOf;
    if a == [] {
      assert a + b == b;
    } else {
      assert (a + b)[1..] == a[1..] + b;
      ShapesAppend(a[1..], b);
    }
  }

  function ShapeSeq(fields: seq<Field>): (r: seq<Shape>)
    ensures |r| == |fields|
  {
    seq(|fields|, i requires 0 <= i < |fields| => ShapeOf(fields[i]))
  }

  lemma {:induction false} ShapesAreSeq(fields: seq<Field>)
    ensures ShapesOf(fields) == multiset(ShapeSeq(fields))
  {
    hide ShapeOf;
    if fields != [] {
      ShapesAreSeq(fields[1..]);
      assert ShapeSeq(fields) == [ShapeOf(fields[0])] + ShapeSeq(fields[1..]);
    }
  }

  predicate IsPermutation(p: seq<nat>)
  {
    && (forall i :: 0 <= i < |p| ==> p[i] < |p|)
    && forall i, j :: 0 <= i < j < |p| ==> p[i] != p[j]
  }

  lemma {:induction false} DistinctSize<T>(s: seq<T>)
    requires forall i, j :: 0 <= i < j < |s| ==> s[i] != s[j]
    ensures |set x | x in s| == |s|
  {
    if s != [] {
      var init, last := s[..|s| - 1], s[|s| - 1];
      DistinctSize(init);
      assert s == init + [last];
      assert (set x | x in s) == (set x | x in init) + {last};
    }
  }

  /** The numbers below n. */
  function Below(n: nat): (r: set<nat>)
    ensures forall i: nat :: i in r <==> i < n
    ensures |r| == n
  {
    if n == 0 then {} else Below(n - 1) + {n - 1}
  }

  lemma LastIndexOccurs(p: seq<nat>) returns (k: nat)
    requires IsPermutation(p) && p != []
    ensures k < |p| && p[k] == |p| - 1
  {
    DistinctSize(p);
    if |p| - 1 !in p {
      SubsetSize((set x | x in p), Below(|p| - 1));
      assert false;
    }
    k :| k < |p| && p[k] == |p| - 1;
  }

  lemma {:induction false} ArrangeMultiset<T>(s: seq<T>, p: seq<nat>)
    requires IsPermutation(p) && |p| == |s|
    ensures multiset(Arrange(s, p)) == multiset(s)
    decreases |s|
  {
    if s == [] {
    } else {
      var k := LastIndexOccurs(p);
      var p', s' := p[..k] + p[k + 1..], s[..|s| - 1];
      assert IsPermutation(p');
      ArrangeMultiset(s', p');
      var r := Arrange(s, p);
      assert Arrange(s', p') == r[..k] + r[k + 1..];
      assert r == r[..k] + [s[|s| - 1]] + r[k + 1..];
      assert s == s' + [s[|s| - 1]];
    }
  }

  lemma SortedShapes(order: Order, fields: seq<Field>)
    requires Sorts(order)
    ensures ShapesOf(SortedFields(order, fields)) == ShapesOf(fields)
  {
    var p := order(FieldNumbers(fields));
    assert IsSorting(FieldNumbers(fields), p);
    ArrangedShapes(fields, p);
  }

  lemma ArrangedShapes(fields: seq<Field>, p: seq<nat>)
    requires IsPermutation(p) && |p| == |fields|
    ensures ShapesOf(Arrange(fields, p)) == ShapesOf(fields)
  {
    hide ShapesOf, ShapeOf;
    ShapesAreSeq(fields);
    ShapesAreSeq(Arrange(fields, p));
    assert ShapeSeq(Arrange(fields, p)) == Arrange(ShapeSeq(fields), p);
    ArrangeMultiset(ShapeSeq(fields), p);
  }

  predicate SortedByNumber(fields: seq<Field>)
  {
    forall i, j :: 0 <= i < j < |fields| ==> fields[i].num <= fields[j].num
  }

  /** The fields that are kept, in their original order: the projection without the sort. */
  function Filtered(fields: seq<Field>, config: seq<FieldConfig>): seq<Field>
    decreases fields, 1
  {
    if fields == [] then [] else FilteredField(fields[0], config) + Filtered(fields[1..], config)
  }

  function FilteredField(f: Field, config: seq<FieldConfig>): seq<Field>
    decreases f, 1
  {
    match ConfigFor(config, f.num)
    case None => []
    case Some(c) =>
      if IsNested(c) && f.payload.Message? then
        var sub := Filtered(f.payload.fields, c.subfields);
        if sub == [] then [] else [Field(f.num, Message(sub))]
      else [f]
  }

  /** A projection is sorted by field number and otherwise the filtered message. */
  lemma {:induction false} ProjectIsFiltered(order: Order, fields: seq<Field>, config: seq<FieldConfig>)
    requires Sorts(order)
    ensures SortedByNumber(Project(order, fields, config))
    ensures ShapesOf(Project(order, fields, config)) == ShapesOf(Filtered(fields, config))
    decreases fields, 2
  {
    hide Kept, Filtered, ShapesOf;
    var kept := Kept(order, fields, config);
    assert IsSorting(FieldNumbers(kept), order(FieldNumbers(kept)));
    SortedShapes(order, kept);
    KeptIsFiltered(order, fields, config);
  }

  lemma {:induction false} KeptIsFiltered(order: Order, fields: seq<Field>, config: seq<FieldConfig>)
    requires Sorts(order)
    ensures ShapesOf(Kept(order, fields, config)) == ShapesOf(Filtered(fields, config))
    decreases fields, 1
  {
    hide Sorts, KeptField, FilteredField, ShapeOf;
    if fields != [] {
      KeptFieldIsFiltered(order, fields[0], config);
      KeptIsFiltered(order, fields[1..], config);
      ShapesAppend(KeptField(order, fields[0], config), Kept(order, fields[1..], config));
      ShapesAppend(FilteredField(fields[0], config), Filtered(fields[1..], config));
    }
  }

  lemma {:induction false} KeptFieldIsFiltered(order: Order, f: Field, config: seq<FieldConfig>)
    requires Sorts(order)
    ensures ShapesOf(KeptField(order, f, config)) == ShapesOf(FilteredField(f, config))
    decreases f, 2
  {
    hide Sorts, Project, Filtered;
    match ConfigFor(config, f.num)
    case None =>
    case Some(c) =>
      if IsNested(c) && f.payload.Message? {
        ProjectIsFiltered(order, f.payload.fields, c.subfields);
        OneShape(Field(f.num, Message(Project(order, f.payload.fields, c.subfields))));
        OneShape(Field(f.num, Message(Filtered(f.payload.fields, c.subfields))));
      }
  }

  lemma OneShape(f: Field)
    ensures ShapesOf([f]) == multiset{ShapeOf(f)}
  {
  }

  // ---------- Filtering twice, and filtering equal messages ----------

  lemma {:induction false} FilterTwice(fields: seq<Field>, config: seq<FieldConfig>)
    ensures Filtered(Filtered(fields, config), config) == Filtered(fields, config)
    decreases fields, 1
  {
    hide FilteredField;
    if fields != [] {
      FilterFieldTwice(fields[0], config);
      FilterTwice(fields[1..], config);
      FilterAppend(FilteredField(fields[0], config), Filtered(fields[1..], config), config);
    }
  }

  lemma {:induction false} FilterFieldTwice(f: Field, config: seq<FieldConfig>)
    ensures Filtered(FilteredField(f, config), config) == FilteredField(f, config)
    decreases f, 2
  {
    match ConfigFor(config, f.num)
    case None =>
    case Some(c) =>
      if IsNested(c) && f.payload.Message? {
        hide Filtered;
        FilterTwice(f.payload.fields, c.subfields);
        var sub := Filtered(f.payload.fields, c.subfields);
        if sub == [] {
          FilterNothing(config);
        } else {
          FilterOne(Field(f.num, Message(sub)), config);
        }
      } else {
        FilterOne(f, config);
      }
  }

  lemma FilterNothing(config: seq<FieldConfig>)
    ensures Filtered([], config) == []
  {
  }

  lemma FilterOne(f: Field, config: seq<FieldConfig>)
    ensures Filtered([f], config) == FilteredField(f, config)
  {
    hide FilteredField;
    FilterNothing(config);
    assert [f][1..] == [];
    assert FilteredField(f, config) + [] == FilteredField(f, config);
  }

  lemma {:induction false} FilterAppend(a: seq<Field>, b: seq<Field>, config: seq<FieldConfig>)
    ensures Filtered(a + b, config) == Filtered(a, config) + Filtered(b, config)
  {
    hide FilteredField;
    if a == [] {
      assert a + b == b;
    } else {
      assert (a + b)[1..] == a[1..] + b;
      FilterAppend(a[1..], b, config);
    }
  }

  /** Taking one field out of a message. */
  lemma FindShape(fields: seq<Field>, shape: Shape) returns (k: nat)
    requires shape in ShapesOf(fields)
    ensures k < |fields| && ShapeOf(fields[k]) == shape
    ensures ShapesOf(fields) == ShapesOf(fields[..k] + fields[k + 1..]) + multiset{shape}
  {
    hide ShapesOf, ShapeOf;
    ShapesAreSeq(fields);
    k :| 0 <= k < |fields| && ShapeSeq(fields)[k] == shape;
    ShapesWithout(fields, k);
  }

  lemma ShapesWithout(fields: seq<Field>, k: nat)
    requires k < |fields|
    ensures ShapesOf(fields) == ShapesOf(fields[..k] + fields[k + 1..]) + multiset{ShapeOf(fields[k])}
  {
    hide *;
    Around(fields, k);
    ShapesAround(fields[..k], fields[k], fields[k + 1..]);
  }

  lemma Around<T>(s: seq<T>, k: nat)
    requires k < |s|
    ensures s == s[..k] + [s[k]] + s[k + 1..]
  {
  }

  lemma ShapesAround(before: seq<Field>, f: Field, after: seq<Field>)
    ensures ShapesOf(before + [f] + after) == ShapesOf(before + after) + multiset{ShapeOf(f)}
  {
    hide *;
    ShapesAppend(before + [f], after);
    ShapesAppend(before, [f]);
    ShapesAppend(before, after);
    OneShape(f);
    MoveLast(ShapesOf(before), multiset{ShapeOf(f)}, ShapesOf(after));
  }

  lemma MoveLast<T>(a: multiset<T>, b: multiset<T>, c: multiset<T>)
    ensures a + b + c == (a + c) + b
  {
  }

  /** What is kept of a message depends only on its fields, not on their order. */
  lemma {:induction false} FilterRespectsShapes(a: seq<Field>, b: seq<Field>, config: seq<FieldConfig>)
    requires ShapesOf(a) == ShapesOf(b)
    ensures ShapesOf(Filtered(a, config)) == ShapesOf(Filtered(b, config))
    decreases a, 1
  {
    hide FilteredField, ShapeOf;
    if a == [] {
      assert |ShapesOf(b)| == 0;
    } else {
      assert ShapeOf(a[0]) in ShapesOf(a);
      var k := FindShape(b, ShapeOf(a[0]));
      var b' := b[..k] + b[k + 1..];
      assert ShapesOf(a[1..]) == ShapesOf(b') by {
        CancelOne(ShapesOf(a[1..]), ShapesOf(b'), ShapeOf(a[0]));
      }
      FilterRespectsShapes(a[1..], b', config);
      FilterFieldRespectsShape(a[0], b[k], config);
      FilterTakenOut(b, k, config);
      ShapesAppend(FilteredField(a[0], config), Filtered(a[1..], config));
    }
  }

  lemma FilterTakenOut(b: seq<Field>, k: nat, config: seq<FieldConfig>)
    requires k < |b|
    ensures ShapesOf(Filtered(b, config))
         == ShapesOf(FilteredField(b[k], config)) + ShapesOf(Filtered(b[..k] + b[k + 1..], config))
  {
    hide Filtered, FilteredField, ShapesOf;
    var head, tail := b[..k], b[k + 1..];
    assert b == (head + [b[k]]) + tail;
    FilterAppend(head + [b[k]], tail, config);
    FilterAppend(head, [b[k]], config);
    FilterAppend(head, tail, config);
    FilterOne(b[k], config);
    ShapesAppend(Filtered(head, config) + FilteredField(b[k], config), Filtered(tail, config));
    ShapesAppend(Filtered(head, config), FilteredField(b[k], config));
    ShapesAppend(Filtered(head, config), Filtered(tail, config));
  }

  lemma {:induction false} FilterFieldRespectsShape(f: Field, g: Field, config: seq<FieldConfig>)
    requires ShapeOf(f) == ShapeOf(g)
    ensures ShapesOf(FilteredField(f, config)) == ShapesOf(FilteredField(g, config))
    decreases f, 2
  {
    hide Filtered;
    assert f.num == g.num && (f.payload.Message? <==> g.payload.Message?);
    match ConfigFor(config, f.num)
    case None =>
    case Some(c) =>
      if IsNested(c) && f.payload.Message? {
        FilterRespectsShapes(f.payload.fields, g.payload.fields, c.subfields);
        OneShape(Field(f.num, Message(Filtered(f.payload.fields, c.subfields))));
        OneShape(Field(g.num, Message(Filtered(g.payload.fields, c.subfields))));
      } else {
        OneShape(f);
        OneShape(g);
      }
  }

  /** Extraction is idempotent up to the order of equal-numbered fields, whatever the two sorts do with those. */
  lemma ProjectTwice(first: Order, second: Order, fields: seq<Field>, config: seq<FieldConfig>)
    requires Sorts(first) && Sorts(second)
    ensures ShapesOf(Project(second, Project(first, fields, config), config)) == ShapesOf(Project(first, fields, config))
  {
    hide Project, Filtered, ShapesOf;
    var once := Project(first, fields, config);
    ProjectIsFiltered(first, fields, config);
    ProjectIsFiltered(second, once, config);
    FilterRespectsShapes(once, Filtered(fields, config), config);
    FilterTwice(fields, config);
  }

  /** Only the configured part of a message counts: two messages whose filtered forms have the same fields are
  extracted alike, whatever unconfigured fields they have and however their fields are ordered. */
  lemma OnlyFilteredCounts(first: Order, second: Order, a: seq<Field>, b: seq<Field>, config: seq<FieldConfig>)
    requires Sorts(first) && Sorts(second)
    ensures ShapesOf(Project(first, a, config)) == ShapesOf(Project(second, b, config))
            <==> ShapesOf(Filtered(a, config)) == ShapesOf(Filtered(b, config))
  {
    ProjectIsFiltered(first, a, config);
    ProjectIsFiltered(second, b, config);
  }

  /** The filter drops a field the configuration does not name, wherever it stands. */
  lemma FilterDrops(before: seq<Field>, f: Field, after: seq<Field>, config: seq<FieldConfig>)
    requires ConfigFor(config, f.num).None?
    ensures Filtered(before + [f] + after, config) == Filtered(before + after, config)
  {
    hide Filtered, ConfigFor;
    FilterAppend(before + [f], after, config);
    FilterAppend(before, [f], config);
    FilterAppend(before, after, config);
    FilterOne(f, config);
    assert Filtered(before, config) + [] == Filtered(before, config);
  }

  lemma {:induction false} KeptAppend(order: Order, a: seq<Field>, b: seq<Field>, config: seq<FieldConfig>)
    requires Sorts(order)
    ensures Kept(order, a + b, config) == Kept(order, a, config) + Kept(order, b, config)
  {
    hide Sorts, KeptField;
    if a == [] {
      assert a + b == b;
    } else {
      assert (a + b)[1..] == a[1..] + b;
      KeptAppend(order, a[1..], b, config);
    }
  }

  lemma KeptOne(order: Order, f: Field, config: seq<FieldConfig>)
    requires Sorts(order)
    ensures Kept(order, [f], config) == KeptField(order, f, config)
  {
    hide Sorts, KeptField;
    assert [f][1..] == [];
    assert KeptField(order, f, config) + [] == KeptField(order, f, config);
  }

  lemma ProjectNothing(order: Order, config: seq<FieldConfig>)
    requires Sorts(order)
    ensures Project(order, [], config) == [] && Kept(order, [], config) == []
  {
    hide Sorts;
  }

  /** Filtering first, at every level, changes nothing: the list of numbers that is sorted is the same. */
  lemma {:induction false} ProjectOfFiltered(order: Order, fields: seq<Field>, config: seq<FieldConfig>)
    requires Sorts(order)
    ensures Project(order, Filtered(fields, config), config) == Project(order, fields, config)
    decreases fields, 2
  {
    hide Sorts, Kept, Filtered, SortedFields;
    KeptOfFiltered(order, fields, config);
  }

  lemma {:induction false} KeptOfFiltered(order: Order, fields: seq<Field>, config: seq<FieldConfig>)
    requires Sorts(order)
    ensures Kept(order, Filtered(fields, config), config) == Kept(order, fields, config)
    decreases fields, 1
  {
    hide Sorts, KeptField, FilteredField;
    if fields != [] {
      KeptFieldOfFiltered(order, fields[0], config);
      KeptOfFiltered(order, fields[1..], config);
      KeptAppend(order, FilteredField(fields[0], config), Filtered(fields[1..], config), config);
    }
  }

  lemma {:induction false} KeptFieldOfFiltered(order: Order, f: Field, config: seq<FieldConfig>)
    requires Sorts(order)
    ensures Kept(order, FilteredField(f, config), config) == KeptField(order, f, config)
    decreases f, 2
  {
    hide Sorts, Project, Filtered, Kept;
    ProjectNothing(order, config);
    match ConfigFor(config, f.num)
    case None =>
    case Some(c) =>
      if IsNested(c) && f.payload.Message? {
        var sub := Filtered(f.payload.fields, c.subfields);
        ProjectOfFiltered(order, f.payload.fields, c.subfields);
        ProjectNothing(order, c.subfields);
        KeptOne(order, Field(f.num, Message(sub)), config);
      } else {
        KeptOne(order, f, config);
      }
  }

  /** Two messages with the same filtered form, whatever unconfigured fields they hold at whatever level, and however
  often a kept number repeats, are extracted to the same bytes. */
  lemma SameFilterSameBytes(order: Order, a: seq<Field>, x: Bytes, b: seq<Field>, y: Bytes, config: seq<FieldConfig>)
    requires Sorts(order) && Filtered(a, config) == Filtered(b, config)
    requires WellFormed(a) && Conforms(a, config) && WellFormed(b) && Conforms(b, config)
    ensures Extract(order, Encode(a), x, config) == Extract(order, Encode(b), y, config)
  {
    hide Sorts, Encode, Project, Extract, WellFormed, Conforms, Filtered;
    ExtractIsProjection(order, a, x, config);
    ExtractIsProjection(order, b, y, config);
    ProjectOfFiltered(order, a, config);
    ProjectOfFiltered(order, b, config);
  }

  lemma WithoutField(before: seq<Field>, f: Field, after: seq<Field>, config: seq<FieldConfig>)
    requires WellFormed(before + [f] + after) && Conforms(before + [f] + after, config)
    ensures WellFormed(before + after) && Conforms(before + after, config)
  {
    hide WellFormedField, ConformsField;
  }

  /** Adding or removing a field the configuration does not name leaves the extracted bytes as they are; so does
  altering one, which is removing it and adding another. */
  lemma UnconfiguredIsInvisible(order: Order, before: seq<Field>, f: Field, after: seq<Field>, x: Bytes, y: Bytes,
                                config: seq<FieldConfig>)
    requires Sorts(order) && ConfigFor(config, f.num).None?
    requires WellFormed(before + [f] + after) && Conforms(before + [f] + after, config)
    ensures Extract(order, Encode(before + [f] + after), x, config) == Extract(order, Encode(before + after), y, config)
  {
    hide Sorts, Encode, Extract, WellFormed, Conforms, Filtered, ConfigFor;
    FilterDrops(before, f, after, config);
    WithoutField(before, f, after, config);
    SameFilterSameBytes(order, before + [f] + after, x, before + after, y, config);
  }

  // ---------- Byte for byte ----------

  predicate Increasing(fields: seq<Field>)
  {
    forall i, j :: 0 <= i < j < |fields| ==> fields[i].num < fields[j].num
  }

  /** Field numbers strictly increase, at every level. */
  predicate StrictlySorted(fields: seq<Field>)
    decreases fields
  {
    Increasing(fields) && forall f | f in fields :: StrictlySortedInside(f)
  }

  predicate StrictlySortedInside(f: Field)
    decreases f
  {
    f.payload.Message? ==> StrictlySorted(f.payload.fields)
  }

  lemma StrictlySortedParts(fields: seq<Field>)
    requires StrictlySorted(fields) && fields != []
    ensures StrictlySortedInside(fields[0]) && StrictlySorted(fields[1..])
  {
    hide StrictlySortedInside;
    assert fields[0] in fields;
    assert Increasing(fields[1..]);
  }

  /** Messages with the same fields and strictly increasing numbers are the same, byte for byte. */
  lemma {:induction false} StrictlySortedUnique(a: seq<Field>, b: seq<Field>)
    requires StrictlySorted(a) && StrictlySorted(b) && ShapesOf(a) == ShapesOf(b)
    ensures a == b
    decreases a
  {
    hide *;
    SameLength(a, b);
    if a == [] {
    } else {
      SameFirst(a, b);
      StrictlySortedParts(a);
      StrictlySortedParts(b);
      SameField(a[0], b[0]);
      ShapesOfFirst(a);
      ShapesOfFirst(b);
      CancelOne(ShapesOf(a[1..]), ShapesOf(b[1..]), ShapeOf(a[0]));
      StrictlySortedUnique(a[1..], b[1..]);
      assert a == [a[0]] + a[1..] && b == [b[0]] + b[1..];
    }
  }

  lemma {:induction false} SameField(f: Field, g: Field)
    requires StrictlySortedInside(f) && StrictlySortedInside(g) && ShapeOf(f) == ShapeOf(g)
    ensures f == g
    decreases f
  {
    hide StrictlySorted, ShapesOf;
    if f.payload.Message? {
      StrictlySortedUnique(f.payload.fields, g.payload.fields);
    }
  }

  lemma SameLength(a: seq<Field>, b: seq<Field>)
    requires ShapesOf(a) == ShapesOf(b)
    ensures |a| == |b|
  {
    assert |ShapesOf(a)| == |ShapesOf(b)|;
  }

  lemma ShapesOfFirst(a: seq<Field>)
    requires a != []
    ensures ShapesOf(a) == ShapesOf(a[1..]) + multiset{ShapeOf(a[0])}
  {
    hide ShapeOf;
  }

  /** The field of b with the shape of a's first, and its number. */
  lemma SmallestFirst(a: seq<Field>, b: seq<Field>) returns (k: nat)
    requires Increasing(a) && a != [] && ShapesOf(a) == ShapesOf(b)
    ensures k < |a| && b != [] && ShapeOf(a[k]) == ShapeOf(b[0]) && a[k].num == b[0].num && a[0].num <= a[k].num
  {
    hide StrictlySorted, StrictlySortedInside;
    SameLength(a, b);
    ShapesOfFirst(b);
    assert ShapeOf(b[0]) in ShapesOf(b);
    k := FindShape(a, ShapeOf(b[0]));
  }

  lemma SortedIncreases(a: seq<Field>)
    requires StrictlySorted(a)
    ensures Increasing(a)
  {
    hide Increasing, StrictlySortedInside;
  }

  lemma SameFirst(a: seq<Field>, b: seq<Field>)
    requires StrictlySorted(a) && StrictlySorted(b) && a != [] && b != [] && ShapesOf(a) == ShapesOf(b)
    ensures ShapeOf(a[0]) == ShapeOf(b[0])
  {
    hide StrictlySorted, StrictlySortedInside, ShapesOf, ShapeOf;
    SortedIncreases(a);
    SortedIncreases(b);
    var k := SmallestFirst(a, b);
    var l := SmallestFirst(b, a);
    assert k == 0;
  }

  // ---------- Extracting from what was extracted ----------

  lemma {:induction false} EncodeAppend(a: seq<Field>, b: seq<Field>)
    ensures Encode(a + b) == Encode(a) + Encode(b)
  {
    hide EncodeField;
    if a == [] {
      assert a + b == b;
    } else {
      assert (a + b)[1..] == a[1..] + b;
      EncodeAppend(a[1..], b);
      Associate(EncodeField(a[0]), Encode(a[1..]), Encode(b));
    }
  }

  lemma EncodeOne(f: Field)
    ensures Encode([f]) == EncodeField(f)
  {
    hide EncodeField;
    assert [f][1..] == [];
    assert EncodeField(f) + [] == EncodeField(f);
  }

  lemma EncodeSplit(a: seq<Field>, f: Field, b: seq<Field>)
    ensures |Encode(a + [f] + b)| == |Encode(a)| + |EncodeField(f)| + |Encode(b)|
  {
    hide *;
    EncodeAppend(a + [f], b);
    EncodeAppend(a, [f]);
    EncodeOne(f);
  }

  /** Rearranging fields does not change how long they are. */
  lemma {:induction false} ArrangedLength(s: seq<Field>, p: seq<nat>)
    requires IsPermutation(p) && |p| == |s|
    ensures |Encode(Arrange(s, p))| == |Encode(s)|
    decreases |s|
  {
    hide Encode, EncodeField;
    if s == [] {
      assert Arrange(s, p) == s;
    } else {
      var k := LastIndexOccurs(p);
      var p', s', last := p[..k] + p[k + 1..], s[..|s| - 1], s[|s| - 1];
      assert IsPermutation(p');
      ArrangedLength(s', p');
      var r := Arrange(s, p);
      assert Arrange(s', p') == r[..k] + r[k + 1..];
      assert r == r[..k] + [last] + r[k + 1..] && s == s' + [last] + [];
      EncodeSplit(r[..k], last, r[k + 1..]);
      EncodeSplit(s', last, []);
      EncodeAppend(r[..k], r[k + 1..]);
      EncodeNothing();
    }
  }

  lemma EncodeNothing()
    ensures Encode([]) == []
  {
  }

  lemma SortedKeeps(order: Order, fields: seq<Field>)
    requires Sorts(order)
    ensures |Encode(SortedFields(order, fields))| == |Encode(fields)|
    ensures forall f :: f in SortedFields(order, fields) ==> f in fields
  {
    hide Encode;
    var p := order(FieldNumbers(fields));
    assert IsSorting(FieldNumbers(fields), p);
    assert IsPermutation(p);
    ArrangedLength(fields, p);
  }

  lemma {:induction false} ShorterVarint(v: nat, w: nat)
    requires v <= w
    ensures |PutUvarint(v)| <= |PutUvarint(w)|
  {
    if v >= 128 {
      assert v / 128 <= w / 128;
      ShorterVarint(v / 128, w / 128);
    }
  }

  /** A projection is well formed, fits the configuration, and is no longer than the message. */
  ghost predicate Fits(kept: seq<Field>, bound: nat, config: seq<FieldConfig>)
  {
    WellFormed(kept) && Conforms(kept, config) && |Encode(kept)| <= bound
  }

  lemma FitsAppend(a: seq<Field>, m: nat, b: seq<Field>, n: nat, config: seq<FieldConfig>)
    requires Fits(a, m, config) && Fits(b, n, config)
    ensures Fits(a + b, m + n, config)
  {
    hide Encode, WellFormedField, ConformsField;
    EncodeAppend(a, b);
  }

  lemma {:induction false} ProjectFits(order: Order, fields: seq<Field>, config: seq<FieldConfig>)
    requires Sorts(order) && WellFormed(fields) && Conforms(fields, config)
    ensures Fits(Project(order, fields, config), |Encode(fields)|, config)
    decreases fields, 2
  {
    hide Encode, WellFormedField, ConformsField, SortedFields, Sorts, Kept;
    KeptFits(order, fields, config);
    SortedKeeps(order, Kept(order, fields, config));
  }

  lemma {:induction false} KeptFits(order: Order, fields: seq<Field>, config: seq<FieldConfig>)
    requires Sorts(order) && WellFormed(fields) && Conforms(fields, config)
    ensures Fits(Kept(order, fields, config), |Encode(fields)|, config)
    decreases fields, 1
  {
    hide EncodeField, WellFormedField, ConformsField, Sorts, KeptField;
    if fields != [] {
      assert fields[0] in fields;
      KeptFieldFits(order, fields[0], config);
      KeptFits(order, fields[1..], config);
      FitsAppend(KeptField(order, fields[0], config), |EncodeField(fields[0])|,
                 Kept(order, fields[1..], config), |Encode(fields[1..])|, config);
    }
  }

  lemma {:induction false} KeptFieldFits(order: Order, f: Field, config: seq<FieldConfig>)
    requires Sorts(order) && WellFormedField(f) && ConformsField(f, config)
    ensures Fits(KeptField(order, f, config), |EncodeField(f)|, config)
    decreases f, 1
  {
    hide Encode, EncodeField, Project, Sorts, WellFormed, Conforms, PutUvarint;
    EncodeNothing();
    NothingFits(config);
    match ConfigFor(config, f.num)
    case None =>
    case Some(c) =>
      if IsNested(c) && f.payload.Message? {
        var sub := Project(order, f.payload.fields, c.subfields);
        ProjectFits(order, f.payload.fields, c.subfields);
        FitsParts(sub, |Encode(f.payload.fields)|, c.subfields);
        if sub != [] {
          var g := Field(f.num, Message(sub));
          ShorterField(f, g);
          OneFits(g, |EncodeField(f)|, config);
        }
      } else {
        OneFits(f, |EncodeField(f)|, config);
      }
  }

  lemma FitsParts(kept: seq<Field>, bound: nat, config: seq<FieldConfig>)
    requires Fits(kept, bound, config)
    ensures WellFormed(kept) && Conforms(kept, config) && |Encode(kept)| <= bound
  {
    hide WellFormed, Conforms, Encode;
  }

  lemma NothingFits(config: seq<FieldConfig>)
    ensures forall n: nat :: Fits([], n, config)
  {
  }

  lemma OneFits(f: Field, bound: nat, config: seq<FieldConfig>)
    requires WellFormedField(f) && ConformsField(f, config) && |EncodeField(f)| <= bound
    ensures Fits([f], bound, config)
  {
    hide WellFormedField, ConformsField, EncodeField, Encode;
    EncodeOne(f);
  }

  lemma ShorterField(f: Field, g: Field)
    requires f.payload.Message? && g.payload.Message? && f.num == g.num
    requires |Encode(g.payload.fields)| <= |Encode(f.payload.fields)|
    ensures |EncodeField(g)| <= |EncodeField(f)|
  {
    hide Encode, PutUvarint;
    ShorterVarint(|Encode(g.payload.fields)|, |Encode(f.payload.fields)|);
  }

  /** Extracting twice: the second extraction, whatever it does with equal numbers, keeps every field. */
  lemma ExtractTwice(first: Order, second: Order, fields: seq<Field>, x: Bytes, y: Bytes, config: seq<FieldConfig>)
    requires Sorts(first) && Sorts(second) && WellFormed(fields) && Conforms(fields, config)
    ensures var once := Project(first, fields, config); var twice := Project(second, once, config);
            && Extract(first, Encode(fields), x, config) == Done(Encode(once))
            && Extract(second, Encode(once), y, config) == Done(Encode(twice))
            && ShapesOf(twice) == ShapesOf(once) && |Encode(once)| <= |Encode(fields)|
  {
    hide Encode, Project, Extract, Sorts, WellFormed, Conforms, ShapesOf;
    var once := Project(first, fields, config);
    ExtractIsProjection(first, fields, x, config);
    ProjectFits(first, fields, config);
    FitsParts(once, |Encode(fields)|, config);
    ExtractIsProjection(second, once, y, config);
    ProjectTwice(first, second, fields, config);
  }

  // ---------- Messages whose field numbers increase ----------

  lemma {:induction false} NotBelow(p: seq<nat>, k: nat)
    requires k < |p| && forall i, j :: 0 <= i < j < |p| ==> p[i] < p[j]
    ensures p[k] >= k
  {
    if k > 0 {
      NotBelow(p, k - 1);
    }
  }

  lemma {:induction false} NotAbove(p: seq<nat>, k: nat)
    requires k < |p| && forall i, j :: 0 <= i < j < |p| ==> p[i] < p[j]
    requires forall i :: 0 <= i < |p| ==> p[i] < |p|
    ensures p[k] <= k
    decreases |p| - k
  {
    if k + 1 < |p| {
      NotAbove(p, k + 1);
    }
  }

  lemma IdentityOrder(nums: seq<nat>, p: seq<nat>)
    requires IsSorting(nums, p)
    requires forall i, j :: 0 <= i < j < |nums| ==> nums[i] < nums[j]
    ensures forall i :: 0 <= i < |p| ==> p[i] == i
  {
    assert forall i, j :: 0 <= i < j < |p| ==> p[i] < p[j];
    forall i | 0 <= i < |p| ensures p[i] == i {
      NotBelow(p, i);
      NotAbove(p, i);
    }
  }

  lemma SortedAlready(order: Order, fields: seq<Field>)
    requires Sorts(order) && Increasing(fields)
    ensures SortedFields(order, fields) == fields
  {
    var nums := FieldNumbers(fields);
    var p := order(nums);
    assert IsSorting(nums, p);
    IdentityOrder(nums, p);
  }

  lemma {:induction false} FilteredNumbers(fields: seq<Field>, config: seq<FieldConfig>)
    requires Increasing(fields)
    ensures Increasing(Filtered(fields, config))
    ensures forall f :: f in Filtered(fields, config) && fields != [] ==> f.num >= fields[0].num
  {
    hide FilteredField;
    if fields != [] {
      var rest := fields[1..];
      FilteredNumbers(rest, config);
      FilteredFieldNumber(fields[0], config);
    }
  }

  lemma FilteredFieldNumber(f: Field, config: seq<FieldConfig>)
    ensures |FilteredField(f, config)| <= 1
    ensures forall g :: g in FilteredField(f, config) ==> g.num == f.num
  {
    hide Filtered, ConfigFor;
  }

  /** When numbers strictly increase there is nothing to sort: the projection is the filter. */
  lemma {:induction false} ProjectInOrder(order: Order, fields: seq<Field>, config: seq<FieldConfig>)
    requires Sorts(order) && StrictlySorted(fields)
    ensures Project(order, fields, config) == Filtered(fields, config)
    decreases fields, 2
  {
    hide Sorts, Kept, Filtered, SortedFields, StrictlySorted, Increasing;
    KeptInOrder(order, fields, config);
    SortedIncreases(fields);
    FilteredNumbers(fields, config);
    SortedAlready(order, Filtered(fields, config));
  }

  lemma {:induction false} KeptInOrder(order: Order, fields: seq<Field>, config: seq<FieldConfig>)
    requires Sorts(order) && StrictlySorted(fields)
    ensures Kept(order, fields, config) == Filtered(fields, config)
    decreases fields, 1
  {
    hide Sorts, KeptField, FilteredField, StrictlySorted, StrictlySortedInside;
    if fields != [] {
      StrictlySortedParts(fields);
      KeptFieldInOrder(order, fields[0], config);
      KeptInOrder(order, fields[1..], config);
    }
  }

  lemma {:induction false} KeptFieldInOrder(order: Order, f: Field, config: seq<FieldConfig>)
    requires Sorts(order) && StrictlySortedInside(f)
    ensures KeptField(order, f, config) == FilteredField(f, config)
    decreases f, 1
  {
    hide Sorts, Project, Filtered, StrictlySorted;
    match ConfigFor(config, f.num)
    case None =>
    case Some(c) =>
      if IsNested(c) && f.payload.Message? {
        ProjectInOrder(order, f.payload.fields, c.subfields);
      }
  }

  /** On messages whose numbers strictly increase at every level, the order plays no part, and extracting from the
  extracted bytes returns the same bytes. */
  lemma ExtractInOrder(first: Order, second: Order, fields: seq<Field>, x: Bytes, y: Bytes, config: seq<FieldConfig>)
    requires Sorts(first) && Sorts(second) && WellFormed(fields) && Conforms(fields, config)
    requires StrictlySorted(fields)
    ensures var content := Encode(Filtered(fields, config));
            Extract(first, Encode(fields), x, config) == Done(content) && Extract(second, content, y, config) == Done(content)
  {
    hide Encode, Project, Extract, Sorts, WellFormed, Conforms, StrictlySorted, Filtered;
    ExtractTwice(first, second, fields, x, y, config);
    ProjectInOrder(first, fields, config);
    FilteredInOrder(fields, config);
    ProjectInOrder(second, Filtered(fields, config), config);
    FilterTwice(fields, config);
  }

  lemma {:induction false} FilteredInOrder(fields: seq<Field>, config: seq<FieldConfig>)
    requires StrictlySorted(fields)
    ensures StrictlySorted(Filtered(fields, config))
    decreases fields, 1
  {
    hide StrictlySortedInside, Filtered, Increasing;
    SortedIncreases(fields);
    FilteredNumbers(fields, config);
    FilteredInside(fields, config);
  }

  lemma {:induction false} FilteredInside(fields: seq<Field>, config: seq<FieldConfig>)
    requires StrictlySorted(fields)
    ensures forall f :: f in Filtered(fields, config) ==> StrictlySortedInside(f)
    decreases fields, 0
  {
    hide FilteredField, StrictlySorted, StrictlySortedInside;
    if fields != [] {
      StrictlySortedParts(fields);
      FilteredFieldInside(fields[0], config);
      FilteredInside(fields[1..], config);
    }
  }

  lemma {:induction false} FilteredFieldInside(f: Field, config: seq<FieldConfig>)
    requires StrictlySortedInside(f)
    ensures forall g :: g in FilteredField(f, config) ==> StrictlySortedInside(g)
    decreases f, 1
  {
    hide Filtered, StrictlySorted;
    match ConfigFor(config, f.num)
    case None =>
    case Some(c) =>
      if IsNested(c) && f.payload.Message? {
        FilteredInOrder(f.payload.fields, c.subfields);
      }
  }

  /** Two messages with the same configured fields, whatever else they hold and however they are ordered, are
  extracted to the same bytes when the numbers they keep are distinct. */
  lemma SameContent(first: Order, second: Order, a: seq<Field>, x: Bytes, b: seq<Field>, y: Bytes,
                    config: seq<FieldConfig>)
    requires Sorts(first) && Sorts(second)
    requires WellFormed(a) && Conforms(a, config) && WellFormed(b) && Conforms(b, config)
    requires StrictlySorted(Project(first, a, config)) && StrictlySorted(Project(second, b, config))
    requires ShapesOf(Filtered(a, config)) == ShapesOf(Filtered(b, config))
    ensures Extract(first, Encode(a), x, config) == Extract(second, Encode(b), y, config)
  {
    hide Encode, Project, Extract, Sorts, WellFormed, Conforms, StrictlySorted, Filtered, ShapesOf;
    ExtractIsProjection(first, a, x, config);
    ExtractIsProjection(second, b, y, config);
    OnlyFilteredCounts(first, second, a, b, config);
    StrictlySortedUnique(Project(first, a, config), Project(second, b, config));
  }
}
