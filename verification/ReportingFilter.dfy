/** What is kept of a message, read off the configuration alone, and what malformed endings do. */
module ReportingFilter {
  import opened ByteStrings
  import opened ReportingToken
  import opened ReportingTree

  // ---------- What a configuration lets through ----------

  /** Every field has an entry.  Inside a message whose entry has subfields every field has one among them, and there is
  at least one; a message whose entry is only flagged as one is not there at all. */
  predicate Configured(fields: seq<Field>, config: seq<FieldConfig>)
    decreases fields
  {
    forall f | f in fields :: ConfiguredField(f, config)
  }

  predicate ConfiguredField(f: Field, config: seq<FieldConfig>)
    decreases f
  {
    match ConfigFor(config, f.num)
    case None => false
    case Some(c) =>
      f.payload.Message? ==>
        if c.subfields != [] then f.payload.fields != [] && Configured(f.payload.fields, c.subfields) else !c.isMessage
  }

  lemma {:induction false} FilteredIsConfigured(fields: seq<Field>, config: seq<FieldConfig>)
    ensures Configured(Filtered(fields, config), config)
    decreases fields, 1
  {
    hide FilteredField, ConfiguredField;
    if fields != [] {
      FilteredFieldIsConfigured(fields[0], config);
      FilteredIsConfigured(fields[1..], config);
    }
  }

  lemma {:induction false} FilteredFieldIsConfigured(f: Field, config: seq<FieldConfig>)
    ensures Configured(FilteredField(f, config), config)
    decreases f, 1
  {
    hide Filtered;
    match ConfigFor(config, f.num)
    case None =>
    case Some(c) =>
      if f.payload.Message? {
        FilteredIsConfigured(f.payload.fields, c.subfields);
        NoEntries(f.payload.fields);
      }
  }

  lemma {:induction false} NoEntries(fields: seq<Field>)
    ensures Filtered(fields, []) == []
  {
    if fields != [] {
      NoEntries(fields[1..]);
    }
  }

  /** So it is of the projection, whatever the sort does, and hence of the bytes that are extracted. */
  lemma {:induction false} ProjectIsConfigured(order: Order, fields: seq<Field>, config: seq<FieldConfig>)
    requires Sorts(order)
    ensures Configured(Project(order, fields, config), config)
    decreases fields, 2
  {
    hide Sorts, Kept, ConfiguredField, SortedFields;
    KeptIsConfigured(order, fields, config);
    SortedKeeps(order, Kept(order, fields, config));
  }

  lemma {:induction false} KeptIsConfigured(order: Order, fields: seq<Field>, config: seq<FieldConfig>)
    requires Sorts(order)
    ensures Configured(Kept(order, fields, config), config)
    decreases fields, 1
  {
    hide Sorts, KeptField, ConfiguredField;
    if fields != [] {
      KeptFieldIsConfigured(order, fields[0], config);
      KeptIsConfigured(order, fields[1..], config);
    }
  }

  lemma {:induction false} KeptFieldIsConfigured(order: Order, f: Field, config: seq<FieldConfig>)
    requires Sorts(order)
    ensures Configured(KeptField(order, f, config), config)
    decreases f, 1
  {
    hide Sorts, Project;
    match ConfigFor(config, f.num)
    case None =>
    case Some(c) =>
      if f.payload.Message? {
        ProjectIsConfigured(order, f.payload.fields, c.subfields);
        NothingProjected(order, f.payload.fields);
      }
  }

  lemma {:induction false} NothingProjected(order: Order, fields: seq<Field>)
    requires Sorts(order)
    ensures Kept(order, fields, []) == [] && Project(order, fields, []) == []
  {
    hide Sorts;
    if fields != [] {
      NothingProjected(order, fields[1..]);
    } else {
      ProjectNothing(order, []);
    }
    assert Kept(order, fields, []) == [];
  }

  // ---------- Nothing else is lost ----------

  /** A field with an entry that says nothing of its inside is kept whole; so is any field with an entry whose value is
  not a message. */
  lemma KeptWhole(before: seq<Field>, f: Field, after: seq<Field>, config: seq<FieldConfig>, c: FieldConfig)
    requires ConfigFor(config, f.num) == Some(c) && (f.payload.Message? ==> !c.isMessage && c.subfields == [])
    ensures Filtered(before + [f] + after, config) == Filtered(before, config) + [f] + Filtered(after, config)
  {
    hide Filtered, ConfigFor;
    FilterAppend(before + [f], after, config);
    FilterAppend(before, [f], config);
    FilterOne(f, config);
  }

  /** A message whose entry has subfields is kept with the fields that these keep, and dropped when they keep none. */
  lemma KeptInside(before: seq<Field>, f: Field, after: seq<Field>, config: seq<FieldConfig>, c: FieldConfig)
    requires ConfigFor(config, f.num) == Some(c) && f.payload.Message? && c.subfields != []
    ensures var inside := Filtered(f.payload.fields, c.subfields);
            Filtered(before + [f] + after, config)
            == Filtered(before, config) + (if inside == [] then [] else [Field(f.num, Message(inside))]) + Filtered(after, config)
  {
    hide Filtered, ConfigFor;
    FilterAppend(before + [f], after, config);
    FilterAppend(before, [f], config);
    FilterOne(f, config);
  }

  /** A message whose entry is only flagged as one is dropped, whatever is in it. */
  lemma FlaggedIsDropped(before: seq<Field>, f: Field, after: seq<Field>, config: seq<FieldConfig>, c: FieldConfig)
    requires ConfigFor(config, f.num) == Some(c) && f.payload.Message? && c.isMessage && c.subfields == []
    ensures Filtered(before + [f] + after, config) == Filtered(before, config) + Filtered(after, config)
  {
    hide Filtered, ConfigFor;
    FilterAppend(before + [f], after, config);
    FilterAppend(before, [f], config);
    FilterOne(f, config);
    NoEntries(f.payload.fields);
    assert Filtered(before, config) + [] == Filtered(before, config);
  }

  /** An entry with a subfield and no flag, as most of the configuration has them, byte for byte: of the fields 1 and 2
  inside field 3, field 2 is kept. */
  lemma InsideIsFiltered(order: Order, spare: Bytes)
    requires Sorts(order)
    ensures var config := [FieldConfig(3, false, [FieldConfig(2, false, [])])];
            Extract(order, [26, 4, 8, 7, 16, 9], spare, config) == Done([26, 2, 16, 9])
  {
    hide Sorts, Extract, Filtered, StrictlySorted, WellFormed, Conforms, Encode;
    var config := [FieldConfig(3, false, [FieldConfig(2, false, [])])];
    var one, two := Field(1, VarintOf(7)), Field(2, VarintOf(9));
    PairEncoded(one, two);
    PairFits(one, two, config);
    PairFiltered(one, two, config);
    ExtractInOrder(order, order, [Field(3, Message([one, two]))], spare, [], config);
  }

  lemma PairEncoded(one: Field, two: Field)
    requires one == Field(1, VarintOf(7)) && two == Field(2, VarintOf(9))
    ensures Encode([two]) == [16, 9] && Encode([one, two]) == [8, 7, 16, 9]
    ensures Encode([Field(3, Message([one, two]))]) == [26, 4, 8, 7, 16, 9]
    ensures Encode([Field(3, Message([two]))]) == [26, 2, 16, 9]
  {
    hide Encode;
    assert EncodeField(one) == [8, 7] && EncodeField(two) == [16, 9];
    EncodeOne(one);
    EncodeOne(two);
    EncodeAppend([one], [two]);
    assert [one] + [two] == [one, two];
    EncodeOne(Field(3, Message([one, two])));
    EncodeOne(Field(3, Message([two])));
  }

  lemma PairFits(one: Field, two: Field, config: seq<FieldConfig>)
    requires one == Field(1, VarintOf(7)) && two == Field(2, VarintOf(9))
    requires config == [FieldConfig(3, false, [FieldConfig(2, false, [])])]
    ensures var fields := [Field(3, Message([one, two]))];
            WellFormed(fields) && Conforms(fields, config) && StrictlySorted(fields)
  {
    hide Encode;
    PairEncoded(one, two);
    assert StrictlySorted([one, two]);
    assert WellFormed([one, two]);
    assert Conforms([one, two], config[0].subfields);
  }

  lemma PairFiltered(one: Field, two: Field, config: seq<FieldConfig>)
    requires one == Field(1, VarintOf(7)) && two == Field(2, VarintOf(9))
    requires config == [FieldConfig(3, false, [FieldConfig(2, false, [])])]
    ensures Filtered([Field(3, Message([one, two]))], config) == [Field(3, Message([two]))]
  {
    hide Filtered;
    var inner := config[0].subfields;
    FilterOne(two, inner);
    FilterOne(one, inner);
    FilterAppend([one], [two], inner);
    assert [one] + [two] == [one, two];
    assert [] + [two] == [two];
    FilterOne(Field(3, Message([one, two])), config);
  }

  // ---------- Malformed endings ----------

  /** Scanning a message and whatever follows it. */
  lemma {:induction false} ScanBefore(order: Order, fields: seq<Field>, tail: Bytes, spare: Bytes, config: seq<FieldConfig>)
    requires Sorts(order) && WellFormed(fields) && Conforms(fields, config)
    ensures ScanFields(order, Encode(fields) + tail, spare, config)
         == Prepend(PiecesFor(Kept(order, fields, config)), ScanFields(order, tail, spare, config))
  {
    hide Sorts, EncodeField, KeptField, WellFormedField, ConformsField, ScanFields;
    if fields == [] {
      assert PiecesFor(Kept(order, fields, config)) == [] && [] + tail == tail;
      PrependNothing(ScanFields(order, tail, spare, config));
    } else {
      assert fields[0] in fields;
      var rest := Encode(fields[1..]) + tail;
      ScanBefore(order, fields[1..], tail, spare, config);
      ScanFieldOf(order, fields[0], rest, spare, config);
      Associate(EncodeField(fields[0]), Encode(fields[1..]), tail);
      PiecesAppend(KeptField(order, fields[0], config), Kept(order, fields[1..], config));
      PrependTwice(PiecesFor(KeptField(order, fields[0], config)), PiecesFor(Kept(order, fields[1..], config)),
                   ScanFields(order, tail, spare, config));
    }
  }

  /** A field of a wire type the code does not know, configured or not, drops everything in front of it too. */
  lemma UnknownWireTypeDropsAll(order: Order, fields: seq<Field>, num: nat, wireType: nat, tail: Bytes, spare: Bytes,
                                config: seq<FieldConfig>)
    requires Sorts(order) && WellFormed(fields) && Conforms(fields, config)
    requires wireType in {3, 4, 6, 7} && num * 8 + wireType < ReportingToken.TWO_64
    ensures Extract(order, Encode(fields) + (PutUvarint(num * 8 + wireType) + tail), spare, config) == Done([])
  {
    hide Sorts, Encode, PutUvarint, Uvarint, Kept, WellFormed, Conforms;
    var bad := PutUvarint(num * 8 + wireType) + tail;
    ReadBackVarint(num * 8 + wireType, tail);
    assert ScanFields(order, bad, spare, config) == Nothing;
    ScanBefore(order, fields, bad, spare, config);
  }

  /** A tag cut off in its varint ends the loop: what came before it is extracted. */
  lemma TruncatedTagStops(order: Order, fields: seq<Field>, tail: Bytes, spare: Bytes, config: seq<FieldConfig>)
    requires Sorts(order) && WellFormed(fields) && Conforms(fields, config)
    requires !Uvarint(tail).Varint?
    ensures Extract(order, Encode(fields) + tail, spare, config) == Done(Encode(Project(order, fields, config)))
  {
    hide Sorts, Encode, Kept, Sorted, SortedFields, Concatenate, WellFormed, Conforms, Uvarint;
    ScanBefore(order, fields, tail, spare, config);
    assert ScanFields(order, tail, spare, config) == Pieces([]);
    PrependDone(PiecesFor(Kept(order, fields, config)));
    SortedPieces(order, Kept(order, fields, config));
    ConcatenatePieces(Project(order, fields, config));
  }

  /** A value cut off in its varint, or in that of its length, counts as empty: of a configured field the bare tag is
  kept, of a message to look into nothing, and what is left of the value is taken for the next tag. */
  lemma CutValue(order: Order, fields: seq<Field>, num: nat, wireType: nat, tail: Bytes, spare: Bytes,
                 config: seq<FieldConfig>)
    requires Sorts(order) && WellFormed(fields) && Conforms(fields, config)
    requires wireType in {0, 2} && num * 8 + wireType < ReportingToken.TWO_64 && Uvarint(tail) == Truncated
    ensures var bare := PutUvarint(num * 8 + wireType);
            ScanFields(order, Encode(fields) + (bare + tail), spare, config)
            == Prepend(PiecesFor(Kept(order, fields, config)),
                       match ConfigFor(config, num)
                       case None => Pieces([])
                       case Some(c) => if wireType == 2 && (c.isMessage || c.subfields != []) then Pieces([])
                                       else Pieces([Piece(num, bare)]))
  {
    hide Sorts, Encode, PutUvarint, Uvarint, Kept, WellFormed, Conforms, ScanFields, PieceOf, ExtentOf;
    var tag := num * 8 + wireType;
    var bare := PutUvarint(tag);
    var bad := bare + tail;
    ScanBefore(order, fields, bad, spare, config);
    ReadBackVarint(tag, tail);
    assert tag / 8 == num && tag % 8 == wireType;
    assert bad[|bare|..] == [] + tail && bad[..|bare|] == bare;
    CutExtent(wireType, tail);
    ScanOne(order, bad, tag, |bare|, [], tail, spare, 0, config);
    NoTag(order, tail, spare, config);
    assert bare + [] == bare;
    match ConfigFor(config, num)
    case None =>
    case Some(c) => CutPiece(order, tag, bare, tail + spare, c);
  }

  lemma CutExtent(wireType: nat, tail: Bytes)
    requires wireType in {0, 2} && Uvarint(tail) == Truncated
    ensures ExtentOf(wireType, [] + tail) == Extent(0, 0)
  {
    assert [] + tail == tail;
  }

  lemma NoTag(order: Order, tail: Bytes, spare: Bytes, config: seq<FieldConfig>)
    requires Sorts(order) && Uvarint(tail) == Truncated
    ensures ScanFields(order, tail, spare, config) == Pieces([])
  {
  }

  lemma CutPiece(order: Order, tag: nat, bare: Bytes, beyond: Bytes, c: FieldConfig)
    requires Sorts(order) && tag % 8 in {0, 2}
    ensures PieceOf(order, tag, bare, tag % 8, [], beyond, c)
         == if tag % 8 == 2 && (c.isMessage || c.subfields != []) then Pieces([]) else Pieces([Piece(tag / 8, bare)])
  {
    assert ScanFields(order, [], beyond, c.subfields) == Pieces([]);
    assert IsSorting(Numbers([]), order(Numbers([])));
    assert Sorted(order, []) == [];
  }
}
