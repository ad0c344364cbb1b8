/** What each field of `GenesisState` does to the message: on every input that is one field, and on
    every input whose first field is faulty. */
module GenesisFields {
  import opened Machine
  import opened Varint
  import opened Framing
  import opened Messages
  import opened Fields
  import opened GenesisCodec
  import P = ParamsCodec
  import Skip

  /** A nested message is decoded into the one that is there, or into a zero one, and what goes wrong
      in it goes wrong for the whole. */
  lemma NestedDecodesTo(s: Slice, n: nat, h: nat, length: nat, g: GenesisState)
    requires n <= |s| && ReadTag(s) == Tag(1, 2, n) && ReadExtent(Cursor(s, n)) == Extent(h, length)
    requires n + h + length == |s|
    ensures var nested := P.DecodeParams(s[n + h..], Nested(g.params));
            DecodeGenesis(s, g) == (g.(params := Some(nested.0)), nested.1)
  {
    hide ReadTag, ReadExtent, GenesisField, P.ParseParams, Local, Advances, DecodeFrom;
    FieldIsLocal();
    NestedStands(s, n, h, length);
    NestedApplies(s[n + h..], g);
    var c := Cursor(s, 0);
    var f := GenesisField(c);
    if f.Bad? {
      DecodeBad(GenesisField, Apply, s, 0, g);
    } else {
      DecodeSingle(GenesisField, Apply, s, f.op, g);
    }
  }

  lemma NestedStands(s: Slice, n: nat, h: nat, length: nat)
    requires n <= |s| && ReadTag(s) == Tag(1, 2, n) && ReadExtent(Cursor(s, n)) == Extent(h, length)
    requires n + h + length == |s|
    ensures s != []
    ensures var p := P.ParseParams(s[n + h..]);
            GenesisField(Cursor(s, 0)) == if p.err.Some? then Bad(MergeParams(p.ops), p.err.value)
                                          else Field(MergeParams(p.ops), |s|)
  {
    hide ReadTag, ReadExtent, ReadVarint, SkipUnknown, P.ParseParams;
    var c := Cursor(s, 0);
    assert c.Rest() == s && Skipped(c, n) == Cursor(s, n);
    assert Cursor(s, n).Rest()[h..h + length] == s[n + h..];
  }

  lemma NestedApplies(payload: Slice, g: GenesisState)
    ensures Apply(g, MergeParams(P.ParseParams(payload).ops)) ==
            g.(params := Some(P.DecodeParams(payload, Nested(g.params)).0))
    ensures P.DecodeParams(payload, Nested(g.params)).1 == P.ParseParams(payload).err
  {
    hide Fold;
  }

  lemma NestedFieldDecodes(s: Slice, g: GenesisState)
    requires |BlockField(0x0a, s)| < TWO_63
    ensures DecodeGenesis(BlockField(0x0a, s), g) ==
            (g.(params := Some(P.DecodeParams(s, Nested(g.params)).0)), P.DecodeParams(s, Nested(g.params)).1)
  {
    hide ReadTag, ReadExtent, EncodeVarint, BlockField, DecodeGenesis, P.DecodeParams;
    var field := BlockField(0x0a, s);
    var size := EncodeVarint(|s|);
    BlockSplit(0x0a, s);
    ReadOneByteTag(0x0a, size + s);
    SizeReads(Cursor(field, 1), s);
    NestedDecodesTo(field, 1, |size|, |s|, g);
  }

  /** The last next ID counts, an explicit zero included. */
  lemma NextIDDecodesTo(s: Slice, v: U64, g: GenesisState)
    requires ReadTag(s).Tag? && ReadTag(s).fieldNum == 2 && ReadTag(s).wireType == 0
    requires ReadVarint(s[ReadTag(s).len..]) == Read(v, |s| - ReadTag(s).len, None)
    ensures DecodeGenesis(s, g) == (g.(nextAccountID := v), None)
  {
    NextIDStands(s, v);
    FieldIsLocal();
    hide ReadTag, ReadVarint, GenesisField, Local, Advances, Decode;
    DecodeSingle(GenesisField, Apply, s, SetNextID(v), g);
  }

  lemma NextIDStands(s: Slice, v: U64)
    requires ReadTag(s).Tag? && ReadTag(s).fieldNum == 2 && ReadTag(s).wireType == 0
    requires ReadVarint(s[ReadTag(s).len..]) == Read(v, |s| - ReadTag(s).len, None)
    ensures GenesisField(Cursor(s, 0)) == Field(SetNextID(v), |s|)
  {
    hide ReadTag, ReadVarint, NestedField, SkipUnknown;
    assert Cursor(s, 0).Rest() == s;
  }

  lemma NextIDFieldDecodes(v: U64, g: GenesisState)
    ensures |EncodeVarint(v)| <= 10
    ensures DecodeGenesis([0x10] + EncodeVarint(v), g) == (g.(nextAccountID := v), None)
  {
    hide ReadTag, ReadVarint, EncodeVarint, DecodeGenesis;
    var e := EncodeVarint(v);
    EncodeWordLength(v);
    ReadOneByteTag(0x10, e);
    ReadEncoded(v, []);
    Unit(e);
    NextIDDecodesTo([0x10] + e, v, g);
  }

  /** The bytes, field by field: the nested message, if there is one, and behind it the next ID, unless it
      is zero. */
  lemma FieldsAscend(g: GenesisState)
    ensures var g1 := WithNextID(g, 0);
            && EncodeGenesis(g) ==
               EncodeGenesis(g1) + (if g.nextAccountID == 0 then [] else [0x10] + EncodeVarint(g.nextAccountID))
            && EncodeGenesis(g1) ==
               if g.params.None? then []
               else
                 var payload := P.EncodeParams(g.params.value);
                 [0x0a] + EncodeVarint(|payload|) + payload
  {
    hide EncodeVarint, P.EncodeParams;
  }

  lemma EmptyTakesNothing()
    ensures EncodeGenesis(EMPTY) == []
  {
  }

  function WithNextID(g: GenesisState, id: U64): GenesisState {
    g.(nextAccountID := id)
  }

  /** What is left of the message, and the error, when the first field is faulty. */
  lemma FaultyFieldRejected(s: Slice, g: GenesisState)
    requires s != []
    ensures var t := ReadTag(s);
            && (t.BadTag? ==> DecodeGenesis(s, g) == (g, Some(t.err)))
            && (t.Tag? && t.fieldNum > 2 && Skip.Record(s).None? ==>
                  DecodeGenesis(s, g).0 == g && DecodeGenesis(s, g).1.Some?)
            && (t.Tag? && t.fieldNum <= 2 && t.wireType != (if t.fieldNum == 1 then 2 else 0) ==>
                  DecodeGenesis(s, g) == (g, Some(WrongWireType(t.wireType, t.fieldNum))))
            && (t.Tag? && t.fieldNum == 1 && t.wireType == 2 ==>
                  var e := ReadExtent(Cursor(s, t.len));
                  e.BadExtent? ==> DecodeGenesis(s, g) == (g, Some(e.err)))
            && (t.Tag? && t.fieldNum == 2 && t.wireType == 0 ==>
                  var v := ReadVarint(s[t.len..]);
                  v.err.Some? ==> DecodeGenesis(s, g) == (WithNextID(g, v.value), v.err))
  {
    FieldIsLocal();
    FaultyField(s);
    hide ReadTag, ReadVarint, ReadExtent, Skip.Record, GenesisField, Local, Advances, DecodeFrom;
    if GenesisField(Cursor(s, 0)).Bad? {
      DecodeBad(GenesisField, Apply, s, 0, g);
    }
  }

  lemma FaultyField(s: Slice)
    requires s != []
    ensures var t := ReadTag(s);
            var f := GenesisField(Cursor(s, 0));
            && (t.BadTag? ==> f == Bad(Same, t.err))
            && (t.Tag? && t.fieldNum > 2 && Skip.Record(s).None? ==> f.Bad? && f.op == Same)
            && (t.Tag? && t.fieldNum <= 2 && t.wireType != (if t.fieldNum == 1 then 2 else 0) ==>
                  f == Bad(Same, WrongWireType(t.wireType, t.fieldNum)))
            && (t.Tag? && t.fieldNum == 1 && t.wireType == 2 ==>
                  var e := ReadExtent(Cursor(s, t.len)); e.BadExtent? ==> f == Bad(Same, e.err))
            && (t.Tag? && t.fieldNum == 2 && t.wireType == 0 ==>
                  var v := ReadVarint(s[t.len..]); v.err.Some? ==> f == Bad(SetNextID(v.value), v.err.value))
  {
    var c := Cursor(s, 0);
    assert c.Rest() == s;
    SkipIsRecord(c, Same);
    hide ReadTag, ReadVarint, ReadExtent, SkipUnknown, Skip.Record;
  }
}
