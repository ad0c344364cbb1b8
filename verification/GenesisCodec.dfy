/** The wire format of `GenesisState`: an optional nested `Params` and the next account ID. */
module GenesisCodec {
  import opened Machine
  import opened Varint
  import opened Framing
  import opened Messages
  import opened Fields
  import P = ParamsCodec
  import Skip

  datatype GenesisState = GenesisState(params: Option<P.Params>, nextAccountID: U64)

  const EMPTY := GenesisState(None, 0)

  // ---------- Decoding ----------

  datatype GenesisOp =
    | Same
    | MergeParams(ops: seq<P.ParamsOp>)
    | SetNextID(id: U64)

  function Nested(params: Option<P.Params>): P.Params {
    if params.None? then P.ZERO else params.value
  }

  /** A nested message is merged into the one already there, or into a zero one. */
  function Apply(g: GenesisState, op: GenesisOp): GenesisState {
    match op
    case Same => g
    case MergeParams(ops) => g.(params := Some(Fold(P.Apply, Nested(g.params), ops)))
    case SetNextID(v) => g.(nextAccountID := v)
  }

  ghost function GenesisField(c: Cursor): (r: Step<GenesisOp>)
    ensures r.Field? ==> 1 <= r.len <= |c.Rest()|
  {
    match ReadTag(c.Rest())
    case BadTag(e) => Bad(Same, e)
    case Tag(num, wireType, n) =>
      if num > 2 then SkipUnknown(c, Same)
      else if wireType != (if num == 1 then 2 else 0) then Bad(Same, WrongWireType(wireType, num))
      else if num == 1 then NestedField(c, n)
      else NextIDField(c, n)
  }

  ghost function NestedField(c: Cursor, n: nat): (r: Step<GenesisOp>)
    requires 1 <= n <= |c.Rest()|
    ensures r.Field? ==> 1 <= r.len <= |c.Rest()|
  {
    var d := Skipped(c, n);
    match ReadExtent(d)
    case BadExtent(e) => Bad(Same, e)
    case Extent(h, length) =>
      var p := P.ParseParams(d.Rest()[h..h + length]);
      if p.err.Some? then Bad(MergeParams(p.ops), p.err.value)
      else Field(MergeParams(p.ops), n + h + length)
  }

  function NextIDField(c: Cursor, n: nat): (r: Step<GenesisOp>)
    requires 1 <= n <= |c.Rest()|
    ensures r.Field? ==> 1 <= r.len <= |c.Rest()|
  {
    var v := ReadVarint(Skipped(c, n).Rest());
    if v.err.Some? then Bad(SetNextID(v.value), v.err.value) else Field(SetNextID(v.value), n + v.len)
  }

  ghost function DecodeGenesis(s: Slice, g: GenesisState): (GenesisState, Option<Error>) {
    assert Advances(GenesisField);
    Decode(GenesisField, Apply, s, g)
  }

  lemma FieldLocal(c: Cursor, d: Cursor)
    requires var r := GenesisField(c); r.Field? && r.len <= |d.Rest()| && d.Rest()[..r.len] == c.Rest()[..r.len]
    ensures GenesisField(d) == GenesisField(c)
  {
    hide ReadVarint, ReadTag, ReadExtent, Skipped, SkipUnknown, P.ParseParams;
    var r := GenesisField(c);
    var t := ReadTag(c.Rest());
    var n := t.len;
    if t.fieldNum > 2 {
      SkipTag(c, Same);
      TagLocal(c.Rest(), d.Rest(), r.len);
      SkipLocal(c, d, Same);
    } else {
      TagLocal(c.Rest(), d.Rest(), r.len);
      SkippedRest(c, n);
      SkippedRest(d, n);
      if t.fieldNum == 2 {
        VarintLocal(c.Rest(), d.Rest(), n, r.len);
      } else {
        Skip.Middles(c.Rest(), d.Rest(), r.len, n);
        BlockLocal(Skipped(c, n), Skipped(d, n), r.len - n);
      }
    }
  }

  lemma FieldIsLocal()
    ensures Advances(GenesisField) && Local(GenesisField)
  {
    forall c: Cursor, d: Cursor
      | GenesisField(c).Field? && GenesisField(c).len <= |d.Rest()| && d.Rest()[..GenesisField(c).len] == c.Rest()[..GenesisField(c).len]
      ensures GenesisField(d) == GenesisField(c)
    {
      FieldLocal(c, d);
    }
  }

  lemma GenesisConcat(a: Slice, b: Slice, g: GenesisState)
    requires |a| + |b| < TWO_63 && DecodeGenesis(a, g).1.None?
    ensures DecodeGenesis(a + b, g).1.None? <==> DecodeGenesis(b, DecodeGenesis(a, g).0).1.None?
    ensures DecodeGenesis(b, DecodeGenesis(a, g).0).1.None? ==>
              DecodeGenesis(a + b, g) == DecodeGenesis(b, DecodeGenesis(a, g).0)
  {
    FieldIsLocal();
    hide Decode, Local, Advances, GenesisField;
    DecodeConcat(GenesisField, Apply, a, b, g);
  }

  /** A complete record of a field number that the message does not have, at a field boundary, changes
      nothing. */
  lemma UnknownFieldIgnored(a: Slice, u: Slice, b: Slice, g: GenesisState)
    requires |a| + |u| + |b| < TWO_63 && DecodeGenesis(a, g).1.None?
    requires ReadTag(u).Tag? && ReadTag(u).fieldNum > 2 && Skip.Record(u) == Some(|u|)
    ensures DecodeGenesis(a + u + b, g).1.None? <==> DecodeGenesis(a + b, g).1.None?
    ensures DecodeGenesis(a + b, g).1.None? ==> DecodeGenesis(a + u + b, g) == DecodeGenesis(a + b, g)
  {
    FieldIsLocal();
    UnknownReads(u);
    hide Decode, Local, Advances, GenesisField, ReadTag, Skip.Record;
    UnknownIgnored(GenesisField, Apply, Same, a, u, b, g);
  }

  /** A turn of the loop consumes exactly one wire record. */
  lemma FieldIsRecord(c: Cursor)
    requires GenesisField(c).Field?
    ensures Skip.Record(c.Rest()) == Some(GenesisField(c).len)
  {
    hide ReadVarint, ReadTag, ReadExtent, Skipped, SkipUnknown, Skip.Record, P.ParseParams;
    var t := ReadTag(c.Rest());
    if t.fieldNum > 2 {
      SkipIsRecord(c, Same);
    } else if t.fieldNum == 2 {
      VarintIsRecord(c);
    } else {
      BlockIsRecord(c);
    }
  }

  lemma UnknownReads(u: Slice)
    requires ReadTag(u).Tag? && ReadTag(u).fieldNum > 2 && Skip.Record(u) == Some(|u|)
    ensures GenesisField(Cursor(u, 0)) == Field(Same, |u|)
  {
    var c := Cursor(u, 0);
    assert c.Rest() == u;
    SkipIsRecord(c, Same);
    hide ReadTag, SkipUnknown, Skip.Record;
  }

  // ---------- Encoding ----------

  function ParamsField(params: Option<P.Params>): Bytes {
    if params.None? then [] else BlockField(0x0a, P.EncodeParams(params.value))
  }

  function EncodeGenesis(g: GenesisState): Bytes {
    ParamsField(g.params) + WordField(0x10, g.nextAccountID)
  }

  lemma NestedReads(p: P.Params)
    requires |BlockField(0x0a, P.EncodeParams(p))| < TWO_63
    ensures var s := BlockField(0x0a, P.EncodeParams(p));
            s != [] && GenesisField(Cursor(s, 0)) == Field(MergeParams(P.ParseParams(P.EncodeParams(p)).ops), |s|)
  {
    var payload := P.EncodeParams(p);
    var s := BlockField(0x0a, payload);
    P.RoundTrip(p);
    hide BlockAt, P.EncodeParams, P.ParseParams, GenesisField;
    BlockAtFront(0x0a, payload);
    NestedStep(Cursor(s, 0), payload);
  }

  lemma NestedStep(c: Cursor, payload: Slice)
    requires BlockAt(c, 1, payload) && P.ParseParams(payload).err.None?
    ensures GenesisField(c) == Field(MergeParams(P.ParseParams(payload).ops), |c.Rest()|)
  {
    hide ReadTag, ReadExtent, Skipped, SkipUnknown, P.ParseParams;
    var d := Skipped(c, 1);
    var h := ReadExtent(d).header;
    assert d.Rest()[h..h + |payload|] == d.Rest()[h..][..|payload|] == payload;
    SkippedRest(c, 1);
  }

  lemma NestedDecodes(params: Option<P.Params>, g: GenesisState)
    requires |ParamsField(params)| < TWO_63
    ensures DecodeGenesis(ParamsField(params), g) ==
            (if params.None? then g else g.(params := Some(P.Merge(Nested(g.params), params.value))), None)
  {
    FieldIsLocal();
    hide Decode, Local, Advances, GenesisField, BlockField;
    if params.None? {
      DecodeNothing(GenesisField, Apply, g);
    } else {
      var s := BlockField(0x0a, P.EncodeParams(params.value));
      NestedReads(params.value);
      MergeNested(params.value, g);
      DecodeSingle(GenesisField, Apply, s, MergeParams(P.ParseParams(P.EncodeParams(params.value)).ops), g);
    }
  }

  lemma MergeNested(p: P.Params, g: GenesisState)
    requires |P.EncodeParams(p)| < TWO_63
    ensures Apply(g, MergeParams(P.ParseParams(P.EncodeParams(p)).ops)) == g.(params := Some(P.Merge(Nested(g.params), p)))
  {
    P.MergeEncoded(Nested(g.params), p);
    hide P.EncodeParams, P.Merge;
  }

  lemma NextIDReads(v: U64)
    requires v != 0
    ensures var s := WordField(0x10, v);
            1 < |s| < TWO_63 && GenesisField(Cursor(s, 0)) == Field(SetNextID(v), |s|)
  {
    hide GenesisField, WordAt;
    WordAtFront(0x10, v);
    NextIDStep(Cursor(WordField(0x10, v), 0), v);
  }

  lemma NextIDStep(c: Cursor, v: U64)
    requires WordAt(c, 2, v)
    ensures GenesisField(c) == Field(SetNextID(v), |c.Rest()|)
  {
    hide ReadTag, ReadVarint, ReadExtent, Skipped, SkipUnknown;
  }

  lemma NextIDDecodes(v: U64, g: GenesisState)
    ensures |WordField(0x10, v)| < TWO_63
    ensures DecodeGenesis(WordField(0x10, v), g) == (if v == 0 then g else g.(nextAccountID := v), None)
  {
    FieldIsLocal();
    hide Decode, Local, Advances, GenesisField;
    if v == 0 {
      DecodeNothing(GenesisField, Apply, g);
    } else {
      NextIDReads(v);
      DecodeSingle(GenesisField, Apply, WordField(0x10, v), SetNextID(v), g);
    }
  }

  /** Decoding the encoding of `h` on top of `g` merges the nested parameters. */
  function Merge(g: GenesisState, h: GenesisState): GenesisState {
    GenesisState(
      if h.params.None? then g.params else Some(P.Merge(Nested(g.params), h.params.value)),
      if h.nextAccountID == 0 then g.nextAccountID else h.nextAccountID)
  }

  lemma MergeEncoded(g: GenesisState, h: GenesisState)
    requires |EncodeGenesis(h)| < TWO_63
    ensures DecodeGenesis(EncodeGenesis(h), g) == (Merge(g, h), None)
  {
    hide ParamsField, WordField, P.Merge, DecodeGenesis;
    NestedDecodes(h.params, g);
    var g1 := if h.params.None? then g else g.(params := Some(P.Merge(Nested(g.params), h.params.value)));
    NextIDDecodes(h.nextAccountID, g1);
    GenesisConcat(ParamsField(h.params), WordField(0x10, h.nextAccountID), g);
  }

  /** Every genesis state survives the wire, with or without parameters. */
  lemma RoundTrip(g: GenesisState)
    requires |EncodeGenesis(g)| < TWO_63
    ensures DecodeGenesis(EncodeGenesis(g), EMPTY) == (g, None)
  {
    MergeEncoded(EMPTY, g);
    if g.params.Some? {
      Unit(g.params.value.allowedCodeIDs);
    }
  }

  /** Absent parameters and present all-zero parameters are told apart on the wire. */
  lemma AbsentIsNotZero(id: U64)
    ensures EncodeGenesis(GenesisState(None, id)) != EncodeGenesis(GenesisState(Some(P.ZERO), id))
  {
    var a, b := GenesisState(None, id), GenesisState(Some(P.ZERO), id);
    EncodeWordLength(id);
    if EncodeGenesis(a) == EncodeGenesis(b) {
      RoundTrip(a);
      RoundTrip(b);
    }
  }
}
