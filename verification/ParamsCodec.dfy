/** The wire format of the module parameters (`Params`). */
module ParamsCodec {
  import opened Machine
  import opened Varint
  import opened Framing
  import opened Messages
  import opened Fields
  import opened PackedList
  import Skip

  datatype Params = Params(
    allowAllCodeIDs: bool,
    allowedCodeIDs: seq<U64>,
    maxGasBefore: U64,
    maxGasAfter: U64)

  const ZERO := Params(false, [], 0, 0)

  // ---------- Decoding: operations on the message ----------

  datatype ParamsOp =
    | Keep
    | SetAllowAll(allow: bool)
    | AppendIDs(ids: seq<U64>)
    | SetGasBefore(gas: U64)
    | SetGasAfter(gas: U64)

  function Apply(p: Params, op: ParamsOp): Params {
    match op
    case Keep => p
    case SetAllowAll(b) => p.(allowAllCodeIDs := b)
    case AppendIDs(ids) => p.(allowedCodeIDs := p.allowedCodeIDs + ids)
    case SetGasBefore(v) => p.(maxGasBefore := v)
    case SetGasAfter(v) => p.(maxGasAfter := v)
  }

  /** One turn of `Unmarshal`. */
  function ParamsField(c: Cursor): (r: Step<ParamsOp>)
    ensures r.Field? ==> 1 <= r.len <= |c.Rest()|
    ensures (r.Field? || r.Bad?) && r.op.AppendIDs? ==> |r.op.ids| <= |c.Rest()|
    ensures r.Field? && r.op.AppendIDs? ==> |r.op.ids| <= r.len
  {
    match ReadTag(c.Rest())
    case BadTag(e) => Bad(Keep, e)
    case Tag(num, wireType, n) =>
      var d := Skipped(c, n);
      if num == 2 && wireType == 2 then
        match ReadExtent(d)
        case BadExtent(e) => Bad(Keep, e)
        case Extent(h, length) =>
          var p := ReadPacked(d.Rest()[h..], length);
          if p.err.Some? then Bad(AppendIDs(p.ids), p.err.value)
          else Field(AppendIDs(p.ids), n + h + p.len)
      else if num > 4 then SkipUnknown(c, Keep)
      else if wireType != 0 then Bad(Keep, WrongWireType(wireType, num))
      else
        var v := ReadVarint(d.Rest());
        if v.err.Some? then Bad(if num == 3 then SetGasBefore(v.value) else if num == 4 then SetGasAfter(v.value) else Keep, v.err.value)
        else Field(NumberOp(num, v.value), n + v.len)
  }

  function NumberOp(num: int, v: U64): ParamsOp {
    if num == 1 then SetAllowAll(WrapInt(v) != 0)
    else if num == 2 then AppendIDs([v])
    else if num == 3 then SetGasBefore(v)
    else SetGasAfter(v)
  }

  ghost function ParseParams(s: Slice): Parsed<ParamsOp> {
    assert Advances(ParamsField);
    Parse(ParamsField, s, 0)
  }

  /** Decoding `s` on top of `p`: the message left behind, and the error if there was one. */
  ghost function DecodeParams(s: Slice, p: Params): (Params, Option<Error>) {
    assert Advances(ParamsField);
    Decode(ParamsField, Apply, s, p)
  }

  // ---------- The reader is local ----------

  lemma FieldLocal(c: Cursor, d: Cursor)
    requires var r := ParamsField(c); r.Field? && r.len <= |d.Rest()| && d.Rest()[..r.len] == c.Rest()[..r.len]
    ensures ParamsField(d) == ParamsField(c)
  {
    hide ReadVarint, ReadTag, ReadExtent, ReadPacked, Skipped, SkipUnknown;
    var r := ParamsField(c);
    var t := ReadTag(c.Rest());
    var n := t.len;
    if t.fieldNum > 4 {
      SkipTag(c, Keep);
      TagLocal(c.Rest(), d.Rest(), r.len);
      SkipLocal(c, d, Keep);
    } else {
      TagLocal(c.Rest(), d.Rest(), r.len);
      SkippedRest(c, n);
      SkippedRest(d, n);
      if t.wireType == 0 {
        VarintLocal(c.Rest(), d.Rest(), n, r.len);
      } else {
        Skip.Middles(c.Rest(), d.Rest(), r.len, n);
        PackedFieldLocal(Skipped(c, n), Skipped(d, n), r.len - n);
      }
    }
  }

  lemma PackedFieldLocal(c: Cursor, d: Cursor, n: nat)
    requires ReadExtent(c).Extent?
    requires var e := ReadExtent(c);
             var p := ReadPacked(c.Rest()[e.header..], e.length);
             p.err.None? && n == e.header + p.len
    requires n <= |d.Rest()| && d.Rest()[..n] == c.Rest()[..n]
    ensures ReadExtent(d) == ReadExtent(c)
    ensures var e := ReadExtent(c);
            ReadPacked(d.Rest()[e.header..], e.length) == ReadPacked(c.Rest()[e.header..], e.length)
  {
    hide ReadExtent, ReadPacked;
    var h := ReadExtent(c).header;
    ExtentLocal(c, d, n);
    Skip.Middles(c.Rest(), d.Rest(), n, h);
    PackedLocal(c.Rest()[h..], d.Rest()[h..], ReadExtent(c).length);
  }

  lemma FieldIsLocal()
    ensures Advances(ParamsField) && Local(ParamsField)
  {
    forall c: Cursor, d: Cursor
      | ParamsField(c).Field? && ParamsField(c).len <= |d.Rest()| && d.Rest()[..ParamsField(c).len] == c.Rest()[..ParamsField(c).len]
      ensures ParamsField(d) == ParamsField(c)
    {
      FieldLocal(c, d);
    }
  }

  // ---------- Encoding ----------

  function PackedField(key: Byte, ids: seq<U64>): Bytes {
    if ids == [] then [] else BlockField(key, EncodeAll(ids))
  }

  /** The fields in ascending order, the zero ones left out. */
  function EncodeParams(p: Params): Bytes {
    BoolField(0x08, p.allowAllCodeIDs) + PackedField(0x12, p.allowedCodeIDs) +
    WordField(0x18, p.maxGasBefore) + WordField(0x20, p.maxGasAfter)
  }

  lemma WordReads(num: int, v: U64)
    requires (num == 3 || num == 4) && v != 0
    ensures var s := WordField(num * 8, v);
            1 < |s| < TWO_63 && ParamsField(Cursor(s, 0)) == Field(NumberOp(num, v), |s|)
  {
    hide ParamsField, WordAt;
    WordAtFront(num * 8, v);
    NumberStep(Cursor(WordField(num * 8, v), 0), num, v);
  }

  lemma BoolReads()
    ensures ParamsField(Cursor([0x08, 1], 0)) == Field(SetAllowAll(true), 2)
  {
    hide ParamsField, WordAt;
    assert [0x08, 1] == [0x08] + EncodeVarint(1);
    WordAtFront(0x08, 1);
    NumberStep(Cursor([0x08, 1], 0), 1, 1);
  }

  lemma NumberStep(c: Cursor, num: int, v: U64)
    requires 1 <= num <= 4 && WordAt(c, num, v)
    ensures ParamsField(c) == Field(NumberOp(num, v), |c.Rest()|)
  {
    hide ReadTag, ReadVarint, ReadExtent, Skipped, SkipUnknown;
  }

  lemma PackedFieldReads(ids: seq<U64>)
    requires ids != [] && |PackedField(0x12, ids)| < TWO_63
    ensures var s := PackedField(0x12, ids);
            s != [] && ParamsField(Cursor(s, 0)) == Field(AppendIDs(ids), |s|)
  {
    var s := PackedField(0x12, ids);
    var payload := EncodeAll(ids);
    assert s == BlockField(0x12, payload);
    hide PackedField, EncodeAll, BlockAt, BlockField, ParamsField;
    BlockAtFront(0x12, payload);
    PackedReadsAll(ids);
    PackedStep(Cursor(s, 0), payload, ids);
  }

  lemma PackedStep(c: Cursor, payload: Slice, ids: seq<U64>)
    requires BlockAt(c, 2, payload) && ReadPacked(payload, |payload|) == Packed(ids, |payload|, None)
    ensures ParamsField(c) == Field(AppendIDs(ids), |c.Rest()|)
  {
    hide ReadTag, ReadExtent, ReadPacked, Skipped, ParamsField;
    BlockExtent(c, 2, payload);
    var e := ReadExtent(Skipped(c, 1));
    PackedCase(c, 1, e.header, e.length);
  }

  lemma PackedCase(c: Cursor, n: nat, h: nat, length: nat)
    requires n <= |c.Rest()| && ReadTag(c.Rest()) == Tag(2, 2, n)
    requires ReadExtent(Skipped(c, n)) == Extent(h, length)
    requires ReadPacked(Skipped(c, n).Rest()[h..], length).err.None?
    ensures var p := ReadPacked(Skipped(c, n).Rest()[h..], length);
            ParamsField(c) == Field(AppendIDs(p.ids), n + h + p.len)
  {
    hide ReadTag, ReadExtent, ReadPacked, Skipped, SkipUnknown;
  }

  /** Decoding the encoding of `q` on top of `p`: a set flag stays, the lists are joined, and the
      last non-zero limit wins. */
  function Merge(p: Params, q: Params): Params {
    Params(p.allowAllCodeIDs || q.allowAllCodeIDs,
           p.allowedCodeIDs + q.allowedCodeIDs,
           if q.maxGasBefore == 0 then p.maxGasBefore else q.maxGasBefore,
           if q.maxGasAfter == 0 then p.maxGasAfter else q.maxGasAfter)
  }

  lemma BoolDecodes(b: bool, p: Params)
    ensures DecodeParams(BoolField(0x08, b), p) ==
            (p.(allowAllCodeIDs := p.allowAllCodeIDs || b), None)
  {
    FieldIsLocal();
    BoolReads();
    hide ParamsField, Local, Advances, Decode;
    if b {
      DecodeSingle(ParamsField, Apply, [0x08, 1], SetAllowAll(true), p);
    } else {
      DecodeNothing(ParamsField, Apply, p);
    }
  }

  lemma PackedDecodes(ids: seq<U64>, p: Params)
    requires |PackedField(0x12, ids)| < TWO_63
    ensures DecodeParams(PackedField(0x12, ids), p) ==
            (p.(allowedCodeIDs := p.allowedCodeIDs + ids), None)
  {
    FieldIsLocal();
    hide ParamsField, Local, Advances, Decode, BlockField;
    if ids != [] {
      PackedFieldReads(ids);
      DecodeSingle(ParamsField, Apply, PackedField(0x12, ids), AppendIDs(ids), p);
    } else {
      Unit(p.allowedCodeIDs);
      DecodeNothing(ParamsField, Apply, p);
    }
  }

  lemma WordDecodes(num: int, v: U64, p: Params)
    requires num == 3 || num == 4
    ensures |WordField(num * 8, v)| < TWO_63
    ensures DecodeParams(WordField(num * 8, v), p) == (if v == 0 then p else Apply(p, NumberOp(num, v)), None)
  {
    FieldIsLocal();
    EncodeWordLength(v);
    if v != 0 {
      WordReads(num, v);
      hide ParamsField, Local, Advances, Decode;
      DecodeSingle(ParamsField, Apply, WordField(num * 8, v), NumberOp(num, v), p);
    } else {
      DecodeNothing(ParamsField, Apply, p);
    }
  }

  lemma Then(a: Bytes, b: Bytes, p: Params, p1: Params, p2: Params)
    requires |a| + |b| < TWO_63 && DecodeParams(a, p) == (p1, None) && DecodeParams(b, p1) == (p2, None)
    ensures DecodeParams(a + b, p) == (p2, None)
  {
    FieldIsLocal();
    hide Decode, Local, Advances, ParamsField;
    DecodeThen(ParamsField, Apply, a, b, p, p1, p2);
  }

  lemma MergeEncoded(p: Params, q: Params)
    requires |EncodeParams(q)| < TWO_63
    ensures DecodeParams(EncodeParams(q), p) == (Merge(p, q), None)
  {
    hide BoolField, PackedField, WordField, DecodeParams;
    var a, b := BoolField(0x08, q.allowAllCodeIDs), PackedField(0x12, q.allowedCodeIDs);
    var c, d := WordField(0x18, q.maxGasBefore), WordField(0x20, q.maxGasAfter);
    BoolDecodes(q.allowAllCodeIDs, p);
    var p1 := p.(allowAllCodeIDs := p.allowAllCodeIDs || q.allowAllCodeIDs);
    PackedDecodes(q.allowedCodeIDs, p1);
    var p2 := p1.(allowedCodeIDs := p1.allowedCodeIDs + q.allowedCodeIDs);
    Then(a, b, p, p1, p2);
    WordDecodes(3, q.maxGasBefore, p2);
    var p3 := if q.maxGasBefore == 0 then p2 else p2.(maxGasBefore := q.maxGasBefore);
    Then(a + b, c, p, p2, p3);
    WordDecodes(4, q.maxGasAfter, p3);
    Then(a + b + c, d, p, p3, Merge(p, q));
  }

  /** Every value survives the wire. */
  lemma RoundTrip(p: Params)
    requires |EncodeParams(p)| < TWO_63
    ensures DecodeParams(EncodeParams(p), ZERO) == (p, None)
  {
    MergeEncoded(ZERO, p);
    Unit(p.allowedCodeIDs);
  }

  /** Distinct values have distinct encodings. */
  lemma EncodingInjective(p: Params, q: Params)
    requires |EncodeParams(p)| < TWO_63 && EncodeParams(p) == EncodeParams(q)
    ensures p == q
  {
    RoundTrip(p);
    RoundTrip(q);
  }

  // ---------- Concatenation and unknown fields ----------

  lemma ParamsConcat(a: Slice, b: Slice, p: Params)
    requires |a| + |b| < TWO_63 && DecodeParams(a, p).1.None?
    ensures DecodeParams(a + b, p).1.None? <==> DecodeParams(b, DecodeParams(a, p).0).1.None?
    ensures DecodeParams(b, DecodeParams(a, p).0).1.None? ==>
              DecodeParams(a + b, p) == DecodeParams(b, DecodeParams(a, p).0)
  {
    FieldIsLocal();
    hide Decode, Local, Advances, ParamsField;
    DecodeConcat(ParamsField, Apply, a, b, p);
  }

  /** A complete record of a field number that the message does not have. */
  ghost predicate UnknownField(u: Slice) {
    ReadTag(u).Tag? && ReadTag(u).fieldNum > 4 && Skip.Record(u) == Some(|u|)
  }

  lemma UnknownReads(u: Slice)
    requires UnknownField(u)
    ensures ParamsField(Cursor(u, 0)) == Field(Keep, |u|)
  {
    var c := Cursor(u, 0);
    assert c.Rest() == u;
    SkipIsRecord(c, Keep);
    hide ReadTag, SkipUnknown, Skip.Record;
  }

  /** An unknown field at a field boundary changes nothing. */
  lemma UnknownFieldIgnored(a: Slice, u: Slice, b: Slice, p: Params)
    requires |a| + |u| + |b| < TWO_63 && UnknownField(u) && DecodeParams(a, p).1.None?
    ensures DecodeParams(a + u + b, p).1.None? <==> DecodeParams(a + b, p).1.None?
    ensures DecodeParams(a + b, p).1.None? ==> DecodeParams(a + u + b, p) == DecodeParams(a + b, p)
  {
    FieldIsLocal();
    UnknownReads(u);
    hide Decode, Local, Advances, ParamsField, ReadTag, Skip.Record;
    UnknownIgnored(ParamsField, Apply, Keep, a, u, b, p);
  }

  // ---------- How much a decoder can append ----------

  lemma FieldAppends(c: Cursor, p: Params)
    ensures var f := ParamsField(c);
            |Apply(p, f.op).allowedCodeIDs| <= |p.allowedCodeIDs| + if f.Field? then f.len else |c.Rest()|
  {
    hide ReadTag, ReadExtent, ReadPacked, ReadVarint;
  }

  lemma {:induction false} AppendsFrom(s: Slice, i: nat, p: Params)
    requires i <= |s| && Advances(ParamsField)
    ensures |Fold(Apply, p, Parse(ParamsField, s, i).ops).allowedCodeIDs| <= |p.allowedCodeIDs| + |s| - i
    decreases |s| - i
  {
    hide ParamsField, Advances, Parse;
    if i == |s| {
      ParseEnd(ParamsField, s);
    } else if ParamsField(Cursor(s, i)).Bad? {
      var f := ParamsField(Cursor(s, i));
      FieldAppends(Cursor(s, i), p);
      ParseBad(ParamsField, s, i);
      FoldOne(Apply, p, f.op);
    } else {
      var f := ParamsField(Cursor(s, i));
      FieldAppends(Cursor(s, i), p);
      ParseStep(ParamsField, s, i);
      AppendsFrom(s, i + f.len, Apply(p, f.op));
      FoldStep(Apply, p, f.op, Parse(ParamsField, s, i + f.len).ops);
    }
  }

  /** Whatever the input, decoding appends at most one element per byte of it. */
  lemma AppendsAtMostOnePerByte(s: Slice, p: Params)
    ensures |DecodeParams(s, p).0.allowedCodeIDs| <= |p.allowedCodeIDs| + |s|
  {
    FieldIsLocal();
    AppendsFrom(s, 0, p);
  }

  // ---------- Fields and wire records ----------

  /** A packed payload that stops in the middle of a varint. */
  ghost predicate CutsVarint(c: Cursor) {
    && ReadTag(c.Rest()).Tag? && ReadTag(c.Rest()).fieldNum == 2 && ReadTag(c.Rest()).wireType == 2
    && var d := Skipped(c, ReadTag(c.Rest()).len);
    && ReadExtent(d).Extent? && ReadExtent(d).length > 0
    && d.Rest()[ReadExtent(d).header + ReadExtent(d).length - 1] >= 128
  }

  /** A turn of the loop consumes exactly one wire record, except that it runs past a packed payload
      that stops in the middle of a varint. */
  lemma FieldIsRecord(c: Cursor)
    requires ParamsField(c).Field?
    ensures Skip.Record(c.Rest()).Some?
    ensures ParamsField(c).len >= Skip.Record(c.Rest()).value
    ensures ParamsField(c).len == Skip.Record(c.Rest()).value <==> !CutsVarint(c)
  {
    hide ReadVarint, ReadTag, ReadExtent, ReadPacked, Skipped, SkipUnknown, Skip.Record;
    var t := ReadTag(c.Rest());
    if t.fieldNum > 4 {
      SkipIsRecord(c, Keep);
    } else if t.wireType == 0 {
      VarintIsRecord(c);
    } else {
      PackedIsRecord(c);
    }
  }

  lemma PackedIsRecord(c: Cursor)
    requires ParamsField(c).Field? && ReadTag(c.Rest()).fieldNum == 2 && ReadTag(c.Rest()).wireType == 2
    ensures Skip.Record(c.Rest()).Some?
    ensures ParamsField(c).len >= Skip.Record(c.Rest()).value
    ensures ParamsField(c).len == Skip.Record(c.Rest()).value <==> !CutsVarint(c)
  {
    hide ReadVarint, ReadTag, ReadExtent, ReadPacked, Skipped, SkipUnknown, Skip.Record;
    BlockIsRecord(c);
    var d := Skipped(c, ReadTag(c.Rest()).len);
    var e := ReadExtent(d);
    PackedCount(d.Rest()[e.header..], e.length);
  }

  /** A packed payload of one byte that stops in the middle of a varint: its record is three bytes
      long, and the field takes the fourth as well. */
  lemma BorrowsNextByte()
    ensures var c := Cursor([0x12, 0x01, 0x80, 0x01], 0);
            && CutsVarint(c)
            && ParamsField(c) == Field(AppendIDs([128]), 4)
            && Skip.Record(c.Rest()) == Some(3)
  {
    hide ReadTag, ReadExtent, ReadPacked, Skip.Record, ParamsField, Skipped;
    var c := Cursor([0x12, 0x01, 0x80, 0x01], 0);
    BorrowedRest();
    BorrowedExtent(Skipped(c, 1));
    BorrowedList();
    PackedCase(c, 1, 1, 1);
    BlockIsRecord(c);
  }

  lemma BorrowedRest()
    ensures var c := Cursor([0x12, 0x01, 0x80, 0x01], 0);
            && |c.Rest()| == 4 && ReadTag(c.Rest()) == Tag(2, 2, 1)
            && Skipped(c, 1).Rest() == [0x01, 0x80, 0x01] && Skipped(c, 1).Rest()[1..] == [0x80, 0x01]
  {
    hide ReadTag;
    var s := [0x12, 0x01, 0x80, 0x01];
    assert s == [0x12] + [0x01, 0x80, 0x01];
    ReadOneByteTag(0x12, [0x01, 0x80, 0x01]);
    assert Cursor(s, 0).Rest() == s;
    assert [0x01, 0x80, 0x01][1..] == [0x80, 0x01];
  }

  lemma BorrowedExtent(d: Cursor)
    requires d.Rest() == [0x01, 0x80, 0x01]
    ensures ReadExtent(d) == Extent(1, 1)
  {
    PutLast(1);
    assert d.Rest() == EncodeVarint(1) + [0x80, 0x01];
    ReadEncoded(1, [0x80, 0x01]);
    hide ReadVarint;
  }

  lemma BorrowedList()
    ensures ReadPacked([0x80, 0x01], 1) == Packed([128], 2, None)
  {
    var s := [0x80, 0x01];
    assert EncodeVarint(128) == s;
    ReadEncoded(128, []);
    Unit(s);
    hide ReadVarint;
    assert ReadPacked(s[2..], -1) == Packed([], 0, None);
  }
}
