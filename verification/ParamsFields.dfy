/** What each field of `Params` does to the message: on every input that is one field, and on every
    input whose first field is faulty. With `ParamsConcat` this settles every input. */
module ParamsFields {
  import opened Machine
  import opened Varint
  import opened Framing
  import opened Messages
  import opened Fields
  import opened PackedList
  import opened ParamsCodec
  import Skip

  // ---------- Numbers ----------

  /** A number is the last of its field that counts, zero included; in the list it is one more element. */
  function WithNumber(p: Params, num: int, v: U64): Params
    requires 1 <= num <= 4
  {
    match num
    case 1 => p.(allowAllCodeIDs := v != 0)
    case 2 => p.(allowedCodeIDs := p.allowedCodeIDs + [v])
    case 3 => p.(maxGasBefore := v)
    case _ => p.(maxGasAfter := v)
  }

  lemma NumberDecodes(s: Slice, v: U64, p: Params)
    requires ReadTag(s).Tag? && 1 <= ReadTag(s).fieldNum <= 4 && ReadTag(s).wireType == 0
    requires ReadVarint(s[ReadTag(s).len..]) == Read(v, |s| - ReadTag(s).len, None)
    ensures DecodeParams(s, p) == (WithNumber(p, ReadTag(s).fieldNum, v), None)
  {
    hide ReadTag, ReadVarint, ParamsField, Local, Advances, Decode, NumberOp, Apply, WithNumber;
    var num := ReadTag(s).fieldNum;
    NumberStands(s, v);
    FieldIsLocal();
    NumberApplies(p, num, v);
    DecodeSingle(ParamsField, Apply, s, NumberOp(num, v), p);
  }

  lemma NumberApplies(p: Params, num: int, v: U64)
    requires 1 <= num <= 4
    ensures Apply(p, NumberOp(num, v)) == WithNumber(p, num, v)
  {
  }

  lemma NumberStands(s: Slice, v: U64)
    requires ReadTag(s).Tag? && 1 <= ReadTag(s).fieldNum <= 4 && ReadTag(s).wireType == 0
    requires ReadVarint(s[ReadTag(s).len..]) == Read(v, |s| - ReadTag(s).len, None)
    ensures ParamsField(Cursor(s, 0)) == Field(NumberOp(ReadTag(s).fieldNum, v), |s|)
  {
    hide ReadTag, ReadVarint, ReadExtent, SkipUnknown;
    assert Cursor(s, 0).Rest() == s;
  }

  lemma ShortNumber(num: int, v: U64, p: Params)
    requires 1 <= num <= 4
    ensures |EncodeVarint(v)| <= 10
    ensures DecodeParams([num * 8] + EncodeVarint(v), p) == (WithNumber(p, num, v), None)
  {
    hide ReadTag, ReadVarint, EncodeVarint, DecodeParams;
    var key: Byte := num * 8;
    var e := EncodeVarint(v);
    EncodeWordLength(v);
    assert key / 8 == num && key % 8 == 0;
    ReadOneByteTag(key, e);
    ReadEncoded(v, []);
    Unit(e);
    NumberDecodes([key] + e, v, p);
  }

  /** The flag: on for any number but zero, and off again for zero. */
  lemma FlagDecodes(v: U64, p: Params)
    ensures |EncodeVarint(v)| <= 10
    ensures DecodeParams([0x08] + EncodeVarint(v), p) == (p.(allowAllCodeIDs := v != 0), None)
  {
    hide DecodeParams, EncodeVarint;
    ShortNumber(1, v, p);
  }

  /** An element of the list that is not packed. */
  lemma UnpackedDecodes(v: U64, p: Params)
    ensures |EncodeVarint(v)| <= 10
    ensures DecodeParams([0x10] + EncodeVarint(v), p) == (p.(allowedCodeIDs := p.allowedCodeIDs + [v]), None)
  {
    hide DecodeParams, EncodeVarint;
    ShortNumber(2, v, p);
  }

  /** The limits, explicit zeros included. */
  lemma LimitsDecode(v: U64, p: Params)
    ensures |EncodeVarint(v)| <= 10
    ensures DecodeParams([0x18] + EncodeVarint(v), p) == (p.(maxGasBefore := v), None)
    ensures DecodeParams([0x20] + EncodeVarint(v), p) == (p.(maxGasAfter := v), None)
  {
    hide DecodeParams, EncodeVarint;
    ShortNumber(3, v, p);
    ShortNumber(4, v, p);
  }

  // ---------- The list, packed or not ----------

  function WithList(p: Params, ids: seq<U64>): Params {
    p.(allowedCodeIDs := p.allowedCodeIDs + ids)
  }

  lemma PackedDecodesTo(s: Slice, n: nat, h: nat, length: nat, p: Params)
    requires n <= |s| && ReadTag(s) == Tag(2, 2, n) && ReadExtent(Cursor(s, n)) == Extent(h, length)
    requires var q := ReadPacked(s[n + h..], length); q.err.None? && n + h + q.len == |s|
    ensures DecodeParams(s, p) == (WithList(p, ReadPacked(s[n + h..], length).ids), None)
  {
    hide ReadTag, ReadExtent, ReadPacked, ParamsField, Local, Advances, Decode;
    FieldIsLocal();
    var c := Cursor(s, 0);
    assert c.Rest() == s && Skipped(c, n) == Cursor(s, n);
    assert Cursor(s, n).Rest()[h..] == s[n + h..];
    PackedCase(c, n, h, length);
    DecodeSingle(ParamsField, Apply, s, AppendIDs(ReadPacked(s[n + h..], length).ids), p);
  }

  /** A list as any writer may put it: element by element, in packed runs, or mixed. */
  datatype Chunk = Single(id: U64) | Several(ids: seq<U64>)

  function EncodeChunk(chunk: Chunk): Bytes {
    match chunk
    case Single(id) => [0x10] + EncodeVarint(id)
    case Several(ids) => BlockField(0x12, EncodeAll(ids))
  }

  function EncodeChunks(chunks: seq<Chunk>): Bytes {
    if chunks == [] then [] else EncodeChunk(chunks[0]) + EncodeChunks(chunks[1..])
  }

  function Elements(chunk: Chunk): seq<U64> {
    match chunk
    case Single(id) => [id]
    case Several(ids) => ids
  }

  function Listed(chunks: seq<Chunk>): seq<U64> {
    if chunks == [] then [] else Elements(chunks[0]) + Listed(chunks[1..])
  }

  lemma SeveralDecode(ids: seq<U64>, p: Params)
    requires |BlockField(0x12, EncodeAll(ids))| < TWO_63
    ensures DecodeParams(BlockField(0x12, EncodeAll(ids)), p) ==
            (p.(allowedCodeIDs := p.allowedCodeIDs + ids), None)
  {
    hide ReadTag, ReadExtent, ReadVarint, EncodeVarint, EncodeAll, ReadPacked, DecodeParams, BlockField;
    var payload := EncodeAll(ids);
    var s := BlockField(0x12, payload);
    var size := EncodeVarint(|payload|);
    BlockSplit(0x12, payload);
    ReadOneByteTag(0x12, size + payload);
    SizeReads(Cursor(s, 1), payload);
    PackedReadsAll(ids);
    PackedDecodesTo(s, 1, |size|, |payload|, p);
  }

  lemma ChunkDecodes(chunk: Chunk, p: Params)
    requires |EncodeChunk(chunk)| < TWO_63
    ensures DecodeParams(EncodeChunk(chunk), p) == (WithList(p, Elements(chunk)), None)
  {
    hide DecodeParams, EncodeVarint, EncodeAll, BlockField;
    match chunk
    case Single(id) => UnpackedDecodes(id, p);
    case Several(ids) => SeveralDecode(ids, p);
  }

  /** However the list is written, its elements arrive in order. */
  lemma {:induction false} ListDecodes(chunks: seq<Chunk>, p: Params)
    requires |EncodeChunks(chunks)| < TWO_63
    ensures DecodeParams(EncodeChunks(chunks), p) ==
            (p.(allowedCodeIDs := p.allowedCodeIDs + Listed(chunks)), None)
    decreases |chunks|
  {
    hide DecodeParams, EncodeChunk, Elements;
    if chunks == [] {
      Unit(p.allowedCodeIDs);
      NothingDecodes(p);
    } else {
      var p1 := WithList(p, Elements(chunks[0]));
      ChunkDecodes(chunks[0], p);
      ListDecodes(chunks[1..], p1);
      Assoc(p.allowedCodeIDs, Elements(chunks[0]), Listed(chunks[1..]));
      Then(EncodeChunk(chunks[0]), EncodeChunks(chunks[1..]), p, p1, WithList(p, Listed(chunks)));
    }
  }

  lemma NothingDecodes(p: Params)
    ensures DecodeParams([], p) == (p, None)
  {
    FieldIsLocal();
    hide ParamsField, Local, Advances, Decode;
    DecodeNothing(ParamsField, Apply, p);
  }

  /** The bytes, field by field: each field that is not zero stands behind the encoding of those of lower
      number, and one that is zero takes no bytes. */
  lemma FieldsAscend(p: Params)
    ensures var p3 := p.(maxGasAfter := 0);
            var p2 := p3.(maxGasBefore := 0);
            var p1 := p2.(allowedCodeIDs := []);
            var payload := EncodeAll(p.allowedCodeIDs);
            && EncodeParams(p) ==
               EncodeParams(p3) + (if p.maxGasAfter == 0 then [] else [0x20] + EncodeVarint(p.maxGasAfter))
            && EncodeParams(p3) ==
               EncodeParams(p2) + (if p.maxGasBefore == 0 then [] else [0x18] + EncodeVarint(p.maxGasBefore))
            && EncodeParams(p2) ==
               EncodeParams(p1) + (if p.allowedCodeIDs == [] then [] else [0x12] + EncodeVarint(|payload|) + payload)
            && EncodeParams(p1) == if p.allowAllCodeIDs then [0x08, 0x01] else []
  {
    hide EncodeVarint, EncodeAll;
  }

  /** Parameters that are all zero take no bytes. */
  lemma ZeroTakesNothing()
    ensures EncodeParams(ZERO) == []
  {
  }

  // ---------- Faulty fields ----------

  /** What is left of the message, and the error, when the first field is faulty: a bad tag, a wire type
      that is not the field's, a number that breaks off, an incomplete unknown record. */
  lemma FaultyFieldRejected(s: Slice, p: Params)
    requires s != []
    ensures var t := ReadTag(s);
            && (t.BadTag? ==> DecodeParams(s, p) == (p, Some(t.err)))
            && (t.Tag? && t.fieldNum > 4 && Skip.Record(s).None? ==>
                  DecodeParams(s, p).0 == p && DecodeParams(s, p).1.Some?)
            && (t.Tag? && t.fieldNum <= 4 && t.wireType != 0 && (t.fieldNum != 2 || t.wireType != 2) ==>
                  DecodeParams(s, p) == (p, Some(WrongWireType(t.wireType, t.fieldNum))))
            && (t.Tag? && t.fieldNum <= 4 && t.wireType == 0 ==>
                  var v := ReadVarint(s[t.len..]);
                  v.err.Some? ==>
                    DecodeParams(s, p) == (if t.fieldNum <= 2 then p else WithNumber(p, t.fieldNum, v.value), v.err))
  {
    hide ReadTag, ReadVarint, ReadExtent, ReadPacked, Skip.Record, ParamsField, Local, Advances, DecodeFrom;
    FieldIsLocal();
    FaultyField(s);
    if ParamsField(Cursor(s, 0)).Bad? {
      DecodeBad(ParamsField, Apply, s, 0, p);
    }
  }

  lemma FaultyField(s: Slice)
    requires s != []
    ensures var t := ReadTag(s);
            var f := ParamsField(Cursor(s, 0));
            && (t.BadTag? ==> f == Bad(Keep, t.err))
            && (t.Tag? && t.fieldNum > 4 && Skip.Record(s).None? ==> f.Bad? && f.op == Keep)
            && (t.Tag? && t.fieldNum <= 4 && t.wireType != 0 && (t.fieldNum != 2 || t.wireType != 2) ==>
                  f == Bad(Keep, WrongWireType(t.wireType, t.fieldNum)))
            && (t.Tag? && t.fieldNum <= 4 && t.wireType == 0 ==>
                  var v := ReadVarint(s[t.len..]);
                  v.err.Some? ==>
                    f == Bad(if t.fieldNum <= 2 then Keep else NumberOp(t.fieldNum, v.value), v.err.value))
  {
    hide ReadTag, ReadVarint, ReadExtent, ReadPacked, SkipUnknown, Skip.Record, NumberOp;
    var c := Cursor(s, 0);
    assert c.Rest() == s;
    SkipIsRecord(c, Keep);
    if ReadTag(s).Tag? && ReadTag(s).fieldNum <= 4 && ReadTag(s).wireType == 0 {
      FaultyNumber(s);
      hide ParamsField;
    }
  }

  lemma FaultyNumber(s: Slice)
    requires var t := ReadTag(s); t.Tag? && t.fieldNum <= 4 && t.wireType == 0
    ensures var t := ReadTag(s);
            var v := ReadVarint(s[t.len..]);
            v.err.Some? ==>
              ParamsField(Cursor(s, 0)) ==
              Bad(if t.fieldNum <= 2 then Keep else NumberOp(t.fieldNum, v.value), v.err.value)
  {
    hide ReadTag, ReadVarint, ReadExtent, ReadPacked, SkipUnknown;
    assert Cursor(s, 0).Rest() == s;
  }

  /** A packed list that breaks off: its length does not fit, or a varint in it is faulty and the elements
      before it stay. */
  lemma FaultyListRejected(s: Slice, n: nat, p: Params)
    requires n <= |s| && ReadTag(s) == Tag(2, 2, n)
    ensures var e := ReadExtent(Cursor(s, n));
            && (e.BadExtent? ==> DecodeParams(s, p) == (p, Some(e.err)))
            && (e.Extent? ==>
                  var q := ReadPacked(s[n + e.header..], e.length);
                  q.err.Some? ==> DecodeParams(s, p) == (WithList(p, q.ids), q.err))
  {
    hide ReadTag, ReadExtent, ReadPacked, ParamsField, Local, Advances, DecodeFrom;
    FieldIsLocal();
    FaultyList(s, n);
    Unit(p.allowedCodeIDs);
    if ParamsField(Cursor(s, 0)).Bad? {
      DecodeBad(ParamsField, Apply, s, 0, p);
    }
  }

  lemma FaultyList(s: Slice, n: nat)
    requires n <= |s| && ReadTag(s) == Tag(2, 2, n)
    ensures s != []
    ensures var e := ReadExtent(Cursor(s, n));
            var f := ParamsField(Cursor(s, 0));
            && (e.BadExtent? ==> f == Bad(Keep, e.err))
            && (e.Extent? ==>
                  var q := ReadPacked(s[n + e.header..], e.length);
                  q.err.Some? ==> f == Bad(AppendIDs(q.ids), q.err.value))
  {
    hide ReadTag, ReadVarint, ReadExtent, ReadPacked, SkipUnknown;
    var c := Cursor(s, 0);
    var d := Cursor(s, n);
    assert c.Rest() == s && Skipped(c, n) == d;
    if ReadExtent(d).Extent? {
      assert d.Rest()[ReadExtent(d).header..] == s[n + ReadExtent(d).header..];
    }
  }
}
