/** The encodings of single fields, and what the shared readers make of them. */
module Fields {
  import opened Machine
  import opened Varint
  import opened Framing
  import Skip

  /** Fields of a zero value are left out. */
  function BoolField(key: Byte, b: bool): Bytes {
    if b then [key, 1] else []
  }

  function WordField(key: Byte, v: U64): Bytes {
    if v == 0 then [] else [key] + EncodeVarint(v)
  }

  /** A length-delimited field. */
  function BlockField(key: Byte, payload: Bytes): Bytes {
    [key] + EncodeVarint(|payload|) + payload
  }

  lemma ReadOneByteTag(key: Byte, rest: Bytes)
    requires 8 <= key < 128 && key % 8 != 4 && |rest| + 1 < TWO_63
    ensures ReadTag([key] + rest) == Tag(key / 8, key % 8, 1)
    ensures ([key] + rest)[1..] == rest
  {
    PutLast(key);
    ReadEncoded(key, rest);
    hide ReadVarint;
  }

  /** From the cursor to the end of the input: a one-byte tag and a varint. */
  ghost predicate WordAt(c: Cursor, num: int, v: U64) {
    && 1 <= |c.Rest()|
    && ReadTag(c.Rest()) == Tag(num, 0, 1)
    && ReadVarint(Skipped(c, 1).Rest()) == Read(v, |c.Rest()| - 1, None)
  }

  lemma WordAtFront(key: Byte, v: U64)
    requires 8 <= key < 128 && key % 8 == 0
    ensures |EncodeVarint(v)| < 11
    ensures WordAt(Cursor([key] + EncodeVarint(v), 0), key / 8, v)
  {
    hide ReadVarint, ReadTag, EncodeVarint;
    EncodeWordLength(v);
    var e := EncodeVarint(v);
    ReadOneByteTag(key, e);
    ReadEncoded(v, []);
    Unit(e);
    assert Cursor([key] + e, 0).Rest() == [key] + e;
    SkippedRest(Cursor([key] + e, 0), 1);
  }

  /** From the cursor to the end of the input: a one-byte tag, a length and the payload. */
  ghost predicate BlockAt(c: Cursor, num: int, payload: Bytes) {
    && 1 <= |c.Rest()|
    && ReadTag(c.Rest()) == Tag(num, 2, 1)
    && var d := Skipped(c, 1);
    && ReadExtent(d).Extent?
    && ReadExtent(d).length == |payload|
    && d.Rest()[ReadExtent(d).header..] == payload
  }

  lemma BlockExtent(c: Cursor, num: int, payload: Bytes)
    requires BlockAt(c, num, payload)
    ensures var d := Skipped(c, 1);
            && ReadExtent(d).Extent? && ReadExtent(d).length == |payload|
            && d.Rest()[ReadExtent(d).header..] == payload
            && 1 + ReadExtent(d).header + |payload| == |c.Rest()|
  {
    hide ReadTag, ReadExtent;
  }

  lemma BlockAtFront(key: Byte, payload: Bytes)
    requires 8 <= key < 128 && key % 8 == 2 && |BlockField(key, payload)| < TWO_63
    ensures BlockAt(Cursor(BlockField(key, payload), 0), key / 8, payload)
  {
    hide ReadVarint, EncodeVarint, ReadTag, ReadExtent;
    var s := BlockField(key, payload);
    var size := EncodeVarint(|payload|);
    assert s == [key] + (size + payload);
    ReadOneByteTag(key, size + payload);
    SkippedRest(Cursor(s, 0), 1);
    SizeReads(Skipped(Cursor(s, 0), 1), payload);
  }

  lemma SizeReads(d: Cursor, payload: Bytes)
    requires d.Rest() == EncodeVarint(|payload|) + payload && |payload| < TWO_63
    ensures ReadExtent(d) == Extent(|EncodeVarint(|payload|)|, |payload|)
    ensures d.Rest()[|EncodeVarint(|payload|)|..] == payload
  {
    hide ReadVarint, EncodeVarint;
    ReadEncoded(|payload|, payload);
  }

  lemma BlockLength(key: Byte, payload: Bytes)
    ensures |BlockField(key, payload)| == 1 + |EncodeVarint(|payload|)| + |payload|
  {
    hide EncodeVarint;
  }

  lemma BlockSplit(key: Byte, payload: Bytes)
    ensures var size := EncodeVarint(|payload|);
            BlockField(key, payload) == [key] + (size + payload) && BlockField(key, payload)[1 + |size|..] == payload
  {
    hide EncodeVarint;
    Assoc([key], EncodeVarint(|payload|), payload);
  }

  /** A skipped record holds its tag. */
  lemma SkipTag<Op>(c: Cursor, keep: Op)
    requires SkipUnknown(c, keep).Field? && ReadTag(c.Rest()).Tag?
    ensures ReadTag(c.Rest()).len <= SkipUnknown(c, keep).len
  {
    Skip.ScanIsRecord(c.Rest());
    hide Skip.Scan;
  }

  /** A length-delimited payload reads the same wherever the same bytes stand. */
  lemma BlockLocal(c: Cursor, d: Cursor, n: nat)
    requires ReadExtent(c).Extent? && n == ReadExtent(c).header + ReadExtent(c).length
    requires n <= |d.Rest()| && d.Rest()[..n] == c.Rest()[..n]
    ensures ReadExtent(d) == ReadExtent(c)
    ensures d.Rest()[ReadExtent(c).header..n] == c.Rest()[ReadExtent(c).header..n]
  {
    hide ReadExtent;
    var h := ReadExtent(c).header;
    ExtentLocal(c, d, n);
    assert c.Rest()[h..n] == c.Rest()[..n][h..];
    assert d.Rest()[h..n] == d.Rest()[..n][h..];
  }

  // ---------- Fields are wire records ----------

  /** A tag of wire type 0 and a varint. */
  lemma VarintIsRecord(c: Cursor)
    requires ReadTag(c.Rest()).Tag? && ReadTag(c.Rest()).wireType == 0
    requires ReadVarint(Skipped(c, ReadTag(c.Rest()).len).Rest()).err.None?
    ensures var n := ReadTag(c.Rest()).len;
            Skip.Record(c.Rest()) == Some(n + ReadVarint(Skipped(c, n).Rest()).len)
  {
    hide ReadVarint, ReadTag, Skipped, Skip.Record;
    SkippedRest(c, ReadTag(c.Rest()).len);
    TagIsVarint(c.Rest());
    VarintRecord(c.Rest());
  }

  lemma VarintRecord(s: Slice)
    requires var t := ReadVarint(s);
             t.err.None? && t.value % 8 == 0 && ReadVarint(s[t.len..]).err.None?
    ensures Skip.Record(s) == Some(ReadVarint(s).len + ReadVarint(s[ReadVarint(s).len..]).len)
  {
    hide ReadVarint;
  }

  /** A tag of wire type 2, a length and as many bytes. */
  lemma BlockIsRecord(c: Cursor)
    requires ReadTag(c.Rest()).Tag? && ReadTag(c.Rest()).wireType == 2
    requires ReadExtent(Skipped(c, ReadTag(c.Rest()).len)).Extent?
    ensures var e := ReadExtent(Skipped(c, ReadTag(c.Rest()).len));
            Skip.Record(c.Rest()) == Some(ReadTag(c.Rest()).len + e.header + e.length)
  {
    hide ReadVarint, ReadTag, ReadExtent, Skipped, Skip.Record;
    var n := ReadTag(c.Rest()).len;
    SkippedRest(c, n);
    TagIsVarint(c.Rest());
    ExtentIsVarint(Skipped(c, n));
    BlockRecord(c.Rest());
  }

  lemma ExtentIsVarint(c: Cursor)
    requires ReadExtent(c).Extent?
    ensures var v := ReadVarint(c.Rest());
            && v.err.None? && v.len == ReadExtent(c).header && v.value == ReadExtent(c).length
            && v.len + v.value <= |c.Rest()|
  {
    hide ReadVarint;
  }

  lemma BlockRecord(s: Slice)
    requires var t := ReadVarint(s);
             && t.err.None? && t.value % 8 == 2
             && var v := ReadVarint(s[t.len..]);
             && v.err.None? && v.len + v.value <= |s| - t.len
    ensures var t := ReadVarint(s);
            var v := ReadVarint(s[t.len..]);
            Skip.Record(s) == Some(t.len + v.len + v.value)
  {
    hide ReadVarint;
  }
}
