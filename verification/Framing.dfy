/** The loop that every generated `Unmarshal` shares: field after field, from a cursor that only
    moves forward. What a field does to the message is an operation of type `Op`; `Parse` collects
    the operations, so that a message is decoded by applying them in order. */
module Framing {
  import opened Machine
  import opened Varint
  import opened Skip

  /** `dAtA` with the index `iNdEx`. */
  datatype Cursor_ = Cursor(dAtA: Slice, i: nat) {
    function Rest(): Slice
      requires i <= |dAtA|
    {
      dAtA[i..]
    }
  }

  type Cursor = c: Cursor_ | c.i <= |c.dAtA| witness Cursor([], 0)

  /** One turn of the loop: the operation and the bytes consumed, or the error together with what
      the turn had already done to the message when it failed. */
  datatype Step<Op> = Field(op: Op, len: nat) | Bad(op: Op, err: Error)

  datatype Parsed<Op> = Parsed(ops: seq<Op>, err: Option<Error>)

  /** Every turn that succeeds moves the cursor forward, within the input. */
  ghost predicate Advances<Op(!new)>(field: Cursor -> Step<Op>) {
    forall c: Cursor :: field(c).Field? ==> 1 <= field(c).len <= |c.Rest()|
  }

  /** What a successful turn does depends on nothing but the bytes it consumes. */
  ghost predicate Local<Op(!new)>(field: Cursor -> Step<Op>)
    requires Advances(field)
  {
    forall c: Cursor, d: Cursor {:trigger field(c), field(d)} ::
      field(c).Field? && field(c).len <= |d.Rest()| && d.Rest()[..field(c).len] == c.Rest()[..field(c).len]
      ==> field(d) == field(c)
  }

  ghost function Parse<Op(!new)>(field: Cursor -> Step<Op>, s: Slice, i: nat): (p: Parsed<Op>)
    requires i <= |s| && Advances(field)
    ensures p.err.None? ==> |p.ops| <= |s| - i
    decreases |s| - i
  {
    if i == |s| then Parsed([], None)
    else
      match field(Cursor(s, i))
      case Bad(op, e) => Parsed([op], Some(e))
      case Field(op, n) =>
        assert n <= |Cursor(s, i).Rest()|;
        var rest := Parse(field, s, i + n);
        Parsed([op] + rest.ops, rest.err)
  }

  // ---------- Concatenation ----------

  lemma ParseStep<Op(!new)>(field: Cursor -> Step<Op>, s: Slice, i: nat)
    requires Advances(field) && i < |s| && (Parse(field, s, i).err.None? || field(Cursor(s, i)).Field?)
    ensures var f := field(Cursor(s, i));
            f.Field? && 1 <= f.len <= |s| - i &&
            Parse(field, s, i) ==
            Parsed([f.op] + Parse(field, s, i + f.len).ops, Parse(field, s, i + f.len).err)
  {
    var f := field(Cursor(s, i));
    if f.Field? {
      assert f.len <= |Cursor(s, i).Rest()|;
    }
  }

  lemma ParseBad<Op(!new)>(field: Cursor -> Step<Op>, s: Slice, i: nat)
    requires Advances(field) && i < |s| && field(Cursor(s, i)).Bad?
    ensures var f := field(Cursor(s, i)); Parse(field, s, i) == Parsed([f.op], Some(f.err))
  {
  }

  lemma ParseEnd<Op(!new)>(field: Cursor -> Step<Op>, s: Slice)
    requires Advances(field)
    ensures Parse(field, s, |s|) == Parsed([], None)
  {
  }

  /** A turn of the loop sees the same field wherever the same bytes stand. */
  lemma SameField<Op(!new)>(field: Cursor -> Step<Op>, c: Cursor, d: Cursor)
    requires Advances(field) && Local(field) && field(c).Field?
    requires field(c).len <= |d.Rest()| && d.Rest()[..field(c).len] == c.Rest()[..field(c).len]
    ensures field(d) == field(c)
  {
  }

  /** Inside a first part that decodes, what follows is not looked at. */
  lemma {:induction false} ParseFront<Op(!new)>(field: Cursor -> Step<Op>, a: Slice, b: Slice, i: nat)
    requires Advances(field) && Local(field)
    requires |a| + |b| < TWO_63 && i <= |a| && Parse(field, a, i).err.None?
    ensures Parse(field, a + b, i) ==
            Parsed(Parse(field, a, i).ops + Parse(field, a + b, |a|).ops, Parse(field, a + b, |a|).err)
    decreases |a| - i
  {
    hide Local, Advances, Parse;
    if i < |a| {
      ParseStep(field, a, i);
      var f := field(Cursor(a, i));
      assert Cursor(a + b, i).Rest()[..f.len] == Cursor(a, i).Rest()[..f.len];
      SameField(field, Cursor(a, i), Cursor(a + b, i));
      ParseStep(field, a + b, i);
      ParseFront(field, a, b, i + f.len);
      var x, y := Parse(field, a, i + f.len).ops, Parse(field, a + b, |a|).ops;
      Assoc([f.op], x, y);
    } else {
      ParseEnd(field, a);
    }
  }

  /** Where a field stands in the input makes no difference to whether and as what it decodes. */
  lemma {:induction false} ParseBack<Op(!new)>(field: Cursor -> Step<Op>, a: Slice, b: Slice, i: nat)
    requires Advances(field) && Local(field)
    requires |a| + |b| < TWO_63 && i <= |b|
    ensures Parse(field, a + b, |a| + i).err.None? <==> Parse(field, b, i).err.None?
    ensures Parse(field, b, i).err.None? ==> Parse(field, a + b, |a| + i) == Parse(field, b, i)
    decreases |b| - i
  {
    hide Local, Advances;
    if i == |b| {
    } else {
      var c, d := Cursor(b, i), Cursor(a + b, |a| + i);
      assert d.Rest() == c.Rest();
      if field(c).Field? {
        ParseStep(field, b, i);
        SameField(field, c, d);
        ParseStep(field, a + b, |a| + i);
        ParseBack(field, a, b, i + field(c).len);
        hide Parse;
      } else if field(d).Field? {
        ParseStep(field, a + b, |a| + i);
        SameField(field, d, c);
        assert false;
      }
    }
  }

  /** Decoding respects concatenation. */
  lemma ParseConcat<Op(!new)>(field: Cursor -> Step<Op>, a: Slice, b: Slice)
    requires Advances(field) && Local(field)
    requires |a| + |b| < TWO_63 && Parse(field, a, 0).err.None?
    ensures Parse(field, a + b, 0).err.None? <==> Parse(field, b, 0).err.None?
    ensures Parse(field, b, 0).err.None? ==>
              Parse(field, a + b, 0) == Parsed(Parse(field, a, 0).ops + Parse(field, b, 0).ops, None)
  {
    hide Local, Parse;
    ParseFront(field, a, b, 0);
    ParseBack(field, a, b, 0);
  }

  lemma ParseSingle<Op(!new)>(field: Cursor -> Step<Op>, s: Slice, op: Op)
    requires Advances(field) && s != [] && field(Cursor(s, 0)) == Field(op, |s|)
    ensures Parse(field, s, 0) == Parsed([op], None)
  {
    assert Parse(field, s, |s|) == Parsed([], None);
  }

  // ---------- The parts that all the field readers share ----------

  datatype Tag = Tag(fieldNum: int, wireType: nat, len: nat) | BadTag(err: Error)

  /** The field number is an `int32` of the tag's upper bits. */
  function ReadTag(s: Slice): (t: Tag)
    ensures t.Tag? ==> 1 <= t.len <= |s| && t.fieldNum > 0 && t.wireType < 8 && t.wireType != 4
  {
    var v := ReadVarint(s);
    if v.err.Some? then BadTag(v.err.value)
    else if v.value % 8 == 4 then BadTag(EndGroupForNonGroup)
    else if AsInt32(v.value / 8) <= 0 then BadTag(IllegalTag(AsInt32(v.value / 8), v.value))
    else Tag(AsInt32(v.value / 8), v.value % 8, v.len)
  }

  /** Exactly these tags are accepted. */
  lemma TagAccepted(s: Slice)
    ensures var v := ReadVarint(s);
            ReadTag(s).Tag? <==> v.err.None? && v.value % 8 != 4 && 0 < v.value / 8 % TWO_32 < TWO_31
  {
    hide ReadVarint;
  }

  /** Only tags below 2^34 keep their field number. From there on a tag is rejected or, with its
      upper bits cut off, taken for that of another field. */
  lemma TagSurvives(s: Slice)
    requires ReadTag(s).Tag?
    ensures ReadTag(s).fieldNum == ReadVarint(s).value / 8 <==> ReadVarint(s).value < 8 * TWO_31
    ensures ReadTag(s).fieldNum == ReadVarint(s).value / 8 % TWO_32 < TWO_31
  {
    hide ReadVarint;
  }

  /** A tag of 36 bits, for field 2^32 + 1, that is taken for that of field 1. */
  lemma TagAliases()
    ensures var s := [0x88, 0x80, 0x80, 0x80, 0x80, 0x01];
            ReadVarint(s) == Read(8 * (TWO_32 + 1), 6, None) && ReadTag(s) == Tag(1, 0, 6)
  {
    AliasingTag();
    var s := [0x88, 0x80, 0x80, 0x80, 0x80, 0x01];
    hide ReadVarint, EncodeVarint;
    ReadEncoded(8 * (TWO_32 + 1), []);
    Unit(s);
  }

  lemma AliasingTag()
    ensures EncodeVarint(8 * (TWO_32 + 1)) == [0x88, 0x80, 0x80, 0x80, 0x80, 0x01]
  {
    assert EncodeVarint(0x20_0000) == [0x80, 0x80, 0x80, 0x01];
    assert EncodeVarint(0x1000_0000) == [0x80] + EncodeVarint(0x20_0000);
  }

  /** A length prefix at the cursor: the bytes it takes and the length, checked against the input. */
  datatype Extent = Extent(header: nat, length: nat) | BadExtent(err: Error)

  function ReadExtent(c: Cursor): (e: Extent)
    ensures e.Extent? ==> 1 <= e.header && e.header + e.length <= |c.Rest()|
  {
    var v := ReadVarint(c.Rest());
    if v.err.Some? then BadExtent(v.err.value)
    else
      var length := WrapInt(v.value);
      if length < 0 then BadExtent(InvalidLength)
      else
        var postIndex := WrapInt(c.i + v.len + length);
        if postIndex < 0 then BadExtent(InvalidLength)
        else if postIndex > |c.dAtA| then BadExtent(UnexpectedEOF)
        else Extent(v.len, length)
  }

  /** A length is accepted exactly when what it measures is there. */
  lemma ExtentAccepted(c: Cursor)
    ensures var v := ReadVarint(c.Rest());
            ReadExtent(c) == Extent(v.len, v.value) <==> v.err.None? && v.value <= |c.Rest()| - v.len
    ensures ReadExtent(c).Extent? ==> ReadExtent(c) == Extent(ReadVarint(c.Rest()).len, ReadVarint(c.Rest()).value)
  {
    hide ReadVarint;
  }

  /** The default case: rewind to the tag and skip the whole record. */
  function SkipUnknown<Op>(c: Cursor, keep: Op): (r: Step<Op>)
    ensures r.op == keep
    ensures r.Field? ==> 1 <= r.len <= |c.Rest()|
  {
    match Scan(c.Rest(), 0, 0)
    case Err(e) => Bad(keep, e)
    case Ok(n) =>
      ScanIsRecord(c.Rest());
      if WrapInt(c.i + n) < 0 then Bad(keep, InvalidLength)
      else if WrapInt(c.i + n) > |c.dAtA| then Bad(keep, UnexpectedEOF)
      else Field(keep, n)
  }

  lemma TagIsVarint(s: Slice)
    requires ReadTag(s).Tag?
    ensures var v := ReadVarint(s);
            v.err.None? && v.value % 8 == ReadTag(s).wireType && v.len == ReadTag(s).len
  {
    hide ReadVarint;
  }

  lemma TagLocal(s: Slice, t: Slice, n: nat)
    requires ReadTag(s).Tag? && ReadTag(s).len <= n <= |s| && n <= |t| && t[..n] == s[..n]
    ensures ReadTag(t) == ReadTag(s)
  {
    Prefixes(s, t, n, ReadVarint(s).len);
    ReadVarintLocal(s, t);
  }

  lemma VarintLocal(s: Slice, t: Slice, at: nat, n: nat)
    requires at <= n <= |s| && n <= |t| && t[..n] == s[..n]
    requires ReadVarint(s[at..]).err.None? && at + ReadVarint(s[at..]).len <= n
    ensures ReadVarint(t[at..]) == ReadVarint(s[at..])
  {
    hide ReadVarint;
    assert s[at..][..n - at] == s[..n][at..] == t[..n][at..] == t[at..][..n - at];
    Prefixes(s[at..], t[at..], n - at, ReadVarint(s[at..]).len);
    ReadVarintLocal(s[at..], t[at..]);
  }

  function Skipped(c: Cursor, n: nat): Cursor
    requires n <= |c.Rest()|
  {
    Cursor(c.dAtA, c.i + n)
  }

  lemma SkippedRest(c: Cursor, n: nat)
    requires n <= |c.Rest()|
    ensures Skipped(c, n).Rest() == c.Rest()[n..]
  {
  }

  lemma ExtentLocal(c: Cursor, d: Cursor, n: nat)
    requires ReadExtent(c).Extent?
    requires ReadExtent(c).header + ReadExtent(c).length <= n <= |c.Rest()|
    requires n <= |d.Rest()| && d.Rest()[..n] == c.Rest()[..n]
    ensures ReadExtent(d) == ReadExtent(c)
  {
    Prefixes(c.Rest(), d.Rest(), n, ReadExtent(c).header);
    ReadVarintLocal(c.Rest(), d.Rest());
    hide ReadVarint;
  }

  lemma SkipLocal<Op>(c: Cursor, d: Cursor, keep: Op)
    requires var r := SkipUnknown(c, keep); r.Field? && r.len <= |d.Rest()| && d.Rest()[..r.len] == c.Rest()[..r.len]
    ensures SkipUnknown(d, keep) == SkipUnknown(c, keep)
  {
    ScanIsRecord(c.Rest());
    RecordLocal(c.Rest(), d.Rest());
    ScanIsRecord(d.Rest());
    hide Scan, Record;
  }

  /** A field of unknown number decodes to `keep` exactly when it is one complete record. */
  lemma SkipIsRecord<Op>(c: Cursor, keep: Op)
    ensures SkipUnknown(c, keep).Field? <==> Record(c.Rest()).Some?
    ensures Record(c.Rest()).Some? ==> SkipUnknown(c, keep) == Field(keep, Record(c.Rest()).value)
  {
    ScanIsRecord(c.Rest());
    hide Scan, Record;
  }

  // ---------- The shared methods ----------

  method DecodeTag(dAtA: Slice, iNdEx: nat) returns (fieldNum: int, wireType: nat, next: nat, err: Option<Error>)
    requires iNdEx <= |dAtA|
    ensures match ReadTag(dAtA[iNdEx..])
            case BadTag(e) => err == Some(e)
            case Tag(num, wt, n) => err == None && fieldNum == num && wireType == wt && next == iNdEx + n
  {
    var wire, at, e := DecodeVarint(dAtA, iNdEx);
    fieldNum, wireType, next, err := AsInt32(wire / 8), wire % 8, at, e;
    if err.Some? {
      return;
    }
    if wireType == 4 {
      err := Some(EndGroupForNonGroup);
    } else if fieldNum <= 0 {
      err := Some(IllegalTag(fieldNum, wire));
    }
  }

  method DecodeExtent(dAtA: Slice, iNdEx: nat) returns (start: nat, postIndex: int, err: Option<Error>)
    requires iNdEx <= |dAtA|
    ensures match ReadExtent(Cursor(dAtA, iNdEx))
            case BadExtent(e) => err == Some(e)
            case Extent(h, n) => err == None && start == iNdEx + h && postIndex == start + n
  {
    var word, at, e := DecodeVarint(dAtA, iNdEx);
    start, postIndex, err := at, 0, e;
    if err.Some? {
      return;
    }
    var length := WrapInt(word);
    if length < 0 {
      return start, 0, Some(InvalidLength);
    }
    postIndex := WrapInt(start + length);
    if postIndex < 0 {
      err := Some(InvalidLength);
    } else if postIndex > |dAtA| {
      err := Some(UnexpectedEOF);
    }
  }

  method SkipField<Op>(dAtA: Slice, preIndex: nat, ghost keep: Op) returns (next: nat, err: Option<Error>)
    requires preIndex <= |dAtA|
    ensures match SkipUnknown(Cursor(dAtA, preIndex), keep)
            case Bad(_, e) => err == Some(e)
            case Field(_, n) => err == None && next == preIndex + n
  {
    next := preIndex;
    var skipped := SkipRecord(dAtA[preIndex..]);
    if skipped.Err? {
      return next, Some(skipped.error);
    }
    var skippy := skipped.value;
    if skippy < 0 || WrapInt(preIndex + skippy) < 0 {
      return next, Some(InvalidLength);
    }
    if WrapInt(preIndex + skippy) > |dAtA| {
      return next, Some(UnexpectedEOF);
    }
    next := preIndex + skippy;
    err := None;
  }
}
