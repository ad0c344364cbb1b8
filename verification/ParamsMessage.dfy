/** The generated methods of `Params`: in-place encoding from the back of a buffer, and decoding
    into the fields of the message. */
module ParamsMessage {
  import opened Machine
  import opened Varint
  import opened Framing
  import opened Messages
  import opened Fields
  import opened PackedList
  import opened Writers
  import opened ParamsCodec

  // ---------- The packed scratch buffer ----------

  method SumOfSov(ids: seq<U64>) returns (l: nat)
    ensures l == SumSov(ids)
  {
    l := 0;
    for k := 0 to |ids|
      invariant l + SumSov(ids[k..]) == SumSov(ids)
    {
      l := l + Sov(ids[k]);
      assert ids[k..][1..] == ids[k + 1..];
    }
  }

  method PackVarints(ids: seq<U64>) returns (scratch: array<Byte>, j: nat)
    ensures fresh(scratch)
    ensures j == |EncodeAll(ids)| <= scratch.Length && scratch[..j] == EncodeAll(ids)
  {
    scratch := new Byte[|ids| * 10];
    j := 0;
    for k := 0 to |ids|
      invariant j <= 10 * k
      invariant scratch[..j] == EncodeAll(ids[..k])
    {
      ghost var done := scratch[..j];
      EncodeWordLength(ids[k]);
      j := AppendVarint(scratch, j, ids[k]);
      assert ids[..k + 1] == ids[..k] + [ids[k]];
      EncodeAllAppend(ids[..k], ids[k]);
    }
    assert ids[..|ids|] == ids;
  }

  method AppendVarint(buf: array<Byte>, j: nat, v: U64) returns (next: nat)
    requires j + |EncodeVarint(v)| <= buf.Length
    modifies buf
    ensures next == j + |EncodeVarint(v)|
    ensures buf[..next] == old(buf[..j]) + EncodeVarint(v)
  {
    hide EncodeVarint;
    var num: nat := v;
    next := j;
    while num >= 0x80
      invariant j <= next
      invariant next + |EncodeVarint(num)| == j + |EncodeVarint(v)|
      invariant buf[..next] + EncodeVarint(num) == old(buf[..j]) + EncodeVarint(v)
      decreases num
    {
      ghost var done := buf[..next];
      PutSeptet(done, num);
      buf[next] := num % 128 + 128;
      num := num / 128;
      next := next + 1;
      assert buf[..next] == done + [buf[next - 1]];
    }
    PutLast(num);
    ghost var done := buf[..next];
    buf[next] := num;
    next := next + 1;
    assert buf[..next] == done + [num];
  }

  method PutPackedField(dAtA: array<Byte>, at: nat, ghost end: nat, key: Byte, ids: seq<U64>) returns (i: nat)
    requires |PackedField(key, ids)| <= at <= end <= dAtA.Length && |PackedField(key, ids)| < TWO_63
    modifies dAtA
    ensures i == at - |PackedField(key, ids)|
    ensures dAtA[i..end] == PackedField(key, ids) + old(dAtA[at..end])
    ensures Outside(dAtA, i, at)
  {
    i := at;
    ghost var rest := dAtA[at..end];
    if |ids| > 0 {
      var scratch, j := PackVarints(ids);
      hide EncodeAll, EncodeVarint;
      i := PutBytes(dAtA, i, scratch[..j]);
      assert dAtA[at..end] == rest;
      i := PutBlockHeader(dAtA, i, at, end, key);
    } else {
      assert PackedField(key, ids) + rest == rest;
    }
  }

  // ---------- The pre-count of packed elements ----------

  /** `for _, integer := range dAtA[iNdEx:postIndex]`: the count that sizes the list. */
  method CountElements(payload: Bytes) returns (count: nat)
    ensures count == Terminators(payload)
  {
    count := 0;
    for k := 0 to |payload|
      invariant count + Terminators(payload[k..]) == Terminators(payload)
    {
      if payload[k] < 128 {
        count := count + 1;
      }
      assert payload[k..][1..] == payload[k + 1..];
    }
  }

  lemma Associate(a: Bytes, b: Bytes, c: Bytes, d: Bytes)
    ensures a + (b + (c + d)) == a + b + c + d
    ensures |a + b + c + d| == |a| + |b| + |c| + |d|
  {
  }

  // ---------- The message ----------

  class ParamsMessage {
    var allowAllCodeIDs: bool
    var allowedCodeIDs: seq<U64>
    var maxGasBefore: U64
    var maxGasAfter: U64

    function Value(): Params
      reads this
    {
      Params(allowAllCodeIDs, allowedCodeIDs, maxGasBefore, maxGasAfter)
    }

    constructor ()
      ensures Value() == ZERO
    {
      allowAllCodeIDs, allowedCodeIDs, maxGasBefore, maxGasAfter := false, [], 0, 0;
    }

    constructor Of(p: Params)
      ensures Value() == p
    {
      allowAllCodeIDs, allowedCodeIDs := p.allowAllCodeIDs, p.allowedCodeIDs;
      maxGasBefore, maxGasAfter := p.maxGasBefore, p.maxGasAfter;
    }

    method Size() returns (n: nat)
      ensures n == |EncodeParams(Value())|
    {
      n := 0;
      if allowAllCodeIDs {
        n := n + 2;
      }
      if |allowedCodeIDs| > 0 {
        var l := SumOfSov(allowedCodeIDs);
        SumSovIsLength(allowedCodeIDs);
        SovIsLength(l);
        n := n + 1 + Sov(l) + l;
      }
      if maxGasBefore != 0 {
        SovIsLength(maxGasBefore);
        n := n + 1 + Sov(maxGasBefore);
      }
      if maxGasAfter != 0 {
        SovIsLength(maxGasAfter);
        n := n + 1 + Sov(maxGasAfter);
      }
    }

    /** Encode into the last bytes of `dAtA[..end]`. */
    method MarshalToSizedBuffer(dAtA: array<Byte>, end: nat) returns (n: nat)
      requires |EncodeParams(Value())| <= end <= dAtA.Length && |EncodeParams(Value())| < TWO_63
      modifies dAtA
      ensures n == |EncodeParams(Value())|
      ensures dAtA[end - n..end] == EncodeParams(Value())
      ensures Outside(dAtA, end - n, end)
    {
      ghost var a, b := BoolField(0x08, allowAllCodeIDs), PackedField(0x12, allowedCodeIDs);
      ghost var c, d := WordField(0x18, maxGasBefore), WordField(0x20, maxGasAfter);
      Associate(a, b, c, d);
      hide WordField, PackedField, BoolField, EncodeParams;
      var i := PutWordField(dAtA, end, end, 0x20, maxGasAfter);
      assert dAtA[i..end] == d + [] == d;
      i := PutWordField(dAtA, i, end, 0x18, maxGasBefore);
      i := PutPackedField(dAtA, i, end, 0x12, allowedCodeIDs);
      i := PutBoolField(dAtA, i, end, 0x08, allowAllCodeIDs);
      n := end - i;
    }

    method MarshalTo(dAtA: array<Byte>) returns (n: nat)
      requires |EncodeParams(Value())| <= dAtA.Length && |EncodeParams(Value())| < TWO_63
      modifies dAtA
      ensures n == |EncodeParams(Value())| && dAtA[..n] == EncodeParams(Value())
      ensures Outside(dAtA, 0, n)
    {
      var size := Size();
      n := MarshalToSizedBuffer(dAtA, size);
    }

    method Marshal() returns (dAtA: array<Byte>)
      requires |EncodeParams(Value())| < TWO_63
      ensures fresh(dAtA) && dAtA[..] == EncodeParams(Value())
    {
      var size := Size();
      dAtA := new Byte[size];
      var n := MarshalToSizedBuffer(dAtA, size);
      assert dAtA[..] == dAtA[size - n..size];
    }

    /** The message, and the error, that decoding leaves behind. */
    method Unmarshal(dAtA: Slice) returns (err: Option<Error>)
      modifies this
      ensures (Value(), err) == DecodeParams(dAtA, old(Value()))
    {
      var iNdEx := 0;
      FieldIsLocal();
      hide Local, Advances, ParamsField, DecodeFrom;
      while iNdEx < |dAtA|
        invariant iNdEx <= |dAtA|
        invariant DecodeFrom(ParamsField, Apply, dAtA, iNdEx, Value()) == DecodeParams(dAtA, old(Value()))
        decreases |dAtA| - iNdEx
      {
        ghost var m := Value();
        var next, e := DecodeField(dAtA, iNdEx);
        if e.Some? {
          DecodeBad(ParamsField, Apply, dAtA, iNdEx, m);
          return e;
        }
        DecodeStep(ParamsField, Apply, dAtA, iNdEx, m);
        iNdEx := next;
      }
      DecodeEnd(ParamsField, Apply, dAtA, Value());
      err := None;
    }

    /** One turn of the loop of `Unmarshal`. */
    method DecodeField(dAtA: Slice, preIndex: nat) returns (next: nat, err: Option<Error>)
      requires preIndex < |dAtA|
      modifies this
      ensures var f := ParamsField(Cursor(dAtA, preIndex));
              && Value() == Apply(old(Value()), f.op)
              && if f.Bad? then err == Some(f.err) else err == None && next == preIndex + f.len
    {
      hide ReadVarint, ReadTag, ReadExtent, ReadPacked, SkipUnknown;
      ghost var c := Cursor(dAtA, preIndex);
      var fieldNum, wireType, iNdEx, e := DecodeTag(dAtA, preIndex);
      if e.Some? {
        return preIndex, e;
      }
      ghost var n := iNdEx - preIndex;
      SkippedRest(c, n);
      assert Skipped(c, n) == Cursor(dAtA, iNdEx);
      match fieldNum {
        case 1 =>
          if wireType != 0 {
            return iNdEx, Some(WrongWireType(wireType, 1));
          }
          var v, at, e := DecodeVarint(dAtA, iNdEx);
          if e.Some? {
            return at, e;
          }
          allowAllCodeIDs := WrapInt(v) != 0;
          return at, None;
        case 2 =>
          if wireType == 0 {
            var v, at, e := DecodeVarint(dAtA, iNdEx);
            if e.Some? {
              return at, e;
            }
            allowedCodeIDs := allowedCodeIDs + [v];
            return at, None;
          } else if wireType == 2 {
            var start, postIndex, e := DecodeExtent(dAtA, iNdEx);
            if e.Some? {
              return start, e;
            }
            var elementCount;
            next, elementCount, err := DecodePacked(dAtA, start, postIndex);
            return;
          }
          return iNdEx, Some(WrongWireType(wireType, 2));
        case 3 =>
          if wireType != 0 {
            return iNdEx, Some(WrongWireType(wireType, 3));
          }
          maxGasBefore, next, err := DecodeVarint(dAtA, iNdEx);
        case 4 =>
          if wireType != 0 {
            return iNdEx, Some(WrongWireType(wireType, 4));
          }
          maxGasAfter, next, err := DecodeVarint(dAtA, iNdEx);
        case _ =>
          next, err := SkipField(dAtA, preIndex, Keep);
      }
    }

    /** The packed list. The count of elements only sizes the list's storage. */
    method DecodePacked(dAtA: Slice, start: nat, postIndex: nat) returns (iNdEx: nat, elementCount: nat, err: Option<Error>)
      requires start <= postIndex <= |dAtA|
      modifies this`allowedCodeIDs
      ensures var p := ReadPacked(dAtA[start..], postIndex - start);
              allowedCodeIDs == old(allowedCodeIDs) + p.ids && iNdEx == start + p.len && err == p.err
      ensures err.None? && (start == postIndex || dAtA[postIndex - 1] < 128) ==>
                |allowedCodeIDs| == |old(allowedCodeIDs)| + elementCount
    {
      hide ReadPacked, Terminators;
      elementCount := CountElements(dAtA[start..postIndex]);
      iNdEx, err := AppendPacked(dAtA, start, postIndex);
      PackedPrecount(dAtA, start, postIndex);
    }

    /** Varints are appended until the index has reached the end of the payload. */
    method AppendPacked(dAtA: Slice, start: nat, postIndex: nat) returns (iNdEx: nat, err: Option<Error>)
      requires start <= postIndex <= |dAtA|
      modifies this`allowedCodeIDs
      ensures iNdEx <= |dAtA|
      ensures Packed(allowedCodeIDs, iNdEx, err) == PackedFrom(dAtA, start, postIndex, old(allowedCodeIDs))
    {
      iNdEx := start;
      hide ReadVarint, PackedFrom;
      while iNdEx < postIndex
        invariant start <= iNdEx <= |dAtA|
        invariant PackedFrom(dAtA, iNdEx, postIndex, allowedCodeIDs) ==
                  PackedFrom(dAtA, start, postIndex, old(allowedCodeIDs))
        decreases |dAtA| - iNdEx
      {
        var v, next, e := DecodeVarint(dAtA, iNdEx);
        if e.Some? {
          PackedBadAt(dAtA, iNdEx, postIndex, allowedCodeIDs);
          return next, e;
        }
        PackedStepAt(dAtA, iNdEx, postIndex, allowedCodeIDs);
        allowedCodeIDs := allowedCodeIDs + [v];
        iNdEx := next;
      }
      PackedEnd(dAtA, iNdEx, postIndex, allowedCodeIDs);
      err := None;
    }
  }
}
