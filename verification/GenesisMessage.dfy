/** The generated methods of `GenesisState`. */
module GenesisMessage {
  import opened Machine
  import opened Varint
  import opened Framing
  import opened Messages
  import opened Fields
  import opened Writers
  import P = ParamsCodec
  import opened ParamsMessage
  import opened GenesisCodec

  class GenesisMessage {
    var params: ParamsMessage?
    var nextAccountID: U64

    constructor ()
      ensures Value() == EMPTY && params == null
    {
      params, nextAccountID := null, 0;
    }

    function Value(): GenesisState
      reads this, params
    {
      GenesisState(if params == null then None else Some(params.Value()), nextAccountID)
    }

    method Size() returns (n: nat)
      ensures n == |EncodeGenesis(Value())|
    {
      n := 0;
      if params != null {
        var l := params.Size();
        SovIsLength(l);
        n := n + 1 + l + Sov(l);
      }
      if nextAccountID != 0 {
        SovIsLength(nextAccountID);
        n := n + 1 + Sov(nextAccountID);
      }
    }

    method MarshalToSizedBuffer(dAtA: array<Byte>, end: nat) returns (n: nat)
      requires |EncodeGenesis(Value())| <= end <= dAtA.Length && |EncodeGenesis(Value())| < TWO_63
      modifies dAtA
      ensures n == |EncodeGenesis(Value())|
      ensures dAtA[end - n..end] == EncodeGenesis(Value())
      ensures Outside(dAtA, end - n, end)
    {
      hide WordField, ParamsField;
      Unit(WordField(0x10, nextAccountID));
      var i := PutWordField(dAtA, end, end, 0x10, nextAccountID);
      i := PutParams(dAtA, i, end);
      n := end - i;
    }

    /** The nested message is encoded in place, into the prefix of the buffer that is still free,
        and its length and key are put in front of it. */
    method PutParams(dAtA: array<Byte>, at: nat, ghost end: nat) returns (i: nat)
      requires |ParamsField(Value().params)| <= at <= end <= dAtA.Length && |ParamsField(Value().params)| < TWO_63
      modifies dAtA
      ensures i == at - |ParamsField(Value().params)|
      ensures dAtA[i..end] == ParamsField(Value().params) + old(dAtA[at..end])
      ensures Outside(dAtA, i, at)
    {
      hide P.EncodeParams, EncodeVarint, BlockField;
      i := at;
      ghost var rest := dAtA[at..end];
      if params != null {
        BlockLength(0x0a, P.EncodeParams(params.Value()));
        var size := params.MarshalToSizedBuffer(dAtA, i);
        assert dAtA[at..end] == rest;
        i := PutBlockHeader(dAtA, i - size, i, end, 0x0a);
      } else {
        Unit(rest);
      }
    }

    method Marshal() returns (dAtA: array<Byte>)
      requires |EncodeGenesis(Value())| < TWO_63
      ensures fresh(dAtA) && dAtA[..] == EncodeGenesis(Value())
    {
      var size := Size();
      dAtA := new Byte[size];
      var n := MarshalToSizedBuffer(dAtA, size);
      assert dAtA[..] == dAtA[size - n..size];
    }

    method Unmarshal(dAtA: Slice) returns (err: Option<Error>)
      modifies this, params
      ensures (Value(), err) == DecodeGenesis(dAtA, old(Value()))
      ensures params == old(params) || fresh(params)
    {
      var iNdEx := 0;
      FieldIsLocal();
      hide Local, Advances, GenesisField, DecodeFrom;
      while iNdEx < |dAtA|
        invariant iNdEx <= |dAtA|
        invariant params == old(params) || fresh(params)
        invariant DecodeFrom(GenesisField, Apply, dAtA, iNdEx, Value()) == DecodeGenesis(dAtA, old(Value()))
        decreases |dAtA| - iNdEx
      {
        ghost var m := Value();
        var next, e := DecodeField(dAtA, iNdEx);
        if e.Some? {
          DecodeBad(GenesisField, Apply, dAtA, iNdEx, m);
          return e;
        }
        DecodeStep(GenesisField, Apply, dAtA, iNdEx, m);
        iNdEx := next;
      }
      DecodeEnd(GenesisField, Apply, dAtA, Value());
      err := None;
    }

    /** One turn of the loop of `Unmarshal`. */
    method DecodeField(dAtA: Slice, preIndex: nat) returns (next: nat, err: Option<Error>)
      requires preIndex < |dAtA|
      modifies this, params
      ensures params == old(params) || fresh(params)
      ensures var f := GenesisField(Cursor(dAtA, preIndex));
              && Value() == Apply(old(Value()), f.op)
              && if f.Bad? then err == Some(f.err) else err == None && next == preIndex + f.len
    {
      hide ReadVarint, ReadTag, ReadExtent, SkipUnknown, Parse, P.ParamsField, Fold;
      ghost var c := Cursor(dAtA, preIndex);
      var fieldNum, wireType, iNdEx, e := DecodeTag(dAtA, preIndex);
      if e.Some? {
        return preIndex, e;
      }
      ghost var n := iNdEx - preIndex;
      SkippedRest(c, n);
      assert Skipped(c, n) == Cursor(dAtA, iNdEx);
      match fieldNum {
        case 1 =>
          if wireType != 2 {
            return iNdEx, Some(WrongWireType(wireType, 1));
          }
          var start, postIndex, e := DecodeExtent(dAtA, iNdEx);
          if e.Some? {
            return start, e;
          }
          if params == null {
            params := new ParamsMessage();
          }
          assert dAtA[start..postIndex] == Skipped(c, n).Rest()[start - iNdEx..postIndex - iNdEx];
          err := params.Unmarshal(dAtA[start..postIndex]);
          next := postIndex;
        case 2 =>
          if wireType != 0 {
            return iNdEx, Some(WrongWireType(wireType, 2));
          }
          nextAccountID, next, err := DecodeVarint(dAtA, iNdEx);
        case _ =>
          next, err := SkipField(dAtA, preIndex, Same);
      }
    }
  }
}
