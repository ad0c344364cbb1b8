/** The generated methods of `MsgRegisterAccount`. */
module RegisterMessage {
  import opened Machine
  import opened Varint
  import opened Framing
  import opened Messages
  import opened Fields
  import opened Writers
  import opened RegisterCodec

  method PutBytesField(dAtA: array<Byte>, at: nat, ghost end: nat, key: Byte, b: Bytes) returns (i: nat)
    requires |BytesField(key, b)| <= at <= end <= dAtA.Length && |BytesField(key, b)| < TWO_63
    modifies dAtA
    ensures i == at - |BytesField(key, b)|
    ensures dAtA[i..end] == BytesField(key, b) + old(dAtA[at..end])
    ensures Outside(dAtA, i, at)
  {
    i := at;
    if |b| > 0 {
      i := PutBlock(dAtA, at, end, key, b);
    }
  }

  method PutBlock(dAtA: array<Byte>, at: nat, ghost end: nat, key: Byte, b: Bytes) returns (i: nat)
    requires |BlockField(key, b)| <= at <= end <= dAtA.Length && |BlockField(key, b)| < TWO_63
    modifies dAtA
    ensures i == at - |BlockField(key, b)|
    ensures dAtA[i..end] == BlockField(key, b) + old(dAtA[at..end])
    ensures Outside(dAtA, i, at)
  {
    hide EncodeVarint;
    ghost var rest := dAtA[at..end];
    i := PutBytes(dAtA, at, b);
    assert dAtA[at..end] == rest;
    i := PutBlockHeader(dAtA, i, at, end, key);
  }

  lemma {:induction false} FundsSplit<Coin>(cc: CoinCodec<Coin>, funds: seq<Coin>, k: nat)
    requires k < |funds|
    ensures FundsField(cc, funds[k..]) == BlockField(0x22, cc.encode(funds[k])) + FundsField(cc, funds[k + 1..])
    ensures |FundsField(cc, funds[k..])| <= |FundsField(cc, funds)|
  {
    assert funds[k..][1..] == funds[k + 1..];
    FundsSuffix(cc, funds, k);
  }

  lemma {:induction false} FundsSuffix<Coin>(cc: CoinCodec<Coin>, funds: seq<Coin>, k: nat)
    requires k <= |funds|
    ensures |FundsField(cc, funds[k..])| <= |FundsField(cc, funds)|
  {
    if k > 0 {
      FundsSuffix(cc, funds[1..], k - 1);
      assert funds[1..][k - 1..] == funds[k..];
    } else {
      assert funds[0..] == funds;
    }
  }

  class RegisterMessage<Coin(!new)> {
    const codec: CoinCodec<Coin>
    var sender: Bytes
    var codeID: U64
    var msg: GoBytes
    var funds: seq<Coin>
    var salt: GoBytes

    constructor (codec: CoinCodec<Coin>)
      ensures this.codec == codec && Value() == Empty()
    {
      this.codec := codec;
      sender, codeID, msg, funds, salt := [], 0, Nil, [], Nil;
    }

    function Value(): RegisterAccount<Coin>
      reads this
    {
      RegisterAccount(sender, codeID, msg, funds, salt)
    }

    method Size() returns (n: nat)
      requires Lawful(codec)
      ensures n == |EncodeRegister(codec, Value())|
    {
      n := SizeOfBytes(0x0a, sender);
      if codeID != 0 {
        SovIsLength(codeID);
        n := n + 1 + Sov(codeID);
      }
      var l := SizeOfBytes(0x1a, msg.Contents());
      n := n + l;
      l := SizeOfFunds();
      n := n + l;
      l := SizeOfBytes(0x2a, salt.Contents());
      n := n + l;
    }

    static method SizeOfBytes(ghost key: Byte, b: Bytes) returns (n: nat)
      ensures n == |BytesField(key, b)|
    {
      n := 0;
      var l := |b|;
      if l > 0 {
        SovIsLength(l);
        n := 1 + l + Sov(l);
      }
    }

    method SizeOfFunds() returns (n: nat)
      requires Lawful(codec)
      ensures n == |FundsField(codec, funds)|
    {
      n := 0;
      for k := 0 to |funds|
        invariant n + |FundsField(codec, funds[k..])| == |FundsField(codec, funds)|
      {
        FundsSplit(codec, funds, k);
        ghost var bytes := codec.encode(funds[k]);
        var l := codec.size(funds[k]);
        SovIsLength(l);
        n := n + 1 + l + Sov(l);
      }
    }

    method MarshalToSizedBuffer(dAtA: array<Byte>, end: nat) returns (n: nat)
      requires |EncodeRegister(codec, Value())| <= end <= dAtA.Length
      requires |EncodeRegister(codec, Value())| < TWO_63
      modifies dAtA
      ensures n == |EncodeRegister(codec, Value())|
      ensures dAtA[end - n..end] == EncodeRegister(codec, Value())
      ensures Outside(dAtA, end - n, end)
    {
      hide BytesField, WordField, FundsField, EncodeRegister;
      FieldsInOrder(codec, Value());
      var i := PutBack(dAtA, end);
      i := PutWordField(dAtA, i, end, 0x10, codeID);
      i := PutBytesField(dAtA, i, end, 0x0a, sender);
      n := end - i;
    }

    /** The last three fields. */
    method PutBack(dAtA: array<Byte>, end: nat) returns (i: nat)
      requires |BytesField(0x1a, msg.Contents())| + |FundsField(codec, funds)| + |BytesField(0x2a, salt.Contents())|
               <= end <= dAtA.Length
      requires |BytesField(0x1a, msg.Contents())| < TWO_63 && |FundsField(codec, funds)| < TWO_63
      requires |BytesField(0x2a, salt.Contents())| < TWO_63
      modifies dAtA
      ensures i <= end
      ensures dAtA[i..end] == BytesField(0x1a, msg.Contents()) +
                              (FundsField(codec, funds) + BytesField(0x2a, salt.Contents()))
      ensures Outside(dAtA, i, end)
    {
      hide BytesField, FundsField;
      i := PutBytesField(dAtA, end, end, 0x2a, salt.Contents());
      Unit(BytesField(0x2a, salt.Contents()));
      i := PutFunds(dAtA, i, end);
      i := PutBytesField(dAtA, i, end, 0x1a, msg.Contents());
    }

    /** The coins are written from the last to the first. */
    method PutFunds(dAtA: array<Byte>, at: nat, ghost end: nat) returns (i: nat)
      requires |FundsField(codec, funds)| <= at <= end <= dAtA.Length && |FundsField(codec, funds)| < TWO_63
      modifies dAtA
      ensures i == at - |FundsField(codec, funds)|
      ensures dAtA[i..end] == FundsField(codec, funds) + old(dAtA[at..end])
      ensures Outside(dAtA, i, at)
    {
      i := at;
      ghost var rest := dAtA[at..end];
      Unit(rest);
      hide BlockField;
      var iNdEx := |funds| - 1;
      while iNdEx >= 0
        invariant -1 <= iNdEx < |funds|
        invariant i == at - |FundsField(codec, funds[iNdEx + 1..])|
        invariant dAtA[i..end] == FundsField(codec, funds[iNdEx + 1..]) + rest
        invariant Outside(dAtA, i, at)
      {
        FundsSplit(codec, funds, iNdEx);
        ghost var done := FundsField(codec, funds[iNdEx + 1..]);
        i := PutBlock(dAtA, i, end, 0x22, codec.encode(funds[iNdEx]));
        Assoc(BlockField(0x22, codec.encode(funds[iNdEx])), done, rest);
        iNdEx := iNdEx - 1;
      }
      assert funds[0..] == funds;
    }

    method Marshal() returns (dAtA: array<Byte>)
      requires Lawful(codec) && |EncodeRegister(codec, Value())| < TWO_63
      ensures fresh(dAtA) && dAtA[..] == EncodeRegister(codec, Value())
    {
      var size := Size();
      dAtA := new Byte[size];
      var n := MarshalToSizedBuffer(dAtA, size);
      assert dAtA[..] == dAtA[size - n..size];
    }

    method Unmarshal(dAtA: Slice) returns (err: Option<Error>)
      modifies this
      ensures (Value(), err) == DecodeRegister(codec, dAtA, old(Value()))
    {
      var iNdEx := 0;
      ghost var field := Reader(codec);
      FieldIsLocal(codec);
      hide Local, Advances, RegisterField, DecodeFrom, Apply;
      while iNdEx < |dAtA|
        invariant iNdEx <= |dAtA|
        invariant DecodeFrom(field, Applier(), dAtA, iNdEx, Value()) == DecodeRegister(codec, dAtA, old(Value()))
        decreases |dAtA| - iNdEx
      {
        ghost var m := Value();
        var next, e := DecodeField(dAtA, iNdEx);
        if e.Some? {
          DecodeBad(field, Applier(), dAtA, iNdEx, m);
          return e;
        }
        DecodeStep(field, Applier(), dAtA, iNdEx, m);
        iNdEx := next;
      }
      DecodeEnd(field, Applier(), dAtA, Value());
      err := None;
    }

    /** One turn of the loop of `Unmarshal`. */
    method DecodeField(dAtA: Slice, preIndex: nat) returns (next: nat, err: Option<Error>)
      requires preIndex < |dAtA|
      modifies this
      ensures var f := RegisterField(codec, Cursor(dAtA, preIndex));
              && Value() == Apply(old(Value()), f.op)
              && if f.Bad? then err == Some(f.err) else err == None && next == preIndex + f.len
    {
      hide ReadVarint, ReadTag, ReadExtent, SkipUnknown;
      ghost var c := Cursor(dAtA, preIndex);
      var fieldNum, wireType, iNdEx, e := DecodeTag(dAtA, preIndex);
      if e.Some? {
        return preIndex, e;
      }
      ghost var n := iNdEx - preIndex;
      SkippedRest(c, n);
      assert Skipped(c, n) == Cursor(dAtA, iNdEx);
      if fieldNum > 5 {
        next, err := SkipField<RegisterOp<Coin>>(dAtA, preIndex, Same);
        return;
      }
      if fieldNum == 2 {
        if wireType != 0 {
          return iNdEx, Some(WrongWireType(wireType, 2));
        }
        codeID, next, err := DecodeVarint(dAtA, iNdEx);
        return;
      }
      if wireType != 2 {
        return iNdEx, Some(WrongWireType(wireType, fieldNum));
      }
      var start, postIndex, e' := DecodeExtent(dAtA, iNdEx);
      if e'.Some? {
        return start, e';
      }
      var payload: Slice := dAtA[start..postIndex];
      assert payload == Skipped(c, n).Rest()[start - iNdEx..postIndex - iNdEx];
      next, err := postIndex, None;
      match fieldNum {
        case 1 => sender := payload;
        case 3 => msg := Buffer(payload);
        case 4 =>
          var (coin, failed) := codec.decode(payload);
          funds := funds + [coin];
          err := failed;
        case _ => salt := Buffer(payload);
      }
    }
  }

  /** The encoding, associated as it is written. */
  lemma FieldsInOrder<Coin>(cc: CoinCodec<Coin>, m: RegisterAccount<Coin>)
    ensures var a, b := BytesField(0x0a, m.sender), WordField(0x10, m.codeID);
            var c, d, e := BytesField(0x1a, m.msg.Contents()), FundsField(cc, m.funds), BytesField(0x2a, m.salt.Contents());
            && EncodeRegister(cc, m) == a + (b + (c + (d + e)))
            && |EncodeRegister(cc, m)| == |a| + |b| + |c| + |d| + |e|
  {
    hide BytesField, WordField, FundsField;
    Associate(BytesField(0x0a, m.sender), WordField(0x10, m.codeID), BytesField(0x1a, m.msg.Contents()),
              FundsField(cc, m.funds), BytesField(0x2a, m.salt.Contents()));
  }

  lemma Associate(a: Bytes, b: Bytes, c: Bytes, d: Bytes, e: Bytes)
    ensures a + (b + (c + (d + e))) == a + b + c + d + e
    ensures |a + b + c + d + e| == |a| + |b| + |c| + |d| + |e|
  {
  }
}
