/** What each field of `MsgRegisterAccount` does to the message: on every input that is one field, and on
    every input whose first field is faulty. */
module RegisterFields {
  import opened Machine
  import opened Varint
  import opened Framing
  import opened Messages
  import opened Fields
  import opened RegisterCodec
  import Skip

  /** The message with a length-delimited field, and the error: byte fields are replaced, by an empty
      buffer where the payload is empty; a coin is appended, also when its own decoding fails. */
  function WithPayload<Coin>(cc: CoinCodec<Coin>, m: RegisterAccount<Coin>, num: int, payload: Slice)
    : (RegisterAccount<Coin>, Option<Error>)
    requires num in {1, 3, 4, 5}
  {
    match num
    case 1 => (m.(sender := payload), None)
    case 3 => (m.(msg := Buffer(payload)), None)
    case 4 => (m.(funds := m.funds + [cc.decode(payload).0]), cc.decode(payload).1)
    case _ => (m.(salt := Buffer(payload)), None)
  }

  lemma PayloadDecodesTo<Coin(!new)>(cc: CoinCodec<Coin>, s: Slice, num: int, n: nat, h: nat, length: nat,
                                     m: RegisterAccount<Coin>)
    requires num in {1, 3, 4, 5} && n <= |s| && ReadTag(s) == Tag(num, 2, n)
    requires ReadExtent(Cursor(s, n)) == Extent(h, length) && n + h + length == |s|
    ensures DecodeRegister(cc, s, m) == WithPayload(cc, m, num, s[n + h..])
  {
    hide ReadTag, ReadExtent, RegisterField, Local, Advances, DecodeFrom;
    FieldIsLocal(cc);
    PayloadStands(cc, s, num, n, h, length);
    var f := RegisterField(cc, Cursor(s, 0));
    if f.Bad? {
      DecodeBad(Reader(cc), Applier(), s, 0, m);
    } else {
      DecodeSingle(Reader(cc), Applier(), s, f.op, m);
    }
  }

  lemma PayloadStands<Coin>(cc: CoinCodec<Coin>, s: Slice, num: int, n: nat, h: nat, length: nat)
    requires num in {1, 3, 4, 5} && n <= |s| && ReadTag(s) == Tag(num, 2, n)
    requires ReadExtent(Cursor(s, n)) == Extent(h, length) && n + h + length == |s|
    ensures s != []
    ensures var (op, err) := BlockOp(cc, num, s[n + h..]);
            RegisterField(cc, Cursor(s, 0)) == if err.Some? then Bad(op, err.value) else Field(op, |s|)
  {
    hide ReadTag, ReadExtent, ReadVarint, SkipUnknown, BlockOp;
    var c := Cursor(s, 0);
    assert c.Rest() == s && Skipped(c, n) == Cursor(s, n);
    assert Cursor(s, n).Rest()[h..h + length] == s[n + h..];
  }

  lemma PayloadFieldDecodes<Coin(!new)>(cc: CoinCodec<Coin>, num: int, s: Slice, m: RegisterAccount<Coin>)
    requires num in {1, 3, 4, 5} && |BlockField(num * 8 + 2, s)| < TWO_63
    ensures DecodeRegister(cc, BlockField(num * 8 + 2, s), m) == WithPayload(cc, m, num, s)
  {
    hide ReadTag, ReadExtent, EncodeVarint, BlockField, DecodeRegister, WithPayload;
    var key: Byte := num * 8 + 2;
    assert key / 8 == num && key % 8 == 2;
    var field := BlockField(key, s);
    var size := EncodeVarint(|s|);
    BlockSplit(key, s);
    ReadOneByteTag(key, size + s);
    SizeReads(Cursor(field, 1), s);
    PayloadDecodesTo(cc, field, num, 1, |size|, |s|, m);
  }

  /** A coin that does not decode fails the message, and stays in it. */
  lemma CoinFieldDecodes<Coin(!new)>(cc: CoinCodec<Coin>, s: Slice, m: RegisterAccount<Coin>)
    requires |BlockField(0x22, s)| < TWO_63
    ensures DecodeRegister(cc, BlockField(0x22, s), m) ==
            (m.(funds := m.funds + [cc.decode(s).0]), cc.decode(s).1)
  {
    hide DecodeRegister, BlockField;
    PayloadFieldDecodes(cc, 4, s, m);
  }

  /** The last code ID counts, an explicit zero included. */
  lemma CodeIDDecodesTo<Coin(!new)>(cc: CoinCodec<Coin>, s: Slice, v: U64, m: RegisterAccount<Coin>)
    requires ReadTag(s).Tag? && ReadTag(s).fieldNum == 2 && ReadTag(s).wireType == 0
    requires ReadVarint(s[ReadTag(s).len..]) == Read(v, |s| - ReadTag(s).len, None)
    ensures DecodeRegister(cc, s, m) == (m.(codeID := v), None)
  {
    CodeIDStands(cc, s, v);
    FieldIsLocal(cc);
    hide ReadTag, ReadVarint, RegisterField, Local, Advances, Decode;
    DecodeSingle(Reader(cc), Applier(), s, SetCodeID(v), m);
  }

  lemma CodeIDStands<Coin>(cc: CoinCodec<Coin>, s: Slice, v: U64)
    requires ReadTag(s).Tag? && ReadTag(s).fieldNum == 2 && ReadTag(s).wireType == 0
    requires ReadVarint(s[ReadTag(s).len..]) == Read(v, |s| - ReadTag(s).len, None)
    ensures RegisterField(cc, Cursor(s, 0)) == Field(SetCodeID(v), |s|)
  {
    hide ReadTag, ReadVarint, PayloadField, SkipUnknown;
    assert Cursor(s, 0).Rest() == s;
  }

  lemma CodeIDFieldDecodes<Coin(!new)>(cc: CoinCodec<Coin>, v: U64, m: RegisterAccount<Coin>)
    ensures |EncodeVarint(v)| <= 10
    ensures DecodeRegister(cc, [0x10] + EncodeVarint(v), m) == (m.(codeID := v), None)
  {
    hide ReadTag, ReadVarint, EncodeVarint, DecodeRegister;
    var e := EncodeVarint(v);
    EncodeWordLength(v);
    ReadOneByteTag(0x10, e);
    ReadEncoded(v, []);
    Unit(e);
    CodeIDDecodesTo(cc, [0x10] + e, v, m);
  }

  function Prefixed(key: Byte, payload: Bytes): Bytes {
    [key] + EncodeVarint(|payload|) + payload
  }

  /** The bytes, field by field, in ascending order; byte fields without content and a zero code ID take
      none. */
  lemma FieldsAscend<Coin>(cc: CoinCodec<Coin>, m: RegisterAccount<Coin>)
    ensures var m4 := m.(salt := Nil);
            var m3 := m4.(funds := []);
            var m2 := m3.(msg := Nil);
            var m1 := m2.(codeID := 0);
            && EncodeRegister(cc, m) ==
               EncodeRegister(cc, m4) + (if m.salt.Contents() == [] then [] else Prefixed(0x2a, m.salt.Contents()))
            && EncodeRegister(cc, m3) ==
               EncodeRegister(cc, m2) + (if m.msg.Contents() == [] then [] else Prefixed(0x1a, m.msg.Contents()))
            && EncodeRegister(cc, m2) ==
               EncodeRegister(cc, m1) + (if m.codeID == 0 then [] else [0x10] + EncodeVarint(m.codeID))
            && EncodeRegister(cc, m1) == if m.sender == [] then [] else Prefixed(0x0a, m.sender)
  {
    hide EncodeVarint, FundsField;
    assert FundsField(cc, []) == [] by {
      NoFunds(cc);
    }
  }

  lemma NoFunds<Coin>(cc: CoinCodec<Coin>)
    ensures FundsField(cc, []) == []
  {
  }

  /** And the coins stand between, one field each, in their order. */
  lemma CoinsAscend<Coin>(cc: CoinCodec<Coin>, m: RegisterAccount<Coin>, coin: Coin)
    requires m.salt == Nil
    ensures EncodeRegister(cc, m.(funds := m.funds + [coin])) == EncodeRegister(cc, m) + Prefixed(0x22, cc.encode(coin))
  {
    FundsAppend(cc, m.funds, coin);
    hide FundsField, BytesField, WordField, Prefixed;
    var front := BytesField(0x0a, m.sender) + WordField(0x10, m.codeID) + BytesField(0x1a, m.msg.Contents());
    NoContent();
    Unit(front + FundsField(cc, m.funds));
    Unit(front + FundsField(cc, m.funds + [coin]));
    Assoc(front, FundsField(cc, m.funds), Prefixed(0x22, cc.encode(coin)));
  }

  lemma NoContent()
    ensures BytesField(0x2a, []) == []
  {
  }

  lemma {:induction false} FundsAppend<Coin>(cc: CoinCodec<Coin>, funds: seq<Coin>, coin: Coin)
    ensures FundsField(cc, funds + [coin]) == FundsField(cc, funds) + Prefixed(0x22, cc.encode(coin))
    decreases |funds|
  {
    hide EncodeVarint;
    if funds == [] {
      assert funds + [coin] == [coin] && [coin][1..] == [];
      NoFunds(cc);
      Unit(Prefixed(0x22, cc.encode(coin)));
    } else {
      assert (funds + [coin])[1..] == funds[1..] + [coin];
      FundsAppend(cc, funds[1..], coin);
      Assoc(BlockField(0x22, cc.encode(funds[0])), FundsField(cc, funds[1..]), Prefixed(0x22, cc.encode(coin)));
    }
  }

  lemma EmptyTakesNothing<Coin>(cc: CoinCodec<Coin>)
    ensures EncodeRegister(cc, Empty()) == []
  {
  }

  function WithCodeID<Coin>(m: RegisterAccount<Coin>, codeID: U64): RegisterAccount<Coin> {
    m.(codeID := codeID)
  }

  /** What is left of the message, and the error, when the first field is faulty. */
  lemma FaultyFieldRejected<Coin(!new)>(cc: CoinCodec<Coin>, s: Slice, m: RegisterAccount<Coin>)
    requires s != []
    ensures var t := ReadTag(s);
            && (t.BadTag? ==> DecodeRegister(cc, s, m) == (m, Some(t.err)))
            && (t.Tag? && t.fieldNum > 5 && Skip.Record(s).None? ==>
                  DecodeRegister(cc, s, m).0 == m && DecodeRegister(cc, s, m).1.Some?)
            && (t.Tag? && t.fieldNum <= 5 && t.wireType != (if t.fieldNum == 2 then 0 else 2) ==>
                  DecodeRegister(cc, s, m) == (m, Some(WrongWireType(t.wireType, t.fieldNum))))
            && (t.Tag? && t.fieldNum <= 5 && t.fieldNum != 2 && t.wireType == 2 ==>
                  var e := ReadExtent(Cursor(s, t.len));
                  e.BadExtent? ==> DecodeRegister(cc, s, m) == (m, Some(e.err)))
            && (t.Tag? && t.fieldNum == 2 && t.wireType == 0 ==>
                  var v := ReadVarint(s[t.len..]);
                  v.err.Some? ==> DecodeRegister(cc, s, m) == (WithCodeID(m, v.value), v.err))
  {
    FieldIsLocal(cc);
    FaultyField(cc, s);
    hide ReadTag, ReadVarint, ReadExtent, Skip.Record, RegisterField, Local, Advances, DecodeFrom;
    if RegisterField(cc, Cursor(s, 0)).Bad? {
      DecodeBad(Reader(cc), Applier(), s, 0, m);
    }
  }

  lemma FaultyField<Coin>(cc: CoinCodec<Coin>, s: Slice)
    requires s != []
    ensures var t := ReadTag(s);
            var f := RegisterField(cc, Cursor(s, 0));
            && (t.BadTag? ==> f == Bad(Same, t.err))
            && (t.Tag? && t.fieldNum > 5 && Skip.Record(s).None? ==> f.Bad? && f.op == Same)
            && (t.Tag? && t.fieldNum <= 5 && t.wireType != (if t.fieldNum == 2 then 0 else 2) ==>
                  f == Bad(Same, WrongWireType(t.wireType, t.fieldNum)))
            && (t.Tag? && t.fieldNum <= 5 && t.fieldNum != 2 && t.wireType == 2 ==>
                  var e := ReadExtent(Cursor(s, t.len)); e.BadExtent? ==> f == Bad(Same, e.err))
            && (t.Tag? && t.fieldNum == 2 && t.wireType == 0 ==>
                  var v := ReadVarint(s[t.len..]); v.err.Some? ==> f == Bad(SetCodeID(v.value), v.err.value))
  {
    var c := Cursor(s, 0);
    assert c.Rest() == s;
    SkipIsRecord<RegisterOp<Coin>>(c, Same);
    hide ReadTag, ReadVarint, ReadExtent, SkipUnknown, Skip.Record, BlockOp;
  }
}
