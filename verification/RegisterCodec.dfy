/** The wire format of `MsgRegisterAccount`, over any codec for the coins it carries. */
module RegisterCodec {
  import opened Machine
  import opened Varint
  import opened Framing
  import opened Messages
  import opened Fields
  import Skip

  /** The generated methods of `Coin`: what `Size` returns, what the sized marshal writes, and what
      `Unmarshal` into a zero coin leaves behind. */
  datatype CoinCodec<!Coin> = CoinCodec(
    size: Coin -> nat,
    encode: Coin -> Bytes,
    decode: Slice -> (Coin, Option<Error>))

  ghost predicate Lawful<Coin(!new)>(cc: CoinCodec<Coin>) {
    forall x: Coin {:trigger cc.encode(x)} ::
      && cc.size(x) == |cc.encode(x)|
      && (|cc.encode(x)| < TWO_63 ==> cc.decode(cc.encode(x)) == (x, None))
  }

  /** A Go byte slice, in which nil is not the empty slice. */
  datatype GoBytes = Nil | Buffer(contents: Bytes) {
    function Contents(): Bytes {
      if Nil? then [] else contents
    }
  }

  datatype RegisterAccount<Coin> = RegisterAccount(
    sender: Bytes,
    codeID: U64,
    msg: GoBytes,
    funds: seq<Coin>,
    salt: GoBytes)

  function Empty<Coin>(): RegisterAccount<Coin> {
    RegisterAccount([], 0, Nil, [], Nil)
  }

  // ---------- Decoding ----------

  datatype RegisterOp<Coin> =
    | Same
    | SetSender(sender: Bytes)
    | SetCodeID(codeID: U64)
    | SetMsg(msg: Bytes)
    | AppendCoin(coin: Coin)
    | SetSalt(salt: Bytes)

  function Apply<Coin>(m: RegisterAccount<Coin>, op: RegisterOp<Coin>): RegisterAccount<Coin> {
    match op
    case Same => m
    case SetSender(b) => m.(sender := b)
    case SetCodeID(v) => m.(codeID := v)
    case SetMsg(b) => m.(msg := Buffer(b))
    case AppendCoin(x) => m.(funds := m.funds + [x])
    case SetSalt(b) => m.(salt := Buffer(b))
  }

  /** A length-delimited field's operation, and its error: the coin is appended before it is
      decoded, and stays when its decoding fails. */
  function BlockOp<Coin>(cc: CoinCodec<Coin>, num: int, payload: Slice): (RegisterOp<Coin>, Option<Error>) {
    if num == 1 then (SetSender(payload), None)
    else if num == 3 then (SetMsg(payload), None)
    else if num == 4 then (AppendCoin(cc.decode(payload).0), cc.decode(payload).1)
    else (SetSalt(payload), None)
  }

  function RegisterField<Coin>(cc: CoinCodec<Coin>, c: Cursor): (r: Step<RegisterOp<Coin>>)
    ensures r.Field? ==> 1 <= r.len <= |c.Rest()|
  {
    match ReadTag(c.Rest())
    case BadTag(e) => Bad(Same, e)
    case Tag(num, wireType, n) =>
      if num > 5 then SkipUnknown(c, Same)
      else if wireType != (if num == 2 then 0 else 2) then Bad(Same, WrongWireType(wireType, num))
      else if num == 2 then CodeIDField(c, n)
      else PayloadField(cc, c, num, n)
  }

  function CodeIDField<Coin>(c: Cursor, n: nat): (r: Step<RegisterOp<Coin>>)
    requires 1 <= n <= |c.Rest()|
    ensures r.Field? ==> 1 <= r.len <= |c.Rest()|
  {
    var v := ReadVarint(Skipped(c, n).Rest());
    if v.err.Some? then Bad(SetCodeID(v.value), v.err.value) else Field(SetCodeID(v.value), n + v.len)
  }

  function PayloadField<Coin>(cc: CoinCodec<Coin>, c: Cursor, num: int, n: nat): (r: Step<RegisterOp<Coin>>)
    requires 1 <= n <= |c.Rest()|
    ensures r.Field? ==> 1 <= r.len <= |c.Rest()|
  {
    var d := Skipped(c, n);
    match ReadExtent(d)
    case BadExtent(e) => Bad(Same, e)
    case Extent(h, length) =>
      var (op, err) := BlockOp(cc, num, d.Rest()[h..h + length]);
      if err.Some? then Bad(op, err.value) else Field(op, n + h + length)
  }

  ghost function Reader<Coin>(cc: CoinCodec<Coin>): Cursor -> Step<RegisterOp<Coin>> {
    (c: Cursor) => RegisterField(cc, c)
  }

  function Applier<Coin>(): (RegisterAccount<Coin>, RegisterOp<Coin>) -> RegisterAccount<Coin> {
    (m, op) => Apply(m, op)
  }

  ghost function DecodeRegister<Coin(!new)>(cc: CoinCodec<Coin>, s: Slice, m: RegisterAccount<Coin>)
    : (RegisterAccount<Coin>, Option<Error>)
  {
    assert Advances(Reader(cc));
    Decode(Reader(cc), Applier(), s, m)
  }

  lemma FieldLocal<Coin>(cc: CoinCodec<Coin>, c: Cursor, d: Cursor)
    requires var r := RegisterField(cc, c);
             r.Field? && r.len <= |d.Rest()| && d.Rest()[..r.len] == c.Rest()[..r.len]
    ensures RegisterField(cc, d) == RegisterField(cc, c)
  {
    hide ReadVarint, ReadTag, ReadExtent, Skipped, SkipUnknown, BlockOp;
    var r := RegisterField(cc, c);
    var t := ReadTag(c.Rest());
    var n := t.len;
    if t.fieldNum > 5 {
      SkipTag<RegisterOp<Coin>>(c, Same);
      TagLocal(c.Rest(), d.Rest(), r.len);
      SkipLocal<RegisterOp<Coin>>(c, d, Same);
    } else {
      TagLocal(c.Rest(), d.Rest(), r.len);
      SkippedRest(c, n);
      SkippedRest(d, n);
      if t.fieldNum == 2 {
        VarintLocal(c.Rest(), d.Rest(), n, r.len);
      } else {
        Skip.Middles(c.Rest(), d.Rest(), r.len, n);
        BlockLocal(Skipped(c, n), Skipped(d, n), r.len - n);
      }
    }
  }

  lemma FieldIsLocal<Coin(!new)>(cc: CoinCodec<Coin>)
    ensures Advances(Reader(cc)) && Local(Reader(cc))
  {
    var field := Reader(cc);
    forall c: Cursor, d: Cursor
      | field(c).Field? && field(c).len <= |d.Rest()| && d.Rest()[..field(c).len] == c.Rest()[..field(c).len]
      ensures field(d) == field(c)
    {
      FieldLocal(cc, c, d);
    }
  }

  lemma RegisterConcat<Coin(!new)>(cc: CoinCodec<Coin>, a: Slice, b: Slice, m: RegisterAccount<Coin>)
    requires |a| + |b| < TWO_63 && DecodeRegister(cc, a, m).1.None?
    ensures var (m', _) := DecodeRegister(cc, a, m);
            && (DecodeRegister(cc, a + b, m).1.None? <==> DecodeRegister(cc, b, m').1.None?)
            && (DecodeRegister(cc, b, m').1.None? ==> DecodeRegister(cc, a + b, m) == DecodeRegister(cc, b, m'))
  {
    FieldIsLocal(cc);
    hide Decode, Local, Advances, Reader;
    DecodeConcat(Reader(cc), Applier(), a, b, m);
  }

  /** A complete record of a field number that the message does not have, at a field boundary, changes
      nothing. */
  lemma UnknownFieldIgnored<Coin(!new)>(cc: CoinCodec<Coin>, a: Slice, u: Slice, b: Slice, m: RegisterAccount<Coin>)
    requires |a| + |u| + |b| < TWO_63 && DecodeRegister(cc, a, m).1.None?
    requires ReadTag(u).Tag? && ReadTag(u).fieldNum > 5 && Skip.Record(u) == Some(|u|)
    ensures DecodeRegister(cc, a + u + b, m).1.None? <==> DecodeRegister(cc, a + b, m).1.None?
    ensures DecodeRegister(cc, a + b, m).1.None? ==> DecodeRegister(cc, a + u + b, m) == DecodeRegister(cc, a + b, m)
  {
    hide Decode, Local, Advances, Reader, Applier, ReadTag, Skip.Record;
    FieldIsLocal(cc);
    UnknownReads(cc, u);
    SameKeeps(DecodeRegister(cc, a, m).0);
    UnknownIgnored(Reader(cc), Applier(), Same, a, u, b, m);
  }

  /** A turn of the loop consumes exactly one wire record. */
  lemma FieldIsRecord<Coin>(cc: CoinCodec<Coin>, c: Cursor)
    requires RegisterField(cc, c).Field?
    ensures Skip.Record(c.Rest()) == Some(RegisterField(cc, c).len)
  {
    hide ReadVarint, ReadTag, ReadExtent, Skipped, SkipUnknown, Skip.Record, BlockOp;
    var t := ReadTag(c.Rest());
    if t.fieldNum > 5 {
      SkipIsRecord<RegisterOp<Coin>>(c, Same);
    } else if t.fieldNum == 2 {
      VarintIsRecord(c);
    } else {
      BlockIsRecord(c);
    }
  }

  lemma UnknownReads<Coin>(cc: CoinCodec<Coin>, u: Slice)
    requires ReadTag(u).Tag? && ReadTag(u).fieldNum > 5 && Skip.Record(u) == Some(|u|)
    ensures u != [] && Reader(cc)(Cursor(u, 0)) == Field(Same, |u|)
  {
    var c := Cursor(u, 0);
    assert c.Rest() == u;
    SkipIsRecord<RegisterOp<Coin>>(c, Same);
    hide ReadTag, SkipUnknown, Skip.Record;
  }

  lemma SameKeeps<Coin>(m: RegisterAccount<Coin>)
    ensures Applier<Coin>()(m, Same) == m
  {
  }

  // ---------- Encoding ----------

  function BytesField(key: Byte, b: Bytes): Bytes {
    if b == [] then [] else BlockField(key, b)
  }

  function FundsField<Coin>(cc: CoinCodec<Coin>, funds: seq<Coin>): Bytes {
    if funds == [] then [] else BlockField(0x22, cc.encode(funds[0])) + FundsField(cc, funds[1..])
  }

  function EncodeRegister<Coin>(cc: CoinCodec<Coin>, m: RegisterAccount<Coin>): Bytes {
    BytesField(0x0a, m.sender) + WordField(0x10, m.codeID) + BytesField(0x1a, m.msg.Contents()) +
    FundsField(cc, m.funds) + BytesField(0x2a, m.salt.Contents())
  }

  lemma BlockStep<Coin>(cc: CoinCodec<Coin>, c: Cursor, num: int, payload: Slice)
    requires 1 <= num <= 5 && num != 2 && BlockAt(c, num, payload) && BlockOp(cc, num, payload).1.None?
    ensures RegisterField(cc, c) == Field(BlockOp(cc, num, payload).0, |c.Rest()|)
  {
    SkippedRest(c, 1);
    hide ReadTag, ReadExtent, Skipped, SkipUnknown, BlockOp;
    var d := Skipped(c, 1);
    var h := ReadExtent(d).header;
    assert d.Rest()[h..h + |payload|] == d.Rest()[h..][..|payload|] == payload;
  }

  lemma BlockReads<Coin>(cc: CoinCodec<Coin>, num: int, payload: Bytes)
    requires 1 <= num <= 5 && num != 2 && |BlockField(num * 8 + 2, payload)| < TWO_63
    requires |payload| < TWO_63 && BlockOp(cc, num, payload).1.None?
    ensures var s := BlockField(num * 8 + 2, payload);
            s != [] && Reader(cc)(Cursor(s, 0)) == Field(BlockOp(cc, num, payload).0, |s|)
  {
    hide BlockAt, BlockField, RegisterField, BlockOp;
    var key: Byte := num * 8 + 2;
    assert key / 8 == num && key % 8 == 2;
    var s := BlockField(key, payload);
    BlockNotEmpty(key, payload);
    BlockAtFront(key, payload);
    assert Cursor(s, 0).Rest() == s;
    BlockStep(cc, Cursor(s, 0), num, payload);
  }

  lemma BlockNotEmpty(key: Byte, payload: Bytes)
    ensures BlockField(key, payload) != []
  {
    hide EncodeVarint;
  }

  lemma BlockDecodes<Coin(!new)>(cc: CoinCodec<Coin>, num: int, payload: Bytes, m: RegisterAccount<Coin>)
    requires 1 <= num <= 5 && num != 2 && |BlockField(num * 8 + 2, payload)| < TWO_63
    requires |payload| < TWO_63 && BlockOp(cc, num, payload).1.None?
    ensures DecodeRegister(cc, BlockField(num * 8 + 2, payload), m) == (Apply(m, BlockOp(cc, num, payload).0), None)
  {
    FieldIsLocal(cc);
    BlockReads(cc, num, payload);
    hide Decode, Local, Advances, BlockField, BlockOp, Apply, Reader;
    DecodeSingle(Reader(cc), Applier(), BlockField(num * 8 + 2, payload), BlockOp(cc, num, payload).0, m);
  }

  lemma NothingDecodes<Coin(!new)>(cc: CoinCodec<Coin>, m: RegisterAccount<Coin>)
    ensures DecodeRegister(cc, [], m) == (m, None)
  {
    FieldIsLocal(cc);
    hide Decode, Local, Advances, Reader;
    DecodeNothing(Reader(cc), Applier(), m);
  }

  lemma CodeIDDecodes<Coin(!new)>(cc: CoinCodec<Coin>, v: U64, m: RegisterAccount<Coin>)
    ensures |WordField(0x10, v)| < 12
    ensures DecodeRegister(cc, WordField(0x10, v), m) == (if v == 0 then m else m.(codeID := v), None)
  {
    WordAtFront(0x10, v);
    if v == 0 {
      NothingDecodes(cc, m);
    } else {
      CodeIDReads(cc, v, m);
    }
  }

  lemma CodeIDReads<Coin(!new)>(cc: CoinCodec<Coin>, v: U64, m: RegisterAccount<Coin>)
    requires v != 0 && |WordField(0x10, v)| < 12
    ensures DecodeRegister(cc, WordField(0x10, v), m) == (m.(codeID := v), None)
  {
    var s := WordField(0x10, v);
    FieldIsLocal(cc);
    WordAtFront(0x10, v);
    hide Decode, Local, Advances, WordAt, RegisterField;
    CodeIDStep(cc, Cursor(s, 0), v);
    DecodeSingle(Reader(cc), Applier(), s, SetCodeID(v), m);
  }

  lemma CodeIDStep<Coin>(cc: CoinCodec<Coin>, c: Cursor, v: U64)
    requires WordAt(c, 2, v)
    ensures RegisterField(cc, c) == Field(SetCodeID(v), |c.Rest()|)
  {
    hide ReadTag, ReadVarint, ReadExtent, Skipped, SkipUnknown, BlockOp;
  }

  lemma CoinDecodes<Coin(!new)>(cc: CoinCodec<Coin>, coin: Coin)
    requires Lawful(cc) && |cc.encode(coin)| < TWO_63
    ensures BlockOp(cc, 4, cc.encode(coin)) == (AppendCoin(coin), None)
  {
  }

  /** The coins come back in the order they were in. */
  lemma {:induction false} FundsDecode<Coin(!new)>(cc: CoinCodec<Coin>, funds: seq<Coin>, m: RegisterAccount<Coin>)
    requires Lawful(cc) && |FundsField(cc, funds)| < TWO_63
    ensures DecodeRegister(cc, FundsField(cc, funds), m) == (m.(funds := m.funds + funds), None)
    decreases |funds|
  {
    hide DecodeRegister, BlockField, Lawful;
    if funds == [] {
      NothingDecodes(cc, m);
      Unit(m.funds);
    } else {
      var payload := cc.encode(funds[0]);
      PayloadFits(0x22, payload);
      CoinDecodes(cc, funds[0]);
      BlockDecodes(cc, 4, payload, m);
      var m1 := m.(funds := m.funds + [funds[0]]);
      FundsDecode(cc, funds[1..], m1);
      Assoc(m.funds, [funds[0]], funds[1..]);
      assert funds == [funds[0]] + funds[1..];
      Then(cc, BlockField(0x22, payload), FundsField(cc, funds[1..]), m, m1, m.(funds := m.funds + funds));
    }
  }

  lemma Then<Coin(!new)>(cc: CoinCodec<Coin>, a: Bytes, b: Bytes, m: RegisterAccount<Coin>,
                         m1: RegisterAccount<Coin>, m2: RegisterAccount<Coin>)
    requires |a| + |b| < TWO_63
    requires DecodeRegister(cc, a, m) == (m1, None) && DecodeRegister(cc, b, m1) == (m2, None)
    ensures DecodeRegister(cc, a + b, m) == (m2, None)
  {
    FieldIsLocal(cc);
    hide Decode, Local, Advances, Reader;
    DecodeThen(Reader(cc), Applier(), a, b, m, m1, m2);
  }

  lemma BytesDecode<Coin(!new)>(cc: CoinCodec<Coin>, num: int, b: Bytes, m: RegisterAccount<Coin>)
    requires (num == 1 || num == 3 || num == 5) && |BytesField(num * 8 + 2, b)| < TWO_63
    ensures DecodeRegister(cc, BytesField(num * 8 + 2, b), m) ==
            (if b == [] then m else Apply(m, BlockOp(cc, num, b).0), None)
  {
    hide DecodeRegister, Apply, BlockField;
    if b == [] {
      NothingDecodes(cc, m);
    } else {
      PayloadFits(num * 8 + 2, b);
      BlockDecodes(cc, num, b, m);
    }
  }

  lemma PayloadFits(key: Byte, b: Bytes)
    ensures |b| <= |BlockField(key, b)|
  {
    hide EncodeVarint;
  }

  lemma SenderDecodes<Coin(!new)>(cc: CoinCodec<Coin>, b: Bytes, m: RegisterAccount<Coin>)
    requires |BytesField(0x0a, b)| < TWO_63
    ensures DecodeRegister(cc, BytesField(0x0a, b), m) == (if b == [] then m else m.(sender := b), None)
  {
    hide DecodeRegister, BytesField;
    BytesDecode(cc, 1, b, m);
  }

  lemma MsgDecodes<Coin(!new)>(cc: CoinCodec<Coin>, b: Bytes, m: RegisterAccount<Coin>)
    requires |BytesField(0x1a, b)| < TWO_63
    ensures DecodeRegister(cc, BytesField(0x1a, b), m) == (if b == [] then m else m.(msg := Buffer(b)), None)
  {
    hide DecodeRegister, BytesField;
    BytesDecode(cc, 3, b, m);
  }

  lemma SaltDecodes<Coin(!new)>(cc: CoinCodec<Coin>, b: Bytes, m: RegisterAccount<Coin>)
    requires |BytesField(0x2a, b)| < TWO_63
    ensures DecodeRegister(cc, BytesField(0x2a, b), m) == (if b == [] then m else m.(salt := Buffer(b)), None)
  {
    hide DecodeRegister, BytesField;
    BytesDecode(cc, 5, b, m);
  }

  /** A decoded message never holds an empty buffer that was written as nothing: it holds nil. */
  function Canonical<Coin>(m: RegisterAccount<Coin>): RegisterAccount<Coin> {
    m.(msg := if m.msg.Contents() == [] then Nil else m.msg,
       salt := if m.salt.Contents() == [] then Nil else m.salt)
  }

  lemma DecodeEncoded<Coin(!new)>(cc: CoinCodec<Coin>, m: RegisterAccount<Coin>)
    requires Lawful(cc) && |EncodeRegister(cc, m)| < TWO_63
    ensures DecodeRegister(cc, EncodeRegister(cc, m), Empty()) == (Canonical(m), None)
  {
    hide DecodeRegister, BytesField, WordField, FundsField, Lawful;
    var a, b, c := BytesField(0x0a, m.sender), WordField(0x10, m.codeID), BytesField(0x1a, m.msg.Contents());
    var d, e := FundsField(cc, m.funds), BytesField(0x2a, m.salt.Contents());
    var m0 := Empty<Coin>();
    var m1 := m0.(sender := m.sender);
    SenderDecodes(cc, m.sender, m0);
    var m2 := m1.(codeID := m.codeID);
    CodeIDDecodes(cc, m.codeID, m1);
    Then(cc, a, b, m0, m1, m2);
    var m3 := m2.(msg := Canonical(m).msg);
    MsgDecodes(cc, m.msg.Contents(), m2);
    Then(cc, a + b, c, m0, m2, m3);
    var m4 := m3.(funds := m.funds);
    FundsDecode(cc, m.funds, m3);
    Unit(m.funds);
    Then(cc, a + b + c, d, m0, m3, m4);
    SaltDecodes(cc, m.salt.Contents(), m4);
    Then(cc, a + b + c + d, e, m0, m4, Canonical(m));
  }

  /** A message survives the wire exactly when neither byte field is an empty buffer. */
  lemma RoundTrip<Coin(!new)>(cc: CoinCodec<Coin>, m: RegisterAccount<Coin>)
    requires Lawful(cc) && |EncodeRegister(cc, m)| < TWO_63
    ensures DecodeRegister(cc, EncodeRegister(cc, m), Empty()) == (m, None)
            <==> m.msg != Buffer([]) && m.salt != Buffer([])
    ensures DecodeRegister(cc, EncodeRegister(cc, m), Empty()).1 == None
    ensures var (m', _) := DecodeRegister(cc, EncodeRegister(cc, m), Empty());
            && m'.sender == m.sender && m'.codeID == m.codeID && m'.funds == m.funds
            && m'.msg.Contents() == m.msg.Contents() && m'.salt.Contents() == m.salt.Contents()
  {
    DecodeEncoded(cc, m);
    hide DecodeRegister, EncodeRegister, Lawful;
  }
}
