/** The module's own key-value store: three keys, and the bytes under them. */
module Store {
  import opened Machine
  import opened ParamsCodec
  import opened ParamsRules

  type Kv = map<Bytes, Slice>

  type Address = Bytes

  /** Parameters that a node can hold in memory in encoded form. */
  type Storable = p: Params | |EncodeParams(p)| < TWO_63 witness ZERO

  const KEY_PARAMS: Bytes := [0x00]
  const KEY_NEXT_ACCOUNT_ID: Bytes := [0x01]
  const KEY_SIGNER_ADDRESS: Bytes := [0x02]

  datatype Failure =
    | ParamsNotFound
    | ParsingParams(cause: Error)
    | InvalidParams(rule: ParamsError)
    | Unauthorized
    | NotAllowedCodeID
    | InvalidSender
    | ContractError
    | AdminNotUpdated
    | NotBaseAccount
    | NotSigVerifiable
    | SignaturesUnreadable
    | SignerUnknown
    | SignatureRejected
    | WrongSequence
    | MessagesNotPacked
    | NotSingleSignature
    | SignBytesUnavailable
    | LaterHandler

  // ---------- Big-endian words ----------

  function BigEndian(v: nat, n: nat): (s: Bytes)
    ensures |s| == n
  {
    if n == 0 then [] else BigEndian(v / 256, n - 1) + [v % 256]
  }

  function FromBigEndian(s: Bytes): nat {
    if s == [] then 0 else 256 * FromBigEndian(s[..|s| - 1]) + s[|s| - 1]
  }

  lemma {:induction false} BigEndianRoundTrip(v: nat, n: nat)
    requires v < Pow2(8 * n)
    ensures FromBigEndian(BigEndian(v, n)) == v
  {
    if n == 0 {
    } else {
      Pow2Add(8, 8 * (n - 1));
      assert Pow2(8) == 256;
      BigEndianRoundTrip(v / 256, n - 1);
      assert BigEndian(v, n)[..n - 1] == BigEndian(v / 256, n - 1);
    }
  }

  // ---------- What is read from the store ----------

  ghost function ReadParams(kv: Kv): Result<Params, Failure> {
    if KEY_PARAMS !in kv then Err(ParamsNotFound)
    else
      var (p, err) := DecodeParams(kv[KEY_PARAMS], ZERO);
      if err.Some? then Err(ParsingParams(err.value)) else Ok(p)
  }

  /** A missing entry reads as zero, and of a long one only eight bytes are read. */
  function NextID(kv: Kv): U64 {
    if KEY_NEXT_ACCOUNT_ID !in kv then 0
    else
      var bz := kv[KEY_NEXT_ACCOUNT_ID];
      FromBigEndian(if |bz| > 8 then bz[..8] else bz) % TWO_64
  }

  function Signer(kv: Kv): Option<Address> {
    if KEY_SIGNER_ADDRESS in kv then Some(kv[KEY_SIGNER_ADDRESS]) else None
  }

  // ---------- What is written to it ----------

  function WithParams(kv: Kv, p: Storable): Kv {
    kv[KEY_PARAMS := EncodeParams(p)]
  }

  function WithNextID(kv: Kv, id: U64): Kv {
    kv[KEY_NEXT_ACCOUNT_ID := BigEndian(id, 8)]
  }

  function WithSigner(kv: Kv, addr: Slice): Kv {
    kv[KEY_SIGNER_ADDRESS := addr]
  }

  function WithoutSigner(kv: Kv): Kv {
    kv - {KEY_SIGNER_ADDRESS}
  }

  /** The three entries are independent, and each reads back what was written. */
  lemma ParamsWritten(kv: Kv, p: Storable)
    ensures ReadParams(WithParams(kv, p)) == Ok(p)
    ensures NextID(WithParams(kv, p)) == NextID(kv) && Signer(WithParams(kv, p)) == Signer(kv)
  {
    RoundTrip(p);
    hide DecodeParams, EncodeParams;
  }

  lemma NextIDWritten(kv: Kv, id: U64)
    ensures NextID(WithNextID(kv, id)) == id
    ensures ReadParams(WithNextID(kv, id)) == ReadParams(kv) && Signer(WithNextID(kv, id)) == Signer(kv)
  {
    hide ReadParams, BigEndian, FromBigEndian;
    WordReadsBack(id);
    ParamsIgnoreNextID(kv, BigEndian(id, 8));
  }

  lemma WordReadsBack(id: U64)
    ensures FromBigEndian(BigEndian(id, 8)) % TWO_64 == id
  {
    hide BigEndian, FromBigEndian, Pow2;
    Pow2Words();
    BigEndianRoundTrip(id, 8);
  }

  lemma ParamsIgnoreNextID(kv: Kv, bz: Slice)
    ensures ReadParams(kv[KEY_NEXT_ACCOUNT_ID := bz]) == ReadParams(kv)
  {
    hide DecodeParams;
  }

  lemma SignerWritten(kv: Kv, addr: Slice)
    ensures Signer(WithSigner(kv, addr)) == Some(addr) && Signer(WithoutSigner(kv)) == None
    ensures NextID(WithSigner(kv, addr)) == NextID(WithoutSigner(kv)) == NextID(kv)
    ensures ReadParams(WithSigner(kv, addr)) == ReadParams(WithoutSigner(kv)) == ReadParams(kv)
  {
    hide DecodeParams;
  }
}
