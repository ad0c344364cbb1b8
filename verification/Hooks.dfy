/** The decorators around a tx, the commit rule they run under, and runs of many txs.

    The commit rule is the assumption that the README states: what the ante handler writes is kept
    when it succeeds; what the messages and the post handler write is kept when all of them succeed;
    everything else is discarded. */
module Hooks {
  import opened Machine
  import opened Store
  import opened Chain

  /** `single` tells whether the signature data is a single signature. */
  datatype Signature = Signature(sequence: U64, single: bool)

  /** A tx with what the parts outside this model make of it: whether it can be read, whether its
      messages and sign bytes can be prepared, the verdict of the default signature check, the
      handlers that come later, and what the contract does when either hook calls it. */
  datatype Tx = Tx(
    sigVerifiable: bool,
    signaturesReadable: bool,
    signers: seq<Slice>,
    signatures: seq<Signature>,
    messagesPack: bool,
    signBytesAvailable: bool,
    defaultVerdict: bool,
    anteRest: Rest,
    beforeTx: Script,
    msgs: seq<Msg>,
    gasLimit: nat,
    afterTx: Script,
    postRest: Rest)

  /** The later handlers: whether they succeed, what they charge to the tx's gas meter, and the accounts
      they write. */
  datatype Rest = Rest(ok: bool, gas: nat, accounts: map<Address, Account>)

  /** A signer with its account and its signature, when the rules of account abstraction apply. */
  datatype Abstract = Abstract(signer: Slice, account: Account, signature: Signature)

  function IsAbstractAccountTx(st: State, tx: Tx): Result<Option<Abstract>, Failure> {
    if !tx.sigVerifiable then Err(NotSigVerifiable)
    else if !tx.signaturesReadable then Err(SignaturesUnreadable)
    else if |tx.signers| != 1 || |tx.signatures| != 1 then Ok(None)
    else if tx.signers[0] !in st.accounts then Err(SignerUnknown)
    else if !st.accounts[tx.signers[0]].AbstractAccount? then Ok(None)
    else Ok(Some(Abstract(tx.signers[0], st.accounts[tx.signers[0]], tx.signatures[0])))
  }

  /** A contract call on a cached state and a meter of its own: `gas` is what that meter shows, `meter`
      what the caller's does. */
  datatype Sudo = Sudo(state: State, outcome: Outcome, gas: nat, meter: nat)

  ghost function SudoWithGasLimit(authority: Bytes, st: State, meter: nat, script: Script, maxGas: nat): Sudo {
    var r := RunScript(authority, st, 0, maxGas, script);
    Sudo(if r.outcome.Done? then r.state else st, r.outcome, r.gas, meter)
  }

  /** What a hook leaves behind: the state, its outcome, the contract it called, if any, with the gas that
      call used, the tx's meter, and whether the later handlers were reached. */
  datatype Hook = Hook(state: State, outcome: Outcome, called: Option<Slice>, gas: nat, meter: nat, later: bool)

  function Later(h: Hook, rest: Rest, gasLimit: nat): Hook {
    h.(state := h.state.(accounts := h.state.accounts + rest.accounts),
       outcome := if rest.ok && h.meter + rest.gas <= gasLimit then Done else Failed(LaterHandler),
       meter := h.meter + rest.gas,
       later := true)
  }

  /** A hook that ends before it has called a contract. */
  function Stopped(st: State, why: Failure, meter: nat): Hook {
    Hook(st, Failed(why), None, 0, meter, false)
  }

  ghost function AnteHandle(authority: Bytes, st: State, meter: nat, tx: Tx): Hook {
    match IsAbstractAccountTx(st, tx)
    case Err(e) => Stopped(st, e, meter)
    case Ok(None) =>
      if !tx.defaultVerdict then Stopped(st, SignatureRejected, meter)
      else Later(Hook(st, Done, None, 0, meter, false), tx.anteRest, tx.gasLimit)
    case Ok(Some(aa)) =>
      var marked := st.(kv := WithSigner(st.kv, aa.signer));
      if aa.signature.sequence != aa.account.sequence then Stopped(marked, WrongSequence, meter)
      else if !tx.messagesPack then Stopped(marked, MessagesNotPacked, meter)
      else if !aa.signature.single then Stopped(marked, NotSingleSignature, meter)
      else if !tx.signBytesAvailable then Stopped(marked, SignBytesUnavailable, meter)
      else
        match ReadParams(marked.kv)
        case Err(e) => Stopped(marked, e, meter)
        case Ok(params) =>
          var r := SudoWithGasLimit(authority, marked, meter, tx.beforeTx, params.maxGasBefore);
          var h := Hook(r.state, r.outcome, Some(aa.signer), r.gas, r.meter, false);
          if r.outcome.Done? then Later(h, tx.anteRest, tx.gasLimit) else h
  }

  ghost function PostHandle(authority: Bytes, st: State, meter: nat, tx: Tx): Hook {
    match Signer(st.kv)
    case None => Later(Hook(st, Done, None, 0, meter, false), tx.postRest, tx.gasLimit)
    case Some(signer) =>
      var cleared := st.(kv := WithoutSigner(st.kv));
      match ReadParams(cleared.kv)
      case Err(e) => Stopped(cleared, e, meter)
      case Ok(params) =>
        var r := SudoWithGasLimit(authority, cleared, meter, tx.afterTx, params.maxGasAfter);
        var h := Hook(r.state, r.outcome, Some(signer), r.gas, r.meter, false);
        if r.outcome.Done? then Later(h, tx.postRest, tx.gasLimit) else h
  }

  /** A delivered tx: how far it got, which contracts its hooks called, and what its gas meter shows. */
  datatype Delivery = Delivery(
    state: State,
    antePassed: bool,
    msgsPassed: bool,
    committed: bool,
    before: Option<Slice>,
    after: Option<Slice>,
    meter: nat)

  /** One meter runs through the ante handler, the messages and the post handler. */
  ghost function DeliverTx(authority: Bytes, st: State, tx: Tx): Delivery {
    var ante := AnteHandle(authority, st, 0, tx);
    if !ante.outcome.Done? then Delivery(st, false, false, false, ante.called, None, ante.meter)
    else
      var run := RunMsgs(authority, ante.state, ante.meter, tx.gasLimit, tx.msgs);
      if !run.outcome.Done? then Delivery(ante.state, true, false, false, ante.called, None, run.gas)
      else
        var post := PostHandle(authority, run.state, run.gas, tx);
        if !post.outcome.Done? then Delivery(ante.state, true, true, false, ante.called, post.called, post.meter)
        else Delivery(post.state, true, true, true, ante.called, post.called, post.meter)
  }

  /** Besides txs, the authority's proposals run messages without any hook around them. */
  datatype Event = Transaction(tx: Tx) | Proposal(msgs: seq<Msg>, gasLimit: nat)

  ghost function Deliver(authority: Bytes, st: State, event: Event): Delivery {
    match event
    case Transaction(tx) => DeliverTx(authority, st, tx)
    case Proposal(msgs, gasLimit) =>
      var run := RunMsgs(authority, st, 0, gasLimit, msgs);
      Delivery(if run.outcome.Done? then run.state else st, false, run.outcome.Done?, false, None, None, run.gas)
  }

  /** The deliveries of a run, in order. */
  ghost function Deliveries(authority: Bytes, st: State, events: seq<Event>): (ds: seq<Delivery>)
    ensures |ds| == |events|
    decreases |events|
  {
    if events == [] then []
    else
      var before := Deliveries(authority, st, events[..|events| - 1]);
      before + [Deliver(authority, StateAfter(st, before), events[|events| - 1])]
  }

  function StateAfter(st: State, ds: seq<Delivery>): State {
    if ds == [] then st else ds[|ds| - 1].state
  }
}
