/** The keeper, the message handlers and the two decorators, updating the chain's state in place. */
module App {
  import opened Machine
  import opened ParamsCodec
  import ParamsMessage
  import opened ParamsRules
  import opened Store
  import opened Chain
  import opened Hooks

  class GasMeter {
    const limit: nat
    var consumed: nat

    constructor (limit: nat)
      ensures this.limit == limit && consumed == 0
    {
      this.limit, consumed := limit, 0;
    }
  }

  class Keeper {
    const authority: Bytes
    var kv: Kv
    var accounts: map<Address, Account>
    var world: map<Bytes, Bytes>
    var registered: seq<Registration>
    var accepted: seq<Change>

    function Snapshot(): State
      reads this
    {
      State(kv, accounts, world, registered, accepted)
    }

    /** `ctx.CacheContext()`: a branch of the state that can be thrown away. */
    constructor Branch(parent: Keeper)
      ensures authority == parent.authority && Snapshot() == parent.Snapshot()
    {
      authority, kv, accounts := parent.authority, parent.kv, parent.accounts;
      world, registered, accepted := parent.world, parent.registered, parent.accepted;
    }

    method Assign(st: State)
      modifies this
      ensures Snapshot() == st
    {
      kv, accounts, world, registered, accepted := st.kv, st.accounts, st.world, st.registered, st.accepted;
    }

    // ---------- keeper.go ----------

    method GetParams() returns (r: Result<Params, Failure>)
      ensures r == ReadParams(kv)
    {
      if KEY_PARAMS !in kv {
        return Err(ParamsNotFound);
      }
      var params := new ParamsMessage.ParamsMessage();
      var err := params.Unmarshal(kv[KEY_PARAMS]);
      if err.Some? {
        return Err(ParsingParams(err.value));
      }
      return Ok(params.Value());
    }

    /** Parameters are validated before they are stored. */
    method SetParams(params: Storable) returns (err: Option<ParamsError>)
      modifies this`kv
      ensures err == Verdict(params)
      ensures kv == if err.None? then WithParams(old(kv), params) else old(kv)
    {
      err := Validate(params);
      if err.Some? {
        return;
      }
      var message := new ParamsMessage.ParamsMessage.Of(params);
      var bz := message.Marshal();
      kv := kv[KEY_PARAMS := bz[..]];
    }

    method GetAndIncrementNextAccountID() returns (id: U64)
      modifies this`kv
      ensures id == NextID(old(kv))
      ensures kv == WithNextID(old(kv), WrapWord(id + 1))
    {
      id := NextID(kv);
      kv := WithNextID(kv, WrapWord(id + 1));
    }

    // ---------- msg_server.go ----------

    method DeliverMsg(msg: Msg, meter: GasMeter) returns (o: Outcome)
      modifies this, meter
      ensures Run(Snapshot(), meter.consumed, o) ==
              RunMsg(authority, old(Snapshot()), old(meter.consumed), meter.limit, msg)
      decreases msg
    {
      match msg {
        case UpdateParams(sender, params) =>
          if sender != authority {
            return Failed(Unauthorized);
          }
          var err := SetParams(params);
          if err.Some? {
            return Failed(InvalidParams(err.value));
          }
          accepted := accepted + [Change(Some(sender), params)];
          return Done;
        case RegisterAccount(sender, senderValid, codeID, inst) =>
          o := Register(msg, meter);
        case Other(body) =>
          o := Execute(body, meter);
      }
    }

    method Register(msg: Msg, meter: GasMeter) returns (o: Outcome)
      requires msg.RegisterAccount?
      modifies this, meter
      ensures Run(Snapshot(), meter.consumed, o) ==
              RunMsg(authority, old(Snapshot()), old(meter.consumed), meter.limit, msg)
      decreases msg, 0
    {
      hide ReadParams, NextID, RunScript;
      var inst := msg.instantiate;
      var params := GetParams();
      if params.Err? {
        return Failed(params.error);
      }
      var allowed := IsAllowed(params.value, msg.codeID);
      if !allowed {
        return Failed(NotAllowedCodeID);
      }
      if !msg.senderValid {
        return Failed(InvalidSender);
      }
      var id := GetAndIncrementNextAccountID();
      o := Execute(inst.body, meter);
      if !o.Done? {
        return;
      }
      accounts := if inst.account.None? then accounts - {inst.address} else accounts[inst.address := inst.account.value];
      if !inst.adminOk {
        return Failed(AdminNotUpdated);
      }
      if inst.address !in accounts || !accounts[inst.address].BaseAccount? {
        return Failed(NotBaseAccount);
      }
      var acc := AbstractAccount(accounts[inst.address].number, accounts[inst.address].sequence);
      accounts := accounts[inst.address := acc];
      registered := registered + [Registration(id, msg.codeID, msg.sender, inst.address, acc)];
    }

    /** A contract's execution. A message whose error is caught runs on a branch of the state. */
    method Execute(script: Script, meter: GasMeter) returns (o: Outcome)
      modifies this, meter
      ensures Run(Snapshot(), meter.consumed, o) ==
              RunScript(authority, old(Snapshot()), old(meter.consumed), meter.limit, script)
      decreases script
    {
      match script {
        case Return(ok) =>
          return if ok then Done else Failed(ContractError);
        case Spend(gas, next) =>
          meter.consumed := meter.consumed + gas;
          if meter.consumed > meter.limit {
            return OutOfGas;
          }
          o := Execute(next, meter);
        case Write(key, value, next) =>
          world := world[key := value];
          o := Execute(next, meter);
        case Submit(msg, caught, next) =>
          var saved := Snapshot();
          o := DeliverMsg(msg, meter);
          if o.OutOfGas? || (o.Failed? && !caught) {
            return;
          }
          if o.Failed? {
            Assign(saved);
          }
          o := Execute(next, meter);
      }
    }

    // ---------- ante.go ----------

    /** The contract runs on a branch of the state and on a meter of its own; the caller's is swapped out. */
    method SudoWithLimit(script: Script, meter: GasMeter, maxGas: nat) returns (o: Outcome, gas: nat)
      modifies this
      ensures Sudo(Snapshot(), o, gas, meter.consumed) ==
              SudoWithGasLimit(authority, old(Snapshot()), old(meter.consumed), script, maxGas)
    {
      var cache := new Keeper.Branch(this);
      var cacheMeter := new GasMeter(maxGas);
      o := cache.Execute(script, cacheMeter);
      gas := cacheMeter.consumed;
      if !o.Done? {
        return;
      }
      var written := cache.Snapshot();
      Assign(written);
    }

    method BeforeTx(tx: Tx, meter: GasMeter) returns (o: Outcome, called: Option<Slice>, gas: nat, later: bool)
      requires meter.limit == tx.gasLimit
      modifies this, meter
      ensures Hook(Snapshot(), o, called, gas, meter.consumed, later) ==
              AnteHandle(authority, old(Snapshot()), old(meter.consumed), tx)
    {
      hide ReadParams, SudoWithGasLimit;
      called, gas, later := None, 0, false;
      var aa := IsAbstractAccountTx(Snapshot(), tx);
      if aa.Err? {
        o := Failed(aa.error);
        return;
      }
      if aa.value.None? {
        if !tx.defaultVerdict {
          o := Failed(SignatureRejected);
          return;
        }
        o := Next(tx.anteRest, meter);
        later := true;
        return;
      }
      var signer, account, signature := aa.value.value.signer, aa.value.value.account, aa.value.value.signature;
      kv := WithSigner(kv, signer);
      var why := Prepare(tx, account, signature);
      if why.Some? {
        o := Failed(why.value);
        return;
      }
      var params := GetParams();
      if params.Err? {
        o := Failed(params.error);
        return;
      }
      called := Some(signer);
      o, gas := SudoWithLimit(tx.beforeTx, meter, params.value.maxGasBefore);
      if o.Done? {
        o := Next(tx.anteRest, meter);
        later := true;
      }
    }

    /** The checks between the marker and the contract call. */
    static method Prepare(tx: Tx, account: Account, signature: Signature) returns (why: Option<Failure>)
      ensures why == if signature.sequence != account.sequence then Some(WrongSequence)
                     else if !tx.messagesPack then Some(MessagesNotPacked)
                     else if !signature.single then Some(NotSingleSignature)
                     else if !tx.signBytesAvailable then Some(SignBytesUnavailable)
                     else None
    {
      if signature.sequence != account.sequence {
        return Some(WrongSequence);
      }
      if !tx.messagesPack {
        return Some(MessagesNotPacked);
      }
      if !signature.single {
        return Some(NotSingleSignature);
      }
      if !tx.signBytesAvailable {
        return Some(SignBytesUnavailable);
      }
      return None;
    }

    method AfterTx(tx: Tx, meter: GasMeter) returns (o: Outcome, called: Option<Slice>, gas: nat, later: bool)
      requires meter.limit == tx.gasLimit
      modifies this, meter
      ensures Hook(Snapshot(), o, called, gas, meter.consumed, later) ==
              PostHandle(authority, old(Snapshot()), old(meter.consumed), tx)
    {
      hide ReadParams, SudoWithGasLimit;
      called, gas, later := None, 0, false;
      var signer := Signer(kv);
      if signer.None? {
        o := Next(tx.postRest, meter);
        later := true;
        return;
      }
      kv := WithoutSigner(kv);
      var params := GetParams();
      if params.Err? {
        o := Failed(params.error);
        return;
      }
      called := signer;
      o, gas := SudoWithLimit(tx.afterTx, meter, params.value.maxGasAfter);
      if o.Done? {
        o := Next(tx.postRest, meter);
        later := true;
      }
    }

    method Next(rest: Rest, meter: GasMeter) returns (o: Outcome)
      modifies this`accounts, meter
      ensures accounts == old(accounts) + rest.accounts && meter.consumed == old(meter.consumed) + rest.gas
      ensures o == if rest.ok && meter.consumed <= meter.limit then Done else Failed(LaterHandler)
    {
      accounts := accounts + rest.accounts;
      meter.consumed := meter.consumed + rest.gas;
      o := if rest.ok && meter.consumed <= meter.limit then Done else Failed(LaterHandler);
    }

    // ---------- The workflow of a tx ----------

    method DeliverMsgs(msgs: seq<Msg>, meter: GasMeter) returns (o: Outcome)
      modifies this, meter
      ensures Run(Snapshot(), meter.consumed, o) ==
              RunMsgs(authority, old(Snapshot()), old(meter.consumed), meter.limit, msgs)
    {
      hide RunMsg;
      for k := 0 to |msgs|
        invariant RunMsgs(authority, Snapshot(), meter.consumed, meter.limit, msgs[k..]) ==
                  RunMsgs(authority, old(Snapshot()), old(meter.consumed), meter.limit, msgs)
      {
        assert msgs[k..][1..] == msgs[k + 1..];
        o := DeliverMsg(msgs[k], meter);
        if !o.Done? {
          return;
        }
      }
      o := Done;
    }

    /** The ante handler's writes are kept when it passes, those of the messages and the post handler when
        all of them do. One meter runs through the three. */
    method RunTx(tx: Tx) returns (d: Delivery)
      modifies this
      ensures d == DeliverTx(authority, old(Snapshot()), tx) && Snapshot() == d.state
    {
      hide AnteHandle, PostHandle, RunMsgs;
      var meter := new GasMeter(tx.gasLimit);
      var ante := new Keeper.Branch(this);
      var o, before, _, _ := ante.BeforeTx(tx, meter);
      if !o.Done? {
        return Delivery(Snapshot(), false, false, false, before, None, meter.consumed);
      }
      var anteState := ante.Snapshot();
      Assign(anteState);
      var branch := new Keeper.Branch(this);
      o := branch.DeliverMsgs(tx.msgs, meter);
      if !o.Done? {
        return Delivery(anteState, true, false, false, before, None, meter.consumed);
      }
      var end, after, _, _ := branch.AfterTx(tx, meter);
      if !end.Done? {
        return Delivery(anteState, true, true, false, before, after, meter.consumed);
      }
      var postState := branch.Snapshot();
      Assign(postState);
      return Delivery(postState, true, true, true, before, after, meter.consumed);
    }

    // ---------- genesis.go ----------

    method Init(gs: Genesis) returns (panics: bool)
      modifies this
      ensures InitGenesis(old(Snapshot()), gs) == if panics then None else Some(Snapshot())
    {
      var err := SetParams(gs.params);
      if err.Some? {
        return true;
      }
      accepted := accepted + [Change(None, gs.params)];
      kv := WithNextID(kv, gs.nextAccountID);
      return false;
    }

    method Export() returns (gs: Result<(Params, U64), Failure>)
      ensures gs == if ReadParams(kv).Err? then Err(ReadParams(kv).error) else Ok((ReadParams(kv).value, NextID(kv)))
    {
      var params := GetParams();
      if params.Err? {
        return Err(params.error);
      }
      return Ok((params.value, NextID(kv)));
    }
  }
}
