/** The state machine behind the message handlers. Contracts are not interpreted: what an execution
    of one does is a `Script`, an arbitrary finite tree of gas spent, writes outside this module and
    messages submitted back to the router, some of them with their errors caught. */
module Chain {
  import opened Machine
  import opened ParamsCodec
  import opened ParamsRules
  import opened Store

  datatype Account =
    | BaseAccount(number: U64, sequence: U64)
    | AbstractAccount(number: U64, sequence: U64)
    | OtherAccount(number: U64, sequence: U64)

  /** A registration that went through: the ID in the contract's label, what was registered, and the
      account that it put at the address. */
  datatype Registration = Registration(id: U64, codeID: U64, creator: Bytes, address: Address, account: Account)

  /** A change of the parameters that went through, and who sent it; genesis is sent by nobody. */
  datatype Change = Change(sender: Option<Bytes>, params: Storable)

  /** The module store, the account keeper, and everything else that contracts write. The last two
      fields are histories: the registrations and the parameter changes that went through and have
      not been rolled back. */
  datatype State = State(
    kv: Kv,
    accounts: map<Address, Account>,
    world: map<Bytes, Bytes>,
    registered: seq<Registration>,
    accepted: seq<Change>)

  datatype Script =
    | Return(ok: bool)
    | Spend(gas: nat, next: Script)
    | Write(key: Bytes, value: Bytes, next: Script)
    | Submit(msg: Msg, caught: bool, next: Script)

  /** `instantiate` is what Instantiate2 does once it is called: the new contract's execution, the
      address it gets, what the account keeper then holds there, and whether the admin can be set. */
  datatype Instantiation = Instantiation(body: Script, address: Address, account: Option<Account>, adminOk: bool)

  datatype Msg =
    | RegisterAccount(sender: Bytes, senderValid: bool, codeID: U64, instantiate: Instantiation)
    | UpdateParams(sender: Bytes, params: Storable)
    | Other(body: Script)

  /** Running out of gas is a panic, which no contract catches. */
  datatype Outcome = Done | Failed(why: Failure) | OutOfGas

  datatype Run = Run(state: State, gas: nat, outcome: Outcome)

  /** An execution with `gas` already on a meter of the given limit. A submitted message whose error
      is caught is rolled back; otherwise its error is the execution's own. */
  ghost function RunScript(authority: Bytes, st: State, gas: nat, limit: nat, script: Script): Run
    decreases script
  {
    match script
    case Return(ok) => Run(st, gas, if ok then Done else Failed(ContractError))
    case Spend(amount, next) =>
      if gas + amount > limit then Run(st, gas + amount, OutOfGas)
      else RunScript(authority, st, gas + amount, limit, next)
    case Write(key, value, next) =>
      RunScript(authority, st.(world := st.world[key := value]), gas, limit, next)
    case Submit(msg, caught, next) =>
      var r := RunMsg(authority, st, gas, limit, msg);
      if r.outcome.Done? then RunScript(authority, r.state, r.gas, limit, next)
      else if r.outcome.Failed? && caught then RunScript(authority, st, r.gas, limit, next)
      else r
  }

  ghost function RunMsg(authority: Bytes, st: State, gas: nat, limit: nat, msg: Msg): Run
    decreases msg
  {
    match msg
    case UpdateParams(sender, params) =>
      if sender != authority then Run(st, gas, Failed(Unauthorized))
      else if Verdict(params).Some? then Run(st, gas, Failed(InvalidParams(Verdict(params).value)))
      else Run(st.(kv := WithParams(st.kv, params), accepted := st.accepted + [Change(Some(sender), params)]), gas, Done)
    case Other(body) => RunScript(authority, st, gas, limit, body)
    case RegisterAccount(sender, senderValid, codeID, inst) =>
      var params := ReadParams(st.kv);
      if params.Err? then Run(st, gas, Failed(params.error))
      else if !Allowed(params.value, codeID) then Run(st, gas, Failed(NotAllowedCodeID))
      else if !senderValid then Run(st, gas, Failed(InvalidSender))
      else
        var r := RunScript(authority, TakeID(st), gas, limit, inst.body);
        if !r.outcome.Done? then r else Finish(r, NextID(st.kv), sender, codeID, inst)
  }

  /** The next ID is taken before the contract runs; it wraps at 64 bits. */
  function TakeID(st: State): State {
    st.(kv := WithNextID(st.kv, WrapWord(NextID(st.kv) + 1)))
  }

  /** What is left to do once the contract is instantiated. */
  function Finish(r: Run, id: U64, sender: Bytes, codeID: U64, inst: Instantiation): Run {
    var accounts := if inst.account.None? then r.state.accounts - {inst.address}
                    else r.state.accounts[inst.address := inst.account.value];
    if !inst.adminOk then Run(r.state.(accounts := accounts), r.gas, Failed(AdminNotUpdated))
    else if inst.account.None? || !inst.account.value.BaseAccount? then
      Run(r.state.(accounts := accounts), r.gas, Failed(NotBaseAccount))
    else
      var acc := AbstractAccount(inst.account.value.number, inst.account.value.sequence);
      Run(r.state.(accounts := accounts[inst.address := acc],
                   registered := r.state.registered + [Registration(id, codeID, sender, inst.address, acc)]),
          r.gas, Done)
  }

  /** The messages of a tx, one after the other, until one fails. */
  ghost function RunMsgs(authority: Bytes, st: State, gas: nat, limit: nat, msgs: seq<Msg>): Run
    decreases |msgs|
  {
    if msgs == [] then Run(st, gas, Done)
    else
      var r := RunMsg(authority, st, gas, limit, msgs[0]);
      if r.outcome.Done? then RunMsgs(authority, r.state, r.gas, limit, msgs[1..]) else r
  }

  // ---------- Genesis ----------

  datatype Genesis = Genesis(params: Storable, nextAccountID: U64)

  /** None stands for the panic on parameters that do not validate. */
  ghost function InitGenesis(st: State, gs: Genesis): Option<State> {
    if Verdict(gs.params).Some? then None
    else Some(st.(kv := WithNextID(WithParams(st.kv, gs.params), gs.nextAccountID),
                  accepted := st.accepted + [Change(None, gs.params)]))
  }

  /** What export returns, when the stored parameters can be read. */
  ghost function ExportGenesis(st: State): (r: Result<Genesis, Failure>)
    requires ReadParams(st.kv).Ok? ==> |EncodeParams(ReadParams(st.kv).value)| < TWO_63
  {
    var params := ReadParams(st.kv);
    if params.Err? then Err(params.error) else Ok(Genesis(params.value, NextID(st.kv)))
  }
}
