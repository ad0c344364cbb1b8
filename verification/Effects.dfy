/** What executions do outside the module's store: which accounts and which of the contracts' own entries
    they change, and what is undone. */
module Effects {
  import opened Machine
  import opened ParamsRules
  import opened Store
  import opened Chain
  import opened Histories

  // ---------- Accounts ----------

  type Accounts = map<Address, Account>

  /** The accounts after a list of registrations: each puts its account at its address. */
  function Overlay(accounts: Accounts, regs: seq<Registration>): Accounts {
    if regs == [] then accounts
    else
      var last := regs[|regs| - 1];
      Overlay(accounts, regs[..|regs| - 1])[last.address := last.account]
  }

  lemma {:induction false} OverlayConcat(accounts: Accounts, xs: seq<Registration>, ys: seq<Registration>)
    ensures Overlay(accounts, xs + ys) == Overlay(Overlay(accounts, xs), ys)
    decreases |ys|
  {
    if ys == [] {
      Unit(xs);
    } else {
      var n := |ys| - 1;
      assert (xs + ys)[..|xs| + n] == xs + ys[..n];
      OverlayConcat(accounts, xs, ys[..n]);
    }
  }

  lemma OverlayOne(accounts: Accounts, reg: Registration)
    ensures Overlay(accounts, [reg]) == accounts[reg.address := reg.account]
  {
    assert [reg][..0] == [];
    assert Overlay(accounts, []) == accounts;
  }

  ghost predicate Taken(regs: seq<Registration>, address: Address) {
    exists k :: 0 <= k < |regs| && regs[k].address == address
  }

  /** Registration `k` is the latest at its address. */
  ghost predicate LatestAt(regs: seq<Registration>, k: nat) {
    k < |regs| && forall j :: k < j < |regs| ==> regs[j].address != regs[k].address
  }

  /** An address holds the account of the latest registration there, or what it held before. */
  lemma {:induction false} OverlayTaken(accounts: Accounts, regs: seq<Registration>, k: nat)
    requires LatestAt(regs, k)
    ensures var after := Overlay(accounts, regs);
            regs[k].address in after && after[regs[k].address] == regs[k].account
    decreases |regs|
  {
    var n := |regs| - 1;
    if k == n {
    } else {
      assert LatestAt(regs[..n], k);
      OverlayTaken(accounts, regs[..n], k);
    }
  }

  lemma {:induction false} OverlayKept(accounts: Accounts, regs: seq<Registration>, a: Address)
    requires !Taken(regs, a)
    ensures var after := Overlay(accounts, regs);
            (a in after <==> a in accounts) && (a in accounts ==> after[a] == accounts[a])
    decreases |regs|
  {
    if regs == [] {
    } else {
      var n := |regs| - 1;
      assert regs[n].address != a;
      assert forall k :: 0 <= k < n ==> regs[..n][k] == regs[k];
      OverlayKept(accounts, regs[..n], a);
    }
  }

  /** From `a` to `b` the accounts changed by the registrations in between and by nothing else. */
  ghost predicate AccountsFollow(a: State, b: State) {
    && a.registered <= b.registered
    && b.accounts == Overlay(a.accounts, NewRegistrations(a, b))
    && forall k :: |a.registered| <= k < |b.registered| ==> b.registered[k].account.AbstractAccount?
  }

  lemma AccountsFollowTrans(a: State, b: State, c: State)
    requires AccountsFollow(a, b) && AccountsFollow(b, c)
    ensures AccountsFollow(a, c)
  {
    hide Overlay;
    var x, y := NewRegistrations(a, b), NewRegistrations(b, c);
    assert NewRegistrations(a, c) == x + y;
    OverlayConcat(a.accounts, x, y);
    forall k | |a.registered| <= k < |c.registered| ensures c.registered[k].account.AbstractAccount? {
      if k < |b.registered| {
        assert c.registered[k] == b.registered[k];
      }
    }
  }

  lemma AccountsFollowSame(a: State, b: State)
    requires b.accounts == a.accounts && b.registered == a.registered
    ensures AccountsFollow(a, b)
  {
    assert NewRegistrations(a, b) == [];
  }

  lemma {:induction false} ScriptAccounts(authority: Bytes, st: State, gas: nat, limit: nat, script: Script)
    requires RunScript(authority, st, gas, limit, script).outcome.Done?
    ensures AccountsFollow(st, RunScript(authority, st, gas, limit, script).state)
    decreases script
  {
    hide AccountsFollow;
    match script
    case Return(ok) =>
      AccountsFollowSame(st, st);
    case Spend(amount, next) =>
      ScriptAccounts(authority, st, gas + amount, limit, next);
    case Write(key, value, next) =>
      var written := st.(world := st.world[key := value]);
      AccountsFollowSame(st, written);
      ScriptAccounts(authority, written, gas, limit, next);
      AccountsFollowTrans(st, written, RunScript(authority, written, gas, limit, next).state);
    case Submit(msg, caught, next) =>
      var r := RunMsg(authority, st, gas, limit, msg);
      if r.outcome.Done? {
        MsgAccounts(authority, st, gas, limit, msg);
        ScriptAccounts(authority, r.state, r.gas, limit, next);
        AccountsFollowTrans(st, r.state, RunScript(authority, r.state, r.gas, limit, next).state);
      } else {
        ScriptAccounts(authority, st, r.gas, limit, next);
      }
  }

  lemma {:induction false} MsgAccounts(authority: Bytes, st: State, gas: nat, limit: nat, msg: Msg)
    requires RunMsg(authority, st, gas, limit, msg).outcome.Done?
    ensures AccountsFollow(st, RunMsg(authority, st, gas, limit, msg).state)
    decreases msg
  {
    hide AccountsFollow, WithParams, Verdict;
    match msg
    case UpdateParams(sender, params) =>
      AccountsFollowSame(st, RunMsg(authority, st, gas, limit, msg).state);
    case Other(body) =>
      ScriptAccounts(authority, st, gas, limit, body);
    case RegisterAccount(sender, senderValid, codeID, inst) =>
      RegisterFrame(authority, st, gas, limit, msg);
      ScriptAccounts(authority, TakeID(st), gas, limit, inst.body);
      var inner := RunScript(authority, TakeID(st), gas, limit, inst.body).state;
      var r := RunMsg(authority, st, gas, limit, msg).state;
      hide RunMsg, RunScript, NextID, ReadParams;
      AccountsFollowSame(st, TakeID(st));
      AccountsFollowTrans(st, TakeID(st), inner);
      OneRegistered(inner, r, r.registered[|r.registered| - 1]);
      AccountsFollowTrans(st, inner, r);
  }

  /** A registration puts one account in place, at the new address, and leaves everything else as the
      contract's execution left it. */
  lemma RegisterFrame(authority: Bytes, st: State, gas: nat, limit: nat, msg: Msg)
    requires msg.RegisterAccount? && RunMsg(authority, st, gas, limit, msg).outcome.Done?
    ensures var inst := msg.instantiate;
            var inner := RunScript(authority, TakeID(st), gas, limit, inst.body);
            var r := RunMsg(authority, st, gas, limit, msg);
            && inner.outcome.Done? && r.gas == inner.gas
            && r.state.kv == inner.state.kv && r.state.world == inner.state.world
            && r.state.accepted == inner.state.accepted
            && inst.account.Some?
            && var account := AbstractAccount(inst.account.value.number, inst.account.value.sequence);
            && var reg := Registration(NextID(st.kv), msg.codeID, msg.sender, inst.address, account);
            && r.state.registered == inner.state.registered + [reg]
            && inst.address in r.state.accounts && r.state.accounts[inst.address] == account
            && forall a: Address :: a != inst.address ==>
                 && (a in r.state.accounts <==> a in inner.state.accounts)
                 && (a in r.state.accounts ==> r.state.accounts[a] == inner.state.accounts[a])
  {
    hide ReadParams, NextID, RunScript, TakeID;
  }

  lemma OneRegistered(a: State, b: State, reg: Registration)
    requires b.registered == a.registered + [reg] && reg.account.AbstractAccount?
    requires reg.address in b.accounts && b.accounts[reg.address] == reg.account
    requires forall x: Address :: x != reg.address ==>
               (x in b.accounts <==> x in a.accounts) && (x in b.accounts ==> b.accounts[x] == a.accounts[x])
    ensures AccountsFollow(a, b)
  {
    assert NewRegistrations(a, b) == [reg];
    OverlayOne(a.accounts, reg);
  }

  lemma {:induction false} MsgsAccounts(authority: Bytes, st: State, gas: nat, limit: nat, msgs: seq<Msg>)
    requires RunMsgs(authority, st, gas, limit, msgs).outcome.Done?
    ensures AccountsFollow(st, RunMsgs(authority, st, gas, limit, msgs).state)
    decreases |msgs|
  {
    hide AccountsFollow, RunMsg;
    if msgs == [] {
      AccountsFollowSame(st, st);
    } else {
      var r := RunMsg(authority, st, gas, limit, msgs[0]);
      MsgAccounts(authority, st, gas, limit, msgs[0]);
      MsgsAccounts(authority, r.state, r.gas, limit, msgs[1..]);
      AccountsFollowTrans(st, r.state, RunMsgs(authority, r.state, r.gas, limit, msgs[1..]).state);
    }
  }

  /** Over the messages of a tx, with registrations nested and undone at will: every address that a
      surviving registration took holds an abstract account, that of the latest one there, and every other
      address holds what it held. */
  lemma RegisteredStand(authority: Bytes, st: State, gas: nat, limit: nat, msgs: seq<Msg>)
    requires RunMsgs(authority, st, gas, limit, msgs).outcome.Done?
    ensures var after := RunMsgs(authority, st, gas, limit, msgs).state;
            && st.registered <= after.registered
            && var regs := NewRegistrations(st, after);
            && (forall k :: 0 <= k < |regs| ==>
                  regs[k].address in after.accounts && after.accounts[regs[k].address].AbstractAccount?)
            && (forall k: nat :: LatestAt(regs, k) ==> after.accounts[regs[k].address] == regs[k].account)
            && (forall a: Address :: !Taken(regs, a) ==>
                  (a in after.accounts <==> a in st.accounts) && (a in st.accounts ==> after.accounts[a] == st.accounts[a]))
  {
    hide RunMsgs, Overlay;
    MsgsAccounts(authority, st, gas, limit, msgs);
    var after := RunMsgs(authority, st, gas, limit, msgs).state;
    var regs := NewRegistrations(st, after);
    forall k: nat | LatestAt(regs, k)
      ensures regs[k].address in after.accounts && after.accounts[regs[k].address] == regs[k].account
    {
      OverlayTaken(st.accounts, regs, k);
    }
    forall k | 0 <= k < |regs|
      ensures regs[k].address in after.accounts && after.accounts[regs[k].address].AbstractAccount?
    {
      LatestExists(regs, k);
      var j: nat :| LatestAt(regs, j) && regs[j].address == regs[k].address;
      assert regs[j] == after.registered[|st.registered| + j];
    }
    forall a: Address | !Taken(regs, a)
      ensures (a in after.accounts <==> a in st.accounts) && (a in st.accounts ==> after.accounts[a] == st.accounts[a])
    {
      OverlayKept(st.accounts, regs, a);
    }
  }

  lemma {:induction false} LatestExists(regs: seq<Registration>, k: nat)
    requires k < |regs|
    ensures exists j: nat :: LatestAt(regs, j) && regs[j].address == regs[k].address
    decreases |regs| - k
  {
    if LatestAt(regs, k) {
    } else {
      var j :| k < j < |regs| && regs[j].address == regs[k].address;
      LatestExists(regs, j);
    }
  }

  // ---------- What contracts write ----------

  /** The entries that a script, or a message in it, may write. */
  function Keys(script: Script): set<Bytes>
    decreases script
  {
    match script
    case Return(_) => {}
    case Spend(_, next) => Keys(next)
    case Write(key, _, next) => {key} + Keys(next)
    case Submit(msg, _, next) => MsgKeys(msg) + Keys(next)
  }

  function MsgKeys(msg: Msg): set<Bytes>
    decreases msg
  {
    match msg
    case RegisterAccount(_, _, _, inst) => Keys(inst.body)
    case UpdateParams(_, _) => {}
    case Other(body) => Keys(body)
  }

  ghost predicate SameBut(a: map<Bytes, Bytes>, b: map<Bytes, Bytes>, keys: set<Bytes>) {
    forall k :: k !in keys ==> (k in b <==> k in a) && (k in a ==> b[k] == a[k])
  }

  /** Entries that no contract writes stay. */
  lemma {:induction false} ScriptWrites(authority: Bytes, st: State, gas: nat, limit: nat, script: Script)
    requires RunScript(authority, st, gas, limit, script).outcome.Done?
    ensures SameBut(st.world, RunScript(authority, st, gas, limit, script).state.world, Keys(script))
    decreases script
  {
    match script
    case Return(ok) =>
    case Spend(amount, next) =>
      ScriptWrites(authority, st, gas + amount, limit, next);
    case Write(key, value, next) =>
      ScriptWrites(authority, st.(world := st.world[key := value]), gas, limit, next);
    case Submit(msg, caught, next) =>
      var r := RunMsg(authority, st, gas, limit, msg);
      if r.outcome.Done? {
        MsgWrites(authority, st, gas, limit, msg);
        ScriptWrites(authority, r.state, r.gas, limit, next);
      } else {
        ScriptWrites(authority, st, r.gas, limit, next);
      }
  }

  lemma {:induction false} MsgWrites(authority: Bytes, st: State, gas: nat, limit: nat, msg: Msg)
    requires RunMsg(authority, st, gas, limit, msg).outcome.Done?
    ensures SameBut(st.world, RunMsg(authority, st, gas, limit, msg).state.world, MsgKeys(msg))
    decreases msg
  {
    hide WithParams, Verdict;
    match msg
    case UpdateParams(sender, params) =>
    case Other(body) =>
      ScriptWrites(authority, st, gas, limit, body);
    case RegisterAccount(sender, senderValid, codeID, inst) =>
      RegisterFrame(authority, st, gas, limit, msg);
      ScriptWrites(authority, TakeID(st), gas, limit, inst.body);
      hide RunMsg, RunScript, NextID, ReadParams;
  }

  /** A write that nothing overwrites is there in the end. */
  lemma WriteLands(authority: Bytes, st: State, gas: nat, limit: nat, key: Bytes, value: Bytes, next: Script)
    requires RunScript(authority, st, gas, limit, Write(key, value, next)).outcome.Done? && key !in Keys(next)
    ensures var world := RunScript(authority, st, gas, limit, Write(key, value, next)).state.world;
            key in world && world[key] == value
  {
    ScriptWrites(authority, st.(world := st.world[key := value]), gas, limit, next);
  }

  // ---------- What is undone ----------

  /** A message that fails and is caught has only spent its gas. */
  lemma CaughtOnlySpends(authority: Bytes, st: State, gas: nat, limit: nat, msg: Msg, next: Script)
    requires gas <= limit && RunMsg(authority, st, gas, limit, msg).outcome.Failed?
    ensures var spent := RunMsg(authority, st, gas, limit, msg).gas - gas;
            && spent >= 0
            && RunScript(authority, st, gas, limit, Submit(msg, true, next)) ==
               RunScript(authority, st, gas, limit, Spend(spent, next))
  {
    MsgSound(authority, st, gas, limit, msg);
    hide RunMsg;
  }

  /** An error that is not caught, and running out of gas in any case, ends the execution. */
  lemma UncaughtEnds(authority: Bytes, st: State, gas: nat, limit: nat, msg: Msg, caught: bool, next: Script)
    requires var o := RunMsg(authority, st, gas, limit, msg).outcome; o.OutOfGas? || (o.Failed? && !caught)
    ensures var m := RunMsg(authority, st, gas, limit, msg);
            var r := RunScript(authority, st, gas, limit, Submit(msg, caught, next));
            r.outcome == m.outcome && r.gas == m.gas
  {
    hide RunMsg;
  }

  /** The messages of a tx run one after the other, and the first failure is the tx's. */
  lemma {:induction false} MsgsConcat(authority: Bytes, st: State, gas: nat, limit: nat, xs: seq<Msg>, ys: seq<Msg>)
    ensures var r := RunMsgs(authority, st, gas, limit, xs);
            RunMsgs(authority, st, gas, limit, xs + ys) ==
            if r.outcome.Done? then RunMsgs(authority, r.state, r.gas, limit, ys) else r
    decreases |xs|
  {
    hide RunMsg;
    if xs == [] {
      Unit(ys);
    } else {
      assert (xs + ys)[0] == xs[0] && (xs + ys)[1..] == xs[1..] + ys;
      var r := RunMsg(authority, st, gas, limit, xs[0]);
      if r.outcome.Done? {
        MsgsConcat(authority, r.state, r.gas, limit, xs[1..], ys);
      }
    }
  }

  lemma MsgsOne(authority: Bytes, st: State, gas: nat, limit: nat, msg: Msg)
    ensures RunMsgs(authority, st, gas, limit, [msg]) == RunMsg(authority, st, gas, limit, msg)
  {
    hide RunMsg;
    var r := RunMsg(authority, st, gas, limit, msg);
    assert [msg][1..] == [];
    assert RunMsgs(authority, r.state, r.gas, limit, []) == Run(r.state, r.gas, Done);
  }
}
