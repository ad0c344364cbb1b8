/** What every execution does to the module's state: account IDs are handed out without gaps or
    repetitions, the stored parameters stay valid, and the signer marker is left alone. */
module Histories {
  import opened Machine
  import opened ParamsRules
  import opened Store
  import opened Chain

  // ---------- Account IDs ----------

  function IDs(regs: seq<Registration>): seq<U64> {
    seq(|regs|, k requires 0 <= k < |regs| => regs[k].id)
  }

  /** `n` successive IDs, wrapping at 64 bits. */
  function Range(start: U64, n: nat): (r: seq<U64>)
    ensures |r| == n
    decreases n
  {
    if n == 0 then [] else [start] + Range(WrapWord(start + 1), n - 1)
  }

  lemma {:induction false} RangeAt(start: U64, n: nat, k: nat)
    requires k < n
    ensures Range(start, n)[k] == WrapWord(start + k)
    decreases n
  {
    if k == 0 {
    } else {
      RangeAt(WrapWord(start + 1), n - 1, k - 1);
      ModAdd(start + 1, k - 1);
    }
  }

  lemma {:induction false} RangeSplit(start: U64, m: nat, n: nat)
    ensures Range(start, m + n) == Range(start, m) + Range(WrapWord(start + m), n)
    decreases m
  {
    hide Range, WrapWord;
    if m == 0 {
      RangeNone(start);
      WordFits(start);
      Unit(Range(start, n));
    } else {
      var next := WrapWord(start + 1);
      ModAdd(start + 1, m - 1);
      RangeCons(start, m + n);
      RangeCons(start, m);
      RangeSplit(next, m - 1, n);
      Assoc([start], Range(next, m - 1), Range(WrapWord(start + m), n));
    }
  }

  lemma RangeNone(start: U64)
    ensures Range(start, 0) == []
  {
  }

  lemma RangeCons(start: U64, n: nat)
    requires n > 0
    ensures Range(start, n) == [start] + Range(WrapWord(start + 1), n - 1)
  {
  }

  lemma WordFits(x: U64)
    ensures WrapWord(x) == x
  {
  }

  /** Permutations of consecutive ranges join to a permutation of the range they make up. */
  lemma JoinRanges(x: seq<U64>, y: seq<U64>, start: U64, m: nat, n: nat)
    requires multiset(x) == multiset(Range(start, m))
    requires multiset(y) == multiset(Range(WrapWord(start + m), n))
    ensures multiset(x + y) == multiset(Range(start, m + n))
  {
    RangeSplit(start, m, n);
    hide Range;
  }

  lemma ModAdd(a: nat, k: nat)
    ensures WrapWord(a + k) == WrapWord(WrapWord(a) + k)
  {
    var q := a / TWO_64;
    assert a + k == (a % TWO_64 + k) + q * TWO_64;
  }

  lemma IDsConcat(xs: seq<Registration>, ys: seq<Registration>)
    ensures IDs(xs + ys) == IDs(xs) + IDs(ys)
  {
  }

  // ---------- The relation between the states around an execution ----------

  /** The stored parameters are valid and are the ones accepted last. */
  ghost predicate ParamsCurrent(st: State) {
    && st.accepted != []
    && ReadParams(st.kv) == Ok(st.accepted[|st.accepted| - 1].params)
    && Valid(st.accepted[|st.accepted| - 1].params)
  }

  function NewRegistrations(a: State, b: State): seq<Registration>
    requires |a.registered| <= |b.registered|
  {
    b.registered[|a.registered|..]
  }

  /** From `a` to `b` exactly the IDs between the two counters were given to registrations. */
  ghost predicate IDsAdvance(a: State, b: State) {
    && a.registered <= b.registered
    && var n := |b.registered| - |a.registered|;
    && NextID(b.kv) == WrapWord(NextID(a.kv) + n)
    && multiset(IDs(NewRegistrations(a, b))) == multiset(Range(NextID(a.kv), n))
  }

  /** From `a` to `b` only the authority changed the parameters. */
  ghost predicate ChangedBy(authority: Bytes, a: State, b: State) {
    && a.accepted <= b.accepted
    && forall k :: |a.accepted| <= k < |b.accepted| ==> b.accepted[k].sender == Some(authority)
  }

  ghost predicate Progress(authority: Bytes, a: State, b: State) {
    IDsAdvance(a, b) && ChangedBy(authority, a, b) && (ParamsCurrent(a) ==> ParamsCurrent(b))
  }

  /** What executions keep to: they make progress and leave the signer marker alone. */
  ghost predicate Extends(authority: Bytes, a: State, b: State) {
    Progress(authority, a, b) && Signer(b.kv) == Signer(a.kv)
  }

  lemma NewRegistrationsTrans(a: State, b: State, c: State)
    requires a.registered <= b.registered <= c.registered
    ensures IDs(NewRegistrations(a, c)) == IDs(NewRegistrations(a, b)) + IDs(NewRegistrations(b, c))
  {
    var x, y := NewRegistrations(a, b), NewRegistrations(b, c);
    assert NewRegistrations(a, c) == x + y;
    IDsConcat(x, y);
  }

  lemma IDsAdvanceTrans(a: State, b: State, c: State)
    requires IDsAdvance(a, b) && IDsAdvance(b, c)
    ensures IDsAdvance(a, c)
  {
    hide IDs, Range, NextID, NewRegistrations, WrapWord;
    var m, n := |b.registered| - |a.registered|, |c.registered| - |b.registered|;
    JoinRanges(IDs(NewRegistrations(a, b)), IDs(NewRegistrations(b, c)), NextID(a.kv), m, n);
    ModAdd(NextID(a.kv) + m, n);
    NewRegistrationsTrans(a, b, c);
  }

  lemma ChangedByTrans(authority: Bytes, a: State, b: State, c: State)
    requires ChangedBy(authority, a, b) && ChangedBy(authority, b, c)
    ensures ChangedBy(authority, a, c)
  {
    forall k | |a.accepted| <= k < |c.accepted| ensures c.accepted[k].sender == Some(authority) {
      if k < |b.accepted| {
        assert c.accepted[k] == b.accepted[k];
      }
    }
  }

  lemma ProgressTrans(authority: Bytes, a: State, b: State, c: State)
    requires Progress(authority, a, b) && Progress(authority, b, c)
    ensures Progress(authority, a, c)
  {
    hide IDsAdvance, ParamsCurrent;
    IDsAdvanceTrans(a, b, c);
    ChangedByTrans(authority, a, b, c);
  }

  lemma ExtendsTrans(authority: Bytes, a: State, b: State, c: State)
    requires Extends(authority, a, b) && Extends(authority, b, c)
    ensures Extends(authority, a, c)
  {
    hide Progress;
    ProgressTrans(authority, a, b, c);
  }

  lemma ProgressWith(authority: Bytes, a: State, b: State)
    requires b.registered == a.registered && NextID(b.kv) == NextID(a.kv)
    requires ChangedBy(authority, a, b) && (ParamsCurrent(a) ==> ParamsCurrent(b))
    ensures Progress(authority, a, b)
  {
    hide ParamsCurrent, NextID;
    assert NewRegistrations(a, b) == [];
    assert IDs([]) == [] == Range(NextID(a.kv), 0);
    assert WrapWord(NextID(a.kv) + 0) == NextID(a.kv);
  }

  /** A registration: the ID is taken first and the record is made last, around whatever the contract
      registered in between. */
  lemma Registers(authority: Bytes, a: State, taken: State, b: State, c: State, reg: Registration)
    requires taken == TakeID(a) && Extends(authority, taken, b)
    requires c.registered == b.registered + [reg] && reg.id == NextID(a.kv) && c.kv == b.kv && c.accepted == b.accepted
    ensures Extends(authority, a, c)
  {
    hide Extends, TakeID, ReadParams, NextID, Signer, IDsAdvance, ChangedBy, ParamsCurrent, WrapWord;
    IDIsTaken(a);
    ExtendsParts(authority, taken, b);
    IDTaken(a, taken, b, c, reg);
    ChangedByTaken(authority, a, taken, b, c);
    CurrentAlike(a, taken);
    CurrentAlike(b, c);
    ExtendsWhole(authority, a, c);
  }

  lemma ExtendsParts(authority: Bytes, a: State, b: State)
    requires Extends(authority, a, b)
    ensures IDsAdvance(a, b) && ChangedBy(authority, a, b) && (ParamsCurrent(a) ==> ParamsCurrent(b))
    ensures Signer(b.kv) == Signer(a.kv)
  {
    hide IDsAdvance, ChangedBy, ParamsCurrent, Signer;
  }

  lemma ExtendsWhole(authority: Bytes, a: State, b: State)
    requires IDsAdvance(a, b) && ChangedBy(authority, a, b) && (ParamsCurrent(a) ==> ParamsCurrent(b))
    requires Signer(b.kv) == Signer(a.kv)
    ensures Extends(authority, a, b)
  {
    hide IDsAdvance, ChangedBy, ParamsCurrent, Signer;
  }

  lemma IDIsTaken(st: State)
    ensures var taken := TakeID(st);
            && taken.registered == st.registered && taken.accepted == st.accepted
            && NextID(taken.kv) == WrapWord(NextID(st.kv) + 1)
            && ReadParams(taken.kv) == ReadParams(st.kv) && Signer(taken.kv) == Signer(st.kv)
  {
    NextIDWritten(st.kv, WrapWord(NextID(st.kv) + 1));
    hide WithNextID, ReadParams, NextID, Signer, WrapWord;
  }

  lemma CurrentAlike(a: State, b: State)
    requires a.accepted == b.accepted && ReadParams(a.kv) == ReadParams(b.kv)
    ensures ParamsCurrent(a) <==> ParamsCurrent(b)
  {
    hide ReadParams, Valid;
  }

  lemma ChangedByTaken(authority: Bytes, a: State, taken: State, b: State, c: State)
    requires taken.accepted == a.accepted && c.accepted == b.accepted && ChangedBy(authority, taken, b)
    ensures ChangedBy(authority, a, c)
  {
  }

  lemma IDTaken(a: State, taken: State, b: State, c: State, reg: Registration)
    requires taken.registered == a.registered && NextID(taken.kv) == WrapWord(NextID(a.kv) + 1)
    requires IDsAdvance(taken, b)
    requires c.registered == b.registered + [reg] && reg.id == NextID(a.kv) && c.kv == b.kv
    ensures IDsAdvance(a, c)
  {
    hide NextID, WrapWord, Range, IDs, NewRegistrations;
    IDsTaken(a, taken, b, c, reg);
    var n := |b.registered| - |taken.registered|;
    var id := NextID(a.kv);
    RangeFrom(id, IDs(NewRegistrations(taken, b)), n);
    ModAdd((id as int) + 1, n);
    IDsAdvanced(a, c, n + 1);
  }

  lemma IDsAdvanced(a: State, c: State, n: nat)
    requires a.registered <= c.registered && |c.registered| == |a.registered| + n
    requires NextID(c.kv) == WrapWord(NextID(a.kv) + n)
    requires multiset(IDs(NewRegistrations(a, c))) == multiset(Range(NextID(a.kv), n))
    ensures IDsAdvance(a, c)
  {
    hide NextID, WrapWord, Range, IDs, NewRegistrations;
  }

  lemma RangeFrom(id: U64, x: seq<U64>, n: nat)
    requires multiset(x) == multiset(Range(WrapWord(id + 1), n))
    ensures multiset([id] + x) == multiset(Range(id, n + 1))
  {
    assert Range(id, n + 1) == [id] + Range(WrapWord(id + 1), n);
  }

  lemma IDsTaken(a: State, taken: State, b: State, c: State, reg: Registration)
    requires taken.registered == a.registered <= b.registered && c.registered == b.registered + [reg]
    ensures a.registered <= c.registered && |c.registered| == |b.registered| + 1
    ensures multiset(IDs(NewRegistrations(a, c))) == multiset([reg.id] + IDs(NewRegistrations(taken, b)))
  {
    var inner := NewRegistrations(taken, b);
    assert NewRegistrations(a, c) == inner + [reg];
    IDsConcat(inner, [reg]);
    assert IDs([reg]) == [reg.id];
    assert multiset([reg.id] + IDs(inner)) == multiset(IDs(inner) + [reg.id]);
  }

  // ---------- Executions ----------

  /** A completed execution extends the state, and stays within its gas limit. */
  ghost predicate Sound(authority: Bytes, st: State, gas: nat, limit: nat, r: Run) {
    && gas <= r.gas
    && (r.outcome.Done? ==> Extends(authority, st, r.state))
    && (gas <= limit && !r.outcome.OutOfGas? ==> r.gas <= limit)
    && (r.outcome.OutOfGas? ==> r.gas > limit)
  }

  lemma {:induction false} ScriptSound(authority: Bytes, st: State, gas: nat, limit: nat, script: Script)
    ensures Sound(authority, st, gas, limit, RunScript(authority, st, gas, limit, script))
    decreases script
  {
    hide Progress;
    match script
    case Return(ok) =>
      ProgressWith(authority, st, st);
    case Spend(amount, next) =>
      if gas + amount <= limit {
        ScriptSound(authority, st, gas + amount, limit, next);
      }
    case Write(key, value, next) =>
      var written := st.(world := st.world[key := value]);
      ScriptSound(authority, written, gas, limit, next);
      ProgressWith(authority, st, written);
      if RunScript(authority, written, gas, limit, next).outcome.Done? {
        ExtendsTrans(authority, st, written, RunScript(authority, written, gas, limit, next).state);
      }
    case Submit(msg, caught, next) =>
      MsgSound(authority, st, gas, limit, msg);
      var r := RunMsg(authority, st, gas, limit, msg);
      if r.outcome.Done? {
        ScriptSound(authority, r.state, r.gas, limit, next);
        var q := RunScript(authority, r.state, r.gas, limit, next);
        if q.outcome.Done? {
          ExtendsTrans(authority, st, r.state, q.state);
        }
      } else if r.outcome.Failed? && caught {
        ScriptSound(authority, st, r.gas, limit, next);
      }
  }

  lemma {:induction false} MsgSound(authority: Bytes, st: State, gas: nat, limit: nat, msg: Msg)
    ensures Sound(authority, st, gas, limit, RunMsg(authority, st, gas, limit, msg))
    decreases msg
  {
    match msg
    case UpdateParams(sender, params) =>
      UpdateSound(authority, st, gas, limit, msg);
    case Other(body) =>
      ScriptSound(authority, st, gas, limit, body);
    case RegisterAccount(sender, senderValid, codeID, inst) =>
      ScriptSound(authority, TakeID(st), gas, limit, inst.body);
      RegisterSound(authority, st, gas, limit, msg);
  }

  lemma UpdateSound(authority: Bytes, st: State, gas: nat, limit: nat, msg: Msg)
    requires msg.UpdateParams?
    ensures Sound(authority, st, gas, limit, RunMsg(authority, st, gas, limit, msg))
  {
    hide Progress, WithParams, Verdict;
    if msg.sender == authority && Verdict(msg.params).None? {
      ParamsChanged(authority, st, msg.params);
    }
  }

  lemma ParamsChanged(authority: Bytes, st: State, params: Storable)
    requires Valid(params)
    ensures var b := st.(kv := WithParams(st.kv, params), accepted := st.accepted + [Change(Some(authority), params)]);
            Progress(authority, st, b) && Signer(b.kv) == Signer(st.kv)
  {
    hide Progress, WithParams, ReadParams, NextID, Signer, Valid;
    ParamsWritten(st.kv, params);
    ProgressWith(authority, st, st.(kv := WithParams(st.kv, params),
                                    accepted := st.accepted + [Change(Some(authority), params)]));
  }

  lemma RegisterSound(authority: Bytes, st: State, gas: nat, limit: nat, msg: Msg)
    requires msg.RegisterAccount?
    requires Sound(authority, TakeID(st), gas, limit, RunScript(authority, TakeID(st), gas, limit, msg.instantiate.body))
    ensures Sound(authority, st, gas, limit, RunMsg(authority, st, gas, limit, msg))
  {
    hide Extends, RunScript, TakeID, ReadParams, NextID;
    var inst := msg.instantiate;
    var r := RunScript(authority, TakeID(st), gas, limit, inst.body);
    if r.outcome.Done? {
      var f := Finish(r, NextID(st.kv), msg.sender, msg.codeID, inst);
      if f.outcome.Done? {
        Registers(authority, st, TakeID(st), r.state, f.state, f.state.registered[|f.state.registered| - 1]);
      }
    }
  }

  lemma {:induction false} MsgsSound(authority: Bytes, st: State, gas: nat, limit: nat, msgs: seq<Msg>)
    ensures Sound(authority, st, gas, limit, RunMsgs(authority, st, gas, limit, msgs))
    decreases |msgs|
  {
    hide Progress;
    if msgs == [] {
      ProgressWith(authority, st, st);
    } else {
      MsgSound(authority, st, gas, limit, msgs[0]);
      var r := RunMsg(authority, st, gas, limit, msgs[0]);
      if r.outcome.Done? {
        MsgsSound(authority, r.state, r.gas, limit, msgs[1..]);
        var q := RunMsgs(authority, r.state, r.gas, limit, msgs[1..]);
        if q.outcome.Done? {
          ExtendsTrans(authority, st, r.state, q.state);
        }
      }
    }
  }

  // ---------- What the two messages achieve ----------

  /** Parameters change exactly when the authority sends valid ones; otherwise nothing changes. */
  lemma UpdateParamsExact(authority: Bytes, st: State, gas: nat, limit: nat, sender: Bytes, params: Storable)
    ensures var r := RunMsg(authority, st, gas, limit, UpdateParams(sender, params));
            && (r.outcome.Done? <==> sender == authority && Valid(params))
            && (r.outcome.Done? ==>
                  && ReadParams(r.state.kv) == Ok(params) && NextID(r.state.kv) == NextID(st.kv)
                  && Signer(r.state.kv) == Signer(st.kv) && r.state.accounts == st.accounts && r.state.world == st.world
                  && r.state.registered == st.registered)
            && (!r.outcome.Done? ==> r.state == st) && r.gas == gas
  {
    hide ReadParams, NextID, Signer, WithParams;
    ParamsWritten(st.kv, params);
  }

  /** A registration goes through exactly when its code ID is allowed, its sender is an address, the
      contract's own execution completes and what it leaves is a base account that can be its own
      admin; the address then holds an abstract account with the base account's numbers, recorded
      under the ID that was next when the message arrived. */
  lemma RegisterExact(authority: Bytes, st: State, gas: nat, limit: nat, msg: Msg)
    requires msg.RegisterAccount?
    ensures var r := RunMsg(authority, st, gas, limit, msg);
            var inst := msg.instantiate;
            && (r.outcome.Done? <==>
                  && ReadParams(st.kv).Ok? && Allowed(ReadParams(st.kv).value, msg.codeID) && msg.senderValid
                  && RunScript(authority, TakeID(st), gas, limit, inst.body).outcome.Done?
                  && inst.adminOk && inst.account.Some? && inst.account.value.BaseAccount?)
            && (r.outcome.Done? ==>
                  var account := AbstractAccount(inst.account.value.number, inst.account.value.sequence);
                  && inst.address in r.state.accounts && r.state.accounts[inst.address] == account
                  && r.state.registered != []
                  && r.state.registered[|r.state.registered| - 1] ==
                     Registration(NextID(st.kv), msg.codeID, msg.sender, inst.address, account))
  {
    hide ReadParams, NextID, RunScript, TakeID;
  }
}
