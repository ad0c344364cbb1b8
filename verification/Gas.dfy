/** Who pays for what: contract calls from the hooks run on meters of their own, and a tx's meter holds
    what its messages and the other handlers spent. */
module Gas {
  import opened Machine
  import opened ParamsRules
  import opened Store
  import opened Chain
  import opened Hooks
  import opened Theorems

  // ---------- Executions depend on the gas that is left ----------

  /** Two runs from meters that stood at `g` and `h` end alike and spend the same. */
  ghost predicate Alike(r: Run, g: nat, s: Run, h: nat) {
    s.state == r.state && s.outcome == r.outcome && s.gas - h == r.gas - g
  }

  /** With as much gas left as before an execution goes the same way, and with more of it as well,
      unless it ran out. */
  lemma {:induction false} ScriptShift(authority: Bytes, st: State, g: nat, limit: nat, h: nat, limit': nat, script: Script)
    requires limit - g <= limit' - h
    requires limit - g == limit' - h || !RunScript(authority, st, g, limit, script).outcome.OutOfGas?
    ensures Alike(RunScript(authority, st, g, limit, script), g, RunScript(authority, st, h, limit', script), h)
    decreases script
  {
    match script
    case Return(ok) =>
    case Spend(amount, next) =>
      if g + amount <= limit {
        ScriptShift(authority, st, g + amount, limit, h + amount, limit', next);
      }
    case Write(key, value, next) =>
      ScriptShift(authority, st.(world := st.world[key := value]), g, limit, h, limit', next);
    case Submit(msg, caught, next) =>
      MsgShift(authority, st, g, limit, h, limit', msg);
      var r, s := RunMsg(authority, st, g, limit, msg), RunMsg(authority, st, h, limit', msg);
      if r.outcome.Done? {
        ScriptShift(authority, r.state, r.gas, limit, s.gas, limit', next);
      } else if r.outcome.Failed? && caught {
        ScriptShift(authority, st, r.gas, limit, s.gas, limit', next);
      }
  }

  lemma {:induction false} MsgShift(authority: Bytes, st: State, g: nat, limit: nat, h: nat, limit': nat, msg: Msg)
    requires limit - g <= limit' - h
    requires limit - g == limit' - h || !RunMsg(authority, st, g, limit, msg).outcome.OutOfGas?
    ensures Alike(RunMsg(authority, st, g, limit, msg), g, RunMsg(authority, st, h, limit', msg), h)
    decreases msg
  {
    match msg
    case UpdateParams(sender, params) =>
      hide Verdict, WithParams;
    case Other(body) =>
      ScriptShift(authority, st, g, limit, h, limit', body);
    case RegisterAccount(sender, senderValid, codeID, inst) =>
      hide RunScript, ReadParams, TakeID, NextID;
      var r := RunScript(authority, TakeID(st), g, limit, inst.body);
      if limit - g == limit' - h || !r.outcome.OutOfGas? {
        ScriptShift(authority, TakeID(st), g, limit, h, limit', inst.body);
      }
  }

  lemma {:induction false} MsgsShift(authority: Bytes, st: State, g: nat, limit: nat, h: nat, limit': nat, msgs: seq<Msg>)
    requires limit - g == limit' - h
    ensures Alike(RunMsgs(authority, st, g, limit, msgs), g, RunMsgs(authority, st, h, limit', msgs), h)
    decreases |msgs|
  {
    hide RunMsg;
    if msgs == [] {
    } else {
      MsgShift(authority, st, g, limit, h, limit', msgs[0]);
      var r, s := RunMsg(authority, st, g, limit, msgs[0]), RunMsg(authority, st, h, limit', msgs[0]);
      if r.outcome.Done? {
        MsgsShift(authority, r.state, r.gas, limit, s.gas, limit', msgs[1..]);
      }
    }
  }

  // ---------- The hooks' gas stays off the tx's meter ----------

  /** The same tx, its contracts spending more in the hooks. */
  function Costlier(tx: Tx, before: nat, after: nat): Tx {
    tx.(beforeTx := Spend(before, tx.beforeTx), afterTx := Spend(after, tx.afterTx))
  }

  lemma SudoGasIsOwn(authority: Bytes, st: State, meter: nat, script: Script, more: nat, maxGas: nat)
    requires !SudoWithGasLimit(authority, st, meter, Spend(more, script), maxGas).outcome.OutOfGas?
    ensures var r := SudoWithGasLimit(authority, st, meter, Spend(more, script), maxGas);
            var s := SudoWithGasLimit(authority, st, meter, script, maxGas);
            r == s.(gas := s.gas + more)
  {
    ScriptShift(authority, st, more, maxGas, 0, maxGas, script);
  }

  lemma AnteGasIsOwn(authority: Bytes, st: State, meter: nat, tx: Tx, before: nat, after: nat)
    requires !AnteHandle(authority, st, meter, Costlier(tx, before, after)).outcome.OutOfGas?
    ensures var h := AnteHandle(authority, st, meter, tx);
            AnteHandle(authority, st, meter, Costlier(tx, before, after)) ==
            h.(gas := h.gas + if h.called.Some? then before else 0)
  {
    var more := Costlier(tx, before, after);
    assert IsAbstractAccountTx(st, more) == IsAbstractAccountTx(st, tx);
    if Qualifies(st, tx) {
      var marked := Marked(st, tx.signers[0]);
      var params := ReadParams(marked.kv);
      hide ReadParams, SudoWithGasLimit;
      if params.Ok? && !SudoWithGasLimit(authority, marked, meter, more.beforeTx, params.value.maxGasBefore).outcome.OutOfGas? {
        SudoGasIsOwn(authority, marked, meter, tx.beforeTx, before, params.value.maxGasBefore);
      }
    }
  }

  lemma PostGasIsOwn(authority: Bytes, st: State, meter: nat, tx: Tx, before: nat, after: nat)
    requires !PostHandle(authority, st, meter, Costlier(tx, before, after)).outcome.OutOfGas?
    ensures var h := PostHandle(authority, st, meter, tx);
            PostHandle(authority, st, meter, Costlier(tx, before, after)) ==
            h.(gas := h.gas + if h.called.Some? then after else 0)
  {
    var more := Costlier(tx, before, after);
    var cleared := Cleared(st);
    var params := ReadParams(cleared.kv);
    hide ReadParams, SudoWithGasLimit;
    if Signer(st.kv).Some? && params.Ok? {
      SudoGasIsOwn(authority, cleared, meter, tx.afterTx, after, params.value.maxGasAfter);
    }
  }

  /** Neither hook's contract runs out of its allowance. */
  ghost predicate WithinAllowances(authority: Bytes, st: State, tx: Tx) {
    var ante := AnteHandle(authority, st, 0, tx);
    && !ante.outcome.OutOfGas?
    && (ante.outcome.Done? ==>
          var run := RunMsgs(authority, ante.state, ante.meter, tx.gasLimit, tx.msgs);
          run.outcome.Done? ==> !PostHandle(authority, run.state, run.gas, tx).outcome.OutOfGas?)
  }

  /** As long as the hooks' contracts stay within their allowances, what they spend makes no difference
      to anything about the delivery, its meter included. */
  lemma HookGasIsOwn(authority: Bytes, st: State, tx: Tx, before: nat, after: nat)
    requires WithinAllowances(authority, st, Costlier(tx, before, after))
    ensures DeliverTx(authority, st, Costlier(tx, before, after)) == DeliverTx(authority, st, tx)
  {
    hide AnteHandle, PostHandle, RunMsgs;
    AnteGasIsOwn(authority, st, 0, tx, before, after);
    var ante := AnteHandle(authority, st, 0, tx);
    if ante.outcome.Done? {
      var run := RunMsgs(authority, ante.state, ante.meter, tx.gasLimit, tx.msgs);
      if run.outcome.Done? {
        PostGasIsOwn(authority, run.state, run.gas, tx, before, after);
      }
    }
  }

  /** The meter of a delivered tx holds exactly what its messages spend when they are run, from zero, on
      the gas that is left to them, and what the later handlers that were reached charged. */
  lemma MeterHolds(authority: Bytes, st: State, tx: Tx)
    ensures var ante := AnteHandle(authority, st, 0, tx);
            var d := DeliverTx(authority, st, tx);
            if !ante.outcome.Done? then d.meter == if ante.later then tx.anteRest.gas else 0
            else
              && tx.anteRest.gas <= tx.gasLimit
              && var run := RunMsgs(authority, ante.state, 0, tx.gasLimit - tx.anteRest.gas, tx.msgs);
              && (d.msgsPassed <==> run.outcome.Done?)
              && (d.committed ==> d.meter == tx.anteRest.gas + run.gas + tx.postRest.gas)
              && (!d.msgsPassed ==> d.meter == tx.anteRest.gas + run.gas)
              && (d.msgsPassed ==>
                    var post := PostHandle(authority, run.state, tx.anteRest.gas + run.gas, tx);
                    d.meter == tx.anteRest.gas + run.gas + if post.later then tx.postRest.gas else 0)
  {
    hide AnteHandle, PostHandle, RunMsgs;
    AnteMeter(authority, st, tx);
    var ante := AnteHandle(authority, st, 0, tx);
    if ante.outcome.Done? {
      MsgsShift(authority, ante.state, ante.meter, tx.gasLimit, 0, tx.gasLimit - tx.anteRest.gas, tx.msgs);
      var run := RunMsgs(authority, ante.state, ante.meter, tx.gasLimit, tx.msgs);
      PostMeter(authority, run.state, run.gas, tx);
    }
  }

  lemma AnteMeter(authority: Bytes, st: State, tx: Tx)
    ensures var h := AnteHandle(authority, st, 0, tx);
            && h.meter == (if h.later then tx.anteRest.gas else 0)
            && (h.outcome.Done? ==> h.later && tx.anteRest.gas <= tx.gasLimit)
  {
    hide ReadParams, RunScript;
  }

  lemma PostMeter(authority: Bytes, st: State, meter: nat, tx: Tx)
    ensures var h := PostHandle(authority, st, meter, tx);
            && h.meter == meter + (if h.later then tx.postRest.gas else 0)
            && (h.outcome.Done? ==> h.later)
  {
    hide ReadParams, RunScript;
  }
}
