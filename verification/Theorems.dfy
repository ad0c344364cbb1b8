/** What holds of every run that starts at genesis. */
module Theorems {
  import opened Machine
  import opened Store
  import opened Chain
  import opened Histories
  import opened Hooks

  // ---------- Hooks: all or nothing, and bounded ----------

  /** A hook's contract call either leaves the state alone, or applies exactly what the contract did
      when run on it with the given allowance; a completed call stays within the allowance, and one
      that runs out has gone over it. The caller's meter does not move. */
  lemma SudoAllOrNothing(authority: Bytes, st: State, meter: nat, script: Script, maxGas: nat)
    ensures var r := SudoWithGasLimit(authority, st, meter, script, maxGas);
            var inner := RunScript(authority, st, 0, maxGas, script);
            && r.outcome == inner.outcome
            && r.state == (if inner.outcome.Done? then inner.state else st)
            && (r.outcome.Done? ==> Extends(authority, st, r.state))
            && (!r.outcome.OutOfGas? <==> r.gas <= maxGas)
            && r.meter == meter
  {
    ScriptSound(authority, st, 0, maxGas, script);
    hide Extends;
  }

  /** The state that a hook's contract sees. */
  function Marked(st: State, signer: Slice): State {
    st.(kv := WithSigner(st.kv, signer))
  }

  function Cleared(st: State): State {
    st.(kv := WithoutSigner(st.kv))
  }

  /** The two criteria of account abstraction, of a tx that can be read: one signer with one signature,
      and that signer's account is an abstract one. */
  predicate Qualifies(st: State, tx: Tx) {
    && tx.sigVerifiable && tx.signaturesReadable
    && |tx.signers| == 1 && |tx.signatures| == 1
    && tx.signers[0] in st.accounts && st.accounts[tx.signers[0]].AbstractAccount?
  }

  /** What the ante hook needs before it calls the contract. */
  ghost predicate Callable(st: State, tx: Tx)
    requires Qualifies(st, tx)
  {
    && tx.signatures[0].sequence == st.accounts[tx.signers[0]].sequence && tx.signatures[0].single
    && tx.messagesPack && tx.signBytesAvailable && ReadParams(st.kv).Ok?
  }

  /** Whose contract the ante hook calls, and which txs pass it: an abstract account's pass by their
      contract alone, all others by the default signature check alone. */
  lemma AnteExact(authority: Bytes, st: State, meter: nat, tx: Tx)
    ensures var h := AnteHandle(authority, st, meter, tx);
            if !tx.sigVerifiable || !tx.signaturesReadable then
              h.called == None && h.outcome.Failed?
            else if !Qualifies(st, tx) then
              && h.called == None
              && (h.outcome.Done? <==>
                    && (|tx.signers| == 1 == |tx.signatures| ==> tx.signers[0] in st.accounts)
                    && tx.defaultVerdict && tx.anteRest.ok && meter + tx.anteRest.gas <= tx.gasLimit)
            else if !Callable(st, tx) then
              h.called == None && h.outcome.Failed?
            else
              var limit := ReadParams(st.kv).value.maxGasBefore;
              && h.called == Some(tx.signers[0])
              && (h.outcome.Done? <==>
                    && RunScript(authority, Marked(st, tx.signers[0]), 0, limit, tx.beforeTx).outcome.Done?
                    && tx.anteRest.ok && meter + tx.anteRest.gas <= tx.gasLimit)
  {
    if Qualifies(st, tx) {
      SignerWritten(st.kv, tx.signers[0]);
    }
    hide ReadParams, RunScript;
  }

  /** When the ante hook goes wrong before the later handlers, the signer's marker is all that has
      changed, and only for an abstract account; when it succeeds for one, the state is what the contract
      made of the marked one, plus the accounts that later handlers wrote. The call stays within the
      allowance stored when the hook ran, and the tx's meter is charged for the later handlers alone. */
  lemma AnteAllOrNothing(authority: Bytes, st: State, meter: nat, tx: Tx)
    ensures var h := AnteHandle(authority, st, meter, tx);
            && (!h.later ==> h.state == if Qualifies(st, tx) then Marked(st, tx.signers[0]) else st)
            && (h.outcome.Done? <==> h.later && tx.anteRest.ok && h.meter <= tx.gasLimit)
            && h.meter == meter + (if h.later then tx.anteRest.gas else 0)
            && (h.called.None? && h.later ==> h.state == st.(accounts := st.accounts + tx.anteRest.accounts))
            && (h.called.Some? ==>
                  && ReadParams(st.kv).Ok? && Qualifies(st, tx)
                  && (!h.outcome.OutOfGas? <==> h.gas <= ReadParams(st.kv).value.maxGasBefore))
            && (h.called.Some? && h.later ==>
                  var r := RunScript(authority, Marked(st, tx.signers[0]), 0,
                                     ReadParams(st.kv).value.maxGasBefore, tx.beforeTx);
                  && r.outcome.Done?
                  && h.state == r.state.(accounts := r.state.accounts + tx.anteRest.accounts))
  {
    if Qualifies(st, tx) {
      var signer := tx.signers[0];
      SignerWritten(st.kv, signer);
      var params := ReadParams(st.kv);
      if params.Ok? {
        SudoAllOrNothing(authority, Marked(st, signer), meter, tx.beforeTx, params.value.maxGasBefore);
      }
      hide ReadParams, Extends;
    }
  }

  lemma PostAllOrNothing(authority: Bytes, st: State, meter: nat, tx: Tx)
    ensures var h := PostHandle(authority, st, meter, tx);
            && (!h.later ==> h.state == Cleared(st))
            && (h.outcome.Done? <==> h.later && tx.postRest.ok && h.meter <= tx.gasLimit)
            && h.meter == meter + (if h.later then tx.postRest.gas else 0)
            && (h.called.None? && h.later ==> h.state == st.(accounts := st.accounts + tx.postRest.accounts))
            && (h.later <==>
                  Signer(st.kv).None? ||
                  (ReadParams(st.kv).Ok? &&
                   RunScript(authority, Cleared(st), 0, ReadParams(st.kv).value.maxGasAfter, tx.afterTx).outcome.Done?))
            && (Signer(st.kv).Some? && ReadParams(st.kv).Ok? <==> h.called.Some?)
            && (h.called.Some? ==>
                  && h.called == Signer(st.kv)
                  && (!h.outcome.OutOfGas? <==> h.gas <= ReadParams(st.kv).value.maxGasAfter))
            && (h.called.Some? && h.later ==>
                  var r := RunScript(authority, Cleared(st), 0, ReadParams(st.kv).value.maxGasAfter, tx.afterTx);
                  && r.outcome.Done?
                  && h.state == r.state.(accounts := r.state.accounts + tx.postRest.accounts))
  {
    var signer := Signer(st.kv);
    if signer.Some? {
      SignerWritten(st.kv, signer.value);
      var params := ReadParams(st.kv);
      if params.Ok? {
        SudoAllOrNothing(authority, Cleared(st), meter, tx.afterTx, params.value.maxGasAfter);
      }
      hide ReadParams, Extends;
    }
  }

  // ---------- The signer marker ----------

  /** An abstract account's tx that passed the ante handler. */
  predicate PassedBy(d: Delivery, a: Slice) {
    d.antePassed && d.before == Some(a)
  }

  function MarkerAfter(d: Delivery, marker: Option<Address>): Option<Address> {
    if d.committed then None
    else if d.antePassed && d.before.Some? then d.before
    else marker
  }

  lemma AnteMarks(authority: Bytes, st: State, meter: nat, tx: Tx)
    requires AnteHandle(authority, st, meter, tx).outcome.Done?
    ensures var h := AnteHandle(authority, st, meter, tx);
            Progress(authority, st, h.state) && Signer(h.state.kv) == if h.called.Some? then h.called else Signer(st.kv)
  {
    var h := AnteHandle(authority, st, meter, tx);
    if h.called.Some? {
      var signer := h.called.value;
      SignerWritten(st.kv, signer);
      ProgressWith(authority, st, Marked(st, signer));
      var limit := ReadParams(st.kv).value.maxGasBefore;
      ScriptSound(authority, Marked(st, signer), 0, limit, tx.beforeTx);
      var r := RunScript(authority, Marked(st, signer), 0, limit, tx.beforeTx);
      hide ReadParams, Progress, RunScript;
      ProgressTrans(authority, st, Marked(st, signer), r.state);
      AccountsOnly(authority, r.state, tx.anteRest);
      ProgressTrans(authority, st, r.state, h.state);
    } else {
      AccountsOnly(authority, st, tx.anteRest);
    }
  }

  lemma AccountsOnly(authority: Bytes, st: State, rest: Rest)
    ensures Progress(authority, st, st.(accounts := st.accounts + rest.accounts))
  {
    ProgressWith(authority, st, st.(accounts := st.accounts + rest.accounts));
  }

  lemma PostClears(authority: Bytes, st: State, meter: nat, tx: Tx)
    requires PostHandle(authority, st, meter, tx).outcome.Done?
    ensures var h := PostHandle(authority, st, meter, tx); Progress(authority, st, h.state) && Signer(h.state.kv) == None
  {
    var h := PostHandle(authority, st, meter, tx);
    if h.called.Some? {
      SignerWritten(st.kv, h.called.value);
      ProgressWith(authority, st, Cleared(st));
      var limit := ReadParams(st.kv).value.maxGasAfter;
      ScriptSound(authority, Cleared(st), 0, limit, tx.afterTx);
      var r := RunScript(authority, Cleared(st), 0, limit, tx.afterTx);
      hide ReadParams, Progress, RunScript;
      ProgressTrans(authority, st, Cleared(st), r.state);
      AccountsOnly(authority, r.state, tx.postRest);
      ProgressTrans(authority, st, r.state, h.state);
    } else {
      AccountsOnly(authority, st, tx.postRest);
    }
  }

  /** One delivery: progress, the marker, and the contract that the post hook calls. */
  lemma DeliverSound(authority: Bytes, st: State, event: Event)
    ensures var d := Deliver(authority, st, event);
            && Progress(authority, st, d.state)
            && Signer(d.state.kv) == MarkerAfter(d, Signer(st.kv))
            && (d.committed ==> d.antePassed && d.msgsPassed)
            && (ParamsCurrent(st) ==>
                  d.after == if !(d.antePassed && d.msgsPassed) then None
                             else if d.before.Some? then d.before else Signer(st.kv))
  {
    match event
    case Proposal(msgs, gasLimit) =>
      MsgsSound(authority, st, 0, gasLimit, msgs);
      ProgressWith(authority, st, st);
      hide Progress;
    case Transaction(tx) =>
      TxSound(authority, st, tx);
  }

  lemma TxSound(authority: Bytes, st: State, tx: Tx)
    ensures var d := DeliverTx(authority, st, tx);
            && Progress(authority, st, d.state)
            && Signer(d.state.kv) == MarkerAfter(d, Signer(st.kv))
            && (d.committed ==> d.antePassed && d.msgsPassed)
            && (ParamsCurrent(st) ==>
                  d.after == if !(d.antePassed && d.msgsPassed) then None
                             else if d.before.Some? then d.before else Signer(st.kv))
  {
    var ante := AnteHandle(authority, st, 0, tx);
    ProgressWith(authority, st, st);
    if ante.outcome.Done? {
      AnteMarks(authority, st, 0, tx);
      var run := RunMsgs(authority, ante.state, ante.meter, tx.gasLimit, tx.msgs);
      MsgsSound(authority, ante.state, ante.meter, tx.gasLimit, tx.msgs);
      if run.outcome.Done? {
        ProgressTrans(authority, st, ante.state, run.state);
        PostAllOrNothing(authority, run.state, run.gas, tx);
        PostAtMost(authority, run.state, run.gas, tx);
        if PostHandle(authority, run.state, run.gas, tx).outcome.Done? {
          PostClears(authority, run.state, run.gas, tx);
          ProgressTrans(authority, st, run.state, PostHandle(authority, run.state, run.gas, tx).state);
        }
      }
    }
    hide AnteHandle, PostHandle, RunMsgs, IDsAdvance;
  }

  lemma PostAtMost(authority: Bytes, st: State, meter: nat, tx: Tx)
    ensures PostHandle(authority, st, meter, tx).called.Some? ==> PostHandle(authority, st, meter, tx).called == Signer(st.kv)
    ensures ParamsCurrent(st) ==> ReadParams(st.kv).Ok?
  {
    PostAllOrNothing(authority, st, meter, tx);
  }
}
