/** The commit rule at work: what a delivery keeps and what it discards. */
module Commit {
  import opened Machine
  import opened Store
  import opened Chain
  import opened Hooks

  /** The same tx as far as the ante handler sees it. */
  function Otherwise(tx: Tx, msgs: seq<Msg>, afterTx: Script, postRest: Rest): Tx {
    tx.(msgs := msgs, afterTx := afterTx, postRest := postRest)
  }

  lemma SameAnte(authority: Bytes, st: State, meter: nat, tx: Tx, msgs: seq<Msg>, afterTx: Script, postRest: Rest)
    ensures AnteHandle(authority, st, meter, Otherwise(tx, msgs, afterTx, postRest)) ==
            AnteHandle(authority, st, meter, tx)
  {
    hide ReadParams, RunScript;
  }

  /** A tx that does not pass the ante handler changes nothing. One that passes and does not commit leaves
      what any other tx leaves that passes alike and does not commit, a tx whose only message fails at once
      among them: whatever its messages and its post handler did is gone. */
  lemma Discards(authority: Bytes, st: State, tx: Tx, msgs: seq<Msg>, afterTx: Script, postRest: Rest)
    ensures var d := DeliverTx(authority, st, tx);
            var e := DeliverTx(authority, st, Otherwise(tx, msgs, afterTx, postRest));
            && d.antePassed == e.antePassed && d.before == e.before
            && (!d.antePassed ==> d.state == st)
            && (!d.committed && !e.committed ==> d.state == e.state)
  {
    SameAnte(authority, st, 0, tx, msgs, afterTx, postRest);
    hide AnteHandle, PostHandle, RunMsgs;
  }

  /** What is kept is the ante handler's state, or, when the messages and the post handler went through as
      well, theirs, which started from it. */
  lemma Keeps(authority: Bytes, st: State, tx: Tx)
    ensures var d := DeliverTx(authority, st, tx);
            var ante := AnteHandle(authority, st, 0, tx);
            && d.antePassed == ante.outcome.Done?
            && (d.antePassed ==>
                  var run := RunMsgs(authority, ante.state, ante.meter, tx.gasLimit, tx.msgs);
                  && d.msgsPassed == run.outcome.Done?
                  && (!d.committed ==> d.state == ante.state)
                  && (d.msgsPassed ==>
                        var post := PostHandle(authority, run.state, run.gas, tx);
                        d.committed == post.outcome.Done? && (d.committed ==> d.state == post.state)))
  {
    hide AnteHandle, PostHandle, RunMsgs;
  }

  /** A proposal takes effect as a whole or not at all. */
  lemma ProposalAtomic(authority: Bytes, st: State, msgs: seq<Msg>, gasLimit: nat)
    ensures var d := Deliver(authority, st, Proposal(msgs, gasLimit));
            var run := RunMsgs(authority, st, 0, gasLimit, msgs);
            && d.msgsPassed == run.outcome.Done?
            && d.state == (if d.msgsPassed then run.state else st)
            && d.before == d.after == None
  {
    hide RunMsgs;
  }
}
