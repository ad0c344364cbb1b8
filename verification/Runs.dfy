/** Whole runs from genesis. */
module Runs {
  import opened Machine
  import opened ParamsRules
  import opened Store
  import opened Chain
  import opened Histories
  import opened Hooks
  import opened Theorems

  /** The state of a chain before this module's genesis: the module's store is empty. */
  ghost predicate Fresh(st: State) {
    st.kv == map[] && st.registered == [] && st.accepted == []
  }

  lemma GenesisState(st: State, gs: Genesis)
    requires Fresh(st)
    ensures InitGenesis(st, gs).Some? <==> Valid(gs.params)
    ensures InitGenesis(st, gs).Some? ==>
              var g := InitGenesis(st, gs).value;
              && ReadParams(g.kv) == Ok(gs.params) && NextID(g.kv) == gs.nextAccountID && Signer(g.kv) == None
              && ParamsCurrent(g) && g.registered == [] && g.accepted == [Change(None, gs.params)]
              && g.accounts == st.accounts && g.world == st.world
  {
    ParamsWritten(st.kv, gs.params);
    NextIDWritten(WithParams(st.kv, gs.params), gs.nextAccountID);
    hide ReadParams, NextID, WithParams, WithNextID;
  }

  /** Genesis from an exported state reproduces the parameters and the next ID, over any state. */
  lemma ExportImport(st: State, target: State)
    requires ParamsCurrent(st)
    ensures ExportGenesis(st).Ok?
    ensures var r := InitGenesis(target, ExportGenesis(st).value);
            && r.Some?
            && ReadParams(r.value.kv) == ReadParams(st.kv) && NextID(r.value.kv) == NextID(st.kv)
  {
    var gs := ExportGenesis(st).value;
    ParamsWritten(target.kv, gs.params);
    NextIDWritten(WithParams(target.kv, gs.params), gs.nextAccountID);
    hide ReadParams, NextID, WithParams, WithNextID;
  }

  // ---------- Runs ----------

  /** The marker that a run leaves, starting without one. */
  function Pending(ds: seq<Delivery>): Option<Address> {
    if ds == [] then None else MarkerAfter(ds[|ds| - 1], Pending(ds[..|ds| - 1]))
  }

  lemma NoneOutstanding()
    ensures Pending([]) == None
  {
  }

  lemma PendingNext(ds: seq<Delivery>, d: Delivery)
    ensures Pending(ds + [d]) == MarkerAfter(d, Pending(ds))
  {
    hide MarkerAfter;
    assert (ds + [d])[..|ds|] == ds;
  }

  lemma {:induction false} RunSound(authority: Bytes, st: State, events: seq<Event>)
    requires Signer(st.kv) == None
    ensures var ds := Deliveries(authority, st, events);
            Progress(authority, st, StateAfter(st, ds)) && Signer(StateAfter(st, ds).kv) == Pending(ds)
    decreases |events|
  {
    hide Progress, Deliver, Signer, Pending, MarkerAfter, ParamsCurrent;
    if events == [] {
      ProgressWith(authority, st, st);
      NoneOutstanding();
    } else {
      var front := events[..|events| - 1];
      var ds := Deliveries(authority, st, front);
      var last := Deliver(authority, StateAfter(st, ds), events[|events| - 1]);
      RunSound(authority, st, front);
      DeliverSound(authority, StateAfter(st, ds), events[|events| - 1]);
      ProgressTrans(authority, st, StateAfter(st, ds), last.state);
      PendingNext(ds, last);
    }
  }

  /** The deliveries of a run's prefix are the prefix of its deliveries. */
  lemma {:induction false} DeliveriesPrefix(authority: Bytes, st: State, events: seq<Event>, k: nat)
    requires k < |events|
    ensures var ds := Deliveries(authority, st, events);
            && Deliveries(authority, st, events[..k]) == ds[..k]
            && ds[k] == Deliver(authority, StateAfter(st, ds[..k]), events[k])
    decreases |events|
  {
    hide Deliver;
    var front := events[..|events| - 1];
    var ds := Deliveries(authority, st, front);
    if k == |events| - 1 {
      assert Deliveries(authority, st, events)[..k] == ds;
    } else {
      DeliveriesPrefix(authority, st, front, k);
      assert front[..k] == events[..k];
      assert Deliveries(authority, st, events)[..k] == ds[..k];
    }
  }

  // ---------- The marker and the hooks ----------

  /** Delivery `i` passed the ante handler for the abstract account `a`, nothing that passed it since
      was for an abstract account, and no post handler has committed since, its own included. */
  ghost predicate Outstanding(ds: seq<Delivery>, i: nat, a: Slice) {
    && i < |ds| && PassedBy(ds[i], a)
    && (forall j :: i <= j < |ds| ==> !ds[j].committed)
    && (forall j :: i < j < |ds| ==> !(ds[j].antePassed && ds[j].before.Some?))
  }

  /** The marker is set exactly when some such delivery is outstanding, and then it is its signer. */
  lemma {:induction false} PendingMeans(ds: seq<Delivery>, a: Slice)
    ensures Pending(ds) == Some(a) <==> exists i: nat :: Outstanding(ds, i, a)
  {
    if ds == [] {
    } else {
      var front, last := ds[..|ds| - 1], ds[|ds| - 1];
      PendingMeans(front, a);
      if Pending(ds) == Some(a) {
        if last.antePassed && last.before.Some? {
          assert Outstanding(ds, |ds| - 1, a);
        } else {
          var i: nat :| Outstanding(front, i, a);
          assert Outstanding(ds, i, a);
        }
      }
      if i: nat :| Outstanding(ds, i, a) {
        if i < |ds| - 1 {
          assert Outstanding(front, i, a);
        }
      }
    }
  }

  /** Over a run from genesis, the marker in the store is the one that is outstanding, and a post
      hook that is reached calls the tx's own abstract account or else the outstanding one. */
  lemma MarkerRun(authority: Bytes, st: State, gs: Genesis, events: seq<Event>, k: nat)
    requires Fresh(st) && InitGenesis(st, gs).Some? && k < |events|
    ensures var g := InitGenesis(st, gs).value;
            var ds := Deliveries(authority, g, events);
            && Signer(StateAfter(g, ds).kv) == Pending(ds)
            && ds[k].after == if !(ds[k].antePassed && ds[k].msgsPassed) then None
                              else if ds[k].before.Some? then ds[k].before
                              else Pending(ds[..k])
  {
    GenesisState(st, gs);
    var g := InitGenesis(st, gs).value;
    var ds := Deliveries(authority, g, events);
    RunSound(authority, g, events);
    RunSound(authority, g, events[..k]);
    DeliveriesPrefix(authority, g, events, k);
    DeliverSound(authority, StateAfter(g, ds[..k]), events[k]);
    hide InitGenesis, Deliver, IDsAdvance, ReadParams, Deliveries;
  }

  lemma {:induction false} NothingPending(ds: seq<Delivery>)
    requires forall j :: 0 <= j < |ds| && ds[j].antePassed ==> ds[j].committed
    ensures Pending(ds) == None
  {
    if ds == [] {
    } else {
      NothingPending(ds[..|ds| - 1]);
    }
  }

  /** When every tx that passes the ante handler also commits, the hooks are paired: the contract
      called after a tx is the one called before it, and no other tx calls one. */
  lemma HooksPaired(authority: Bytes, st: State, gs: Genesis, events: seq<Event>, k: nat)
    requires Fresh(st) && InitGenesis(st, gs).Some? && k < |events|
    requires var ds := Deliveries(authority, InitGenesis(st, gs).value, events);
             forall j :: 0 <= j < |ds| && ds[j].antePassed ==> ds[j].committed
    ensures var d := Deliveries(authority, InitGenesis(st, gs).value, events)[k];
            d.after == if d.antePassed then d.before else None
  {
    var g := InitGenesis(st, gs).value;
    var ds := Deliveries(authority, g, events);
    MarkerRun(authority, st, gs, events, k);
    NothingPending(ds[..k]);
    GenesisState(st, gs);
    RunSound(authority, g, events[..k]);
    DeliveriesPrefix(authority, g, events, k);
    DeliverSound(authority, StateAfter(g, ds[..k]), events[k]);
    hide InitGenesis, Deliver, IDsAdvance, ReadParams, Deliveries;
  }

  /** Without that proviso they are not: a tx that is not an abstract account's, and whose messages go
      through, has some contract called after it exactly when a marker is outstanding. */
  lemma StrayHook(authority: Bytes, st: State, gs: Genesis, events: seq<Event>, k: nat)
    requires Fresh(st) && InitGenesis(st, gs).Some? && k < |events|
    requires var d := Deliveries(authority, InitGenesis(st, gs).value, events)[k];
             d.antePassed && d.msgsPassed && d.before == None
    ensures var ds := Deliveries(authority, InitGenesis(st, gs).value, events);
            ds[k].after.Some? <==> exists i: nat, a: Slice :: Outstanding(ds[..k], i, a)
  {
    var ds := Deliveries(authority, InitGenesis(st, gs).value, events);
    MarkerRun(authority, st, gs, events, k);
    hide InitGenesis, Deliver, Deliveries;
    if Pending(ds[..k]).Some? {
      PendingMeans(ds[..k], Pending(ds[..k]).value);
    }
    if i: nat, a: Slice :| Outstanding(ds[..k], i, a) {
      PendingMeans(ds[..k], a);
    }
  }

  /** A tx of the abstract account `a` that passes the ante handler and fails in its message. */
  function FailingTx(a: Slice): Tx {
    Tx(true, true, [a], [Signature(0, true)], true, true, true, Rest(true, 0, map[]),
       Return(true), [Other(Return(false))], 0, Return(true), Rest(true, 0, map[]))
  }

  /** A tx of the account `b` without messages. */
  function PlainTx(b: Slice): Tx {
    Tx(true, true, [b], [Signature(0, true)], true, true, true, Rest(true, 0, map[]),
       Return(true), [], 0, Return(true), Rest(true, 0, map[]))
  }

  /** Two txs that show it: the first, an abstract account's, fails in its messages; the second is not
      an abstract account's, and its post handler calls the first one's contract. */
  lemma StrayHookExample(authority: Bytes, st: State, gs: Genesis, a: Slice, b: Slice)
    requires Fresh(st) && InitGenesis(st, gs).Some?
    requires a in st.accounts && st.accounts[a] == AbstractAccount(7, 0)
    requires b in st.accounts && st.accounts[b] == BaseAccount(8, 0)
    ensures var ds := Deliveries(authority, InitGenesis(st, gs).value, [Transaction(FailingTx(a)), Transaction(PlainTx(b))]);
            && ds[0].antePassed && ds[0].before == Some(a) && !ds[0].msgsPassed
            && ds[1].before == None && ds[1].after == Some(a) && ds[1].committed
  {
    GenesisState(st, gs);
    var g := InitGenesis(st, gs).value;
    assert g.accounts == st.accounts;
    hide InitGenesis, DeliverTx, Deliveries, ReadParams, FailingTx, PlainTx;
    FirstFails(authority, g, a);
    SecondCalls(authority, DeliverTx(authority, g, FailingTx(a)).state, a, b);
    TwoDeliveries(authority, g, FailingTx(a), PlainTx(b));
  }

  lemma TwoDeliveries(authority: Bytes, st: State, first: Tx, second: Tx)
    ensures var d0 := DeliverTx(authority, st, first);
            Deliveries(authority, st, [Transaction(first), Transaction(second)]) ==
            [d0, DeliverTx(authority, d0.state, second)]
  {
    hide DeliverTx;
    var events := [Transaction(first), Transaction(second)];
    assert events[..1] == [Transaction(first)];
    assert events[..1][..0] == [];
    assert Deliveries(authority, st, []) == [];
    assert Deliveries(authority, st, events[..1]) == [] + [DeliverTx(authority, st, first)];
  }

  lemma FirstFails(authority: Bytes, st: State, a: Slice)
    requires ParamsCurrent(st) && a in st.accounts && st.accounts[a] == AbstractAccount(7, 0)
    ensures var d := DeliverTx(authority, st, FailingTx(a));
            && d.antePassed && d.before == Some(a) && !d.msgsPassed
            && Signer(d.state.kv) == Some(a) && d.state.accounts == st.accounts
            && ReadParams(d.state.kv) == ReadParams(st.kv)
  {
    SignerWritten(st.kv, a);
    hide ReadParams;
    var tx := FailingTx(a);
    assert st.accounts + map[] == st.accounts;
    var ante := AnteHandle(authority, st, 0, tx);
    assert ante.outcome.Done? && ante.called == Some(a);
    assert RunMsg(authority, ante.state, 0, 0, tx.msgs[0]).outcome.Failed?;
  }

  lemma SecondCalls(authority: Bytes, st: State, a: Slice, b: Slice)
    requires ReadParams(st.kv).Ok? && Signer(st.kv) == Some(a)
    requires b in st.accounts && st.accounts[b] == BaseAccount(8, 0)
    ensures var d := DeliverTx(authority, st, PlainTx(b)); d.before == None && d.after == Some(a) && d.committed
  {
    SignerWritten(st.kv, a);
    hide ReadParams;
    var tx := PlainTx(b);
    var ante := AnteHandle(authority, st, 0, tx);
    assert ante.outcome.Done? && ante.called == None && ante.state.kv == st.kv;
    assert RunMsgs(authority, ante.state, 0, 0, tx.msgs) == Run(ante.state, 0, Done);
  }

  // ---------- Parameters ----------

  /** In every reachable state the stored parameters decode, validate, and are the ones accepted last;
      what was accepted first came from genesis, and everything after it from the authority. */
  lemma ParamsRun(authority: Bytes, st: State, gs: Genesis, events: seq<Event>)
    requires Fresh(st) && InitGenesis(st, gs).Some?
    ensures var g := InitGenesis(st, gs).value;
            var end := StateAfter(g, Deliveries(authority, g, events));
            && ParamsCurrent(end)
            && end.accepted[0] == Change(None, gs.params)
            && forall k :: 0 < k < |end.accepted| ==> end.accepted[k].sender == Some(authority)
  {
    GenesisState(st, gs);
    RunSound(authority, InitGenesis(st, gs).value, events);
    hide InitGenesis, IDsAdvance, ReadParams;
  }

  /** So the state that any run reaches can be exported, and genesis from the export reproduces it. */
  lemma ExportRun(authority: Bytes, st: State, gs: Genesis, events: seq<Event>, target: State)
    requires Fresh(st) && InitGenesis(st, gs).Some?
    ensures var g := InitGenesis(st, gs).value;
            var end := StateAfter(g, Deliveries(authority, g, events));
            && ParamsCurrent(end) && ExportGenesis(end).Ok?
            && ExportGenesis(end).value.params == end.accepted[|end.accepted| - 1].params
            && var r := InitGenesis(target, ExportGenesis(end).value);
            && r.Some?
            && ReadParams(r.value.kv) == ReadParams(end.kv) && NextID(r.value.kv) == NextID(end.kv)
  {
    ParamsRun(authority, st, gs, events);
    var g := InitGenesis(st, gs).value;
    ExportImport(StateAfter(g, Deliveries(authority, g, events)), target);
    hide ReadParams, NextID, Deliveries, InitGenesis;
  }

  // ---------- Account IDs ----------

  /** Over any run, with registrations nested and rolled back at will, the surviving registrations
      carry exactly the IDs between the genesis counter and the current one, each once. */
  lemma RegistrationIDs(authority: Bytes, st: State, gs: Genesis, events: seq<Event>)
    requires Fresh(st) && InitGenesis(st, gs).Some?
    ensures var g := InitGenesis(st, gs).value;
            var end := StateAfter(g, Deliveries(authority, g, events));
            && NextID(end.kv) == WrapWord(gs.nextAccountID + |end.registered|)
            && multiset(IDs(end.registered)) == multiset(Range(gs.nextAccountID, |end.registered|))
  {
    hide InitGenesis, Deliveries, IDs, Range, NextID, ParamsCurrent, WrapWord, IDsAdvance, StateAfter;
    GenesisCounts(st, gs);
    var g := InitGenesis(st, gs).value;
    RunSound(authority, g, events);
    FromEmpty(g, StateAfter(g, Deliveries(authority, g, events)));
  }

  lemma GenesisCounts(st: State, gs: Genesis)
    requires Fresh(st) && InitGenesis(st, gs).Some?
    ensures var g := InitGenesis(st, gs).value;
            NextID(g.kv) == gs.nextAccountID && g.registered == [] && Signer(g.kv) == None
  {
    GenesisState(st, gs);
  }

  lemma FromEmpty(g: State, end: State)
    requires g.registered == [] && IDsAdvance(g, end)
    ensures NextID(end.kv) == WrapWord(NextID(g.kv) + |end.registered|)
    ensures multiset(IDs(end.registered)) == multiset(Range(NextID(g.kv), |end.registered|))
  {
    hide NextID, WrapWord, Range, IDs;
    assert NewRegistrations(g, end) == end.registered;
  }

  /** Short of the counter's wraparound, the registered IDs are the integers from the genesis ID up to
      the next ID. */
  lemma RegistrationInterval(authority: Bytes, st: State, gs: Genesis, events: seq<Event>, id: U64)
    requires Fresh(st) && InitGenesis(st, gs).Some?
    requires var g := InitGenesis(st, gs).value;
             gs.nextAccountID + |StateAfter(g, Deliveries(authority, g, events)).registered| < TWO_64
    ensures var g := InitGenesis(st, gs).value;
            var end := StateAfter(g, Deliveries(authority, g, events));
            id in IDs(end.registered) <==> gs.nextAccountID <= id < NextID(end.kv)
  {
    hide InitGenesis, Deliveries, IDs, NextID, Range, StateAfter, WrapWord, Fresh;
    RegistrationIDs(authority, st, gs, events);
    var g := InitGenesis(st, gs).value;
    var end := StateAfter(g, Deliveries(authority, g, events));
    Interval(IDs(end.registered), gs.nextAccountID, |end.registered|, id);
  }

  lemma Interval(ids: seq<U64>, start: U64, n: nat, id: U64)
    requires start + n < TWO_64 && multiset(ids) == multiset(Range(start, n))
    ensures id in ids <==> start <= id < WrapWord(start + n)
  {
    hide Range;
    assert id in ids <==> id in multiset(ids);
    assert id in Range(start, n) <==> id in multiset(Range(start, n));
    InRange(start, n, id);
  }

  lemma InRange(start: U64, n: nat, id: U64)
    requires start + n < TWO_64
    ensures id in Range(start, n) <==> start <= id < start + n
  {
    hide Range;
    if id in Range(start, n) {
      var k :| 0 <= k < n && Range(start, n)[k] == id;
      RangeAt(start, n, k);
    }
    if start <= id < start + n {
      RangeAt(start, n, id - start);
    }
  }

  // ---------- Labels ----------

  predicate Distinct<T(==)>(s: seq<T>) {
    forall j, k :: 0 <= j < k < |s| ==> s[j] != s[k]
  }

  lemma {:induction false} DistinctByCount<T>(s: seq<T>)
    ensures Distinct(s) <==> forall x :: x in s ==> multiset(s)[x] == 1
  {
    if s == [] {
    } else {
      var head, tail := s[0], s[1..];
      assert s == [head] + tail;
      DistinctByCount(tail);
      if Distinct(s) {
        assert Distinct(tail);
        assert head !in tail;
        forall x | x in s ensures multiset(s)[x] == 1 {
          if x != head {
            assert x in tail;
          }
        }
      }
      if forall x :: x in s ==> multiset(s)[x] == 1 {
        assert head !in tail by {
          assert multiset(s)[head] == 1 + multiset(tail)[head];
        }
        forall x | x in tail ensures multiset(tail)[x] == 1 {
          assert multiset(s)[x] == 1;
        }
        assert Distinct(tail);
      }
    }
  }

  lemma PermutationDistinct<T>(s: seq<T>, t: seq<T>)
    requires multiset(s) == multiset(t)
    ensures Distinct(s) <==> Distinct(t)
  {
    DistinctByCount(s);
    DistinctByCount(t);
    assert forall x :: x in s <==> x in multiset(s);
    assert forall x :: x in t <==> x in multiset(t);
  }

  lemma RangeDistinct(start: U64, n: nat)
    ensures Distinct(Range(start, n)) <==> n <= TWO_64
  {
    hide Range;
    if n <= TWO_64 {
      forall j, k | 0 <= j < k < n ensures Range(start, n)[j] != Range(start, n)[k] {
        RangeAt(start, n, j);
        RangeAt(start, n, k);
      }
    } else {
      RangeAt(start, n, 0);
      RangeAt(start, n, TWO_64);
    }
  }

  /** The digits of `fmt.Sprintf("%d", n)`. */
  function Decimal(n: nat): (s: string)
    ensures s != []
  {
    var digit := "0123456789"[n % 10];
    if n < 10 then [digit] else Decimal(n / 10) + [digit]
  }

  function Label(id: U64): string {
    "abstractaccount/" + Decimal(id)
  }

  lemma {:induction false} DecimalInjective(m: nat, n: nat)
    requires Decimal(m) == Decimal(n)
    ensures m == n
  {
    var s, t := Decimal(m), Decimal(n);
    assert s[|s| - 1] == "0123456789"[m % 10] && t[|t| - 1] == "0123456789"[n % 10];
    assert m % 10 == n % 10;
    if m < 10 || n < 10 {
    } else {
      assert s[..|s| - 1] == Decimal(m / 10) && t[..|t| - 1] == Decimal(n / 10);
      DecimalInjective(m / 10, n / 10);
    }
  }

  lemma LabelInjective(a: U64, b: U64)
    requires Label(a) == Label(b)
    ensures a == b
  {
    assert Label(a)[16..] == Decimal(a) && Label(b)[16..] == Decimal(b);
    DecimalInjective(a, b);
  }

  function Labels(regs: seq<Registration>): seq<string> {
    seq(|regs|, k requires 0 <= k < |regs| => Label(regs[k].id))
  }

  /** The labels of the surviving registrations are pairwise distinct exactly as long as there are no
      more than 2^64 of them. */
  lemma LabelsDistinct(authority: Bytes, st: State, gs: Genesis, events: seq<Event>)
    requires Fresh(st) && InitGenesis(st, gs).Some?
    ensures var g := InitGenesis(st, gs).value;
            var end := StateAfter(g, Deliveries(authority, g, events));
            Distinct(Labels(end.registered)) <==> |end.registered| <= TWO_64
  {
    hide InitGenesis, Deliveries, Range, NextID;
    var g := InitGenesis(st, gs).value;
    var end := StateAfter(g, Deliveries(authority, g, events));
    RegistrationIDs(authority, st, gs, events);
    PermutationDistinct(IDs(end.registered), Range(gs.nextAccountID, |end.registered|));
    RangeDistinct(gs.nextAccountID, |end.registered|);
    LabelsAsIDs(end.registered);
  }

  lemma LabelsAsIDs(regs: seq<Registration>)
    ensures Distinct(Labels(regs)) <==> Distinct(IDs(regs))
  {
    hide Label;
    if Distinct(IDs(regs)) {
      forall j, k | 0 <= j < k < |regs| ensures Labels(regs)[j] != Labels(regs)[k] {
        assert IDs(regs)[j] != IDs(regs)[k];
        if Label(regs[j].id) == Label(regs[k].id) {
          LabelInjective(regs[j].id, regs[k].id);
        }
      }
    }
    if Distinct(Labels(regs)) {
      forall j, k | 0 <= j < k < |regs| ensures IDs(regs)[j] != IDs(regs)[k] {
        assert Labels(regs)[j] != Labels(regs)[k];
      }
    }
  }
}
