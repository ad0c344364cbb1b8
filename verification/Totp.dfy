/** The account contract that asks for a one-time password, good for one tx per time window. */
module Totp {
  import opened Machine

  datatype Config = Config(pubkey: Bytes, otpPubkey: Bytes, durationSecs: U64)

  datatype Error =
    | DivideByZero
    | Underflow
    | NotInitialized
    | SignatureNotFound
    | CredentialMalformed
    | VerificationFailed
    | InvalidSignature
    | InvalidOTP
    | ReusedOTP

  /** What the cryptographic check of a signature says: None when it cannot be carried out. */
  type Verdict = Option<bool>

  /** A call of the hook: the block's time, the credential as far as it can be decoded, and what the
      two signature checks make of it; the second is over the window's count. */
  datatype Credential = Absent | Malformed | Credential(txVerdict: Verdict, otpVerdict: Verdict)

  datatype Call = Call(seconds: U64, credential: Credential, simulate: bool)

  function CredentialError(call: Call): Option<Error> {
    if call.simulate then None
    else if call.credential.Absent? then Some(SignatureNotFound)
    else if call.credential.Malformed? then Some(CredentialMalformed)
    else if call.credential.txVerdict.None? then Some(VerificationFailed)
    else if !call.credential.txVerdict.value then Some(InvalidSignature)
    else if call.credential.otpVerdict.None? then Some(VerificationFailed)
    else if !call.credential.otpVerdict.value then Some(InvalidOTP)
    else None
  }

  /** The count of an accepted call, or its error. */
  function Judge(duration: U64, prev: U64, call: Call): Result<U64, Error>
    requires duration > 0
  {
    var count := call.seconds / duration;
    if CredentialError(call).Some? then Err(CredentialError(call).value)
    else if prev >= count then Err(ReusedOTP)
    else Ok(count)
  }

  class Account {
    var config: Option<Config>
    var prevCount: Option<U64>

    /** Set up, with a window length that can be divided by. */
    ghost predicate Ready()
      reads this
    {
      config.Some? && config.value.durationSecs > 0 && prevCount.Some?
    }

    constructor ()
      ensures config.None? && prevCount.None?
    {
      config, prevCount := None, None;
    }

    /** Overflow checks are on: the subtraction panics in the very first window. */
    method Init(seconds: U64, cfg: Config) returns (err: Option<Error>)
      modifies this
      ensures err.None? <==> cfg.durationSecs > 0 && seconds / cfg.durationSecs >= 1
      ensures err == Some(DivideByZero) <==> cfg.durationSecs == 0
      ensures err.None? ==>
                Ready() && config == Some(cfg) && prevCount == Some(seconds / cfg.durationSecs - 1)
      ensures err.Some? ==> unchanged(this)
    {
      if cfg.durationSecs == 0 {
        return Some(DivideByZero);
      }
      var count := seconds / cfg.durationSecs;
      if count < 1 {
        return Some(Underflow);
      }
      config := Some(cfg);
      prevCount := Some(count - 1);
      return None;
    }

    method BeforeTx(call: Call) returns (r: Result<U64, Error>)
      requires config.Some? ==> Ready()
      modifies this`prevCount
      ensures old(config).None? ==> r == Err(NotInitialized) && prevCount == old(prevCount)
      ensures old(config).Some? ==>
                && r == Judge(config.value.durationSecs, old(prevCount).value, call)
                && prevCount == Some(if r.Ok? then r.value else old(prevCount).value)
      ensures old(config).Some? ==>
                var count := call.seconds / config.value.durationSecs;
                && (r.Ok? <==>
                      && (call.simulate || call.credential == Credential(Some(true), Some(true)))
                      && old(prevCount).value < count)
                && (r.Ok? ==> r.value == count)
                && (r == Err(ReusedOTP) <==>
                      && (call.simulate || call.credential == Credential(Some(true), Some(true)))
                      && old(prevCount).value >= count)
      ensures old(config).Some? && !call.simulate ==>
                && (call.credential.Absent? ==> r == Err(SignatureNotFound))
                && (call.credential.Malformed? ==> r == Err(CredentialMalformed))
                && (call.credential.Credential? ==>
                      var tx, otp := call.credential.txVerdict, call.credential.otpVerdict;
                      && (tx.None? || (tx == Some(true) && otp.None?) ==> r == Err(VerificationFailed))
                      && (tx == Some(false) ==> r == Err(InvalidSignature))
                      && (tx == Some(true) && otp == Some(false) ==> r == Err(InvalidOTP)))
    {
      if config.None? {
        return Err(NotInitialized);
      }
      var count := call.seconds / config.value.durationSecs;
      if !call.simulate {
        match call.credential {
          case Absent => return Err(SignatureNotFound);
          case Malformed => return Err(CredentialMalformed);
          case Credential(txVerdict, otpVerdict) =>
            if txVerdict.None? {
              return Err(VerificationFailed);
            }
            if !txVerdict.value {
              return Err(InvalidSignature);
            }
            if otpVerdict.None? {
              return Err(VerificationFailed);
            }
            if !otpVerdict.value {
              return Err(InvalidOTP);
            }
        }
      }
      if prevCount.value >= count {
        return Err(ReusedOTP);
      }
      prevCount := Some(count);
      return Ok(count);
    }
  }

  // ---------- Runs of calls ----------

  /** The counts of the calls that are accepted, in order, from a stored count of `prev`. */
  function Accepted(duration: U64, prev: U64, calls: seq<Call>): seq<U64>
    requires duration > 0
    decreases |calls|
  {
    if calls == [] then []
    else
      var r := Judge(duration, prev, calls[0]);
      if r.Ok? then [r.value] + Accepted(duration, r.value, calls[1..])
      else Accepted(duration, prev, calls[1..])
  }

  /** Both signatures were good, or the call was a simulation, which skips them. */
  predicate Genuine(call: Call) {
    call.simulate || call.credential == Credential(Some(true), Some(true))
  }

  /** Some call of the window `count` was genuine. */
  ghost predicate Backed(duration: U64, calls: seq<Call>, count: U64)
    requires duration > 0
  {
    exists j :: 0 <= j < |calls| && Genuine(calls[j]) && calls[j].seconds / duration == count
  }

  /** Every accepted count comes from a call whose two verdicts were both good, or from a simulated one. */
  lemma {:induction false} AcceptedGenuine(duration: U64, prev: U64, calls: seq<Call>)
    requires duration > 0
    ensures forall k :: 0 <= k < |Accepted(duration, prev, calls)| ==>
              Backed(duration, calls, Accepted(duration, prev, calls)[k])
    decreases |calls|
  {
    if calls == [] {
    } else {
      var r := Judge(duration, prev, calls[0]);
      var prev' := if r.Ok? then r.value else prev;
      AcceptedGenuine(duration, prev', calls[1..]);
      forall count: U64 | Backed(duration, calls[1..], count) ensures Backed(duration, calls, count) {
        var j :| 0 <= j < |calls[1..]| && Genuine(calls[1..][j]) && calls[1..][j].seconds / duration == count;
        assert calls[j + 1] == calls[1..][j];
      }
      if r.Ok? {
        assert Genuine(calls[0]) && calls[0].seconds / duration == r.value;
      }
    }
  }

  /** The stored count after a run. */
  function LastCount(prev: U64, counts: seq<U64>): U64 {
    if counts == [] then prev else counts[|counts| - 1]
  }

  /** One more call is accepted exactly when it is genuine and in a later window than all before it. */
  lemma {:induction false} AcceptedNext(duration: U64, prev: U64, calls: seq<Call>, call: Call)
    requires duration > 0
    ensures var before := Accepted(duration, prev, calls);
            Accepted(duration, prev, calls + [call]) ==
            if Genuine(call) && call.seconds / duration > LastCount(prev, before)
            then before + [call.seconds / duration] else before
    decreases |calls|
  {
    if calls == [] {
      assert calls + [call] == [call] && [call][1..] == [];
      assert forall p: U64 :: Accepted(duration, p, []) == [];
    } else {
      assert (calls + [call])[0] == calls[0] && (calls + [call])[1..] == calls[1..] + [call];
      var r := Judge(duration, prev, calls[0]);
      AcceptedNext(duration, if r.Ok? then r.value else prev, calls[1..], call);
    }
  }

  predicate Increases(counts: seq<U64>, low: int) {
    && (forall k :: 0 <= k < |counts| ==> counts[k] > low)
    && (forall j, k :: 0 <= j < k < |counts| ==> counts[j] < counts[k])
  }

  lemma IncreasesCons(count: U64, rest: seq<U64>, low: int)
    requires count > low && Increases(rest, count)
    ensures Increases([count] + rest, low)
  {
    var all := [count] + rest;
    forall j, k | 0 <= j < k < |all| ensures all[j] < all[k] {
      assert all[k] == rest[k - 1];
    }
  }

  /** The accepted counts strictly increase, whatever the order of the block times: no window is
      accepted twice. */
  lemma {:induction false} AcceptedIncrease(duration: U64, prev: U64, calls: seq<Call>)
    requires duration > 0
    ensures Increases(Accepted(duration, prev, calls), prev)
    decreases |calls|
  {
    hide Increases;
    if calls == [] {
      NothingIncreases(prev);
    } else {
      var r := Judge(duration, prev, calls[0]);
      AcceptedIncrease(duration, if r.Ok? then r.value else prev, calls[1..]);
      if r.Ok? {
        IncreasesCons(r.value, Accepted(duration, r.value, calls[1..]), prev);
      }
    }
  }

  lemma NothingIncreases(low: int)
    ensures Increases([], low)
  {
  }

  /** Every accepted count is the window of some call. */
  lemma {:induction false} AcceptedBelow(duration: U64, prev: U64, calls: seq<Call>, last: U64)
    requires duration > 0
    requires forall k :: 0 <= k < |calls| ==> calls[k].seconds <= last
    ensures forall k :: 0 <= k < |Accepted(duration, prev, calls)| ==>
              Accepted(duration, prev, calls)[k] <= last / duration
    decreases |calls|
  {
    if calls == [] {
    } else {
      var r := Judge(duration, prev, calls[0]);
      Quotients(calls[0].seconds, last, duration);
      AcceptedBelow(duration, if r.Ok? then r.value else prev, calls[1..], last);
    }
  }

  lemma Quotients(a: nat, b: nat, d: nat)
    requires a <= b && d > 0
    ensures a / d <= b / d
  {
    var x, y := a / d, b / d;
    assert a == d * x + a % d && b == d * y + b % d;
    if x >= y + 1 {
      MulMonotone(y + 1, x, d);
      assert false;
    }
  }

  /** Integers that increase strictly between two bounds are no more than the bounds leave room for. */
  lemma {:induction false} IncreasingBound(counts: seq<U64>, low: int, high: int)
    requires Increases(counts, low)
    requires forall k :: 0 <= k < |counts| ==> counts[k] <= high
    ensures counts != [] ==> |counts| <= high - low
  {
    assert counts != [] ==> low < counts[0] <= high;
    if |counts| <= 1 {
    } else {
      assert Increases(counts[1..], counts[0]);
      IncreasingBound(counts[1..], counts[0], high);
    }
  }

  /** After initialization at `t0`, with no block time above `t1`, the windows between them, both
      included, bound the number of accepted calls. */
  lemma AcceptedBound(duration: U64, t0: U64, t1: U64, calls: seq<Call>)
    requires duration > 0 && t0 / duration >= 1 && t0 <= t1
    requires forall k :: 0 <= k < |calls| ==> calls[k].seconds <= t1
    ensures |Accepted(duration, t0 / duration - 1, calls)| <= t1 / duration - t0 / duration + 1
  {
    var prev, high := t0 / duration - 1, t1 / duration;
    AcceptedIncrease(duration, prev, calls);
    AcceptedBelow(duration, prev, calls, t1);
    Quotients(t0, t1, duration);
    IncreasingBound(Accepted(duration, prev, calls), prev, high);
  }

  /** The calls at the start of each of `n` windows from `first` on, with good credentials. */
  function OnePerWindow(duration: U64, first: nat, n: nat): seq<Call>
    requires n > 0 ==> (first + n - 1) * duration < TWO_64
    decreases n
  {
    if n == 0 then []
    else
      assert first * duration <= (first + n - 1) * duration by {
        MulMonotone(first, first + n - 1, duration);
      }
      [Call(first * duration, Credential(Some(true), Some(true)), false)] + OnePerWindow(duration, first + 1, n - 1)
  }

  lemma MulMonotone(a: nat, b: nat, c: nat)
    requires a <= b
    ensures a * c <= b * c
  {
  }

  lemma WindowStart(first: nat, duration: nat)
    requires duration > 0
    ensures first * duration / duration == first
  {
    var product := first * duration;
    var q := product / duration;
    assert product == duration * q + product % duration;
    if q > first {
      MulMonotone(first + 1, q, duration);
      assert false;
    }
    if q < first {
      MulMonotone(q + 1, first, duration);
      assert false;
    }
  }

  lemma {:induction false} OnePerWindowAccepted(duration: U64, first: nat, n: nat, prev: U64)
    requires duration > 0 && prev < first && (n > 0 ==> (first + n - 1) * duration < TWO_64)
    ensures |Accepted(duration, prev, OnePerWindow(duration, first, n))| == n
    decreases n
  {
    if n == 0 {
    } else {
      var calls := OnePerWindow(duration, first, n);
      MulMonotone(first, first + n - 1, duration);
      MulMonotone(1, duration, first);
      WindowStart(first, duration);
      var count: U64 := first;
      var rest := OnePerWindow(duration, first + 1, n - 1);
      assert calls[0] == Call(first * duration, Credential(Some(true), Some(true)), false) && calls[1..] == rest;
      OnePerWindowAccepted(duration, first + 1, n - 1, count);
      AcceptFirst(duration, prev, calls, count);
    }
  }

  lemma AcceptFirst(duration: U64, prev: U64, calls: seq<Call>, count: U64)
    requires duration > 0 && calls != [] && prev < count && calls[0].seconds / duration == count
    requires CredentialError(calls[0]).None?
    ensures Accepted(duration, prev, calls) == [count] + Accepted(duration, count, calls[1..])
  {
  }

  /** Calls within the time limit, of which as many are accepted as the bound allows. */
  predicate Attains(duration: U64, t0: U64, t1: U64, calls: seq<Call>)
    requires duration > 0 && t0 / duration >= 1
  {
    && |Accepted(duration, t0 / duration - 1, calls)| == t1 / duration - t0 / duration + 1
    && forall k :: 0 <= k < |calls| ==> calls[k].seconds <= t1
  }

  /** The bound is attained: one call per window is always accepted. */
  lemma BoundAttained(duration: U64, t0: U64, t1: U64)
    requires duration > 0 && t0 / duration >= 1 && t0 <= t1
    ensures exists calls: seq<Call> :: Attains(duration, t0, t1, calls)
  {
    Quotients(t0, t1, duration);
    var x, y := t0 / duration, t1 / duration;
    var n := y - x + 1;
    assert t1 == duration * y + t1 % duration;
    assert y * duration <= t1;
    assert x + n - 1 == y;
    OnePerWindowAccepted(duration, x, n, x - 1);
    OnePerWindowTimes(duration, x, n, t1);
    assert Attains(duration, t0, t1, OnePerWindow(duration, x, n));
  }

  lemma {:induction false} OnePerWindowTimes(duration: U64, first: nat, n: nat, last: U64)
    requires n > 0 ==> (first + n - 1) * duration <= last
    ensures forall k :: 0 <= k < |OnePerWindow(duration, first, n)| ==> OnePerWindow(duration, first, n)[k].seconds <= last
    decreases n
  {
    if n == 0 {
    } else {
      MulMonotone(first, first + n - 1, duration);
      OnePerWindowTimes(duration, first + 1, n - 1, last);
    }
  }
}
