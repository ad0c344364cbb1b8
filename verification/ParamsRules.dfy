/** Validation of the module parameters, and the code IDs they allow. */
module ParamsRules {
  import opened Machine
  import opened ParamsCodec

  datatype ParamsError = ZeroMaxGas | NonEmptyAllowList | MalformedAllowList

  /** Non-zero, unique and sorted. */
  ghost predicate Ascending(ids: seq<U64>) {
    && (forall k :: 0 <= k < |ids| ==> ids[k] > 0)
    && (forall j, k :: 0 <= j < k < |ids| ==> ids[j] < ids[k])
  }

  ghost predicate Valid(p: Params) {
    && p.maxGasBefore > 0 && p.maxGasAfter > 0
    && (p.allowAllCodeIDs ==> p.allowedCodeIDs == [])
    && Ascending(p.allowedCodeIDs)
  }

  ghost predicate Allowed(p: Params, codeID: U64) {
    p.allowAllCodeIDs || codeID in p.allowedCodeIDs
  }

  /** The first rule that is broken, in the order in which they are tried. */
  ghost function Verdict(p: Params): (err: Option<ParamsError>)
    ensures err.None? <==> Valid(p)
  {
    if p.maxGasBefore == 0 || p.maxGasAfter == 0 then Some(ZeroMaxGas)
    else if p.allowAllCodeIDs && p.allowedCodeIDs != [] then Some(NonEmptyAllowList)
    else if !Ascending(p.allowedCodeIDs) then Some(MalformedAllowList)
    else None
  }

  method Validate(p: Params) returns (err: Option<ParamsError>)
    ensures err == Verdict(p)
  {
    if p.maxGasBefore <= 0 {
      return Some(ZeroMaxGas);
    }
    if p.maxGasAfter <= 0 {
      return Some(ZeroMaxGas);
    }
    if p.allowAllCodeIDs && |p.allowedCodeIDs| != 0 {
      return Some(NonEmptyAllowList);
    }
    var prevCodeID: U64 := 0;
    for k := 0 to |p.allowedCodeIDs|
      invariant Ascending(p.allowedCodeIDs[..k])
      invariant prevCodeID == if k == 0 then 0 else p.allowedCodeIDs[k - 1]
    {
      if prevCodeID >= p.allowedCodeIDs[k] {
        assert k > 0 ==> p.allowedCodeIDs[k - 1] >= p.allowedCodeIDs[k];
        return Some(MalformedAllowList);
      }
      prevCodeID := p.allowedCodeIDs[k];
      assert p.allowedCodeIDs[..k + 1] == p.allowedCodeIDs[..k] + [prevCodeID];
    }
    assert p.allowedCodeIDs[..|p.allowedCodeIDs|] == p.allowedCodeIDs;
    err := None;
  }

  method IsAllowed(p: Params, codeID: U64) returns (allowed: bool)
    ensures allowed <==> Allowed(p, codeID)
  {
    if p.allowAllCodeIDs {
      return true;
    }
    for k := 0 to |p.allowedCodeIDs|
      invariant codeID !in p.allowedCodeIDs[..k]
    {
      if codeID == p.allowedCodeIDs[k] {
        return true;
      }
    }
    return false;
  }

  /** An ascending list is determined by its elements. */
  lemma {:induction false} AscendingUnique(a: seq<U64>, b: seq<U64>)
    requires Ascending(a) && Ascending(b)
    requires forall id: U64 :: id in a <==> id in b
    ensures a == b
  {
    assert a != [] ==> a[0] in b;
    assert b != [] ==> b[0] in a;
    if a == [] {
    } else {
      assert a[0] == b[0];
      var a', b' := a[1..], b[1..];
      assert a == [a[0]] + a' && b == [b[0]] + b';
      forall id: U64 ensures id in a' <==> id in b' {
        assert id in a' <==> id in a && id != a[0];
        assert id in b' <==> id in b && id != b[0];
      }
      AscendingUnique(a', b');
    }
  }

  /** Valid parameters are canonical: what they allow, with their gas limits, determines them, and so
      their encoding. */
  lemma Canonical(p: Params, q: Params)
    requires Valid(p) && Valid(q)
    requires p.maxGasBefore == q.maxGasBefore && p.maxGasAfter == q.maxGasAfter
    requires forall id: U64 :: Allowed(p, id) <==> Allowed(q, id)
    ensures p == q && EncodeParams(p) == EncodeParams(q)
  {
    var none: U64 := 0;
    assert none !in p.allowedCodeIDs && none !in q.allowedCodeIDs;
    assert Allowed(p, none) <==> Allowed(q, none);
    if !p.allowAllCodeIDs {
      forall id: U64 ensures id in p.allowedCodeIDs <==> id in q.allowedCodeIDs {
        assert Allowed(p, id) <==> Allowed(q, id);
      }
      AscendingUnique(p.allowedCodeIDs, q.allowedCodeIDs);
    }
  }
}
