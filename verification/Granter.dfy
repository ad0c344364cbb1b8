/** The account contract that lets other public keys sign some types of messages. */
module Granter {
  import opened Machine

  /** The storage library cannot hold a longer first key component. */
  type TypeUrl = s: Bytes | |s| < 0x1_0000

  datatype Block = Block(height: U64, time: U64) {
    predicate NoLaterThan(b: Block) {
      height <= b.height && time <= b.time
    }
  }

  datatype Expiration = AtHeight(height: U64) | AtTime(time: U64) | Never {
    predicate Expired(block: Block) {
      match this
      case AtHeight(h) => block.height >= h
      case AtTime(t) => block.time >= t
      case Never => false
    }
  }

  datatype Grant = Grant(expiry: Option<Expiration>) {
    predicate Expired(block: Block) {
      expiry.Some? && expiry.value.Expired(block)
    }
  }

  datatype Key = Key(typeUrl: TypeUrl, grantee: Bytes)

  type Grants = map<Key, Grant>

  datatype Error =
    | Unauthorized
    | NewGrantExpired
    | CredentialNotFound
    | CredentialMalformed
    | GrantNotFound(key: Key)
    | GrantExpired(key: Key)
    | SignatureNotFound
    | VerificationFailed
    | InvalidSignature

  /** The credential bytes of a tx, decoded. */
  datatype Credential = Absent | Malformed | Credential(pubkey: Bytes, signature: Option<Bytes>)

  // ---------- The grant check ----------

  predicate Covers(grants: Grants, block: Block, key: Key) {
    key in grants && !grants[key].Expired(block)
  }

  predicate CoversAll(grants: Grants, block: Block, msgs: seq<TypeUrl>, grantee: Bytes) {
    forall k :: 0 <= k < |msgs| ==> Covers(grants, block, Key(msgs[k], grantee))
  }

  /** Message `k` is the first one that is not covered, and `err` says why. */
  ghost predicate FirstUncovered(grants: Grants, block: Block, msgs: seq<TypeUrl>, grantee: Bytes, k: nat, err: Error) {
    && k < |msgs| && CoversAll(grants, block, msgs[..k], grantee)
    && !Covers(grants, block, Key(msgs[k], grantee))
    && err == if Key(msgs[k], grantee) in grants then GrantExpired(Key(msgs[k], grantee))
              else GrantNotFound(Key(msgs[k], grantee))
  }

  // ---------- Grants and revocations ----------

  datatype Call = GrantCall(key: Key, expiry: Option<Expiration>) | RevokeCall(key: Key)

  datatype Entry = Entry(sender: Bytes, block: Block, call: Call)

  predicate Succeeds(address: Bytes, e: Entry) {
    && e.sender == address
    && (e.call.GrantCall? ==> !Grant(e.call.expiry).Expired(e.block))
  }

  function Step(address: Bytes, grants: Grants, e: Entry): Grants {
    if !Succeeds(address, e) then grants
    else if e.call.GrantCall? then grants[e.call.key := Grant(e.call.expiry)]
    else grants - {e.call.key}
  }

  // ---------- The contract ----------

  class Account {
    const address: Bytes
    const pubkey: Bytes
    var grants: Grants

    constructor (address: Bytes, pubkey: Bytes)
      ensures this.address == address && this.pubkey == pubkey && grants == map[]
    {
      this.address, this.pubkey, grants := address, pubkey, map[];
    }

    method MakeGrant(sender: Bytes, block: Block, key: Key, expiry: Option<Expiration>) returns (err: Option<Error>)
      modifies this
      ensures err.None? <==> Succeeds(address, Entry(sender, block, GrantCall(key, expiry)))
      ensures err.None? <==> sender == address && (expiry.None? || !expiry.value.Expired(block))
      ensures err == Some(Unauthorized) <==> sender != address
      ensures grants == Step(address, old(grants), Entry(sender, block, GrantCall(key, expiry)))
    {
      if sender != address {
        return Some(Unauthorized);
      }
      if expiry.Some? {
        if expiry.value.Expired(block) {
          return Some(NewGrantExpired);
        }
      }
      grants := grants[key := Grant(expiry)];
      return None;
    }

    method Revoke(sender: Bytes, block: Block, key: Key) returns (err: Option<Error>)
      modifies this
      ensures err == if sender != address then Some(Unauthorized) else None
      ensures grants == Step(address, old(grants), Entry(sender, block, RevokeCall(key)))
    {
      if sender != address {
        return Some(Unauthorized);
      }
      grants := grants - {key};
      return None;
    }

    /** The first message without a live grant decides the error. */
    method AssertHasGrant(block: Block, msgs: seq<TypeUrl>, grantee: Bytes) returns (err: Option<Error>)
      ensures err.None? <==> CoversAll(grants, block, msgs, grantee)
      ensures err.Some? ==> exists k: nat :: FirstUncovered(grants, block, msgs, grantee, k, err.value)
    {
      for k := 0 to |msgs|
        invariant CoversAll(grants, block, msgs[..k], grantee)
      {
        var key := Key(msgs[k], grantee);
        if key !in grants {
          assert FirstUncovered(grants, block, msgs, grantee, k, GrantNotFound(key));
          return Some(GrantNotFound(key));
        }
        if grants[key].expiry.Some? {
          if grants[key].expiry.value.Expired(block) {
            assert FirstUncovered(grants, block, msgs, grantee, k, GrantExpired(key));
            return Some(GrantExpired(key));
          }
        }
        assert msgs[..k + 1] == msgs[..k] + [msgs[k]];
      }
      assert msgs[..|msgs|] == msgs;
      return None;
    }

    /** `verify` is the signature check of the tx's bytes: None when it cannot be carried out. */
    method BeforeTx(block: Block, msgs: seq<TypeUrl>, credential: Credential, simulate: bool,
                    verify: (Bytes, Bytes) -> Option<bool>) returns (err: Option<Error>)
      ensures err.None? <==>
              && credential.Credential?
              && (credential.pubkey == pubkey || CoversAll(grants, block, msgs, credential.pubkey))
              && (simulate || (credential.signature.Some? &&
                               verify(credential.signature.value, credential.pubkey) == Some(true)))
      ensures credential.Absent? ==> err == Some(CredentialNotFound)
      ensures credential.Malformed? ==> err == Some(CredentialMalformed)
      ensures credential.Credential? && credential.pubkey != pubkey && !CoversAll(grants, block, msgs, credential.pubkey) ==>
                err.Some? && exists k: nat :: FirstUncovered(grants, block, msgs, credential.pubkey, k, err.value)
      ensures credential.Credential? && !simulate &&
              (credential.pubkey == pubkey || CoversAll(grants, block, msgs, credential.pubkey)) ==>
                err == if credential.signature.None? then Some(SignatureNotFound)
                       else
                         var verdict := verify(credential.signature.value, credential.pubkey);
                         if verdict.None? then Some(VerificationFailed)
                         else if verdict.value then None else Some(InvalidSignature)
    {
      if credential.Absent? {
        return Some(CredentialNotFound);
      }
      if credential.Malformed? {
        return Some(CredentialMalformed);
      }
      var signerIsSelf := credential.pubkey == pubkey;
      if !signerIsSelf {
        err := AssertHasGrant(block, msgs, credential.pubkey);
        if err.Some? {
          return;
        }
      }
      if !simulate {
        if credential.signature.None? {
          return Some(SignatureNotFound);
        }
        var verdict := verify(credential.signature.value, credential.pubkey);
        if verdict.None? {
          return Some(VerificationFailed);
        }
        if !verdict.value {
          return Some(InvalidSignature);
        }
      }
      return None;
    }
  }

  // ---------- Histories ----------

  /** The grants after a history of calls to a new contract. */
  function Replay(address: Bytes, history: seq<Entry>): Grants {
    if history == [] then map[]
    else Step(address, Replay(address, history[..|history| - 1]), history[|history| - 1])
  }

  predicate Touches(address: Bytes, e: Entry, key: Key) {
    Succeeds(address, e) && e.call.key == key
  }

  /** Call `k` is the latest successful one about `key`. */
  ghost predicate Latest(address: Bytes, history: seq<Entry>, key: Key, k: nat) {
    && k < |history| && Touches(address, history[k], key)
    && forall j :: k < j < |history| ==> !Touches(address, history[j], key)
  }

  /** A grant stands exactly when the latest successful call about its key made it. */
  lemma {:induction false} GrantStands(address: Bytes, history: seq<Entry>, key: Key, grant: Grant)
    ensures key in Replay(address, history) && Replay(address, history)[key] == grant <==>
            exists k: nat :: Latest(address, history, key, k) && history[k].call == GrantCall(key, grant.expiry)
  {
    if history == [] {
    } else {
      var n := |history| - 1;
      var front, last := history[..n], history[n];
      GrantStands(address, front, key, grant);
      if Touches(address, last, key) {
        assert Latest(address, history, key, n);
        assert forall k: nat :: Latest(address, history, key, k) ==> k == n;
      } else {
        assert key in Replay(address, history) <==> key in Replay(address, front);
        forall k: nat ensures Latest(address, front, key, k) <==> Latest(address, history, key, k) {
        }
        if k: nat :| Latest(address, front, key, k) && front[k].call == GrantCall(key, grant.expiry) {
          assert Latest(address, history, key, k) && history[k].call == GrantCall(key, grant.expiry);
        }
        if k: nat :| Latest(address, history, key, k) && history[k].call == GrantCall(key, grant.expiry) {
          assert Latest(address, front, key, k) && front[k].call == GrantCall(key, grant.expiry);
        }
      }
    }
  }

  /** The latest successful call about the pair is a grant that the account sent itself and that has
      not expired. */
  ghost predicate Granted(address: Bytes, history: seq<Entry>, block: Block, key: Key) {
    exists k: nat ::
      && Latest(address, history, key, k)
      && history[k].sender == address && history[k].call.GrantCall?
      && !Grant(history[k].call.expiry).Expired(block)
  }

  lemma CoveredIffGranted(address: Bytes, history: seq<Entry>, block: Block, key: Key)
    ensures Covers(Replay(address, history), block, key) <==> Granted(address, history, block, key)
  {
    var grants := Replay(address, history);
    if Covers(grants, block, key) {
      GrantStands(address, history, key, grants[key]);
    }
    if k: nat :| Latest(address, history, key, k) && history[k].call.GrantCall? && !Grant(history[k].call.expiry).Expired(block) {
      GrantStands(address, history, key, Grant(history[k].call.expiry));
    }
  }

  /** After any history, the grant check of another key passes exactly when every message is granted. */
  lemma CheckIffGranted(address: Bytes, history: seq<Entry>, block: Block, msgs: seq<TypeUrl>, grantee: Bytes)
    ensures CoversAll(Replay(address, history), block, msgs, grantee) <==>
            forall k :: 0 <= k < |msgs| ==> Granted(address, history, block, Key(msgs[k], grantee))
  {
    forall k | 0 <= k < |msgs|
      ensures Covers(Replay(address, history), block, Key(msgs[k], grantee)) <==>
              Granted(address, history, block, Key(msgs[k], grantee))
    {
      CoveredIffGranted(address, history, block, Key(msgs[k], grantee));
    }
  }

  /** A pair that is not covered stays so as blocks advance, until a grant for it succeeds. */
  lemma {:induction false} StaysRejected(address: Bytes, history: seq<Entry>, more: seq<Entry>,
                                         block: Block, later: Block, key: Key)
    requires !Covers(Replay(address, history), block, key)
    requires block.NoLaterThan(later)
    requires forall j :: 0 <= j < |more| && more[j].call.GrantCall? ==> !Touches(address, more[j], key)
    ensures !Covers(Replay(address, history + more), later, key)
    decreases |more|
  {
    if more == [] {
      Unit(history);
    } else {
      var n := |more| - 1;
      StaysRejected(address, history, more[..n], block, later, key);
      assert (history + more)[..|history| + n] == history + more[..n];
      assert (history + more)[|history| + n] == more[n];
    }
  }
}
