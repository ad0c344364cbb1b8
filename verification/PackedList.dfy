/** The packed encoding of a list of words. */
module PackedList {
  import opened Machine
  import opened Varint
  import Skip

  // ---------- Reading ----------

  /** The packed loop: varints from the front of `s` until `n` bytes are consumed. A varint is cut
      off by the end of the input, not by the end of the payload: the last one may run past `n`. */
  datatype Packed = Packed(ids: seq<U64>, len: nat, err: Option<Error>)

  function ReadPacked(s: Slice, n: int): (r: Packed)
    ensures r.len <= |s|
    ensures r.err.None? ==> n <= r.len
    ensures |r.ids| <= r.len
    decreases |s|
  {
    if n <= 0 then Packed([], 0, None)
    else
      var v := ReadVarint(s);
      if v.err.Some? then Packed([], v.len, v.err)
      else
        var rest := ReadPacked(s[v.len..], n - v.len);
        Packed([v.value] + rest.ids, v.len + rest.len, rest.err)
  }

  lemma {:induction false} PackedLocal(s: Slice, t: Slice, n: int)
    requires var p := ReadPacked(s, n); p.err.None? && p.len <= |t| && t[..p.len] == s[..p.len]
    ensures ReadPacked(t, n) == ReadPacked(s, n)
    decreases |s|
  {
    hide ReadVarint;
    if n <= 0 {
    } else {
      var p := ReadPacked(s, n);
      var k := ReadVarint(s).len;
      Skip.Prefixes(s, t, p.len, k);
      ReadVarintLocal(s, t);
      assert s[k..][..p.len - k] == s[..p.len][k..] == t[..p.len][k..] == t[k..][..p.len - k];
      PackedLocal(s[k..], t[k..], n - k);
    }
  }

  // ---------- Writing ----------

  function EncodeAll(ids: seq<U64>): Bytes {
    if ids == [] then [] else EncodeVarint(ids[0]) + EncodeAll(ids[1..])
  }

  lemma {:induction false} EncodeAllAppend(ids: seq<U64>, v: U64)
    ensures EncodeAll(ids + [v]) == EncodeAll(ids) + EncodeVarint(v)
  {
    hide EncodeVarint;
    if ids == [] {
      assert ids + [v] == [v];
      assert EncodeAll([v]) == EncodeVarint(v) + EncodeAll([]);
    } else {
      assert (ids + [v])[1..] == ids[1..] + [v];
      EncodeAllAppend(ids[1..], v);
      Assoc(EncodeVarint(ids[0]), EncodeAll(ids[1..]), EncodeVarint(v));
    }
  }

  /** The size loop and the scratch loop agree. */
  function SumSov(ids: seq<U64>): nat {
    if ids == [] then 0 else Sov(ids[0]) + SumSov(ids[1..])
  }

  lemma {:induction false} SumSovIsLength(ids: seq<U64>)
    ensures SumSov(ids) == |EncodeAll(ids)| <= 10 * |ids|
  {
    if ids == [] {
    } else {
      SovIsLength(ids[0]);
      EncodeWordLength(ids[0]);
      SumSovIsLength(ids[1..]);
    }
  }

  lemma {:induction false} PackedReads(ids: seq<U64>, rest: Bytes)
    requires |EncodeAll(ids)| + |rest| < TWO_63
    ensures ReadPacked(EncodeAll(ids) + rest, |EncodeAll(ids)|) == Packed(ids, |EncodeAll(ids)|, None)
  {
    hide ReadVarint, EncodeVarint;
    if ids == [] {
    } else {
      var v, tail := EncodeVarint(ids[0]), EncodeAll(ids[1..]);
      var s := EncodeAll(ids) + rest;
      assert s == v + (tail + rest);
      ReadEncoded(ids[0], tail + rest);
      PackedReads(ids[1..], rest);
      assert s[|v|..] == tail + rest;
      assert ids == [ids[0]] + ids[1..];
    }
  }

  lemma PackedReadsAll(ids: seq<U64>)
    requires |EncodeAll(ids)| < TWO_63
    ensures ReadPacked(EncodeAll(ids), |EncodeAll(ids)|) == Packed(ids, |EncodeAll(ids)|, None)
  {
    assert EncodeAll(ids) + [] == EncodeAll(ids);
    PackedReads(ids, []);
  }

  // ---------- The pre-count of elements ----------

  function Terminators(s: Bytes): nat {
    if s == [] then 0 else (if s[0] < 128 then 1 else 0) + Terminators(s[1..])
  }

  lemma {:induction false} TerminatorsConcat(s: Bytes, t: Bytes)
    ensures Terminators(s + t) == Terminators(s) + Terminators(t)
  {
    if s == [] {
      assert s + t == t;
    } else {
      assert (s + t)[1..] == s[1..] + t;
      TerminatorsConcat(s[1..], t);
    }
  }

  lemma {:induction false} NoTerminators(s: Bytes)
    requires forall k :: 0 <= k < |s| ==> s[k] >= 128
    ensures Terminators(s) == 0
  {
    if s == [] {
    } else {
      NoTerminators(s[1..]);
    }
  }

  /** The bytes of one varint: only the last one is a terminator. */
  lemma OneTerminator(s: Bytes)
    requires ReadVarint(s).err.None?
    ensures var k := ReadVarint(s).len; Terminators(s[..k]) == 1 && s[k - 1] < 128
    ensures forall i :: 0 <= i < ReadVarint(s).len - 1 ==> s[i] >= 128
  {
    var k := ReadVarint(s).len;
    assert s[..k] == s[..k - 1] + [s[k - 1]];
    NoTerminators(s[..k - 1]);
    TerminatorsConcat(s[..k - 1], [s[k - 1]]);
    assert Terminators([s[k - 1]]) == 1 + Terminators([]);
  }

  /** The pre-count is the number of varints the loop appends exactly when the payload does not end
      in the middle of a varint; otherwise the loop runs past the payload and appends one more. */
  lemma {:induction false} PackedCount(s: Slice, n: nat)
    requires n <= |s| && ReadPacked(s, n).err.None?
    ensures var p := ReadPacked(s, n);
            if n == 0 || s[n - 1] < 128 then |p.ids| == Terminators(s[..n]) && p.len == n
            else |p.ids| == Terminators(s[..n]) + 1 && p.len > n
    decreases |s|
  {
    hide ReadVarint, Terminators, ReadPacked;
    if n == 0 {
      NoTerminators(s[..n]);
      PackedNone(s, n);
    } else {
      PackedFirst(s, n);
      OneTerminator(s);
      var k := ReadVarint(s).len;
      if k <= n {
        PackedCount(s[k..], n - k);
        CountSplit(s, k, n);
      } else {
        NoTerminators(s[..n]);
        PackedNone(s[k..], n - k);
      }
    }
  }

  lemma PackedNone(s: Slice, n: int)
    requires n <= 0
    ensures ReadPacked(s, n) == Packed([], 0, None)
  {
  }

  lemma PackedFirst(s: Slice, n: int)
    requires n > 0 && ReadPacked(s, n).err.None?
    ensures var v := ReadVarint(s);
            && v.err.None?
            && var rest := ReadPacked(s[v.len..], n - v.len);
            && rest.err.None?
            && ReadPacked(s, n) == Packed([v.value] + rest.ids, v.len + rest.len, None)
  {
    hide ReadVarint;
  }

  lemma CountSplit(s: Bytes, k: nat, n: nat)
    requires k <= n <= |s|
    ensures Terminators(s[..n]) == Terminators(s[..k]) + Terminators(s[k..][..n - k])
  {
    hide Terminators;
    assert s[..n] == s[..k] + s[k..][..n - k];
    TerminatorsConcat(s[..k], s[k..][..n - k]);
  }

  /** What the packed loop leaves behind when it stands at index `i` with the list `ids`. */
  function PackedFrom(dAtA: Slice, i: nat, postIndex: nat, ids: seq<U64>): Packed
    requires i <= |dAtA|
  {
    var q := ReadPacked(dAtA[i..], postIndex - i);
    Packed(ids + q.ids, i + q.len, q.err)
  }

  lemma PackedBadAt(dAtA: Slice, i: nat, postIndex: nat, ids: seq<U64>)
    requires i < postIndex <= |dAtA| && ReadVarint(dAtA[i..]).err.Some?
    ensures var v := ReadVarint(dAtA[i..]); PackedFrom(dAtA, i, postIndex, ids) == Packed(ids, i + v.len, v.err)
  {
    hide ReadVarint;
    Unit(ids);
  }

  lemma PackedStepAt(dAtA: Slice, i: nat, postIndex: nat, ids: seq<U64>)
    requires i < postIndex <= |dAtA| && ReadVarint(dAtA[i..]).err.None?
    ensures var v := ReadVarint(dAtA[i..]);
            PackedFrom(dAtA, i, postIndex, ids) == PackedFrom(dAtA, i + v.len, postIndex, ids + [v.value])
  {
    hide ReadVarint;
    var v := ReadVarint(dAtA[i..]);
    assert dAtA[i..][v.len..] == dAtA[i + v.len..];
    Assoc(ids, [v.value], ReadPacked(dAtA[i + v.len..], postIndex - (i + v.len)).ids);
  }

  lemma PackedEnd(dAtA: Slice, i: nat, postIndex: nat, ids: seq<U64>)
    requires postIndex <= i <= |dAtA|
    ensures PackedFrom(dAtA, i, postIndex, ids) == Packed(ids, i, None)
  {
    assert ReadPacked(dAtA[i..], postIndex - i) == Packed([], 0, None);
    hide ReadPacked;
    Unit(ids);
  }

  lemma PackedPrecount(dAtA: Slice, start: nat, postIndex: nat)
    requires start <= postIndex <= |dAtA|
    ensures var p := ReadPacked(dAtA[start..], postIndex - start);
            p.err.None? && (start == postIndex || dAtA[postIndex - 1] < 128) ==>
              |p.ids| == Terminators(dAtA[start..postIndex])
  {
    hide ReadPacked, Terminators;
    var s, n := dAtA[start..], postIndex - start;
    if ReadPacked(s, n).err.None? {
      PackedCount(s, n);
      assert s[..n] == dAtA[start..postIndex];
    }
  }
}
