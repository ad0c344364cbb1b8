/** Base 128 varints: the encoder, which writes backwards from an offset, and the decoding loop. */
module Varint {
  import opened Machine

  // ---------- The value and the extent of a varint, read off its bytes ----------

  /** The little-endian base 128 value of the low seven bits of each byte. */
  function Base128(s: Bytes): nat {
    if s == [] then 0 else s[0] % 128 + 128 * Base128(s[1..])
  }

  /** How many bytes at the front of `s`, at most `max` of them, have the continuation bit set. */
  function Continued(s: Bytes, max: nat): (n: nat)
    ensures n <= max && n <= |s|
    ensures forall k :: 0 <= k < n ==> s[k] >= 128
    ensures n < max && n < |s| ==> s[n] < 128
  {
    if max == 0 || s == [] || s[0] < 128 then 0 else 1 + Continued(s[1..], max - 1)
  }

  /** What the decoding loop leaves behind: the word accumulated so far, the number of bytes
      consumed, and the error if there was one. */
  datatype Read = Read(value: U64, len: nat, err: Option<Error>)

  function ReadVarint(s: Bytes): (r: Read)
    ensures r.len <= |s|
    ensures r.err.None? ==> 1 <= r.len <= 10
  {
    var n := Continued(s, 10);
    if n == 10 then Read(Base128(s[..n]) % TWO_64, n, Some(IntOverflow))
    else if n == |s| then Read(Base128(s) % TWO_64, n, Some(UnexpectedEOF))
    else Read(Base128(s[..n + 1]) % TWO_64, n + 1, None)
  }

  lemma {:induction false} Base128Append(s: Bytes, b: Byte)
    ensures Base128(s + [b]) == Base128(s) + b % 128 * Pow2(7 * |s|)
  {
    if s == [] {
      assert s + [b] == [b];
      assert Base128([b][1..]) == 0;
    } else {
      assert (s + [b])[1..] == s[1..] + [b];
      Base128Append(s[1..], b);
      var p := Pow2(7 * |s[1..]|);
      Pow2Add(7, 7 * |s[1..]|);
      assert Pow2(7) == 128;
      assert Pow2(7 * |s|) == 128 * p;
      assert 128 * (b % 128 * p) == b % 128 * (128 * p);
    }
  }

  lemma {:induction false} Base128Bound(s: Bytes)
    ensures Base128(s) < Pow2(7 * |s|)
  {
    if s == [] {
    } else {
      Base128Bound(s[1..]);
      Pow2Add(7, 7 * |s[1..]|);
      assert Pow2(7) == 128;
    }
  }

  /** Only the bytes consumed matter: whatever follows a complete varint never changes it. */
  lemma ReadVarintLocal(s: Bytes, t: Bytes)
    requires ReadVarint(s).err.None?
    requires var n := ReadVarint(s).len; n <= |t| && t[..n] == s[..n]
    ensures ReadVarint(t) == ReadVarint(s)
  {
    var n := ReadVarint(s).len;
    forall k | 0 <= k < n ensures s[k] == t[k] {
      assert s[k] == s[..n][k] == t[..n][k];
    }
    var m := Continued(t, 10);
    assert m == n - 1;
  }

  // ---------- The encoder ----------

  function EncodeVarint(v: nat): (s: Bytes)
    ensures |s| >= 1
  {
    if v < 128 then [v] else [v % 128 + 128] + EncodeVarint(v / 128)
  }

  /** Go's `bits.Len64`. */
  function Len64(x: nat): nat {
    if x == 0 then 0 else 1 + Len64(x / 2)
  }

  /** `x|1` sets the lowest bit. */
  function Odd(x: nat): nat {
    if x % 2 == 0 then x + 1 else x
  }

  /** The size formula. */
  function Sov(x: nat): nat {
    (Len64(Odd(x)) + 6) / 7
  }

  lemma Len64Septet(x: nat)
    requires x >= 128
    ensures Len64(x) == 7 + Len64(x / 128)
  {
    assert Len64(x) == 1 + Len64(x / 2);
    assert x / 2 / 2 == x / 4;
    assert Len64(x / 2) == 1 + Len64(x / 4);
    assert x / 4 / 2 == x / 8;
    assert Len64(x / 4) == 1 + Len64(x / 8);
    assert x / 8 / 2 == x / 16;
    assert Len64(x / 8) == 1 + Len64(x / 16);
    assert x / 16 / 2 == x / 32;
    assert Len64(x / 16) == 1 + Len64(x / 32);
    assert x / 32 / 2 == x / 64;
    assert Len64(x / 32) == 1 + Len64(x / 64);
    assert x / 64 / 2 == x / 128;
  }

  lemma {:induction false} Len64AtMost(x: nat, k: nat)
    requires x < Pow2(k)
    ensures Len64(x) <= k
  {
    if x == 0 {
    } else {
      Len64AtMost(x / 2, k - 1);
    }
  }

  lemma {:induction false} SovIsLength(v: nat)
    ensures Sov(v) == |EncodeVarint(v)|
  {
    if v < 128 {
      PutLast(v);
      hide EncodeVarint;
      SovSmall(v);
    } else {
      SovIsLength(v / 128);
      EncodeCons(v);
      hide EncodeVarint;
      SovSeptet(v);
    }
  }

  lemma SovSmall(v: nat)
    requires v < 128
    ensures Sov(v) == 1
  {
    assert Pow2(7) == 128;
    Len64AtMost(Odd(v), 7);
    assert Len64(Odd(v)) >= 1;
  }

  lemma SovSeptet(v: nat)
    requires v >= 128
    ensures Sov(v) == 1 + Sov(v / 128)
  {
    var w := Odd(v);
    var u := v / 128;
    assert w / 128 == u;
    hide Len64;
    Len64Septet(w);
    Len64Odd(u);
  }

  lemma Len64Odd(u: nat)
    requires u > 0
    ensures Len64(Odd(u)) == Len64(u)
  {
    assert Odd(u) / 2 == u / 2;
  }

  /** The size formula gives the least number of septets that can hold the value. */
  lemma {:induction false} SovIsLeast(v: nat)
    ensures Sov(v) >= 1 && v < Pow2(7 * Sov(v))
    ensures forall k: nat :: k >= 1 && v < Pow2(7 * k) ==> Sov(v) <= k
  {
    SovIsLength(v);
    EncodeValue(v);
    Base128Bound(EncodeVarint(v));
    forall k: nat | k >= 1 && v < Pow2(7 * k) ensures Sov(v) <= k {
      EncodeAtMost(v, k);
    }
  }

  lemma {:induction false} EncodeAtMost(v: nat, k: nat)
    requires k >= 1 && v < Pow2(7 * k)
    ensures |EncodeVarint(v)| <= k
  {
    if v < 128 {
    } else {
      assert Pow2(7) == 128;
      assert k > 1;
      Pow2Add(7, 7 * (k - 1));
      EncodeAtMost(v / 128, k - 1);
    }
  }

  /** The shape of an encoding: every byte but the last carries the continuation bit, and the
      septets spell the value. */
  lemma {:induction false} EncodeValue(v: nat)
    ensures Base128(EncodeVarint(v)) == v
    ensures var s := EncodeVarint(v); s[|s| - 1] < 128 && forall k :: 0 <= k < |s| - 1 ==> s[k] >= 128
  {
    if v < 128 {
      PutLast(v);
      Base128Cons(v, []);
    } else {
      EncodeValue(v / 128);
      EncodeCons(v);
      hide EncodeVarint;
      Base128Cons(v % 128 + 128, EncodeVarint(v / 128));
    }
  }

  lemma EncodeCons(v: nat)
    requires v >= 128
    ensures EncodeVarint(v) == [v % 128 + 128] + EncodeVarint(v / 128)
  {
  }

  lemma Base128Cons(b: Byte, s: Bytes)
    ensures Base128([b] + s) == b % 128 + 128 * Base128(s)
  {
    assert ([b] + s)[1..] == s;
  }

  /** Every word takes one to ten bytes. */
  lemma EncodeWordLength(v: U64)
    ensures 1 <= |EncodeVarint(v)| <= 10
  {
    Pow2Words();
    EncodeAtMost(v, 10);
  }

  /** The decoding loop, started on an encoding, returns the value and stops where the encoding
      stops, whatever bytes follow. */
  lemma ReadEncoded(v: U64, rest: Bytes)
    ensures ReadVarint(EncodeVarint(v) + rest) == Read(v, |EncodeVarint(v)|, None)
  {
    hide EncodeVarint, Base128, Continued;
    var s := EncodeVarint(v);
    EncodedContinues(v, rest);
    EncodedSpells(v);
    assert (s + rest)[..|s|] == s;
  }

  lemma EncodedContinues(v: U64, rest: Bytes)
    ensures var s := EncodeVarint(v); Continued(s + rest, 10) == |s| - 1 < 10
  {
    hide EncodeVarint, Base128;
    EncodeValue(v);
    EncodeWordLength(v);
    ContinuedTo(EncodeVarint(v), rest);
  }

  lemma EncodedSpells(v: U64)
    ensures Base128(EncodeVarint(v)) % TWO_64 == v
  {
    hide EncodeVarint, Base128;
    EncodeValue(v);
  }

  lemma ContinuedTo(s: Bytes, rest: Bytes)
    requires 1 <= |s| <= 10 && s[|s| - 1] < 128 && forall k :: 0 <= k < |s| - 1 ==> s[k] >= 128
    ensures Continued(s + rest, 10) == |s| - 1
  {
    hide Continued;
    assert (s + rest)[|s| - 1] == s[|s| - 1];
    assert forall k :: 0 <= k < |s| - 1 ==> (s + rest)[k] == s[k];
  }

  // ---------- The loops ----------

  /** Nothing of `dAtA` outside `[i..end]` has changed. */
  twostate predicate Outside(dAtA: array<Byte>, i: nat, end: nat)
    reads dAtA
  {
    forall k :: 0 <= k < dAtA.Length && (k < i || end <= k) ==> dAtA[k] == old(dAtA[k])
  }

  /** `encodeVarintParams`, `encodeVarintGenesis`, `encodeVarintTx`: step the offset back by the
      size formula, then fill the gap forwards. */
  method PutVarint(dAtA: array<Byte>, offset: nat, v: U64) returns (base: nat)
    requires |EncodeVarint(v)| <= offset <= dAtA.Length
    modifies dAtA
    ensures base == offset - Sov(v) == offset - |EncodeVarint(v)|
    ensures dAtA[base..offset] == EncodeVarint(v)
    ensures Outside(dAtA, base, offset)
  {
    SovIsLength(v);
    base := offset - Sov(v);
    hide EncodeVarint, Sov;
    var at, w: nat := base, v;
    while w >= 0x80
      invariant base <= at <= offset
      invariant dAtA[base..at] + EncodeVarint(w) == EncodeVarint(v)
      invariant Outside(dAtA, base, offset)
      decreases w
    {
      ghost var done := dAtA[base..at];
      PutSeptet(done, w);
      dAtA[at] := w % 128 + 128;
      assert dAtA[base..at + 1] == done + [w % 128 + 128];
      w := w / 128;
      at := at + 1;
    }
    PutLast(w);
    ghost var done := dAtA[base..at];
    dAtA[at] := w;
    assert dAtA[base..at + 1] == done + [w];
  }

  /** The same, with what stands behind the varint. */
  method PutVarintBefore(dAtA: array<Byte>, offset: nat, ghost end: nat, v: U64) returns (base: nat)
    requires |EncodeVarint(v)| <= offset <= end <= dAtA.Length
    modifies dAtA
    ensures base == offset - |EncodeVarint(v)|
    ensures dAtA[base..end] == EncodeVarint(v) + old(dAtA[offset..end])
    ensures Outside(dAtA, base, offset)
  {
    hide EncodeVarint;
    ghost var rest := dAtA[offset..end];
    base := PutVarint(dAtA, offset, v);
    assert dAtA[offset..end] == rest;
    assert dAtA[base..end] == dAtA[base..offset] + dAtA[offset..end];
  }

  method PutByte(dAtA: array<Byte>, at: nat, ghost end: nat, b: Byte) returns (i: nat)
    requires 0 < at <= end <= dAtA.Length
    modifies dAtA
    ensures i == at - 1
    ensures dAtA[i..end] == [b] + old(dAtA[at..end])
    ensures Outside(dAtA, i, at)
  {
    i := at - 1;
    dAtA[i] := b;
  }

  lemma PutSeptet(done: Bytes, w: nat)
    requires w >= 128
    ensures done + EncodeVarint(w) == done + [w % 128 + 128] + EncodeVarint(w / 128)
    ensures |EncodeVarint(w)| >= 2
  {
    EncodeCons(w);
    hide EncodeVarint;
    Assoc(done, [w % 128 + 128], EncodeVarint(w / 128));
  }

  lemma PutLast(w: nat)
    requires w < 128
    ensures EncodeVarint(w) == [w]
  {
  }

  // The three ways in which the loop ends.

  lemma ReadOverflow(s: Bytes)
    requires |s| >= 10 && forall k :: 0 <= k < 10 ==> s[k] >= 128
    ensures ReadVarint(s) == Read(Base128(s[..10]) % TWO_64, 10, Some(IntOverflow))
  {
    hide Base128, Continued;
  }

  lemma ReadShort(s: Bytes)
    requires |s| < 10 && forall k :: 0 <= k < |s| ==> s[k] >= 128
    ensures ReadVarint(s) == Read(Base128(s) % TWO_64, |s|, Some(UnexpectedEOF))
  {
    hide Base128, Continued;
  }

  lemma ReadLast(s: Bytes, n: nat)
    requires n < 10 && n < |s| && s[n] < 128 && forall k :: 0 <= k < n ==> s[k] >= 128
    ensures ReadVarint(s) == Read(Base128(s[..n + 1]) % TWO_64, n + 1, None)
  {
    hide Base128, Continued;
    assert Continued(s, 10) == n;
  }

  /** The `for shift := uint(0); ; shift += 7` loop that every field starts with. */
  method DecodeVarint(dAtA: Bytes, iNdEx: nat) returns (v: U64, next: nat, err: Option<Error>)
    requires iNdEx <= |dAtA|
    ensures next >= iNdEx && Read(v, next - iNdEx, err) == ReadVarint(dAtA[iNdEx..])
  {
    hide ReadVarint, OrShifted;
    var shift := 0;
    v, next := 0, iNdEx;
    ghost var s := dAtA[iNdEx..];
    while true
      invariant iNdEx <= next <= |dAtA| && next - iNdEx <= 10
      invariant shift == 7 * (next - iNdEx)
      invariant forall k :: 0 <= k < next - iNdEx ==> s[k] >= 128
      invariant v == Base128(s[..next - iNdEx]) % TWO_64
      decreases |dAtA| - next
    {
      ghost var n := next - iNdEx;
      if shift >= 64 {
        ReadOverflow(s);
        return v, next, Some(IntOverflow);
      }
      if next >= |dAtA| {
        assert s[..n] == s;
        ReadShort(s);
        return v, next, Some(UnexpectedEOF);
      }
      var b := dAtA[next];
      next := next + 1;
      AccumulatorFits(s[..n], shift);
      v := OrShifted(v, b, shift);
      assert s[..n + 1] == s[..n] + [b];
      Base128Append(s[..n], b);
      if b < 0x80 {
        ReadLast(s, n);
        return v, next, None;
      }
      shift := shift + 7;
    }
  }

  /** Below ten septets the accumulator has not yet lost a bit. */
  lemma AccumulatorFits(s: Bytes, shift: nat)
    requires shift == 7 * |s| < 64
    ensures Base128(s) % TWO_64 == Base128(s) < Pow2(shift)
  {
    Base128Bound(s);
    Pow2Words();
    Pow2Monotone(shift, 63);
  }
}
