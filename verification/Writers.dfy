/** Writing fields into a buffer from the back. */
module Writers {
  import opened Machine
  import opened Varint
  import opened Fields

  /** Each writer puts a field in front of what already stands in `dAtA[at..end]`. */
  method PutWordField(dAtA: array<Byte>, at: nat, ghost end: nat, key: Byte, v: U64) returns (i: nat)
    requires |WordField(key, v)| <= at <= end <= dAtA.Length
    modifies dAtA
    ensures i == at - |WordField(key, v)|
    ensures dAtA[i..end] == WordField(key, v) + old(dAtA[at..end])
    ensures Outside(dAtA, i, at)
  {
    i := at;
    if v != 0 {
      i := PutVarintBefore(dAtA, i, end, v);
      i := PutByte(dAtA, i, end, key);
      Assoc([key], EncodeVarint(v), old(dAtA[at..end]));
    }
  }

  method PutBoolField(dAtA: array<Byte>, at: nat, ghost end: nat, key: Byte, b: bool) returns (i: nat)
    requires |BoolField(key, b)| <= at <= end <= dAtA.Length
    modifies dAtA
    ensures i == at - |BoolField(key, b)|
    ensures dAtA[i..end] == BoolField(key, b) + old(dAtA[at..end])
    ensures Outside(dAtA, i, at)
  {
    i := at;
    if b {
      i := PutByte(dAtA, i, end, 1);
      i := PutByte(dAtA, i, end, key);
      Assoc([key], [1], old(dAtA[at..end]));
    }
  }

  /** The length prefix and the key in front of a payload that already stands in `[start..at]`. */
  method PutBlockHeader(dAtA: array<Byte>, start: nat, at: nat, ghost end: nat, key: Byte) returns (i: nat)
    requires start <= at <= end <= dAtA.Length && at - start < TWO_63
    requires |EncodeVarint(at - start)| + 1 <= start
    modifies dAtA
    ensures i == start - |EncodeVarint(at - start)| - 1
    ensures dAtA[i..end] == BlockField(key, old(dAtA[start..at])) + old(dAtA[at..end])
    ensures Outside(dAtA, i, start)
  {
    hide EncodeVarint;
    ghost var payload, rest := dAtA[start..at], dAtA[at..end];
    ghost var size := EncodeVarint(at - start);
    assert dAtA[start..end] == payload + rest;
    var base := PutVarintBefore(dAtA, start, end, at - start);
    i := PutByte(dAtA, base, end, key);
    Regroup(key, size, payload, rest);
  }

  lemma Regroup(key: Byte, size: Bytes, payload: Bytes, rest: Bytes)
    ensures [key] + (size + (payload + rest)) == [key] + size + payload + rest
  {
  }

  method PutBytes(dAtA: array<Byte>, at: nat, src: Bytes) returns (i: nat)
    requires |src| <= at <= dAtA.Length
    modifies dAtA
    ensures i == at - |src| && dAtA[i..at] == src
    ensures Outside(dAtA, i, at)
  {
    i := at - |src|;
    forall k | 0 <= k < |src| {
      dAtA[i + k] := src[k];
    }
  }
}
