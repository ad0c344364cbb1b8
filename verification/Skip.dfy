/** Skipping a field of unknown number (`skipParams`, `skipGenesis`, `skipTx`): an iterative scan
    with a group-depth counter, proved against a recursive-descent reading of one record. */
module Skip {
  import opened Machine
  import opened Varint

  // ---------- What the loop computes ----------

  /** Where the payload of a record of the given wire type ends, when its tag ends at `j`. The
      result is a Go `int`: a length prefix near 2^63 wraps it below zero. Group tags have no
      payload of their own. */
  function PayloadEnd(s: Slice, j: nat, wireType: nat): (r: Result<int, Error>)
    requires j <= |s|
    ensures r.Ok? ==> r.value < TWO_63 && (r.value >= 0 ==> r.value >= j)
  {
    match wireType
    case 0 =>
      var v := ReadVarint(s[j..]);
      if v.err.Some? then Err(v.err.value) else Ok(j + v.len)
    case 1 => Ok(WrapInt(j + 8))
    case 2 =>
      var v := ReadVarint(s[j..]);
      if v.err.Some? then Err(v.err.value)
      else if WrapInt(v.value) < 0 then Err(InvalidLength)
      else Ok(WrapInt(j + v.len + WrapInt(v.value)))
    case 3 => Ok(j)
    case 4 => Ok(j)
    case 5 => Ok(WrapInt(j + 4))
    case _ => Err(IllegalWireType(wireType))
  }

  /** The scan from index `i` with `depth` groups open: the index it stops at, or its error. */
  function Scan(s: Slice, i: nat, depth: nat): (r: Result<nat, Error>)
    ensures r.Ok? ==> r.value < TWO_63
    decreases |s| - i
  {
    if i >= |s| then Err(UnexpectedEOF)
    else
      var t := ReadVarint(s[i..]);
      if t.err.Some? then Err(t.err.value)
      else if t.value % 8 == 4 && depth == 0 then Err(UnexpectedEndOfGroup)
      else
        match PayloadEnd(s, i + t.len, t.value % 8)
        case Err(e) => Err(e)
        case Ok(k) =>
          if k < 0 then Err(InvalidLength)
          else
            var depth' := Nest(depth, t.value % 8);
            if depth' == 0 then Ok(k) else Scan(s, k, depth')
  }

  /** The depth after a tag of the given wire type. */
  function Nest(depth: nat, wireType: nat): nat
    requires wireType == 4 ==> depth > 0
  {
    if wireType == 3 then depth + 1 else if wireType == 4 then depth - 1 else depth
  }

  lemma ScanStep(s: Slice, i: nat, depth: nat)
    requires i < |s|
    ensures var t := ReadVarint(s[i..]);
            var wireType := t.value % 8;
            if t.err.Some? then Scan(s, i, depth) == Err(t.err.value)
            else if wireType == 4 && depth == 0 then Scan(s, i, depth) == Err(UnexpectedEndOfGroup)
            else
              var e := PayloadEnd(s, i + t.len, wireType);
              if e.Err? then Scan(s, i, depth) == Err(e.error)
              else if e.value < 0 then Scan(s, i, depth) == Err(InvalidLength)
              else if Nest(depth, wireType) == 0 then Scan(s, i, depth) == Ok(e.value)
              else Scan(s, i, depth) == Scan(s, e.value, Nest(depth, wireType))
  {
    hide ReadVarint, PayloadEnd, Nest;
  }

  /** The cases of the loop that leave the depth alone. */
  method SkipPayload(dAtA: Slice, start: nat, wireType: nat) returns (r: Result<int, Error>)
    requires start <= |dAtA| && wireType != 3 && wireType != 4
    ensures r == PayloadEnd(dAtA, start, wireType)
  {
    hide ReadVarint;
    match wireType {
      case 0 =>
        var _, past, err := DecodeVarint(dAtA, start);
        r := if err.Some? then Err(err.value) else Ok(past);
      case 1 =>
        r := Ok(WrapInt(start + 8));
      case 2 =>
        var word, past, err := DecodeVarint(dAtA, start);
        if err.Some? {
          return Err(err.value);
        }
        var length := WrapInt(word);
        r := if length < 0 then Err(InvalidLength) else Ok(WrapInt(past + length));
      case 5 =>
        r := Ok(WrapInt(start + 4));
      case _ =>
        r := Err(IllegalWireType(wireType));
    }
  }

  method SkipRecord(dAtA: Slice) returns (r: Result<nat, Error>)
    ensures r == Scan(dAtA, 0, 0)
  {
    hide ReadVarint, Scan;
    var l := |dAtA|;
    var iNdEx: int := 0;
    var depth: int := 0;
    while iNdEx < l
      invariant iNdEx >= 0 && depth >= 0
      invariant Scan(dAtA, 0, 0) == Scan(dAtA, iNdEx, depth)
      decreases l - iNdEx
    {
      ScanStep(dAtA, iNdEx, depth);
      var wire, at, err := DecodeVarint(dAtA, iNdEx);
      if err.Some? {
        return Err(err.value);
      }
      iNdEx := at;
      var wireType := wire % 8;
      match wireType {
        case 3 =>
          depth := depth + 1;
        case 4 =>
          if depth == 0 {
            return Err(UnexpectedEndOfGroup);
          }
          depth := depth - 1;
        case _ =>
          var end := SkipPayload(dAtA, iNdEx, wireType);
          if end.Err? {
            return Err(end.error);
          }
          iNdEx := end.value;
      }
      if iNdEx < 0 {
        return Err(InvalidLength);
      }
      if depth == 0 {
        return Ok(iNdEx);
      }
    }
    ScanEnd(dAtA, iNdEx, depth);
    return Err(UnexpectedEOF);
  }

  lemma ScanEnd(s: Slice, i: nat, depth: nat)
    requires i >= |s|
    ensures Scan(s, i, depth) == Err(UnexpectedEOF)
  {
  }

  // ---------- The recursive-descent reading ----------

  /** The length of the payload at the front of `p`, for the wire types that are not group tags. */
  function Payload(p: Slice, wireType: nat): (n: Option<nat>)
    ensures n.Some? ==> n.value <= |p|
  {
    var v := ReadVarint(p);
    match wireType
    case 0 => if v.err.Some? then None else Some(v.len)
    case 1 => if |p| < 8 then None else Some(8)
    case 2 => if v.err.Some? || v.value > |p| - v.len then None else Some(v.len + v.value)
    case 5 => if |p| < 4 then None else Some(4)
    case _ => None
  }

  /** The length of the record that `s` begins with: a tag and its payload, or a start-group tag,
      the records in the group and an end-group tag. None when `s` does not begin with a complete
      record. */
  function Record(s: Slice): (n: Option<nat>)
    ensures n.Some? ==> 1 <= n.value <= |s|
    decreases |s|, 0
  {
    var t := ReadVarint(s);
    if t.err.Some? then None
    else
      var p := s[t.len..];
      var n := if t.value % 8 == 3 then Group(p) else Payload(p, t.value % 8);
      if n.None? then None else Some(t.len + n.value)
  }

  /** The length of the records at the front of `s` up to and including the end-group tag that
      closes the group they belong to. */
  function Group(s: Slice): (n: Option<nat>)
    ensures n.Some? ==> 1 <= n.value <= |s|
    decreases |s|, 1
  {
    var t := ReadVarint(s);
    if t.err.Some? then None
    else if t.value % 8 == 4 then Some(t.len)
    else
      var r := Record(s);
      if r.None? then None
      else
        var g := Group(s[r.value..]);
        if g.None? then None else Some(r.value + g.value)
  }

  /** The length of what closes `depth` open groups. */
  function Close(s: Slice, depth: nat): (n: Option<nat>)
    ensures n.Some? ==> n.value <= |s|
    decreases depth
  {
    if depth == 0 then Some(0)
    else
      var g := Group(s);
      if g.None? then None
      else
        var c := Close(s[g.value..], depth - 1);
        if c.None? then None else Some(g.value + c.value)
  }

  // ---------- The two readings agree ----------

  function Shift(n: Option<nat>, i: nat): Option<nat> {
    if n.None? then None else Some(i + n.value)
  }

  function Within(r: Result<nat, Error>, s: Slice): Option<nat> {
    if r.Ok? && r.value <= |s| then Some(r.value) else None
  }

  /** A record of a wire type other than the group tags, read either way. */
  lemma FlatRecord(s: Slice, i: nat)
    requires i < |s|
    requires var t := ReadVarint(s[i..]); t.err.None? && t.value % 8 != 3 && t.value % 8 != 4
    ensures var t := ReadVarint(s[i..]);
            var e := PayloadEnd(s, i + t.len, t.value % 8);
            Shift(Record(s[i..]), i) == if e.Ok? && 0 <= e.value <= |s| then Some(e.value) else None
  {
    hide ReadVarint, PayloadEnd, Payload;
    var t := ReadVarint(s[i..]);
    assert s[i..][t.len..] == s[i + t.len..];
    FlatPayload(s, i + t.len, t.value % 8);
  }

  /** The payloads that the descent accepts are those that end within the input. */
  lemma FlatPayload(s: Slice, j: nat, wireType: nat)
    requires j <= |s| && wireType != 3 && wireType != 4
    ensures var e := PayloadEnd(s, j, wireType);
            Shift(Payload(s[j..], wireType), j) == if e.Ok? && 0 <= e.value <= |s| then Some(e.value) else None
  {
    hide ReadVarint;
  }

  /** A complete record in front of the rest of a group leaves the closing to the rest. */
  lemma CloseAfterRecord(s: Slice, depth: nat)
    requires depth > 0 && Record(s).Some?
    ensures Close(s, depth) == Shift(Close(s[Record(s).value..], depth), Record(s).value)
  {
    hide ReadVarint;
    var r := Record(s).value;
    var g := Group(s[r..]);
    if g.Some? {
      assert s[r..][g.value..] == s[r + g.value..];
    }
  }

  /** With `depth` groups open, the scan from `i` stops where the descent says they are closed. */
  ghost predicate Agree(s: Slice, i: nat, depth: nat)
    requires i <= |s|
  {
    && (Scan(s, i, depth).Ok? ==> Scan(s, i, depth).value <= |s|)
    && Within(Scan(s, i, depth), s) == Shift(Close(s[i..], depth), i)
  }

  lemma {:induction false} ScanCloses(s: Slice, i: nat, depth: nat)
    requires i <= |s| && depth > 0
    ensures Agree(s, i, depth)
    decreases |s| - i
  {
    hide Scan, Close, Group, Agree, Base128, Continued;
    var t := ReadVarint(s[i..]);
    if t.err.Some? {
      NoTag(s, i, depth);
    } else {
      hide ReadVarint;
      if t.value % 8 == 4 {
        if depth > 1 {
          ScanCloses(s, i + t.len, depth - 1);
        }
        EndGroup(s, i, depth);
      } else if t.value % 8 == 3 {
        ScanCloses(s, i + t.len, depth + 1);
        StartGroup(s, i, depth);
      } else {
        hide Record;
        var r := Record(s[i..]);
        if r.Some? {
          ScanCloses(s, i + r.value, depth);
        }
        FlatInGroup(s, i, depth);
      }
    }
  }

  lemma CloseStep(s: Slice, depth: nat)
    requires depth > 0
    ensures var g := Group(s);
            Close(s, depth) == if g.None? then None else Shift(Close(s[g.value..], depth - 1), g.value)
  {
    hide Group;
  }

  lemma NoTag(s: Slice, i: nat, depth: nat)
    requires i <= |s| && depth > 0 && ReadVarint(s[i..]).err.Some?
    ensures Agree(s, i, depth)
  {
    hide ReadVarint;
    CloseStep(s[i..], depth);
  }

  /** Inside a group, a group tag changes the depth and nothing else. */
  lemma ScanGroupTag(s: Slice, i: nat, depth: nat)
    requires i < |s| && depth > 0
    requires var t := ReadVarint(s[i..]); t.err.None? && (t.value % 8 == 3 || t.value % 8 == 4)
    ensures var t := ReadVarint(s[i..]);
            var depth' := Nest(depth, t.value % 8);
            Scan(s, i, depth) == if depth' == 0 then Ok(i + t.len) else Scan(s, i + t.len, depth')
  {
    hide ReadVarint;
  }

  lemma EndGroup(s: Slice, i: nat, depth: nat)
    requires i < |s| && depth > 0
    requires var t := ReadVarint(s[i..]); t.err.None? && t.value % 8 == 4
    requires depth > 1 ==> Agree(s, i + ReadVarint(s[i..]).len, depth - 1)
    ensures Agree(s, i, depth)
  {
    hide ReadVarint, Scan, Record;
    var rest := s[i..];
    var n := ReadVarint(rest).len;
    assert rest[n..] == s[i + n..];
    assert Group(rest) == Some(n);
    ScanGroupTag(s, i, depth);
    CloseStep(rest, depth);
  }

  /** A start-group tag inside a group: one more group to close. */
  lemma StartGroup(s: Slice, i: nat, depth: nat)
    requires i < |s| && depth > 0
    requires var t := ReadVarint(s[i..]); t.err.None? && t.value % 8 == 3
    requires Agree(s, i + ReadVarint(s[i..]).len, depth + 1)
    ensures Agree(s, i, depth)
  {
    hide ReadVarint, Scan, Close, Group, Record;
    var rest := s[i..];
    var n := ReadVarint(rest).len;
    assert rest[n..] == s[i + n..];
    ScanGroupTag(s, i, depth);
    CloseNested(rest, depth);
  }

  lemma CloseNested(s: Slice, depth: nat)
    requires depth > 0
    requires var t := ReadVarint(s); t.err.None? && t.value % 8 == 3
    ensures var n := ReadVarint(s).len; Close(s, depth) == Shift(Close(s[n..], depth + 1), n)
  {
    hide ReadVarint, Record, Group, Close;
    var n := ReadVarint(s).len;
    var p := s[n..];
    GroupRecord(s);
    CloseStep(p, depth + 1);
    if Group(p).Some? {
      var g := Group(p).value;
      CloseAfterRecord(s, depth);
      assert p[g..] == s[n + g..];
    } else {
      CloseStep(s, depth);
    }
  }

  lemma GroupRecord(s: Slice)
    requires var t := ReadVarint(s); t.err.None? && t.value % 8 == 3
    ensures var n := ReadVarint(s).len; Record(s) == Shift(Group(s[n..]), n)
    ensures Record(s).None? ==> Group(s).None?
  {
    hide ReadVarint;
  }

  lemma FlatInGroup(s: Slice, i: nat, depth: nat)
    requires i < |s| && depth > 0
    requires var t := ReadVarint(s[i..]); t.err.None? && t.value % 8 != 3 && t.value % 8 != 4
    requires var r := Record(s[i..]); r.Some? ==> Agree(s, i + r.value, depth)
    ensures Agree(s, i, depth)
  {
    hide ReadVarint, Record, Group, Close;
    ScanFlat(s, i, depth);
    hide Scan;
    var r := Record(s[i..]);
    if r.Some? {
      assert s[i..][r.value..] == s[i + r.value..];
      CloseAfterRecord(s[i..], depth);
    } else {
      CloseStep(s[i..], depth);
      FlatGroup(s[i..]);
    }
  }

  lemma FlatGroup(s: Slice)
    requires var t := ReadVarint(s); t.err.None? && t.value % 8 != 4
    ensures Record(s).None? ==> Group(s).None?
  {
    hide ReadVarint, Record;
  }

  /** Inside a group the scan passes over a flat record, or fails. */
  lemma ScanFlat(s: Slice, i: nat, depth: nat)
    requires i < |s| && depth > 0
    requires var t := ReadVarint(s[i..]); t.err.None? && t.value % 8 != 3 && t.value % 8 != 4
    ensures var r := Record(s[i..]);
            if r.Some? then Scan(s, i, depth) == Scan(s, i + r.value, depth) else Scan(s, i, depth).Err?
  {
    hide ReadVarint, Record, PayloadEnd;
    FlatRecord(s, i);
    var t := ReadVarint(s[i..]);
    var e := PayloadEnd(s, i + t.len, t.value % 8);
    if e.Ok? && e.value > |s| {
      assert Scan(s, e.value, depth) == Err(UnexpectedEOF);
    }
  }

  /** The depth counter agrees with the recursive descent: a skip that stays within the input has
      consumed exactly the first balanced record, and it finds one whenever there is one. */
  lemma ScanIsRecord(s: Slice)
    ensures Within(Scan(s, 0, 0), s) == Record(s)
  {
    hide ReadVarint;
    assert s[0..] == s;
    if s != [] {
      var t := ReadVarint(s);
      if t.err.None? {
        if t.value % 8 == 3 {
          ScanCloses(s, t.len, 1);
        } else if t.value % 8 != 4 {
          FlatRecord(s, 0);
        }
      }
    }
  }

  /** Bytes after the record never change how much is consumed. */
  lemma {:induction false} RecordLocal(s: Slice, t: Slice)
    requires Record(s).Some? && Record(s).value <= |t| && t[..Record(s).value] == s[..Record(s).value]
    ensures Record(t) == Record(s)
    decreases |s|, 0
  {
    hide ReadVarint, Record, Group;
    RecordHoldsTag(s);
    var n := Record(s).value;
    var v := ReadVarint(s);
    Prefixes(s, t, n, v.len);
    ReadVarintLocal(s, t);
    Middles(s, t, n, v.len);
    if v.value % 8 == 3 {
      GroupRecord(s);
      GroupRecord(t);
      GroupLocal(s[v.len..], t[v.len..]);
    } else {
      FlatHolds(s);
      FlatHolds(t);
      PayloadLocal(s[v.len..], t[v.len..], v.value % 8);
    }
  }

  lemma FlatHolds(s: Slice)
    requires var v := ReadVarint(s); v.err.None? && v.value % 8 != 3
    ensures var v := ReadVarint(s); Record(s) == Shift(Payload(s[v.len..], v.value % 8), v.len)
  {
    hide ReadVarint, Payload;
  }

  lemma PayloadLocal(p: Slice, q: Slice, wireType: nat)
    requires var n := Payload(p, wireType); n.Some? && n.value <= |q| && q[..n.value] == p[..n.value]
    ensures Payload(q, wireType) == Payload(p, wireType)
  {
    hide ReadVarint;
    if wireType == 0 || wireType == 2 {
      Prefixes(p, q, Payload(p, wireType).value, ReadVarint(p).len);
      ReadVarintLocal(p, q);
    }
  }

  lemma RecordHoldsTag(s: Slice)
    ensures Record(s).Some? ==> ReadVarint(s).err.None? && ReadVarint(s).len <= Record(s).value
  {
    hide ReadVarint;
  }

  lemma {:induction false} GroupLocal(s: Slice, t: Slice)
    requires Group(s).Some? && Group(s).value <= |t| && t[..Group(s).value] == s[..Group(s).value]
    ensures Group(t) == Group(s)
    decreases |s|, 1
  {
    hide ReadVarint, Record;
    RecordHoldsTag(s);
    var n := Group(s).value;
    var v := ReadVarint(s);
    Prefixes(s, t, n, v.len);
    ReadVarintLocal(s, t);
    if v.value % 8 == 4 {
    } else {
      var r := Record(s).value;
      Prefixes(s, t, n, r);
      RecordLocal(s, t);
      Middles(s, t, n, r);
      GroupLocal(s[r..], t[r..]);
    }
  }

  lemma Prefixes(s: Bytes, t: Bytes, n: nat, m: nat)
    requires m <= n <= |s| && n <= |t| && s[..n] == t[..n]
    ensures s[..m] == t[..m]
  {
    assert s[..m] == s[..n][..m];
    assert t[..m] == t[..n][..m];
  }

  lemma Middles(s: Bytes, t: Bytes, n: nat, m: nat)
    requires m <= n <= |s| && n <= |t| && s[..n] == t[..n]
    ensures s[m..][..n - m] == t[m..][..n - m]
  {
    assert s[m..][..n - m] == s[..n][m..];
    assert t[m..][..n - m] == t[..n][m..];
  }
}
