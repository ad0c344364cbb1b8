/** Decoding as a fold: the operations of the fields, applied in order to the message that the
    decoder is given. What holds of every generated `Unmarshal` is proved here once. */
module Messages {
  import opened Machine
  import opened Framing

  function Fold<M, Op>(apply: (M, Op) -> M, m: M, ops: seq<Op>): M
    decreases |ops|
  {
    if ops == [] then m else Fold(apply, apply(m, ops[0]), ops[1..])
  }

  lemma {:induction false} FoldConcat<M, Op>(apply: (M, Op) -> M, m: M, xs: seq<Op>, ys: seq<Op>)
    ensures Fold(apply, m, xs + ys) == Fold(apply, Fold(apply, m, xs), ys)
    decreases |xs|
  {
    if xs == [] {
      Unit(ys);
    } else {
      assert (xs + ys)[1..] == xs[1..] + ys;
      FoldConcat(apply, apply(m, xs[0]), xs[1..], ys);
    }
  }

  lemma FoldOne<M, Op>(apply: (M, Op) -> M, m: M, op: Op)
    ensures Fold(apply, m, [op]) == apply(m, op) && Fold(apply, m, []) == m
  {
    assert [op][1..] == [];
    assert Fold(apply, apply(m, op), []) == apply(m, op);
  }

  lemma FoldStep<M, Op>(apply: (M, Op) -> M, m: M, op: Op, ops: seq<Op>)
    ensures Fold(apply, m, [op] + ops) == Fold(apply, apply(m, op), ops)
  {
    assert ([op] + ops)[1..] == ops;
  }

  /** Decoding `s` from index `i` into `m`: the message left behind, and the error if any. */
  ghost function DecodeFrom<M, Op(!new)>(field: Cursor -> Step<Op>, apply: (M, Op) -> M, s: Slice, i: nat, m: M)
    : (M, Option<Error>)
    requires i <= |s| && Advances(field)
  {
    (Fold(apply, m, Parse(field, s, i).ops), Parse(field, s, i).err)
  }

  ghost function Decode<M, Op(!new)>(field: Cursor -> Step<Op>, apply: (M, Op) -> M, s: Slice, m: M): (M, Option<Error>)
    requires Advances(field)
  {
    DecodeFrom(field, apply, s, 0, m)
  }

  lemma DecodeStep<M, Op(!new)>(field: Cursor -> Step<Op>, apply: (M, Op) -> M, s: Slice, i: nat, m: M)
    requires i < |s| && Advances(field) && field(Cursor(s, i)).Field?
    ensures var f := field(Cursor(s, i));
            1 <= f.len <= |s| - i &&
            DecodeFrom(field, apply, s, i, m) == DecodeFrom(field, apply, s, i + f.len, apply(m, f.op))
  {
    ParseStep(field, s, i);
    var f := field(Cursor(s, i));
    hide Parse, Advances, Fold;
    FoldStep(apply, m, f.op, Parse(field, s, i + f.len).ops);
  }

  lemma DecodeBad<M, Op(!new)>(field: Cursor -> Step<Op>, apply: (M, Op) -> M, s: Slice, i: nat, m: M)
    requires i < |s| && Advances(field) && field(Cursor(s, i)).Bad?
    ensures var f := field(Cursor(s, i));
            DecodeFrom(field, apply, s, i, m) == (apply(m, f.op), Some(f.err))
  {
    ParseBad(field, s, i);
    hide Parse, Advances, Fold;
    FoldOne(apply, m, field(Cursor(s, i)).op);
  }

  lemma DecodeEnd<M, Op(!new)>(field: Cursor -> Step<Op>, apply: (M, Op) -> M, s: Slice, m: M)
    requires Advances(field)
    ensures DecodeFrom(field, apply, s, |s|, m) == (m, None)
  {
    ParseEnd(field, s);
  }

  /** Decoding respects concatenation: after a part that decodes, the rest decodes into its result. */
  lemma DecodeConcat<M, Op(!new)>(field: Cursor -> Step<Op>, apply: (M, Op) -> M, a: Slice, b: Slice, m: M)
    requires Advances(field) && Local(field)
    requires |a| + |b| < TWO_63 && Decode(field, apply, a, m).1.None?
    ensures var (m', _) := Decode(field, apply, a, m);
            && (Decode(field, apply, a + b, m).1.None? <==> Decode(field, apply, b, m').1.None?)
            && (Decode(field, apply, b, m').1.None? ==>
                  Decode(field, apply, a + b, m) == Decode(field, apply, b, m'))
  {
    hide Parse, Local, Advances, Fold;
    ParseConcat(field, a, b);
    FoldConcat(apply, m, Parse(field, a, 0).ops, Parse(field, b, 0).ops);
  }

  lemma DecodeThen<M, Op(!new)>(field: Cursor -> Step<Op>, apply: (M, Op) -> M, a: Bytes, b: Bytes, m: M, m1: M, m2: M)
    requires Advances(field) && Local(field) && |a| + |b| < TWO_63
    requires Decode(field, apply, a, m) == (m1, None) && Decode(field, apply, b, m1) == (m2, None)
    ensures Decode(field, apply, a + b, m) == (m2, None)
  {
    hide Decode, Local, Advances;
    DecodeConcat(field, apply, a, b, m);
  }

  lemma DecodeSingle<M, Op(!new)>(field: Cursor -> Step<Op>, apply: (M, Op) -> M, s: Slice, op: Op, m: M)
    requires Advances(field) && s != [] && field(Cursor(s, 0)) == Field(op, |s|)
    ensures Decode(field, apply, s, m) == (apply(m, op), None)
  {
    hide Parse, Advances;
    ParseSingle(field, s, op);
    FoldOne(apply, m, op);
  }

  lemma DecodeNothing<M, Op(!new)>(field: Cursor -> Step<Op>, apply: (M, Op) -> M, m: M)
    requires Advances(field)
    ensures Decode(field, apply, [], m) == (m, None)
  {
    DecodeEnd(field, apply, [], m);
  }

  /** A field that keeps the message, at any field boundary, changes nothing. */
  lemma UnknownIgnored<M, Op(!new)>(field: Cursor -> Step<Op>, apply: (M, Op) -> M, keep: Op,
                                    a: Slice, u: Slice, b: Slice, m: M)
    requires Advances(field) && Local(field) && |a| + |u| + |b| < TWO_63
    requires u != [] && field(Cursor(u, 0)) == Field(keep, |u|)
    requires Decode(field, apply, a, m).1.None?
    requires var (m', _) := Decode(field, apply, a, m); apply(m', keep) == m'
    ensures Decode(field, apply, a + u + b, m).1.None? <==> Decode(field, apply, a + b, m).1.None?
    ensures Decode(field, apply, a + b, m).1.None? ==>
              Decode(field, apply, a + u + b, m) == Decode(field, apply, a + b, m)
  {
    var (m', _) := Decode(field, apply, a, m);
    DecodeSingle(field, apply, u, keep, m');
    hide Decode, Local, Advances;
    DecodeConcat(field, apply, a, u, m);
    DecodeConcat(field, apply, a + u, b, m);
    DecodeConcat(field, apply, a, b, m);
  }
}
