/** The machine arithmetic the codec relies on: bytes, 64-bit unsigned words, and Go's
    64-bit signed `int`, whose additions wrap around. */
module Machine {

  const TWO_31: int := 0x8000_0000
  const TWO_32: int := 0x1_0000_0000
  const TWO_63: int := 0x8000_0000_0000_0000
  const TWO_64: int := 0x1_0000_0000_0000_0000

  type Byte = x: int | 0 <= x < 256
  type U64 = x: int | 0 <= x < TWO_64
  type Bytes = seq<Byte>

  /** What a Go slice can hold: its length is an `int`. */
  type Slice = s: Bytes | |s| < TWO_63

  datatype Option<+T> = None | Some(value: T)

  datatype Result<+T, +E> = Ok(value: T) | Err(error: E)

  /** The errors that the generated decoders return. */
  datatype Error =
    | IntOverflow
    | UnexpectedEOF
    | InvalidLength
    | UnexpectedEndOfGroup
    | IllegalWireType(wireType: int)
    | EndGroupForNonGroup
    | IllegalTag(fieldNum: int, wire: U64)
    | WrongWireType(wireType: int, fieldNum: int)

  lemma Assoc<T>(a: seq<T>, b: seq<T>, c: seq<T>)
    ensures a + (b + c) == (a + b) + c
  {
  }

  lemma Unit<T>(a: seq<T>)
    ensures a + [] == a && [] + a == a
  {
  }

  /** A mathematical integer reduced to Go's 64-bit `int`. */
  function WrapInt(x: int): (r: int)
    ensures -TWO_63 <= r < TWO_63
    ensures -TWO_63 <= x < TWO_63 ==> r == x
    ensures TWO_63 <= x < TWO_64 ==> r == x - TWO_64
  {
    (x + TWO_63) % TWO_64 - TWO_63
  }

  /** An unsigned sum reduced to 64 bits. */
  function WrapWord(x: nat): U64 {
    x % TWO_64
  }

  /** Go's `int32(x)` of an unsigned word. */
  function AsInt32(x: nat): int {
    var m := x % TWO_32;
    if m < TWO_31 then m else m - TWO_32
  }

  function Pow2(n: nat): (p: nat)
    ensures p > 0
  {
    if n == 0 then 1 else 2 * Pow2(n - 1)
  }

  lemma {:induction false} Pow2Add(m: nat, n: nat)
    ensures Pow2(m + n) == Pow2(m) * Pow2(n)
  {
    if m == 0 {
    } else {
      Pow2Add(m - 1, n);
    }
  }

  lemma {:induction false} Pow2Monotone(m: nat, n: nat)
    requires m <= n
    ensures Pow2(m) <= Pow2(n)
  {
    if m == n {
    } else {
      Pow2Monotone(m, n - 1);
    }
  }

  lemma Pow2One()
    ensures Pow2(1) == 2
  {
  }

  lemma Pow2Words()
    ensures Pow2(7) == 128 && Pow2(63) == TWO_63 && Pow2(64) == TWO_64 && Pow2(70) == 64 * TWO_64
  {
    assert Pow2(7) == 128;
    hide Pow2;
    Pow2Add(7, 7);
    Pow2Add(14, 14);
    Pow2Add(28, 28);
    Pow2Add(56, 7);
    assert Pow2(1) == 2 by {
      Pow2One();
    }
    Pow2Add(63, 1);
    Pow2Add(63, 7);
  }

  // ---------- Bitwise or ----------

  function Or(a: nat, b: nat): nat {
    if a == 0 then b
    else 2 * Or(a / 2, b / 2) + if a % 2 == 1 || b % 2 == 1 then 1 else 0
  }

  /** Or-ing what lies below bit `shift` with what has been shifted past it is an addition. */
  lemma {:induction false} OrIsPlus(acc: nat, x: nat, shift: nat)
    requires acc < Pow2(shift)
    ensures Or(acc, x * Pow2(shift)) == acc + x * Pow2(shift)
    decreases shift
  {
    if shift == 0 {
      assert acc == 0;
    } else {
      var y := x * Pow2(shift - 1);
      assert x * Pow2(shift) == 2 * y;
      OrIsPlus(acc / 2, x, shift - 1);
    }
  }

  /** Reducing to 64 bits what is shifted by `p` drops the digits from `q` on. */
  lemma ShiftDrops(x: nat, p: nat, q: nat)
    requires p > 0 && q > 0 && p * q == TWO_64
    ensures x * p % TWO_64 == x % q * p <= TWO_64 - p
  {
    var n, y := x / q, x % q;
    assert x * p == n * TWO_64 + y * p by {
      assert x == n * q + y;
      assert (n * q + y) * p == n * (p * q) + y * p;
    }
    assert y * p <= (q - 1) * p;
    assert (q - 1) * p == TWO_64 - p;
    Remainder(x * p, n, y * p);
  }

  lemma Remainder(x: nat, n: nat, r: nat)
    requires x == n * TWO_64 + r && r < TWO_64
    ensures x % TWO_64 == r
  {
  }

  /** `acc | uint64(b & 0x7F) << shift` on 64-bit words. */
  function OrShifted(acc: U64, b: Byte, shift: nat): (r: U64)
    requires shift < 64 && acc < Pow2(shift)
    ensures r == (acc + b % 128 * Pow2(shift)) % TWO_64
  {
    OrShiftedAdds(acc, b % 128, shift);
    Or(acc, b % 128 * Pow2(shift) % TWO_64)
  }

  lemma OrShiftedAdds(acc: U64, x: nat, shift: nat)
    requires shift < 64 && acc < Pow2(shift)
    ensures Or(acc, x * Pow2(shift) % TWO_64) == (acc + x * Pow2(shift)) % TWO_64
  {
    hide Pow2, Or;
    OrDrops(acc, x, shift);
    SumDrops(acc, x * Pow2(shift), x * Pow2(shift) % TWO_64);
  }

  lemma OrDrops(acc: U64, x: nat, shift: nat)
    requires shift < 64 && acc < Pow2(shift)
    ensures var r := x * Pow2(shift) % TWO_64; Or(acc, r) == acc + r < TWO_64
  {
    hide Pow2, Or;
    PowersOfWord(shift);
    ShiftDrops(x, Pow2(shift), Pow2(64 - shift));
    OrIsPlus(acc, x % Pow2(64 - shift), shift);
  }

  lemma PowersOfWord(shift: nat)
    requires shift < 64
    ensures Pow2(shift) * Pow2(64 - shift) == TWO_64
  {
    hide Pow2;
    Pow2Add(shift, 64 - shift);
    Pow2Words();
  }

  lemma SumDrops(acc: nat, y: nat, r: nat)
    requires r == y % TWO_64 && acc + r < TWO_64
    ensures (acc + y) % TWO_64 == acc + r
  {
  }
}
