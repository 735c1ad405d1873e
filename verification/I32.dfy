/** Strict-trapping 32-bit arithmetic: the one definition every execution tier shares. */
module I32 {
  const I32_MIN: int := -0x8000_0000
  const I32_MAX: int := 0x7fff_ffff

  type i32 = x: int | I32_MIN <= x <= I32_MAX

  datatype TrapKind =
    | IntegerOverflow
    | DivisionByZero
    | LoopExceeded       // the liveness cap on loop back-edges
    | UnknownOpcode      // corrupt bytecode only
    | TypeError          // corrupt bytecode only: BigInt(undefined)

  datatype I32Result = Ok(value: i32) | Trap(kind: TrapKind)

  /** JavaScript's `x | 0` on an integral number. */
  function ToInt32(x: int): (r: i32)
    ensures (r - x) % 0x1_0000_0000 == 0
    ensures I32_MIN <= x <= I32_MAX ==> r == x
  {
    var m := x % 0x1_0000_0000;
    if m > I32_MAX then m - 0x1_0000_0000 else m
  }

  function InRange(x: int): I32Result {
    if x < I32_MIN || x > I32_MAX then Trap(IntegerOverflow) else Ok(ToInt32(x))
  }

  function AddChecked(a: i32, b: i32): I32Result { InRange(a + b) }

  function SubChecked(a: i32, b: i32): I32Result { InRange(a - b) }

  function MulChecked(a: i32, b: i32): I32Result {
    if -46340 <= a <= 46340 && -46340 <= b <= 46340 then Ok(ToInt32(a * b)) else InRange(a * b)
  }

  function Abs(a: int): nat { if a < 0 then -a else a }

  /** Quotient and remainder of natural numbers, by repeated subtraction. */
  function DivMod(x: nat, y: nat): (qr: (nat, nat))
    requires y > 0
    ensures x == qr.0 * y + qr.1 && qr.1 < y
    ensures qr.0 <= x && (y >= 2 ==> 2 * qr.0 <= x)
  {
    if x < y then (0, x) else var (q, r) := DivMod(x - y, y); (q + 1, r)
  }

  /** Quotient rounded toward zero, as `Math.trunc(a / b)`. */
  function TruncDiv(a: int, b: int): int
    requires b != 0
  {
    var q: int := DivMod(Abs(a), Abs(b)).0;
    if (a >= 0) == (b > 0) then q else -q
  }

  /** Remainder with the sign of the dividend, as JavaScript's `%`. */
  function TruncRem(a: int, b: int): int
    requires b != 0
  {
    var r: int := DivMod(Abs(a), Abs(b)).1;
    if a >= 0 then r else -r
  }

  function DivChecked(a: i32, b: i32): I32Result {
    if b == 0 then Trap(DivisionByZero)
    else if a == I32_MIN && b == -1 then Trap(IntegerOverflow)
    else Ok(ToInt32(TruncDiv(a, b)))
  }

  function ModChecked(a: i32, b: i32): I32Result {
    if b == 0 then Trap(DivisionByZero) else Ok(ToInt32(TruncRem(a, b)))
  }

  function NegChecked(a: i32): I32Result { SubChecked(0, a) }

  /** The multiply fast path never hides an overflow: each checked operation yields the exact
      integer when that fits 32 bits and traps otherwise. */
  lemma CheckedOpsAreExactOrTrap(a: i32, b: i32)
    ensures NegChecked(a) == if a == I32_MIN then Trap(IntegerOverflow) else Ok(-a)
    ensures AddChecked(a, b) == if I32_MIN <= a + b <= I32_MAX then Ok(a + b) else Trap(IntegerOverflow)
    ensures SubChecked(a, b) == if I32_MIN <= a - b <= I32_MAX then Ok(a - b) else Trap(IntegerOverflow)
    ensures MulChecked(a, b) == if I32_MIN <= a * b <= I32_MAX then Ok(a * b) else Trap(IntegerOverflow)
  {
    if -46340 <= a <= 46340 && -46340 <= b <= 46340 {
      MulBound(a, b, 46340);
    }
  }

  lemma MulBound(a: int, b: int, k: int)
    requires -k <= a <= k && -k <= b <= k
    ensures -(k * k) <= a * b <= k * k
  {
    if a >= 0 {
      MulMonotone(a, b, k);
      MulMonotone(a, -k, b);
      MulMonotone(k, a, k);
    } else {
      MulMonotone(-a, b, k);
      MulMonotone(-a, -k, b);
      MulMonotone(k, -a, k);
    }
  }

  lemma MulMonotone(a: int, x: int, y: int)
    requires 0 <= a && x <= y
    ensures a * x <= a * y
  {
  }

  /** Division traps exactly on a zero divisor and on -2^31 / -1, remainder only on the former. */
  lemma DivModTraps(a: i32, b: i32)
    ensures DivChecked(a, b) == if b == 0 then Trap(DivisionByZero)
                                else if a == I32_MIN && b == -1 then Trap(IntegerOverflow)
                                else Ok(TruncDiv(a, b))
    ensures ModChecked(a, b) == if b == 0 then Trap(DivisionByZero) else Ok(TruncRem(a, b))
  {
    if b != 0 {
      var qr := DivMod(Abs(a), Abs(b));
    }
  }

  /** The two satisfy the truncated division law. */
  lemma DivModLaw(a: int, b: int)
    requires b != 0
    ensures a == TruncDiv(a, b) * b + TruncRem(a, b)
    ensures Abs(TruncRem(a, b)) < Abs(b)
    ensures TruncRem(a, b) != 0 ==> (TruncRem(a, b) > 0) == (a > 0)
  {
    var (q, r) := DivMod(Abs(a), Abs(b));
    Resign(a, b, TruncDiv(a, b), TruncRem(a, b), q, r);
  }

  lemma Resign(a: int, b: int, sq: int, sr: int, q: nat, r: nat)
    requires b != 0 && Abs(a) == q * Abs(b) + r
    requires sq == if (a >= 0) == (b > 0) then q else 0 - q
    requires sr == if a >= 0 then r else 0 - r
    ensures a == sq * b + sr
  {
    assert sq * b == if a >= 0 then q * Abs(b) else 0 - q * Abs(b);
  }
}
