/** `Fixnum` arithmetic on two Fixnum operands: multiplication with
    promotion to Bignum, floored division and modulo, comparison, shifts,
    bitwise operations on the 64-bit machine word, and printing in a radix.
    A Bignum result is modelled by the unbounded integer it denotes. */
module Fixnums {
  import opened Wrappers
  import opened Bytes
  import Numerals
  import MachineInt

  /** `FIXNUM_WIDTH` on a 64-bit host: two bits of the word are the tag. */
  const Width: nat := 62
  const Max: int := 0x3FFF_FFFF_FFFF_FFFF
  const Min: int := -Max

  predicate InRange(x: int) {
    Min <= x <= Max
  }

  /** An integer result, either still a Fixnum or promoted to a Bignum. */
  datatype Integer = Small(value: int) | Promoted(value: int)

  datatype FixnumError = ZeroDivision | InvalidBase

  function Abs(x: int): nat {
    if x < 0 then -x else x
  }

  /** C's `/` on `native_int`: the quotient truncated toward zero. */
  function TruncDiv(n: int, d: int): int
    requires d != 0
  {
    var q := Abs(n) / Abs(d);
    if (n < 0) == (d < 0) then q else -q
  }

  /** `mul`: the product, kept a Fixnum exactly when it is in range. The
      overflow tests divide the range bound by one operand instead of
      forming the product. */
  function Mul(a: int, b: int): (r: Integer)
    ensures r.value == a * b
  {
    if a == 0 || b == 0 then Small(0)
    else if a > 0 then
      if b > 0 then (if a > TruncDiv(Max, b) then Promoted(a * b) else Small(a * b))
      else (if b < TruncDiv(Min, a) then Promoted(a * b) else Small(a * b))
    else
      if b > 0 then (if a < TruncDiv(Min, b) then Promoted(a * b) else Small(a * b))
      else (if b < TruncDiv(Max, a) then Promoted(a * b) else Small(a * b))
  }

  lemma {:induction false} MulMonotone(x: int, y: int, z: int)
    requires x <= y && 0 <= z
    ensures x * z <= y * z
  {
    assert y * z == x * z + (y - x) * z;
  }

  /** For positive `p` and `q`, `p > bound / q` says exactly that `p * q`
      exceeds `bound`. */
  lemma {:induction false} QuotientBound(p: int, q: int, bound: nat)
    requires p > 0 && q > 0
    ensures p > bound / q <==> p * q > bound
  {
    var m := bound / q;
    var r := bound % q;
    assert bound == m * q + r && r < q;
    if p > m {
      MulMonotone(m + 1, p, q);
      assert (m + 1) * q == m * q + q;
    } else {
      MulMonotone(p, m, q);
    }
  }

  lemma {:induction false} TruncProduct(n: int, d: int)
    requires d != 0
    ensures TruncDiv(n, d) * d == if n < 0 then -(Abs(n) / Abs(d) * Abs(d)) else Abs(n) / Abs(d) * Abs(d)
  {
    var q0: int := Abs(n) / Abs(d);
    var b: int := Abs(d);
    if n >= 0 && d < 0 {
      assert TruncDiv(n, d) * d == (-q0) * (-b);
    } else if n < 0 && d > 0 {
      assert TruncDiv(n, d) * d == (-q0) * b;
    } else if n < 0 && d < 0 {
      assert TruncDiv(n, d) * d == q0 * (-b);
    }
  }

  /** The remainder C's truncating division leaves is smaller than the
      divisor and has the dividend's sign. */
  lemma {:induction false} TruncDivRemainder(n: int, d: int)
    requires d != 0
    ensures var r := n - TruncDiv(n, d) * d;
            Abs(r) < Abs(d) && (r == 0 || (r < 0) == (n < 0))
  {
    var a, b := Abs(n), Abs(d);
    var p := a / b * b;
    assert a == p + a % b;
    TruncProduct(n, d);
  }

  lemma {:induction false} TruncDivZero(n: int, d: int)
    requires d != 0
    ensures TruncDiv(n, d) == 0 <==> Abs(n) < Abs(d)
    ensures TruncDiv(n, d) < 0 <==> (n < 0) != (d < 0) && Abs(n) >= Abs(d)
  {
    var a, b := Abs(n), Abs(d);
    var q0 := a / b;
    assert a == q0 * b + a % b;
    if q0 == 0 {
      assert q0 * b == 0;
    } else {
      MulMonotone(1, q0, b);
    }
  }

  /** `mul` promotes exactly when the product leaves the Fixnum range. */
  lemma {:induction false} MulPromotesExactlyOnOverflow(a: int, b: int)
    ensures Mul(a, b).Small? <==> InRange(a * b)
  {
    if a > 0 && b > 0 {
      QuotientBound(a, b, Max);
    } else if a > 0 && b < 0 {
      QuotientBound(-b, a, Max);
      assert a * b == -((-b) * a);
    } else if a < 0 && b > 0 {
      QuotientBound(-a, b, Max);
      assert a * b == -((-a) * b);
    } else if a < 0 && b < 0 {
      QuotientBound(-b, -a, Max);
      assert a * b == (-b) * (-a);
    }
  }

  /** `div` as written: the truncated quotient, lowered by one only when it
      is negative and inexact. A truncated quotient of zero is never
      lowered. */
  function DivAsWritten(n: int, d: int): (r: Result<int, FixnumError>)
    ensures r.Err? <==> d == 0
  {
    if d == 0 then Err(ZeroDivision)
    else
      var q := TruncDiv(n, d);
      Ok(if q < 0 && q * d != n then q - 1 else q)
  }

  /** `div` with the adjustment applied whenever the operands' signs differ
      and the division is inexact: Ruby's floored quotient. */
  function Div(n: int, d: int): (r: Result<int, FixnumError>)
    ensures r.Err? <==> d == 0
    ensures r.Err? ==> r.error == ZeroDivision
  {
    if d == 0 then Err(ZeroDivision)
    else
      var q := TruncDiv(n, d);
      Ok(if (n < 0) != (d < 0) && q * d != n then q - 1 else q)
  }

  /** `div` is floor division: the remainder it leaves has the divisor's
      sign and is smaller than the divisor. */
  lemma {:induction false} DivIsFloored(n: int, d: int)
    requires d != 0
    ensures var q := Div(n, d).value;
            if d > 0 then 0 <= n - d * q < d else d < n - d * q <= 0
  {
    var t := TruncDiv(n, d);
    TruncDivRemainder(n, d);
    assert t * d == d * t;
    assert d * (t - 1) == d * t - d;
  }

  /** The written `div` differs from floor division exactly when the
      operands' signs differ and the dividend is smaller than the divisor in
      magnitude. */
  lemma {:induction false} DivAsWrittenDiffers(n: int, d: int)
    requires d != 0
    ensures DivAsWritten(n, d) != Div(n, d) <==> n != 0 && Abs(n) < Abs(d) && (n < 0) != (d < 0)
  {
    TruncDivZero(n, d);
    var t := TruncDiv(n, d);
    if t == 0 {
      assert t * d == 0;
    }
  }

  /** `-1 div 2` is 0 as written; Ruby's `-1 / 2` is -1. */
  lemma {:induction false} DivAsWrittenMinusOneByTwo()
    ensures DivAsWritten(-1, 2) == Ok(0)
    ensures Div(-1, 2) == Ok(-1)
    ensures ModAsWritten(-1, 2) == Ok(-1)
    ensures Mod(-1, 2) == Ok(1)
  {
  }

  /** `mod` as written: `n - d * div(n, d)` with the written `div`. */
  function ModAsWritten(n: int, d: int): (r: Result<int, FixnumError>)
    ensures r.Err? <==> d == 0
  {
    var q :- DivAsWritten(n, d);
    Ok(n - d * q)
  }

  /** `mod`: what `div` leaves over. */
  function Mod(n: int, d: int): (r: Result<int, FixnumError>)
    ensures r.Err? <==> d == 0
  {
    var q :- Div(n, d);
    Ok(n - d * q)
  }

  /** The modulo has the divisor's sign and is smaller than it, and it
      recombines with the quotient into the dividend. */
  lemma {:induction false} ModHasDivisorSign(n: int, d: int)
    requires d != 0
    ensures d * Div(n, d).value + Mod(n, d).value == n
    ensures if d > 0 then 0 <= Mod(n, d).value < d else d < Mod(n, d).value <= 0
  {
    DivIsFloored(n, d);
  }

  datatype QuotRem = QuotRem(quot: int, rem: int)

  /** `divmod`: quotient and modulo together, after its own zero check. */
  function DivMod(n: int, d: int): (r: Result<QuotRem, FixnumError>)
    ensures r.Err? <==> d == 0
    ensures r.Ok? ==> r.value.quot == Div(n, d).value && r.value.rem == Mod(n, d).value
  {
    if d == 0 then Err(ZeroDivision)
    else
      var q := Div(n, d).value;
      Ok(QuotRem(q, n - d * q))
  }

  /** `divmod` as written: the written `div` and what it leaves over. */
  function DivModAsWritten(n: int, d: int): (r: Result<QuotRem, FixnumError>)
    ensures r.Err? <==> d == 0
    ensures r.Ok? ==> r.value.quot == DivAsWritten(n, d).value && r.value.rem == ModAsWritten(n, d).value
    ensures r.Ok? ==> d * r.value.quot + r.value.rem == n
  {
    if d == 0 then Err(ZeroDivision)
    else
      var q := DivAsWritten(n, d).value;
      Ok(QuotRem(q, n - d * q))
  }

  /** The written `divmod` parts from the floored one exactly where the
      written `div` does. */
  lemma {:induction false} DivModAsWrittenDiffers(n: int, d: int)
    requires d != 0
    ensures DivModAsWritten(n, d) != DivMod(n, d) <==> n != 0 && Abs(n) < Abs(d) && (n < 0) != (d < 0)
  {
    DivAsWrittenDiffers(n, d);
    if DivAsWritten(n, d) != Div(n, d) {
      assert DivModAsWritten(n, d).value.quot != DivMod(n, d).value.quot;
    }
  }

  /** `-1 divmod 2` is `[0, -1]` as written; Ruby's is `[-1, 1]`. */
  lemma {:induction false} DivModAsWrittenMinusOneByTwo()
    ensures DivModAsWritten(-1, 2) == Ok(QuotRem(0, -1))
    ensures DivMod(-1, 2) == Ok(QuotRem(-1, 1))
  {
    var w, f := DivModAsWritten(-1, 2), DivMod(-1, 2);
    assert w.Ok? && w.value.quot == 0 && w.value.rem == -1;
    assert f.Ok? && f.value.quot == -1 && f.value.rem == 1;
  }

  /** `<=>` between Fixnums. */
  function Compare(left: int, right: int): (r: int)
    ensures r in {-1, 0, 1}
    ensures r == 0 <==> left == right
    ensures r < 0 <==> left < right
  {
    if left == right then 0 else if left < right then -1 else 1
  }

  /** Comparing the other way round flips the sign. */
  lemma {:induction false} CompareAntisymmetric(a: int, b: int)
    ensures Compare(b, a) == -Compare(a, b)
  {
  }

  function Pow2(k: nat): (r: nat)
    ensures r >= 1
  {
    if k == 0 then 1 else 2 * Pow2(k - 1)
  }

  lemma {:induction false} Pow2Add(j: nat, k: nat)
    ensures Pow2(j + k) == Pow2(j) * Pow2(k)
    decreases j
  {
    if j > 0 {
      Pow2Add(j - 1, k);
      assert Pow2(j + k) == 2 * Pow2(j - 1 + k);
      assert 2 * (Pow2(j - 1) * Pow2(k)) == (2 * Pow2(j - 1)) * Pow2(k);
    }
  }

  lemma {:induction false} Pow2Of16()
    ensures Pow2(16) == 0x1_0000
  {
    assert Pow2(2) == 4;
    assert Pow2(4) == 16 by { Pow2Add(2, 2); }
    assert Pow2(8) == 0x100 by { Pow2Add(4, 4); }
    Pow2Add(8, 8);
  }

  lemma {:induction false} Pow2Of64()
    ensures Pow2(64) == 0x1_0000_0000_0000_0000
  {
    assert Pow2(32) == 0x1_0000_0000 by {
      Pow2Of16();
      Pow2Add(16, 16);
    }
    Pow2Add(32, 32);
  }

  /** The powers of two the word layout needs. */
  lemma {:induction false} Pow2Values()
    ensures Pow2(Width) == Max + 1
    ensures Pow2(64) == 0x1_0000_0000_0000_0000
  {
    Pow2Of64();
    assert Pow2(2) == 4;
    Pow2Add(62, 2);
  }

  /** `>>` on a signed word: arithmetic, so it rounds toward minus infinity. */
  function Asr(x: int, k: nat): int {
    x / Pow2(k)
  }

  /** `Fixnum#[](k)`: bit `k` of the two's-complement value. A value
      below `2^k` reads 0 there, and a negative value of at least `-2^k`
      reads 1. */
  function BitReference(n: int, k: nat): (r: int)
    ensures r == 0 || r == 1
    ensures k == 0 ==> r == n % 2
    ensures 0 <= n < Pow2(k) ==> r == 0
    ensures n < 0 && 0 <= n + Pow2(k) ==> r == 1
    decreases k
  {
    if k == 0 then n % 2
    else
      var p: int := Pow2(k - 1);
      assert n < 0 && 0 <= n + 2 * p ==> n / 2 < 0 && 0 <= n / 2 + p by {
        assert n == 2 * (n / 2) + n % 2;
      }
      BitReference(n / 2, k - 1)
  }

  /** Worked case: 36 is `100100` in binary, so bits 2 and 5 are set. */
  lemma {:induction false} BitsOf36()
    ensures BitReference(36, 2) == 1 && BitReference(36, 5) == 1
    ensures BitReference(36, 1) == 0 && BitReference(36, 3) == 0
  {
    assert BitReference(36, 2) == BitReference(9, 0);
    assert BitReference(36, 5) == BitReference(1, 0);
    assert BitReference(36, 1) == BitReference(18, 0);
    assert BitReference(36, 3) == BitReference(4, 0);
  }

  /** `left_shift` for a non-negative amount, as written: the overflow test
      `self >> (FIXNUM_WIDTH - shift) > 0` only catches positive values, and
      a value it lets through is shifted on the 64-bit `native_int`, so a
      result beyond 64 bits wraps around. */
  function LeftShiftAsWritten(x: int, s: nat): (r: Integer)
    ensures r.Promoted? ==> r.value == x * Pow2(s)
    ensures r.Small? ==> s <= Width && -MachineInt.TwoTo63 <= r.value < MachineInt.TwoTo63
                         && (r.value - x * Pow2(s)) % MachineInt.TwoTo64 == 0
    ensures -MachineInt.TwoTo63 <= x * Pow2(s) < MachineInt.TwoTo63 ==> r.value == x * Pow2(s)
  {
    if s > Width || Asr(x, Width - s) > 0 then Promoted(x * Pow2(s))
    else Small(MachineInt.Int64(x * Pow2(s)))
  }

  /** On a non-negative value the written test is the corrected one. */
  lemma {:induction false} LeftShiftAsWrittenAgreesOnNonneg(x: int, s: nat)
    requires x >= 0
    ensures LeftShiftAsWritten(x, s) == LeftShiftNonneg(x, s)
  {
    LeftShiftPromotesExactlyOnOverflow(x, s);
  }

  /** Shifting the smallest Fixnum left by two passes the written test, and
      the 64-bit shift wraps `-2^64 + 4` around to 4. */
  lemma {:induction false} LeftShiftAsWrittenWraps()
    ensures LeftShiftAsWritten(Min, 2) == Small(4)
  {
    Pow2Values();
    Pow2Add(60, 2);
    assert Pow2(2) == 4;
    var p: int := Pow2(60);
    assert p == 0x1000_0000_0000_0000;
    assert Min == -4 * p + 1;
    assert Asr(Min, 60) == -4;
    assert Min * Pow2(2) == -MachineInt.TwoTo64 + 4;
  }

  /** Shifting the smallest Fixnum left by one keeps it a Fixnum as written,
      although the result is out of range. */
  lemma {:induction false} LeftShiftAsWrittenMissesNegativeOverflow()
    ensures LeftShiftAsWritten(Min, 1).Small?
    ensures !InRange(LeftShiftAsWritten(Min, 1).value)
  {
    assert Pow2(1) == 2;
    var p := Pow2(Width - 1);
    assert Min / p < 0;
  }

  /** `left_shift` for a non-negative amount with the overflow test applied
      to the magnitude, so negative values are promoted too. */
  function LeftShiftNonneg(x: int, s: nat): (r: Integer)
    ensures r.value == x * Pow2(s)
  {
    if s > Width || Asr(Abs(x), Width - s) > 0 then Promoted(x * Pow2(s)) else Small(x * Pow2(s))
  }

  /** `right_shift` for a non-negative amount: never overflows, and rounds
      the quotient by `2^s` toward minus infinity. */
  function RightShiftNonneg(x: int, s: nat): (r: Integer)
    ensures r.Small?
    ensures r.value * Pow2(s) <= x < r.value * Pow2(s) + Pow2(s)
  {
    Small(Asr(x, s))
  }

  /** `<<`: a negative amount shifts right instead. */
  function LeftShift(x: int, s: int): (r: Integer)
    ensures s >= 0 ==> r.value == x * Pow2(s)
    ensures s >= 0 ==> (r.Small? <==> InRange(x * Pow2(s)) && (x == 0 ==> s <= Width))
    ensures s < 0 ==> r.Small? && r.value * Pow2(-s) <= x < r.value * Pow2(-s) + Pow2(-s)
  {
    if s < 0 then RightShiftNonneg(x, -s)
    else LeftShiftPromotesExactlyOnOverflow(x, s); LeftShiftNonneg(x, s)
  }

  /** `>>`: a negative amount shifts left instead. */
  function RightShift(x: int, s: int): (r: Integer)
    ensures s >= 0 ==> r.Small? && r.value * Pow2(s) <= x < r.value * Pow2(s) + Pow2(s)
    ensures s < 0 ==> r.value == x * Pow2(-s)
    ensures s < 0 ==> (r.Small? <==> InRange(x * Pow2(-s)) && (x == 0 ==> -s <= Width))
  {
    if s < 0 then LeftShiftPromotesExactlyOnOverflow(x, -s); LeftShiftNonneg(x, -s)
    else RightShiftNonneg(x, s)
  }

  lemma {:induction false} AbsMul(x: int, p: nat)
    ensures Abs(x * p) == Abs(x) * p
  {
    if x < 0 {
      assert x * p == -((-x) * p);
    }
  }

  /** A non-negative `a` is at least `p` exactly when `a / p` is positive. */
  lemma {:induction false} QuotientPositive(a: nat, p: nat)
    requires p > 0
    ensures a / p > 0 <==> a >= p
  {
    var q := a / p;
    assert a == q * p + a % p;
    if q > 0 {
      MulMonotone(1, q, p);
    } else {
      assert q * p == 0;
    }
  }

  /** With `p * sp == 2^62`, `a` reaches `p` exactly when `a * sp` leaves
      the Fixnum range. */
  lemma {:induction false} ScaledBound(a: nat, p: nat, sp: nat)
    requires p * sp == Max + 1 && sp > 0
    ensures a >= p <==> a * sp > Max
  {
    if a >= p {
      MulMonotone(p, a, sp);
    } else {
      MulMonotone(a + 1, p, sp);
      assert (a + 1) * sp == a * sp + sp;
    }
  }

  lemma {:induction false} LeftShiftWithinWidth(x: int, s: nat)
    requires s <= Width
    ensures LeftShiftNonneg(x, s).Small? <==> InRange(x * Pow2(s))
  {
    var a := Abs(x);
    var sp := Pow2(s);
    var k: nat := Width - s;
    var p := Pow2(k);
    assert LeftShiftNonneg(x, s).Small? <==> !(a / p > 0);
    QuotientPositive(a, p);
    Pow2Values();
    Pow2Add(k, s);
    ScaledBound(a, p, sp);
    AbsMul(x, sp);
  }

  lemma {:induction false} LeftShiftBeyondWidth(x: int, s: nat)
    requires s > Width && x != 0
    ensures !InRange(x * Pow2(s))
  {
    var e: nat := s - Width;
    var sp := Pow2(s);
    Pow2Values();
    Pow2Add(Width, e);
    MulMonotone(1, Pow2(e), Pow2(Width));
    MulMonotone(1, Abs(x), sp);
    AbsMul(x, sp);
  }

  /** A left shift stays a Fixnum exactly when the shifted value is in range
      (a zero shifted past the width is promoted with value 0). */
  lemma {:induction false} LeftShiftPromotesExactlyOnOverflow(x: int, s: nat)
    ensures LeftShiftNonneg(x, s).value == x * Pow2(s)
    ensures LeftShiftNonneg(x, s).Small? <==> InRange(x * Pow2(s)) && (x == 0 ==> s <= Width)
  {
    if s <= Width {
      LeftShiftWithinWidth(x, s);
    } else if x != 0 {
      LeftShiftBeyondWidth(x, s);
    }
  }

  lemma {:induction false} MulDivCancel(x: int, p: nat)
    requires p > 0
    ensures (x * p) / p == x
  {
    var q := (x * p) / p;
    var r := (x * p) % p;
    assert x * p == q * p + r && 0 <= r < p;
    assert (x - q) * p == r;
    if x - q >= 1 {
      MulMonotone(1, x - q, p);
    } else if x - q <= -1 {
      MulMonotone(x - q, -1, p);
    }
  }

  /** Shifting left and then right by the same amount gives the value back,
      and a negative amount shifts the other way. */
  lemma {:induction false} ShiftRoundTrip(x: int, s: nat)
    ensures RightShift(LeftShift(x, s).value, s).value == x
    ensures s > 0 ==> LeftShift(x, -(s as int)) == RightShift(x, s)
    ensures s > 0 ==> RightShift(x, -(s as int)) == LeftShift(x, s)
  {
    MulDivCancel(x, Pow2(s));
  }

  /** The 64-bit two's-complement word holding a native integer. */
  predicate IsNative(x: int) {
    -0x8000_0000_0000_0000 <= x < 0x8000_0000_0000_0000
  }

  function ToWord(x: int): (w: nat)
    requires IsNative(x)
    ensures w < 0x1_0000_0000_0000_0000
  {
    if x < 0 then x + 0x1_0000_0000_0000_0000 else x
  }

  function FromWord(w: nat): (r: int)
    requires w < 0x1_0000_0000_0000_0000
    ensures IsNative(r)
    ensures ToWord(r) == w
  {
    if w < 0x8000_0000_0000_0000 then w else w - 0x1_0000_0000_0000_0000
  }

  lemma {:induction false} FromToWord(x: int)
    requires IsNative(x)
    ensures FromWord(ToWord(x)) == x
  {
  }

  datatype BitOp = And | Or | Xor

  function OpBit(op: BitOp, x: nat, y: nat): (r: nat)
    requires x < 2 && y < 2
  {
    match op
    case And => if x == 1 && y == 1 then 1 else 0
    case Or => if x == 1 || y == 1 then 1 else 0
    case Xor => if x != y then 1 else 0
  }

  /** `op` applied bit by bit to the low `k` bits of `a` and `b`. */
  function Bitwise(op: BitOp, a: nat, b: nat, k: nat): (r: nat)
    ensures r < Pow2(k)
    decreases k
  {
    if k == 0 then 0 else 2 * Bitwise(op, a / 2, b / 2, k - 1) + OpBit(op, a % 2, b % 2)
  }

  /** The low `k` bits of `a`, each flipped. */
  function Complement(a: nat, k: nat): (r: nat)
    ensures r < Pow2(k)
    decreases k
  {
    if k == 0 then 0 else 2 * Complement(a / 2, k - 1) + (1 - a % 2)
  }

  /** Flipping every bit of a `k`-bit value subtracts it from `2^k - 1`. */
  lemma {:induction false} ComplementValue(a: nat, k: nat)
    requires a < Pow2(k)
    ensures Complement(a, k) == Pow2(k) - 1 - a
    decreases k
  {
    if k > 0 {
      ComplementValue(a / 2, k - 1);
    }
  }

  /** Bitwise laws on `k`-bit values: `^ b` twice is the identity, `&` and
      `|` are idempotent, and De Morgan's law relates `&`, `|` and
      complement. */
  lemma {:induction false} BitwiseLaws(a: nat, b: nat, k: nat)
    requires a < Pow2(k)
    ensures Bitwise(Xor, Bitwise(Xor, a, b, k), b, k) == a
    ensures Bitwise(And, a, a, k) == a && Bitwise(Or, a, a, k) == a
    ensures Complement(Bitwise(And, a, b, k), k) == Bitwise(Or, Complement(a, k), Complement(b, k), k)
    decreases k
  {
    if k > 0 {
      BitwiseLaws(a / 2, b / 2, k - 1);
      var x := Bitwise(Xor, a, b, k);
      assert x / 2 == Bitwise(Xor, a / 2, b / 2, k - 1) && x % 2 == OpBit(Xor, a % 2, b % 2);
      var n := Bitwise(And, a, b, k);
      assert n / 2 == Bitwise(And, a / 2, b / 2, k - 1) && n % 2 == OpBit(And, a % 2, b % 2);
      var ca, cb := Complement(a, k), Complement(b, k);
      assert ca / 2 == Complement(a / 2, k - 1) && ca % 2 == 1 - a % 2;
      assert cb / 2 == Complement(b / 2, k - 1) && cb % 2 == 1 - b % 2;
    }
  }

  /** On `k`-bit values, `&` is at most either operand, `|` at least
      either, and `^` is zero exactly on equal operands. */
  lemma {:induction false} BitwiseBounds(a: nat, b: nat, k: nat)
    requires a < Pow2(k) && b < Pow2(k)
    ensures Bitwise(And, a, b, k) <= a && Bitwise(And, a, b, k) <= b
    ensures a <= Bitwise(Or, a, b, k) && b <= Bitwise(Or, a, b, k)
    ensures Bitwise(Xor, a, b, k) == 0 <==> a == b
    decreases k
  {
    if k > 0 {
      BitwiseBounds(a / 2, b / 2, k - 1);
    }
  }

  /** The word of `~x`, read back, is `-x - 1`. */
  lemma {:induction false} ComplementWord(a: int)
    requires IsNative(a)
    ensures Pow2(64) == 0x1_0000_0000_0000_0000
    ensures FromWord(Complement(ToWord(a), 64)) == -a - 1
  {
    Pow2Values();
    var w := ToWord(a);
    var c := Complement(w, 64);
    assert c == 0xFFFF_FFFF_FFFF_FFFF - w by {
      ComplementValue(w, 64);
    }
    if a >= 0 {
      assert FromWord(c) == c as int - 0x1_0000_0000_0000_0000;
    } else {
      assert FromWord(c) == c;
    }
  }

  /** `&`, `|`, `^` and `~` on the 64-bit words of native integers. A
      non-negative operand bounds `&` from above; a negative operand makes
      `|` negative and bounds it from below. */
  function BitAnd(a: int, b: int): (r: int)
    requires IsNative(a) && IsNative(b)
    ensures IsNative(r)
    ensures a >= 0 ==> 0 <= r <= a
    ensures b >= 0 ==> 0 <= r <= b
  {
    Pow2Values();
    BitwiseBounds(ToWord(a), ToWord(b), 64);
    FromWord(Bitwise(And, ToWord(a), ToWord(b), 64))
  }

  function BitOr(a: int, b: int): (r: int)
    requires IsNative(a) && IsNative(b)
    ensures IsNative(r)
    ensures a < 0 ==> a <= r < 0
    ensures b < 0 ==> b <= r < 0
  {
    Pow2Values();
    BitwiseBounds(ToWord(a), ToWord(b), 64);
    FromWord(Bitwise(Or, ToWord(a), ToWord(b), 64))
  }

  /** `^` is zero exactly on equal operands. */
  function BitXor(a: int, b: int): (r: int)
    requires IsNative(a) && IsNative(b)
    ensures IsNative(r)
    ensures r == 0 <==> a == b
  {
    Pow2Values();
    BitwiseBounds(ToWord(a), ToWord(b), 64);
    FromToWord(a);
    FromToWord(b);
    FromWord(Bitwise(Xor, ToWord(a), ToWord(b), 64))
  }

  /** `~x` is `-x - 1`. */
  function Invert(a: int): (r: int)
    requires IsNative(a)
    ensures IsNative(r)
    ensures r == -a - 1
  {
    ComplementWord(a);
    FromWord(Complement(ToWord(a), 64))
  }

  /** `x ^ y ^ y` is `x`; `x & x` and `x | x` are `x`; De Morgan's law
      relates `&`, `|` and `~`. */
  lemma {:induction false} BitOpsLaws(a: int, b: int)
    requires IsNative(a) && IsNative(b)
    ensures BitXor(BitXor(a, b), b) == a
    ensures BitAnd(a, a) == a && BitOr(a, a) == a
    ensures Invert(BitAnd(a, b)) == BitOr(Invert(a), Invert(b))
  {
    Pow2Values();
    BitwiseLaws(ToWord(a), ToWord(b), 64);
    FromToWord(a);
  }

  lemma {:induction false} SmallQuotient(n: nat, base: nat)
    requires n < base
    ensures n / base == 0 && n % base == n
  {
  }

  /** `to_s(base)`: the digits of the magnitude, produced least significant
      first into a buffer filled from its end, and a leading `-`. */
  method ToS(k: int, base: int) returns (r: Result<seq<Byte>, FixnumError>)
    ensures r.Err? <==> base < 2 || base > 36
    ensures r.Err? ==> r.error == InvalidBase
    ensures r.Ok? ==> r.value == Numerals.Signed(k, base)
  {
    if base < 2 || base > 36 {
      return Err(InvalidBase);
    }
    if k == 0 {
      return Ok([Numerals.Zero]);
    }
    var mag: nat := Abs(k);
    var n: nat := mag;
    var buf: seq<Byte> := [];
    ghost var ds: seq<nat> := [];
    while n > 0
      invariant n > 0 ==> Numerals.Digits(mag, base) == Numerals.Digits(n, base) + ds
      invariant n == 0 ==> Numerals.Digits(mag, base) == ds
      invariant |buf| == |ds| && forall i :: 0 <= i < |ds| ==> ds[i] < base && buf[i] == Numerals.DigitChar(ds[i])
      decreases n
    {
      var d := n % base;
      var q := n / base;
      if n >= base {
        Numerals.LastDigit(n, base);
        Numerals.QuotientSmaller(n, base);
        assert Numerals.Digits(n, base) == Numerals.Digits(q, base) + [d];
        assert Numerals.Digits(q, base) + [d] + ds == Numerals.Digits(q, base) + ([d] + ds);
      } else {
        SmallQuotient(n, base);
      }
      buf := [Numerals.DigitChar(d)] + buf;
      ds := [d] + ds;
      n := q;
    }
    assert buf == Numerals.Numeral(mag, base);
    if k < 0 {
      buf := [Numerals.Minus] + buf;
    }
    return Ok(buf);
  }
}
