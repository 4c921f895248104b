/** Machine words as natural numbers, with the bitwise operations spelled out bit by bit. */
module Words {

  type Byte = n: nat | n < 0x100

  function Pow2(n: nat): (p: nat)
    ensures p > 0
  {
    if n == 0 then 1 else 2 * Pow2(n - 1)
  }

  /** The bitwise operators of C++ and ARM that act on two words; `Bic` is "and not". */
  datatype BitOp = And | Or | Xor | Bic {
    function Apply(a: nat, b: nat): (c: nat)
      requires a < 2 && b < 2
      ensures c < 2
    {
      match this
      case And => if a == 1 && b == 1 then 1 else 0
      case Or => if a == 1 || b == 1 then 1 else 0
      case Xor => if a != b then 1 else 0
      case Bic => if a == 1 && b == 0 then 1 else 0
    }
  }

  function Bitwise(op: BitOp, x: nat, y: nat): nat
    decreases x + y
  {
    if x == 0 && y == 0 then 0
    else 2 * Bitwise(op, x / 2, y / 2) + op.Apply(x % 2, y % 2)
  }

  /** Right shift, one place at a time. */
  function Shr(x: nat, k: nat): nat {
    if k == 0 then x else Shr(x / 2, k - 1)
  }

  /** Left shift without loss of bits, one place at a time. */
  function Scale(x: nat, k: nat): nat {
    if k == 0 then x else 2 * Scale(x, k - 1)
  }

  /** Left shift in a word of `width` bits. */
  function Shl(x: nat, k: nat, width: nat): nat {
    Low(Scale(x, k), width)
  }

  /** The low `k` bits: what is left of a word after conversion to a `k`-bit type. */
  function Low(x: nat, k: nat): nat {
    if k == 0 then 0 else 2 * Low(x / 2, k - 1) + x % 2
  }

  /** One's complement in a word of `width` bits. */
  function Not(x: nat, width: nat): nat
    requires x < Pow2(width)
  {
    Pow2(width) - 1 - x
  }

  // ---- Arithmetic of powers of two ----

  lemma {:induction false} Pow2Add(a: nat, b: nat)
    ensures Pow2(a + b) == Pow2(a) * Pow2(b)
  {
    if a == 0 {
    } else {
      Pow2Add(a - 1, b);
    }
  }

  lemma {:induction false} Pow2Mono(a: nat, b: nat)
    requires a <= b
    ensures Pow2(a) <= Pow2(b)
    decreases b
  {
    if a == b {
    } else {
      Pow2Mono(a, b - 1);
    }
  }

  lemma Pow2Of31()
    ensures Pow2(31) == 0x8000_0000
  {
    assert Pow2(11) == 2048;
    assert Pow2(21) == 0x20_0000;
  }

  lemma StrictPow2(a: nat, b: nat)
    requires a < b
    ensures 2 * Pow2(a) <= Pow2(b)
  {
    Pow2Mono(a + 1, b);
  }

  lemma MulAtLeast(d: int, m: int)
    requires d >= 1 && m > 0
    ensures d * m >= m
  {
  }

  lemma DivModSplit(x: int, m: int)
    requires m > 0
    ensures x == (x / m) * m + x % m
  {
  }

  lemma Distribute(a: int, b: int, m: int)
    ensures (a + b) * m == a * m + b * m
    ensures (a - b) * m == a * m - b * m
  {
  }

  lemma DivModUnique(q: int, m: int, r: int)
    requires 0 <= r < m
    ensures (q * m + r) / m == q
    ensures (q * m + r) % m == r
  {
    var x := q * m + r;
    var p, s := x / m, x % m;
    assert x == p * m + s;
    Distribute(p, q, m);
    if p > q {
      MulAtLeast(p - q, m);
      assert false;
    }
    if p < q {
      Distribute(q, p, m);
      MulAtLeast(q - p, m);
      assert false;
    }
  }

  /** Whole multiples of the divisor pass through division and vanish from the remainder. */
  lemma DivModShift(q: int, m: int, r: int)
    requires m > 0
    ensures (q * m + r) / m == q + r / m
    ensures (q * m + r) % m == r % m
  {
    var p, s := r / m, r % m;
    assert r == p * m + s;
    Distribute(q, p, m);
    DivModUnique(q + p, m, s);
  }

  lemma MultipleMod(q: int, m: int)
    requires m > 0
    ensures (q * m) % m == 0
    ensures (0 - q * m) % m == 0
  {
    DivModUnique(q, m, 0);
    DivModUnique(-q, m, 0);
  }

  /** Division and remainder by a product, one factor at a time. */
  lemma DivModProduct(x: int, a: int, b: int)
    requires a > 0 && b > 0
    ensures a * b > 0
    ensures x / (a * b) == x / a / b
    ensures x % (a * b) == (x / a % b) * a + x % a
  {
    var y, r := x / a, x % a;
    var z, t := y / b, y % b;
    assert x == y * a + r;
    assert y == z * b + t;
    Distribute(z * b, t, a);
    assert (z * b) * a == z * (a * b);
    ProductRemainder(t, r, a, b);
    DivModUnique(z, a * b, t * a + r);
  }

  lemma ProductRemainder(t: int, r: int, a: int, b: int)
    requires 0 <= r < a && 0 <= t < b
    ensures 0 <= t * a + r < a * b
  {
    Distribute(b - t, t, a);
    MulAtLeast(b - t, a);
  }

  lemma ModMod(x: int, a: nat, b: nat)
    requires a <= b
    ensures x % Pow2(b) % Pow2(a) == x % Pow2(a)
  {
    Pow2Add(a, b - a);
    DivModProduct(x, Pow2(a), Pow2(b - a));
    DivModUnique(x / Pow2(a) % Pow2(b - a), Pow2(a), x % Pow2(a));
  }

  /** A multiple of 2^a, divided or reduced by a higher power of two. */
  lemma ScaledDivMod(x: int, a: nat, b: nat)
    ensures (x * Pow2(a)) / Pow2(a + b) == x / Pow2(b)
    ensures (x * Pow2(a)) % Pow2(a + b) == (x % Pow2(b)) * Pow2(a)
  {
    Pow2Add(a, b);
    DivModUnique(x, Pow2(a), 0);
    DivModProduct(x * Pow2(a), Pow2(a), Pow2(b));
  }

  lemma NegMod(x: int, m: int)
    requires m > 0
    ensures (-(x % m)) % m == (-x) % m
  {
    var q, r := x / m, x % m;
    assert x == q * m + r;
    assert -x == (-q) * m + -r;
    DivModShift(-q, m, -r);
  }

  lemma AddMod(x: int, y: int, m: int)
    requires m > 0
    ensures (x % m + y) % m == (x + y) % m
  {
    var q, r := x / m, x % m;
    assert x + y == q * m + (r + y);
    DivModShift(q, m, r + y);
  }

  lemma ResidueUnique(n: int, m: int, r: int)
    requires 0 <= r < m
    ensures r == n % m <==> exists k: int :: n == k * m + r
  {
    if r == n % m {
      assert n == (n / m) * m + r;
    }
    forall k: int | n == k * m + r ensures r == n % m {
      DivModUnique(k, m, r);
    }
  }

  /** Two's complement: inverting and adding one negates modulo the word size. */
  lemma InvertPlusOne(x: int, width: nat)
    requires 0 <= x < Pow2(width)
    ensures (Not(x, width) + 1) % Pow2(width) == (-x) % Pow2(width)
  {
    DivModShift(1, Pow2(width), -x);
  }

  // ---- Shifts and bitwise operations seen as arithmetic ----

  lemma {:induction false} ScaleIsMul(x: nat, k: nat)
    ensures Scale(x, k) == x * Pow2(k)
  {
    if k == 0 {
    } else {
      ScaleIsMul(x, k - 1);
    }
  }

  lemma {:induction false} ShrLowSplit(x: nat, k: nat)
    ensures Low(x, k) < Pow2(k)
    ensures x == Scale(Shr(x, k), k) + Low(x, k)
  {
    if k == 0 {
    } else {
      ShrLowSplit(x / 2, k - 1);
    }
  }

  /** Shifting a field up and adding lower bits is undone by taking the word apart. */
  lemma {:induction false} JoinSplit(high: nat, low: nat, k: nat, width: nat)
    requires low < Pow2(k)
    ensures high < Pow2(width) ==> Scale(high, k) + low < Pow2(k + width)
    ensures Shr(Scale(high, k) + low, k) == high
    ensures Low(Scale(high, k) + low, k) == low
  {
    if k == 0 {
    } else {
      JoinSplit(high, low / 2, k - 1, width);
      assert (Scale(high, k) + low) / 2 == Scale(high, k - 1) + low / 2;
    }
  }

  lemma {:induction false} ShrOfScale(x: nat, k: nat)
    ensures Shr(Scale(x, k), k) == x
  {
    if k == 0 {
    } else {
      ShrOfScale(x, k - 1);
    }
  }

  lemma {:induction false} ShrOfLow(x: nat, k: nat, width: nat)
    ensures Shr(Low(x, k + width), k) == Low(Shr(x, k), width)
  {
    if k == 0 {
    } else {
      ShrOfLow(x / 2, k - 1, width);
      assert Low(x, k + width) / 2 == Low(x / 2, k - 1 + width);
    }
  }

  lemma {:induction false} ShrToZero(x: nat, k: nat, width: nat)
    requires x < Pow2(width) && width <= k
    ensures Shr(x, k) == 0
  {
    if k == 0 {
    } else if width == 0 {
      ShrToZero(0, k - 1, 0);
    } else {
      ShrToZero(x / 2, k - 1, width - 1);
    }
  }

  lemma {:induction false} LowIgnoresHigher(x: nat, k: nat, bit: nat)
    requires k <= bit
    ensures Low(Pow2(bit) + x, k) == Low(x, k)
  {
    if k == 0 {
    } else {
      LowIgnoresHigher(x / 2, k - 1, bit - 1);
      assert (Pow2(bit) + x) / 2 == Pow2(bit - 1) + x / 2;
    }
  }

  /** The position of the leading bit. */
  function Log2(n: nat): (e: nat)
    requires n > 0
    ensures Pow2(e) <= n < 2 * Pow2(e)
  {
    if n == 1 then 0 else 1 + Log2(n / 2)
  }

  lemma {:induction false} LowOfScale(x: nat, k: nat, width: nat)
    ensures Low(Scale(x, k), k + width) == Scale(Low(x, width), k)
  {
    if k == 0 {
    } else {
      LowOfScale(x, k - 1, width);
      assert Scale(x, k) == 2 * Scale(x, k - 1);
    }
  }

  lemma {:induction false} LowOfScaleZero(x: nat, k: nat, width: nat)
    requires width <= k
    ensures Low(Scale(x, k), width) == 0
  {
    if width == 0 {
    } else {
      LowOfScaleZero(x, k - 1, width - 1);
    }
  }

  lemma {:induction false} ShrOfScaled(x: nat, a: nat, b: nat)
    ensures Shr(Scale(x, a + b), b) == Scale(x, a)
  {
    if b == 0 {
    } else {
      ShrOfScaled(x, a, b - 1);
    }
  }

  /** Shifting right drops the part of a sum that lies below a field, except for what it carries itself. */
  lemma {:induction false} ShrOfJoin(high: nat, low: nat, a: nat, b: nat)
    ensures Shr(Scale(high, a + b) + low, b) == Scale(high, a) + Shr(low, b)
  {
    if b == 0 {
    } else {
      ShrOfJoin(high, low / 2, a, b - 1);
      assert (Scale(high, a + b) + low) / 2 == Scale(high, a + b - 1) + low / 2;
    }
  }

  lemma {:induction false} LowOfJoin(high: nat, low: nat, k: nat, width: nat)
    requires low < Pow2(k)
    ensures Low(Scale(high, k) + low, k + width) == Scale(Low(high, width), k) + low
  {
    if k == 0 {
    } else {
      LowOfJoin(high, low / 2, k - 1, width);
      assert (Scale(high, k) + low) / 2 == Scale(high, k - 1) + low / 2;
    }
  }

  /** What lies above the cut has no influence on the low bits. */
  lemma {:induction false} LowOfHigherSum(high: nat, k: nat, x: nat, width: nat)
    requires width <= k
    ensures Low(Scale(high, k) + x, width) == Low(x, width)
  {
    if width == 0 {
    } else {
      LowOfHigherSum(high, k - 1, x / 2, width - 1);
      assert (Scale(high, k) + x) / 2 == Scale(high, k - 1) + x / 2;
    }
  }

  lemma {:induction false} LowSplit(x: nat, a: nat, b: nat)
    ensures Low(x, a + b) == Scale(Low(Shr(x, a), b), a) + Low(x, a)
  {
    if a == 0 {
    } else {
      LowSplit(x / 2, a - 1, b);
    }
  }

  lemma {:induction false} LowSmall(x: nat, k: nat)
    requires x < Pow2(k)
    ensures Low(x, k) == x
  {
    if k == 0 {
    } else {
      LowSmall(x / 2, k - 1);
    }
  }

  /** Adding one touches the upper bits only when the lower ones are exhausted. */
  lemma {:induction false} Increment(x: nat, k: nat)
    ensures Low(x, k) + 1 < Pow2(k) ==> Shr(x + 1, k) == Shr(x, k) && Low(x + 1, k) == Low(x, k) + 1
    ensures Low(x, k) + 1 == Pow2(k) ==> Shr(x + 1, k) == Shr(x, k) + 1 && Low(x + 1, k) == 0
  {
    if k == 0 {
    } else {
      Increment(x / 2, k - 1);
      if x % 2 == 1 {
        assert (x + 1) / 2 == x / 2 + 1;
      }
    }
  }

  /** Scaling moves the leading bit, and so does shifting back. */
  lemma {:induction false} ScaleRange(x: nat, k: nat, width: nat)
    requires Pow2(width) <= x < 2 * Pow2(width)
    ensures Pow2(k + width) <= Scale(x, k) < 2 * Pow2(k + width)
  {
    if k == 0 {
    } else {
      ScaleRange(x, k - 1, width);
    }
  }

  lemma {:induction false} ShrRange(x: nat, k: nat, width: nat)
    requires Pow2(k + width) <= x < 2 * Pow2(k + width)
    ensures Pow2(width) <= Shr(x, k) < 2 * Pow2(width)
  {
    if k == 0 {
    } else {
      ShrRange(x / 2, k - 1, width);
    }
  }

  lemma {:induction false} ScaleSum(x: nat, y: nat, k: nat)
    ensures Scale(x + y, k) == Scale(x, k) + Scale(y, k)
  {
    if k == 0 {
    } else {
      ScaleSum(x, y, k - 1);
    }
  }

  lemma {:induction false} ScalePow2(a: nat, k: nat)
    ensures Scale(Pow2(a), k) == Pow2(a + k)
  {
    if k == 0 {
    } else {
      ScalePow2(a, k - 1);
    }
  }

  lemma {:induction false} ScaleOne(k: nat)
    ensures Scale(0, k) == 0 && Scale(1, k) == Pow2(k)
  {
    if k == 0 {
    } else {
      ScaleOne(k - 1);
    }
  }

  lemma {:induction false} ScaleScale(x: nat, a: nat, b: nat)
    ensures Scale(Scale(x, a), b) == Scale(x, a + b)
  {
    if b == 0 {
    } else {
      ScaleScale(x, a, b - 1);
    }
  }

  lemma {:induction false} ShrShr(x: nat, a: nat, b: nat)
    ensures Shr(Shr(x, a), b) == Shr(x, a + b)
  {
    if a == 0 {
    } else {
      ShrShr(x / 2, a - 1, b);
    }
  }

  lemma {:induction false} ShrBelow(x: nat, k: nat, width: nat)
    requires x < Pow2(k + width)
    ensures Shr(x, k) < Pow2(width)
  {
    if k == 0 {
    } else {
      ShrBelow(x / 2, k - 1, width);
    }
  }

  lemma ShrIsDiv(x: nat, k: nat)
    ensures Shr(x, k) == x / Pow2(k)
    ensures Low(x, k) == x % Pow2(k)
  {
    ShrLowSplit(x, k);
    ScaleIsMul(Shr(x, k), k);
    DivModUnique(Shr(x, k), Pow2(k), Low(x, k));
  }

  lemma ScaleIsMultiple(x: nat, k: nat)
    ensures Scale(x, k) % Pow2(k) == 0
    ensures (0 - Scale(x, k)) % Pow2(k) == 0
  {
    ScaleIsMul(x, k);
    MultipleMod(x, Pow2(k));
    hide Scale, Pow2;
  }

  lemma ShlIsMul(x: nat, k: nat, width: nat)
    ensures Shl(x, k, width) == x * Pow2(k) % Pow2(width)
  {
    ScaleIsMul(x, k);
    ShrIsDiv(Scale(x, k), width);
  }

  lemma {:induction false} BitwiseZero(op: BitOp, x: nat)
    ensures op.And? ==> Bitwise(op, x, 0) == 0
    ensures op.And? || op.Bic? ==> Bitwise(op, 0, x) == 0
    ensures !op.And? ==> Bitwise(op, x, 0) == x
    ensures op.Or? || op.Xor? ==> Bitwise(op, 0, x) == x
  {
    if x == 0 {
    } else {
      BitwiseZero(op, x / 2);
    }
  }

  lemma BitwiseStep(op: BitOp, x: nat, y: nat)
    ensures Bitwise(op, x, y) / 2 == Bitwise(op, x / 2, y / 2)
    ensures Bitwise(op, x, y) % 2 == op.Apply(x % 2, y % 2)
  {
  }

  lemma BitwiseCons(op: BitOp, x: nat, y: nat, a: nat, b: nat)
    requires a < 2 && b < 2
    ensures Bitwise(op, 2 * x + a, 2 * y + b) == 2 * Bitwise(op, x, y) + op.Apply(a, b)
  {
    assert (2 * x + a) / 2 == x && (2 * y + b) / 2 == y;
  }

  lemma LowCons(x: nat, a: nat, k: nat)
    requires a < 2
    ensures Low(2 * x + a, k + 1) == 2 * Low(x, k) + a
  {
    assert (2 * x + a) / 2 == x;
  }

  lemma BitwiseLowCons(op: BitOp, x: nat, y: nat, a: nat, b: nat, k: nat)
    requires a < 2 && b < 2
    requires Low(Bitwise(op, x, y), k) == Bitwise(op, Low(x, k), Low(y, k))
    ensures Low(Bitwise(op, 2 * x + a, 2 * y + b), k + 1) == Bitwise(op, Low(2 * x + a, k + 1), Low(2 * y + b, k + 1))
  {
    hide Low, Bitwise;
    BitwiseCons(op, x, y, a, b);
    BitwiseCons(op, Low(x, k), Low(y, k), a, b);
    LowCons(x, a, k);
    LowCons(y, b, k);
    LowCons(Bitwise(op, x, y), op.Apply(a, b), k);
  }

  lemma {:induction false} BitwiseLow(op: BitOp, x: nat, y: nat, k: nat)
    ensures Low(Bitwise(op, x, y), k) == Bitwise(op, Low(x, k), Low(y, k))
  {
    hide *;
    if k == 0 {
      LowZero(x);
      LowZero(y);
      LowZero(Bitwise(op, x, y));
      BitwiseZero(op, 0);
    } else {
      BitwiseLow(op, x / 2, y / 2, k - 1);
      BitwiseLowCons(op, x / 2, y / 2, x % 2, y % 2, k - 1);
    }
  }

  lemma LowZero(x: nat)
    ensures Low(x, 0) == 0
  {
  }

  lemma {:induction false} BitwiseBelow(op: BitOp, x: nat, y: nat, k: nat)
    requires x < Pow2(k) && y < Pow2(k)
    ensures Bitwise(op, x, y) < Pow2(k)
  {
    if k == 0 {
    } else {
      BitwiseBelow(op, x / 2, y / 2, k - 1);
    }
  }

  lemma {:induction false} XorOnes(x: nat, k: nat)
    requires x < Pow2(k)
    ensures Bitwise(Xor, x, Pow2(k) - 1) == Not(x, k)
  {
    if k == 0 {
    } else {
      XorOnes(x / 2, k - 1);
    }
  }

  /** Masking with 2^k - 1 keeps the low `k` bits. */
  lemma {:induction false} AndLowMask(x: nat, k: nat)
    ensures Bitwise(And, x, Pow2(k) - 1) == Low(x, k)
  {
    if k == 0 {
      BitwiseZero(And, x);
    } else {
      AndLowMask(x / 2, k - 1);
    }
  }

  lemma {:induction false} AndScaled(x: nat, mask: nat, k: nat)
    ensures Bitwise(And, x, Scale(mask, k)) == Scale(Bitwise(And, Shr(x, k), mask), k)
  {
    if k == 0 {
    } else {
      AndScaled(x / 2, mask, k - 1);
    }
  }

  /** Joining two bit fields that do not overlap is addition. */
  lemma {:induction false} OrDisjoint(a: nat, b: nat, k: nat)
    requires b < Pow2(k)
    ensures Bitwise(Or, b, Scale(a, k)) == Scale(a, k) + b
  {
    if k == 0 {
      BitwiseZero(Or, a);
    } else {
      OrDisjoint(a, b / 2, k - 1);
    }
  }

  /** Clearing the top bit of a word of k + 1 bits. */
  lemma {:induction false} BicTop(x: nat, k: nat)
    requires x < 2 * Pow2(k)
    ensures Bitwise(Bic, x, Pow2(k)) == Low(x, k)
  {
    if k == 0 {
    } else {
      BicTop(x / 2, k - 1);
    }
  }

  lemma {:induction false} BicLow(x: nat, k: nat)
    ensures Bitwise(Bic, x, Pow2(k) - 1) == Scale(Shr(x, k), k)
  {
    if k == 0 {
      BitwiseZero(Bic, x);
    } else {
      BicLow(x / 2, k - 1);
    }
  }

  lemma {:induction false} OrAtLeast(x: nat, y: nat)
    ensures Bitwise(Or, x, y) >= y
    decreases x + y
  {
    if x + y == 0 {
    } else {
      OrAtLeast(x / 2, y / 2);
    }
  }

  /** Setting bit `k` leaves the bits below and above it alone. */
  lemma {:induction false} OrBit(x: nat, k: nat)
    ensures Low(Bitwise(Or, x, Pow2(k)), k + 1) == Low(x, k) + Pow2(k)
    ensures Shr(Bitwise(Or, x, Pow2(k)), k + 1) == Shr(x, k + 1)
  {
    BitwiseStep(Or, x, Pow2(k));
    if k == 0 {
      BitwiseZero(Or, x / 2);
    } else {
      OrBit(x / 2, k - 1);
    }
  }
}
