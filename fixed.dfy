/** The 18-decimal fixed-point layer (`fixed` in math/src/lib.rs): ONE = 10^18 stands
    for 1.0, every product and quotient is rounded in a stated direction, and `pow_up`
    is the integer square-and-multiply power. */
module Fixed {
  import opened Uint

  /** 1.0 in fixed point. */
  const ONE: U256 := 1_000_000_000_000_000_000

  /** `1u128 << 127`, the first bit `pow_up` tests. */
  const TOP_BIT: nat := 0x8000_0000_0000_0000_0000_0000_0000_0000

  // ---------------------------------------------------------------------------
  // Directional multiply and divide
  // ---------------------------------------------------------------------------

  /** `mul_down`: a*b/ONE rounded down; only the product can overflow. */
  function MulDown(a: U256, b: U256): (r: Result<U256>)
    ensures r.Ok? <==> a * b < LIMIT
    ensures r.Err? ==> r.error == Overflow
    ensures r.Ok? ==> r.value * ONE <= a * b < (r.value + 1) * ONE
  {
    if a * b < LIMIT then Ok(a * b / ONE) else Err(Overflow)
  }

  /** `mul_up`: 0 when an operand is 0, otherwise a*b/ONE rounded up,
      computed as (a*b + ONE - 1)/ONE, where the sum may also overflow. */
  function MulUp(a: U256, b: U256): (r: Result<U256>)
    ensures r.Ok? <==> (a == 0 || b == 0 || a * b + ONE < LIMIT)
    ensures r.Err? ==> r.error == Overflow
    ensures r.Ok? ==> (r.value - 1) * ONE < a * b <= r.value * ONE
  {
    if a == 0 || b == 0 then Ok(0)
    else if a * b >= LIMIT then Err(Overflow)
    else if a * b + ONE >= LIMIT then Err(Overflow)
    else Ok((a * b + ONE - 1) / ONE)
  }

  /** `div_down`: a*ONE/b rounded down; a*ONE is formed before dividing. */
  function DivDown(a: U256, b: U256): (r: Result<U256>)
    ensures r.Ok? <==> a * ONE < LIMIT && b != 0
    ensures r == Err(Overflow) <==> a * ONE >= LIMIT
    ensures r.Ok? ==> r.value * b <= a * ONE < (r.value + 1) * b
  {
    if a * ONE >= LIMIT then Err(Overflow)
    else if b == 0 then Err(DivisionByZero)
    else Ok(a * ONE / b)
  }

  /** `div_up`: 0 when a is 0 (whatever b is), otherwise a*ONE/b rounded up,
      computed as (a*ONE + b - 1)/b. */
  function DivUp(a: U256, b: U256): (r: Result<U256>)
    ensures r.Ok? <==> (a == 0 || (a * ONE + b < LIMIT && b != 0))
    ensures a == 0 ==> r == Ok(0)
    ensures r.Err? && r.error != Overflow ==> r.error == DivisionByZero && b == 0
    ensures r.Ok? && a != 0 ==> (r.value - 1) * b < a * ONE <= r.value * b
  {
    if a == 0 then Ok(0)
    else if a * ONE >= LIMIT then Err(Overflow)
    else if a * ONE + b >= LIMIT then Err(Overflow)
    else if b == 0 then Err(DivisionByZero)
    else Ok((a * ONE + b - 1) / b)
  }

  /** `complement`: ONE - x, which underflows for x > ONE. */
  function Complement(x: U256): (r: Result<U256>)
    ensures r.Ok? <==> x <= ONE
    ensures r.Err? ==> r.error == Underflow
    ensures r.Ok? ==> r.value + x == ONE
  {
    if x <= ONE then Ok(ONE - x) else Err(Underflow)
  }

  // ---------------------------------------------------------------------------
  // Facts about the primitives
  // ---------------------------------------------------------------------------

  /** Rounding up never gives less than rounding down, and at most one unit more. */
  lemma MulDownLeMulUp(a: U256, b: U256)
    ensures MulUp(a, b).Ok? ==> MulDown(a, b).Ok?
    ensures MulUp(a, b).Ok? ==>
      MulDown(a, b).value <= MulUp(a, b).value <= MulDown(a, b).value + 1
  {
  }

  /** The same for division, for a non-zero divisor. */
  lemma DivDownLeDivUp(a: U256, b: U256)
    requires b > 0
    ensures DivUp(a, b).Ok? ==> DivDown(a, b).Ok?
    ensures DivUp(a, b).Ok? ==>
      DivDown(a, b).value <= DivUp(a, b).value <= DivDown(a, b).value + 1
  {
    var d, u := DivDown(a, b), DivUp(a, b);
    if u.Ok? && a != 0 {
      assert d.Ok?;
      FloorCeilClose(a * ONE, b, d.value, u.value);
    }
  }

  /** A floor and a ceiling of n/b differ by at most one. */
  lemma FloorCeilClose(n: int, b: int, d: int, u: int)
    requires b > 0
    requires d * b <= n < (d + 1) * b
    requires (u - 1) * b < n <= u * b
    ensures d <= u <= d + 1
  {
    assert d * b < (u + 1) * b;
    LessCancel(d, u + 1, b);
    LessCancel(u - 1, d + 1, b);
  }

  /** The complement is its own inverse on [0, ONE]. */
  lemma ComplementInvolution(x: U256)
    requires x <= ONE
    ensures Complement(x).Ok? && Complement(Complement(x).value) == Ok(x)
  {
  }

  /** ONE is the unit of `mul_down` and `div_down` wherever x*ONE does not overflow. */
  lemma OneIsUnit(x: U256)
    ensures MulDown(x, ONE) == (if x * ONE < LIMIT then Ok(x) else Err(Overflow))
    ensures DivDown(x, ONE) == (if x * ONE < LIMIT then Ok(x) else Err(Overflow))
  {
  }

  /** The fixed-point examples 1.5 * 2.0 == 3.0 and 3.0 / 2.0 == 1.5. */
  lemma DecimalExamples()
    ensures MulDown(1_500_000_000_000_000_000, 2_000_000_000_000_000_000)
            == Ok(3_000_000_000_000_000_000)
    ensures DivDown(3_000_000_000_000_000_000, 2_000_000_000_000_000_000)
            == Ok(1_500_000_000_000_000_000)
  {
  }

  /** Multiplying down by a factor of at most ONE never increases a value. */
  lemma MulDownShrinks(t: U256, c: U256)
    requires c <= ONE
    ensures MulDown(t, c).Ok? ==> MulDown(t, c).value <= t
  {
    MulLe(t, c, t, ONE);
  }

  /** Multiplying up by a factor of at most ONE never increases a value either. */
  lemma MulUpShrinks(t: U256, c: U256)
    requires c <= ONE
    ensures MulUp(t, c).Ok? ==> MulUp(t, c).value <= t
  {
    MulLe(t, c, t, ONE);
  }

  /** Dividing up by a divisor of at most ONE never decreases a value. */
  lemma DivUpGrows(t: U256, c: U256)
    requires c <= ONE
    ensures DivUp(t, c).Ok? ==> DivUp(t, c).value >= t
  {
    if DivUp(t, c).Ok? && t != 0 {
      var u := DivUp(t, c).value;
      MulLe(u, c, u, ONE);
      assert t * ONE <= u * ONE;
    }
  }

  /** `div_down` is monotone in its numerator. */
  lemma DivDownMonotone(x: U256, y: U256, b: U256)
    requires x <= y
    requires DivDown(x, b).Ok? && DivDown(y, b).Ok?
    ensures DivDown(x, b).value <= DivDown(y, b).value
  {
    var p, q := DivDown(x, b).value, DivDown(y, b).value;
    assert p * b < (q + 1) * b;
    LessCancel(p, q + 1, b);
  }

  /** A smaller numerator over the same divisor cannot make `div_down` fail. */
  lemma DivDownOkBelow(x: U256, y: U256, b: U256)
    requires x <= y && DivDown(y, b).Ok?
    ensures DivDown(x, b).Ok?
  {
    MulLe(x, ONE, y, ONE);
  }

  /** x/x is exactly ONE both ways when the intermediate values fit. */
  lemma DivSelf(t: U256)
    requires t > 0 && t * ONE + t < LIMIT
    ensures DivDown(t, t) == Ok(ONE)
    ensures DivUp(t, t) == Ok(ONE)
  {
    var d, u := DivDown(t, t).value, DivUp(t, t).value;
    assert d * t <= ONE * t < (d + 1) * t;
    LessCancel(d, ONE + 1, t);
    LessCancel(ONE, d + 1, t);
    assert (u - 1) * t < ONE * t <= u * t;
    LessCancel(u - 1, ONE, t);
    LessCancel(ONE - 1, u, t);
  }

  // ---------------------------------------------------------------------------
  // pow_up: square-and-multiply over the 128 bits below 2^128
  // ---------------------------------------------------------------------------

  /** `exp & bit != 0` for the power of two `bit` that `pow_up` tests. */
  predicate BitSet(exp: U256, bit: nat)
    requires bit > 0
  {
    (exp / bit) % 2 == 1
  }

  /** The rounds of `pow_up` that remain once `bit` is the next bit to test:
      square `base` with `mul_up`, then, if the bit is set, multiply it into
      `result` with `mul_up`; then halve `bit`. */
  function PowUpFrom(base: U256, result: U256, exp: U256, bit: nat): Result<U256>
    decreases bit
  {
    if bit == 0 then Ok(result)
    else
      var squared :- MulUp(base, base);
      var next :- if BitSet(exp, bit) then MulUp(result, squared) else Ok(result);
      PowUpFrom(squared, next, exp, bit / 2)
  }

  /** What `pow_up(base, exp)` returns: ONE for a zero exponent (tested first),
      0 for a zero base, otherwise the 128 rounds from `result = ONE`. */
  function PowUpResult(base: U256, exp: U256): Result<U256> {
    if exp == 0 then Ok(ONE)
    else if base == 0 then Ok(0)
    else PowUpFrom(base, ONE, exp, TOP_BIT)
  }

  /** The number of rounds the loop runs from `bit` down to zero. */
  function Rounds(bit: nat): nat {
    if bit == 0 then 0 else 1 + Rounds(bit / 2)
  }

  /** `pow_up` as the source writes it: a loop that mutates `base`, `result` and `bit`.
      The ghost `rounds` counts the iterations. */
  method PowUp(base0: U256, exp: U256) returns (r: Result<U256>, ghost rounds: nat)
    ensures r == PowUpResult(base0, exp)
    ensures exp != 0 && base0 != 0 && r.Ok? ==> rounds == 128
  {
    rounds := 0;
    if exp == 0 { return Ok(ONE), rounds; }
    if base0 == 0 { return Ok(0), rounds; }
    var base := base0;
    var result := ONE;
    var bit: nat := TOP_BIT;
    RoundsOfTopBit();
    while bit > 0
      invariant PowUpFrom(base, result, exp, bit) == PowUpResult(base0, exp)
      invariant rounds + Rounds(bit) == 128
      decreases bit
    {
      base :- MulUp(base, base);
      if BitSet(exp, bit) {
        result :- MulUp(result, base);
      }
      bit := bit / 2;
      rounds := rounds + 1;
    }
    r := Ok(result);
  }

  /** The edge cases: a zero exponent gives ONE (even for a zero base), a zero base
      gives 0 otherwise, and the base ONE gives ONE for every exponent. */
  lemma PowUpEdgeCases(base: U256, exp: U256)
    ensures exp == 0 ==> PowUpResult(base, exp) == Ok(ONE)
    ensures exp != 0 && base == 0 ==> PowUpResult(base, exp) == Ok(0)
    ensures base == ONE ==> PowUpResult(base, exp) == Ok(ONE)
  {
    if base == ONE && exp != 0 {
      PowUpFromOne(exp, TOP_BIT);
    }
  }

  lemma {:induction false} PowUpFromOne(exp: U256, bit: nat)
    ensures PowUpFrom(ONE, ONE, exp, bit) == Ok(ONE)
    decreases bit
  {
    if bit > 0 {
      assert MulUp(ONE, ONE) == Ok(ONE);
      PowUpFromOne(exp, bit / 2);
    }
  }

  /** For a base in (0, ONE] the squared base and the result stay in [1, ONE],
      so nothing overflows and the power lies in [1, ONE]. */
  lemma PowUpInUnitRange(base: U256, exp: U256)
    requires 0 < base <= ONE
    ensures PowUpResult(base, exp).Ok?
    ensures 1 <= PowUpResult(base, exp).value <= ONE
  {
    if exp != 0 {
      PowUpFromInUnitRange(base, ONE, exp, TOP_BIT);
    }
  }

  lemma {:induction false} PowUpFromInUnitRange(base: U256, result: U256, exp: U256, bit: nat)
    requires 1 <= base <= ONE && 1 <= result <= ONE
    ensures PowUpFrom(base, result, exp, bit).Ok?
    ensures 1 <= PowUpFrom(base, result, exp, bit).value <= ONE
    decreases bit
  {
    if bit > 0 {
      MulUpInUnitRange(base, base);
      var squared := MulUp(base, base).value;
      if BitSet(exp, bit) {
        MulUpInUnitRange(result, squared);
        PowUpFromInUnitRange(squared, MulUp(result, squared).value, exp, bit / 2);
      } else {
        PowUpFromInUnitRange(squared, result, exp, bit / 2);
      }
    }
  }

  lemma MulUpInUnitRange(a: U256, b: U256)
    requires 1 <= a <= ONE && 1 <= b <= ONE
    ensures MulUp(a, b).Ok? && 1 <= MulUp(a, b).value <= ONE
  {
    MulLe(a, b, ONE, ONE);
    MulLe(1, 1, a, b);
  }

  /** A base above ONE always overflows: 67 squarings take it to at least 2^128 * ONE,
      so it overflows by the 68th of the 128 rounds. */
  lemma PowUpOverflowsAboveOne(base: U256, exp: U256)
    requires base > ONE && exp != 0
    ensures PowUpResult(base, exp) == Err(Overflow)
  {
    Pow2Facts();
    Pow2Add(67, 60);
    MulLe(Pow2(67), 1, Pow2(67), Pow2(60));
    PowUpOverflowEarly(base, ONE, exp, TOP_BIT, 0);
  }

  /** `pow_up` completes exactly when the exponent is zero or the base is at most ONE. */
  lemma PowUpSucceeds(base: U256, exp: U256)
    ensures PowUpResult(base, exp).Ok? <==> (exp == 0 || base <= ONE)
  {
    if exp != 0 && base > ONE {
      PowUpOverflowsAboveOne(base, exp);
    } else if exp != 0 && base > 0 {
      PowUpInUnitRange(base, exp);
    }
  }

  /** First phase: while base - ONE is below ONE, each squaring at least doubles it. */
  lemma {:induction false} PowUpOverflowEarly(base: U256, result: U256, exp: U256, bit: nat, k: nat)
    requires k <= 60
    requires base >= ONE + Pow2(k)
    requires bit >= Pow2(67 - k)
    ensures PowUpFrom(base, result, exp, bit) == Err(Overflow)
    decreases 60 - k
  {
    Pow2Facts();
    Pow2Positive(67 - k);
    if k == 60 {
      PowUpOverflowLate(base, result, exp, bit, 0);
    } else {
      var sq := MulUp(base, base);
      if sq.Ok? {
        SquareAboveOneDoubles(base, Pow2(k), sq.value);
        var next := if BitSet(exp, bit) then MulUp(result, sq.value) else Ok(result);
        if next.Ok? {
          PowUpOverflowEarly(sq.value, next.value, exp, bit / 2, k + 1);
        }
      }
    }
  }

  /** Second phase: once base >= c*ONE with c >= 2, a squaring gives at least c*c*ONE. */
  lemma {:induction false} PowUpOverflowLate(base: U256, result: U256, exp: U256, bit: nat, j: nat)
    requires j <= 7
    requires base >= ONE * Sq(j)
    requires bit >= Pow2(7 - j)
    ensures PowUpFrom(base, result, exp, bit) == Err(Overflow)
    decreases 7 - j
  {
    Pow2Positive(7 - j);
    SqFacts();
    if j == 7 {
      MulLe(Sq(7), Sq(7), base, base);
      assert MulUp(base, base) == Err(Overflow);
    } else {
      var sq := MulUp(base, base);
      if sq.Ok? {
        SquareGrows(base, Sq(j), sq.value);
        var next := if BitSet(exp, bit) then MulUp(result, sq.value) else Ok(result);
        if next.Ok? {
          PowUpOverflowLate(sq.value, next.value, exp, bit / 2, j + 1);
        }
      }
    }
  }

  lemma SquareAboveOneDoubles(base: U256, d: nat, s: U256)
    requires base >= ONE + d
    requires MulUp(base, base) == Ok(s)
    ensures s >= ONE + 2 * d
  {
    MulLe(ONE + d, ONE + d, base, base);
    assert (ONE + d) * (ONE + d) == ONE * ONE + 2 * ONE * d + d * d;
    assert s * ONE >= ONE * (ONE + 2 * d);
  }

  lemma SquareGrows(base: U256, c: nat, s: U256)
    requires base >= ONE * c
    requires MulUp(base, base) == Ok(s)
    ensures s >= ONE * (c * c)
  {
    MulLe(ONE * c, ONE * c, base, base);
    assert (ONE * c) * (ONE * c) == ONE * (ONE * (c * c));
  }

  // ---------------------------------------------------------------------------
  // Powers of two
  // ---------------------------------------------------------------------------

  function Pow2(k: nat): nat {
    if k == 0 then 1 else 2 * Pow2(k - 1)
  }

  /** 2, 2^2, 2^4, ..., 2^128: the lower bounds of the second overflow phase. */
  function Sq(j: nat): nat {
    if j == 0 then 2 else Sq(j - 1) * Sq(j - 1)
  }

  lemma {:induction false} Pow2Positive(k: nat)
    ensures Pow2(k) >= 1
  {
    if k > 0 { Pow2Positive(k - 1); }
  }

  lemma {:induction false} Pow2Add(a: nat, b: nat)
    ensures Pow2(a + b) == Pow2(a) * Pow2(b)
    decreases a
  {
    if a > 0 {
      Pow2Add(a - 1, b);
      assert Pow2(a + b) == 2 * (Pow2(a - 1) * Pow2(b));
    }
  }

  lemma Pow2Facts()
    ensures Pow2(60) == 0x1000_0000_0000_0000 >= ONE
    ensures Pow2(127) == TOP_BIT
  {
    assert Pow2(1) == 2;
    Pow2Add(1, 1);
    assert Pow2(2) == 4;
    Pow2Add(2, 2);
    assert Pow2(4) == 0x10;
    Pow2Add(4, 4);
    assert Pow2(8) == 0x100;
    Pow2Add(8, 8);
    assert Pow2(16) == 0x1_0000;
    Pow2Add(16, 16);
    assert Pow2(32) == 0x1_0000_0000;
    Pow2Add(32, 16);
    assert Pow2(48) == 0x1_0000_0000_0000;
    Pow2Add(48, 8);
    assert Pow2(56) == 0x100_0000_0000_0000;
    Pow2Add(56, 4);
    assert Pow2(60) == 0x1000_0000_0000_0000;
    Pow2Add(32, 32);
    assert Pow2(64) == 0x1_0000_0000_0000_0000;
    Pow2Add(64, 64);
    assert Pow2(128) == 0x1_0000_0000_0000_0000_0000_0000_0000_0000;
    assert Pow2(128) == 2 * Pow2(127);
  }

  lemma SqFacts()
    ensures Sq(7) == 0x1_0000_0000_0000_0000_0000_0000_0000_0000
  {
    assert Sq(1) == 4;
    assert Sq(2) == 16;
    assert Sq(3) == 256;
    assert Sq(4) == 0x1_0000;
    assert Sq(5) == 0x1_0000_0000;
    assert Sq(6) == 0x1_0000_0000_0000_0000;
  }

  /** The loop runs 128 times from the top bit. */
  lemma RoundsOfTopBit()
    ensures Rounds(TOP_BIT) == 128
  {
    Pow2Facts();
    RoundsOfPow2(127);
  }

  lemma {:induction false} RoundsOfPow2(k: nat)
    ensures Rounds(Pow2(k)) == k + 1
  {
    if k > 0 {
      assert Pow2(k) / 2 == Pow2(k - 1);
      RoundsOfPow2(k - 1);
    }
  }

  // ---------------------------------------------------------------------------
  // Arithmetic helpers
  // ---------------------------------------------------------------------------

  lemma MulLe(x: int, y: int, x': int, y': int)
    requires 0 <= x <= x' && 0 <= y <= y'
    ensures x * y <= x' * y'
  {
    assert x * y <= x' * y;
    assert x' * y <= x' * y';
  }

  lemma LessCancel(x: int, y: int, t: int)
    requires t > 0 && x * t < y * t
    ensures x < y
  {
  }
}
