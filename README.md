# Weighted-pool fixed-point math, modelled in Dafny

This project models the math layer of a Solana weighted-pool AMM (`math/src/lib.rs`), a port
of Balancer's WeightedMath. It has three modules:

- **`Uint`** (`uint.dfy`). The 256-bit integers of the `uint` crate are an integer subset type
  `U256 = [0, 2^256)`. The crate aborts on overflow of `+` and `*`, on underflow of `-` and on
  division by zero. The `assert_eq!` length checks also abort. The model turns each abort into
  an explicit error value: `Result<T> = Ok(value) | Err(Overflow | Underflow | DivisionByZero |
  LengthMismatch)`. Errors are raised in Rust's order of evaluation: arguments first, and a
  product before the division that uses it.
- **`Fixed`** (`fixed.dfy`). The 18-decimal fixed-point layer with `ONE = 10^18`. It holds the
  four directional primitives, `complement`, and `pow_up`. `pow_up` is a `while` loop
  (`Fixed.PowUp`), proved equal to the recursive reference `PowUpFrom` / `PowUpResult`.
- **`WeightedMath`** (`weighted_math.dfy`). Holds the invariant, the two swap prices and the
  five join/exit prices.
  - The straight-line formulas are functions.
  - The Rust functions with loops are methods: `calculate_invariant` and the two-pass BPT
    formulas. Each is proved equal to an accumulator-style reference function.

`fixed::pow`, which is `pow_down`, goes through `f64` and cannot be modelled exactly. Every
formula that uses it takes it as a parameter `pow: (U256, U256) -> U256`. The predicate
`WeightedMath.IsPowDown` holds only its two edge cases from lib.rs:58-59: a zero exponent gives
ONE, and otherwise a zero base gives 0. The lemmas hold for every such `pow`.

Main results:

- **`pow_up` completes exactly when `exp == 0` or `base <= ONE`.** For `0 < base <= ONE` the
  result lies in [1, ONE]. For `base > ONE`, 67 squarings take the base to at least 2^128 * ONE,
  so `mul_up` overflows by the 68th of the 128 rounds.
- **Hence `calc_token_in_given_exact_bpt_out` only completes when `bpt_out == 0`.** This holds
  for every weight whose exponent `ONE / weight_in` is non-zero. In that case it returns 0.
- **Rounding favours the pool.**
  - The invariant is never overstated.
  - Swaps never pay out more than the output balance.
  - The single-token exit never pays out more than the balance.
  - The proportional exit pays out at most each balance when the BPT it burns,
    `mul_up(bpt_in, 1 - exit_fee)`, is at most `total_bpt`. Burning more pays out more: one
    balance of ONE with `bpt_in = 2 * ONE`, `total_bpt = ONE` and no exit fee pays `2 * ONE`.
  - The BPT minted never exceeds `total_bpt * (ratio - 1)`.
  - The BPT burnt lies between `total_bpt * (1 - ratio)` and `total_bpt`.
- **The fee is charged only on the excess.** In the two-pass formulas, a token that is not
  taxed keeps its first-pass ratio. A taxed token's ratio can only go down.
- **In the join's second pass, `non_taxable + mul_down(taxable, ...)`, the addition
  `balances[i] + amount_in_after_fee` and the division after it never abort.** The
  fee-reduced deposit is at most the deposit, whose sum and ratio the first pass already
  computed (`WeightedMath.JoinSecondPassStep`).

Where the code and its documented intent differ, the model follows the code:

- Empty vectors of equal length are accepted. `calculate_invariant` then returns ONE, and
  both two-pass formulas return 0.
- The subtractions `invariant_ratio_with_fees - ONE` (lib.rs:181) and `power - ONE`
  (lib.rs:146) are unchecked. So are `balance_out - amount_out` and `balances[i] - amounts`
  (lib.rs:142, 259, 273). They abort when negative and are modelled as `Underflow`.
- Only the `saturating_sub` calls clamp at zero (`Uint.SatSub`).

## Model

| member | source | states |
|---|---|---|
| Uint.Add | math/src/lib.rs:127 | U256 `+` (also lib.rs:169, 171, 183, 185, 201, 209, 240, 261, 271): succeeds iff a + b < 2^256, with the exact sum; otherwise it aborts with overflow |
| Uint.Sub | math/src/lib.rs:142 | U256 `-` (also lib.rs:146, 181, 207, 259, 273): succeeds iff b <= a, with a difference d where d + b == a; otherwise it aborts with underflow |
| Uint.SatSub | math/src/lib.rs:205 | `saturating_sub` (also lib.rs:182, 208, 236, 239, 270): never above a, the exact difference when b <= a, and 0 when a < b |
| Fixed.MulDown | math/src/lib.rs:36 | `mul_down` succeeds iff a*b < 2^256, fails only by overflow, and its result r is the floor: r*ONE <= a*b < (r+1)*ONE |
| Fixed.MulUp | math/src/lib.rs:38-41 | `mul_up` succeeds iff an operand is 0 or a*b + ONE < 2^256, fails only by overflow, and its result is the ceiling of a*b/ONE (so 0 when an operand is 0) |
| Fixed.DivDown | math/src/lib.rs:43 | `div_down` succeeds iff a*ONE < 2^256 and b != 0, overflows exactly when a*ONE >= 2^256, and its result is the floor of a*ONE/b |
| Fixed.DivUp | math/src/lib.rs:45-48 | `div_up` gives 0 for a == 0 whatever b is; otherwise it succeeds iff a*ONE + b < 2^256 and b != 0, and its result is the ceiling of a*ONE/b |
| Fixed.Complement | math/src/lib.rs:50 | `complement` succeeds iff x <= ONE (otherwise underflow), and result + x == ONE |
| Fixed.MulDownLeMulUp | math/src/lib.rs:36-41 | when `mul_up` succeeds so does `mul_down`, and down <= up <= down + 1 |
| Fixed.DivDownLeDivUp | math/src/lib.rs:43-48 | for b > 0, when `div_up` succeeds so does `div_down`, and down <= up <= down + 1 |
| Fixed.ComplementInvolution | math/src/lib.rs:50 | on [0, ONE], complement(complement(x)) == x |
| Fixed.OneIsUnit | math/src/lib.rs:33-43 | mul_down(x, ONE) == x and div_down(x, ONE) == x when x*ONE < 2^256, otherwise both overflow |
| Fixed.DecimalExamples | math/src/lib.rs:36-43 | mul_down(1.5, 2.0) == 3.0 and div_down(3.0, 2.0) == 1.5 in fixed point |
| Fixed.MulDownShrinks | math/src/lib.rs:36 | mul_down by a factor of at most ONE never exceeds the other operand |
| Fixed.MulUpShrinks | math/src/lib.rs:38-41 | mul_up by a factor of at most ONE never exceeds the other operand |
| Fixed.DivUpGrows | math/src/lib.rs:45-48 | div_up by a divisor of at most ONE is never below the dividend |
| Fixed.DivDownMonotone | math/src/lib.rs:43 | div_down is monotone in its numerator |
| Fixed.DivSelf | math/src/lib.rs:43-48 | div_down(t, t) == div_up(t, t) == ONE for t > 0 when t*ONE + t fits |
| Fixed.BitSet | math/src/lib.rs:76 | the bit test `exp & bit != 0`, written as (exp / bit) % 2 == 1 for the power of two `bit`; a definition with no contract of its own |
| Fixed.PowUpFrom | math/src/lib.rs:74-80 | the rounds that remain from a given `bit`, as a recursion on bit / 2 that squares `base`, multiplies a set bit into `result` and stops at the first overflow; a reference definition whose properties are the PowUpFrom* and PowUpOverflow* lemmas |
| Fixed.PowUpResult | math/src/lib.rs:65-82 | what `pow_up` returns: the zero-exponent test first, then the zero base, then the rounds from result = ONE and bit = 2^127; its properties are PowUpEdgeCases, PowUpInUnitRange, PowUpOverflowsAboveOne and PowUpSucceeds, and Fixed.PowUp equals it |
| Fixed.PowUp | math/src/lib.rs:65-82 | the `while` loop returns exactly the reference `PowUpResult` (zero-exponent test first, then zero base, then square with mul_up before testing each bit from 2^127 down), and when it completes on a non-zero base and exponent it has run exactly 128 rounds |
| Fixed.RoundsOfTopBit | math/src/lib.rs:73-79 | halving `bit` from 1 << 127 to zero takes 128 rounds |
| Fixed.PowUpEdgeCases | math/src/lib.rs:65-81 | pow_up(b, 0) == ONE for every b including 0; pow_up(0, e) == 0 for e != 0; pow_up(ONE, e) == ONE for every e |
| Fixed.PowUpFromOne | math/src/lib.rs:72-80 | from base ONE and result ONE every remaining round keeps both at ONE, since mul_up(ONE, ONE) == ONE |
| Fixed.PowUpInUnitRange | math/src/lib.rs:72-81 | for 0 < base <= ONE, pow_up never overflows and its result lies in [1, ONE] |
| Fixed.PowUpFromInUnitRange | math/src/lib.rs:72-80 | while the squared base and the result lie in [1, ONE], every remaining round keeps them there |
| Fixed.MulUpInUnitRange | math/src/lib.rs:38-41 | mul_up of two values in [1, ONE] succeeds with a value in [1, ONE] |
| Fixed.PowUpOverflowsAboveOne | math/src/lib.rs:72-80 | for base > ONE and exp != 0, pow_up always fails with overflow |
| Fixed.PowUpOverflowEarly | math/src/lib.rs:72-80 | while base - ONE is below ONE each squaring at least doubles it, so overflow follows when enough rounds remain |
| Fixed.PowUpOverflowLate | math/src/lib.rs:72-80 | once base >= 2*ONE each squaring squares the multiple of ONE, and a base of 2^128 or more overflows at the next squaring |
| Fixed.SquareAboveOneDoubles | math/src/lib.rs:75 | mul_up(base, base) for base >= ONE + d is at least ONE + 2d |
| Fixed.SquareGrows | math/src/lib.rs:75 | mul_up(base, base) for base >= c*ONE is at least c*c*ONE |
| Fixed.PowUpSucceeds | math/src/lib.rs:65-82 | pow_up completes iff exp == 0 or base <= ONE |
| WeightedMath.IsPowDown | math/src/lib.rs:57-59 | the only assumption about the abstracted `pow_down`: pow(b, 0) == ONE for every b, and pow(0, e) == 0 for e != 0; nothing else is assumed |
| WeightedMath.InvariantFrom | math/src/lib.rs:109-112 | the invariant fold fails only by overflow |
| WeightedMath.Invariant | math/src/lib.rs:107-114 | what `calculate_invariant` returns: a length mismatch iff the two lengths differ, otherwise the fold from ONE, which fails only by overflow |
| WeightedMath.CalculateInvariant | math/src/lib.rs:107-114 | the loop returns exactly the left fold inv := mul_down(inv, pow(b_i, w_i)) from ONE; it fails with a length mismatch iff the lengths differ; empty vectors give ONE |
| WeightedMath.InvariantRoundsDown | math/src/lib.rs:109-113 | the invariant is never overstated: inv * ONE^n <= ONE * (product of the n powers) |
| WeightedMath.RoundDownStep | math/src/lib.rs:111 | one mul_down step keeps the scaled invariant below the exact product |
| WeightedMath.OutGivenInPower | math/src/lib.rs:126-130 | the power pow(balance_in / (balance_in + fee-reduced amount_in), weight_in / weight_out), with the errors of each step in order; a reference definition used by OutGivenInBounded |
| WeightedMath.CalcOutGivenIn | math/src/lib.rs:118-132 | `calc_out_given_in`: balance_out * complement(power), rounded down; its properties are in OutGivenInBounded |
| WeightedMath.OutGivenInBounded | math/src/lib.rs:126-131 | `calc_out_given_in` never returns more than balance_out, and it fails with underflow when the power exceeds ONE |
| WeightedMath.InGivenOutPower | math/src/lib.rs:142-145 | the power pow(balance_out / (balance_out - amount_out), weight_out / weight_in), underflowing when amount_out > balance_out; a reference definition used by InGivenOutCoversPrice |
| WeightedMath.CalcInGivenOut | math/src/lib.rs:134-149 | `calc_in_given_out`: mul_down(balance_in, power - ONE) divided up by complement(swap_fee); its properties are in InGivenOutCoversPrice |
| WeightedMath.InGivenOutCoversPrice | math/src/lib.rs:142-148 | `calc_in_given_out` succeeds only if amount_out < balance_out and power >= ONE, and then returns at least mul_down(balance_in, power - ONE); amount_out > balance_out underflows |
| WeightedMath.JoinRatiosFrom | math/src/lib.rs:166-172 | the join's first pass yields one ratio per token, each div_down(b_i + a_i, b_i), and never a length mismatch |
| WeightedMath.JoinTokenRatio | math/src/lib.rs:178-185 | the second-pass ratio of one token, with the fee charged only above the mean; its properties are JoinFeeOnlyLowersRatio and JoinSecondPassRatios |
| WeightedMath.JoinProductFrom | math/src/lib.rs:176-187 | the join's second pass never fails with a length mismatch |
| WeightedMath.JoinInvariantRatio | math/src/lib.rs:161-187 | the join's invariant ratio fails with a length mismatch iff the three vectors differ in length |
| WeightedMath.JoinBptOut | math/src/lib.rs:154-190 | what `calc_bpt_out_given_exact_tokens_in` returns; its properties are JoinBptOutBounded and JoinSecondPassRatios, and the method equals it |
| WeightedMath.CalcBptOutGivenExactTokensIn | math/src/lib.rs:154-190 | the two loops return exactly the reference `JoinBptOut`, and a length mismatch iff the vectors differ in length |
| WeightedMath.JoinSecondPassStep | math/src/lib.rs:178-185 | one round of the second loop, given the token's first-pass ratio, returns exactly `JoinTokenRatio`; it aborts only for a taxed token, and a taxed token whose fee steps (`- ONE`, both `mul_down`s, `complement`) succeed completes, so the final `+` and `div_down` never abort |
| WeightedMath.JoinFeeOnlyLowersRatio | math/src/lib.rs:178-185 | a token whose ratio is not above the mean keeps its ratio (amount unchanged); a taxed token's ratio can only go down |
| WeightedMath.JoinSecondPassRatios | math/src/lib.rs:166-187 | for every token of the first pass, the second pass keeps an untaxed token's ratio and never raises any ratio |
| WeightedMath.JoinBptOutBounded | math/src/lib.rs:188-189 | the join returns 0 when the final ratio is <= ONE, otherwise at most total_bpt * (ratio - ONE) |
| WeightedMath.TokenInInvariantRatio | math/src/lib.rs:201 | invariant_ratio = div_up(total_bpt + bpt_out, total_bpt); a definition used by the single-token join lemmas |
| WeightedMath.NewBalanceIn | math/src/lib.rs:203-204 | new_balance_in = mul_up(balance_in, pow_up(invariant_ratio, ONE / weight_in)), through PowUpResult; a definition used by TokenInCoversNewBalance |
| WeightedMath.CalcTokenInGivenExactBptOut | math/src/lib.rs:193-210 | `calc_token_in_given_exact_bpt_out`; its properties are TokenInCoversNewBalance, TokenInZeroForZeroBpt and TokenInOnlyForZeroBpt |
| WeightedMath.TokenInCoversNewBalance | math/src/lib.rs:201-209 | `calc_token_in_given_exact_bpt_out` returns at least new_balance_in - balance_in |
| WeightedMath.TokenInZeroForZeroBpt | math/src/lib.rs:201-209 | minting 0 BPT costs 0 tokens when total_bpt > 0, weight_in > 0, swap_fee <= ONE and nothing overflows |
| WeightedMath.TokenInOnlyForZeroBpt | math/src/lib.rs:201-209 | for 0 < weight_in <= ONE^2 the single-token join can only complete when bpt_out == 0, because pow_up overflows for every invariant ratio above ONE |
| WeightedMath.ExitBptRatio | math/src/lib.rs:219-220 | bpt_ratio = div_down(mul_up(bpt_in, complement(exit_fee)), total_bpt); a definition used by ProportionalExitBounded |
| WeightedMath.MulDownEach | math/src/lib.rs:221 | the map/collect succeeds iff no product overflows, and then gives one mul_down(b_i, ratio) per balance |
| WeightedMath.CalcTokensOutGivenExactBptIn | math/src/lib.rs:213-222 | `calc_tokens_out_given_exact_bpt_in`; its properties are ProportionalExitBounded and ProportionalExitOverpays |
| WeightedMath.ProportionalExitBounded | math/src/lib.rs:219-221 | `calc_tokens_out_given_exact_bpt_in` returns one amount per balance, each at most its balance, whenever the BPT burnt, mul_up(bpt_in, ONE - exit_fee), is at most total_bpt |
| WeightedMath.ProportionalExitOverpays | math/src/lib.rs:219-221 | the condition is needed: one balance of ONE with bpt_in = 2 * ONE, total_bpt = ONE and no exit fee pays out 2 * ONE |
| WeightedMath.CalcTokenOutGivenExactBptIn | math/src/lib.rs:225-241 | `calc_token_out_given_exact_bpt_in`; its properties are TokenOutBounded and TokenOutFullExit |
| WeightedMath.TokenOutBounded | math/src/lib.rs:232-240 | `calc_token_out_given_exact_bpt_in` never returns more than balance_out |
| WeightedMath.TokenOutFullExit | math/src/lib.rs:232-240 | with pow_down's two edge cases, burning the whole supply returns exactly balance_out for any weight_out > 0 and swap_fee <= ONE, when total_bpt * ONE and balance_out * ONE fit |
| WeightedMath.ExitRatiosFrom | math/src/lib.rs:256-262 | the exit's first pass yields one ratio per token, each div_down(b_i - a_i, b_i) with a_i <= b_i, and never a length mismatch |
| WeightedMath.ExitTokenRatio | math/src/lib.rs:267-273 | the second-pass ratio of one token, with the fee, rounded up, charged only below the mean; its properties are ExitFeeOnlyLowersRatio and ExitSecondPassRatios |
| WeightedMath.ExitProductFrom | math/src/lib.rs:265-275 | the exit's second pass never fails with a length mismatch |
| WeightedMath.ExitInvariantRatio | math/src/lib.rs:251-275 | the exit's invariant ratio fails with a length mismatch iff the three vectors differ in length |
| WeightedMath.ExitBptIn | math/src/lib.rs:244-278 | what `calc_bpt_in_given_exact_tokens_out` returns; its properties are ExitBptInBounded and ExitSecondPassRatios, and the method equals it |
| WeightedMath.CalcBptInGivenExactTokensOut | math/src/lib.rs:244-278 | the two loops return exactly the reference `ExitBptIn`, and a length mismatch iff the vectors differ in length |
| WeightedMath.ExitFeeOnlyLowersRatio | math/src/lib.rs:267-273 | a token whose ratio is not below the mean keeps its ratio; a taxed token withdraws at least its amount, so its ratio can only go down |
| WeightedMath.ExitSecondPassRatios | math/src/lib.rs:256-275 | for every token of the first pass, the second pass keeps an untaxed token's ratio and never raises any ratio |
| WeightedMath.ExitBptInBounded | math/src/lib.rs:276-277 | the exit returns 0 when the final ratio is >= ONE, otherwise between total_bpt * (ONE - ratio) and total_bpt |

## Left out

- `pow_down`, `to_f64`, `from_f64` and the `libm` import (math/src/lib.rs:16, 55-61, 88-93) use
  `f64` floating point. `pow_down` is a parameter constrained only by its two integer edge
  cases. No property that depends on its value is claimed. Two such properties are left out:
  that the invariant grows with a balance, and that a swap round trip never loses value.
- The `join_exit_round_trip` test (math/src/lib.rs:289-303). It builds its inputs through
  `from_f64` and relies on the float power, so its thresholds cannot be checked.
- The limb representation of `U256` (math/src/lib.rs:19-22). It is an integer range here.
- Fixed.PowUp: `exp & bit != 0` is modelled as `(exp / bit) % 2 == 1`. The two agree because
  `bit` is always a power of two.
- The precondition that the weights sum to ONE is not assumed. The source does not check it
  either, and no lemma needs it.
- programs/vault/src/lib.rs and programs/weighted-pool/src/lib.rs. They are Anchor account
  plumbing: account creation, PDA seeds and owner checks enforced by the framework, plus one
  `checked_add(1)` counter. They do no pool math.
