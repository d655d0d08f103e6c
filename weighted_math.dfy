/** The weighted-pool formulas (`weighted_math` in math/src/lib.rs): the invariant,
    the two swap prices and the five join/exit prices.

    `pow` stands for `fixed::pow`, that is `pow_down`, which goes through f64 and is
    not modelled: every formula takes it as a parameter, and `IsPowDown` states the
    two edge cases the source fixes before it reaches the float path. */
module WeightedMath {
  import opened Uint
  import opened Fixed

  /** The edge cases of `pow_down`: a zero exponent gives ONE, otherwise a zero base gives 0. */
  ghost predicate IsPowDown(pow: (U256, U256) -> U256) {
    (forall b :: pow(b, 0) == ONE) &&
    (forall e :: e != 0 ==> pow(0, e) == 0)
  }

  // ===========================================================================
  // Invariant
  // ===========================================================================

  /** The fold inv := mul_down(inv, pow(b_i, w_i)) over the indices from i on. */
  function InvariantFrom(balances: seq<U256>, weights: seq<U256>, pow: (U256, U256) -> U256,
                         i: nat, inv: U256): (r: Result<U256>)
    requires |weights| == |balances| && i <= |balances|
    ensures r.Err? ==> r.error == Overflow
    decreases |balances| - i
  {
    if i == |balances| then Ok(inv)
    else
      var next :- MulDown(inv, pow(balances[i], weights[i]));
      InvariantFrom(balances, weights, pow, i + 1, next)
  }

  /** What `calculate_invariant` returns. */
  function Invariant(balances: seq<U256>, weights: seq<U256>, pow: (U256, U256) -> U256): (r: Result<U256>)
    ensures r == Err(LengthMismatch) <==> |balances| != |weights|
    ensures r.Err? && |balances| == |weights| ==> r.error == Overflow
  {
    if |balances| != |weights| then Err(LengthMismatch)
    else InvariantFrom(balances, weights, pow, 0, ONE)
  }

  /** `calculate_invariant`: the accumulating loop. */
  method CalculateInvariant(balances: seq<U256>, weights: seq<U256>, pow: (U256, U256) -> U256)
    returns (r: Result<U256>)
    ensures r == Invariant(balances, weights, pow)
    ensures r == Err(LengthMismatch) <==> |balances| != |weights|
    ensures |balances| == |weights| == 0 ==> r == Ok(ONE)
  {
    if |balances| != |weights| { return Err(LengthMismatch); }
    var inv := ONE;
    for i := 0 to |balances|
      invariant InvariantFrom(balances, weights, pow, i, inv) == Invariant(balances, weights, pow)
    {
      inv :- MulDown(inv, pow(balances[i], weights[i]));
    }
    r := Ok(inv);
  }

  /** The exact product of the powers from index i on. */
  ghost function PowerProduct(balances: seq<U256>, weights: seq<U256>, pow: (U256, U256) -> U256,
                              i: nat): nat
    requires |weights| == |balances| && i <= |balances|
    decreases |balances| - i
  {
    if i == |balances| then 1
    else pow(balances[i], weights[i]) * PowerProduct(balances, weights, pow, i + 1)
  }

  function ScalePow(n: nat): nat {
    if n == 0 then 1 else ONE * ScalePow(n - 1)
  }

  /** The invariant is never overstated: with n tokens,
      inv * ONE^n <= ONE * (product of the n powers). */
  lemma InvariantRoundsDown(balances: seq<U256>, weights: seq<U256>, pow: (U256, U256) -> U256)
    requires Invariant(balances, weights, pow).Ok?
    ensures |weights| == |balances|
    ensures Invariant(balances, weights, pow).value * ScalePow(|balances|)
            <= ONE * PowerProduct(balances, weights, pow, 0)
  {
    InvariantFromRoundsDown(balances, weights, pow, 0, ONE);
  }

  lemma {:induction false} InvariantFromRoundsDown(balances: seq<U256>, weights: seq<U256>,
                                                   pow: (U256, U256) -> U256, i: nat, acc: U256)
    requires |weights| == |balances| && i <= |balances|
    requires InvariantFrom(balances, weights, pow, i, acc).Ok?
    ensures InvariantFrom(balances, weights, pow, i, acc).value * ScalePow(|balances| - i)
            <= acc * PowerProduct(balances, weights, pow, i)
    decreases |balances| - i
  {
    if i < |balances| {
      var p := pow(balances[i], weights[i]);
      var next := MulDown(acc, p).value;
      var inv := InvariantFrom(balances, weights, pow, i, acc).value;
      var rest := PowerProduct(balances, weights, pow, i + 1);
      var k := ScalePow(|balances| - i - 1);
      InvariantFromRoundsDown(balances, weights, pow, i + 1, next);
      assert ScalePow(|balances| - i) == ONE * k;
      RoundDownStep(inv, k, next, rest, acc, p);
    }
  }

  lemma RoundDownStep(inv: nat, k: nat, next: nat, rest: nat, acc: nat, p: nat)
    requires inv * k <= next * rest
    requires next * ONE <= acc * p
    ensures inv * (ONE * k) <= acc * (p * rest)
  {
    calc {
      inv * (ONE * k);
      == (inv * k) * ONE;
      <= { MulLe(inv * k, ONE, next * rest, ONE); }
         (next * rest) * ONE;
      == (next * ONE) * rest;
      <= { MulLe(next * ONE, rest, acc * p, rest); }
         (acc * p) * rest;
      == acc * (p * rest);
    }
  }

  // ===========================================================================
  // Swaps
  // ===========================================================================

  /** The power in `calc_out_given_in`: the fee is taken from the input, then
      pow(balance_in / new_balance_in, weight_in / weight_out). */
  function OutGivenInPower(balanceIn: U256, weightIn: U256, weightOut: U256, amountIn: U256,
                           swapFee: U256, pow: (U256, U256) -> U256): Result<U256> {
    var keep :- Complement(swapFee);
    var amountInAfterFee :- MulDown(amountIn, keep);
    var newBalanceIn :- Add(balanceIn, amountInAfterFee);
    var base :- DivDown(balanceIn, newBalanceIn);
    var exponent :- DivDown(weightIn, weightOut);
    Ok(pow(base, exponent))
  }

  /** `calc_out_given_in`. */
  function CalcOutGivenIn(balanceIn: U256, weightIn: U256, balanceOut: U256, weightOut: U256,
                          amountIn: U256, swapFee: U256, pow: (U256, U256) -> U256): Result<U256> {
    var power :- OutGivenInPower(balanceIn, weightIn, weightOut, amountIn, swapFee, pow);
    var rest :- Complement(power);
    MulDown(balanceOut, rest)
  }

  /** A swap never pays out more than the pool holds of the output token,
      and it aborts when the power exceeds ONE. */
  lemma OutGivenInBounded(balanceIn: U256, weightIn: U256, balanceOut: U256, weightOut: U256,
                          amountIn: U256, swapFee: U256, pow: (U256, U256) -> U256)
    ensures var r := CalcOutGivenIn(balanceIn, weightIn, balanceOut, weightOut, amountIn, swapFee, pow);
            r.Ok? ==> r.value <= balanceOut
    ensures var power := OutGivenInPower(balanceIn, weightIn, weightOut, amountIn, swapFee, pow);
            power.Ok? && power.value > ONE ==>
              CalcOutGivenIn(balanceIn, weightIn, balanceOut, weightOut, amountIn, swapFee, pow)
              == Err(Underflow)
  {
    var power := OutGivenInPower(balanceIn, weightIn, weightOut, amountIn, swapFee, pow);
    if power.Ok? && power.value <= ONE {
      MulDownShrinks(balanceOut, ONE - power.value);
    }
  }

  /** The power in `calc_in_given_out`:
      pow(balance_out / (balance_out - amount_out), weight_out / weight_in). */
  function InGivenOutPower(balanceOut: U256, weightOut: U256, weightIn: U256, amountOut: U256,
                           pow: (U256, U256) -> U256): Result<U256> {
    var denom :- Sub(balanceOut, amountOut);
    var base :- DivDown(balanceOut, denom);
    var exponent :- DivDown(weightOut, weightIn);
    Ok(pow(base, exponent))
  }

  /** `calc_in_given_out`. */
  function CalcInGivenOut(balanceIn: U256, weightIn: U256, balanceOut: U256, weightOut: U256,
                          amountOut: U256, swapFee: U256, pow: (U256, U256) -> U256): Result<U256> {
    var power :- InGivenOutPower(balanceOut, weightOut, weightIn, amountOut, pow);
    var ratio :- Sub(power, ONE);
    var withoutFee :- MulDown(balanceIn, ratio);
    var keep :- Complement(swapFee);
    DivUp(withoutFee, keep)
  }

  /** The price of an exact output succeeds only for amount_out < balance_out and a
      power of at least ONE, and the fee only adds to the fee-less input
      mul_down(balance_in, power - ONE). */
  lemma InGivenOutCoversPrice(balanceIn: U256, weightIn: U256, balanceOut: U256, weightOut: U256,
                              amountOut: U256, swapFee: U256, pow: (U256, U256) -> U256)
    ensures var r := CalcInGivenOut(balanceIn, weightIn, balanceOut, weightOut, amountOut, swapFee, pow);
            var power := InGivenOutPower(balanceOut, weightOut, weightIn, amountOut, pow);
            r.Ok? ==>
              amountOut < balanceOut && power.Ok? && power.value >= ONE &&
              MulDown(balanceIn, power.value - ONE).Ok? &&
              r.value >= MulDown(balanceIn, power.value - ONE).value
    ensures amountOut > balanceOut ==>
      CalcInGivenOut(balanceIn, weightIn, balanceOut, weightOut, amountOut, swapFee, pow) == Err(Underflow)
  {
    var power := InGivenOutPower(balanceOut, weightOut, weightIn, amountOut, pow);
    if power.Ok? && power.value >= ONE && MulDown(balanceIn, power.value - ONE).Ok? && swapFee <= ONE {
      DivUpGrows(MulDown(balanceIn, power.value - ONE).value, ONE - swapFee);
    }
  }

  // ===========================================================================
  // Join: exact tokens in, BPT out (two passes)
  // ===========================================================================

  /** The first pass of `calc_bpt_out_given_exact_tokens_in` from index i on: push each
      ratio (b + a)/b, rounded down, and add its weighted share to the mean. */
  function JoinRatiosFrom(balances: seq<U256>, weights: seq<U256>, amountsIn: seq<U256>,
                          i: nat, ratios: seq<U256>, mean: U256): (r: Result<(seq<U256>, U256)>)
    requires |weights| == |balances| && |amountsIn| == |balances|
    requires i <= |balances| && |ratios| == i
    ensures r.Err? ==> r.error != LengthMismatch
    ensures r.Ok? ==> |r.value.0| == |balances| && r.value.0[..i] == ratios
    ensures r.Ok? ==> forall j :: i <= j < |balances| ==>
      balances[j] + amountsIn[j] < LIMIT &&
      DivDown(balances[j] + amountsIn[j], balances[j]) == Ok(r.value.0[j])
    decreases |balances| - i
  {
    if i == |balances| then Ok((ratios, mean))
    else
      var total :- Add(balances[i], amountsIn[i]);
      var ratio :- DivDown(total, balances[i]);
      var share :- MulDown(ratio, weights[i]);
      var mean' :- Add(mean, share);
      var r := JoinRatiosFrom(balances, weights, amountsIn, i + 1, ratios + [ratio], mean');
      assert r.Ok? ==> r.value.0[..i] == (ratios + [ratio])[..i];
      r
  }

  /** The ratio one token contributes in the second pass: a token whose ratio is above
      the weighted mean pays the fee on the part of its deposit beyond the
      proportional share; its ratio is then recomputed from the fee-reduced amount. */
  function JoinTokenRatio(balance: U256, amountIn: U256, ratio: U256, mean: U256,
                          swapFee: U256): Result<U256> {
    var amountInAfterFee :-
      if ratio > mean then
        var excess :- Sub(mean, ONE);
        var nonTaxable :- MulDown(balance, excess);
        var taxable := SatSub(amountIn, nonTaxable);
        var keep :- Complement(swapFee);
        var taxed :- MulDown(taxable, keep);
        Add(nonTaxable, taxed)
      else Ok(amountIn);
    var total :- Add(balance, amountInAfterFee);
    DivDown(total, balance)
  }

  /** The second pass from index i on: inv := mul_down(inv, pow(ratio_i, w_i)). */
  function JoinProductFrom(balances: seq<U256>, weights: seq<U256>, amountsIn: seq<U256>,
                           ratios: seq<U256>, mean: U256, swapFee: U256,
                           pow: (U256, U256) -> U256, i: nat, inv: U256): (r: Result<U256>)
    requires |weights| == |balances| && |amountsIn| == |balances| && |ratios| == |balances|
    requires i <= |balances|
    ensures r.Err? ==> r.error != LengthMismatch
    decreases |balances| - i
  {
    if i == |balances| then Ok(inv)
    else
      var ratio :- JoinTokenRatio(balances[i], amountsIn[i], ratios[i], mean, swapFee);
      var inv' :- MulDown(inv, pow(ratio, weights[i]));
      JoinProductFrom(balances, weights, amountsIn, ratios, mean, swapFee, pow, i + 1, inv')
  }

  /** The invariant ratio after fees that the join computes. */
  function JoinInvariantRatio(balances: seq<U256>, weights: seq<U256>, amountsIn: seq<U256>,
                              swapFee: U256, pow: (U256, U256) -> U256): (r: Result<U256>)
    ensures r == Err(LengthMismatch) <==> (|weights| != |balances| || |amountsIn| != |balances|)
  {
    if |weights| != |balances| || |amountsIn| != |balances| then Err(LengthMismatch)
    else
      var pass1 :- JoinRatiosFrom(balances, weights, amountsIn, 0, [], 0);
      JoinProductFrom(balances, weights, amountsIn, pass1.0, pass1.1, swapFee, pow, 0, ONE)
  }

  /** What `calc_bpt_out_given_exact_tokens_in` returns: nothing when the invariant
      ratio does not grow, otherwise total_bpt * (ratio - ONE) rounded down. */
  function JoinBptOut(balances: seq<U256>, weights: seq<U256>, amountsIn: seq<U256>,
                      totalBpt: U256, swapFee: U256, pow: (U256, U256) -> U256): Result<U256> {
    var ratio :- JoinInvariantRatio(balances, weights, amountsIn, swapFee, pow);
    if ratio <= ONE then Ok(0) else MulDown(totalBpt, ratio - ONE)
  }

  /** `calc_bpt_out_given_exact_tokens_in`: the two index loops. */
  method CalcBptOutGivenExactTokensIn(balances: seq<U256>, weights: seq<U256>, amountsIn: seq<U256>,
                                      totalBpt: U256, swapFee: U256, pow: (U256, U256) -> U256)
    returns (r: Result<U256>)
    ensures r == JoinBptOut(balances, weights, amountsIn, totalBpt, swapFee, pow)
    ensures r == Err(LengthMismatch) <==> (|weights| != |balances| || |amountsIn| != |balances|)
  {
    var n := |balances|;
    if |weights| != n || |amountsIn| != n { return Err(LengthMismatch); }
    var mean: U256 := 0;
    var ratios: seq<U256> := [];
    for i := 0 to n
      invariant |ratios| == i
      invariant JoinRatiosFrom(balances, weights, amountsIn, i, ratios, mean)
                == JoinRatiosFrom(balances, weights, amountsIn, 0, [], 0)
    {
      var total :- Add(balances[i], amountsIn[i]);
      var ratio :- DivDown(total, balances[i]);
      ratios := ratios + [ratio];
      var share :- MulDown(ratio, weights[i]);
      mean :- Add(mean, share);
    }
    assert JoinRatiosFrom(balances, weights, amountsIn, 0, [], 0) == Ok((ratios, mean));
    var inv: U256 := ONE;
    for i := 0 to n
      invariant JoinProductFrom(balances, weights, amountsIn, ratios, mean, swapFee, pow, i, inv)
                == JoinInvariantRatio(balances, weights, amountsIn, swapFee, pow)
    {
      JoinRatioAt(balances, weights, amountsIn, ratios, mean, i);
      var ratio :- JoinSecondPassStep(balances[i], amountsIn[i], ratios[i], mean, swapFee);
      inv :- MulDown(inv, pow(ratio, weights[i]));
    }
    if inv <= ONE { return Ok(0); }
    r := MulDown(totalBpt, inv - ONE);
  }

  /** The body of the second loop of `calc_bpt_out_given_exact_tokens_in` for one token,
      given its first-pass ratio; it computes exactly JoinTokenRatio. It is a method of its
      own because the final `+` and `div_down` cannot fail here, so writing them as checked
      steps would leave error branches that are never taken; the exit's round, whose final
      `-` can fail, stays inline. Only the fee steps of a taxed token can abort. */
  method JoinSecondPassStep(balance: U256, amountIn: U256, ratio: U256, mean: U256, swapFee: U256)
    returns (r: Result<U256>)
    requires balance + amountIn < LIMIT && DivDown(balance + amountIn, balance) == Ok(ratio)
    ensures r == JoinTokenRatio(balance, amountIn, ratio, mean, swapFee)
    ensures r.Err? ==> ratio > mean
    ensures ratio > mean && mean >= ONE && swapFee <= ONE &&
            MulDown(balance, mean - ONE).Ok? &&
            MulDown(SatSub(amountIn, MulDown(balance, mean - ONE).value), ONE - swapFee).Ok?
            ==> r.Ok?
  {
    var amountInAfterFee := amountIn;
    if ratio > mean {
      var excess :- Sub(mean, ONE);
      var nonTaxable :- MulDown(balance, excess);
      var taxable := SatSub(amountIn, nonTaxable);
      var keep :- Complement(swapFee);
      var taxed :- MulDown(taxable, keep);
      // The fee-reduced deposit never exceeds the deposit, so this `+` cannot overflow.
      JoinTaxedWithinDeposit(balance, amountIn, ratio, mean, swapFee);
      amountInAfterFee := nonTaxable + taxed;
    }
    // Nor can the next `+` or the division: the first pass divided the larger
    // balance + amountIn by the same non-zero balance.
    DivDownOkBelow(balance + amountInAfterFee, balance + amountIn, balance);
    r := DivDown(balance + amountInAfterFee, balance);
  }

  /** A token whose ratio is not above the mean keeps its first-pass ratio; a taxed
      token's ratio can only go down. */
  lemma JoinFeeOnlyLowersRatio(balance: U256, amountIn: U256, ratio: U256, mean: U256, swapFee: U256)
    requires balance + amountIn < LIMIT && DivDown(balance + amountIn, balance) == Ok(ratio)
    ensures ratio <= mean ==> JoinTokenRatio(balance, amountIn, ratio, mean, swapFee) == Ok(ratio)
    ensures var r := JoinTokenRatio(balance, amountIn, ratio, mean, swapFee);
            r.Ok? ==> r.value <= ratio
  {
    var r := JoinTokenRatio(balance, amountIn, ratio, mean, swapFee);
    if ratio > mean && r.Ok? {
      var nonTaxable := MulDown(balance, mean - ONE).value;
      var taxable := SatSub(amountIn, nonTaxable);
      var taxed := MulDown(taxable, ONE - swapFee).value;
      JoinTaxedWithinDeposit(balance, amountIn, ratio, mean, swapFee);
      DivDownMonotone(balance + nonTaxable + taxed, balance + amountIn, balance);
    }
  }

  /** A taxed token's fee-reduced deposit, non_taxable + mul_down(taxable, 1 - fee),
      never exceeds its deposit. */
  lemma JoinTaxedWithinDeposit(balance: U256, amountIn: U256, ratio: U256, mean: U256,
                               swapFee: U256)
    requires balance + amountIn < LIMIT && DivDown(balance + amountIn, balance) == Ok(ratio)
    requires ONE <= mean < ratio && swapFee <= ONE
    requires MulDown(balance, mean - ONE).Ok?
    requires MulDown(SatSub(amountIn, MulDown(balance, mean - ONE).value), ONE - swapFee).Ok?
    ensures MulDown(balance, mean - ONE).value
            + MulDown(SatSub(amountIn, MulDown(balance, mean - ONE).value), ONE - swapFee).value
            <= amountIn
  {
    var nonTaxable := MulDown(balance, mean - ONE).value;
    // ratio > mean means the deposit covers at least the proportional share.
    ShareWithinDeposit(balance, amountIn, ratio, mean, nonTaxable);
    MulDownShrinks(SatSub(amountIn, nonTaxable), ONE - swapFee);
  }

  /** The arithmetic step of JoinFeeOnlyLowersRatio: a first-pass ratio above the mean
      means the deposit exceeds the proportional share balance * (mean - ONE). */
  lemma ShareWithinDeposit(balance: int, amountIn: int, ratio: int, mean: int, share: int)
    requires balance > 0 && mean >= ONE && mean < ratio
    requires ratio * balance <= (balance + amountIn) * ONE
    requires share * ONE <= balance * (mean - ONE)
    ensures share < amountIn
  {
    MulLe(mean + 1, balance, ratio, balance);
    assert share * ONE < amountIn * ONE;
    LessCancel(share, amountIn, ONE);
  }

  /** Across the whole second pass of the join: every untaxed token enters with its
      first-pass ratio, and no token enters with a larger one. */
  lemma JoinSecondPassRatios(balances: seq<U256>, weights: seq<U256>, amountsIn: seq<U256>,
                             swapFee: U256, ratios: seq<U256>, mean: U256)
    requires |weights| == |balances| && |amountsIn| == |balances|
    requires JoinRatiosFrom(balances, weights, amountsIn, 0, [], 0) == Ok((ratios, mean))
    ensures |ratios| == |balances|
    ensures forall j :: 0 <= j < |balances| && ratios[j] <= mean ==>
      JoinTokenRatio(balances[j], amountsIn[j], ratios[j], mean, swapFee) == Ok(ratios[j])
    ensures forall j :: 0 <= j < |balances| ==>
      var r := JoinTokenRatio(balances[j], amountsIn[j], ratios[j], mean, swapFee);
      r.Ok? ==> r.value <= ratios[j]
  {
    forall j | 0 <= j < |balances| {
      JoinTokenRatioAt(balances, weights, amountsIn, swapFee, ratios, mean, j);
    }
  }

  /** One index of JoinSecondPassRatios. */
  lemma JoinTokenRatioAt(balances: seq<U256>, weights: seq<U256>, amountsIn: seq<U256>,
                         swapFee: U256, ratios: seq<U256>, mean: U256, j: nat)
    requires |weights| == |balances| && |amountsIn| == |balances| && j < |balances|
    requires JoinRatiosFrom(balances, weights, amountsIn, 0, [], 0) == Ok((ratios, mean))
    ensures j < |ratios|
    ensures ratios[j] <= mean ==>
      JoinTokenRatio(balances[j], amountsIn[j], ratios[j], mean, swapFee) == Ok(ratios[j])
    ensures var r := JoinTokenRatio(balances[j], amountsIn[j], ratios[j], mean, swapFee);
      r.Ok? ==> r.value <= ratios[j]
  {
    JoinRatioAt(balances, weights, amountsIn, ratios, mean, j);
    JoinFeeOnlyLowersRatio(balances[j], amountsIn[j], ratios[j], mean, swapFee);
  }

  lemma JoinRatioAt(balances: seq<U256>, weights: seq<U256>, amountsIn: seq<U256>,
                    ratios: seq<U256>, mean: U256, j: nat)
    requires |weights| == |balances| && |amountsIn| == |balances| && j < |balances|
    requires JoinRatiosFrom(balances, weights, amountsIn, 0, [], 0) == Ok((ratios, mean))
    ensures balances[j] + amountsIn[j] < LIMIT
    ensures DivDown(balances[j] + amountsIn[j], balances[j]) == Ok(ratios[j])
  {
  }

  /** The BPT minted: zero when the invariant ratio does not exceed ONE, and never more
      than total_bpt * (ratio - ONE). */
  lemma JoinBptOutBounded(balances: seq<U256>, weights: seq<U256>, amountsIn: seq<U256>,
                          totalBpt: U256, swapFee: U256, pow: (U256, U256) -> U256)
    ensures var r := JoinBptOut(balances, weights, amountsIn, totalBpt, swapFee, pow);
            var ratio := JoinInvariantRatio(balances, weights, amountsIn, swapFee, pow);
            r.Ok? ==> (ratio.Ok? &&
                       (ratio.value <= ONE ==> r.value == 0) &&
                       (ratio.value > ONE ==> r.value * ONE <= totalBpt * (ratio.value - ONE)))
  {
  }

  // ===========================================================================
  // Single-token join: exact BPT out, token in
  // ===========================================================================

  /** invariant_ratio = (total_bpt + bpt_out) / total_bpt, rounded up. */
  function TokenInInvariantRatio(bptOut: U256, totalBpt: U256): Result<U256> {
    var total :- Add(totalBpt, bptOut);
    DivUp(total, totalBpt)
  }

  /** new_balance_in = mul_up(balance_in, pow_up(invariant_ratio, ONE / weight_in)). */
  function NewBalanceIn(balanceIn: U256, weightIn: U256, invariantRatio: U256): Result<U256> {
    var exponent :- DivDown(ONE, weightIn);
    var power :- PowUpResult(invariantRatio, exponent);
    MulUp(balanceIn, power)
  }

  /** `calc_token_in_given_exact_bpt_out`. */
  function CalcTokenInGivenExactBptOut(balanceIn: U256, weightIn: U256, bptOut: U256,
                                       totalBpt: U256, swapFee: U256): Result<U256> {
    var invariantRatio :- TokenInInvariantRatio(bptOut, totalBpt);
    var newBalanceIn :- NewBalanceIn(balanceIn, weightIn, invariantRatio);
    var amountInWithoutFee := SatSub(newBalanceIn, balanceIn);
    var growth :- Sub(invariantRatio, ONE);
    var nonTaxable :- MulUp(balanceIn, growth);
    var taxable := SatSub(amountInWithoutFee, nonTaxable);
    var keep :- Complement(swapFee);
    var taxed :- DivUp(taxable, keep);
    Add(nonTaxable, taxed)
  }

  /** The amount charged is at least new_balance_in - balance_in. */
  lemma TokenInCoversNewBalance(balanceIn: U256, weightIn: U256, bptOut: U256,
                                totalBpt: U256, swapFee: U256)
    ensures var r := CalcTokenInGivenExactBptOut(balanceIn, weightIn, bptOut, totalBpt, swapFee);
            var ratio := TokenInInvariantRatio(bptOut, totalBpt);
            r.Ok? ==> (ratio.Ok? && NewBalanceIn(balanceIn, weightIn, ratio.value).Ok? &&
                       r.value >= SatSub(NewBalanceIn(balanceIn, weightIn, ratio.value).value, balanceIn))
  {
    var r := CalcTokenInGivenExactBptOut(balanceIn, weightIn, bptOut, totalBpt, swapFee);
    if r.Ok? {
      var ratio := TokenInInvariantRatio(bptOut, totalBpt).value;
      var newBalanceIn := NewBalanceIn(balanceIn, weightIn, ratio).value;
      var nonTaxable := MulUp(balanceIn, ratio - ONE).value;
      var taxable := SatSub(SatSub(newBalanceIn, balanceIn), nonTaxable);
      DivUpGrows(taxable, ONE - swapFee);
    }
  }

  /** Minting nothing costs nothing. */
  lemma TokenInZeroForZeroBpt(balanceIn: U256, weightIn: U256, totalBpt: U256, swapFee: U256)
    requires totalBpt > 0 && totalBpt * ONE + totalBpt < LIMIT
    requires balanceIn * ONE + ONE < LIMIT
    requires weightIn > 0 && swapFee <= ONE
    ensures CalcTokenInGivenExactBptOut(balanceIn, weightIn, 0, totalBpt, swapFee) == Ok(0)
  {
    DivSelf(totalBpt);
    assert TokenInInvariantRatio(0, totalBpt) == Ok(ONE);
    PowUpEdgeCases(ONE, DivDown(ONE, weightIn).value);
    assert NewBalanceIn(balanceIn, weightIn, ONE) == Ok(balanceIn);
  }

  /** Because `pow_up` overflows for every base above ONE, the single-token join can
      only complete when the invariant ratio is ONE, that is when bpt_out is 0
      (for any weight with a non-zero exponent ONE / weight_in). */
  lemma TokenInOnlyForZeroBpt(balanceIn: U256, weightIn: U256, bptOut: U256,
                              totalBpt: U256, swapFee: U256)
    requires 0 < weightIn <= ONE * ONE
    requires CalcTokenInGivenExactBptOut(balanceIn, weightIn, bptOut, totalBpt, swapFee).Ok?
    ensures bptOut == 0
  {
    var ratio := TokenInInvariantRatio(bptOut, totalBpt).value;
    var exponent := DivDown(ONE, weightIn).value;
    assert exponent != 0 by {
      assert ONE * ONE < (exponent + 1) * weightIn;
    }
    PowUpSucceeds(ratio, exponent);
    assert ratio == ONE;
  }

  // ===========================================================================
  // Proportional exit: exact BPT in, all tokens out
  // ===========================================================================

  /** bpt_ratio = mul_up(bpt_in, 1 - exit_fee) / total_bpt, rounded down. */
  function ExitBptRatio(bptIn: U256, totalBpt: U256, exitFee: U256): Result<U256> {
    var keep :- Complement(exitFee);
    var bptToBurn :- MulUp(bptIn, keep);
    DivDown(bptToBurn, totalBpt)
  }

  /** The `map`/`collect` of mul_down(b, ratio) over the balances, aborting at the
      first product that overflows. */
  function MulDownEach(balances: seq<U256>, ratio: U256): (r: Result<seq<U256>>)
    ensures r.Ok? <==> forall i :: 0 <= i < |balances| ==> balances[i] * ratio < LIMIT
    ensures r.Ok? ==> |r.value| == |balances|
    ensures r.Ok? ==> forall i :: 0 <= i < |balances| ==> MulDown(balances[i], ratio) == Ok(r.value[i])
  {
    if |balances| == 0 then Ok([])
    else
      var first :- MulDown(balances[0], ratio);
      var rest :- MulDownEach(balances[1..], ratio);
      assert forall i :: 1 <= i < |balances| ==> balances[i] == balances[1..][i - 1];
      Ok([first] + rest)
  }

  /** `calc_tokens_out_given_exact_bpt_in`. */
  function CalcTokensOutGivenExactBptIn(balances: seq<U256>, bptIn: U256, totalBpt: U256,
                                        exitFee: U256): Result<seq<U256>> {
    var ratio :- ExitBptRatio(bptIn, totalBpt, exitFee);
    MulDownEach(balances, ratio)
  }

  /** One amount per balance, each at most its balance when the BPT burnt,
      mul_up(bpt_in, ONE - exit_fee), is at most total_bpt. */
  lemma ProportionalExitBounded(balances: seq<U256>, bptIn: U256, totalBpt: U256, exitFee: U256)
    requires exitFee <= ONE && MulUp(bptIn, ONE - exitFee).Ok?
    requires MulUp(bptIn, ONE - exitFee).value <= totalBpt
    ensures var r := CalcTokensOutGivenExactBptIn(balances, bptIn, totalBpt, exitFee);
            r.Ok? ==> |r.value| == |balances| &&
                      forall i :: 0 <= i < |balances| ==> r.value[i] <= balances[i]
  {
    var r := CalcTokensOutGivenExactBptIn(balances, bptIn, totalBpt, exitFee);
    if r.Ok? {
      var keep := ONE - exitFee;
      var burn := MulUp(bptIn, keep).value;
      var ratio := ExitBptRatio(bptIn, totalBpt, exitFee).value;
      assert ratio * totalBpt <= ONE * totalBpt by {
        MulLe(burn, ONE, totalBpt, ONE);
      }
      LessCancel(ratio, ONE + 1, totalBpt);
      forall i | 0 <= i < |balances| ensures r.value[i] <= balances[i] {
        MulDownShrinks(balances[i], ratio);
      }
    }
  }

  /** The bound needs its condition: burning twice the supply pays out twice the balance. */
  lemma ProportionalExitOverpays()
    ensures CalcTokensOutGivenExactBptIn([ONE], 2 * ONE, ONE, 0) == Ok([2 * ONE])
  {
    assert ExitBptRatio(2 * ONE, ONE, 0) == Ok(2 * ONE);
    assert MulDown(ONE, 2 * ONE) == Ok(2 * ONE);
    var one: seq<U256> := [ONE];
    assert one[1..] == [];
    assert MulDownEach(one[1..], 2 * ONE) == Ok([]);
    assert [2 * ONE] + [] == [2 * ONE];
    assert MulDownEach(one, 2 * ONE) == Ok([2 * ONE]);
  }

  // ===========================================================================
  // Single-token exit: exact BPT in, token out
  // ===========================================================================

  /** `calc_token_out_given_exact_bpt_in`. */
  function CalcTokenOutGivenExactBptIn(balanceOut: U256, weightOut: U256, bptIn: U256,
                                       totalBpt: U256, swapFee: U256,
                                       pow: (U256, U256) -> U256): Result<U256> {
    var share :- DivDown(bptIn, totalBpt);
    var invariantRatio :- Complement(share);
    var exponent :- DivDown(ONE, weightOut);
    var newBalanceOut :- MulDown(balanceOut, pow(invariantRatio, exponent));
    var amountOutBeforeFee := SatSub(balanceOut, newBalanceOut);
    var proportional :- Complement(invariantRatio);
    var nonTaxable :- MulDown(balanceOut, proportional);
    var taxable := SatSub(amountOutBeforeFee, nonTaxable);
    var keep :- Complement(swapFee);
    var taxed :- MulDown(taxable, keep);
    Add(nonTaxable, taxed)
  }

  /** A single-token exit never pays out more than the balance. */
  lemma TokenOutBounded(balanceOut: U256, weightOut: U256, bptIn: U256, totalBpt: U256,
                        swapFee: U256, pow: (U256, U256) -> U256)
    ensures var r := CalcTokenOutGivenExactBptIn(balanceOut, weightOut, bptIn, totalBpt, swapFee, pow);
            r.Ok? ==> r.value <= balanceOut
  {
    var r := CalcTokenOutGivenExactBptIn(balanceOut, weightOut, bptIn, totalBpt, swapFee, pow);
    if r.Ok? {
      var invariantRatio := ONE - DivDown(bptIn, totalBpt).value;
      var exponent := DivDown(ONE, weightOut).value;
      var newBalanceOut := MulDown(balanceOut, pow(invariantRatio, exponent)).value;
      var amountOutBeforeFee := SatSub(balanceOut, newBalanceOut);
      MulDownShrinks(balanceOut, ONE - invariantRatio);
      var nonTaxable := MulDown(balanceOut, ONE - invariantRatio).value;
      var taxable := SatSub(amountOutBeforeFee, nonTaxable);
      MulDownShrinks(taxable, ONE - swapFee);
    }
  }

  /** Burning the whole supply pays out the whole balance, from the edge cases
      pow_down(0, e) == 0 and pow_down(b, 0) == ONE alone. */
  lemma TokenOutFullExit(balanceOut: U256, weightOut: U256, totalBpt: U256, swapFee: U256,
                         pow: (U256, U256) -> U256)
    requires IsPowDown(pow)
    requires totalBpt > 0 && totalBpt * ONE < LIMIT
    requires balanceOut * ONE < LIMIT
    requires weightOut > 0 && swapFee <= ONE
    ensures CalcTokenOutGivenExactBptIn(balanceOut, weightOut, totalBpt, totalBpt, swapFee, pow)
            == Ok(balanceOut)
  {
    var d := DivDown(totalBpt, totalBpt).value;
    LessCancel(d, ONE + 1, totalBpt);
    LessCancel(ONE, d + 1, totalBpt);
    var exponent := DivDown(ONE, weightOut).value;
    if exponent == 0 {
      assert pow(0, exponent) == ONE;
    } else {
      assert pow(0, exponent) == 0;
    }
    OneIsUnit(balanceOut);
  }

  // ===========================================================================
  // Exit: exact tokens out, BPT in (two passes)
  // ===========================================================================

  /** The first pass of `calc_bpt_in_given_exact_tokens_out` from index i on: push each
      ratio (b - a)/b, rounded down, and add its weighted share to the mean. */
  function ExitRatiosFrom(balances: seq<U256>, weights: seq<U256>, amountsOut: seq<U256>,
                          i: nat, ratios: seq<U256>, mean: U256): (r: Result<(seq<U256>, U256)>)
    requires |weights| == |balances| && |amountsOut| == |balances|
    requires i <= |balances| && |ratios| == i
    ensures r.Err? ==> r.error != LengthMismatch
    ensures r.Ok? ==> |r.value.0| == |balances| && r.value.0[..i] == ratios
    ensures r.Ok? ==> forall j :: i <= j < |balances| ==>
      amountsOut[j] <= balances[j] &&
      DivDown(balances[j] - amountsOut[j], balances[j]) == Ok(r.value.0[j])
    decreases |balances| - i
  {
    if i == |balances| then Ok((ratios, mean))
    else
      var rest :- Sub(balances[i], amountsOut[i]);
      var ratio :- DivDown(rest, balances[i]);
      var share :- MulDown(ratio, weights[i]);
      var mean' :- Add(mean, share);
      var r := ExitRatiosFrom(balances, weights, amountsOut, i + 1, ratios + [ratio], mean');
      assert r.Ok? ==> r.value.0[..i] == (ratios + [ratio])[..i];
      r
  }

  /** The ratio one token contributes in the second pass: a token whose ratio is below
      the weighted mean pays the fee, rounded up, on the part of its withdrawal
      beyond the proportional share. */
  function ExitTokenRatio(balance: U256, amountOut: U256, ratio: U256, mean: U256,
                          swapFee: U256): Result<U256> {
    var amountOutWithFee :-
      if ratio < mean then
        var proportional :- Complement(mean);
        var nonTaxable :- MulDown(balance, proportional);
        var taxable := SatSub(amountOut, nonTaxable);
        var keep :- Complement(swapFee);
        var taxed :- DivUp(taxable, keep);
        Add(nonTaxable, taxed)
      else Ok(amountOut);
    var rest :- Sub(balance, amountOutWithFee);
    DivDown(rest, balance)
  }

  /** The second pass from index i on: inv := mul_down(inv, pow(ratio_i, w_i)). */
  function ExitProductFrom(balances: seq<U256>, weights: seq<U256>, amountsOut: seq<U256>,
                           ratios: seq<U256>, mean: U256, swapFee: U256,
                           pow: (U256, U256) -> U256, i: nat, inv: U256): (r: Result<U256>)
    requires |weights| == |balances| && |amountsOut| == |balances| && |ratios| == |balances|
    requires i <= |balances|
    ensures r.Err? ==> r.error != LengthMismatch
    decreases |balances| - i
  {
    if i == |balances| then Ok(inv)
    else
      var ratio :- ExitTokenRatio(balances[i], amountsOut[i], ratios[i], mean, swapFee);
      var inv' :- MulDown(inv, pow(ratio, weights[i]));
      ExitProductFrom(balances, weights, amountsOut, ratios, mean, swapFee, pow, i + 1, inv')
  }

  /** The invariant ratio after fees that the exit computes. */
  function ExitInvariantRatio(balances: seq<U256>, weights: seq<U256>, amountsOut: seq<U256>,
                              swapFee: U256, pow: (U256, U256) -> U256): (r: Result<U256>)
    ensures r == Err(LengthMismatch) <==> (|weights| != |balances| || |amountsOut| != |balances|)
  {
    if |weights| != |balances| || |amountsOut| != |balances| then Err(LengthMismatch)
    else
      var pass1 :- ExitRatiosFrom(balances, weights, amountsOut, 0, [], 0);
      ExitProductFrom(balances, weights, amountsOut, pass1.0, pass1.1, swapFee, pow, 0, ONE)
  }

  /** What `calc_bpt_in_given_exact_tokens_out` returns: nothing when the invariant
      ratio does not fall, otherwise total_bpt * (ONE - ratio) rounded up. */
  function ExitBptIn(balances: seq<U256>, weights: seq<U256>, amountsOut: seq<U256>,
                     totalBpt: U256, swapFee: U256, pow: (U256, U256) -> U256): Result<U256> {
    var ratio :- ExitInvariantRatio(balances, weights, amountsOut, swapFee, pow);
    if ratio >= ONE then Ok(0) else MulUp(totalBpt, ONE - ratio)
  }

  /** `calc_bpt_in_given_exact_tokens_out`: the two index loops. */
  method CalcBptInGivenExactTokensOut(balances: seq<U256>, weights: seq<U256>, amountsOut: seq<U256>,
                                      totalBpt: U256, swapFee: U256, pow: (U256, U256) -> U256)
    returns (r: Result<U256>)
    ensures r == ExitBptIn(balances, weights, amountsOut, totalBpt, swapFee, pow)
    ensures r == Err(LengthMismatch) <==> (|weights| != |balances| || |amountsOut| != |balances|)
  {
    var n := |balances|;
    if |weights| != n || |amountsOut| != n { return Err(LengthMismatch); }
    var mean: U256 := 0;
    var ratios: seq<U256> := [];
    for i := 0 to n
      invariant |ratios| == i
      invariant ExitRatiosFrom(balances, weights, amountsOut, i, ratios, mean)
                == ExitRatiosFrom(balances, weights, amountsOut, 0, [], 0)
    {
      var rest :- Sub(balances[i], amountsOut[i]);
      var ratio :- DivDown(rest, balances[i]);
      ratios := ratios + [ratio];
      var share :- MulDown(ratio, weights[i]);
      mean :- Add(mean, share);
    }
    var inv: U256 := ONE;
    for i := 0 to n
      invariant ExitProductFrom(balances, weights, amountsOut, ratios, mean, swapFee, pow, i, inv)
                == ExitInvariantRatio(balances, weights, amountsOut, swapFee, pow)
    {
      var amountOutWithFee := amountsOut[i];
      if ratios[i] < mean {
        var proportional :- Complement(mean);
        var nonTaxable :- MulDown(balances[i], proportional);
        var taxable := SatSub(amountsOut[i], nonTaxable);
        var keep :- Complement(swapFee);
        var taxed :- DivUp(taxable, keep);
        amountOutWithFee :- Add(nonTaxable, taxed);
      }
      var rest :- Sub(balances[i], amountOutWithFee);
      var ratio :- DivDown(rest, balances[i]);
      inv :- MulDown(inv, pow(ratio, weights[i]));
    }
    if inv >= ONE { return Ok(0); }
    r := MulUp(totalBpt, ONE - inv);
  }

  /** A token whose ratio is not below the mean keeps its first-pass ratio; a taxed
      token withdraws at least its amount, so its ratio can only go down. */
  lemma ExitFeeOnlyLowersRatio(balance: U256, amountOut: U256, ratio: U256, mean: U256, swapFee: U256)
    requires amountOut <= balance && DivDown(balance - amountOut, balance) == Ok(ratio)
    ensures ratio >= mean ==> ExitTokenRatio(balance, amountOut, ratio, mean, swapFee) == Ok(ratio)
    ensures var r := ExitTokenRatio(balance, amountOut, ratio, mean, swapFee);
            r.Ok? ==> r.value <= ratio
  {
    var r := ExitTokenRatio(balance, amountOut, ratio, mean, swapFee);
    if ratio < mean && r.Ok? {
      var nonTaxable := MulDown(balance, ONE - mean).value;
      var taxable := SatSub(amountOut, nonTaxable);
      DivUpGrows(taxable, ONE - swapFee);
      var withFee := nonTaxable + DivUp(taxable, ONE - swapFee).value;
      assert withFee >= amountOut;
      DivDownMonotone(balance - withFee, balance - amountOut, balance);
    }
  }

  /** Across the whole second pass of the exit: every untaxed token enters with its
      first-pass ratio, and no token enters with a larger one. */
  lemma ExitSecondPassRatios(balances: seq<U256>, weights: seq<U256>, amountsOut: seq<U256>,
                             swapFee: U256, ratios: seq<U256>, mean: U256)
    requires |weights| == |balances| && |amountsOut| == |balances|
    requires ExitRatiosFrom(balances, weights, amountsOut, 0, [], 0) == Ok((ratios, mean))
    ensures |ratios| == |balances|
    ensures forall j :: 0 <= j < |balances| && ratios[j] >= mean ==>
      ExitTokenRatio(balances[j], amountsOut[j], ratios[j], mean, swapFee) == Ok(ratios[j])
    ensures forall j :: 0 <= j < |balances| ==>
      var r := ExitTokenRatio(balances[j], amountsOut[j], ratios[j], mean, swapFee);
      r.Ok? ==> r.value <= ratios[j]
  {
    forall j | 0 <= j < |balances| {
      ExitTokenRatioAt(balances, weights, amountsOut, swapFee, ratios, mean, j);
    }
  }

  /** One index of ExitSecondPassRatios. */
  lemma ExitTokenRatioAt(balances: seq<U256>, weights: seq<U256>, amountsOut: seq<U256>,
                         swapFee: U256, ratios: seq<U256>, mean: U256, j: nat)
    requires |weights| == |balances| && |amountsOut| == |balances| && j < |balances|
    requires ExitRatiosFrom(balances, weights, amountsOut, 0, [], 0) == Ok((ratios, mean))
    ensures j < |ratios|
    ensures ratios[j] >= mean ==>
      ExitTokenRatio(balances[j], amountsOut[j], ratios[j], mean, swapFee) == Ok(ratios[j])
    ensures var r := ExitTokenRatio(balances[j], amountsOut[j], ratios[j], mean, swapFee);
      r.Ok? ==> r.value <= ratios[j]
  {
    ExitRatioAt(balances, weights, amountsOut, ratios, mean, j);
    ExitFeeOnlyLowersRatio(balances[j], amountsOut[j], ratios[j], mean, swapFee);
  }

  lemma ExitRatioAt(balances: seq<U256>, weights: seq<U256>, amountsOut: seq<U256>,
                    ratios: seq<U256>, mean: U256, j: nat)
    requires |weights| == |balances| && |amountsOut| == |balances| && j < |balances|
    requires ExitRatiosFrom(balances, weights, amountsOut, 0, [], 0) == Ok((ratios, mean))
    ensures amountsOut[j] <= balances[j]
    ensures DivDown(balances[j] - amountsOut[j], balances[j]) == Ok(ratios[j])
  {
  }

  /** The BPT burnt: zero when the invariant ratio does not fall below ONE, otherwise at
      most total_bpt and at least total_bpt * (ONE - ratio). */
  lemma ExitBptInBounded(balances: seq<U256>, weights: seq<U256>, amountsOut: seq<U256>,
                         totalBpt: U256, swapFee: U256, pow: (U256, U256) -> U256)
    ensures var r := ExitBptIn(balances, weights, amountsOut, totalBpt, swapFee, pow);
            var ratio := ExitInvariantRatio(balances, weights, amountsOut, swapFee, pow);
            r.Ok? ==> (ratio.Ok? &&
                       (ratio.value >= ONE ==> r.value == 0) &&
                       (ratio.value < ONE ==> r.value <= totalBpt &&
                                              r.value * ONE >= totalBpt * (ONE - ratio.value)))
  {
    var ratio := ExitInvariantRatio(balances, weights, amountsOut, swapFee, pow);
    if ratio.Ok? && ratio.value < ONE {
      MulUpShrinks(totalBpt, ONE - ratio.value);
    }
  }
}
