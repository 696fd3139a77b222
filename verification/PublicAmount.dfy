/** The amount and fee checks of the program, and the client's side of the same numbers. */
module PublicAmount {
  import opened Arithmetic
  import opened Bn254

  // ---------- field arithmetic as the program performs it ----------

  function Add(a: Element, b: Element): Element { (a + b) % P }
  function Sub(a: Element, b: Element): Element { (a - b) % P }
  function Neg(a: Element): Element { (0 - a) % P }

  /** `check_public_amount`. */
  predicate CheckPublicAmount(extAmount: I64, fee: U64, publicAmount: Word) {
    if extAmount == I64_MIN then false
    else
      var feeFr: Element := fee;
      var extFr: Element := if extAmount >= 0 then extAmount else -extAmount;
      if extAmount > 0 && extFr <= feeFr then false
      else
        var expected :=
          if extAmount > 0 then Sub(extFr, feeFr)
          else if extAmount == 0 then Neg(feeFr)
          else Neg(Add(extFr, feeFr));
        expected == publicAmount % P
  }

  /** What the check means: the word is `extAmount - fee` in the field, and a deposit exceeds its fee. */
  lemma CheckMeans(extAmount: I64, fee: U64, publicAmount: Word)
    ensures CheckPublicAmount(extAmount, fee, publicAmount)
       <==> extAmount > I64_MIN && (extAmount <= 0 || extAmount > fee) && publicAmount % P == Reduce(extAmount - fee)
  {
  }

  /** The remainder of JavaScript's `%`: it takes the sign of the dividend. */
  function TruncatedMod(v: int, m: nat): int
    requires m > 0
  {
    if v >= 0 then v % m else -((-v) % m)
  }

  /** It is the remainder of a division rounded towards zero. */
  lemma TruncatedSign(v: int, m: nat)
    requires m > 0
    ensures var r := TruncatedMod(v, m);
            && 0 < r + m < 2 * m && (v >= 0 ==> r >= 0) && (v <= 0 ==> r <= 0)
            && exists q: int :: v == q * m + r
  {
    var q := if v >= 0 then v / m else -((-v) / m);
    assert v >= 0 ==> v == (v / m) * m + v % m;
    assert v < 0 ==> -v == ((-v) / m) * m + (-v) % m;
    assert v == q * m + TruncatedMod(v, m);
  }

  /** The client's `publicAmountField`. */
  function PublicAmountField(extAmount: int, fee: int, fieldSize: nat): int
    requires fieldSize > 0
  {
    TruncatedMod(TruncatedMod(extAmount - fee, fieldSize) + fieldSize, fieldSize)
  }

  /** Taking the truncated remainder, adding the modulus and taking it again is the non-negative remainder. */
  lemma TruncatedTwice(v: int, m: nat)
    requires m > 0
    ensures TruncatedMod(TruncatedMod(v, m) + m, m) == v % m
  {
    if v >= 0 {
      DivModUnique(v % m + m, 1, m, v % m);
    } else {
      var q, r := (-v) / m, (-v) % m;
      assert -v == q * m + r;
      assert (-q) * m == -(q * m);
      if r == 0 {
        DivModUnique(v, -q, m, 0);
        DivModUnique(m, 1, m, 0);
      } else {
        assert (-q - 1) * m == (-q) * m - m;
        DivModUnique(v, -q - 1, m, m - r);
        DivModUnique(m - r, 0, m, m - r);
      }
    }
  }

  /** The client's field element is canonical, and the program accepts it exactly when a deposit exceeds its fee. */
  lemma ClientAndProgramAgree(extAmount: I64, fee: U64)
    ensures PublicAmountField(extAmount, fee, P) == Reduce(extAmount - fee)
    ensures CheckPublicAmount(extAmount, fee, PublicAmountField(extAmount, fee, P))
       <==> extAmount > I64_MIN && (extAmount <= 0 || extAmount > fee)
  {
    TruncatedTwice(extAmount - fee, P);
    hide PublicAmountField;
    hide CheckPublicAmount;
    CheckMeans(extAmount, fee, Reduce(extAmount - fee));
    ReduceIdempotent(extAmount - fee);
  }

  lemma ReduceIdempotent(x: int)
    ensures Reduce(Reduce(x)) == Reduce(x)
  {
  }

  /** With amounts below 2^248 nothing wraps: conservation in the field is conservation of integers. */
  lemma IntegerConservation(in0: nat, in1: nat, out0: nat, out1: nat, publicAmount: Word, extAmount: I64, fee: U64)
    requires in0 < AMOUNT_BOUND && in1 < AMOUNT_BOUND && out0 < AMOUNT_BOUND && out1 < AMOUNT_BOUND
    requires publicAmount % P == Reduce(extAmount - fee)
    ensures Reduce(in0 + in1 + publicAmount) == Reduce(out0 + out1) <==> in0 + in1 + extAmount - fee == out0 + out1
  {
    var k := (extAmount - fee) / P;
    var j := publicAmount / P;
    assert publicAmount == (extAmount - fee) + P * (j - k);
    var d := in0 + in1 + extAmount - fee - (out0 + out1);
    assert in0 + in1 + publicAmount == out0 + out1 + d + P * (j - k);
    assert -P < d < P;
    if d != 0 {
      DistinctResidues(out0 + out1, d, j - k);
    } else {
      SameResidue(out0 + out1, j - k);
    }
  }

  lemma SameResidue(x: int, t: int)
    ensures (x + P * t) % P == x % P
  {
  }

  lemma DistinctResidues(x: int, d: int, t: int)
    requires -P < d < P && d != 0
    ensures (x + d + P * t) % P != x % P
  {
  }

  // ---------- fees ----------

  const BPS: nat := 10000
  const U128_MAX: nat := 0xFFFFFFFF_FFFFFFFF_FFFFFFFF_FFFFFFFF

  type Rate = r: nat | r <= BPS

  datatype FeeCheck = FeeOk | FeeTooLow | FeeOverflow

  /** `x as u64` of a u128. */
  function CastU64(x: nat): U64 {
    x % (U64_MAX + 1)
  }

  /** One branch of `validate_fee`, overflow checks and casts included. */
  function CheckFee(amount: nat, provided: U64, rate: Rate, margin: Rate): FeeCheck {
    if amount * rate > U128_MAX then FeeOverflow
    else
      var expected := CastU64(amount * rate / BPS);
      if expected * (BPS - margin) > U128_MAX then FeeOverflow
      else
        var least := if expected > 0 then CastU64(expected * (BPS - margin) / BPS) else 0;
        if provided >= least then FeeOk else FeeTooLow
  }

  function ValidateFee(extAmount: I64, provided: U64, depositRate: Rate, withdrawalRate: Rate, margin: Rate): FeeCheck {
    if extAmount > 0 then CheckFee(extAmount, provided, depositRate, margin)
    else if extAmount < 0 then
      if extAmount == I64_MIN then FeeOverflow else CheckFee(-extAmount, provided, withdrawalRate, margin)
    else FeeOk
  }

  /** Percentage fee on an amount, rounded down. */
  function Percent(amount: nat, rate: nat): nat {
    amount * rate / BPS
  }

  lemma PercentExactly(amount: nat, rate: nat)
    ensures Percent(amount, rate) * 10000 <= amount * rate < Percent(amount, rate) * 10000 + 10000
  {
  }

  /** The least fee the program takes for an amount, without machine arithmetic. */
  function LeastFee(amount: nat, rate: Rate, margin: Rate): nat {
    Percent(Percent(amount, rate), BPS - margin)
  }

  lemma PercentBounds(amount: nat, rate: Rate)
    ensures Percent(amount, rate) <= amount
    ensures amount * rate <= amount * BPS
  {
    assert amount * rate <= amount * BPS by {
      assert amount * BPS - amount * rate == amount * (BPS - rate);
    }
  }

  /** Within u64 no multiplication overflows and no cast loses anything. */
  lemma CheckFeeExact(amount: nat, provided: U64, rate: Rate, margin: Rate)
    requires amount <= U64_MAX
    ensures CheckFee(amount, provided, rate, margin)
         == if provided >= LeastFee(amount, rate, margin) then FeeOk else FeeTooLow
  {
    PercentBounds(amount, rate);
    var expected := Percent(amount, rate);
    PercentBounds(expected, BPS - margin);
    assert CastU64(expected) == expected;
    assert CastU64(Percent(expected, BPS - margin)) == Percent(expected, BPS - margin);
  }

  /** `validate_fee` accepts exactly the fees at or above the rate, less the margin. */
  lemma ValidateFeeExact(extAmount: I64, provided: U64, depositRate: Rate, withdrawalRate: Rate, margin: Rate)
    requires extAmount > I64_MIN
    ensures ValidateFee(extAmount, provided, depositRate, withdrawalRate, margin).FeeOk?
       <==> || extAmount == 0
            || (extAmount > 0 && provided >= LeastFee(extAmount, depositRate, margin))
            || (extAmount < 0 && provided >= LeastFee(-extAmount, withdrawalRate, margin))
  {
    if extAmount > 0 {
      CheckFeeExact(extAmount, provided, depositRate, margin);
    } else if extAmount < 0 {
      CheckFeeExact(-extAmount, provided, withdrawalRate, margin);
    }
  }
}
