/** Withdrawal, send and deposit fees: what the client charges, the relayer demands and the program demands. */
module Fees {
  import opened Arithmetic
  import opened Bn254
  import opened PublicAmount
  import opened TokenFee

  /** The client's fee inputs for one pool: rate, the SOL surcharge (zero for tokens), and the quoted floor. */
  datatype Quote = Quote(bps: Rate, surcharge: nat, floor: nat)

  function Max(a: nat, b: nat): nat {
    if a >= b then a else b
  }

  /** The client's `withdrawFee`. */
  function WithdrawFee(q: Quote, amount: nat): nat {
    Max(Percent(amount, q.bps) + q.surcharge, q.floor)
  }

  /** The relayer's `minFee` for a withdrawal: 5% off the percentage, 20% off the floor. */
  function RelayerWithdrawMin(q: Quote, amount: nat): nat {
    Max((Percent(amount, q.bps) + q.surcharge) * 95 / 100, q.floor * 80 / 100)
  }

  /** The relayer's `minFee` for a send. */
  function RelayerSendMin(flat: nat): nat {
    flat * 80 / 100
  }

  /** A flat quote that has risen by at most a quarter since the client read it. */
  predicate RoseByAQuarter(quoted: nat, current: nat) {
    4 * current <= 5 * quoted
  }

  /** The discounted flat fee is covered by an older quote exactly while the rise is about a quarter. */
  lemma SendFeePasses(quoted: nat, current: nat)
    ensures quoted >= RelayerSendMin(current) <==> 4 * current < 5 * quoted + 5
  {
  }

  /** The client charges the least fee that covers the percentage with its surcharge, and the floor. */
  lemma WithdrawFeeExactly(q: Quote, amount: nat, fee: nat)
    ensures fee >= WithdrawFee(q, amount) <==> fee >= Percent(amount, q.bps) + q.surcharge && fee >= q.floor
  {
  }

  /** The relayer takes a withdrawal exactly for nineteen twentieths of the one and four fifths of the other. */
  lemma WithdrawalTakenExactly(q: Quote, amount: nat, fee: nat)
    ensures fee >= RelayerWithdrawMin(q, amount)
       <==> 19 * (Percent(amount, q.bps) + q.surcharge) < 20 * fee + 20 && 4 * q.floor < 5 * fee + 5
  {
  }

  lemma PercentMonotone(a: nat, b: nat, rate: nat)
    requires a <= b
    ensures Percent(a, rate) <= Percent(b, rate)
  {
    MulMonotone(a, b, rate);
  }

  /** From margin 500 on, the relayer's 5% tolerance never undercuts the program's. */
  lemma RelayerCoversProgram(q: Quote, amount: nat, margin: Rate)
    requires margin >= 500
    ensures RelayerWithdrawMin(q, amount) >= LeastFee(amount, q.bps, margin)
  {
    var e := Percent(amount, q.bps);
    MulMonotone(BPS - margin, 9500, e);
    assert e * (BPS - margin) <= e * 9500;
    assert e * 9500 / BPS == e * 95 / 100;
  }

  /**
   * Thresholds nest: what the client pays for a withdrawal satisfies the relayer even if the floor rose by a quarter
   * meanwhile, and what satisfies the relayer satisfies the program.
   */
  lemma WithdrawThresholdsNest(q: Quote, current: nat, amount: nat, margin: Rate)
    requires margin >= 500 && RoseByAQuarter(q.floor, current)
    ensures WithdrawFee(q, amount) >= RelayerWithdrawMin(q.(floor := current), amount)
    ensures RelayerWithdrawMin(q.(floor := current), amount) >= LeastFee(amount, q.bps, margin)
  {
    RelayerCoversProgram(q.(floor := current), amount, margin);
  }

  /** The margin of 500 is exact: below it, at any non-zero rate, some amount passes the relayer, not the program. */
  lemma MarginIsExact(bps: Rate, margin: Rate)
    requires bps > 0
    ensures margin >= 500
         <==> forall amount: nat :: RelayerWithdrawMin(Quote(bps, 0, 0), amount) >= LeastFee(amount, bps, margin)
  {
    if margin >= 500 {
      forall amount: nat
        ensures RelayerWithdrawMin(Quote(bps, 0, 0), amount) >= LeastFee(amount, bps, margin)
      {
        RelayerCoversProgram(Quote(bps, 0, 0), amount, margin);
      }
    } else {
      var amount := BPS * BPS;
      assert Percent(amount, bps) == BPS * bps;
      assert LeastFee(amount, bps, margin) == bps * (BPS - margin) by {
        assert BPS * bps * (BPS - margin) == BPS * (bps * (BPS - margin));
      }
      assert RelayerWithdrawMin(Quote(bps, 0, 0), amount) == bps * 9500;
      MulMonotone(9501, BPS - margin, bps);
    }
  }

  /** The program's margin forgives what its rate has risen by since the client read it. */
  predicate MarginForgives(rate: Rate, margin: Rate, quoted: Rate) {
    rate * (BPS - margin) <= quoted * BPS
  }

  /** A percentage at a rate the client read covers the program's minimum if the margin forgives the rise. */
  lemma QuotedCovers(amount: nat, quoted: Rate, rate: Rate, margin: Rate)
    requires MarginForgives(rate, margin, quoted)
    ensures Percent(amount, quoted) >= LeastFee(amount, rate, margin)
  {
    var e := BPS - margin;
    MulMonotone(Percent(amount, rate) * BPS, amount * rate, e);
    Rearranged(Percent(amount, rate), e);
    MulMonotone(rate * e, quoted * BPS, amount);
    Reordered(amount, rate, e);
    Rearranged(quoted, amount);
    assert (Percent(amount, rate) * e) * BPS <= (amount * quoted) * BPS;
  }

  lemma Rearranged(x: nat, y: nat)
    ensures (x * BPS) * y == (x * y) * BPS == (y * x) * BPS
  {
  }

  lemma Reordered(a: nat, r: nat, e: nat)
    ensures (a * r) * e == (r * e) * a
  {
  }

  /** A ten-thousandth of a ten-thousandth brings out the rates themselves. */
  lemma RatesOnSquare(rate: Rate, margin: Rate)
    ensures Percent(BPS * BPS, rate) == BPS * rate
    ensures LeastFee(BPS * BPS, rate, margin) == rate * (BPS - margin)
  {
    Rearranged(rate, BPS - margin);
    assert Percent(BPS * rate, BPS - margin) == (BPS * rate) * (BPS - margin) / BPS;
  }

  /** The client's deposit fee at the rate it read passes the program's check for one amount. */
  lemma DepositFeePasses(amount: I64, quoted: Rate, rate: Rate, withdrawalRate: Rate, margin: Rate)
    requires amount > 0 && MarginForgives(rate, margin, quoted)
    ensures Percent(amount, quoted) <= U64_MAX
    ensures ValidateFee(amount, Percent(amount, quoted), rate, withdrawalRate, margin).FeeOk?
  {
    PercentBounds(amount, quoted);
    QuotedCovers(amount, quoted, rate, margin);
    ValidateFeeExact(amount, Percent(amount, quoted), rate, withdrawalRate, margin);
  }

  /** Every deposit passes exactly if the margin forgives the rise. */
  lemma DepositFeesPassExactly(quoted: Rate, rate: Rate, withdrawalRate: Rate, margin: Rate)
    ensures MarginForgives(rate, margin, quoted)
       <==> forall amount: I64 | amount > 0 && Percent(amount, quoted) <= U64_MAX ::
              ValidateFee(amount, Percent(amount, quoted), rate, withdrawalRate, margin).FeeOk?
  {
    hide ValidateFee;
    if MarginForgives(rate, margin, quoted) {
      forall amount: I64 | amount > 0 && Percent(amount, quoted) <= U64_MAX
        ensures ValidateFee(amount, Percent(amount, quoted), rate, withdrawalRate, margin).FeeOk?
      {
        DepositFeePasses(amount, quoted, rate, withdrawalRate, margin);
      }
    } else {
      var amount: I64 := BPS * BPS;
      RatesOnSquare(quoted, margin);
      RatesOnSquare(rate, margin);
      ValidateFeeExact(amount, Percent(amount, quoted), rate, withdrawalRate, margin);
    }
  }

  /** The client's withdrawal fee passes for one amount, whatever surcharge and floor came on top. */
  lemma WithdrawFeePasses(q: Quote, amount: int, depositRate: Rate, rate: Rate, margin: Rate)
    requires 0 < amount <= I64_MAX && WithdrawFee(q, amount) <= U64_MAX && MarginForgives(rate, margin, q.bps)
    ensures ValidateFee(0 - amount, WithdrawFee(q, amount), depositRate, rate, margin).FeeOk?
  {
    QuotedCovers(amount, q.bps, rate, margin);
    ValidateFeeExact(0 - amount, WithdrawFee(q, amount), depositRate, rate, margin);
  }

  /** A withdrawal a quote can pay passes the program's check. */
  predicate WithdrawalPasses(q: Quote, amount: int, depositRate: Rate, rate: Rate, margin: Rate) {
    0 < amount <= I64_MAX && WithdrawFee(q, amount) <= U64_MAX ==>
      ValidateFee(0 - amount, WithdrawFee(q, amount), depositRate, rate, margin).FeeOk?
  }

  /** Every withdrawal at every surcharge and floor passes exactly if the margin forgives the rise. */
  lemma WithdrawFeesPassExactly(quoted: Rate, depositRate: Rate, rate: Rate, margin: Rate)
    ensures MarginForgives(rate, margin, quoted)
       <==> forall q: Quote, amount: int | q.bps == quoted :: WithdrawalPasses(q, amount, depositRate, rate, margin)
  {
    hide ValidateFee;
    if MarginForgives(rate, margin, quoted) {
      forall q: Quote, amount: int | q.bps == quoted
        ensures WithdrawalPasses(q, amount, depositRate, rate, margin)
      {
        if 0 < amount <= I64_MAX && WithdrawFee(q, amount) <= U64_MAX {
          WithdrawFeePasses(q, amount, depositRate, rate, margin);
        }
      }
    } else {
      var q, amount := Quote(quoted, 0, 0), BPS * BPS;
      RatesOnSquare(quoted, margin);
      RatesOnSquare(rate, margin);
      ValidateFeeExact(0 - amount, WithdrawFee(q, amount), depositRate, rate, margin);
      assert !WithdrawalPasses(q, amount, depositRate, rate, margin);
    }
  }
}
