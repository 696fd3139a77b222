/** Token-2022 transfer fees: a rounded-up percentage clipped at a maximum, and its inverse. */
module TokenFee {
  import opened Arithmetic
  import opened Bn254
  import opened PublicAmount

  datatype TransferFee = TransferFee(bps: Rate, maximum: nat)

  datatype Option<T> = None | Some(value: T)

  function CeilDiv(a: nat, b: nat): nat
    requires b > 0
  {
    (a + b - 1) / b
  }

  function Min(a: nat, b: nat): nat {
    if a <= b then a else b
  }

  /** The mint's fee on a transfer of `amount`. */
  function FeeOn(f: TransferFee, amount: nat): nat {
    Min(CeilDiv(amount * f.bps, BPS), f.maximum)
  }

  /** What arrives of `amount`. */
  function NetOf(f: TransferFee, amount: nat): int {
    amount - FeeOn(f, amount)
  }

  /** The amount to send so that `net` arrives. At the full rate only the cap limits the fee. */
  function PreFee(f: TransferFee, net: nat): nat {
    if f.bps == 0 then net
    else if net == 0 then 0
    else if f.bps == BPS then net + f.maximum
    else
      var raw := CeilDiv(net * BPS, BPS - f.bps);
      if raw - net >= f.maximum then net + f.maximum else raw
  }

  /** `ceil(a / b) <= c` exactly when `a <= c * b`. */
  lemma CeilDivAtMost(a: nat, b: nat, c: nat)
    requires b > 0
    ensures CeilDiv(a, b) <= c <==> a <= c * b
  {
    var m := a + b - 1;
    var q := CeilDiv(a, b);
    assert m == q * b + m % b;
    if q <= c {
      MulMonotone(q, c, b);
    }
    if a <= c * b && q > c {
      MulMonotone(c + 1, q, b);
    }
  }

  /** The percentage part alone: sending `amount` leaves at least `net` exactly when `amount` covers the gross-up. */
  lemma PercentInverse(f: TransferFee, net: nat, amount: nat)
    ensures net <= amount - CeilDiv(amount * f.bps, BPS) <==> net * BPS <= amount * (BPS - f.bps)
  {
    assert amount * (BPS - f.bps) == amount * BPS - amount * f.bps;
    if net <= amount {
      CeilDivAtMost(amount * f.bps, BPS, amount - net);
      assert (amount - net) * BPS == amount * BPS - net * BPS;
    } else {
      assert amount * f.bps >= 0;
      MulMonotone(amount + 1, net, BPS);
    }
  }

  /** Gross and net are a Galois connection, for every rate and every cap, as soon as something is to arrive. */
  lemma GrossNetConnection(f: TransferFee, net: nat, amount: nat)
    requires net > 0 || f.bps < BPS
    ensures PreFee(f, net) <= amount <==> net <= NetOf(f, amount)
  {
    PercentInverse(f, net, amount);
    FeeAtMost(f, amount);
    if f.bps == 0 {
      assert amount * f.bps == 0;
    } else if f.bps < BPS && net > 0 {
      CeilDivAtMost(net * BPS, BPS - f.bps, amount);
    } else if net > 0 {
      assert amount * (BPS - f.bps) == 0;
    }
  }

  /** The mint takes the least fee that is at the cap, or covers the rate. */
  lemma FeeOnExactly(f: TransferFee, amount: nat, fee: nat)
    ensures fee >= FeeOn(f, amount) <==> fee >= f.maximum || fee * 10000 >= amount * f.bps
  {
    CeilDivAtMost(amount * f.bps, BPS, fee);
  }

  lemma FeeAtMost(f: TransferFee, amount: nat)
    ensures FeeOn(f, amount) <= amount
  {
    PercentBounds(amount, f.bps);
    CeilDivAtMost(amount * f.bps, BPS, amount);
  }

  /** One more unit sent is at most one more unit received, and never less. */
  lemma NetSteps(f: TransferFee, amount: nat)
    ensures NetOf(f, amount) <= NetOf(f, amount + 1) <= NetOf(f, amount) + 1
  {
    var a, b := amount * f.bps, (amount + 1) * f.bps;
    assert b == a + f.bps;
    var q := CeilDiv(a, BPS);
    CeilDivAtMost(a, BPS, q);
    assert (q + 1) * BPS == q * BPS + BPS;
    CeilDivAtMost(b, BPS, q + 1);
    CeilDivAtMost(b, BPS, CeilDiv(b, BPS));
    CeilDivAtMost(a, BPS, CeilDiv(b, BPS));
  }

  lemma {:induction false} NetMonotone(f: TransferFee, a: nat, b: nat)
    requires a <= b
    ensures NetOf(f, a) <= NetOf(f, b)
    decreases b - a
  {
    if a < b {
      NetMonotone(f, a, b - 1);
      NetSteps(f, b - 1);
    }
  }

  /** Sending the gross-up delivers exactly `net`, so the vault's receipt check cannot fail for a fee-only mint. */
  lemma PreFeeExact(f: TransferFee, net: nat)
    ensures NetOf(f, PreFee(f, net)) == net
  {
    if net > 0 {
      var gross := PreFee(f, net);
      GrossNetConnection(f, net, gross);
      assert gross > 0 by { FeeAtMost(f, gross); }
      GrossNetConnection(f, net, gross - 1);
      NetSteps(f, gross - 1);
    }
  }

  // ---------- the client's deposit preview ----------

  datatype Preview = Preview(tokenFee: nat, net: nat, protocolFee: nat, credited: nat) | DivisionByZero

  /** What the preview amounts to: mint fee first, then the protocol's percentage of the rest. */
  function Credited(f: TransferFee, depositBps: Rate, amount: nat): (c: nat)
    ensures c <= amount
  {
    FeeAtMost(f, amount);
    var net := NetOf(f, amount);
    PercentBounds(net, depositBps);
    net - Percent(net, depositBps)
  }

  /** The client's gross-up, which has no case of its own for the full rate: there it divides by zero. */
  predicate GrossUpDefined(f: TransferFee) {
    f.bps < BPS
  }

  /**
   * `depositPreview`. The correction loop never takes a step; at the full rate the preview fails whenever something
   * would arrive.
   */
  method DepositPreview(f: TransferFee, depositBps: Rate, amount: nat) returns (p: Preview)
    ensures p.DivisionByZero? <==> f.bps == BPS && NetOf(f, amount) > 0
    ensures p.Preview? ==> p.tokenFee == FeeOn(f, amount) && p.tokenFee + p.net == amount
    ensures p.Preview? ==> p.credited + p.protocolFee == p.net && p.protocolFee == Percent(p.net, depositBps)
    ensures p.Preview? ==> p.credited == Credited(f, depositBps, amount)
    ensures p.Preview? && p.net > 0 ==> PreFee(f, p.net) <= amount
  {
    FeeAtMost(f, amount);
    var tokenFee := FeeOn(f, amount);
    var net := amount - tokenFee;
    if net > 0 {
      if !GrossUpDefined(f) {
        return DivisionByZero;
      }
      ghost var start := net;
      while net > 0 && PreFee(f, net) > amount
        invariant net <= start
        invariant net < start ==> PreFee(f, net + 1) > amount
        decreases net
      {
        net := net - 1;
      }
      GrossNetConnection(f, net + 1, amount);
    }
    PercentBounds(net, depositBps);
    var protocolFee := Percent(net, depositBps);
    return Preview(tokenFee, net, protocolFee, net - protocolFee);
  }

  /** Both fee layers are monotone: a larger deposit never credits less. */
  lemma CreditedMonotone(f: TransferFee, depositBps: Rate, a: nat, b: nat)
    requires a <= b
    ensures Credited(f, depositBps, a) <= Credited(f, depositBps, b)
  {
    FeeAtMost(f, a);
    FeeAtMost(f, b);
    NetMonotone(f, a, b);
    RemainderMonotone(NetOf(f, a), NetOf(f, b), depositBps);
  }

  lemma RemainderMonotone(a: nat, b: nat, rate: Rate)
    requires a <= b
    ensures a - Percent(a, rate) <= b - Percent(b, rate)
  {
    var d := b - a;
    PercentBounds(d, rate);
    assert b * rate == a * rate + d * rate;
    assert b * rate <= a * rate + d * BPS;
    assert b * rate / BPS <= (a * rate + d * BPS) / BPS == a * rate / BPS + d;
  }
}
