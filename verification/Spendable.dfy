/**
 * The most one withdrawal can move: a fixed point sought by six rounds of `max = top - fee(max)` and then by counting
 * down at most a thousand times.
 */
module Spendable {
  import opened Arithmetic
  import opened Bn254
  import opened Fees
  import opened PublicAmount
  import opened TokenFee

  const ROUNDS: nat := 6
  const STEPS: nat := 1000

  /** `x` and its fee fit into `top`; nothing at all always fits. */
  predicate Fits(q: Quote, top: nat, x: int) {
    x <= 0 || x + WithdrawFee(q, x) <= top
  }

  /** The candidate after `k` rounds; a round that has reached nothing stays there. */
  function Round(q: Quote, top: nat, k: nat): (x: int)
    ensures x <= top
  {
    if k == 0 then top
    else
      var x := Round(q, top, k - 1);
      if x > 0 then top - WithdrawFee(q, x) else x
  }

  /** One unit more costs at most one unit of fee more. */
  lemma FeeStep(q: Quote, x: nat)
    ensures WithdrawFee(q, x) <= WithdrawFee(q, x + 1) <= WithdrawFee(q, x) + 1
  {
    assert (x + 1) * q.bps == x * q.bps + q.bps;
  }

  lemma FeeMonotone(q: Quote, a: nat, b: nat)
    requires a <= b
    ensures WithdrawFee(q, a) <= WithdrawFee(q, b)
  {
    PercentMonotone(a, b, q.bps);
  }

  lemma FitsBelow(q: Quote, top: nat, a: int, b: int)
    requires a <= b && Fits(q, top, b)
    ensures Fits(q, top, a)
  {
    if a > 0 {
      FeeMonotone(q, a, b);
    }
  }

  /** The first loop: at most six rounds, fewer if one leaves nothing. */
  method SixRounds(q: Quote, top: nat) returns (m: int, fee: nat)
    ensures m == Round(q, top, ROUNDS)
    ensures top == 0 ==> fee == 0
    ensures top > 0 && WithdrawFee(q, top) >= top ==> fee == WithdrawFee(q, top)
  {
    hide WithdrawFee;
    fee := 0;
    m := top;
    var i := 0;
    while i < ROUNDS && m > 0
      invariant 0 <= i <= ROUNDS && m == Round(q, top, i)
      invariant i == 0 ==> fee == 0
      invariant i > 0 ==> fee == top - m && Round(q, top, i - 1) > 0
    {
      fee := WithdrawFee(q, m);
      m := top - fee;
      i := i + 1;
    }
    RoundStays(q, top, i, ROUNDS);
    if i > 1 {
      RoundsLeaveSomething(q, top, i - 1);
    }
  }

  /** The second loop: down by one, at most a thousand times, to the first candidate that fits. */
  method CountDown(q: Quote, top: nat, start: int, feeBefore: nat) returns (m: int, fee: nat)
    ensures start - STEPS <= m <= start && (if start > 0 then m >= 0 else m == start && fee == feeBefore)
    ensures forall y | m < y <= start :: !Fits(q, top, y)
    ensures m > 0 && m > start - STEPS ==> Fits(q, top, m) && fee == WithdrawFee(q, m)
    ensures start > 0 && (m == 0 || m == start - STEPS) ==> fee == WithdrawFee(q, m + 1)
  {
    hide WithdrawFee;
    m, fee := start, feeBefore;
    var i := 0;
    while i < STEPS && m > 0
      invariant 0 <= i <= STEPS && m == start - i && (start > 0 ==> m >= 0)
      invariant forall y | m < y <= start :: !Fits(q, top, y)
      invariant if i == 0 then fee == feeBefore else m >= 0 && fee == WithdrawFee(q, m + 1)
    {
      fee := WithdrawFee(q, m);
      if m + fee <= top {
        break;
      }
      m := m - 1;
      i := i + 1;
    }
  }

  /**
   * `spendable('withdraw')`. The answer fits exactly when the countdown is long enough for where the rounds ended, and
   * then it is the first candidate on the way down that fits. Nothing above it fits exactly if the fee on everything
   * leaves something, or nothing fits at all. The fee is the last one looked up.
   */
  method SpendableWithdraw(q: Quote, top: nat) returns (max: nat, fee: nat)
    ensures Fits(q, top, max) <==> Fits(q, top, Round(q, top, ROUNDS) - STEPS)
    ensures CountdownCovers(q, WithdrawFee(q, top), ROUNDS) ==> Fits(q, top, max)
    ensures Fits(q, top, max) && max > 0 ==> max <= Round(q, top, ROUNDS)
    ensures !Fits(q, top, max) ==> max == Round(q, top, ROUNDS) - STEPS
    ensures fee == if top == 0 then 0
                   else if WithdrawFee(q, top) >= top then WithdrawFee(q, top)
                   else if max > 0 && max > Round(q, top, ROUNDS) - STEPS then WithdrawFee(q, max)
                   else WithdrawFee(q, max + 1)
    ensures Fits(q, top, max) ==> forall y | max < y <= Round(q, top, ROUNDS) :: !Fits(q, top, y)
    ensures (forall y: nat | y > max :: !Fits(q, top, y)) <==> WithdrawFee(q, top) < top || !Fits(q, top, 1)
  {
    hide WithdrawFee;
    hide CountdownCovers;
    var start, feeBefore := SixRounds(q, top);
    RoundsLeaveSomething(q, top, ROUNDS);
    hide Round;
    var m;
    m, fee := CountDown(q, top, start, feeBefore);
    if Fits(q, top, m) {
      FitsBelow(q, top, start - STEPS, m);
    }
    max := if m < 0 then 0 else m;
    if CountdownCovers(q, WithdrawFee(q, top), ROUNDS) {
      CountdownReaches(q, top);
    }
    NothingAboveFits(q, top, max);
  }

  /** `spendable('send')`: everything but the flat fee, or nothing. */
  method SpendableSend(top: nat, flat: nat) returns (max: nat, fee: nat)
    ensures fee == flat
    ensures if top > flat then max + fee == top else max == 0
  {
    fee := flat;
    var m: int := top - fee;
    max := if m < 0 then 0 else m;
  }

  lemma {:induction false} RoundStays(q: Quote, top: nat, k: nat, n: nat)
    requires k <= n && (k == n || Round(q, top, k) <= 0)
    ensures Round(q, top, n) == Round(q, top, k)
    decreases n - k
  {
    if k < n {
      RoundStays(q, top, k, n - 1);
    }
  }

  // ---------- where the rounds stop ----------

  lemma {:induction false} RoundsPositive(q: Quote, top: nat, k: nat, n: nat)
    requires k <= n && Round(q, top, n) > 0
    ensures Round(q, top, k) > 0
    decreases n - k
  {
    if k < n {
      RoundsPositive(q, top, k, n - 1);
    }
  }

  /** Every round leaves something exactly if the first one does. */
  lemma {:induction false} RoundsLeaveSomething(q: Quote, top: nat, k: nat)
    requires k > 0
    ensures Round(q, top, k) > 0 <==> WithdrawFee(q, top) < top
  {
    hide WithdrawFee;
    if WithdrawFee(q, top) < top {
      if k > 1 {
        RoundsLeaveSomething(q, top, k - 1);
        FeeMonotone(q, Round(q, top, k - 1), top);
      }
    } else if Round(q, top, k) > 0 {
      RoundsPositive(q, top, 1, k);
    }
  }

  // ---------- whether the countdown is long enough ----------

  /** By how much round `k` and the next differ: even rounds are too high, odd ones too low. */
  function Gap(q: Quote, top: nat, k: nat): int {
    if k % 2 == 0 then Round(q, top, k) - Round(q, top, k + 1) else Round(q, top, k + 1) - Round(q, top, k)
  }

  /** The percentage and the surcharge reach the quoted floor, so that the fee follows the amount from here on. */
  predicate AboveFloor(q: Quote, x: int) {
    x > 0 && q.floor <= Percent(x, q.bps) + q.surcharge
  }

  lemma AboveFloorGrows(q: Quote, a: int, b: int)
    requires AboveFloor(q, a) && a <= b
    ensures AboveFloor(q, b)
  {
    PercentMonotone(a, b, q.bps);
  }

  /** A change of the amount reaches the fee by the rate, up to a unit; above the floor it reaches it in full. */
  lemma FeeContracts(q: Quote, a: nat, b: nat)
    requires a <= b
    ensures 0 <= WithdrawFee(q, b) - WithdrawFee(q, a)
    ensures (WithdrawFee(q, b) - WithdrawFee(q, a)) * BPS <= (b - a) * q.bps + BPS
    ensures AboveFloor(q, a) ==> (WithdrawFee(q, b) - WithdrawFee(q, a)) * BPS >= (b - a) * q.bps - BPS
  {
    hide Percent;
    PercentContracts(a, b - a, q.bps);
  }

  lemma PercentContracts(a: nat, d: nat, rate: nat)
    ensures Percent(a, rate) <= Percent(a + d, rate)
    ensures d * rate - BPS <= (Percent(a + d, rate) - Percent(a, rate)) * BPS <= d * rate + BPS
  {
    assert (a + d) * rate == a * rate + d * rate;
    QuotientStep(a * rate, d * rate);
  }

  lemma QuotientStep(x: nat, y: nat)
    ensures x / BPS <= (x + y) / BPS
    ensures y - BPS <= ((x + y) / BPS - x / BPS) * BPS <= y + BPS
  {
  }

  /** Each round closes the gap by the rate. */
  lemma GapContracts(q: Quote, top: nat, k: nat)
    requires Round(q, top, k) > 0 && Round(q, top, k + 1) > 0 && Gap(q, top, k) >= 0
    ensures 0 <= Gap(q, top, k + 1)
    ensures Gap(q, top, k + 1) * BPS <= Gap(q, top, k) * q.bps + BPS
    ensures AboveFloor(q, Round(q, top, k)) && AboveFloor(q, Round(q, top, k + 1)) ==>
              Gap(q, top, k + 1) * BPS >= Gap(q, top, k) * q.bps - BPS
  {
    hide WithdrawFee;
    hide AboveFloor;
    var a, b := Round(q, top, k), Round(q, top, k + 1);
    assert Round(q, top, k + 2) == top - WithdrawFee(q, b);
    if k % 2 == 0 {
      FeeContracts(q, b, a);
    } else {
      FeeContracts(q, a, b);
    }
  }

  /** One factor more on both sides of a bound, with one unit of rounding more. */
  lemma ScaledBound(gap: nat, next: nat, first: nat, rate: Rate, k: nat)
    requires gap * Power(BPS, k) <= first * Power(rate, k) + k * Power(BPS, k)
    requires next * BPS <= gap * rate + BPS
    ensures next * Power(BPS, k + 1) <= first * Power(rate, k + 1) + (k + 1) * Power(BPS, k + 1)
  {
    ScaledUp(gap, next, first, rate, k, Power(BPS, k), Power(rate, k));
  }

  lemma ScaledUp(gap: nat, next: nat, first: nat, rate: Rate, k: nat, s: nat, r: nat)
    requires gap * s <= first * r + k * s && next * BPS <= gap * rate + BPS
    ensures next * (BPS * s) <= first * (rate * r) + (k + 1) * (BPS * s)
  {
    MulMonotone(next * BPS, gap * rate + BPS, s);
    MulMonotone(gap * s, first * r + k * s, rate);
    Products(gap, next, first, rate, k, s, r);
  }

  lemma ScaledLowerBound(gap: nat, next: nat, first: nat, rate: Rate, k: nat)
    requires gap * Power(BPS, k) >= first * Power(rate, k) - k * Power(BPS, k)
    requires next * BPS >= gap * rate - BPS
    ensures next * Power(BPS, k + 1) >= first * Power(rate, k + 1) - (k + 1) * Power(BPS, k + 1)
  {
    ScaledDown(gap, next, first, rate, k, Power(BPS, k), Power(rate, k));
  }

  lemma ScaledDown(gap: nat, next: nat, first: nat, rate: Rate, k: nat, s: nat, r: nat)
    requires gap * s + k * s >= first * r && next * BPS + BPS >= gap * rate
    ensures next * (BPS * s) >= first * (rate * r) - (k + 1) * (BPS * s)
  {
    MulMonotone(gap * rate, next * BPS + BPS, s);
    MulMonotone(first * r, gap * s + k * s, rate);
    Products(gap, next, first, rate, k, s, r);
  }

  /** The products of the two lemmas above, multiplied out. */
  lemma Products(gap: nat, next: nat, first: nat, rate: Rate, k: nat, s: nat, r: nat)
    ensures (next * BPS) * s == next * (BPS * s) && (next * BPS + BPS) * s == next * (BPS * s) + BPS * s
    ensures (gap * rate + BPS) * s == (gap * rate) * s + BPS * s && (gap * rate) * s == (gap * s) * rate
    ensures (first * r + k * s) * rate == (first * r) * rate + (k * s) * rate
    ensures (first * r) * rate == first * (rate * r)
    ensures (gap * s + k * s) * rate == (gap * s) * rate + (k * s) * rate
    ensures (k * s) * rate <= k * (BPS * s) && (k + 1) * (BPS * s) == k * (BPS * s) + BPS * s
  {
    Commutes(gap, rate, s);
    Commutes(first, r, rate);
    MulMonotone(rate, BPS, k * s);
    Commutes(k, BPS, s);
  }

  lemma Commutes(a: nat, b: nat, c: nat)
    ensures (a * b) * c == (a * c) * b == a * (c * b) == a * (b * c)
  {
  }

  /** Between rounds `j` and `k` the gap shrinks by the rate to the power of their distance, up to a unit a round. */
  lemma {:induction false} GapAtMost(q: Quote, top: nat, j: nat, k: nat)
    requires j <= k && Round(q, top, k) > 0 && Gap(q, top, j) >= 0
    ensures 0 <= Gap(q, top, k)
    ensures Gap(q, top, k) * Power(BPS, k - j) <= Gap(q, top, j) * Power(q.bps, k - j) + (k - j) * Power(BPS, k - j)
    decreases k - j
  {
    hide WithdrawFee;
    hide Gap;
    if j < k {
      RoundsPositive(q, top, k - 1, k);
      GapAtMost(q, top, j, k - 1);
      GapContracts(q, top, k - 1);
      ScaledBound(Gap(q, top, k - 1), Gap(q, top, k), Gap(q, top, j), q.bps, k - 1 - j);
    }
  }

  /** From an even round on, that round and the one after it enclose all others. */
  lemma {:induction false} RoundsEnclosed(q: Quote, top: nat, j: nat, k: nat)
    requires j <= k && Round(q, top, k) > 0 && Round(q, top, j) > 0 && Round(q, top, j + 1) > 0
    requires Round(q, top, j + 1) <= Round(q, top, j) && Round(q, top, j + 2) <= Round(q, top, j)
    ensures Round(q, top, j + 1) <= Round(q, top, k) <= Round(q, top, j)
    decreases k - j
  {
    hide WithdrawFee;
    if j < k {
      RoundsPositive(q, top, k - 1, k);
      RoundsEnclosed(q, top, j, k - 1);
      FeeMonotone(q, Round(q, top, k - 1), Round(q, top, j));
      FeeMonotone(q, Round(q, top, j + 1), Round(q, top, k - 1));
    }
  }

  /** Where the lowest of these rounds is above the floor, the gap shrinks no faster. */
  lemma {:induction false} GapAtLeast(q: Quote, top: nat, j: nat, k: nat)
    requires j <= k && Round(q, top, k) > 0 && Round(q, top, j) > 0 && Gap(q, top, j) >= 0
    requires Round(q, top, j + 1) <= Round(q, top, j) && Round(q, top, j + 2) <= Round(q, top, j)
    requires AboveFloor(q, Round(q, top, j + 1))
    ensures Gap(q, top, k) * Power(BPS, k - j) >= Gap(q, top, j) * Power(q.bps, k - j) - (k - j) * Power(BPS, k - j)
    decreases k - j
  {
    hide WithdrawFee;
    hide Gap;
    hide AboveFloor;
    hide Power;
    PowerOne(q.bps);
    if j < k {
      RoundsPositive(q, top, k - 1, k);
      LowestPositive(q, Round(q, top, j + 1));
      RoundsEnclosed(q, top, j, k - 1);
      RoundsEnclosed(q, top, j, k);
      AboveFloorGrows(q, Round(q, top, j + 1), Round(q, top, k - 1));
      AboveFloorGrows(q, Round(q, top, j + 1), Round(q, top, k));
      GapAtMost(q, top, j, k - 1);
      GapAtLeast(q, top, j, k - 1);
      GapContracts(q, top, k - 1);
      ScaledLowerBound(Gap(q, top, k - 1), Gap(q, top, k), Gap(q, top, j), q.bps, k - 1 - j);
    }
  }

  lemma PowerOne(rate: nat)
    ensures Power(BPS, 0) == 1 && Power(rate, 0) == 1
  {
  }

  lemma LowestPositive(q: Quote, x: int)
    requires AboveFloor(q, x)
    ensures x > 0
  {
  }

  /** The first gap is the fee on everything. */
  lemma FirstGap(q: Quote, top: nat)
    requires top > 0
    ensures Gap(q, top, 0) == WithdrawFee(q, top)
  {
  }

  /** The last gap is what the sixth candidate and its fee exceed `top` by. */
  lemma LastGap(q: Quote, top: nat)
    requires Round(q, top, ROUNDS) > 0
    ensures var x := Round(q, top, ROUNDS); Gap(q, top, ROUNDS) == x + WithdrawFee(q, x) - top
    ensures Round(q, top, ROUNDS) <= top - q.floor
  {
    hide Percent;
    RoundsPositive(q, top, ROUNDS - 1, ROUNDS);
    assert Round(q, top, ROUNDS + 1) == top - WithdrawFee(q, Round(q, top, ROUNDS));
  }

  /** What the countdown takes off: its steps, and the percentage on them. */
  function Reach(q: Quote): nat {
    STEPS + STEPS * q.bps / BPS
  }

  lemma StepsOwnFee(x: nat, rate: nat)
    requires x >= STEPS
    ensures STEPS * rate / BPS <= Percent(x, rate) - Percent(x - STEPS, rate) <= STEPS * rate / BPS + 1
  {
    var a, d := (x - STEPS) * rate, STEPS * rate;
    assert x * rate == a + d;
    QuotientOfSum(a, d);
  }

  lemma QuotientOfSum(x: nat, y: nat)
    ensures x / BPS + y / BPS <= (x + y) / BPS <= x / BPS + y / BPS + 1
  {
  }

  /** The last gap decides, floor or not: it is taken off, or it exceeds the countdown by more than rounding. */
  lemma GapDecides(q: Quote, top: nat)
    requires Round(q, top, ROUNDS) > 0
    ensures Gap(q, top, ROUNDS) <= Reach(q) ==> Fits(q, top, Round(q, top, ROUNDS) - STEPS)
    ensures Gap(q, top, ROUNDS) >= Reach(q) + 2 ==> !Fits(q, top, Round(q, top, ROUNDS) - STEPS)
  {
    hide Percent;
    hide Round;
    hide Gap;
    var x := Round(q, top, ROUNDS);
    LastGap(q, top);
    RoundsLeaveSomething(q, top, ROUNDS);
    FeeMonotone(q, x, top);
    if x > STEPS {
      StepsOwnFee(x, q.bps);
    }
  }

  /** What `k` more rounds leave of a gap stays within the countdown, with a unit of rounding for each round. */
  predicate CountdownCovers(q: Quote, gap: int, k: nat) {
    gap * Power(q.bps, k) <= (Reach(q) - k) * Power(BPS, k)
  }

  /** What `k` more rounds leave of a gap exceeds the countdown, with a unit of rounding for each round. */
  predicate CountdownOutrun(q: Quote, gap: int, k: nat) {
    gap * Power(q.bps, k) >= (Reach(q) + 2 + k) * Power(BPS, k)
  }

  lemma CoveredFrom(q: Quote, top: nat, j: nat)
    requires j <= ROUNDS && Round(q, top, ROUNDS) > 0 && Gap(q, top, j) >= 0
    requires CountdownCovers(q, Gap(q, top, j), ROUNDS - j)
    ensures Fits(q, top, Round(q, top, ROUNDS) - STEPS)
  {
    hide Round;
    hide Gap;
    hide Fits;
    hide Reach;
    hide Power;
    var k, s := ROUNDS - j, Power(BPS, ROUNDS - j);
    GapAtMost(q, top, j, ROUNDS);
    PowerPositive(BPS, k);
    assert (Reach(q) - k) * s + k * s == Reach(q) * s;
    AtMostFactor(Gap(q, top, ROUNDS), Reach(q), s);
    GapDecides(q, top);
  }

  lemma OutrunFrom(q: Quote, top: nat, j: nat)
    requires j <= ROUNDS && Round(q, top, ROUNDS) > 0 && Round(q, top, j) > 0 && Gap(q, top, j) >= 0
    requires Round(q, top, j + 1) <= Round(q, top, j) && Round(q, top, j + 2) <= Round(q, top, j)
    requires AboveFloor(q, Round(q, top, j + 1)) && CountdownOutrun(q, Gap(q, top, j), ROUNDS - j)
    ensures !Fits(q, top, Round(q, top, ROUNDS) - STEPS)
  {
    hide Round;
    hide Gap;
    hide Fits;
    hide Reach;
    hide Power;
    hide AboveFloor;
    var k, s := ROUNDS - j, Power(BPS, ROUNDS - j);
    GapAtLeast(q, top, j, ROUNDS);
    PowerPositive(BPS, k);
    assert (Reach(q) + 2 + k) * s - k * s == (Reach(q) + 2) * s;
    AtMostFactor(Reach(q) + 2, Gap(q, top, ROUNDS), s);
    GapDecides(q, top);
  }

  /** The answer fits whenever the fee on everything, shrunk six times by the rate, is within reach of the countdown. */
  lemma CountdownReaches(q: Quote, top: nat)
    requires CountdownCovers(q, WithdrawFee(q, top), ROUNDS)
    ensures Fits(q, top, Round(q, top, ROUNDS) - STEPS)
  {
    hide WithdrawFee;
    hide CountdownCovers;
    if Round(q, top, ROUNDS) > 0 {
      RoundsPositive(q, top, 0, ROUNDS);
      FirstGap(q, top);
      CoveredFrom(q, top, 0);
    }
  }

  /** It does not fit where that exceeds the countdown, as long as the first candidate is above the floor. */
  lemma CountdownTooShort(q: Quote, top: nat)
    requires AboveFloor(q, top - WithdrawFee(q, top)) && CountdownOutrun(q, WithdrawFee(q, top), ROUNDS)
    ensures !Fits(q, top, Round(q, top, ROUNDS) - STEPS)
  {
    hide WithdrawFee;
    hide CountdownOutrun;
    hide AboveFloor;
    LowestPositive(q, top - WithdrawFee(q, top));
    RoundsLeaveSomething(q, top, ROUNDS);
    FirstGap(q, top);
    FirstTwoRounds(q, top);
    OutrunFrom(q, top, 0);
  }

  lemma FirstTwoRounds(q: Quote, top: nat)
    requires WithdrawFee(q, top) < top
    ensures Round(q, top, 0) == top > 0 && Round(q, top, 1) == top - WithdrawFee(q, top) > 0
    ensures Round(q, top, 2) == top - WithdrawFee(q, Round(q, top, 1)) <= top
  {
  }

  /** If the fee on everything is at least everything, the rounds end at nothing, which fits. */
  lemma NothingLeft(q: Quote, top: nat)
    requires WithdrawFee(q, top) >= top
    ensures Fits(q, top, Round(q, top, ROUNDS) - STEPS)
  {
    hide WithdrawFee;
    RoundsLeaveSomething(q, top, ROUNDS);
  }

  /** The first candidate is a payment, but on or below the floor. */
  predicate StartsOnFloor(q: Quote, top: nat) {
    WithdrawFee(q, top) < top && !AboveFloor(q, top - WithdrawFee(q, top))
  }

  /** Then the second candidate is everything but the floor, and the gap after it is what its fee adds to the floor. */
  lemma SecondRound(q: Quote, top: nat)
    requires StartsOnFloor(q, top)
    ensures Round(q, top, 2) == top - q.floor >= Round(q, top, 3) == top - WithdrawFee(q, top - q.floor) > 0
    ensures Round(q, top, 4) <= Round(q, top, 2)
    ensures Gap(q, top, 2) == WithdrawFee(q, top - q.floor) - q.floor >= 0
  {
    hide Percent;
    FirstTwoRounds(q, top);
    RoundsLeaveSomething(q, top, 3);
    assert Round(q, top, 3) == top - WithdrawFee(q, Round(q, top, 2));
    assert Round(q, top, 4) == top - WithdrawFee(q, Round(q, top, 3));
  }

  lemma CountdownReachesFromFloor(q: Quote, top: nat)
    requires StartsOnFloor(q, top) && CountdownCovers(q, WithdrawFee(q, top - q.floor) - q.floor, ROUNDS - 2)
    ensures Fits(q, top, Round(q, top, ROUNDS) - STEPS)
  {
    hide WithdrawFee;
    hide CountdownCovers;
    hide Gap;
    SecondRound(q, top);
    RoundsLeaveSomething(q, top, ROUNDS);
    CoveredFrom(q, top, 2);
  }

  lemma CountdownTooShortFromFloor(q: Quote, top: nat)
    requires StartsOnFloor(q, top) && AboveFloor(q, top - WithdrawFee(q, top - q.floor))
    requires CountdownOutrun(q, WithdrawFee(q, top - q.floor) - q.floor, ROUNDS - 2)
    ensures !Fits(q, top, Round(q, top, ROUNDS) - STEPS)
  {
    hide WithdrawFee;
    hide CountdownOutrun;
    hide AboveFloor;
    hide Gap;
    SecondRound(q, top);
    RoundsLeaveSomething(q, top, ROUNDS);
    OutrunFrom(q, top, 2);
  }

  /** If the third candidate is on the floor too, the rounds go to and fro, and the outcome is known exactly. */
  lemma FloorCycle(q: Quote, top: nat)
    requires StartsOnFloor(q, top) && !AboveFloor(q, top - WithdrawFee(q, top - q.floor))
    ensures Round(q, top, ROUNDS) == top - q.floor
    ensures Fits(q, top, Round(q, top, ROUNDS) - STEPS) <==> Fits(q, top, top - q.floor - STEPS)
  {
    hide Percent;
    SecondRound(q, top);
    assert Round(q, top, 4) == top - q.floor;
    assert Round(q, top, 5) == Round(q, top, 3);
  }

  lemma AtMostFactor(a: int, b: int, s: nat)
    requires s > 0 && a * s <= b * s
    ensures a <= b
  {
    if a > b {
      MulGrows(a - b, s);
      assert false;
    }
  }

  lemma {:induction false} PowerPositive(base: nat, k: nat)
    requires base > 0
    ensures Power(base, k) > 0
  {
    if k > 0 {
      PowerPositive(base, k - 1);
    }
  }

  /** Up to 50 basis points and 2^55 units the countdown is always long enough. */
  lemma CountdownAtFifty(q: Quote, top: nat)
    requires q.bps <= 50 && top <= 0x80_0000_0000_0000
    ensures Fits(q, top, Round(q, top, ROUNDS) - STEPS)
  {
    hide WithdrawFee;
    hide Round;
    if WithdrawFee(q, top) < top {
      SixthPower(q);
      MulMonotone(WithdrawFee(q, top), 0x80_0000_0000_0000, Power(q.bps, ROUNDS));
      CountdownReaches(q, top);
    } else {
      RoundsLeaveSomething(q, top, ROUNDS);
    }
  }

  lemma SixthPower(q: Quote)
    requires q.bps <= 50
    ensures 0x80_0000_0000_0000 * Power(q.bps, ROUNDS) <= (Reach(q) - ROUNDS) * Power(BPS, ROUNDS)
  {
    PowerMonotone(q.bps, 50, ROUNDS);
    assert Power(50, 6) == 15_625_000_000;
    assert Power(BPS, 6) == 1_000_000_000_000_000_000_000_000;
  }

  /** At half the amount as fee, the countdown is too short and the answer does not fit. */
  lemma HighRateOverestimates()
    ensures !Fits(Quote(5000, 0, 0), 1_000_000_000, Round(Quote(5000, 0, 0), 1_000_000_000, ROUNDS) - STEPS)
  {
    var q, top := Quote(5000, 0, 0), 1_000_000_000;
    assert Power(5000, 6) == 15_625_000_000_000_000_000_000;
    assert Power(BPS, 6) == 1_000_000_000_000_000_000_000_000;
    CountdownTooShort(q, top);
  }

  // ---------- the answer is the largest ----------

  /** A candidate that leaves room is an underestimate, one that does not is an overestimate; the rounds alternate. */
  lemma {:induction false} EvenRoundsAbove(q: Quote, top: nat, best: nat, k: nat)
    requires best > 0 && Fits(q, top, best) && !Fits(q, top, best + 1)
    requires Round(q, top, 2 * k) > 0
    ensures Round(q, top, 2 * k) >= best
    decreases k
  {
    if k > 0 {
      var j := k - 1;
      RoundsPositive(q, top, 2 * j, 2 * k);
      RoundsPositive(q, top, 2 * j + 1, 2 * k);
      EvenRoundsAbove(q, top, best, j);
      var x, y := Round(q, top, 2 * j), Round(q, top, 2 * j + 1);
      assert y == top - WithdrawFee(q, x);
      assert Round(q, top, 2 * k) == top - WithdrawFee(q, y);
      if x > best {
        FeeMonotone(q, best + 1, x);
        FeeMonotone(q, y, best);
      } else {
        FeeStep(q, best);
        if y <= best {
          FeeMonotone(q, y, best);
        }
      }
    }
  }

  lemma LargestFit(q: Quote, top: nat, y: nat) returns (best: nat)
    requires y > 0 && Fits(q, top, y)
    ensures best >= y && Fits(q, top, best) && !Fits(q, top, best + 1)
    decreases top - y
  {
    if Fits(q, top, y + 1) {
      best := LargestFit(q, top, y + 1);
    } else {
      best := y;
    }
  }

  /**
   * Nothing above the answer fits exactly if the fee on everything leaves something, or if nothing fits at all. All
   * that is used of `max` is what the countdown guarantees.
   */
  lemma NothingAboveFits(q: Quote, top: nat, max: nat)
    requires max == 0 || max <= Round(q, top, ROUNDS)
    requires Fits(q, top, max) ==> forall z | max < z <= Round(q, top, ROUNDS) :: !Fits(q, top, z)
    ensures (forall y: nat | y > max :: !Fits(q, top, y)) <==> WithdrawFee(q, top) < top || !Fits(q, top, 1)
  {
    hide WithdrawFee;
    RoundsLeaveSomething(q, top, ROUNDS);
    if WithdrawFee(q, top) < top || !Fits(q, top, 1) {
      forall y: nat | y > max
        ensures !Fits(q, top, y)
      {
        if Fits(q, top, y) {
          FitsBelow(q, top, 1, y);
          FitsBelow(q, top, max, y);
          var best := LargestFit(q, top, y);
          EvenRoundsAbove(q, top, best, 3);
        }
      }
    }
  }

  /** If the fee on everything is everything, the answer is nothing although one unit could still go out. */
  lemma FirstRoundGivesUp()
    ensures var q, top := Quote(50, 200, 0), 201;
            Round(q, top, ROUNDS) <= 0 && Fits(q, top, 1)
            && !(forall y: nat | y > 0 :: !Fits(q, top, y))
  {
    var q, top := Quote(50, 200, 0), 201;
    RoundsLeaveSomething(q, top, ROUNDS);
    NothingAboveFits(q, top, 0);
  }
}
