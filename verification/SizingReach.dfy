/**
 * Which targets the eight guesses of deposit sizing reach. Leaving rounding aside, a guess that credits `x` of the
 * target `c` is followed by one that credits `x * (c + 1) / got`, where `got` is `x` rounded; the bounds below follow
 * that recurrence through the rounding of both fees and past the cap.
 */
module SizingReach {
  import opened Arithmetic
  import opened Bn254
  import opened DepositSizing
  import opened PublicAmount
  import opened TokenFee

  const SCALE: nat := BPS * BPS

  /** Both fees leave something. */
  predicate BelowFull(f: TransferFee, depositBps: Rate) {
    f.bps < BPS && depositBps < BPS
  }

  /** The share of an amount that both percentages leave, in units of 1 / SCALE. */
  function KeptShare(f: TransferFee, depositBps: Rate): nat {
    (BPS - f.bps) * (BPS - depositBps)
  }

  /** What would arrive of `amount` without rounding, in units of 1 / BPS. */
  function ExactNet(f: TransferFee, amount: nat): nat {
    var byRate, byCap := amount * (BPS - f.bps), (amount - f.maximum) * BPS;
    if byRate >= byCap then byRate else byCap
  }

  /** What `amount` would credit without rounding, in units of 1 / SCALE. */
  function Exact(f: TransferFee, depositBps: Rate, amount: nat): nat {
    ExactNet(f, amount) * (BPS - depositBps)
  }

  lemma NetRounded(f: TransferFee, amount: nat)
    ensures NetOf(f, amount) * BPS <= ExactNet(f, amount) < NetOf(f, amount) * BPS + BPS
  {
    hide CeilDiv;
    CeilBounds(amount * f.bps);
    Complement(amount, f.bps);
  }

  lemma CeilBounds(a: nat)
    ensures a <= CeilDiv(a, BPS) * BPS < a + BPS
  {
  }

  lemma Complement(a: nat, rate: Rate)
    ensures a * (BPS - rate) == a * BPS - a * rate
  {
  }

  /** Rounding takes less than one unit of the net off and puts less than one credited unit on. */
  lemma CreditedRounded(f: TransferFee, depositBps: Rate, amount: nat)
    ensures var got, x := Credited(f, depositBps, amount), Exact(f, depositBps, amount);
            && got * SCALE < x + SCALE
            && (depositBps < BPS ==> x < got * SCALE + BPS * (BPS - depositBps))
    ensures Credited(f, depositBps, amount) <= NetOf(f, amount)
    ensures NetOf(f, amount) * (BPS - depositBps) <= Credited(f, depositBps, amount) * BPS
  {
    NetRounded(f, amount);
    FeeAtMost(f, amount);
    var net: nat := NetOf(f, amount);
    var e := BPS - depositBps;
    PercentBounds(net, depositBps);
    var got := Credited(f, depositBps, amount);
    assert net * e == net * BPS - net * depositBps;
    assert net * e <= got * BPS < net * e + BPS;
    MulMonotone(net * BPS, ExactNet(f, amount), e);
    assert (net * BPS) * e == (net * e) * BPS;
    if e > 0 {
      MulMonotone(ExactNet(f, amount) + 1, net * BPS + BPS, e);
      assert (ExactNet(f, amount) + 1) * e == ExactNet(f, amount) * e + e;
      assert (net * BPS + BPS) * e == (net * e) * BPS + BPS * e;
    }
  }

  /** Percentages clipped at a cap only become lighter: what is left grows at least in proportion. */
  lemma ExactNetGrows(f: TransferFee, a: nat, b: nat)
    requires a <= b
    ensures ExactNet(f, b) * a >= ExactNet(f, a) * b
  {
    var e := BPS - f.bps;
    assert (b * e) * a == (a * e) * b;
    var m := f.maximum;
    MulMonotone(a, b, m);
    assert ((b - m) * BPS) * a - ((a - m) * BPS) * b == (b * m - a * m) * BPS;
    MulAtLeast(ExactNet(f, b), b * e, (b - m) * BPS, a);
  }

  lemma MulAtLeast(x: nat, y: int, z: int, k: nat)
    requires x >= y && x >= z
    ensures x * k >= y * k && x * k >= z * k
  {
    assert x * k - y * k == (x - y) * k;
    assert x * k - z * k == (x - z) * k;
  }

  // One guess to the next, over exact amounts `x` and `y`.

  lemma Cancel(a: nat, b: nat, k: nat)
    requires a * k < b * k
    ensures a < b
  {
    if a >= b {
      MulMonotone(b, a, k);
      assert false;
    }
  }

  lemma MulStrict(a: nat, b: nat, k: nat)
    requires a < b && k > 0
    ensures a * k < b * k
  {
    assert b * k - a * k == (b - a) * k;
    MulGrows(b - a, k);
  }

  lemma Proportion(x: nat, y: nat, g: nat, h: nat, m: nat, c: nat)
    requires y * g >= x * h && h * m > g * c && x > 0
    ensures y * m > x * c
  {
    calc {
      (x * c) * g;
      (g * c) * x;
    < { MulStrict(g * c, h * m, x); }
      (h * m) * x;
      (x * h) * m;
    <= { MulMonotone(x * h, y * g, m); }
      (y * g) * m;
      (y * m) * g;
    }
    Cancel(x * c, y * m, g);
  }

  lemma Divisor(x: nat, y: nat, m: nat, c: nat)
    requires y * m > x * c && m * SCALE <= x + SCALE
    ensures y * (x + SCALE) > x * c * SCALE
  {
    calc {
      x * c * SCALE;
    < { MulStrict(x * c, y * m, SCALE); }
      (y * m) * SCALE;
      (m * SCALE) * y;
    <= { MulMonotone(m * SCALE, x + SCALE, y); }
      (x + SCALE) * y;
    }
  }

  /** The next guess credits more in proportion to the target. */
  lemma GuessClimbs(f: TransferFee, depositBps: Rate, credited: nat, guess: nat)
    requires BelowFull(f, depositBps) && guess > 0 && Credited(f, depositBps, guess) < credited
    ensures var got, x := Credited(f, depositBps, guess), Exact(f, depositBps, guess);
            x > 0 && Exact(f, depositBps, NextGuess(guess, credited, got)) * AtLeastOne(got) > x * (credited + 1)
  {
    hide Credited;
    hide Exact;
    hide NextGuess;
    hide AtLeastOne;
    var got := Credited(f, depositBps, guess);
    var next := NextGuess(guess, credited, got);
    GuessGrows(guess, credited, got);
    ExactGrows(f, depositBps, guess, next);
    ExactPositive(f, depositBps, guess);
    Proportion(Exact(f, depositBps, guess), Exact(f, depositBps, next), guess, next, AtLeastOne(got), credited + 1);
  }

  lemma ExactGrows(f: TransferFee, depositBps: Rate, a: nat, b: nat)
    requires a <= b
    ensures Exact(f, depositBps, b) * a >= Exact(f, depositBps, a) * b
    ensures Exact(f, depositBps, a) >= a * KeptShare(f, depositBps)
  {
    hide ExactNet;
    var e := BPS - depositBps;
    var x, y := ExactNet(f, a), ExactNet(f, b);
    ExactNetGrows(f, a, b);
    MulMonotone(x * b, y * a, e);
    Swapped(y, a, e);
    Swapped(x, b, e);
    ExactNetByRate(f, a);
    MulMonotone(a * (BPS - f.bps), x, e);
    Associative(a, BPS - f.bps, e);
  }

  lemma ExactNetByRate(f: TransferFee, a: nat)
    ensures ExactNet(f, a) >= a * (BPS - f.bps)
  {
  }

  lemma Associative(a: nat, b: nat, c: nat)
    ensures (a * b) * c == a * (b * c)
  {
  }

  lemma ExactPositive(f: TransferFee, depositBps: Rate, a: nat)
    requires BelowFull(f, depositBps) && a > 0
    ensures Exact(f, depositBps, a) > 0
  {
    ExactGrows(f, depositBps, a, a);
    MulPositive(BPS - f.bps, BPS - depositBps);
    MulPositive(a, KeptShare(f, depositBps));
  }

  lemma MulPositive(a: nat, b: nat)
    requires a > 0 && b > 0
    ensures a * b > 0
  {
  }

  /** A lower bound p / q on one exact amount becomes one on the next. */
  lemma ClimbsTo(c: nat, x: nat, y: nat, p: nat, q: nat)
    requires x * q >= p * SCALE && q > 0 && y * (x + SCALE) > x * c * SCALE
    ensures y * (p + q) > c * p * SCALE
  {
    calc {
      (c * p * SCALE) * (x + SCALE);
      { ThreeFactors(c, p, x + SCALE); }
      (p * (x + SCALE)) * (c * SCALE);
    <= { Distributed(x, p, q); MulMonotone(p * (x + SCALE), x * (p + q), c * SCALE); }
      (x * (p + q)) * (c * SCALE);
      { FourFactors(x, p + q, c); }
      (x * c * SCALE) * (p + q);
    < { MulStrict(x * c * SCALE, y * (x + SCALE), p + q); }
      (y * (x + SCALE)) * (p + q);
      { Swapped(y, x + SCALE, p + q); }
      (y * (p + q)) * (x + SCALE);
    }
    Cancel(c * p * SCALE, y * (p + q), x + SCALE);
  }

  lemma Distributed(x: nat, p: nat, q: nat)
    requires x * q >= p * SCALE
    ensures p * (x + SCALE) <= x * (p + q)
  {
    assert x * (p + q) == x * p + x * q;
    assert p * (x + SCALE) == x * p + p * SCALE;
  }

  lemma ThreeFactors(c: nat, p: nat, z: nat)
    ensures (c * p * SCALE) * z == (p * z) * (c * SCALE)
  {
    assert (c * p * SCALE) * z == (c * p * z) * SCALE;
    assert (p * z) * (c * SCALE) == (p * z * c) * SCALE;
    assert c * p * z == p * z * c;
  }

  lemma FourFactors(x: nat, r: nat, c: nat)
    ensures (x * r) * (c * SCALE) == (x * c * SCALE) * r
  {
    assert (x * r) * (c * SCALE) == (x * r * c) * SCALE;
    assert (x * c * SCALE) * r == (x * c * r) * SCALE;
    assert x * r * c == x * c * r;
  }

  lemma Swapped(a: nat, b: nat, c: nat)
    ensures (a * b) * c == (a * c) * b
  {
  }

  /** What guess `k` would credit without rounding. */
  function At(f: TransferFee, depositBps: Rate, credited: nat, k: nat): nat {
    Exact(f, depositBps, Guess(f, depositBps, credited, k))
  }

  /** At most one whole unit credited so far counts as one. */
  lemma Climbs(f: TransferFee, depositBps: Rate, credited: nat, k: nat)
    requires BelowFull(f, depositBps) && credited > 0 && !Suffices(f, depositBps, credited, k)
    ensures var x, y := At(f, depositBps, credited, k), At(f, depositBps, credited, k + 1);
            && (x <= SCALE ==> y > x * (credited + 1))
            && y * (x + SCALE) > x * (credited + 1) * SCALE
  {
    hide Credited;
    hide Exact;
    hide NextGuess;
    var guess := Guess(f, depositBps, credited, k);
    GuessClimbs(f, depositBps, credited, guess);
    CreditedRounded(f, depositBps, guess);
    Divisor(At(f, depositBps, credited, k), At(f, depositBps, credited, k + 1),
            AtLeastOne(Credited(f, depositBps, guess)), credited + 1);
  }

  /** An exact amount above p / q credits the target if p / q is close enough to it. */
  lemma Arrives(f: TransferFee, depositBps: Rate, credited: nat, amount: nat, p: nat, q: nat)
    requires depositBps < BPS && Exact(f, depositBps, amount) * q > p * SCALE
    requires p * BPS >= (credited * BPS - depositBps) * q
    ensures Credited(f, depositBps, amount) >= credited
  {
    hide Exact;
    CreditedRounded(f, depositBps, amount);
    var x := Exact(f, depositBps, amount);
    if credited > 0 {
      var least: nat := (credited * BPS - depositBps) * BPS;
      Swapped(credited * BPS - depositBps, q, BPS);
      MulMonotone((credited * BPS - depositBps) * q, p * BPS, BPS);
      Cancel(least, x, q);
    }
  }

  /** A net fee rate so light that `credited + 1` units net still credit `credited`. */
  predicate LightProtocolFee(depositBps: Rate, credited: nat) {
    depositBps * (credited + 1) < 2 * BPS
  }

  /** Where the protocol's fee is light, the net overshoots with the first guess that has anything to go by. */
  lemma NetOvershoots(f: TransferFee, depositBps: Rate, credited: nat, guess: nat)
    requires 0 < Credited(f, depositBps, guess) < credited && LightProtocolFee(depositBps, credited) && guess > 0
    ensures Credited(f, depositBps, NextGuess(guess, credited, Credited(f, depositBps, guess))) >= credited
  {
    hide Credited;
    hide ExactNet;
    var got := Credited(f, depositBps, guess);
    var next := NextGuess(guess, credited, got);
    var x, y := ExactNet(f, guess), ExactNet(f, next);
    GuessGrows(guess, credited, got);
    ExactNetGrows(f, guess, next);
    CreditedRounded(f, depositBps, guess);
    NetRounded(f, guess);
    Proportion(x, y, guess, next, got, credited + 1);
    assert x >= got * BPS;
    MulMonotone(got * BPS, x, credited + 1);
    Swapped(BPS, credited + 1, got);
    assert (got * BPS) * (credited + 1) == ((credited + 1) * BPS) * got;
    Cancel((credited + 1) * BPS, y, got);
    NetRounded(f, next);
    CreditedRounded(f, depositBps, next);
    var net: nat := NetOf(f, next);
    MulMonotone(credited + 1, net, BPS - depositBps);
    assert (credited + 1) * (BPS - depositBps) == (credited + 1) * BPS - depositBps * (credited + 1);
  }

  lemma TwoSteps(f: TransferFee, depositBps: Rate, credited: nat, j: nat)
    requires BelowFull(f, depositBps) && credited > 0 && At(f, depositBps, credited, j) >= SCALE
    requires !Suffices(f, depositBps, credited, j) && !Suffices(f, depositBps, credited, j + 1)
    ensures var c := credited + 1; At(f, depositBps, credited, j + 2) * (c + 2) > (c * c) * SCALE
  {
    hide At;
    hide Suffices;
    var c := credited + 1;
    Climbs(f, depositBps, credited, j);
    ClimbsTo(c, At(f, depositBps, credited, j), At(f, depositBps, credited, j + 1), 1, 1);
    Climbs(f, depositBps, credited, j + 1);
    ClimbsTo(c, At(f, depositBps, credited, j + 1), At(f, depositBps, credited, j + 2), c, 2);
  }

  lemma ThirdIsClose(credited: nat, depositBps: Rate)
    requires credited > 0 && !LightProtocolFee(depositBps, credited)
    ensures var c := credited + 1;
            (c * (c * c)) * BPS >= (credited * BPS - depositBps) * (c * c + (c + 2))
  {
    var c := credited + 1;
    var q := c * c + (c + 2);
    assert (credited * BPS - depositBps) * q == (credited * q) * BPS - depositBps * q;
    assert credited * q == c * (c * c) + c - 2;
    assert depositBps * q == (depositBps * c) * (c + 1) + depositBps * 2;
    MulMonotone(2 * BPS, depositBps * c, c + 1);
  }

  lemma LandsLightly(f: TransferFee, depositBps: Rate, credited: nat, j: nat) returns (k: nat)
    requires BelowFull(f, depositBps) && credited > 0 && At(f, depositBps, credited, j) >= SCALE
    requires LightProtocolFee(depositBps, credited)
    ensures k <= j + 1 && Suffices(f, depositBps, credited, k)
  {
    hide Exact;
    hide Credited;
    var guess := Guess(f, depositBps, credited, j);
    CreditedRounded(f, depositBps, guess);
    if Suffices(f, depositBps, credited, j) {
      return j;
    }
    assert Credited(f, depositBps, guess) > 0 && guess > 0;
    NetOvershoots(f, depositBps, credited, guess);
    return j + 1;
  }

  /** From the first guess that would credit a whole unit, at most three more are needed. */
  lemma LandsInThree(f: TransferFee, depositBps: Rate, credited: nat, j: nat) returns (k: nat)
    requires BelowFull(f, depositBps) && credited > 0 && At(f, depositBps, credited, j) >= SCALE
    ensures k <= j + 3 && Suffices(f, depositBps, credited, k)
  {
    hide Guess;
    hide Exact;
    hide Credited;
    if LightProtocolFee(depositBps, credited) {
      k := LandsLightly(f, depositBps, credited, j);
      return;
    }
    if Suffices(f, depositBps, credited, j) {
      return j;
    }
    if Suffices(f, depositBps, credited, j + 1) {
      return j + 1;
    }
    if Suffices(f, depositBps, credited, j + 2) {
      return j + 2;
    }
    var c := credited + 1;
    TwoSteps(f, depositBps, credited, j);
    Climbs(f, depositBps, credited, j + 2);
    ClimbsTo(c, At(f, depositBps, credited, j + 2), At(f, depositBps, credited, j + 3), c * c, c + 2);
    ThirdIsClose(credited, depositBps);
    Arrives(f, depositBps, credited, Guess(f, depositBps, credited, j + 3), c * (c * c), c * c + (c + 2));
    return j + 3;
  }


  /** Two more are enough if the protocol's fee is light, or so heavy that rounding up is worth nearly a unit. */
  predicate LandsQuickly(depositBps: Rate, credited: nat) {
    LightProtocolFee(depositBps, credited) || (BPS - depositBps) * (credited + 3) <= 4 * BPS
  }

  lemma LandsInTwo(f: TransferFee, depositBps: Rate, credited: nat, j: nat) returns (k: nat)
    requires BelowFull(f, depositBps) && credited > 0 && At(f, depositBps, credited, j) >= SCALE
    requires LandsQuickly(depositBps, credited)
    ensures k <= j + 2 && Suffices(f, depositBps, credited, k)
  {
    hide Guess;
    hide Exact;
    hide Credited;
    if LightProtocolFee(depositBps, credited) {
      k := LandsLightly(f, depositBps, credited, j);
      return;
    }
    if Suffices(f, depositBps, credited, j) {
      return j;
    }
    if Suffices(f, depositBps, credited, j + 1) {
      return j + 1;
    }
    var c := credited + 1;
    TwoSteps(f, depositBps, credited, j);
    SecondIsClose(credited, depositBps);
    Arrives(f, depositBps, credited, Guess(f, depositBps, credited, j + 2), c * c, c + 2);
    return j + 2;
  }

  lemma SecondIsClose(credited: nat, depositBps: Rate)
    requires (BPS - depositBps) * (credited + 3) <= 4 * BPS
    ensures var c := credited + 1; (c * c) * BPS >= (credited * BPS - depositBps) * (c + 2)
  {
    var c := credited + 1;
    assert (BPS - depositBps) * (c + 2) == (c + 2) * BPS - depositBps * (c + 2);
    assert (credited * BPS - depositBps) * (c + 2) == (credited * (c + 2)) * BPS - depositBps * (c + 2);
    assert credited * (c + 2) == c * c + c - 2;
  }

  // ---------- while at most one unit is credited ----------

  /** The guesses as long as no more than one unit is credited. */
  function Repeated(credited: nat, k: nat): nat {
    if k == 0 then credited else Repeated(credited, k - 1) * (credited + 1) + 1
  }

  lemma {:induction false} Repeats(f: TransferFee, depositBps: Rate, credited: nat, n: nat) returns (j: nat)
    ensures j <= n
    ensures || (j < n && (Suffices(f, depositBps, credited, j) || At(f, depositBps, credited, j) > SCALE))
            || (j == n && Guess(f, depositBps, credited, n) == Repeated(credited, n))
  {
    hide Suffices;
    hide At;
    hide NextGuess;
    if n == 0 {
      return 0;
    }
    j := Repeats(f, depositBps, credited, n - 1);
    if j == n - 1 && At(f, depositBps, credited, j) <= SCALE && !Suffices(f, depositBps, credited, j) {
      PlainFactor(f, depositBps, credited, j);
      j := n;
    }
  }

  lemma PlainFactor(f: TransferFee, depositBps: Rate, credited: nat, j: nat)
    requires At(f, depositBps, credited, j) <= SCALE
    ensures Guess(f, depositBps, credited, j + 1) == Guess(f, depositBps, credited, j) * (credited + 1) + 1
  {
    hide Credited;
    hide Exact;
    var guess := Guess(f, depositBps, credited, j);
    CreditedRounded(f, depositBps, guess);
    assert Credited(f, depositBps, guess) <= 1;
    var n := guess * (credited + 1);
    assert n / 1 == n;
  }

  lemma {:induction false} RepeatedGrows(credited: nat, k: nat, n: nat)
    requires k <= n
    ensures Repeated(credited, k) <= Repeated(credited, n)
    decreases n - k
  {
    if k < n {
      RepeatedGrows(credited, k, n - 1);
      MulMonotone(1, credited + 1, Repeated(credited, n - 1));
    }
  }

  lemma {:induction false} RepeatedAtLeast(credited: nat, k: nat)
    ensures Repeated(credited, k) >= credited * Power(credited + 1, k)
  {
    if k > 0 {
      RepeatedAtLeast(credited, k - 1);
      OneFactorMore(credited, credited + 1, Power(credited + 1, k - 1), Repeated(credited, k - 1));
    }
  }

  lemma OneFactorMore(a: nat, c: nat, p: nat, r: nat)
    requires r >= a * p
    ensures r * c >= a * (c * p)
  {
    MulMonotone(a * p, r, c);
    Swapped(a, p, c);
    Associative(a, c, p);
  }

  /** What guess `k` would credit without rounding, if all guesses before it credit at most one unit. */
  function Plain(f: TransferFee, depositBps: Rate, credited: nat, k: nat): nat {
    Exact(f, depositBps, Repeated(credited, k))
  }

  lemma PlainAtLeast(f: TransferFee, depositBps: Rate, credited: nat, k: nat)
    ensures Plain(f, depositBps, credited, k) >= credited * Power(credited + 1, k) * KeptShare(f, depositBps)
  {
    hide Exact;
    hide KeptShare;
    hide Repeated;
    hide Power;
    RepeatedAtLeast(credited, k);
    ExactGrows(f, depositBps, Repeated(credited, k), Repeated(credited, k));
    MulMonotone(credited * Power(credited + 1, k), Repeated(credited, k), KeptShare(f, depositBps));
  }

  /** Every plain guess multiplies the exact amount by more than the target. */
  lemma PlainClimbs(f: TransferFee, depositBps: Rate, credited: nat, k: nat)
    ensures Plain(f, depositBps, credited, k + 1) >= Plain(f, depositBps, credited, k) * (credited + 1)
  {
    hide Exact;
    var a, b := Repeated(credited, k), Repeated(credited, k + 1);
    var x, y := Plain(f, depositBps, credited, k), Plain(f, depositBps, credited, k + 1);
    RepeatedGrows(credited, k, k + 1);
    ExactGrows(f, depositBps, a, b);
    if a > 0 {
      MulMonotone(a * (credited + 1), b, x);
      Swapped(a, credited + 1, x);
      Reordered(x, a, credited + 1);
      CancelAtMost(x * (credited + 1), y, a);
    } else {
      ExactOfNothing(f, depositBps);
    }
  }

  lemma Reordered(x: nat, a: nat, c: nat)
    ensures (x * c) * a == (a * c) * x
  {
  }

  lemma CancelAtMost(a: nat, b: nat, k: nat)
    requires k > 0 && a * k <= b * k
    ensures a <= b
  {
    if a > b {
      MulStrict(b, a, k);
      assert false;
    }
  }

  lemma ExactOfNothing(f: TransferFee, depositBps: Rate)
    ensures Exact(f, depositBps, 0) == 0
  {
    assert ExactNet(f, 0) == 0;
  }

  lemma {:induction false} PlainGrows(f: TransferFee, depositBps: Rate, credited: nat, k: nat, n: nat)
    requires k <= n
    ensures Plain(f, depositBps, credited, k) <= Plain(f, depositBps, credited, n)
    decreases n - k
  {
    hide Plain;
    if k < n {
      PlainGrows(f, depositBps, credited, k, n - 1);
      PlainClimbs(f, depositBps, credited, n - 1);
      MulMonotone(1, credited + 1, Plain(f, depositBps, credited, n - 1));
    }
  }

  /** As long as the exact amount is at most one unit, the guesses are the plain ones and credit at most one. */
  lemma {:induction false} StaysPlain(f: TransferFee, depositBps: Rate, credited: nat, n: nat, k: nat)
    requires k <= n + 1 && Plain(f, depositBps, credited, n) <= SCALE
    ensures Guess(f, depositBps, credited, k) == Repeated(credited, k)
    ensures k <= n ==> Credited(f, depositBps, Guess(f, depositBps, credited, k)) <= 1
    decreases k
  {
    hide Credited;
    hide Exact;
    hide NextGuess;
    if k > 0 {
      StaysPlain(f, depositBps, credited, n, k - 1);
      PlainGrows(f, depositBps, credited, k - 1, n);
      PlainFactor(f, depositBps, credited, k - 1);
    }
    if k <= n {
      PlainGrows(f, depositBps, credited, k, n);
      CreditedRounded(f, depositBps, Repeated(credited, k));
    }
  }

  // ---------- which targets are reached in time ----------

  /**
   * Some plain guess would credit a whole unit early enough: the fourth, or the fifth where two more guesses land, or
   * the sixth where one more does.
   */
  predicate LargeEnough(f: TransferFee, depositBps: Rate, credited: nat) {
    || Plain(f, depositBps, credited, 4) >= SCALE
    || (Plain(f, depositBps, credited, 5) >= SCALE && LandsQuickly(depositBps, credited))
    || (Plain(f, depositBps, credited, 6) >= SCALE && LightProtocolFee(depositBps, credited))
  }

  /** At rates below full and whatever the cap, such a target is sized. */
  lemma SizedWhenLargeEnough(f: TransferFee, depositBps: Rate, credited: nat)
    requires BelowFull(f, depositBps) && LargeEnough(f, depositBps, credited)
    ensures CanBeSized(f, depositBps, credited)
  {
    hide Exact;
    hide Repeated;
    hide Suffices;
    hide LandsQuickly;
    hide LightProtocolFee;
    hide Guess;
    var n := if Plain(f, depositBps, credited, 4) >= SCALE then 4
             else if Plain(f, depositBps, credited, 5) >= SCALE && LandsQuickly(depositBps, credited) then 5
             else 6;
    var j := Repeats(f, depositBps, credited, n);
    if !Suffices(f, depositBps, credited, j) {
      if credited == 0 {
        NothingIsSized(f, depositBps);
      } else if n == 4 {
        j := LandsInThree(f, depositBps, credited, j);
      } else if n == 5 {
        j := LandsInTwo(f, depositBps, credited, j);
      } else {
        j := LandsLightly(f, depositBps, credited, j);
      }
    }
  }

  lemma NothingIsSized(f: TransferFee, depositBps: Rate)
    ensures CanBeSized(f, depositBps, 0)
  {
    assert Suffices(f, depositBps, 0, 0);
  }

  /** As long as a plain guess would credit at most one unit, only the guesses after it can decide. */
  lemma LaterGuessesDecide(f: TransferFee, depositBps: Rate, credited: nat, n: nat)
    requires credited >= 2 && n + 1 < GUESSES && Plain(f, depositBps, credited, n) <= SCALE
    ensures Guess(f, depositBps, credited, n + 1) == Repeated(credited, n + 1)
    ensures CanBeSized(f, depositBps, credited) <==> SizedBetween(f, depositBps, credited, n + 1)
  {
    hide Credited;
    hide Plain;
    hide Guess;
    StaysPlain(f, depositBps, credited, n, n + 1);
    forall k: nat | k <= n
      ensures !Suffices(f, depositBps, credited, k)
    {
      StaysPlain(f, depositBps, credited, n, k);
    }
  }

  /** One of the guesses from number `from` on suffices. */
  ghost predicate SizedBetween(f: TransferFee, depositBps: Rate, credited: nat, from: nat) {
    exists k: nat :: from <= k < GUESSES && Suffices(f, depositBps, credited, k)
  }

  /** If the sixth plain guess would credit at most one unit, the seventh decides alone. */
  lemma LastGuessDecides(f: TransferFee, depositBps: Rate, credited: nat)
    requires credited >= 2 && Plain(f, depositBps, credited, 6) <= SCALE
    ensures CanBeSized(f, depositBps, credited) <==> Credited(f, depositBps, Repeated(credited, 7)) >= credited
  {
    hide Credited;
    hide Plain;
    hide Repeated;
    hide Guess;
    LaterGuessesDecide(f, depositBps, credited, 6);
    assert SizedBetween(f, depositBps, credited, 7) <==> Suffices(f, depositBps, credited, 7);
  }

  /** The guess that follows plain guess `k`. */
  function AfterPlain(f: TransferFee, depositBps: Rate, credited: nat, k: nat): nat {
    NextGuess(Repeated(credited, k), credited, Credited(f, depositBps, Repeated(credited, k)))
  }

  /** If the fifth would, the sixth decides, or the guess that follows from it. */
  lemma LastTwoGuessesDecide(f: TransferFee, depositBps: Rate, credited: nat)
    requires credited >= 2 && Plain(f, depositBps, credited, 5) <= SCALE
    ensures CanBeSized(f, depositBps, credited)
       <==> || Credited(f, depositBps, Repeated(credited, 6)) >= credited
            || Credited(f, depositBps, AfterPlain(f, depositBps, credited, 6)) >= credited
  {
    hide Credited;
    hide Plain;
    hide NextGuess;
    hide Repeated;
    LaterGuessesDecide(f, depositBps, credited, 5);
    assert Guess(f, depositBps, credited, 7) == AfterPlain(f, depositBps, credited, 6);
    assert SizedBetween(f, depositBps, credited, 6)
      <==> Suffices(f, depositBps, credited, 6) || Suffices(f, depositBps, credited, 7);
  }

  /** Sizing gives up if the last plain guess, cap included, would credit at most one unit less than the target. */
  lemma GivesUpBelow(f: TransferFee, depositBps: Rate, credited: nat)
    requires credited >= 2 && Plain(f, depositBps, credited, GUESSES - 1) <= (credited - 1) * SCALE
    ensures !CanBeSized(f, depositBps, credited)
  {
    hide Exact;
    hide Credited;
    hide Repeated;
    PlainClimbs(f, depositBps, credited, GUESSES - 2);
    BelowByTarget(Plain(f, depositBps, credited, GUESSES - 2), credited);
    LastGuessDecides(f, depositBps, credited);
    CreditedRounded(f, depositBps, Repeated(credited, GUESSES - 1));
  }

  lemma BelowByTarget(x: nat, credited: nat)
    requires credited >= 2 && x * (credited + 1) <= (credited - 1) * SCALE
    ensures x <= SCALE
  {
    assert SCALE * (credited + 1) == (credited - 1) * SCALE + 2 * SCALE;
    CancelAtMost(x, SCALE, credited + 1);
  }

  // ---------- rates that are always light enough ----------

  /** A target of one is sized exactly if 255 units, the last guess, leave anything. */
  lemma TargetOneExactly(f: TransferFee, depositBps: Rate)
    requires BelowFull(f, depositBps)
    ensures CanBeSized(f, depositBps, 1) <==> 255 * (BPS - f.bps) >= BPS || f.maximum < 255
  {
    hide Guess;
    hide Credited;
    hide ExactNet;
    NetOf255(f);
    CreditsSomething(f, depositBps, 255);
    if NetOf(f, 255) >= 1 {
      var k := UntilOne(f, depositBps, 7);
      assert Pow2(8) == 256;
      assert Suffices(f, depositBps, 1, k);
    } else {
      forall k: nat | k < GUESSES
        ensures !Suffices(f, depositBps, 1, k)
      {
        NoneBelow(f, depositBps, 255, k);
      }
    }
  }

  lemma NetOf255(f: TransferFee)
    ensures NetOf(f, 255) >= 1 <==> 255 * (BPS - f.bps) >= BPS || f.maximum < 255
  {
    NetRounded(f, 255);
  }

  /** Below full rates, whatever arrives credits something. */
  lemma CreditsSomething(f: TransferFee, depositBps: Rate, amount: nat)
    requires BelowFull(f, depositBps)
    ensures Credited(f, depositBps, amount) >= 1 <==> NetOf(f, amount) >= 1
  {
    hide Credited;
    CreditedRounded(f, depositBps, amount);
    if NetOf(f, amount) >= 1 {
      MulMonotone(1, NetOf(f, amount), BPS - depositBps);
    }
  }

  /** Without a hit, the guesses for one are 1, 3, 7, 15, ... */
  lemma {:induction false} UntilOne(f: TransferFee, depositBps: Rate, n: nat) returns (k: nat)
    ensures k <= n
    ensures (k < n && Suffices(f, depositBps, 1, k)) || (k == n && Guess(f, depositBps, 1, n) == Pow2(n + 1) - 1)
  {
    hide Credited;
    k := n;
    if n == 0 {
      assert Pow2(1) == 2;
    } else {
      k := UntilOne(f, depositBps, n - 1);
      if k == n - 1 && !Suffices(f, depositBps, 1, k) {
        k := n;
      }
    }
  }

  /** While nothing arrives of `top` units, no guess up to it credits anything. */
  lemma {:induction false} NoneBelow(f: TransferFee, depositBps: Rate, top: nat, k: nat)
    requires k < GUESSES && top == 255 && Credited(f, depositBps, top) == 0
    ensures Guess(f, depositBps, 1, k) == Pow2(k + 1) - 1 <= top && !Suffices(f, depositBps, 1, k)
  {
    hide Credited;
    if k == 0 {
      assert Pow2(1) == 2;
    } else {
      NoneBelow(f, depositBps, top, k - 1);
    }
    SmallPowers(k + 1);
    CreditedMonotone(f, depositBps, Guess(f, depositBps, 1, k), top);
  }

  lemma SmallPowers(k: nat)
    requires k <= 8
    ensures Pow2(k) <= 256
  {
    PowMonotone(k, 8);
    assert Pow2(8) == 256;
  }

  lemma {:induction false} PowMonotone(a: nat, b: nat)
    requires a <= b
    ensures Pow2(a) <= Pow2(b)
    decreases b - a
  {
    if a < b {
      PowMonotone(a, b - 1);
    }
  }

  const LEAST_SHARE: nat := 390_001

  /** Every target can be sized as long as both fees together leave more than 0.39% of an amount. */
  lemma LightFeesSize(f: TransferFee, depositBps: Rate, credited: nat)
    requires KeptShare(f, depositBps) >= LEAST_SHARE
    ensures CanBeSized(f, depositBps, credited)
  {
    hide KeptShare;
    hide CanBeSized;
    hide LargeEnough;
    ShareBounds(f, depositBps);
    if credited == 0 {
      NothingIsSized(f, depositBps);
    } else if credited == 1 {
      TargetOneExactly(f, depositBps);
    } else {
      LargeFromTwo(f, depositBps, credited);
      SizedWhenLargeEnough(f, depositBps, credited);
    }
  }

  lemma ShareBounds(f: TransferFee, depositBps: Rate)
    requires KeptShare(f, depositBps) >= LEAST_SHARE
    ensures BelowFull(f, depositBps) && BPS - f.bps >= 40
  {
    MulMonotone(BPS - depositBps, BPS, BPS - f.bps);
  }

  lemma LargeFromTwo(f: TransferFee, depositBps: Rate, credited: nat)
    requires KeptShare(f, depositBps) >= LEAST_SHARE && credited >= 2
    ensures LargeEnough(f, depositBps, credited)
  {
    hide Plain;
    hide KeptShare;
    var kept := KeptShare(f, depositBps);
    if credited == 2 {
      PlainAtLeast(f, depositBps, 2, 5);
      assert Power(3, 5) == 243;
    } else {
      PlainAtLeast(f, depositBps, credited, 4);
      PowerMonotone(4, credited + 1, 4);
      assert Power(4, 4) == 256;
      ProductAtLeast(credited, 3, Power(credited + 1, 4), 256);
      ProductAtLeast(credited * Power(credited + 1, 4), 768, kept, LEAST_SHARE);
    }
  }

  lemma ProductAtLeast(a: nat, x: nat, b: nat, y: nat)
    requires a >= x && b >= y
    ensures a * b >= x * y
  {
    MulMonotone(x, a, y);
    MulMonotone(y, b, a);
  }

  /** The bound is exact: at the very next lower share there are rates that put a target of one out of reach. */
  lemma ShareThreshold(least: nat)
    ensures (forall f: TransferFee, d: Rate, credited: nat | KeptShare(f, d) >= least :: CanBeSized(f, d, credited))
       <==> least >= LEAST_SHARE
  {
    hide CanBeSized;
    if least >= LEAST_SHARE {
      forall f: TransferFee, d: Rate, credited: nat | KeptShare(f, d) >= least
        ensures CanBeSized(f, d, credited)
      {
        LightFeesSize(f, d, credited);
      }
    } else {
      var f := TransferFee(9961, 255);
      TargetOneExactly(f, 0);
      assert !CanBeSized(f, 0, 1) && KeptShare(f, 0) == 390_000;
    }
  }

  // ---------- targets that are always large enough ----------

  /** A share too small for four factors is made of a protocol fee near the full rate. */
  lemma SmallShareLandsQuickly(f: TransferFee, depositBps: Rate, credited: nat)
    requires BelowFull(f, depositBps) && credited >= 16
    requires credited * Power(credited + 1, 4) * KeptShare(f, depositBps) < SCALE
    ensures LandsQuickly(depositBps, credited)
  {
    var kept, e := KeptShare(f, depositBps), BPS - depositBps;
    PowerMonotone(17, credited + 1, 4);
    assert Power(17, 4) == 83521;
    MulMonotone(1, BPS - f.bps, e);
    MulMonotone(5000, Power(credited + 1, 4), credited);
    assert 2500 * (credited + 3) <= credited * Power(credited + 1, 4);
    ProductAtLeast(credited * Power(credited + 1, 4), 2500 * (credited + 3), kept, e);
    assert 2500 * (credited + 3) * e == 2500 * (e * (credited + 3));
  }

  /** `q` rounds an exact amount up so closely that the next guess reaches the target. */
  predicate Close(credited: nat, exact: nat, q: nat) {
    exact <= q * SCALE && exact * (credited + 1) >= (credited * q - q + 1) * SCALE
  }

  lemma FewTargets(credited: nat, kept: nat)
    requires credited >= 16 && kept > 0 && credited * Power(credited + 1, 5) * kept < SCALE
    ensures credited <= 20
  {
    if credited >= 21 {
      PowerMonotone(22, credited + 1, 5);
      assert Power(22, 5) == 5153632;
      ProductAtLeast(credited, 21, Power(credited + 1, 5), 5153632);
      ProductAtLeast(credited * Power(credited + 1, 5), 21 * 5153632, kept, 1);
      assert false;
    }
  }

  lemma SmallTargets()
    ensures Power(17, 5) == 1419857 && Repeated(16, 6) == 387709702
    ensures Power(18, 5) == 1889568 && Repeated(17, 6) == 580208527
    ensures Power(19, 5) == 2476099 && Repeated(18, 6) == 849439518
    ensures Power(20, 5) == 3200000 && Repeated(19, 6) == 1219368421
    ensures Power(21, 5) == 4084101 && Repeated(20, 6) == 1719610726
  {
  }

  /** The few targets and shares that grow too slowly for `LargeEnough`. */
  lemma FewCases(credited: nat, kept: nat) returns (q: nat)
    requires 16 <= credited <= 20 && kept > 0 && credited * Power(credited + 1, 5) * kept < SCALE
    ensures kept <= 4 && q <= 2500 && Close(credited, Repeated(credited, 6) * kept, q)
    ensures 2 * Repeated(credited, 6) >= credited * (credited - 1) * BPS
  {
    hide Power;
    hide Repeated;
    SmallTargets();
    match credited
    case 16 => q := 4 * kept;
    case 17 => q := 6 * kept;
    case 18 => q := if kept == 1 then 9 else 17;
    case 19 => q := 13;
    case 20 => q := 18;
  }

  /** The seventh guess, after a sixth that grew by the plain factor. */
  lemma SeventhGuess(f: TransferFee, depositBps: Rate, credited: nat, guess: nat, q: nat)
    requires BelowFull(f, depositBps) && 2 <= credited && guess > 0 && KeptShare(f, depositBps) <= 4
    requires Close(credited, guess * KeptShare(f, depositBps), q) && q <= 2500
    requires 2 * guess >= credited * (credited - 1) * BPS
    requires Credited(f, depositBps, guess) < credited
    ensures Credited(f, depositBps, NextGuess(guess, credited, Credited(f, depositBps, guess))) >= credited
  {
    hide Credited;
    hide NextGuess;
    hide KeptShare;
    hide Close;
    if (guess - f.maximum) * BPS > guess * (BPS - f.bps) {
      PastCap(f, guess);
      AfterCap(f, depositBps, credited, guess);
    } else {
      AfterRate(f, depositBps, credited, guess, q);
    }
  }

  lemma PastCap(f: TransferFee, guess: nat)
    requires (guess - f.maximum) * BPS > guess * (BPS - f.bps)
    ensures f.maximum <= guess
  {
  }

  /** Past the cap, all that a guess adds arrives. */
  lemma AfterCap(f: TransferFee, depositBps: Rate, credited: nat, guess: nat)
    requires depositBps < BPS && credited >= 2 && f.maximum <= guess
    requires 2 * guess >= credited * (credited - 1) * BPS && Credited(f, depositBps, guess) < credited
    ensures Credited(f, depositBps, NextGuess(guess, credited, Credited(f, depositBps, guess))) >= credited
  {
    hide Credited;
    hide Exact;
    var got := Credited(f, depositBps, guess);
    var m := AtLeastOne(got);
    var next := NextGuess(guess, credited, got);
    GuessGrows(guess, credited, got);
    Leaps(guess, next, credited, m);
    ExactPastCap(f, depositBps, next, guess);
    Arrives(f, depositBps, credited, next, credited, 1);
  }

  lemma Leaps(guess: nat, next: nat, credited: nat, m: nat)
    requires 0 < m < credited && guess <= next && next * m > guess * (credited + 1)
    requires 2 * guess >= credited * (credited - 1) * BPS
    ensures next - guess > credited * BPS
  {
    var q := credited - 1;
    MulMonotone(m, q, next);
    assert (next - guess) * q == next * q - guess * q;
    assert guess * (credited + 1) == guess * q + 2 * guess;
    Swapped(credited, q, BPS);
    Cancel(credited * BPS, next - guess, q);
  }

  lemma ExactPastCap(f: TransferFee, depositBps: Rate, amount: nat, least: nat)
    requires depositBps < BPS && f.maximum <= least <= amount
    ensures Exact(f, depositBps, amount) >= (amount - least) * BPS
  {
    var net := ExactNet(f, amount);
    MulMonotone(1, BPS - depositBps, net);
  }

  /** Below the cap, the exact amount is known. */
  lemma AfterRate(f: TransferFee, depositBps: Rate, credited: nat, guess: nat, q: nat)
    requires BelowFull(f, depositBps) && guess > 0 && KeptShare(f, depositBps) <= 4
    requires (guess - f.maximum) * BPS <= guess * (BPS - f.bps)
    requires Close(credited, guess * KeptShare(f, depositBps), q) && q <= 2500
    requires Credited(f, depositBps, guess) < credited
    ensures Credited(f, depositBps, NextGuess(guess, credited, Credited(f, depositBps, guess))) >= credited
  {
    hide Credited;
    hide Exact;
    hide NextGuess;
    hide Close;
    ExactByRate(f, depositBps, guess);
    SmallShare(f, depositBps);
    FromClose(f, depositBps, credited, guess, q);
  }

  lemma FromClose(f: TransferFee, depositBps: Rate, credited: nat, guess: nat, q: nat)
    requires BelowFull(f, depositBps) && guess > 0 && BPS - depositBps <= 4
    requires Close(credited, Exact(f, depositBps, guess), q) && q <= 2500
    requires Credited(f, depositBps, guess) < credited
    ensures Credited(f, depositBps, NextGuess(guess, credited, Credited(f, depositBps, guess))) >= credited
  {
    hide Credited;
    hide Exact;
    hide NextGuess;
    hide Close;
    var got := Credited(f, depositBps, guess);
    var next := NextGuess(guess, credited, got);
    CreditedRounded(f, depositBps, guess);
    GuessClimbs(f, depositBps, credited, guess);
    Reaches(credited, Exact(f, depositBps, guess), Exact(f, depositBps, next), AtLeastOne(got), q);
    CloseArrives(credited, depositBps, q);
    Arrives(f, depositBps, credited, next, credited * q - q + 1, q);
  }

  lemma Reaches(credited: nat, x: nat, y: nat, m: nat, q: nat)
    requires x > 0 && Close(credited, x, q) && (m == 1 || m * SCALE < x + SCALE) && y * m > x * (credited + 1)
    ensures y * q > (credited * q - q + 1) * SCALE
  {
    MulMonotone(m, q, y);
  }

  lemma CloseArrives(credited: nat, depositBps: Rate, q: nat)
    requires credited > 0 && BPS - depositBps <= 4 && q <= 2500
    ensures credited * q - q + 1 > 0
    ensures (credited * q - q + 1) * BPS >= (credited * BPS - depositBps) * q
  {
    MulMonotone(1, credited, q);
    assert (credited * BPS - depositBps) * q == (credited * q - q) * BPS + (BPS - depositBps) * q;
    MulMonotone(BPS - depositBps, 4, q);
  }

  lemma ExactByRate(f: TransferFee, depositBps: Rate, amount: nat)
    requires (amount - f.maximum) * BPS <= amount * (BPS - f.bps)
    ensures Exact(f, depositBps, amount) == amount * KeptShare(f, depositBps)
  {
    Associative(amount, BPS - f.bps, BPS - depositBps);
  }

  lemma SmallShare(f: TransferFee, depositBps: Rate)
    requires BelowFull(f, depositBps)
    ensures BPS - depositBps <= KeptShare(f, depositBps)
  {
    MulMonotone(1, BPS - f.bps, BPS - depositBps);
  }

  /** Below full rates, whatever they are and whatever the cap, every target from sixteen up can be sized. */
  lemma TargetsFromSixteenSize(f: TransferFee, depositBps: Rate, credited: nat)
    requires BelowFull(f, depositBps) && credited >= 16
    ensures CanBeSized(f, depositBps, credited)
  {
    hide Suffices;
    hide At;
    hide LandsQuickly;
    hide Close;
    hide Repeated;
    hide Power;
    hide Plain;
    hide KeptShare;
    var kept := KeptShare(f, depositBps);
    if LargeEnough(f, depositBps, credited) {
      SizedWhenLargeEnough(f, depositBps, credited);
      return;
    }
    PlainAtLeast(f, depositBps, credited, 4);
    PlainAtLeast(f, depositBps, credited, 5);
    SharePositive(f, depositBps);
    SmallShareLandsQuickly(f, depositBps, credited);
    FewTargets(credited, kept);
    var q := FewCases(credited, kept);
    var j := Repeats(f, depositBps, credited, 6);
    if j < 6 && !Suffices(f, depositBps, credited, j) {
      j := LandsInTwo(f, depositBps, credited, j);
    }
    if j == 6 && !Suffices(f, depositBps, credited, j) {
      AfterSixth(f, depositBps, credited, q);
      j := 7;
    }
  }

  lemma SharePositive(f: TransferFee, depositBps: Rate)
    requires BelowFull(f, depositBps)
    ensures KeptShare(f, depositBps) > 0
  {
    MulPositive(BPS - f.bps, BPS - depositBps);
  }

  lemma AfterSixth(f: TransferFee, depositBps: Rate, credited: nat, q: nat)
    requires BelowFull(f, depositBps) && 2 <= credited && KeptShare(f, depositBps) <= 4
    requires Close(credited, Repeated(credited, 6) * KeptShare(f, depositBps), q) && q <= 2500
    requires 2 * Repeated(credited, 6) >= credited * (credited - 1) * BPS
    requires Guess(f, depositBps, credited, 6) == Repeated(credited, 6) && !Suffices(f, depositBps, credited, 6)
    ensures Suffices(f, depositBps, credited, 7)
  {
    hide Credited;
    hide Close;
    hide KeptShare;
    SeventhGuess(f, depositBps, credited, Repeated(credited, 6), q);
  }

  // ---------- targets that are not sized ----------

  /** A protocol fee of everything credits nothing, so only a target of nothing is sized. */
  lemma FullProtocolFee(f: TransferFee, credited: nat)
    ensures CanBeSized(f, BPS, credited) <==> credited == 0
  {
    if credited == 0 {
      NothingIsSized(f, BPS);
    } else {
      forall k: nat
        ensures !Suffices(f, BPS, credited, k)
      {
        FullRateCreditsNothing(f, Guess(f, BPS, credited, k));
      }
    }
  }

  lemma FullRateCreditsNothing(f: TransferFee, amount: nat)
    ensures Credited(f, BPS, amount) == 0
  {
    FeeAtMost(f, amount);
  }

  /** What some amounts credit at the highest rates below full. */
  lemma HighestRates(f: TransferFee)
    requires f == TransferFee(9999, 2_000_000_000)
    ensures Credited(f, 9999, 252_776_721) == 3 && Credited(f, 9999, 1_348_142_513) == 14
    ensures Credited(f, 9999, 1_400_009_999) == 14 && Credited(f, 9999, 1_400_010_000) == 15
  {
  }

  /** The plain guesses for fifteen, and the one after them. */
  lemma GuessesForFifteen(f: TransferFee)
    requires f == TransferFee(9999, 2_000_000_000)
    ensures Plain(f, 9999, 15, 5) <= SCALE && Repeated(15, 6) == 252_776_721
    ensures AfterPlain(f, 9999, 15, 6) == 1_348_142_513
  {
    hide Credited;
    assert Repeated(15, 5) == 15_798_545;
    HighestRates(f);
  }

  /** The largest target that can fail, at the highest rates below full; an amount that credits it exists. */
  lemma SmallTargetNotSized()
    ensures var f := TransferFee(9999, 2_000_000_000);
            !CanBeSized(f, 9999, 15) && IsLeastGross(f, 9999, 15, 1_400_010_000)
  {
    hide Credited;
    hide Plain;
    hide Repeated;
    hide AfterPlain;
    hide CanBeSized;
    var f := TransferFee(9999, 2_000_000_000);
    GuessesForFifteen(f);
    HighestRates(f);
    LastTwoGuessesDecide(f, 9999, 15);
    LeastByNeighbour(f, 9999, 15, 1_400_009_999, 1_400_010_000);
  }

  /** Sixteen is exact: it is the least bound from which every target is sized at all rates below full. */
  lemma TargetThreshold(least: nat)
    ensures (forall f: TransferFee, d: Rate, credited: nat | BelowFull(f, d) && credited >= least ::
               CanBeSized(f, d, credited))
       <==> least >= 16
  {
    hide CanBeSized;
    if least >= 16 {
      forall f: TransferFee, d: Rate, credited: nat | BelowFull(f, d) && credited >= least
        ensures CanBeSized(f, d, credited)
      {
        TargetsFromSixteenSize(f, d, credited);
      }
    } else {
      SmallTargetNotSized();
      assert BelowFull(TransferFee(9999, 2_000_000_000), 9999);
    }
  }
}
