/** Sizing a deposit: the wallet amount that credits a target, found by eight growing guesses and a bisection. */
module DepositSizing {
  import opened Arithmetic
  import opened PublicAmount
  import opened TokenFee

  datatype Sized = Gross(amount: nat) | CouldNotSize | PreviewFailed

  /** `amount` is the least wallet amount that credits at least `credited`. */
  ghost predicate IsLeastGross(f: TransferFee, depositBps: Rate, credited: nat, amount: nat) {
    && Credited(f, depositBps, amount) >= credited
    && forall a: nat | a < amount :: Credited(f, depositBps, a) < credited
  }

  /** Monotonicity turns one failing neighbour into minimality. */
  lemma LeastByNeighbour(f: TransferFee, depositBps: Rate, credited: nat, lo: nat, hi: nat)
    requires Credited(f, depositBps, hi) >= credited
    requires hi <= lo + 1
    requires Credited(f, depositBps, lo) < credited || hi <= credited
    ensures IsLeastGross(f, depositBps, credited, hi)
  {
    forall a: nat | a < hi
      ensures Credited(f, depositBps, a) < credited
    {
      if hi > credited {
        CreditedMonotone(f, depositBps, a, lo);
      }
    }
  }

  /** The wallet amount tried in round `k`. */
  function Guess(f: TransferFee, depositBps: Rate, credited: nat, k: nat): nat {
    if k == 0 then credited
    else
      var guess := Guess(f, depositBps, credited, k - 1);
      NextGuess(guess, credited, Credited(f, depositBps, guess))
  }

  function NextGuess(guess: nat, credited: nat, got: nat): (g: nat)
    ensures g > 0
  {
    (guess * (credited + 1)) / AtLeastOne(got) + 1
  }

  function AtLeastOne(got: nat): (m: nat)
    ensures m > 0
  {
    if got > 0 then got else 1
  }

  const GUESSES: nat := 8

  /** Guess `k` credits enough. */
  predicate Suffices(f: TransferFee, depositBps: Rate, credited: nat, k: nat) {
    Credited(f, depositBps, Guess(f, depositBps, credited, k)) >= credited
  }

  /** None of the first `n` guesses credits enough. */
  ghost predicate GuessesShort(f: TransferFee, depositBps: Rate, credited: nat, n: nat) {
    forall k: nat | k < n :: !Suffices(f, depositBps, credited, k)
  }

  /** One of the eight guesses credits enough. */
  ghost predicate CanBeSized(f: TransferFee, depositBps: Rate, credited: nat) {
    exists k: nat :: k < GUESSES && Suffices(f, depositBps, credited, k)
  }

  /** The next guess is larger, by more than the target less the shortfall asks for. */
  lemma GuessGrows(guess: nat, credited: nat, got: nat)
    requires got < credited
    ensures NextGuess(guess, credited, got) * AtLeastOne(got) > guess * (credited + 1)
    ensures NextGuess(guess, credited, got) > guess
  {
    var m, n := AtLeastOne(got), guess * (credited + 1);
    Quotient(n, m);
    MulMonotone(m, credited + 1, guess);
    if NextGuess(guess, credited, got) <= guess {
      MulMonotone(NextGuess(guess, credited, got), guess, m);
    }
  }

  lemma Quotient(n: nat, m: nat)
    requires m > 0
    ensures (n / m + 1) * m > n
  {
    assert n == (n / m) * m + n % m;
    assert (n / m + 1) * m == (n / m) * m + m;
  }

  /** The bisection between an amount that is too small and one that is enough. */
  method Bisect(f: TransferFee, depositBps: Rate, credited: nat, guess: nat) returns (r: Sized)
    requires guess >= credited
    requires Credited(f, depositBps, guess) >= credited
    requires guess > credited ==> Credited(f, depositBps, credited) < credited
    ensures r.Gross? ==> IsLeastGross(f, depositBps, credited, r.amount)
    ensures r.PreviewFailed? ==> f.bps == BPS
    ensures !r.CouldNotSize? && (guess == credited ==> r.Gross?)
  {
    var lo, hi := credited, guess;
    while hi - lo > 1
      invariant credited <= lo <= hi <= guess
      invariant Credited(f, depositBps, hi) >= credited
      invariant Credited(f, depositBps, lo) < credited || hi <= credited
      decreases hi - lo
    {
      var mid := (lo + hi) / 2;
      var p := DepositPreview(f, depositBps, mid);
      if p.DivisionByZero? {
        return PreviewFailed;
      }
      if p.credited >= credited {
        hi := mid;
      } else {
        lo := mid;
      }
    }
    LeastByNeighbour(f, depositBps, credited, lo, hi);
    return Gross(hi);
  }

  /** `grossForCredited`: grow a guess until it credits enough, then bisect down to the least amount that does. */
  method GrossForCredited(f: TransferFee, depositBps: Rate, credited: nat) returns (r: Sized)
    ensures r.Gross? ==> IsLeastGross(f, depositBps, credited, r.amount)
    ensures r.PreviewFailed? ==> f.bps == BPS
    ensures f.bps < BPS ==> (r.Gross? <==> CanBeSized(f, depositBps, credited))
    ensures f.bps == BPS ==> (r.Gross? <==> credited == 0)
  {
    var guess := credited;
    var i := 0;
    while i < GUESSES
      invariant i <= GUESSES
      invariant guess == Guess(f, depositBps, credited, i) && GuessesShort(f, depositBps, credited, i)
      invariant guess >= credited
      invariant guess > credited ==> Credited(f, depositBps, credited) < credited
    {
      var p := DepositPreview(f, depositBps, guess);
      if p.DivisionByZero? {
        return PreviewFailed;
      }
      if p.credited >= credited {
        assert Suffices(f, depositBps, credited, i);
        r := Bisect(f, depositBps, credited, guess);
        return;
      }
      CreditedMonotone(f, depositBps, credited, guess);
      GuessGrows(guess, credited, p.credited);
      guess := NextGuess(guess, credited, p.credited);
      i := i + 1;
    }
    return CouldNotSize;
  }
}
