/**
 * Which notes a payment spends. A proof takes at most two; when the balance is spread wider, the two largest notes are
 * merged, one flat fee at a time, until two cover the need.
 */
module NoteSelection {

  /** Amounts of the unspent notes, largest first. Zero-amount notes are never kept. */
  type Notes = seq<nat>

  predicate Sorted(notes: Notes) {
    && (forall i, j | 0 <= i < j < |notes| :: notes[i] >= notes[j])
    && (forall i | 0 <= i < |notes| :: notes[i] > 0)
  }

  function Sum(notes: Notes): nat {
    if notes == [] then 0 else notes[0] + Sum(notes[1..])
  }

  datatype Selection =
    | Selected(count: nat)
    | Insufficient
    | Fragmented
    | MergeFailed
    | GaveUp
    | Unfinished

  /** `selectInputs`: the first note, the first two, or an error saying whether merging could help. */
  function SelectInputs(notes: Notes, needed: int): (s: Selection)
    ensures s.Selected? ==> 1 <= s.count <= 2 && s.count <= |notes|
  {
    if Sum(notes) < needed then Insufficient
    else if |notes| > 0 && notes[0] >= needed then Selected(1)
    else if |notes| >= 2 && notes[0] + notes[1] >= needed then Selected(2)
    else Fragmented
  }

  /** One note, or two different ones, that cover the need. */
  ghost predicate Covers(notes: Notes, needed: int, i: nat, j: nat) {
    && i < |notes| && j < |notes|
    && (if i == j then notes[i] else notes[i] + notes[j]) >= needed
  }

  lemma FirstTwo(notes: Notes)
    ensures |notes| >= 1 ==> notes[0] <= Sum(notes)
    ensures |notes| >= 2 ==> notes[0] + notes[1] <= Sum(notes)
  {
    if |notes| >= 2 {
      assert Sum(notes) == notes[0] + (notes[1] + Sum(notes[1..][1..]));
    }
  }

  /** Selection is complete: it succeeds exactly when one note or some pair of notes covers the need. */
  lemma SelectionComplete(notes: Notes, needed: int)
    requires Sorted(notes)
    ensures SelectInputs(notes, needed).Selected? <==> exists i: nat, j: nat :: Covers(notes, needed, i, j)
    ensures SelectInputs(notes, needed).Insufficient? <==> Sum(notes) < needed
  {
    FirstTwo(notes);
    if SelectInputs(notes, needed) == Selected(1) {
      assert Covers(notes, needed, 0, 0);
    } else if SelectInputs(notes, needed) == Selected(2) {
      assert Covers(notes, needed, 0, 1);
    }
    if i: nat, j: nat :| Covers(notes, needed, i, j) {
      if i != j {
        assert |notes| >= 2 && notes[i] + notes[j] <= notes[0] + notes[1];
      } else {
        assert notes[i] <= notes[0];
      }
    }
  }

  /** What is selected covers the need, and no single note is spent as a pair. */
  lemma SelectionCovers(notes: Notes, needed: int)
    requires SelectInputs(notes, needed).Selected?
    ensures Sum(notes[..SelectInputs(notes, needed).count]) >= needed
    ensures SelectInputs(notes, needed).count == 2 ==> notes[0] < needed
  {
    var k := SelectInputs(notes, needed).count;
    if k == 2 {
      assert notes[..2][1..] == [notes[1]];
    }
  }

  // ---------- merging ----------

  function Insert(notes: Notes, amount: nat): Notes {
    if notes == [] || amount >= notes[0] then [amount] + notes else [notes[0]] + Insert(notes[1..], amount)
  }

  lemma {:induction false} InsertKeeps(notes: Notes, amount: nat)
    requires Sorted(notes) && amount > 0
    ensures Sorted(Insert(notes, amount)) && Sum(Insert(notes, amount)) == Sum(notes) + amount
    ensures |Insert(notes, amount)| == |notes| + 1
    ensures Insert(notes, amount)[0] == if notes == [] || amount >= notes[0] then amount else notes[0]
  {
    if notes != [] && amount < notes[0] {
      InsertKeeps(notes[1..], amount);
    } else {
      assert ([amount] + notes)[1..] == notes;
    }
  }

  /** A note of nothing is not kept. */
  function Keep(notes: Notes, amount: nat): Notes {
    if amount == 0 then notes else Insert(notes, amount)
  }

  lemma KeepKeeps(notes: Notes, amount: nat)
    requires Sorted(notes)
    ensures Sorted(Keep(notes, amount)) && Sum(Keep(notes, amount)) == Sum(notes) + amount
    ensures |Keep(notes, amount)| == |notes| + if amount == 0 then 0 else 1
  {
    if amount > 0 {
      InsertKeeps(notes, amount);
    }
  }

  lemma {:induction false} SumSplit(notes: Notes, k: nat)
    requires k <= |notes|
    ensures Sum(notes[..k]) + Sum(notes[k..]) == Sum(notes)
  {
    if k > 0 {
      SumSplit(notes[1..], k - 1);
      assert notes[..k] == [notes[0]] + notes[1..][..k - 1];
      assert notes[..k][1..] == notes[1..][..k - 1];
      assert notes[k..] == notes[1..][k - 1..];
    } else {
      assert notes[0..] == notes;
    }
  }

  /** The notes after the first `count` paid `amount` to their owner, for a fee, with the rest as change. */
  function Sent(notes: Notes, count: nat, amount: nat, fee: nat): Notes
    requires count <= |notes| && amount + fee <= Sum(notes[..count])
  {
    Keep(Keep(notes[count..], amount), Sum(notes[..count]) - amount - fee)
  }

  /** A payment to oneself costs exactly its fee and keeps the notes in order. */
  lemma SentConserves(notes: Notes, count: nat, amount: nat, fee: nat)
    requires Sorted(notes) && count <= |notes| && amount + fee <= Sum(notes[..count])
    ensures Sorted(Sent(notes, count, amount, fee)) && Sum(Sent(notes, count, amount, fee)) + fee == Sum(notes)
    ensures |Sent(notes, count, amount, fee)| <= |notes| - count + 2
    ensures amount + fee == Sum(notes[..count]) ==> |Sent(notes, count, amount, fee)| <= |notes| - count + 1
  {
    hide Keep;
    SumSplit(notes, count);
    KeepKeeps(notes[count..], amount);
    KeepKeeps(Keep(notes[count..], amount), Sum(notes[..count]) - amount - fee);
  }

  lemma FirstTwoSum(notes: Notes)
    requires |notes| >= 2
    ensures Sum(notes[..2]) == notes[0] + notes[1]
  {
    var first := notes[..2];
    assert Sum(first) == first[0] + Sum(first[1..]) == first[0] + first[1] + Sum(first[1..][1..]);
    assert first[1..][1..] == [];
  }

  /** The notes after the two largest were merged for a fee that stayed as quoted. */
  function Merged(notes: Notes, fee: nat): Notes
    requires |notes| >= 2 && fee <= notes[0] + notes[1]
  {
    FirstTwoSum(notes);
    Sent(notes, 2, notes[0] + notes[1] - fee, fee)
  }

  /** A merge costs exactly one flat fee, keeps the notes in order and leaves fewer of them. */
  lemma MergeConserves(notes: Notes, fee: nat)
    requires Sorted(notes) && |notes| >= 2 && fee <= notes[0] + notes[1]
    ensures Sorted(Merged(notes, fee)) && |Merged(notes, fee)| < |notes|
    ensures Sum(Merged(notes, fee)) + fee == Sum(notes)
  {
    hide Sent;
    FirstTwoSum(notes);
    SentConserves(notes, 2, notes[0] + notes[1] - fee, fee);
  }

  /** What the payment inside a merge has to cover: the merge was sized at one quote, and is charged at the next. */
  function MergeNeed(notes: Notes, sized: nat, charged: nat): int
    requires |notes| >= 2
  {
    notes[0] + notes[1] - sized + charged
  }

  /**
   * The payment inside a merge finds its notes at once exactly if the fee has not risen since the merge was sized, and
   * if the fee is the same it takes the two largest. Otherwise it has to merge in turn, or cannot be covered at all.
   */
  lemma MergeSelectsTwo(notes: Notes, sized: nat, charged: nat)
    requires Sorted(notes) && |notes| >= 2
    ensures SelectInputs(notes, MergeNeed(notes, sized, charged)).Selected? <==> charged <= sized
    ensures charged == sized ==> SelectInputs(notes, MergeNeed(notes, sized, charged)) == Selected(2)
    ensures SelectInputs(notes, MergeNeed(notes, sized, charged)).Fragmented?
       <==> charged > sized && MergeNeed(notes, sized, charged) <= Sum(notes)
  {
    FirstTwo(notes);
  }

  /** Three notes, and a fee that rises by one unit between its two readings. */
  lemma RisenFeeNests()
    ensures Sorted([10, 10, 10]) && SelectInputs([10, 10, 10], MergeNeed([10, 10, 10], 1, 2)).Fragmented?
  {
    MergeSelectsTwo([10, 10, 10], 1, 2);
    SumSplit([10, 10, 10], 2);
  }

  const MERGE_ROUNDS: nat := 6

  /** Every reading of the flat fee gives the same. */
  predicate Steady(quotes: seq<nat>) {
    forall i | 0 <= i < |quotes| :: quotes[i] == quotes[0]
  }

  /** Each merge is sized at one reading and charged at a higher one, and the balance would bear it. */
  predicate AlwaysRises(notes: Notes, quotes: seq<nat>)
    requires |notes| >= 2
    decreases |quotes|
  {
    |quotes| >= 2 ==>
      && quotes[0] < quotes[1] && MergeNeed(notes, quotes[0], quotes[1]) <= Sum(notes)
      && AlwaysRises(notes, quotes[2..])
  }

  /** The notes, the readings of the fee still to come, and the fees of the payments that landed, newest first. */
  datatype Wallet = Wallet(notes: Notes, quotes: seq<nat>, fees: seq<nat>)

  /** Readings are used up in order, and the balance goes down by exactly the fees that were charged. */
  ghost predicate Leads(before: Wallet, after: Wallet) {
    && Sorted(after.notes)
    && Sum(after.notes) + Sum(after.fees) == Sum(before.notes) + Sum(before.fees)
    && |after.quotes| <= |before.quotes| && after.quotes == before.quotes[|before.quotes| - |after.quotes|..]
    && |before.fees| <= |after.fees| && after.fees[|after.fees| - |before.fees|..] == before.fees
    && forall f | f in after.fees :: f in before.fees || f in before.quotes
  }

  lemma LeadsOn(a: Wallet, b: Wallet, c: Wallet)
    requires Leads(a, b) && Leads(b, c)
    ensures Leads(a, c)
  {
  }

  lemma LeadsNowhere(a: Wallet)
    requires Sorted(a.notes)
    ensures Leads(a, a)
  {
  }

  /** Two readings are used up; `landed` says at which fee a payment landed with them, if one did. */
  lemma LeadsByMerge(a: Wallet, ready: Wallet, count: nat, amount: nat)
    requires |a.quotes| >= 2 && Leads(a.(quotes := a.quotes[2..]), ready)
    requires count <= |ready.notes| && amount + a.quotes[1] <= Sum(ready.notes[..count])
    ensures Leads(a, ready)
    ensures Leads(a, Wallet(Sent(ready.notes, count, amount, a.quotes[1]), ready.quotes, [a.quotes[1]] + ready.fees))
  {
    hide Sent;
    SentConserves(ready.notes, count, amount, a.quotes[1]);
  }

  lemma LeadsByReading(a: Wallet, ready: Wallet)
    requires |a.quotes| >= 2 && Leads(a.(quotes := a.quotes[2..]), ready)
    ensures Leads(a, ready) && |ready.quotes| < |a.quotes| && |ready.fees| >= |a.fees| && Sorted(ready.notes)
  {
  }

  datatype Merge = Landed | Failed(why: Selection)

  /** A merge at a steady fee: it lands, or the fee is more than the two largest notes. */
  ghost predicate SteadyMerge(before: Wallet, m: Merge, after: Wallet)
    requires |before.notes| >= 2 && |before.quotes| >= 2
  {
    var fee, notes := before.quotes[0], before.notes;
    if fee > notes[0] + notes[1] then m == Failed(MergeFailed) && after.notes == notes && after.fees == before.fees
    else m.Landed? && after == Wallet(Merged(notes, fee), before.quotes[2..], [fee] + before.fees)
  }

  lemma SelectedCount(notes: Notes, needed: int)
    ensures SelectInputs(notes, needed).Selected? ==> SelectInputs(notes, needed).count <= |notes|
  {
  }

  lemma SteadyPair(quotes: seq<nat>)
    ensures Steady(quotes) && |quotes| >= 2 ==> quotes[0] == quotes[1]
  {
  }

  lemma RisesInside(notes: Notes, quotes: seq<nat>)
    ensures |notes| >= 2 && |quotes| >= 2 && AlwaysRises(notes, quotes) ==>
              && quotes[1] > quotes[0] && MergeNeed(notes, quotes[0], quotes[1]) <= Sum(notes)
              && AlwaysRises(notes, quotes[2..])
  {
  }

  /** At a steady fee the payment of a merge takes the two largest notes as they are. */
  lemma SteadyInside(before: Wallet, s: Selection, ready: Wallet)
    requires |before.notes| >= 2 && |before.quotes| >= 2 && Steady(before.quotes) && Sorted(before.notes)
    requires s == Selected(2) && ready == before.(quotes := before.quotes[2..])
    ensures var notes, fee := before.notes, before.quotes[0];
            && fee == before.quotes[1] && Sum(notes[..2]) == notes[0] + notes[1]
            && if MergeNeed(notes, fee, 0) < 0 then SteadyMerge(before, Failed(MergeFailed), ready)
               else SteadyMerge(before, Landed,
                   Wallet(Sent(notes, 2, MergeNeed(notes, fee, 0), fee), ready.quotes, [fee] + ready.fees))
  {
    hide Sent;
    FirstTwoSum(before.notes);
  }

  /** A merge whose fee has not risen since it was sized: it lands, or it was sized at more than the two notes. */
  ghost predicate MergeAsSized(before: Wallet, m: Merge, after: Wallet)
    requires |before.notes| >= 2 && |before.quotes| >= 2
  {
    var notes, sized, charged := before.notes, before.quotes[0], before.quotes[1];
    var amount := MergeNeed(notes, sized, 0);
    if amount < 0 then m == Failed(MergeFailed) && after == before.(quotes := before.quotes[2..])
    else
      var count := if notes[0] >= amount + charged then 1 else 2;
      && amount + charged <= Sum(notes[..count])
      && m == Landed
      && after == Wallet(Sent(notes, count, amount, charged), before.quotes[2..], [charged] + before.fees)
  }

  lemma SizedInside(before: Wallet, s: Selection, ready: Wallet)
    requires Sorted(before.notes) && |before.notes| >= 2 && |before.quotes| >= 2 && before.quotes[1] <= before.quotes[0]
    requires s == SelectInputs(before.notes, MergeNeed(before.notes, before.quotes[0], before.quotes[1]))
    requires ready == before.(quotes := before.quotes[2..])
    ensures var notes, charged, amount := before.notes, before.quotes[1], MergeNeed(before.notes, before.quotes[0], 0);
            && s.Selected? && amount + charged <= Sum(notes[..s.count])
            && if amount < 0 then MergeAsSized(before, Failed(MergeFailed), ready)
               else MergeAsSized(before, Landed,
                      Wallet(Sent(notes, s.count, amount, charged), ready.quotes, [charged] + ready.fees))
  {
    hide Sent;
    FirstTwo(before.notes);
    SelectionCovers(before.notes, MergeNeed(before.notes, before.quotes[0], before.quotes[1]));
  }

  /** `consolidate`: read the fee, and send the two largest notes less that fee to oneself; sending reads it again. */
  method Consolidate(before: Wallet) returns (m: Merge, after: Wallet)
    requires Sorted(before.notes)
    ensures Leads(before, after)
    ensures m.Landed? ==> |after.quotes| < |before.quotes| && |after.fees| > |before.fees|
    ensures m.Failed? ==> !m.why.Selected? && !m.why.Fragmented?
    ensures |before.notes| < 2 ==> m == Failed(MergeFailed) && after == before
    ensures |before.notes| >= 2 && AlwaysRises(before.notes, before.quotes) ==>
              m == Failed(Unfinished) && after.notes == before.notes
    ensures |before.notes| >= 2 && |before.quotes| >= 2 && Steady(before.quotes) ==> SteadyMerge(before, m, after)
    ensures |before.notes| >= 2 && |before.quotes| >= 2 && before.quotes[1] <= before.quotes[0] ==>
              MergeAsSized(before, m, after)
    decreases |before.quotes|, 0
  {
    hide Leads;
    hide SelectInputs;
    hide Sent;
    hide Sorted;
    hide Sum;
    hide AlwaysRises;
    hide Steady;
    hide SteadyMerge;
    hide MergeAsSized;
    LeadsNowhere(before);
    RisesInside(before.notes, before.quotes);
    SteadyPair(before.quotes);
    var notes := before.notes;
    if |notes| < 2 {
      return Failed(MergeFailed), before;
    }
    if |before.quotes| < 2 {
      return Failed(Unfinished), before;
    }
    var sized, charged := before.quotes[0], before.quotes[1];
    var amount := MergeNeed(notes, sized, 0);
    MergeSelectsTwo(notes, sized, charged);
    var s, ready := SelectInputsMerging(before.(quotes := before.quotes[2..]), MergeNeed(notes, sized, charged));
    LeadsByReading(before, ready);
    if Steady(before.quotes) {
      SteadyInside(before, s, ready);
    }
    if charged <= sized {
      SizedInside(before, s, ready);
    }
    if !s.Selected? {
      return Failed(s), ready;
    }
    if amount < 0 {
      return Failed(MergeFailed), ready;
    }
    SelectedCount(ready.notes, MergeNeed(notes, sized, charged));
    LeadsByMerge(before, ready, s.count, amount);
    return Landed, Wallet(Sent(ready.notes, s.count, amount, charged), ready.quotes, [charged] + ready.fees);
  }

  lemma LeadsShrinks(a: Wallet, b: Wallet)
    requires Leads(a, b)
    ensures Sorted(b.notes) && |b.quotes| <= |a.quotes|
  {
  }

  /** What a run of merges at a steady fee comes to: each leaves fewer notes, and every outcome is called for. */
  ghost predicate SteadyOutcome(before: Wallet, needed: int, s: Selection, after: Wallet) {
    var merges := |after.fees| - |before.fees|;
    && merges <= 6 && |after.notes| + merges <= |before.notes| && !s.Unfinished?
    && (s.Insufficient? ==> Sum(after.notes) < needed)
    && (s.GaveUp? ==> merges == 6)
    && (s.MergeFailed? ==>
          |after.notes| < 2 || (|before.quotes| > 0 && before.quotes[0] > after.notes[0] + after.notes[1]))
  }

  /** After some rounds at a steady fee. */
  ghost predicate SteadyRounds(before: Wallet, now: Wallet, rounds: nat) {
    && 2 * rounds <= |before.quotes| && now.quotes == before.quotes[2 * rounds..]
    && |now.fees| == |before.fees| + rounds && |now.notes| + rounds <= |before.notes|
  }

  lemma RoundsNone(before: Wallet)
    ensures SteadyRounds(before, before, 0)
  {
  }

  lemma SteadyRound(before: Wallet, now: Wallet, m: Merge, next: Wallet, needed: int, rounds: nat)
    requires Steady(before.quotes) && SteadyRounds(before, now, rounds) && 2 * rounds + 2 <= |before.quotes|
    requires Sorted(now.notes) && rounds < MERGE_ROUNDS
    requires |now.notes| < 2 ==> m == Failed(MergeFailed) && next == now
    requires |now.notes| >= 2 && |now.quotes| >= 2 && Steady(now.quotes) ==> SteadyMerge(now, m, next)
    ensures m.Landed? ==> SteadyRounds(before, next, rounds + 1)
    ensures m.Failed? ==> SteadyOutcome(before, needed, m.why, next)
  {
    hide Sum;
    hide Sorted;
    hide Merged;
    if |now.notes| >= 2 && now.quotes[0] <= now.notes[0] + now.notes[1] {
      MergeConserves(now.notes, now.quotes[0]);
    }
  }

  lemma SteadyEnd(before: Wallet, after: Wallet, needed: int, rounds: nat)
    requires SteadyRounds(before, after, rounds) && rounds <= MERGE_ROUNDS
    requires !SelectInputs(after.notes, needed).Fragmented?
    ensures SteadyOutcome(before, needed, SelectInputs(after.notes, needed), after)
  {
  }

  lemma SteadyGaveUp(before: Wallet, after: Wallet, needed: int)
    requires SteadyRounds(before, after, MERGE_ROUNDS)
    ensures SteadyOutcome(before, needed, GaveUp, after)
  {
  }

  /**
   * `selectInputsMerging`: select, or merge and try again, at most six times. A selection covers the need; at a steady
   * fee the recursion is over at once and every outcome is the one its condition calls for; while the fee keeps rising
   * between sizing and charging, the recursion goes on for as long as there are readings and nothing is merged.
   */
  method SelectInputsMerging(before: Wallet, needed: int) returns (s: Selection, after: Wallet)
    requires Sorted(before.notes)
    ensures Leads(before, after) && !s.Fragmented?
    ensures s.Selected? ==> s == SelectInputs(after.notes, needed) && Sum(after.notes[..s.count]) >= needed
    ensures !SelectInputs(before.notes, needed).Fragmented? ==>
              s == SelectInputs(before.notes, needed) && after == before
    ensures SelectInputs(before.notes, needed).Fragmented? ==>
              |before.notes| >= 2 && AlwaysRises(before.notes, before.quotes) ==>
                s.Unfinished? && after.notes == before.notes
    ensures Steady(before.quotes) && |before.quotes| >= 2 * MERGE_ROUNDS ==> SteadyOutcome(before, needed, s, after)
    decreases |before.quotes|, 1
  {
    hide Leads;
    hide Sorted;
    hide Sum;
    hide SelectInputs;
    hide SteadyMerge;
    hide SteadyRounds;
    hide SteadyOutcome;
    hide AlwaysRises;
    hide Steady;
    LeadsNowhere(before);
    RoundsNone(before);
    ghost var steady := Steady(before.quotes) && |before.quotes| >= 2 * MERGE_ROUNDS;
    after := before;
    var round := 0;
    while round < MERGE_ROUNDS
      invariant round <= MERGE_ROUNDS && Sorted(after.notes)
      invariant Leads(before, after) && |after.quotes| <= |before.quotes|
      invariant round == 0 ==> after == before
      invariant round > 0 ==> SelectInputs(before.notes, needed).Fragmented?
      invariant round > 0 && |before.notes| >= 2 ==> !AlwaysRises(before.notes, before.quotes)
      invariant steady ==> SteadyRounds(before, after, round)
    {
      s := SelectInputs(after.notes, needed);
      if !s.Fragmented? {
        if s.Selected? {
          SelectionCovers(after.notes, needed);
        }
        if steady {
          SteadyEnd(before, after, needed, round);
        }
        return;
      }
      ghost var now := after;
      var m, next := Consolidate(after);
      LeadsOn(before, after, next);
      LeadsShrinks(after, next);
      after := next;
      if steady {
        SteadyRound(before, now, m, next, needed, round);
      }
      if m.Failed? {
        return m.why, after;
      }
      round := round + 1;
    }
    s := GaveUp;
    if steady {
      SteadyGaveUp(before, after, needed);
    }
  }
}
