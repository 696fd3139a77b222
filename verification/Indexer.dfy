/**
 * The relayer's indexer: a log follower that may die after any write to its tables, forgets its trees when it does, and
 * indexes single transactions while a poll is under way. Its trees always mirror a prefix of the chain's leaves.
 */
module Indexer {
  import opened TokenFee

  type Mint = nat
  type Commitment = nat
  type Signature = nat

  datatype LeafEvent = LeafEvent(mint: Mint, idx: nat, commitment: Commitment)

  /** One transaction of the program, with the leaf events its logs decode to. */
  datatype Entry = Entry(signature: Signature, events: seq<LeafEvent>)

  /**
   * What the RPC node knows. Entries of one slot may be listed in another order than they ran, so a node may briefly
   * list a leaf before an earlier one.
   */
  datatype Chain = Chain(log: seq<Entry>, leaves: map<Mint, seq<Commitment>>)

  function Of(leaves: map<Mint, seq<Commitment>>, m: Mint): seq<Commitment> {
    if m in leaves then leaves[m] else []
  }

  predicate EventTrue(chain: Chain, e: LeafEvent) {
    e.idx < |Of(chain.leaves, e.mint)| && Of(chain.leaves, e.mint)[e.idx] == e.commitment
  }

  predicate EventsTrue(chain: Chain, events: seq<LeafEvent>) {
    forall i | 0 <= i < |events| :: EventTrue(chain, events[i])
  }

  ghost predicate ChainOk(chain: Chain) {
    && (forall i, j | 0 <= i < j < |chain.log| :: chain.log[i].signature != chain.log[j].signature)
    && (forall i | 0 <= i < |chain.log| :: EventsTrue(chain, chain.log[i].events))
  }

  /** Every leaf of the chain is announced by some listed entry. */
  ghost predicate Covered(chain: Chain) {
    forall m, k :: 0 <= k < |Of(chain.leaves, m)| ==> Announced(chain.log, m, k)
  }

  ghost predicate Announced(log: seq<Entry>, m: Mint, k: nat) {
    exists q, e :: 0 <= q < |log| && e in log[q].events && e.mint == m && e.idx == k
  }

  /** The chain only grows. */
  ghost predicate Extends(chain: Chain, later: Chain) {
    ChainOk(later) && chain.log <= later.log && forall m :: Of(chain.leaves, m) <= Of(later.leaves, m)
  }

  // ---------- batches ----------

  function FilterMint(events: seq<LeafEvent>, m: Mint): seq<LeafEvent> {
    if events == [] then []
    else (if events[0].mint == m then [events[0]] else []) + FilterMint(events[1..], m)
  }

  lemma {:induction false} FilterHas(events: seq<LeafEvent>, m: Mint)
    ensures forall e :: e in FilterMint(events, m) <==> e in events && e.mint == m
  {
    if events != [] {
      FilterHas(events[1..], m);
      assert events == [events[0]] + events[1..];
    }
  }

  predicate SortedByIdx(events: seq<LeafEvent>) {
    forall i, j | 0 <= i < j < |events| :: events[i].idx <= events[j].idx
  }

  function InsertByIdx(e: LeafEvent, sorted: seq<LeafEvent>): seq<LeafEvent> {
    if sorted == [] || e.idx <= sorted[0].idx then [e] + sorted
    else [sorted[0]] + InsertByIdx(e, sorted[1..])
  }

  function SortByIdx(events: seq<LeafEvent>): seq<LeafEvent> {
    if events == [] then [] else InsertByIdx(events[0], SortByIdx(events[1..]))
  }

  lemma {:induction false} InsertSorts(e: LeafEvent, sorted: seq<LeafEvent>)
    requires SortedByIdx(sorted)
    ensures SortedByIdx(InsertByIdx(e, sorted))
    ensures forall x :: x in InsertByIdx(e, sorted) <==> x == e || x in sorted
  {
    if sorted != [] && e.idx > sorted[0].idx {
      InsertSorts(e, sorted[1..]);
      assert sorted == [sorted[0]] + sorted[1..];
      var rest := InsertByIdx(e, sorted[1..]);
      forall j | 0 <= j < |rest|
        ensures sorted[0].idx <= rest[j].idx
      {
        assert rest[j] in rest;
      }
    }
  }

  lemma {:induction false} SortSorts(events: seq<LeafEvent>)
    ensures SortedByIdx(SortByIdx(events))
    ensures forall x :: x in SortByIdx(events) <==> x in events
  {
    if events != [] {
      SortSorts(events[1..]);
      InsertSorts(events[0], SortByIdx(events[1..]));
      assert events == [events[0]] + events[1..];
    }
  }

  /** The mints of a batch, each once. */
  function MintsOf(events: seq<LeafEvent>): seq<Mint> {
    if events == [] then []
    else
      var rest := MintsOf(events[..|events| - 1]);
      var m := events[|events| - 1].mint;
      if m in rest then rest else rest + [m]
  }

  lemma {:induction false} MintsHas(events: seq<LeafEvent>)
    ensures forall m :: m in MintsOf(events) <==> exists e :: e in events && e.mint == m
    ensures forall i, j | 0 <= i < j < |MintsOf(events)| :: MintsOf(events)[i] != MintsOf(events)[j]
  {
    if events != [] {
      var n := |events| - 1;
      MintsHas(events[..n]);
      assert events == events[..n] + [events[n]];
      assert events[n] in events;
    }
  }

  /** The first event of a mint. */
  function First(events: seq<LeafEvent>, m: Mint): (i: nat)
    ensures i <= |events| && (i < |events| ==> events[i].mint == m)
    ensures forall j | 0 <= j < i :: events[j].mint != m
  {
    if events == [] || events[0].mint == m then 0 else 1 + First(events[1..], m)
  }

  /** Mints come in the order in which they first appear. */
  lemma {:induction false} MintsInOrder(events: seq<LeafEvent>)
    ensures forall i, j | 0 <= i < j < |MintsOf(events)| ::
              First(events, MintsOf(events)[i]) < First(events, MintsOf(events)[j])
    ensures forall m | m in MintsOf(events) :: First(events, m) < |events|
  {
    if events != [] {
      var n := |events| - 1;
      var rest := events[..n];
      MintsInOrder(rest);
      MintsHas(rest);
      forall m | m in MintsOf(rest)
        ensures First(events, m) == First(rest, m)
      {
        assert events[First(rest, m)].mint == m;
        assert forall j | 0 <= j < First(rest, m) :: events[j] == rest[j];
      }
      var last := events[n].mint;
      if last !in MintsOf(rest) {
        forall j | 0 <= j < n
          ensures events[j].mint != last
        {
          assert rest[j] in rest;
        }
        assert First(events, last) == n;
      }
    }
  }

  /** The batch of one mint, as it is applied. */
  function Batch(events: seq<LeafEvent>, m: Mint): seq<LeafEvent> {
    SortByIdx(FilterMint(events, m))
  }

  lemma BatchHas(events: seq<LeafEvent>, m: Mint)
    ensures SortedByIdx(Batch(events, m))
    ensures forall e :: e in Batch(events, m) <==> e in events && e.mint == m
  {
    FilterHas(events, m);
    SortSorts(FilterMint(events, m));
  }

  /** Some event of the batch lies beyond a leaf that is neither stored nor in the batch. */
  ghost predicate HasGap(stored: map<Mint, seq<Commitment>>, events: seq<LeafEvent>) {
    exists e, k :: e in events && |Of(stored, e.mint)| <= k < e.idx && Absent(events, e.mint, k)
  }

  ghost predicate Absent(events: seq<LeafEvent>, m: Mint, k: nat) {
    forall e :: e in events && e.mint == m ==> e.idx != k
  }

  predicate AllStored(stored: map<Mint, seq<Commitment>>, events: seq<LeafEvent>) {
    forall i | 0 <= i < |events| :: events[i].idx < |Of(stored, events[i].mint)|
  }

  /** Each mint's leaves in `a` are the first leaves in `b`. */
  ghost predicate Prefixes(a: map<Mint, seq<Commitment>>, b: map<Mint, seq<Commitment>>) {
    forall m :: Of(a, m) <= Of(b, m)
  }

  lemma StoredGrows(a: map<Mint, seq<Commitment>>, b: map<Mint, seq<Commitment>>, events: seq<LeafEvent>)
    requires Prefixes(a, b) && AllStored(a, events)
    ensures AllStored(b, events)
  {
    forall i | 0 <= i < |events|
      ensures events[i].idx < |Of(b, events[i].mint)|
    {
      assert Of(a, events[i].mint) <= Of(b, events[i].mint);
    }
  }

  /** The chain's next leaf of a mint extends the stored prefix. */
  lemma NextLeaf(stored: map<Mint, seq<Commitment>>, chain: Chain, e: LeafEvent)
    requires Prefixes(stored, chain.leaves) && EventTrue(chain, e) && e.idx == |Of(stored, e.mint)|
    ensures var more := stored[e.mint := Of(stored, e.mint) + [e.commitment]];
            Prefixes(more, chain.leaves) && Prefixes(stored, more)
  {
    var more := stored[e.mint := Of(stored, e.mint) + [e.commitment]];
    assert Of(stored, e.mint) <= Of(chain.leaves, e.mint);
    forall m
      ensures Of(more, m) <= Of(chain.leaves, m) && Of(stored, m) <= Of(more, m)
    {
      assert Of(stored, m) <= Of(chain.leaves, m);
    }
  }

  /** Leaf `k` is in the batch. */
  ghost predicate Present(batch: seq<LeafEvent>, k: nat) {
    exists i :: 0 <= i < |batch| && batch[i].idx == k
  }

  /** An event of the batch lies beyond a leaf that is neither among the first `n` nor in the batch. */
  ghost predicate BatchGap(batch: seq<LeafEvent>, n: nat) {
    exists i, k :: 0 <= i < |batch| && n <= k < batch[i].idx && !Present(batch, k)
  }

  /** The first `i` events of the batch are below `size`, and every leaf from `n` up to it came from the batch. */
  ghost predicate Applied(batch: seq<LeafEvent>, i: nat, n: nat, size: nat) {
    && i <= |batch| && n <= size
    && (forall j | 0 <= j < i :: batch[j].idx < size)
    && (forall k | n <= k < size :: Present(batch, k))
  }

  lemma AppliedStep(batch: seq<LeafEvent>, i: nat, n: nat, size: nat)
    requires Applied(batch, i, n, size) && i < |batch| && SortedByIdx(batch)
    ensures batch[i].idx < size ==> Applied(batch, i + 1, n, size)
    ensures batch[i].idx == size ==> Applied(batch, i + 1, n, size + 1)
    ensures batch[i].idx > size ==> BatchGap(batch, n) && !Present(batch, size)
  {
    if batch[i].idx == size {
      assert Present(batch, size);
    }
    if batch[i].idx > size {
      assert !Present(batch, size);
    }
  }

  lemma AppliedNone(batch: seq<LeafEvent>, n: nat)
    ensures Applied(batch, 0, n, n)
  {
  }

  lemma AppliedAll(batch: seq<LeafEvent>, n: nat, size: nat)
    requires Applied(batch, |batch|, n, size)
    ensures AllBelow(batch, size) && !BatchGap(batch, n) && !Present(batch, size)
  {
  }

  /** `b` is `a` with the leaves of one mint extended to `t`. */
  ghost predicate ExtendedAt(a: map<Mint, seq<Commitment>>, b: map<Mint, seq<Commitment>>, m: Mint,
      t: seq<Commitment>)
  {
    Of(b, m) == t && Of(a, m) <= t && forall x | x != m :: Of(b, x) == Of(a, x)
  }

  lemma ExtendedNot(a: map<Mint, seq<Commitment>>, m: Mint)
    ensures ExtendedAt(a, a, m, Of(a, m))
  {
  }

  lemma ExtendedTwice(a: map<Mint, seq<Commitment>>, b: map<Mint, seq<Commitment>>, c: map<Mint, seq<Commitment>>,
      m: Mint)
    requires ExtendedAt(a, b, m, Of(b, m)) && ExtendedAt(b, c, m, Of(c, m))
    ensures ExtendedAt(a, c, m, Of(c, m))
  {
    assert Of(a, m) <= Of(b, m) <= Of(c, m);
  }

  lemma ExtendedPrefixes(a: map<Mint, seq<Commitment>>, b: map<Mint, seq<Commitment>>, m: Mint)
    requires ExtendedAt(a, b, m, Of(b, m))
    ensures Prefixes(a, b)
  {
  }

  predicate AllBelow(batch: seq<LeafEvent>, n: nat) {
    forall i | 0 <= i < |batch| :: batch[i].idx < n
  }

  // ---------- rows written ----------

  type Rows = map<(Mint, nat), Commitment>

  ghost predicate IsKey(events: seq<LeafEvent>, key: (Mint, nat)) {
    exists e :: e in events && e.mint == key.0 && e.idx == key.1
  }

  /** Rows are only added, and only those that the events announce. */
  ghost predicate RowsFrom(before: Rows, events: seq<LeafEvent>, after: Rows) {
    && (forall key | key in before :: key in after && after[key] == before[key])
    && (forall key | key in after && key !in before :: IsKey(events, key))
  }

  lemma RowsFromNone(rows: Rows, events: seq<LeafEvent>)
    ensures RowsFrom(rows, events, rows)
  {
  }

  lemma RowsFromStep(before: Rows, events: seq<LeafEvent>, now: Rows, e: LeafEvent, after: Rows)
    requires RowsFrom(before, events, now) && e in events
    requires after == now || ((e.mint, e.idx) !in now && after == now[(e.mint, e.idx) := e.commitment])
    ensures RowsFrom(before, events, after)
  {
    assert IsKey(events, (e.mint, e.idx));
  }

  lemma RowsFromBatch(before: Rows, now: Rows, events: seq<LeafEvent>, m: Mint, after: Rows)
    requires RowsFrom(before, events, now) && RowsFrom(now, Batch(events, m), after)
    ensures RowsFrom(before, events, after)
  {
    hide Batch;
    BatchHas(events, m);
    forall key | key in after && key !in before
      ensures IsKey(events, key)
    {
      if key !in now {
        assert IsKey(Batch(events, m), key);
      }
    }
  }

  ghost function KeysOf(events: seq<LeafEvent>): set<(Mint, nat)> {
    set e | e in events :: (e.mint, e.idx)
  }

  lemma {:induction false} KeysFew(events: seq<LeafEvent>)
    ensures |KeysOf(events)| <= |events|
  {
    if events != [] {
      KeysFew(events[1..]);
      assert events == [events[0]] + events[1..];
      assert KeysOf(events) == KeysOf(events[1..]) + {(events[0].mint, events[0].idx)};
    }
  }

  /** There are at most as many new rows as events. */
  lemma RowsFromFew(before: Rows, events: seq<LeafEvent>, after: Rows)
    requires RowsFrom(before, events, after)
    ensures |after| <= |before| + |events|
  {
    KeysFew(events);
    SubsetSmaller(after.Keys, before.Keys + KeysOf(events));
    assert |before.Keys + KeysOf(events)| <= |before.Keys| + |KeysOf(events)|;
  }

  lemma {:induction false} SubsetSmaller<T>(a: set<T>, b: set<T>)
    requires a <= b
    ensures |a| <= |b|
  {
    assert b == a + (b - a);
  }

  // ---------- the indexer ----------

  /** `Killed`: the process died after its last permitted write. */
  datatype Outcome = Done | MissingLeaves | Killed

  /** The budget pays for each row written; a process that has used it up dies with the row after it. */
  predicate Spent(budget: nat, left: nat, outcome: Outcome, rowsBefore: nat, rowsAfter: nat) {
    if outcome == Killed then rowsAfter == rowsBefore + budget + 1 else rowsAfter + left == rowsBefore + budget
  }

  class Relayer {
    // tables
    var rows: map<(Mint, nat), Commitment>
    var seen: set<Signature>
    var cursor: Option<Signature>
    // memory
    var trees: map<Mint, seq<Commitment>>
    // the rows, read as one sequence per mint
    ghost var stored: map<Mint, seq<Commitment>>

    /** Rows are contiguous from zero for every mint. */
    ghost predicate TableOk()
      reads this`rows, this`stored
    {
      forall m: Mint, k: nat :: RowOk(m, k)
    }

    ghost predicate RowOk(m: Mint, k: nat)
      reads this`rows, this`stored
    {
      if k < |Of(stored, m)| then (m, k) in rows && rows[(m, k)] == Of(stored, m)[k] else (m, k) !in rows
    }

    /** Every seen signature is a transaction of the chain whose leaves are all stored. */
    ghost predicate SeenOk(chain: Chain)
      reads this`seen, this`stored
    {
      && (forall i | 0 <= i < |chain.log| && chain.log[i].signature in seen :: AllStored(stored, chain.log[i].events))
      && (forall s | s in seen :: Listed(chain, s))
    }

    ghost predicate Listed(chain: Chain, s: Signature) {
      exists i :: 0 <= i < |chain.log| && chain.log[i].signature == s
    }

    /** Nothing up to the cursor is unseen. */
    ghost predicate CursorOk(chain: Chain)
      reads this`cursor, this`seen
    {
      cursor.Some? ==> exists p :: 0 <= p < |chain.log| && CursorAt(chain, p)
    }

    ghost predicate CursorAt(chain: Chain, p: nat)
      reads this`cursor, this`seen
      requires p < |chain.log|
    {
      cursor == Some(chain.log[p].signature) && SeenUpTo(chain, p + 1)
    }

    ghost predicate SeenUpTo(chain: Chain, n: nat)
      reads this`seen
      requires n <= |chain.log|
    {
      forall q | 0 <= q < n :: chain.log[q].signature in seen
    }

    /** What survives a crash. */
    ghost predicate Persistent(chain: Chain)
      reads this`rows, this`stored, this`seen, this`cursor
    {
      ChainOk(chain) && TableOk() && Prefixes(stored, chain.leaves) && SeenOk(chain) && CursorOk(chain)
    }

    /** Every tree in memory is the stored rows of its mint. */
    ghost predicate Mirrors()
      reads this`trees, this`stored
    {
      forall m | m in trees :: trees[m] == Of(stored, m)
    }

    constructor (chain: Chain)
      requires ChainOk(chain)
      ensures Persistent(chain) && Mirrors()
    {
      rows, seen, cursor, trees, stored := map[], {}, None, map[], map[];
    }

    /** A restart: memory is gone, the tables are not. */
    method Restart(ghost chain: Chain)
      requires Persistent(chain)
      modifies this`trees
      ensures Persistent(chain) && Mirrors() && trees == map[]
    {
      trees := map[];
    }

    /** A growing chain disturbs nothing. */
    lemma ChainGrows(chain: Chain, later: Chain)
      requires Persistent(chain) && Extends(chain, later)
      ensures Persistent(later)
    {
      forall i | 0 <= i < |later.log| && later.log[i].signature in seen
        ensures AllStored(stored, later.log[i].events)
      {
        assert Listed(chain, later.log[i].signature);
        assert forall j | 0 <= j < |chain.log| :: later.log[j] == chain.log[j];
      }
      forall s | s in seen
        ensures Listed(later, s)
      {
        assert Listed(chain, s);
        var i :| 0 <= i < |chain.log| && chain.log[i].signature == s;
        assert later.log[i] == chain.log[i];
      }
      if cursor.Some? {
        var p :| 0 <= p < |chain.log| && CursorAt(chain, p);
        forall q | 0 <= q < p + 1
          ensures later.log[q].signature in seen
        {
          assert later.log[q] == chain.log[q];
        }
        assert CursorAt(later, p);
      }
    }

    /** `tree(mint)`: built from the table the first time it is asked for. */
    method Tree(ghost chain: Chain, m: Mint) returns (t: seq<Commitment>)
      requires Persistent(chain) && Mirrors()
      modifies this`trees
      ensures Persistent(chain)
      ensures Mirrors() && t == Of(stored, m) && trees == old(trees)[m := t]
    {
      if m !in trees {
        var all: seq<Commitment> := [];
        while (m, |all|) in rows
          invariant all <= Of(stored, m)
          decreases |Of(stored, m)| - |all|
        {
          assert RowOk(m, |all|);
          all := all + [rows[(m, |all|)]];
        }
        assert RowOk(m, |all|);
        trees := trees[m := all];
      }
      t := trees[m];
    }

    /** `insertLeaf`, the one write that stores a leaf. */
    method InsertLeaf(e: LeafEvent) returns (inserted: bool)
      requires TableOk() && e.idx == |Of(stored, e.mint)|
      modifies this`rows, this`stored
      ensures TableOk() && inserted
      ensures (e.mint, e.idx) !in old(rows) && rows == old(rows)[(e.mint, e.idx) := e.commitment]
      ensures stored == old(stored)[e.mint := Of(old(stored), e.mint) + [e.commitment]]
    {
      assert RowOk(e.mint, e.idx);
      inserted := (e.mint, e.idx) !in rows;
      if inserted {
        rows := rows[(e.mint, e.idx) := e.commitment];
        stored := stored[e.mint := Of(stored, e.mint) + [e.commitment]];
        forall m: Mint, k: nat
          ensures RowOk(m, k)
        {
          assert old(RowOk(m, k));
        }
      }
    }

    /** Storing the next leaf keeps everything that survives a crash, before the tree has heard of it. */
    method StoreNext(ghost chain: Chain, e: LeafEvent)
      requires Persistent(chain) && EventTrue(chain, e) && e.idx == |Of(stored, e.mint)|
      modifies this`rows, this`stored
      ensures Persistent(chain) && Prefixes(old(stored), stored)
      ensures (e.mint, e.idx) !in old(rows) && rows == old(rows)[(e.mint, e.idx) := e.commitment]
      ensures stored == old(stored)[e.mint := Of(old(stored), e.mint) + [e.commitment]]
    {
      NextLeaf(stored, chain, e);
      var inserted := InsertLeaf(e);
      forall i | 0 <= i < |chain.log| && chain.log[i].signature in seen
        ensures AllStored(stored, chain.log[i].events)
      {
        StoredGrows(old(stored), stored, chain.log[i].events);
      }
    }

    /** One event against the tree of its mint: skip it if held, refuse it if early, else store it and insert it. */
    method ApplyEvent(ghost chain: Chain, e: LeafEvent, t: seq<Commitment>, budget: nat)
      returns (outcome: Outcome, after: seq<Commitment>, left: nat)
      requires Persistent(chain) && Mirrors() && EventTrue(chain, e)
      requires t == Of(stored, e.mint)
      modifies this`rows, this`stored, this`trees
      ensures Persistent(chain) && ExtendedAt(old(stored), stored, e.mint, Of(stored, e.mint))
      ensures outcome != Killed ==> Mirrors() && after == Of(stored, e.mint)
      ensures outcome == if e.idx > |t| then MissingLeaves else if e.idx == |t| && budget == 0 then Killed else Done
      ensures outcome == Done ==> |after| == (if e.idx == |t| then |t| + 1 else |t|)
      ensures e.idx != |t| ==> rows == old(rows) && stored == old(stored)
      ensures e.idx == |t| ==> (e.mint, e.idx) !in old(rows) && rows == old(rows)[(e.mint, e.idx) := e.commitment]
      ensures Spent(budget, left, outcome, |old(rows)|, |rows|)
    {
      hide Persistent;
      after, left := t, budget;
      if e.idx > |t| {
        return MissingLeaves, t, left;
      }
      if e.idx == |t| {
        StoreNext(chain, e);
        if left == 0 {
          return Killed, t, 0;
        }
        left := left - 1;
        after := t + [e.commitment];
        trees := trees[e.mint := after];
      }
      outcome := Done;
    }

    /** `applyLeaves` for one mint. */
    method ApplyBatch(ghost chain: Chain, m: Mint, batch: seq<LeafEvent>, budget: nat)
      returns (outcome: Outcome, left: nat)
      requires Persistent(chain) && Mirrors()
      requires SortedByIdx(batch) && EventsTrue(chain, batch) && forall i | 0 <= i < |batch| :: batch[i].mint == m
      modifies this`rows, this`stored, this`trees
      ensures Persistent(chain) && ExtendedAt(old(stored), stored, m, Of(stored, m))
      ensures outcome != Killed ==> Mirrors()
      ensures outcome == Done ==> AllBelow(batch, |Of(stored, m)|) && !BatchGap(batch, |Of(old(stored), m)|)
      ensures outcome == MissingLeaves ==> BatchGap(batch, |Of(old(stored), m)|)
      ensures outcome != Killed ==> !Present(batch, |Of(stored, m)|)
      ensures AllBelow(batch, |Of(old(stored), m)|) ==> outcome == Done && rows == old(rows) && stored == old(stored)
      ensures Spent(budget, left, outcome, |old(rows)|, |rows|) && RowsFrom(old(rows), batch, rows)
    {
      hide Persistent;
      hide RowsFrom;
      hide EventTrue;
      hide SortedByIdx;
      hide Applied;
      hide BatchGap;
      hide Mirrors;
      hide ExtendedAt;
      ghost var n := |Of(stored, m)|;
      left := budget;
      var t := Tree(chain, m);
      var i := 0;
      AppliedNone(batch, n);
      ExtendedNot(stored, m);
      RowsFromNone(rows, batch);
      while i < |batch|
        invariant 0 <= i <= |batch| && t == Of(stored, m)
        invariant Persistent(chain) && Mirrors()
        invariant ExtendedAt(old(stored), stored, m, t)
        invariant Applied(batch, i, n, |t|)
        invariant AllBelow(batch, n) ==> rows == old(rows) && stored == old(stored)
        invariant Spent(budget, left, Done, |old(rows)|, |rows|) && RowsFrom(old(rows), batch, rows)
      {
        AppliedStep(batch, i, n, |t|);
        ghost var before, rowsBefore := stored, rows;
        outcome, t, left := ApplyEvent(chain, batch[i], t, left);
        ExtendedTwice(old(stored), before, stored, m);
        RowsFromStep(old(rows), batch, rowsBefore, batch[i], rows);
        if outcome != Done {
          return;
        }
        i := i + 1;
      }
      AppliedAll(batch, n, |t|);
      outcome := Done;
    }

    /** `applyLeaves`: one batch per mint, each in index order, mints in order of first appearance. */
    method ApplyLeaves(ghost chain: Chain, events: seq<LeafEvent>, budget: nat) returns (outcome: Outcome, left: nat)
      requires Persistent(chain) && Mirrors() && EventsTrue(chain, events)
      modifies this`rows, this`stored, this`trees
      ensures Persistent(chain) && Prefixes(old(stored), stored)
      ensures outcome != Killed ==> Mirrors()
      ensures outcome == Done ==> AllStored(stored, events) && !HasGap(old(stored), events)
      ensures outcome == MissingLeaves ==>
                HasGap(old(stored), events) && exists i: nat :: Stopped(old(stored), stored, events, i)
      ensures AllStored(old(stored), events) ==> outcome == Done && rows == old(rows) && stored == old(stored)
      ensures Spent(budget, left, outcome, |old(rows)|, |rows|) && RowsFrom(old(rows), events, rows)
      ensures |rows| <= |old(rows)| + |events|
    {
      hide Persistent;
      hide RowsFrom;
      hide Batch;
      hide BatchGap;
      hide HasGap;
      hide AllStored;
      hide AllBelow;
      hide EventsTrue;
      hide Mirrors;
      hide SortedByIdx;
      var mints := MintsOf(events);
      MintsHas(events);
      hide MintsOf;
      left := budget;
      var i := 0;
      RowsFromNone(rows, events);
      RowsFromFew(rows, events, rows);
      while i < |mints|
        invariant 0 <= i <= |mints|
        invariant Spent(budget, left, Done, |old(rows)|, |rows|) && RowsFrom(old(rows), events, rows)
        invariant Persistent(chain) && Mirrors() && Prefixes(old(stored), stored)
        invariant forall j | i <= j < |mints| :: Of(stored, mints[j]) == Of(old(stored), mints[j])
        invariant forall j | 0 <= j < i :: Settled(old(stored), stored, events, mints[j])
        invariant AllStored(old(stored), events) ==> rows == old(rows) && stored == old(stored)
      {
        var m := mints[i];
        BatchFacts(chain, events, m, stored);
        ghost var before, rowsBefore := stored, rows;
        outcome, left := ApplyBatch(chain, m, Batch(events, m), left);
        RowsFromBatch(old(rows), rowsBefore, events, m, rows);
        RowsFromFew(old(rows), events, rows);
        ExtendedPrefixes(before, stored, m);
        PrefixesTransitive(old(stored), before, stored);
        if outcome != Done {
          if outcome == MissingLeaves {
            GapOfBatch(old(stored), events, m);
            assert Stopped(old(stored), stored, events, i);
          }
          return;
        }
        i := i + 1;
      }
      outcome := Done;
      RowsFromFew(old(rows), events, rows);
      BatchesCover(old(stored), stored, events, mints);
    }

    /** `markSeen`: it keeps the tables right exactly when the transaction's leaves are stored. */
    method MarkSeen(ghost chain: Chain, entry: Entry)
      requires Persistent(chain) && entry in chain.log
      modifies this`seen
      ensures seen == old(seen) + {entry.signature}
      ensures Persistent(chain) <==> AllStored(stored, entry.events)
    {
      seen := seen + {entry.signature};
      ghost var j :| 0 <= j < |chain.log| && chain.log[j] == entry;
      assert forall i | 0 <= i < |chain.log| && i != j :: chain.log[i].signature != entry.signature;
      assert SeenOk(chain) <==> AllStored(stored, entry.events) by {
        forall s | s in seen
          ensures Listed(chain, s)
        {
          assert s in old(seen) ==> Listed(chain, s);
        }
      }
      if cursor.Some? {
        ghost var p :| 0 <= p < |chain.log| && old(CursorAt(chain, p));
        assert CursorAt(chain, p);
      }
    }

    /**
     * `indexSignature`: one transaction, at any time, whatever else is going on. A new one is stored and marked exactly
     * if it leaves no gap, unless the process dies, for which it takes a budget of no more than its events.
     */
    method IndexSignature(ghost chain: Chain, entry: Entry, budget: nat) returns (outcome: Outcome)
      requires Persistent(chain) && Mirrors() && entry in chain.log
      modifies this`rows, this`stored, this`trees, this`seen
      ensures Persistent(chain) && Prefixes(old(stored), stored)
      ensures outcome != Killed ==> Mirrors()
      ensures entry.signature in old(seen) ==> outcome == Done && unchanged(this)
      ensures seen == if outcome == Done then old(seen) + {entry.signature} else old(seen)
      ensures entry.signature !in old(seen) && outcome != Killed ==>
                if HasGap(old(stored), entry.events) then outcome == MissingLeaves
                else outcome == Done && AllStored(stored, entry.events)
      ensures |entry.events| < budget ==> outcome != Killed
      ensures RowsFrom(old(rows), entry.events, rows)
    {
      hide HasGap;
      hide AllStored;
      hide RowsFrom;
      RowsFromNone(rows, entry.events);
      if entry.signature in seen {
        return Done;
      }
      EventsOfEntry(chain, entry);
      var left;
      outcome, left := ApplyLeaves(chain, entry.events, budget);
      if outcome == Done {
        if left == 0 {
          return Killed;
        }
        MarkSeen(chain, entry);
      }
    }

    /**
     * The same when the node does not return the transaction: the decoder then reports no events, and the signature is
     * marked seen all the same. The tables stay right exactly when its leaves were stored already.
     */
    method IndexMissed(ghost chain: Chain, entry: Entry)
      requires Persistent(chain) && entry in chain.log && entry.signature !in seen
      modifies this`seen
      ensures seen == old(seen) + {entry.signature}
      ensures Persistent(chain) <==> AllStored(stored, entry.events)
    {
      MarkSeen(chain, entry);
    }

    /** What a poll holds between reading the node and writing its result: entries that are seen or about to be. */
    ghost predicate Ready(chain: Chain, start: nat, all: seq<Entry>, pending: seq<Entry>)
      reads this`seen
    {
      && start + |all| <= |chain.log|
      && all == chain.log[start..start + |all|]
      && SeenUpTo(chain, start)
      && (forall e | e in all :: e.signature in seen || e in pending)
      && (forall e | e in pending :: e in all)
    }

    /** Page backwards from the newest entry, `limit` entries at a time, down to position `from`. */
    static method FetchPages(log: seq<Entry>, from: nat, limit: nat) returns (newestFirst: seq<Entry>)
      requires from <= |log| && limit > 0
      ensures newestFirst == Reversed(log[from..])
    {
      hide Reversed;
      newestFirst := [];
      var before := |log|;
      ReversedNone(log);
      while true
        invariant from <= before <= |log|
        invariant newestFirst == Reversed(log[before..])
        decreases before
      {
        var low := if before - from > limit then before - limit else from;
        var page := Reversed(log[low..before]);
        if |page| == 0 {
          break;
        }
        PagesJoin(log, low, before);
        newestFirst := newestFirst + page;
        before := low;
        if |page| < limit {
          break;
        }
      }
    }

    /**
     * The reading half of `poll`: everything newer than the cursor, oldest first, and of that what is not yet seen.
     * `log` is what the node lists at the time.
     */
    method PollFetch(ghost chain: Chain, log: seq<Entry>, limit: nat)
      returns (ghost start: nat, all: seq<Entry>, pending: seq<Entry>)
      requires Persistent(chain) && log <= chain.log && limit > 0
      ensures Ready(chain, start, all, pending) && start + |all| == |log|
      ensures all == log[start..] && pending == Unseen(all)
      ensures forall p | 0 <= p < |log| && cursor == Some(log[p].signature) :: start == p + 1
      ensures (forall p | 0 <= p < |log| :: cursor != Some(log[p].signature)) ==> start == 0
    {
      hide Persistent;
      hide SeenUpTo;
      hide Newer;
      hide Reversed;
      hide Unseen;
      hide Ready;
      var from := Newer(log, cursor);
      start := from;
      NewerSeen(chain, log);
      SignaturesDiffer(chain, log);
      NewerExactly(log, cursor);
      var newestFirst := FetchPages(log, from, limit);
      ReversedTwice(log[from..]);
      all := Reversed(newestFirst);
      pending := Unseen(all);
      UnseenHas(all);
      FetchedReady(chain, log, from, all, pending);
    }

    lemma SignaturesDiffer(chain: Chain, log: seq<Entry>)
      requires Persistent(chain) && log <= chain.log
      ensures forall i, j | 0 <= i < j < |log| :: log[i].signature != log[j].signature
    {
    }

    lemma FetchedReady(chain: Chain, log: seq<Entry>, from: nat, all: seq<Entry>, pending: seq<Entry>)
      requires log <= chain.log && from <= |log| && SeenUpTo(chain, from) && all == log[from..]
      requires forall e :: e in pending <==> e in all && e.signature !in seen
      ensures Ready(chain, from, all, pending)
    {
      hide SeenUpTo;
      assert all == chain.log[from..from + |all|];
    }

    function Unseen(entries: seq<Entry>): seq<Entry>
      reads this`seen
    {
      if entries == [] then []
      else (if entries[0].signature in seen then [] else [entries[0]]) + Unseen(entries[1..])
    }

    lemma UnseenHas(entries: seq<Entry>)
      ensures forall e :: e in Unseen(entries) <==> e in entries && e.signature !in seen
    {
      if entries != [] {
        UnseenHas(entries[1..]);
        assert entries == [entries[0]] + entries[1..];
      }
    }

    /** Before the cursor's place in the node's list all is seen; if the cursor is not listed, nothing is skipped. */
    lemma NewerSeen(chain: Chain, log: seq<Entry>)
      requires Persistent(chain) && log <= chain.log
      ensures SeenUpTo(chain, Newer(log, cursor))
    {
      NewerAt(log, cursor);
      var n := Newer(log, cursor);
      if n > 0 {
        var p :| 0 <= p < |chain.log| && CursorAt(chain, p);
        assert log[n - 1] == chain.log[n - 1];
        assert p == n - 1;
      }
    }

    /** The writing half of `poll`: apply everything fetched in one go, then mark it seen, then move the cursor. */
    method PollCommit(ghost chain: Chain, ghost start: nat, all: seq<Entry>, pending: seq<Entry>, budget: nat)
      returns (outcome: Outcome)
      requires Persistent(chain) && Mirrors() && Ready(chain, start, all, pending)
      modifies this
      ensures Persistent(chain) && Prefixes(old(stored), stored) && old(seen) <= seen
      ensures outcome != Killed ==> Mirrors()
      ensures outcome == MissingLeaves ==> seen == old(seen) && cursor == old(cursor)
      ensures outcome == Done ==> SeenUpTo(chain, start + |all|) && seen == old(seen) + Signatures(pending)
      ensures outcome == Done ==> cursor == if |all| > 0 then Some(all[|all| - 1].signature) else old(cursor)
      ensures outcome != Killed ==>
                if HasGap(old(stored), EventsOf(pending)) then outcome == MissingLeaves
                else outcome == Done && AllStored(stored, EventsOf(pending))
      ensures |EventsOf(pending)| + |pending| < budget ==> outcome != Killed
      ensures CompleteBelow(chain, start + |all|) ==> outcome != MissingLeaves
      ensures RowsFrom(old(rows), EventsOf(pending), rows)
    {
      hide HasGap;
      hide RowsFrom;
      hide CompleteBelow;
      hide EventsOf;
      hide AllStored;
      hide EventsTrue;
      hide SeenOk;
      hide TableOk;
      hide ChainOk;
      hide Prefixes;
      hide Mirrors;
      FreshTrue(chain, start, all, pending);
      if CompleteBelow(chain, start + |all|) {
        NoGapWhenComplete(chain, start, all, pending);
      }
      ghost var before := stored;
      var left;
      outcome, left := ApplyLeaves(chain, EventsOf(pending), budget);
      if outcome != Done {
        return;
      }
      ghost var applied := stored;
      ghost var rowsApplied := rows;
      assert seen == old(seen) + Signatures(pending[..0]);
      for i := 0 to |pending|
        invariant Persistent(chain) && Mirrors() && stored == applied && rows == rowsApplied && cursor == old(cursor)
        invariant seen == old(seen) + Signatures(pending[..i])
        invariant left + i >= budget - |EventsOf(pending)|
      {
        if left == 0 {
          return Killed;
        }
        left := left - 1;
        StoredOfEntry(stored, pending, i);
        assert pending[i] in all;
        MarkSeen(chain, pending[i]);
        SignaturesPush(pending, i);
      }
      assert pending[..|pending|] == pending;
      AllSeen(chain, start, all, pending);
      if |all| > 0 {
        if left == 0 {
          return Killed;
        }
        cursor := Some(all[|all| - 1].signature);
        assert CursorAt(chain, start + |all| - 1);
      }
    }

    lemma FreshTrue(chain: Chain, start: nat, all: seq<Entry>, pending: seq<Entry>)
      requires ChainOk(chain) && Ready(chain, start, all, pending)
      ensures EventsTrue(chain, EventsOf(pending))
    {
      EventsOfHas(pending);
      var events := EventsOf(pending);
      forall i | 0 <= i < |events|
        ensures EventTrue(chain, events[i])
      {
        assert events[i] in events;
        var q :| 0 <= q < |pending| && events[i] in pending[q].events;
        assert pending[q] in all;
        EventsOfEntry(chain, pending[q]);
      }
    }

    lemma AllSeen(chain: Chain, start: nat, all: seq<Entry>, pending: seq<Entry>)
      requires start + |all| <= |chain.log| && all == chain.log[start..start + |all|]
      requires SeenUpTo(chain, start)
      requires forall e | e in all :: e.signature in seen || e in pending
      requires forall j | 0 <= j < |pending| :: pending[j].signature in seen
      ensures SeenUpTo(chain, start + |all|)
    {
      forall q | 0 <= q < start + |all|
        ensures chain.log[q].signature in seen
      {
        if q >= start {
          assert chain.log[q] == all[q - start];
          assert all[q - start] in all;
        }
      }
    }

    /** A node that lists everything below what it shows never makes a poll fail. */
    lemma NoGapWhenComplete(chain: Chain, start: nat, all: seq<Entry>, pending: seq<Entry>)
      requires Persistent(chain) && Ready(chain, start, all, pending) && CompleteBelow(chain, start + |all|)
      ensures !HasGap(stored, EventsOf(pending))
    {
      EventsOfHas(pending);
      hide HasGap;
      hide EventsOf;
      hide CompleteBelow;
      hide Absent;
      forall q, x | 0 <= q < start + |all| && x in chain.log[q].events && x !in EventsOf(pending)
        ensures x.idx < |Of(stored, x.mint)|
      {
        if q >= start {
          assert chain.log[q] == all[q - start];
          assert all[q - start] in all;
        }
        StoredIn(stored, chain.log[q].events, x);
      }
      forall x | x in EventsOf(pending)
        ensures Announces(chain.log, start + |all|, x)
      {
        var f :| 0 <= f < |pending| && x in pending[f].events;
        assert pending[f] in all;
      }
      NoGapIn(chain, start + |all|, stored, EventsOf(pending));
    }

    /**
     * A whole `poll`: what it applies is what the node lists and is not yet seen. If the node lists all of a chain
     * whose list announces every leaf, and every leaf after those below it, a poll that is not cut short leaves an
     * exact mirror; and a budget above what it has to write sees to that.
     */
    method Poll(ghost chain: Chain, log: seq<Entry>, limit: nat, budget: nat)
      returns (outcome: Outcome, pending: seq<Entry>)
      requires Persistent(chain) && Mirrors() && log <= chain.log && limit > 0
      modifies this
      ensures Persistent(chain) && (outcome != Killed ==> Mirrors())
      ensures forall e :: e in pending <==> e in log && e.signature !in old(seen)
      ensures |EventsOf(pending)| + |pending| < budget ==> outcome != Killed
      ensures outcome != Killed ==> (outcome == MissingLeaves <==> HasGap(old(stored), EventsOf(pending)))
      ensures outcome == Done ==> SeenUpTo(chain, |log|)
      ensures outcome != Killed && log == chain.log && CompleteBelow(chain, |chain.log|) && Covered(chain) ==>
                forall m :: Of(stored, m) == Of(chain.leaves, m)
    {
      hide Persistent;
      hide Mirrors;
      hide Ready;
      hide SeenUpTo;
      hide CompleteBelow;
      hide Covered;
      hide EventsOf;
      hide HasGap;
      hide RowsFrom;
      hide AllStored;
      var all;
      ghost var start;
      start, all, pending := PollFetch(chain, log, limit);
      ReadyWithin(chain, start, all, pending);
      PendingExactly(chain, log, start, all, pending);
      outcome := PollCommit(chain, start, all, pending, budget);
      if outcome == Done && log == chain.log && Covered(chain) {
        CaughtUp(chain);
      }
    }

    /** What is fetched but not seen is what is listed but not seen. */
    lemma PendingExactly(chain: Chain, log: seq<Entry>, start: nat, all: seq<Entry>, pending: seq<Entry>)
      requires log <= chain.log && Ready(chain, start, all, pending)
      requires start <= |log| && all == log[start..] && pending == Unseen(all)
      ensures forall e :: e in pending <==> e in log && e.signature !in seen
    {
      UnseenHas(all);
      hide Unseen;
      forall e | e in log && e.signature !in seen
        ensures e in all
      {
        var q :| 0 <= q < |log| && log[q] == e;
        assert chain.log[q] == e;
        assert q >= start;
        assert all[q - start] == e;
      }
    }

    lemma ReadyWithin(chain: Chain, start: nat, all: seq<Entry>, pending: seq<Entry>)
      requires Ready(chain, start, all, pending)
      ensures start + |all| <= |chain.log|
    {
    }

    /** Once everything listed is seen and the list announces every leaf, the mirror is exact. */
    lemma CaughtUp(chain: Chain)
      requires Persistent(chain) && SeenUpTo(chain, |chain.log|) && Covered(chain)
      ensures forall m :: Of(stored, m) == Of(chain.leaves, m)
    {
      forall m
        ensures Of(stored, m) == Of(chain.leaves, m)
      {
        assert Of(stored, m) <= Of(chain.leaves, m);
        var k := |Of(stored, m)|;
        assert k < |Of(chain.leaves, m)| ==> Announced(chain.log, m, k);
      }
    }
  }

  ghost function Signatures(entries: seq<Entry>): set<Signature> {
    set e | e in entries :: e.signature
  }

  lemma SignaturesPush(entries: seq<Entry>, i: nat)
    requires i < |entries|
    ensures Signatures(entries[..i + 1]) == Signatures(entries[..i]) + {entries[i].signature}
  {
    assert entries[..i + 1] == entries[..i] + [entries[i]];
  }

  lemma StoredIn(stored: map<Mint, seq<Commitment>>, events: seq<LeafEvent>, e: LeafEvent)
    requires AllStored(stored, events) && e in events
    ensures e.idx < |Of(stored, e.mint)|
  {
    var i :| 0 <= i < |events| && events[i] == e;
  }

  lemma EventsOfEntry(chain: Chain, entry: Entry)
    requires ChainOk(chain) && entry in chain.log
    ensures EventsTrue(chain, entry.events)
    ensures forall e | e in entry.events :: EventTrue(chain, e)
  {
    var i :| 0 <= i < |chain.log| && chain.log[i] == entry;
  }

  // ---------- what the node lists ----------

  /** How many of the node's entries are not newer than the cursor. */
  function Newer(log: seq<Entry>, cursor: Option<Signature>): (n: nat)
    ensures n <= |log|
  {
    if log == [] || cursor.None? then 0
    else if log[|log| - 1].signature == cursor.value then |log|
    else Newer(log[..|log| - 1], cursor)
  }

  lemma {:induction false} NewerAt(log: seq<Entry>, cursor: Option<Signature>)
    ensures Newer(log, cursor) > 0 ==> cursor == Some(log[Newer(log, cursor) - 1].signature)
  {
    if log != [] && cursor.Some? && log[|log| - 1].signature != cursor.value {
      NewerAt(log[..|log| - 1], cursor);
    }
  }

  /** What is newer starts right after the cursor, or at the beginning if the cursor is not listed. */
  lemma {:induction false} NewerExactly(log: seq<Entry>, cursor: Option<Signature>)
    requires forall i, j | 0 <= i < j < |log| :: log[i].signature != log[j].signature
    ensures forall p | 0 <= p < |log| && cursor == Some(log[p].signature) :: Newer(log, cursor) == p + 1
    ensures (forall p | 0 <= p < |log| :: cursor != Some(log[p].signature)) ==> Newer(log, cursor) == 0
  {
    if log != [] && cursor.Some? && log[|log| - 1].signature != cursor.value {
      var rest := log[..|log| - 1];
      NewerExactly(rest, cursor);
      assert forall p | 0 <= p < |rest| :: rest[p] == log[p];
    }
  }

  function Reversed(entries: seq<Entry>): (r: seq<Entry>)
    ensures |r| == |entries|
  {
    if entries == [] then [] else Reversed(entries[1..]) + [entries[0]]
  }

  lemma {:induction false} ReversedAppend(a: seq<Entry>, b: seq<Entry>)
    ensures Reversed(a + b) == Reversed(b) + Reversed(a)
  {
    if a == [] {
      assert a + b == b;
    } else {
      ReversedAppend(a[1..], b);
      assert (a + b)[1..] == a[1..] + b;
    }
  }

  lemma ReversedNone(log: seq<Entry>)
    ensures Reversed(log[|log|..]) == []
  {
  }

  lemma {:induction false} ReversedTwice(a: seq<Entry>)
    ensures Reversed(Reversed(a)) == a
  {
    if a != [] {
      ReversedTwice(a[1..]);
      ReversedAppend(Reversed(a[1..]), [a[0]]);
      assert Reversed([a[0]]) == [a[0]];
    }
  }

  lemma PagesJoin(log: seq<Entry>, low: nat, before: nat)
    requires low <= before <= |log|
    ensures Reversed(log[before..]) + Reversed(log[low..before]) == Reversed(log[low..])
  {
    assert log[low..] == log[low..before] + log[before..];
    ReversedAppend(log[low..before], log[before..]);
  }

  function EventsOf(entries: seq<Entry>): seq<LeafEvent> {
    if entries == [] then [] else EventsOf(entries[..|entries| - 1]) + entries[|entries| - 1].events
  }

  lemma {:induction false} EventsOfHas(entries: seq<Entry>)
    ensures forall e :: e in EventsOf(entries) <==> exists q :: 0 <= q < |entries| && e in entries[q].events
  {
    if entries != [] {
      var n := |entries| - 1;
      EventsOfHas(entries[..n]);
      assert forall q | 0 <= q < n :: entries[..n][q] == entries[q];
    }
  }

  lemma StoredOfEntry(stored: map<Mint, seq<Commitment>>, entries: seq<Entry>, i: nat)
    requires i < |entries| && AllStored(stored, EventsOf(entries))
    ensures AllStored(stored, entries[i].events)
  {
    EventsOfHas(entries);
    forall j | 0 <= j < |entries[i].events|
      ensures entries[i].events[j].idx < |Of(stored, entries[i].events[j].mint)|
    {
      assert entries[i].events[j] in EventsOf(entries);
      StoredIn(stored, EventsOf(entries), entries[i].events[j]);
    }
  }

  /** Below every leaf the first `n` entries announce, they announce every other leaf of its mint. */
  ghost predicate CompleteBelow(chain: Chain, n: nat)
    requires n <= |chain.log|
  {
    forall e, k :: Announces(chain.log, n, e) && 0 <= k < e.idx ==> Announced(chain.log[..n], e.mint, k)
  }

  ghost predicate Announces(log: seq<Entry>, n: nat, e: LeafEvent)
    requires n <= |log|
  {
    exists q :: 0 <= q < n && e in log[q].events
  }

  lemma NoGapIn(chain: Chain, n: nat, stored: map<Mint, seq<Commitment>>, events: seq<LeafEvent>)
    requires n <= |chain.log| && CompleteBelow(chain, n)
    requires forall q, x | 0 <= q < n && x in chain.log[q].events && x !in events :: x.idx < |Of(stored, x.mint)|
    requires forall x | x in events :: Announces(chain.log, n, x)
    ensures !HasGap(stored, events)
  {
    forall e, k | e in events && |Of(stored, e.mint)| <= k < e.idx
      ensures !Absent(events, e.mint, k)
    {
      assert Announced(chain.log[..n], e.mint, k);
    }
  }

  /** The batch of one mint went in without a gap. */
  ghost predicate Settled(before: map<Mint, seq<Commitment>>, after: map<Mint, seq<Commitment>>,
      events: seq<LeafEvent>, m: Mint)
  {
    AllBelow(Batch(events, m), |Of(after, m)|) && !BatchGap(Batch(events, m), |Of(before, m)|)
  }

  /**
   * Application stopped at a gap in the batch of the `i`-th mint: the mints before it are settled, those after it
   * untouched, and of its own leaves all below the gap are stored.
   */
  ghost predicate Stopped(before: map<Mint, seq<Commitment>>, after: map<Mint, seq<Commitment>>, events: seq<LeafEvent>,
      i: nat)
  {
    var mints := MintsOf(events);
    && i < |mints|
    && (forall j | 0 <= j < i :: Settled(before, after, events, mints[j]))
    && (forall j | i < j < |mints| :: Of(after, mints[j]) == Of(before, mints[j]))
    && BatchGap(Batch(events, mints[i]), |Of(before, mints[i])|)
    && !Present(Batch(events, mints[i]), |Of(after, mints[i])|)
  }

  lemma PrefixesTransitive(a: map<Mint, seq<Commitment>>, b: map<Mint, seq<Commitment>>, c: map<Mint, seq<Commitment>>)
    requires Prefixes(a, b) && Prefixes(b, c)
    ensures Prefixes(a, c)
  {
    forall m
      ensures Of(a, m) <= Of(c, m)
    {
      assert Of(a, m) <= Of(b, m) <= Of(c, m);
    }
  }

  lemma BatchFacts(chain: Chain, events: seq<LeafEvent>, m: Mint, stored: map<Mint, seq<Commitment>>)
    requires EventsTrue(chain, events)
    ensures SortedByIdx(Batch(events, m)) && EventsTrue(chain, Batch(events, m))
    ensures forall i | 0 <= i < |Batch(events, m)| :: Batch(events, m)[i].mint == m
    ensures AllStored(stored, events) ==> AllBelow(Batch(events, m), |Of(stored, m)|)
  {
    BatchHas(events, m);
    forall i | 0 <= i < |Batch(events, m)|
      ensures Batch(events, m)[i] in events && Batch(events, m)[i].mint == m
    {
      assert Batch(events, m)[i] in Batch(events, m);
    }
  }

  lemma GapOfBatch(stored: map<Mint, seq<Commitment>>, events: seq<LeafEvent>, m: Mint)
    requires BatchGap(Batch(events, m), |Of(stored, m)|)
    ensures HasGap(stored, events)
  {
    var batch := Batch(events, m);
    BatchHas(events, m);
    var i, k :| 0 <= i < |batch| && |Of(stored, m)| <= k < batch[i].idx && !Present(batch, k);
    assert batch[i] in batch;
    forall e | e in events && e.mint == m
      ensures e.idx != k
    {
      assert e in batch;
    }
    assert Absent(events, m, k);
  }

  lemma BatchesCover(before: map<Mint, seq<Commitment>>, after: map<Mint, seq<Commitment>>, events: seq<LeafEvent>,
      mints: seq<Mint>)
    requires mints == MintsOf(events)
    requires forall j | 0 <= j < |mints| :: Settled(before, after, events, mints[j])
    ensures AllStored(after, events) && !HasGap(before, events)
  {
    MintsHas(events);
    forall i | 0 <= i < |events|
      ensures events[i].idx < |Of(after, events[i].mint)|
    {
      var m := events[i].mint;
      BatchHas(events, m);
      assert events[i] in events && m in mints;
      assert events[i] in Batch(events, m);
    }
    forall e, k | e in events && |Of(before, e.mint)| <= k < e.idx
      ensures !Absent(events, e.mint, k)
    {
      GapFilled(before, after, events, e, k);
    }
  }

  /** A settled batch has an event for every leaf below one of its own that was not stored before. */
  lemma GapFilled(before: map<Mint, seq<Commitment>>, after: map<Mint, seq<Commitment>>, events: seq<LeafEvent>,
      e: LeafEvent, k: nat)
    requires e in events && |Of(before, e.mint)| <= k < e.idx
    requires e.mint in MintsOf(events) ==> Settled(before, after, events, e.mint)
    ensures !Absent(events, e.mint, k)
  {
    MintsHas(events);
    BatchHas(events, e.mint);
    var batch := Batch(events, e.mint);
    assert e in batch;
    hide Batch;
    hide MintsOf;
    var i :| 0 <= i < |batch| && batch[i] == e;
    assert Present(batch, k);
    var j :| 0 <= j < |batch| && batch[j].idx == k;
    assert batch[j] in batch;
  }

  // ---------- every interleaving ----------

  /**
   * One thing that can happen next: the chain moves on, a client asks for a tree, one transaction is indexed, a poll
   * reads a node that lists `visible` entries, that poll writes its result, or the process restarts. A budget says
   * after how many table writes the process dies.
   */
  datatype Event =
    | Grow | Serve(mint: Mint) | Index(position: nat, budget: nat)
    | Fetch(visible: nat, limit: nat) | Commit(budget: nat) | Restart

  ghost predicate History(chains: seq<Chain>) {
    |chains| > 0 && ChainOk(chains[0]) && forall i | 0 <= i < |chains| - 1 :: Extends(chains[i], chains[i + 1])
  }

  lemma HistoryStarts(chains: seq<Chain>)
    requires History(chains)
    ensures |chains| > 0 && ChainOk(chains[0])
  {
  }

  lemma HistoryGoesOn(chains: seq<Chain>, i: nat)
    requires History(chains) && i + 1 < |chains|
    ensures Extends(chains[i], chains[i + 1])
  {
  }

  lemma ReadyGrows(r: Relayer, chain: Chain, later: Chain, start: nat, all: seq<Entry>, pending: seq<Entry>)
    requires r.Ready(chain, start, all, pending) && chain.log <= later.log
    ensures r.Ready(later, start, all, pending)
  {
    assert all == later.log[start..start + |all|];
    assert forall q | 0 <= q < start :: later.log[q] == chain.log[q];
  }

  lemma LogGrows(chain: Chain, later: Chain)
    requires Extends(chain, later)
    ensures chain.log <= later.log
  {
  }

  /** Between events: the tables are right, a living process mirrors them, a poll under way can still be written. */
  ghost predicate Going(r: Relayer, chain: Chain, alive: bool, polling: bool, start: nat, all: seq<Entry>,
      pending: seq<Entry>)
    reads r
  {
    r.Persistent(chain) && (alive ==> r.Mirrors()) && (polling ==> r.Ready(chain, start, all, pending))
  }

  /** The chain moves on under a relayer that does not know it yet. */
  lemma GoesOn(r: Relayer, chain: Chain, later: Chain, alive: bool, polling: bool, start: nat, all: seq<Entry>,
      pending: seq<Entry>)
    requires Going(r, chain, alive, polling, start, all, pending) && Extends(chain, later)
    ensures Going(r, later, alive, polling, start, all, pending)
  {
    hide Relayer.Persistent;
    hide Relayer.Mirrors;
    hide Relayer.Ready;
    hide Extends;
    r.ChainGrows(chain, later);
    LogGrows(chain, later);
    if polling {
      ReadyGrows(r, chain, later, start, all, pending);
    }
  }

  /** One event, other than growth of the chain. */
  method Turn(r: Relayer, chain: Chain, event: Event, wasAlive: bool, wasPolling: bool, ghost wasStart: nat,
      wasAll: seq<Entry>, wasPending: seq<Entry>)
    returns (alive: bool, polling: bool, ghost start: nat, all: seq<Entry>, pending: seq<Entry>)
    requires Going(r, chain, wasAlive, wasPolling, wasStart, wasAll, wasPending)
    modifies r
    ensures Going(r, chain, alive, polling, start, all, pending)
    ensures event.Serve? && wasAlive ==> alive && event.mint in r.trees
    ensures event.Index? && wasAlive && event.position < |chain.log| ==>
              var entry := chain.log[event.position];
              && (|entry.events| < event.budget ==> alive)
              && (alive && !HasGap(old(r.stored), entry.events) ==> entry.signature in r.seen)
    ensures event.Fetch? && wasAlive && event.visible <= |chain.log| && event.limit > 0 ==>
              alive && polling && start + |all| == event.visible
    ensures event.Commit? && wasAlive && wasPolling ==>
              && !polling && (|EventsOf(wasPending)| + |wasPending| < event.budget ==> alive)
              && (alive && !HasGap(old(r.stored), EventsOf(wasPending)) ==>
                    wasStart + |wasAll| <= |chain.log| && r.SeenUpTo(chain, wasStart + |wasAll|))
    ensures event.Restart? ==> alive && !polling && r.trees == map[]
  {
    hide Relayer.Persistent;
    hide Relayer.Mirrors;
    alive, polling, start, all, pending := wasAlive, wasPolling, wasStart, wasAll, wasPending;
    match event
    case Grow =>
    case Serve(m) =>
      if alive {
        var t := r.Tree(chain, m);
      }
    case Index(position, budget) =>
      if alive && position < |chain.log| {
        var outcome := r.IndexSignature(chain, chain.log[position], budget);
        alive := outcome != Killed;
        polling := polling && alive;
      }
    case Fetch(visible, limit) =>
      if alive && visible <= |chain.log| && limit > 0 {
        start, all, pending := r.PollFetch(chain, chain.log[..visible], limit);
        polling := true;
      }
    case Commit(budget) =>
      if alive && polling {
        var outcome := r.PollCommit(chain, start, all, pending, budget);
        alive, polling := outcome != Killed, false;
      }
    case Restart =>
      r.Restart(chain);
      alive, polling := true, false;
  }

  /**
   * Whatever happens in whatever order, the tables describe a prefix of the chain's leaves with no gap, every seen
   * transaction is stored, nothing up to the cursor is unseen, and as long as the process lives its trees are the rows.
   */
  method Follow(chains: seq<Chain>, events: seq<Event>) returns (r: Relayer, now: nat, alive: bool)
    requires History(chains)
    ensures now < |chains| && r.Persistent(chains[now])
    ensures alive ==> r.Mirrors()
  {
    hide Extends;
    hide History;
    hide ChainOk;
    hide Relayer.Persistent;
    hide Relayer.Mirrors;
    hide Relayer.Ready;
    HistoryStarts(chains);
    now, alive := 0, true;
    r := new Relayer(chains[0]);
    var polling, all, pending := false, [], [];
    ghost var start: nat := 0;
    for i := 0 to |events|
      invariant fresh(r) && now < |chains|
      invariant Going(r, chains[now], alive, polling, start, all, pending)
    {
      if events[i].Grow? && now + 1 < |chains| {
        HistoryGoesOn(chains, now);
        GoesOn(r, chains[now], chains[now + 1], alive, polling, start, all, pending);
        now := now + 1;
      } else {
        alive, polling, start, all, pending := Turn(r, chains[now], events[i], alive, polling, start, all, pending);
      }
    }
  }
}
