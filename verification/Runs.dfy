/**
 * Whole runs of the chain: every instruction by anyone in any order, and everything the outside world may do to the
 * accounts in between. Solvency and the absence of double spends hold in every state of every run.
 */
module Runs {
  import opened Bn254
  import opened Books
  import opened FrontierTree
  import opened JoinSplit
  import opened Ledger
  import opened Membership
  import opened MerkleSpec
  import opened Poseidon
  import opened PublicAmount
  import opened VaultFlow

  datatype Chain = Chain(state: State, books: map<Key, Book>)

  /** How the chain starts: the accounts SOL's pool finds when it is opened. */
  datatype Genesis = Genesis(solMint: Key, caller: Key, withdrawalRate: Rate, vault: Key, accounts: map<Key, Account>)

  /**
   * `Submit` is a transaction by anyone, with the witness its proof stands for. `Outside` is anything the rest of the
   * chain does to one pool's accounts, donations to the vault included.
   */
  datatype Step =
    | Submit(tx: Transaction, wit: Witness)
    | Open(mint: Key, info: MintInfo, vault: Key, accounts: map<Key, Account>)
    | Configure(caller: Key, update: ConfigUpdate)
    | Limit(mint: Key, caller: Key, limit: U64)
    | Outside(mint: Key, asset: Asset, accounts: map<Key, Account>)

  function Words(s: State): set<Word> {
    s.nullifiers0 + s.nullifiers1
  }

  // ---------- legality ----------

  /** Nobody but the program takes from a vault or changes its owner; a mint may change its fee, never its kind. */
  predicate OutsideLegal(s: State, step: Step)
    requires step.Outside?
  {
    step.mint in s.pools &&
    var pool := s.pools[step.mint];
    && pool.vault in step.accounts && pool.vault in pool.accounts
    && step.accounts[pool.vault].owner == pool.accounts[pool.vault].owner
    && Balance(step.accounts, pool.vault) >= Balance(pool.accounts, pool.vault)
    && step.asset.Sol? == pool.asset.Sol?
  }

  ghost predicate Explains(w: World, asked: iset<Query>, tx: Transaction, wit: Witness, after: State) {
    && Satisfies(w.hash, w.height, tx.proof.Publics(), wit)
    && WitnessAsked(w.hash, asked, wit)
    && tx.mint in after.pools && TreesAsked(w.hash, asked, after.pools[tx.mint].leaves, w.height)
  }

  /** An accepted proof stands for a witness, and everything hashed along the way is among the evaluations asked. */
  ghost predicate SubmitLegal(w: World, asked: iset<Query>, s: State, step: Step)
    requires step.Submit?
  {
    var r := Transact(w, s, step.tx);
    r.Ok? ==> Explains(w, asked, step.tx, step.wit, r.value)
  }

  ghost predicate Legal(w: World, asked: iset<Query>, s: State, step: Step) {
    match step
    case Submit(_, _) => SubmitLegal(w, asked, s, step)
    case Open(_, _, vault, accounts) => vault in accounts && accounts[vault].owner == w.authority
    case Configure(_, _) => true
    case Limit(_, _, _) => true
    case Outside(_, _, _) => OutsideLegal(s, step)
  }

  ghost predicate GenesisLegal(w: World, asked: iset<Query>, g: Genesis) {
    && Faithful(w.hash, asked) && w.height > 0
    && g.vault in g.accounts && Balance(g.accounts, g.vault) >= w.rent
    && TreesAsked(w.hash, asked, [], w.height)
  }

  // ---------- execution ----------

  ghost function Start(w: World, asked: iset<Query>, g: Genesis): Chain
    requires GenesisLegal(w, asked, g)
  {
    Chain(Initialize(g.solMint, g.caller, g.withdrawalRate, g.vault, g.accounts).value,
          map[g.solMint := Book([], map[], Balance(g.accounts, g.vault) - w.rent)])
  }

  function BookOf(c: Chain, m: Key): Book {
    if m in c.books then c.books[m] else Book([], map[], 0)
  }

  /** A failed instruction changes nothing. */
  ghost function Apply(w: World, asked: iset<Query>, c: Chain, step: Step): Chain
    requires Legal(w, asked, c.state, step)
  {
    match step
    case Submit(tx, wit) =>
      var r := Transact(w, c.state, tx);
      if r.Err? then c
      else Chain(r.value, c.books[tx.mint := Record(BookOf(c, tx.mint), wit, SelfPaid(c.state.pools[tx.mint], tx))])
    case Open(mint, info, vault, accounts) =>
      var r := CreatePool(c.state, mint, info, vault, accounts);
      if r.Err? then c
      else Chain(r.value, c.books[mint := Book([], map[], Balance(accounts, vault))])
    case Configure(caller, update) =>
      var r := UpdateGlobalConfig(c.state.config, caller, update);
      if r.Err? then c else c.(state := c.state.(config := r.value))
    case Limit(mint, caller, limit) =>
      var r := UpdateDepositLimit(c.state, mint, caller, limit);
      if r.Err? then c else c.(state := r.value)
    case Outside(mint, asset, accounts) =>
      var pool := c.state.pools[mint];
      var gift := Balance(accounts, pool.vault) - Balance(pool.accounts, pool.vault);
      Chain(c.state.(pools := c.state.pools[mint := pool.(asset := asset, accounts := accounts)]),
            c.books[mint := BookOf(c, mint).(gifts := BookOf(c, mint).gifts + gift)])
  }

  // ---------- the invariant ----------

  /** Leaves of all pools together. */
  ghost function TotalLeaves(pools: map<Key, Pool>): nat
    decreases |pools|
  {
    if pools == map[] then 0
    else var m :| m in pools; |pools[m].leaves| + TotalLeaves(pools - {m})
  }

  lemma {:induction false} TotalPick(pools: map<Key, Pool>, m: Key)
    requires m in pools
    ensures TotalLeaves(pools) == |pools[m].leaves| + TotalLeaves(pools - {m})
    decreases |pools|
  {
    var k :| k in pools && TotalLeaves(pools) == |pools[k].leaves| + TotalLeaves(pools - {k});
    if k != m {
      TotalPick(pools - {k}, m);
      TotalPick(pools - {m}, k);
      assert pools - {k} - {m} == pools - {m} - {k};
    }
  }

  lemma TotalUpdate(pools: map<Key, Pool>, m: Key, pool: Pool)
    ensures TotalLeaves(pools[m := pool]) + (if m in pools then |pools[m].leaves| else 0)
         == TotalLeaves(pools) + |pool.leaves|
  {
    TotalPick(pools[m := pool], m);
    if m in pools {
      TotalPick(pools, m);
      assert pools[m := pool] - {m} == pools - {m};
    } else {
      assert pools[m := pool] - {m} == pools;
    }
  }

  ghost predicate PoolsInv(w: World, asked: iset<Query>, c: Chain) {
    && c.books.Keys == c.state.pools.Keys
    && forall m | m in c.state.pools :: OnePoolInv(w, asked, c, m)
  }

  ghost predicate OnePoolInv(w: World, asked: iset<Query>, c: Chain, m: Key)
    requires c.books.Keys == c.state.pools.Keys && m in c.state.pools
  {
    PoolInv(w, asked, Words(c.state), c.state.pools[m], c.books[m])
  }

  /** Nullifiers: canonical, in one set only, and exactly as many as there are leaves. */
  ghost predicate NullifiersInv(s: State) {
    && s.nullifiers0 !! s.nullifiers1
    && (forall n | n in Words(s) :: n < P)
    && |s.nullifiers0| == |s.nullifiers1|
    && TotalLeaves(s.pools) == |s.nullifiers0| + |s.nullifiers1|
  }

  ghost predicate Inv(w: World, asked: iset<Query>, c: Chain) {
    Faithful(w.hash, asked) && w.height > 0 && PoolsInv(w, asked, c) && NullifiersInv(c.state)
  }

  // ---------- every step keeps it ----------

  lemma StartInv(w: World, asked: iset<Query>, g: Genesis)
    requires GenesisLegal(w, asked, g)
    ensures Inv(w, asked, Start(w, asked, g))
  {
    var c := Start(w, asked, g);
    var pool := c.state.pools[g.solMint];
    assert PoolInv(w, asked, Words(c.state), pool, c.books[g.solMint]);
    TotalUpdate(map[], g.solMint, pool);
    assert c.state.pools == map[][g.solMint := pool];
  }

  /** Replacing one pool by another that satisfies the invariant, with more nullifiers known. */
  lemma ReplacePool(w: World, asked: iset<Query>, c: Chain, after: Chain, m: Key)
    requires PoolsInv(w, asked, c) && m in after.state.pools && m in after.books
    requires after.state.pools == c.state.pools[m := after.state.pools[m]]
    requires after.books == c.books[m := after.books[m]]
    requires Words(c.state) <= Words(after.state)
    requires PoolInv(w, asked, Words(after.state), after.state.pools[m], after.books[m])
    ensures PoolsInv(w, asked, after)
  {
    forall k | k in after.state.pools
      ensures OnePoolInv(w, asked, after, k)
    {
      if k != m {
        assert OnePoolInv(w, asked, c, k);
        MoreWords(w, asked, Words(c.state), Words(after.state), c.state.pools[k], c.books[k]);
      }
    }
  }

  /** An accepted transaction keeps its own pool solvent. */
  lemma SubmitPoolInv(w: World, asked: iset<Query>, c: Chain, tx: Transaction, wit: Witness, after: State)
    requires Inv(w, asked, c) && Accepts(w, c.state, tx, after) && Explains(w, asked, tx, wit, after)
    ensures PoolInv(w, asked, Words(after), after.pools[tx.mint],
                    Record(c.books[tx.mint], wit, SelfPaid(c.state.pools[tx.mint], tx)))
  {
    hide PoolInv;
    hide Faithful;
    hide Satisfies;
    hide WitnessAsked;
    hide TreesAsked;
    hide Recent;
    hide CheckPublicAmount;
    hide NullifiersInv;
    var words, pool, book := Words(c.state), c.state.pools[tx.mint], c.books[tx.mint];
    assert OnePoolInv(w, asked, c, tx.mint);
    assert Accepted(w, asked, words, pool, book, tx, wit);
    AcceptedKeeps(w, asked, words, pool, book, tx, wit, after.pools[tx.mint]);
    assert Words(after) == words + {tx.proof.nullifier0, tx.proof.nullifier1};
  }

  lemma AppendsTwo(w: World, pool: Pool, tx: Transaction, after: Pool)
    requires AcceptsPool(w, pool, tx, after)
    ensures |after.leaves| == |pool.leaves| + 2
  {
  }

  lemma SubmitNullifiers(w: World, s: State, tx: Transaction, after: State)
    requires NullifiersInv(s) && Accepts(w, s, tx, after)
    ensures NullifiersInv(after) && |Words(after)| == |Words(s)| + 2
  {
    hide AcceptsPool;
    hide CheckPublicAmount;
    assert |after.pools[tx.mint].leaves| == |s.pools[tx.mint].leaves| + 2 by {
      AppendsTwo(w, s.pools[tx.mint], tx, after.pools[tx.mint]);
    }
    TotalUpdate(s.pools, tx.mint, after.pools[tx.mint]);
    assert Words(after) == Words(s) + {tx.proof.nullifier0} + {tx.proof.nullifier1};
  }

  lemma SubmitInv(w: World, asked: iset<Query>, c: Chain, tx: Transaction, wit: Witness)
    requires Inv(w, asked, c) && SubmitLegal(w, asked, c.state, Submit(tx, wit)) && Transact(w, c.state, tx).Ok?
    ensures Inv(w, asked, Apply(w, asked, c, Submit(tx, wit)))
  {
    AcceptsTransact(w, asked, c, tx);
    var after := Apply(w, asked, c, Submit(tx, wit));
    SubmitPoolInv(w, asked, c, tx, wit, after.state);
    SubmitNullifiers(w, c.state, tx, after.state);
    ReplacePool(w, asked, c, after, tx.mint);
  }

  lemma AcceptsTransact(w: World, asked: iset<Query>, c: Chain, tx: Transaction)
    requires Inv(w, asked, c) && Transact(w, c.state, tx).Ok?
    ensures Accepts(w, c.state, tx, Transact(w, c.state, tx).value)
  {
    assert OnePoolInv(w, asked, c, tx.mint);
    TransactAccepts(w, c.state, tx);
  }

  lemma OutsidePoolInv(w: World, asked: iset<Query>, c: Chain, step: Step)
    requires Inv(w, asked, c) && step.Outside? && Legal(w, asked, c.state, step)
    ensures Inv(w, asked, Apply(w, asked, c, step))
  {
    var after := Apply(w, asked, c, step);
    assert OnePoolInv(w, asked, c, step.mint);
    assert PoolInv(w, asked, Words(after.state), after.state.pools[step.mint], after.books[step.mint]);
    ReplacePool(w, asked, c, after, step.mint);
    TotalUpdate(c.state.pools, step.mint, after.state.pools[step.mint]);
  }

  lemma OpenInv(w: World, asked: iset<Query>, c: Chain, step: Step)
    requires Inv(w, asked, c) && step.Open? && Legal(w, asked, c.state, step)
    requires TreesAsked(w.hash, asked, [], w.height)
    ensures Inv(w, asked, Apply(w, asked, c, step))
  {
    var after := Apply(w, asked, c, step);
    if CreatePool(c.state, step.mint, step.info, step.vault, step.accounts).Ok? {
      assert PoolInv(w, asked, Words(after.state), after.state.pools[step.mint], after.books[step.mint]);
      ReplacePool(w, asked, c, after, step.mint);
      TotalUpdate(c.state.pools, step.mint, after.state.pools[step.mint]);
    }
  }

  lemma LimitInv(w: World, asked: iset<Query>, c: Chain, step: Step)
    requires Inv(w, asked, c) && step.Limit? && Legal(w, asked, c.state, step)
    ensures Inv(w, asked, Apply(w, asked, c, step))
  {
    hide TreesAsked;
    hide NotesBacked;
    hide SpendsRecorded;
    var after := Apply(w, asked, c, step);
    if UpdateDepositLimit(c.state, step.mint, step.caller, step.limit).Ok? {
      assert OnePoolInv(w, asked, c, step.mint);
      assert after.books == c.books[step.mint := after.books[step.mint]];
      ReplacePool(w, asked, c, after, step.mint);
      TotalUpdate(c.state.pools, step.mint, after.state.pools[step.mint]);
    }
  }

  lemma ConfigureInv(w: World, asked: iset<Query>, c: Chain, step: Step)
    requires Inv(w, asked, c) && step.Configure? && Legal(w, asked, c.state, step)
    ensures Inv(w, asked, Apply(w, asked, c, step))
  {
    var after := Apply(w, asked, c, step);
    forall m | m in after.state.pools
      ensures OnePoolInv(w, asked, after, m)
    {
      assert OnePoolInv(w, asked, c, m);
    }
  }

  lemma StepInv(w: World, asked: iset<Query>, c: Chain, step: Step)
    requires Inv(w, asked, c) && Legal(w, asked, c.state, step)
    requires TreesAsked(w.hash, asked, [], w.height)
    ensures Inv(w, asked, Apply(w, asked, c, step))
  {
    match step {
      case Submit(tx, wit) =>
        if Transact(w, c.state, tx).Ok? {
          SubmitInv(w, asked, c, tx, wit);
        }
      case Open(_, _, _, _) => OpenInv(w, asked, c, step);
      case Configure(_, _) => ConfigureInv(w, asked, c, step);
      case Limit(_, _, _) => LimitInv(w, asked, c, step);
      case Outside(_, _, _) => OutsidePoolInv(w, asked, c, step);
    }
  }

  // ---------- every run ----------

  /** `chains` are the states a run passes through, one more than it has steps. */
  ghost predicate IsRun(w: World, asked: iset<Query>, g: Genesis, steps: seq<Step>, chains: seq<Chain>) {
    && GenesisLegal(w, asked, g)
    && |chains| == |steps| + 1
    && chains[0] == Start(w, asked, g)
    && forall i | 0 <= i < |steps| :: Next(w, asked, chains[i], steps[i], chains[i + 1])
  }

  ghost predicate Next(w: World, asked: iset<Query>, c: Chain, step: Step, after: Chain) {
    Legal(w, asked, c.state, step) && after == Apply(w, asked, c, step)
  }

  lemma {:induction false} RunInv(w: World, asked: iset<Query>, g: Genesis, steps: seq<Step>, chains: seq<Chain>,
      i: nat)
    requires IsRun(w, asked, g, steps, chains) && i <= |steps|
    ensures Inv(w, asked, chains[i])
  {
    if i == 0 {
      StartInv(w, asked, g);
    } else {
      RunInv(w, asked, g, steps, chains, i - 1);
      assert Next(w, asked, chains[i - 1], steps[i - 1], chains[i]);
      StepInv(w, asked, chains[i - 1], steps[i - 1]);
    }
  }

  /**
   * Solvency. In every state of every run each vault holds its reserve, the amounts of all unspent notes, and whatever
   * it was given for nothing; in particular the SOL vault never falls below the rent minimum.
   */
  lemma Solvency(w: World, asked: iset<Query>, g: Genesis, steps: seq<Step>, chains: seq<Chain>, i: nat, m: Key)
    requires IsRun(w, asked, g, steps, chains) && i <= |steps| && m in chains[i].state.pools
    ensures m in chains[i].books
    ensures var pool, book := chains[i].state.pools[m], chains[i].books[m];
            && Balance(pool.accounts, pool.vault) == Reserve(w, pool) + Total(book) + book.gifts
            && |book.notes| == |pool.leaves|
            && (forall n | 0 <= n < |pool.leaves| :: book.notes[n].Commitment(w.hash) == pool.leaves[n])
  {
    RunInv(w, asked, g, steps, chains, i);
    assert OnePoolInv(w, asked, chains[i], m);
    var pool, book := chains[i].state.pools[m], chains[i].books[m];
    forall n | 0 <= n < |pool.leaves|
      ensures book.notes[n].Commitment(w.hash) == pool.leaves[n]
    {
      assert NoteBacked(w.hash, asked, pool.leaves[n], book.notes[n]);
    }
  }

  /** Each accepted transaction adds two nullifiers and two leaves, so their totals always agree. */
  lemma NullifiersMatchLeaves(w: World, asked: iset<Query>, g: Genesis, steps: seq<Step>, chains: seq<Chain>, i: nat)
    requires IsRun(w, asked, g, steps, chains) && i <= |steps|
    ensures var s := chains[i].state;
            && s.nullifiers0 !! s.nullifiers1
            && |Words(s)| == |s.nullifiers0| + |s.nullifiers1| == TotalLeaves(s.pools)
            && |s.nullifiers0| == |s.nullifiers1|
  {
    RunInv(w, asked, g, steps, chains, i);
  }

  // ---------- what never shrinks ----------

  /** Nullifiers, spent leaves and leaves only accumulate. */
  ghost predicate Grows(before: Chain, after: Chain) {
    && Words(before.state) <= Words(after.state)
    && forall m | m in before.state.pools :: PoolGrows(before, after, m)
  }

  ghost predicate PoolGrows(before: Chain, after: Chain, m: Key)
    requires m in before.state.pools
  {
    && m in after.state.pools
    && before.state.pools[m].leaves <= after.state.pools[m].leaves
    && BookOf(before, m).spent.Keys <= BookOf(after, m).spent.Keys
  }

  lemma SubmitGrows(w: World, asked: iset<Query>, c: Chain, tx: Transaction, wit: Witness)
    requires Inv(w, asked, c) && SubmitLegal(w, asked, c.state, Submit(tx, wit)) && Transact(w, c.state, tx).Ok?
    ensures Grows(c, Apply(w, asked, c, Submit(tx, wit)))
  {
    hide Inv;
    hide TransactPool;
    AcceptsTransact(w, asked, c, tx);
    var after := Apply(w, asked, c, Submit(tx, wit));
    RecordGrows(w, c, tx, wit, after);
  }

  lemma RecordGrows(w: World, c: Chain, tx: Transaction, wit: Witness, after: Chain)
    requires Accepts(w, c.state, tx, after.state)
    requires after.books == c.books[tx.mint := Record(BookOf(c, tx.mint), wit, SelfPaid(c.state.pools[tx.mint], tx))]
    ensures Grows(c, after)
  {
    RecordedKeys(BookOf(c, tx.mint), wit, SelfPaid(c.state.pools[tx.mint], tx));
    assert AcceptsPool(w, c.state.pools[tx.mint], tx, after.state.pools[tx.mint]);
    assert PoolGrows(c, after, tx.mint);
  }

  lemma StepGrows(w: World, asked: iset<Query>, c: Chain, step: Step)
    requires Inv(w, asked, c) && Legal(w, asked, c.state, step)
    ensures Grows(c, Apply(w, asked, c, step))
  {
    if step.Submit? {
      if Transact(w, c.state, step.tx).Ok? {
        SubmitGrows(w, asked, c, step.tx, step.wit);
      }
    } else {
      OtherGrows(w, asked, c, step);
    }
  }

  lemma OtherGrows(w: World, asked: iset<Query>, c: Chain, step: Step)
    requires Legal(w, asked, c.state, step) && !step.Submit?
    ensures Grows(c, Apply(w, asked, c, step))
  {
  }

  lemma RunStepGrows(w: World, asked: iset<Query>, g: Genesis, steps: seq<Step>, chains: seq<Chain>, i: nat)
    requires IsRun(w, asked, g, steps, chains) && i < |steps|
    ensures Grows(chains[i], chains[i + 1])
  {
    hide GenesisLegal;
    hide Start;
    hide Transact;
    hide Inv;
    hide Grows;
    RunInv(w, asked, g, steps, chains, i);
    assert Next(w, asked, chains[i], steps[i], chains[i + 1]);
    StepGrows(w, asked, chains[i], steps[i]);
  }

  lemma {:induction false} RunGrows(w: World, asked: iset<Query>, g: Genesis, steps: seq<Step>, chains: seq<Chain>,
      i: nat, j: nat)
    requires IsRun(w, asked, g, steps, chains) && i <= j <= |steps|
    ensures Grows(chains[i], chains[j])
    decreases j - i
  {
    hide GenesisLegal;
    hide Start;
    hide Next;
    hide Grows;
    if i < j {
      RunGrows(w, asked, g, steps, chains, i, j - 1);
      RunStepGrows(w, asked, g, steps, chains, j - 1);
      GrowsTransitive(chains[i], chains[j - 1], chains[j]);
    } else {
      GrowsReflexive(chains[i]);
    }
  }

  lemma GrowsReflexive(c: Chain)
    ensures Grows(c, c)
  {
  }

  lemma GrowsTransitive(a: Chain, b: Chain, c: Chain)
    requires Grows(a, b) && Grows(b, c)
    ensures Grows(a, c)
  {
    forall m | m in a.state.pools
      ensures PoolGrows(a, c, m)
    {
      assert PoolGrows(a, b, m) && PoolGrows(b, c, m);
    }
  }

  // ---------- double spends ----------

  /** The transaction of a step, if it was accepted in the state it met. */
  ghost predicate AcceptedAt(w: World, c: Chain, step: Step) {
    step.Submit? && Transact(w, c.state, step.tx).Ok?
  }

  function NullifiersOf(tx: Transaction): set<Word> {
    {tx.proof.nullifier0, tx.proof.nullifier1}
  }

  /** What an accepted transaction consumes and reveals was new to the chain, and is old from then on. */
  lemma AcceptedAdds(w: World, asked: iset<Query>, c: Chain, tx: Transaction, wit: Witness, after: Chain)
    requires Inv(w, asked, c) && Accepts(w, c.state, tx, after.state) && Explains(w, asked, tx, wit, after.state)
    requires after.books == c.books[tx.mint := Record(BookOf(c, tx.mint), wit, SelfPaid(c.state.pools[tx.mint], tx))]
    ensures ConsumedBy(wit) !! BookOf(c, tx.mint).spent.Keys
    ensures ConsumedBy(wit) <= BookOf(after, tx.mint).spent.Keys
    ensures NullifiersOf(tx) !! Words(c.state)
    ensures NullifiersOf(tx) <= Words(after.state)
  {
    hide Satisfies;
    hide WitnessAsked;
    hide TreesAsked;
    AcceptedConsumes(w, asked, c, tx, wit, after.state);
    RecordedKeys(BookOf(c, tx.mint), wit, SelfPaid(c.state.pools[tx.mint], tx));
  }

  lemma RunStepAdds(w: World, asked: iset<Query>, g: Genesis, steps: seq<Step>, chains: seq<Chain>, i: nat)
    requires IsRun(w, asked, g, steps, chains) && i < |steps| && AcceptedAt(w, chains[i], steps[i])
    ensures var tx, wit := steps[i].tx, steps[i].wit;
            && ConsumedBy(wit) !! BookOf(chains[i], tx.mint).spent.Keys
            && ConsumedBy(wit) <= BookOf(chains[i + 1], tx.mint).spent.Keys
            && NullifiersOf(tx) !! Words(chains[i].state)
            && NullifiersOf(tx) <= Words(chains[i + 1].state)
            && tx.mint in chains[i].state.pools && tx.mint in chains[i + 1].state.pools
  {
    RunInv(w, asked, g, steps, chains, i);
    assert Next(w, asked, chains[i], steps[i], chains[i + 1]);
    AcceptsTransact(w, asked, chains[i], steps[i].tx);
    AcceptedAdds(w, asked, chains[i], steps[i].tx, steps[i].wit, chains[i + 1]);
  }

  lemma AcceptedConsumes(w: World, asked: iset<Query>, c: Chain, tx: Transaction, wit: Witness, after: State)
    requires Inv(w, asked, c) && Accepts(w, c.state, tx, after) && Explains(w, asked, tx, wit, after)
    ensures ConsumedBy(wit) !! BookOf(c, tx.mint).spent.Keys
  {
    hide PoolInv;
    hide Faithful;
    hide Satisfies;
    hide WitnessAsked;
    hide TreesAsked;
    hide Recent;
    hide CheckPublicAmount;
    hide NullifiersInv;
    var words, pool, book := Words(c.state), c.state.pools[tx.mint], c.books[tx.mint];
    assert OnePoolInv(w, asked, c, tx.mint);
    assert Accepted(w, asked, words, pool, book, tx, wit);
    ConsumesUnspent(w, asked, words, pool, book, tx, wit, wit.in0, tx.proof.nullifier0);
    ConsumesUnspent(w, asked, words, pool, book, tx, wit, wit.in1, tx.proof.nullifier1);
  }

  /** Two transactions that share no nullifier and, in one pool, no leaf they consume. */
  ghost predicate SpendApart(a: Step, b: Step)
    requires a.Submit? && b.Submit?
  {
    && NullifiersOf(a.tx) !! NullifiersOf(b.tx)
    && (a.tx.mint == b.tx.mint ==> ConsumedBy(a.wit) !! ConsumedBy(b.wit))
  }

  /** No double spend: any two accepted transactions of a run spend apart. */
  lemma NoDoubleSpend(w: World, asked: iset<Query>, g: Genesis, steps: seq<Step>, chains: seq<Chain>, a: nat, b: nat)
    requires IsRun(w, asked, g, steps, chains) && a < b < |steps|
    ensures AcceptedAt(w, chains[a], steps[a]) && AcceptedAt(w, chains[b], steps[b]) ==> SpendApart(steps[a], steps[b])
  {
    hide Transact;
    hide Apply;
    hide Legal;
    hide GenesisLegal;
    if AcceptedAt(w, chains[a], steps[a]) && AcceptedAt(w, chains[b], steps[b]) {
      RunStepAdds(w, asked, g, steps, chains, a);
      RunStepAdds(w, asked, g, steps, chains, b);
      RunGrows(w, asked, g, steps, chains, a + 1, b);
      assert steps[a].tx.mint == steps[b].tx.mint ==> PoolGrows(chains[a + 1], chains[b], steps[a].tx.mint);
    }
  }
}
