/** Who may change what, over whole runs: configuration and limits, administrators and vaults, gifts to a vault. */
module RunRules {
  import opened Acceptance
  import opened Administration
  import opened Bn254
  import opened Books
  import opened JoinSplit
  import opened Ledger
  import opened Poseidon
  import opened PublicAmount
  import opened Runs
  import opened VaultFlow

  /** A pool keeps its administrator and its vault, and its limit unless its administrator says otherwise. */
  predicate PoolRuled(before: Pool, step: Step, m: Key, after: Pool) {
    && after.admin == before.admin && after.vault == before.vault
    && (after.maxDeposit != before.maxDeposit ==> step.Limit? && step.mint == m && step.caller == before.admin)
  }

  /** The rules of one step. */
  ghost predicate Ruled(before: State, step: Step, after: State) {
    && (after.config != before.config ==> step.Configure? && step.caller == before.config.admin)
    && after.config.admin == before.config.admin
    && before.pools.Keys <= after.pools.Keys
    && (forall m | m in before.pools :: PoolRuled(before.pools[m], step, m, after.pools[m]))
    && (forall m | m in after.pools && m !in before.pools ::
          step.Open? && step.mint == m && after.pools[m].admin == before.config.admin)
  }

  lemma StepRuled(w: World, asked: iset<Query>, c: Chain, step: Step)
    requires Legal(w, asked, c.state, step)
    ensures Ruled(c.state, step, Apply(w, asked, c, step).state)
  {
    match step {
      case Submit(tx, _) =>
        if Transact(w, c.state, tx).Ok? {
          SubmitRuled(w, c.state, step);
        }
      case Open(mint, info, vault, accounts) => CreationExactly(c.state, mint, info, vault, accounts);
      case Configure(caller, update) => ConfigurationExactly(c.state.config, caller, update);
      case Limit(mint, caller, limit) => LimitExactly(c.state, mint, caller, limit);
      case Outside(_, _, _) =>
    }
  }

  lemma SubmitRuled(w: World, s: State, step: Step)
    requires step.Submit? && Transact(w, s, step.tx).Ok?
    ensures Ruled(s, step, Transact(w, s, step.tx).value)
  {
    hide Transact;
    hide SameOwners;
    hide Change;
    AcceptedEffects(w, s, step.tx);
  }

  /** In every state of every run the one who opened the program administers it, and all of its pools. */
  lemma {:induction false} OneAdministrator(w: World, asked: iset<Query>, g: Genesis, steps: seq<Step>,
      chains: seq<Chain>, i: nat)
    requires IsRun(w, asked, g, steps, chains) && i <= |steps|
    ensures chains[i].state.config.admin == g.caller
    ensures forall m | m in chains[i].state.pools :: chains[i].state.pools[m].admin == g.caller
  {
    hide Legal;
    hide Apply;
    hide GenesisLegal;
    hide Start;
    if i == 0 {
      StartAdministered(w, asked, g);
    } else {
      OneAdministrator(w, asked, g, steps, chains, i - 1);
      assert Next(w, asked, chains[i - 1], steps[i - 1], chains[i]);
      StepRuled(w, asked, chains[i - 1], steps[i - 1]);
      var before, after := chains[i - 1].state, chains[i].state;
      assert forall m | m in before.pools :: PoolRuled(before.pools[m], steps[i - 1], m, after.pools[m]);
    }
  }

  lemma StartAdministered(w: World, asked: iset<Query>, g: Genesis)
    requires GenesisLegal(w, asked, g)
    ensures var s := Start(w, asked, g).state;
            s.config.admin == g.caller && forall m | m in s.pools :: s.pools[m].admin == g.caller
  {
    OpeningExactly(g.solMint, g.caller, g.withdrawalRate, g.vault, g.accounts);
  }

  /** Over a run, rates and fee recipient change only in a step of the administrator's, and so does a pool's limit. */
  lemma OnlyAdministratorChanges(w: World, asked: iset<Query>, g: Genesis, steps: seq<Step>, chains: seq<Chain>,
      i: nat, m: Key)
    requires IsRun(w, asked, g, steps, chains) && i < |steps|
    ensures chains[i + 1].state.config != chains[i].state.config ==> steps[i].Configure? && steps[i].caller == g.caller
    ensures m in chains[i].state.pools ==>
              && m in chains[i + 1].state.pools
              && chains[i + 1].state.pools[m].vault == chains[i].state.pools[m].vault
              && (chains[i + 1].state.pools[m].maxDeposit != chains[i].state.pools[m].maxDeposit ==>
                    steps[i].Limit? && steps[i].mint == m && steps[i].caller == g.caller)
  {
    hide Legal;
    hide Apply;
    hide GenesisLegal;
    hide Start;
    OneAdministrator(w, asked, g, steps, chains, i);
    assert Next(w, asked, chains[i], steps[i], chains[i + 1]);
    StepRuled(w, asked, chains[i], steps[i]);
    if m in chains[i].state.pools {
      assert PoolRuled(chains[i].state.pools[m], steps[i], m, chains[i + 1].state.pools[m]);
    }
  }

  /** What a step is entitled to, it does; what it is not, it leaves alone. */
  lemma StepTakesEffect(w: World, asked: iset<Query>, c: Chain, step: Step)
    requires Legal(w, asked, c.state, step)
    ensures var s, after := c.state, Apply(w, asked, c, step).state;
            match step
            case Submit(tx, _) =>
              if Acceptable(w, s, tx) then Transact(w, s, tx) == Ok(after) else after == s
            case Open(mint, info, vault, accounts) =>
              if mint in s.pools || (info.token2022 && info.nonTransferable) then after == s
              else mint in after.pools && Opened(after.pools[mint], Token(info.fee), s.config.admin, vault, accounts)
            case Configure(caller, update) =>
              if caller == s.config.admin && ProperRate(update.depositRate) && ProperRate(update.withdrawalRate)
                 && ProperRate(update.margin)
              then
                && Replaced<U16>(update.depositRate, s.config.depositRate, after.config.depositRate)
                && Replaced<U16>(update.withdrawalRate, s.config.withdrawalRate, after.config.withdrawalRate)
                && Replaced<U16>(update.margin, s.config.margin, after.config.margin)
                && Replaced(update.feeRecipient, s.config.feeRecipient, after.config.feeRecipient)
                && after == s.(config := after.config)
              else after == s
            case Limit(mint, caller, limit) =>
              if mint in s.pools && caller == s.pools[mint].admin
              then mint in after.pools && after == s.(pools := s.pools[mint := s.pools[mint].(maxDeposit := limit)])
              else after == s
            case Outside(mint, asset, accounts) =>
              && mint in s.pools
              && after == s.(pools := s.pools[mint := s.pools[mint].(asset := asset, accounts := accounts)])
  {
    hide Acceptable;
    match step {
      case Submit(tx, _) => AcceptedExactly(w, c.state, tx);
      case Open(mint, info, vault, accounts) => CreationExactly(c.state, mint, info, vault, accounts);
      case Configure(caller, update) => ConfigurationExactly(c.state.config, caller, update);
      case Limit(mint, caller, limit) => LimitExactly(c.state, mint, caller, limit);
      case Outside(_, _, _) =>
    }
  }

  // ---------- gifts ----------

  function Gifts(c: Chain, m: Key): nat {
    BookOf(c, m).gifts
  }

  /** What a step gives a vault for nothing: what the outside adds, and what a transaction pays to the vault itself. */
  ghost function GiftOf(w: World, c: Chain, step: Step, m: Key): int {
    match step
    case Submit(tx, _) =>
      if tx.mint == m && Transact(w, c.state, tx).Ok? then
        (if tx.extAmount < 0 && tx.recipient == c.state.pools[m].vault then -tx.extAmount as int else 0)
        + (if tx.feeAccount == c.state.pools[m].vault then tx.fee else 0)
      else 0
    case Outside(mint, _, accounts) =>
      if mint == m && m in c.state.pools then
        Balance(accounts, c.state.pools[m].vault) - Balance(c.state.pools[m].accounts, c.state.pools[m].vault)
      else 0
    case _ => 0
  }

  /** Gifts are accounted for to the unit, so solvency's third term is not a place for anything else to go. */
  lemma GiftsExactly(w: World, asked: iset<Query>, g: Genesis, steps: seq<Step>, chains: seq<Chain>, i: nat, m: Key)
    requires IsRun(w, asked, g, steps, chains) && i < |steps| && m in chains[i].state.pools
    ensures Gifts(chains[i + 1], m) == Gifts(chains[i], m) + GiftOf(w, chains[i], steps[i], m)
  {
    hide GenesisLegal;
    hide Start;
    hide Transact;
    hide TransactPool;
    hide Inv;
    assert Next(w, asked, chains[i], steps[i], chains[i + 1]);
    match steps[i] {
      case Submit(tx, wit) =>
        if Transact(w, chains[i].state, tx).Ok? {
          MintKnown(w, chains[i].state, tx);
          RecordsGift(BookOf(chains[i], tx.mint), wit, SelfPaid(chains[i].state.pools[tx.mint], tx));
        }
      case _ =>
    }
  }

  lemma MintKnown(w: World, s: State, tx: Transaction)
    requires Transact(w, s, tx).Ok?
    ensures tx.mint in s.pools
  {
    hide Acceptable;
    AcceptedEffects(w, s, tx);
  }

  lemma RecordsGift(book: Book, wit: Witness, gift: nat)
    ensures Record(book, wit, gift).gifts == book.gifts + gift
  {
  }
}
