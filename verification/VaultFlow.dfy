/** What an accepted transaction does to the vault, whichever of its accounts coincide. */
module VaultFlow {
  import opened Bn254
  import opened FrontierTree
  import opened Ledger
  import opened PublicAmount
  import opened TokenFee

  /** Payouts addressed to the vault itself stay in it; only a token transfer can do that. */
  function SelfPaid(pool: Pool, tx: Transaction): nat {
    (if tx.extAmount < 0 && tx.recipient == pool.vault then Magnitude(tx.extAmount) else 0)
    + (if tx.fee > 0 && tx.feeAccount == pool.vault then tx.fee else 0)
  }

  // ---------- sums of lamports ----------

  predicate NoDuplicates(keys: seq<Key>) {
    forall i, j | 0 <= i < j < |keys| :: keys[i] != keys[j]
  }

  lemma {:induction false} DistinctKeys(keys: seq<Key>)
    ensures NoDuplicates(Distinct(keys))
    ensures forall k :: k in Distinct(keys) <==> k in keys
  {
    if keys != [] {
      DistinctKeys(keys[1..]);
    }
  }

  lemma {:induction false} LamportsSet(accounts: map<Key, Account>, k: Key, v: U64, keys: seq<Key>)
    requires NoDuplicates(keys)
    ensures Lamports(SetBalance(accounts, k, v), keys)
         == Lamports(accounts, keys) + if k in keys then v - Balance(accounts, k) else 0
  {
    if keys != [] {
      LamportsSet(accounts, k, v, keys[1..]);
      if keys[0] == k {
        assert k !in keys[1..];
      }
    }
  }

  /** A payment conserves lamports unless the payee is the vault, where the second write creates them. */
  lemma PaymentBalance(accounts: map<Key, Account>, vault: Key, payee: Key, amount: nat, keys: seq<Key>)
    requires PayLamports(accounts, vault, payee, amount).Ok?
    requires NoDuplicates(keys) && vault in keys && payee in keys
    ensures var paid := PayLamports(accounts, vault, payee, amount).value;
            && Lamports(paid, keys) == Lamports(accounts, keys) + (if payee == vault then amount else 0)
            && Balance(paid, vault)
               == if payee == vault then Balance(accounts, vault) + amount else Balance(accounts, vault) - amount
  {
    var v, p := Balance(accounts, vault), Balance(accounts, payee);
    var debited := SetBalance(accounts, vault, v - amount);
    LamportsSet(accounts, vault, v - amount, keys);
    LamportsSet(debited, payee, p + amount, keys);
  }

  // ---------- SOL ----------

  lemma SolAmountFlow(w: World, pool: Pool, tx: Transaction, keys: seq<Key>)
    requires MoveSolAmount(w, pool, tx).Ok? && tx.signer != pool.vault
    requires NoDuplicates(keys) && pool.vault in keys && tx.signer in keys && tx.recipient in keys
    ensures var moved := MoveSolAmount(w, pool, tx).value;
            var aliased := tx.extAmount < 0 && tx.recipient == pool.vault;
            && Lamports(moved, keys) == Lamports(pool.accounts, keys) + (if aliased then Magnitude(tx.extAmount) else 0)
            && Balance(moved, pool.vault) == Balance(pool.accounts, pool.vault)
                 + (if aliased then Magnitude(tx.extAmount) else tx.extAmount)
  {
    if tx.extAmount > 0 {
      var balance := Balance(pool.accounts, tx.signer);
      var debited := SetBalance(pool.accounts, tx.signer, balance - tx.extAmount);
      LamportsSet(pool.accounts, tx.signer, balance - tx.extAmount, keys);
      LamportsSet(debited, pool.vault, Balance(debited, pool.vault) + tx.extAmount, keys);
    } else if tx.extAmount < 0 {
      PaymentBalance(pool.accounts, pool.vault, tx.recipient, Magnitude(tx.extAmount), keys);
    }
  }

  /**
   * The runtime's sum rule is what makes the SOL payout sound: a payout to the vault itself would create lamports, so
   * it is refused, and every accepted transaction changes the vault by exactly `extAmount - fee`.
   */
  lemma SolFlow(w: World, pool: Pool, tx: Transaction)
    requires MoveSol(w, pool, tx).Ok? && tx.signer != pool.vault
    ensures SelfPaid(pool, tx) == 0
    ensures Balance(MoveSol(w, pool, tx).value, pool.vault)
         == Balance(pool.accounts, pool.vault) + tx.extAmount - tx.fee
    ensures tx.extAmount < 0 || tx.fee > 0 ==> Balance(MoveSol(w, pool, tx).value, pool.vault) >= w.rent
  {
    var all := [tx.signer, pool.vault, tx.recipient, tx.feeAccount];
    DistinctKeys(all);
    var keys := Touched(pool, tx);
    assert all[0] in keys && all[1] in keys && all[2] in keys && all[3] in keys;
    var moved := MoveSolAmount(w, pool, tx).value;
    SolAmountFlow(w, pool, tx, keys);
    if tx.fee > 0 {
      PaymentBalance(moved, pool.vault, tx.feeAccount, tx.fee, keys);
    }
  }

  // ---------- tokens ----------

  /** Owners survive, and no account disappears. */
  predicate SameOwners(before: map<Key, Account>, after: map<Key, Account>) {
    forall k | k in before :: k in after && after[k].owner == before[k].owner
  }

  lemma TokenTransferFlow(fee: TransferFee, accounts: map<Key, Account>, from: Key, to: Key, amount: nat)
    requires MoveTokens(fee, accounts, from, to, amount).Ok?
    ensures var moved := MoveTokens(fee, accounts, from, to, amount).value;
            && SameOwners(accounts, moved)
            && (from != to ==> Balance(moved, from) == Balance(accounts, from) - amount)
            && (from == to ==> moved == accounts)
            && (forall k | k != from && k != to :: Balance(moved, k) == Balance(accounts, k))
            && (from != to ==> Balance(moved, to) == Balance(accounts, to) + NetOf(fee, amount))
  {
    FeeAtMost(fee, amount);
  }

  lemma TokenFlow(pool: Pool, fee: TransferFee, tx: Transaction)
    requires MoveToken(pool, fee, tx).Ok? && tx.source != pool.vault
    ensures var after := MoveToken(pool, fee, tx).value;
            && SameOwners(pool.accounts, after)
            && Balance(after, pool.vault)
               == Balance(pool.accounts, pool.vault) + tx.extAmount - tx.fee + SelfPaid(pool, tx)
  {
    var moved := MoveTokenAmount(pool, fee, tx).value;
    if tx.extAmount > 0 {
      TokenTransferFlow(fee, pool.accounts, tx.source, pool.vault, PreFee(fee, tx.extAmount));
    } else if tx.extAmount < 0 {
      TokenTransferFlow(fee, pool.accounts, pool.vault, tx.recipient, Magnitude(tx.extAmount));
    }
    if tx.fee > 0 {
      TokenTransferFlow(fee, moved, pool.vault, tx.feeAccount, tx.fee);
    }
  }

  /** For a mint that only charges the transfer fee, the receipt check after a deposit cannot fail. */
  lemma DepositReceived(pool: Pool, fee: TransferFee, tx: Transaction)
    requires tx.extAmount > 0 && tx.source != pool.vault
    requires MoveTokens(fee, pool.accounts, tx.source, pool.vault, PreFee(fee, tx.extAmount)).Ok?
    ensures Balance(MoveTokens(fee, pool.accounts, tx.source, pool.vault, PreFee(fee, tx.extAmount)).value, pool.vault)
         == Balance(pool.accounts, pool.vault) + tx.extAmount
    ensures MoveTokenAmount(pool, fee, tx) != Err(DepositAmountMismatch)
  {
    TokenTransferFlow(fee, pool.accounts, tx.source, pool.vault, PreFee(fee, tx.extAmount));
    PreFeeExact(fee, tx.extAmount);
  }

  // ---------- both ----------

  /** The vault is an account of the pool that nobody outside the program can sign for. */
  predicate VaultHeld(w: World, pool: Pool) {
    pool.vault in pool.accounts && (pool.asset.Token? ==> pool.accounts[pool.vault].owner == w.authority)
  }

  /** The rent minimum a SOL vault must keep; token vaults keep nothing back. */
  function Reserve(w: World, pool: Pool): nat {
    if pool.asset.Sol? then w.rent else 0
  }

  lemma FundsFlow(w: World, pool: Pool, tx: Transaction)
    requires VaultHeld(w, pool) && CheckAccounts(w, pool, tx).Ok? && MoveFunds(w, pool, tx).Ok?
    requires Balance(pool.accounts, pool.vault) >= Reserve(w, pool)
    ensures var after := pool.(accounts := MoveFunds(w, pool, tx).value);
            && VaultHeld(w, after)
            && Balance(after.accounts, pool.vault) >= Reserve(w, pool)
            && Balance(after.accounts, pool.vault)
               == Balance(pool.accounts, pool.vault) + tx.extAmount - tx.fee + SelfPaid(pool, tx)
  {
    match pool.asset {
      case Sol =>
        SolFlow(w, pool, tx);
        SolKeepsVault(w, pool, tx);
      case Token(fee) =>
        TokenFlow(pool, fee, tx);
    }
  }

  lemma SolKeepsVault(w: World, pool: Pool, tx: Transaction)
    requires MoveSol(w, pool, tx).Ok? && pool.vault in pool.accounts
    ensures pool.vault in MoveSol(w, pool, tx).value
  {
  }

  // ---------- every account ----------

  /** Tokens that arrive when the vault pays `amount` to `payee`; paying itself is no payment. */
  function PaidTo(pool: Pool, payee: Key, k: Key, amount: nat): int {
    if payee == pool.vault then 0
    else if k == pool.vault then -(amount as int)
    else if k == payee then match pool.asset case Sol => amount case Token(fee) => NetOf(fee, amount)
    else 0
  }

  /** How depositing or withdrawing changes the balance of account `k`, whichever of the accounts coincide. */
  function AmountChange(pool: Pool, tx: Transaction, k: Key): int {
    if tx.extAmount <= 0 then PaidTo(pool, tx.recipient, k, Magnitude(tx.extAmount))
    else if k == pool.vault then tx.extAmount
    else
      match pool.asset
      case Sol => if k == tx.signer then -(tx.extAmount as int) else 0
      case Token(fee) => if k == tx.source then -(PreFee(fee, tx.extAmount) as int) else 0
  }

  /** How a transaction changes the balance of account `k`. */
  function Change(pool: Pool, tx: Transaction, k: Key): int {
    AmountChange(pool, tx, k) + PaidTo(pool, tx.feeAccount, k, tx.fee)
  }

  lemma SolChanges(w: World, pool: Pool, tx: Transaction, k: Key)
    requires pool.asset.Sol? && MoveSol(w, pool, tx).Ok? && tx.signer != pool.vault
    ensures Balance(MoveSol(w, pool, tx).value, k) == Balance(pool.accounts, k) + Change(pool, tx, k)
  {
    hide Touched;
    hide Lamports;
    SolFlow(w, pool, tx);
    var moved := MoveSolAmount(w, pool, tx).value;
    if tx.extAmount < 0 {
      PaymentChanges(pool.accounts, pool.vault, tx.recipient, Magnitude(tx.extAmount), k);
    }
    if tx.fee > 0 {
      PaymentChanges(moved, pool.vault, tx.feeAccount, tx.fee, k);
    }
  }

  lemma PaymentChanges(accounts: map<Key, Account>, vault: Key, payee: Key, amount: nat, k: Key)
    requires PayLamports(accounts, vault, payee, amount).Ok? && payee != vault
    ensures Balance(PayLamports(accounts, vault, payee, amount).value, k)
         == Balance(accounts, k) + (if k == vault then -(amount as int) else if k == payee then amount else 0)
  {
  }

  lemma TokenTransferChanges(fee: TransferFee, accounts: map<Key, Account>, from: Key, to: Key, amount: nat, k: Key)
    requires MoveTokens(fee, accounts, from, to, amount).Ok?
    ensures Balance(MoveTokens(fee, accounts, from, to, amount).value, k)
         == Balance(accounts, k)
            + (if from == to then 0
               else if k == from then -(amount as int)
               else if k == to then NetOf(fee, amount)
               else 0)
  {
    hide FeeOn;
    hide MoveTokens;
    TokenTransferFlow(fee, accounts, from, to, amount);
  }

  lemma TokenAmountChanges(pool: Pool, fee: TransferFee, tx: Transaction, k: Key)
    requires pool.asset == Token(fee) && MoveTokenAmount(pool, fee, tx).Ok?
    requires tx.extAmount > 0 ==> tx.source != pool.vault
    ensures Balance(MoveTokenAmount(pool, fee, tx).value, k) == Balance(pool.accounts, k) + AmountChange(pool, tx, k)
  {
    hide PreFee;
    hide FeeOn;
    hide MoveTokens;
    if tx.extAmount > 0 {
      TokenTransferChanges(fee, pool.accounts, tx.source, pool.vault, PreFee(fee, tx.extAmount), k);
      PreFeeExact(fee, tx.extAmount);
    } else if tx.extAmount < 0 {
      TokenTransferChanges(fee, pool.accounts, pool.vault, tx.recipient, Magnitude(tx.extAmount), k);
    } else {
      FeeAtMost(fee, 0);
    }
  }

  lemma TokenChanges(pool: Pool, fee: TransferFee, tx: Transaction, k: Key)
    requires pool.asset == Token(fee) && MoveToken(pool, fee, tx).Ok?
    requires tx.extAmount > 0 ==> tx.source != pool.vault
    ensures Balance(MoveToken(pool, fee, tx).value, k) == Balance(pool.accounts, k) + Change(pool, tx, k)
  {
    hide PreFee;
    hide FeeOn;
    hide MoveTokens;
    hide MoveTokenAmount;
    hide AmountChange;
    TokenAmountChanges(pool, fee, tx, k);
    if tx.fee > 0 {
      TokenTransferChanges(fee, MoveTokenAmount(pool, fee, tx).value, pool.vault, tx.feeAccount, tx.fee, k);
    } else {
      FeeAtMost(fee, 0);
    }
  }

  // ---------- accepted transactions ----------

  /** Everything a transaction must have passed, and everything it changed. */
  ghost predicate Accepts(w: World, s: State, tx: Transaction, after: State) {
    && tx.mint in s.pools && tx.mint in after.pools
    && Fresh(s, tx.proof) && tx.proof.Canonical()
    && CheckPublicAmount(tx.extAmount, tx.fee, tx.proof.publicAmount)
    && after == State(s.pools[tx.mint := after.pools[tx.mint]],
                      s.nullifiers0 + {tx.proof.nullifier0}, s.nullifiers1 + {tx.proof.nullifier1}, s.config)
    && AcceptsPool(w, s.pools[tx.mint], tx, after.pools[tx.mint])
  }

  ghost predicate AcceptsPool(w: World, pool: Pool, tx: Transaction, after: Pool) {
    && Recent(w.hash, pool.leaves, w.height, w.window, tx.proof.root)
    && after == pool.(accounts := after.accounts, leaves := pool.leaves + [tx.proof.commitment0, tx.proof.commitment1])
    && |after.leaves| <= Pow2(w.height)
    && VaultHeld(w, after)
    && Balance(after.accounts, pool.vault) >= Reserve(w, pool)
    && Balance(after.accounts, pool.vault)
       == Balance(pool.accounts, pool.vault) + tx.extAmount - tx.fee + SelfPaid(pool, tx)
  }

  lemma TransactAccepts(w: World, s: State, tx: Transaction)
    requires Transact(w, s, tx).Ok?
    requires VaultHeld(w, s.pools[tx.mint])
    requires Balance(s.pools[tx.mint].accounts, s.pools[tx.mint].vault) >= Reserve(w, s.pools[tx.mint])
    ensures Accepts(w, s, tx, Transact(w, s, tx).value)
  {
    var pool := s.pools[tx.mint];
    PoolAccepts(w, s, pool, tx);
  }

  lemma PoolAccepts(w: World, s: State, pool: Pool, tx: Transaction)
    requires TransactPool(w, s, pool, tx).Ok?
    requires VaultHeld(w, pool) && Balance(pool.accounts, pool.vault) >= Reserve(w, pool)
    ensures Fresh(s, tx.proof) && tx.proof.Canonical()
    ensures CheckPublicAmount(tx.extAmount, tx.fee, tx.proof.publicAmount)
    ensures AcceptsPool(w, pool, tx, TransactPool(w, s, pool, tx).value)
  {
    FundsFlow(w, pool, tx);
  }

  /**
   * The terms of an accepted transaction: the proof verifies, a deposit stays below the limit and above its fee, the
   * fee reaches the configured minimum and goes to the configured recipient.
   */
  lemma AcceptedTerms(w: World, s: State, tx: Transaction)
    requires Transact(w, s, tx).Ok?
    ensures w.pairing(tx.proof) && FeeRecipientOk(s.config, s.pools[tx.mint], tx)
    ensures tx.extAmount > 0 ==> tx.fee < tx.extAmount <= s.pools[tx.mint].maxDeposit
    ensures tx.extAmount > 0 ==> tx.fee >= LeastFee(tx.extAmount, s.config.depositRate, s.config.margin)
    ensures tx.extAmount < 0 ==> tx.fee >= LeastFee(Magnitude(tx.extAmount), s.config.withdrawalRate, s.config.margin)
  {
    var pool := s.pools[tx.mint];
    assert TransactPool(w, s, pool, tx).Ok?;
    TermsChecked(w, s.config, pool, tx);
    if tx.extAmount > 0 {
      DepositLimited(w, pool, tx);
    }
  }

  lemma TermsChecked(w: World, config: Config, pool: Pool, tx: Transaction)
    requires CheckProofData(w, config, pool, tx).Ok?
    ensures w.pairing(tx.proof) && FeeRecipientOk(config, pool, tx)
    ensures tx.extAmount > 0 ==> tx.fee < tx.extAmount
    ensures tx.extAmount > 0 ==> tx.fee >= LeastFee(tx.extAmount, config.depositRate, config.margin)
    ensures tx.extAmount < 0 ==> tx.fee >= LeastFee(Magnitude(tx.extAmount), config.withdrawalRate, config.margin)
  {
    CheckMeans(tx.extAmount, tx.fee, tx.proof.publicAmount);
    ValidateFeeExact(tx.extAmount, tx.fee, config.depositRate, config.withdrawalRate, config.margin);
  }

  lemma DepositLimited(w: World, pool: Pool, tx: Transaction)
    requires MoveFunds(w, pool, tx).Ok? && tx.extAmount > 0
    ensures tx.extAmount <= pool.maxDeposit
  {
  }
}
