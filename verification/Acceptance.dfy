/**
 * When exactly the program accepts a transaction, and what it then does, in terms of the accounts, words and amounts
 * alone: which nullifiers are new, whose money moves, what the proof commits to, where the fee goes.
 */
module Acceptance {
  import opened Bn254
  import opened Encoding
  import opened FrontierTree
  import opened JoinSplit
  import opened Ledger
  import opened MerkleSpec
  import opened PublicAmount
  import opened TokenFee
  import opened VaultFlow

  // ---------- the conditions ----------

  /** Neither nullifier was ever used, under either prefix, and they differ. */
  predicate NullifiersNew(s: State, proof: Proof) {
    && proof.nullifier0 != proof.nullifier1
    && {proof.nullifier0, proof.nullifier1} !! s.nullifiers0 + s.nullifiers1
  }

  /**
   * The vault does not sign. For a token pool, source, recipient and fee account are token accounts of the mint, and
   * the source belongs to the signer.
   */
  predicate AccountsPresented(w: World, pool: Pool, tx: Transaction) {
    match pool.asset
    case Sol => tx.signer != pool.vault
    case Token(_) =>
      && tx.signer != w.authority
      && {tx.source, tx.recipient, tx.feeAccount} <= pool.accounts.Keys
      && pool.accounts[tx.source].owner == tx.signer
  }

  /** The proof's root is not zero and is the root of the tree after one of the last `window` counts of leaves. */
  ghost predicate RootInWindow(w: World, pool: Pool, root: Word) {
    root != 0 && exists earlier: seq<Word> ::
      earlier <= pool.leaves && |pool.leaves| < |earlier| + w.window && Root(w.hash, earlier, w.height) == root
  }

  /** The proof commits to recipient, amount, ciphertexts, fee, fee account and mint, through their digest. */
  predicate CommitsToData(w: World, tx: Transaction) {
    var data := ExtData(tx.recipient, tx.extAmount, tx.encryptedOutput1, tx.encryptedOutput2, tx.fee, tx.feeAccount,
                        tx.mint);
    FromLE(w.sha256(Serialize(data))) % P == tx.proof.extDataHash % P
  }

  /** And to the amount that crosses the boundary, less the fee. A deposit exceeds its fee. */
  predicate CommitsToAmount(tx: Transaction) {
    && I64_MIN < tx.extAmount && (tx.extAmount > 0 ==> tx.fee < tx.extAmount)
    && tx.proof.publicAmount % P == (tx.extAmount - tx.fee) % P
  }

  /** The fee reaches the configured rate, less the margin. */
  predicate FeeSuffices(config: Config, tx: Transaction) {
    && (tx.extAmount > 0 ==> tx.fee >= LeastFee(tx.extAmount, config.depositRate, config.margin))
    && (tx.extAmount < 0 ==> tx.fee >= LeastFee(Magnitude(tx.extAmount), config.withdrawalRate, config.margin))
  }

  /** A fee goes to the configured recipient: to it for SOL, to a token account it owns otherwise. */
  predicate FeeWellAddressed(config: Config, pool: Pool, tx: Transaction) {
    tx.fee > 0 ==>
      if pool.asset.Sol? then tx.feeAccount == config.feeRecipient
      else tx.feeAccount in pool.accounts && pool.accounts[tx.feeAccount].owner == config.feeRecipient
  }

  /** The pairing check passes for seven canonical inputs. */
  predicate ProofPasses(w: World, proof: Proof) {
    && w.pairing(proof)
    && forall x | x in [proof.root, proof.publicAmount, proof.extDataHash, proof.nullifier0, proof.nullifier1,
                        proof.commitment0, proof.commitment1] :: x < P
  }

  /** What an account holds once the deposit or withdrawal is made, and before the fee is paid. */
  function BeforeFee(pool: Pool, tx: Transaction, k: Key): int {
    Balance(pool.accounts, k) + AmountChange(pool, tx, k)
  }

  /** Whoever pays has it, whoever is paid can hold it, a SOL vault keeps its rent, and pays nobody but others. */
  predicate FundsSuffice(w: World, pool: Pool, tx: Transaction) {
    && (tx.extAmount > 0 ==> tx.extAmount <= pool.maxDeposit)
    && match pool.asset
       case Sol =>
         && (tx.extAmount > 0 ==> BeforeFee(pool, tx, tx.signer) >= 0 && BeforeFee(pool, tx, pool.vault) <= U64_MAX)
         && (tx.extAmount < 0 ==> tx.recipient != pool.vault && BeforeFee(pool, tx, tx.recipient) <= U64_MAX)
         && (tx.fee > 0 ==> tx.feeAccount != pool.vault && BeforeFee(pool, tx, tx.feeAccount) + tx.fee <= U64_MAX)
         && (tx.extAmount < 0 || tx.fee > 0 ==> BeforeFee(pool, tx, pool.vault) >= tx.fee + w.rent)
       case Token(fee) =>
         && (tx.extAmount > 0 ==>
               && tx.source != pool.vault && PreFee(fee, tx.extAmount) <= U64_MAX
               && BeforeFee(pool, tx, tx.source) >= 0 && BeforeFee(pool, tx, pool.vault) <= U64_MAX)
         && (tx.extAmount < 0 ==>
               && Balance(pool.accounts, pool.vault) >= Magnitude(tx.extAmount)
               && BeforeFee(pool, tx, tx.recipient) <= U64_MAX)
         && (tx.fee > 0 ==>
               && BeforeFee(pool, tx, pool.vault) >= tx.fee
               && BeforeFee(pool, tx, tx.feeAccount) + PaidTo(pool, tx.feeAccount, tx.feeAccount, tx.fee) <= U64_MAX)
  }

  /** Everything the program asks of a transaction. */
  ghost predicate Acceptable(w: World, s: State, tx: Transaction) {
    && tx.mint in s.pools
    && var pool := s.pools[tx.mint];
    && NullifiersNew(s, tx.proof)
    && AccountsPresented(w, pool, tx)
    && RootInWindow(w, pool, tx.proof.root)
    && CommitsToData(w, tx) && CommitsToAmount(tx)
    && FeeSuffices(s.config, tx) && FeeWellAddressed(s.config, pool, tx)
    && ProofPasses(w, tx.proof)
    && FundsSuffice(w, pool, tx)
    && |pool.leaves| + 2 <= Pow2(w.height)
  }

  // ---------- each check means its condition ----------

  lemma FreshExactly(s: State, proof: Proof)
    ensures Fresh(s, proof) <==> NullifiersNew(s, proof)
  {
    assert proof.nullifier0 in {proof.nullifier0, proof.nullifier1};
    assert proof.nullifier1 in {proof.nullifier0, proof.nullifier1};
  }

  lemma AccountsExactly(w: World, pool: Pool, tx: Transaction)
    ensures CheckAccounts(w, pool, tx).Ok? <==> AccountsPresented(w, pool, tx)
  {
    assert {tx.source, tx.recipient, tx.feeAccount} <= pool.accounts.Keys
      <==> tx.source in pool.accounts && tx.recipient in pool.accounts && tx.feeAccount in pool.accounts;
  }

  lemma RootExactly(w: World, pool: Pool, root: Word)
    ensures Recent(w.hash, pool.leaves, w.height, w.window, root) <==> RootInWindow(w, pool, root)
  {
    hide Root;
    var leaves := pool.leaves;
    if RootInWindow(w, pool, root) {
      var earlier: seq<Word> :|
        earlier <= leaves && |leaves| < |earlier| + w.window && Root(w.hash, earlier, w.height) == root;
      assert leaves[..|earlier|] == earlier;
      assert RootAfter(w.hash, leaves, w.height, |earlier|) == root;
    }
    if Recent(w.hash, leaves, w.height, w.window, root) {
      var j :| 0 <= j <= |leaves| && |leaves| - j < w.window && RootAfter(w.hash, leaves, w.height, j) == root;
      assert leaves[..j] <= leaves;
    }
  }

  lemma ProofDataExactly(w: World, config: Config, pool: Pool, tx: Transaction)
    ensures CheckProofData(w, config, pool, tx).Ok?
       <==> && CommitsToData(w, tx) && CommitsToAmount(tx)
            && FeeSuffices(config, tx) && FeeWellAddressed(config, pool, tx)
            && ProofPasses(w, tx.proof)
  {
    hide Serialize;
    hide CheckPublicAmount;
    hide ValidateFee;
    CheckMeans(tx.extAmount, tx.fee, tx.proof.publicAmount);
    if tx.extAmount > I64_MIN {
      ValidateFeeExact(tx.extAmount, tx.fee, config.depositRate, config.withdrawalRate, config.margin);
    }
    CanonicalExactly(tx.proof);
  }

  lemma CanonicalExactly(proof: Proof)
    ensures proof.Canonical() <==> forall x | x in [proof.root, proof.publicAmount, proof.extDataHash, proof.nullifier0,
                                                    proof.nullifier1, proof.commitment0, proof.commitment1] :: x < P
  {
    var all := [proof.root, proof.publicAmount, proof.extDataHash, proof.nullifier0, proof.nullifier1,
                proof.commitment0, proof.commitment1];
    assert all[0] in all && all[1] in all && all[2] in all && all[3] in all && all[4] in all && all[5] in all;
    assert all[6] in all;
  }

  lemma FeeRecipientExactly(config: Config, pool: Pool, tx: Transaction)
    ensures FeeRecipientOk(config, pool, tx) <==> FeeWellAddressed(config, pool, tx)
  {
  }

  // ---------- funds ----------

  lemma SolAmountExactly(w: World, pool: Pool, tx: Transaction)
    requires pool.asset.Sol? && tx.signer != pool.vault
    requires tx.extAmount < 0 ==> tx.recipient != pool.vault
    ensures MoveSolAmount(w, pool, tx).Ok?
       <==> && (tx.extAmount > 0 ==>
                  && tx.extAmount <= pool.maxDeposit
                  && BeforeFee(pool, tx, tx.signer) >= 0 && BeforeFee(pool, tx, pool.vault) <= U64_MAX)
            && (tx.extAmount < 0 ==>
                  && BeforeFee(pool, tx, tx.recipient) <= U64_MAX
                  && BeforeFee(pool, tx, pool.vault) >= tx.fee + w.rent)
    ensures MoveSolAmount(w, pool, tx).Ok? ==>
              forall k :: Balance(MoveSolAmount(w, pool, tx).value, k) == BeforeFee(pool, tx, k)
  {
  }

  lemma SolFeeExactly(w: World, pool: Pool, tx: Transaction, moved: map<Key, Account>)
    requires pool.asset.Sol? && (tx.fee > 0 ==> tx.feeAccount != pool.vault)
    requires forall k :: Balance(moved, k) == BeforeFee(pool, tx, k)
    requires tx.extAmount < 0 ==> BeforeFee(pool, tx, pool.vault) >= tx.fee + w.rent
    ensures MoveSolFee(w, pool, tx, moved).Ok?
       <==> (tx.fee > 0 ==>
               && BeforeFee(pool, tx, tx.feeAccount) + tx.fee <= U64_MAX
               && BeforeFee(pool, tx, pool.vault) >= tx.fee + w.rent)
  {
    hide BeforeFee;
    assert Balance(moved, pool.vault) == BeforeFee(pool, tx, pool.vault);
    assert Balance(moved, tx.feeAccount) == BeforeFee(pool, tx, tx.feeAccount);
  }

  /** The runtime's rule asks that lamports are neither made nor lost; a payment to the vault would make some. */
  lemma SolBalanced(w: World, pool: Pool, tx: Transaction)
    requires tx.signer != pool.vault && MoveSolAmount(w, pool, tx).Ok?
    requires MoveSolFee(w, pool, tx, MoveSolAmount(w, pool, tx).value).Ok?
    ensures MoveSol(w, pool, tx).Ok?
       <==> (tx.extAmount < 0 ==> tx.recipient != pool.vault) && (tx.fee > 0 ==> tx.feeAccount != pool.vault)
    ensures MoveSol(w, pool, tx).Err? ==> MoveSol(w, pool, tx).error == UnbalancedInstruction
  {
    hide MoveSolAmount;
    hide Lamports;
    var all := [tx.signer, pool.vault, tx.recipient, tx.feeAccount];
    DistinctKeys(all);
    var keys := Touched(pool, tx);
    assert all[0] in keys && all[1] in keys && all[2] in keys && all[3] in keys;
    var moved := MoveSolAmount(w, pool, tx).value;
    SolAmountFlow(w, pool, tx, keys);
    if tx.fee > 0 {
      PaymentBalance(moved, pool.vault, tx.feeAccount, tx.fee, keys);
    }
  }

  lemma SolExactly(w: World, pool: Pool, tx: Transaction)
    requires pool.asset.Sol? && tx.signer != pool.vault
    ensures MoveSol(w, pool, tx).Ok? <==> FundsSuffice(w, pool, tx)
  {
    hide MoveSolAmount;
    hide MoveSolFee;
    hide BeforeFee;
    hide Lamports;
    if MoveSol(w, pool, tx).Ok? {
      SolBalanced(w, pool, tx);
    }
    if (tx.extAmount < 0 ==> tx.recipient != pool.vault) && (tx.fee > 0 ==> tx.feeAccount != pool.vault) {
      SolAmountExactly(w, pool, tx);
      if MoveSolAmount(w, pool, tx).Ok? {
        SolFeeExactly(w, pool, tx, MoveSolAmount(w, pool, tx).value);
        if MoveSolFee(w, pool, tx, MoveSolAmount(w, pool, tx).value).Ok? {
          SolBalanced(w, pool, tx);
        }
      }
    }
  }

  lemma TransferExactly(fee: TransferFee, accounts: map<Key, Account>, from: Key, to: Key, amount: nat)
    ensures MoveTokens(fee, accounts, from, to, amount).Ok?
       <==> amount <= Balance(accounts, from) && (from == to || Balance(accounts, to) + NetOf(fee, amount) <= U64_MAX)
  {
    hide FeeOn;
    FeeAtMost(fee, amount);
    FeeAtMost(fee, 0);
  }

  lemma TokenAmountExactly(w: World, pool: Pool, fee: TransferFee, tx: Transaction)
    requires pool.asset == Token(fee)
    ensures MoveTokenAmount(pool, fee, tx).Ok?
       <==> && (tx.extAmount > 0 ==>
                  && tx.extAmount <= pool.maxDeposit && tx.source != pool.vault && PreFee(fee, tx.extAmount) <= U64_MAX
                  && BeforeFee(pool, tx, tx.source) >= 0 && BeforeFee(pool, tx, pool.vault) <= U64_MAX)
            && (tx.extAmount < 0 ==>
                  && Balance(pool.accounts, pool.vault) >= Magnitude(tx.extAmount)
                  && BeforeFee(pool, tx, tx.recipient) <= U64_MAX)
  {
    hide FeeOn;
    hide PreFee;
    hide MoveTokens;
    if tx.extAmount > 0 {
      var gross := PreFee(fee, tx.extAmount);
      TransferExactly(fee, pool.accounts, tx.source, pool.vault, gross);
      PreFeeExact(fee, tx.extAmount);
      if MoveTokens(fee, pool.accounts, tx.source, pool.vault, gross).Ok? {
        TokenTransferFlow(fee, pool.accounts, tx.source, pool.vault, gross);
      }
    } else if tx.extAmount < 0 {
      TransferExactly(fee, pool.accounts, pool.vault, tx.recipient, Magnitude(tx.extAmount));
    }
  }

  lemma TokenExactly(w: World, pool: Pool, fee: TransferFee, tx: Transaction)
    requires pool.asset == Token(fee)
    ensures MoveToken(pool, fee, tx).Ok? <==> FundsSuffice(w, pool, tx)
  {
    hide FeeOn;
    hide PreFee;
    hide MoveTokens;
    hide MoveTokenAmount;
    hide AmountChange;
    TokenAmountExactly(w, pool, fee, tx);
    if MoveTokenAmount(pool, fee, tx).Ok? && tx.fee > 0 {
      var moved := MoveTokenAmount(pool, fee, tx).value;
      TokenAmountChanges(pool, fee, tx, pool.vault);
      TokenAmountChanges(pool, fee, tx, tx.feeAccount);
      TransferExactly(fee, moved, pool.vault, tx.feeAccount, tx.fee);
    }
  }

  lemma FundsExactly(w: World, pool: Pool, tx: Transaction)
    requires AccountsPresented(w, pool, tx)
    ensures MoveFunds(w, pool, tx).Ok? <==> FundsSuffice(w, pool, tx)
  {
    hide MoveSol;
    hide MoveToken;
    hide FundsSuffice;
    match pool.asset
    case Sol => SolExactly(w, pool, tx);
    case Token(fee) => TokenExactly(w, pool, fee, tx);
  }

  // ---------- the theorems ----------

  /** The program accepts a transaction exactly if it is acceptable. */
  lemma AcceptedExactly(w: World, s: State, tx: Transaction)
    ensures Transact(w, s, tx).Ok? <==> Acceptable(w, s, tx)
  {
    hide Fresh;
    hide NullifiersNew;
    hide CheckAccounts;
    hide AccountsPresented;
    hide Recent;
    hide RootInWindow;
    hide CheckProofData;
    hide CommitsToData;
    hide CommitsToAmount;
    hide FeeSuffices;
    hide FeeWellAddressed;
    hide ProofPasses;
    hide MoveFunds;
    hide FundsSuffice;
    if tx.mint in s.pools {
      var pool := s.pools[tx.mint];
      FreshExactly(s, tx.proof);
      AccountsExactly(w, pool, tx);
      RootExactly(w, pool, tx.proof.root);
      ProofDataExactly(w, s.config, pool, tx);
      if AccountsPresented(w, pool, tx) {
        FundsExactly(w, pool, tx);
      }
    }
  }

  /** Which check refuses a transaction first, if one does before funds move. */
  ghost function Refusal(w: World, s: State, tx: Transaction): Option<Error> {
    if tx.mint !in s.pools then Some(AccountNotInitialized)
    else
      var pool := s.pools[tx.mint];
      if !NullifiersNew(s, tx.proof) then Some(AccountInUse)
      else if tx.signer == (if pool.asset.Sol? then pool.vault else w.authority) then Some(MissingSignature)
      else if !AccountsPresented(w, pool, tx) then Some(InvalidTokenAccount)
      else if !RootInWindow(w, pool, tx.proof.root) then Some(UnknownRoot)
      else if !CommitsToData(w, tx) then Some(ExtDataHashMismatch)
      else if !CommitsToAmount(tx) then Some(InvalidPublicAmountData)
      else if !FeeSuffices(s.config, tx) then Some(InvalidFeeAmount)
      else if !FeeWellAddressed(s.config, pool, tx) then Some(InvalidFeeRecipient)
      else if !ProofPasses(w, tx.proof) then Some(InvalidProof)
      else if tx.extAmount > pool.maxDeposit then Some(DepositLimitExceeded)
      else None
  }

  lemma ProofDataRefusal(w: World, config: Config, pool: Pool, tx: Transaction)
    ensures var r := CheckProofData(w, config, pool, tx);
            if !CommitsToData(w, tx) then r == Err(ExtDataHashMismatch)
            else if !CommitsToAmount(tx) then r == Err(InvalidPublicAmountData)
            else if !FeeSuffices(config, tx) then r == Err(InvalidFeeAmount)
            else if !FeeWellAddressed(config, pool, tx) then r == Err(InvalidFeeRecipient)
            else if !ProofPasses(w, tx.proof) then r == Err(InvalidProof)
            else r.Ok?
  {
    hide Serialize;
    hide CheckPublicAmount;
    hide CheckFee;
    CheckMeans(tx.extAmount, tx.fee, tx.proof.publicAmount);
    if CommitsToAmount(tx) {
      if tx.extAmount > 0 {
        CheckFeeExact(tx.extAmount, tx.fee, config.depositRate, config.margin);
      } else if tx.extAmount < 0 {
        CheckFeeExact(-tx.extAmount, tx.fee, config.withdrawalRate, config.margin);
      }
    }
    CanonicalExactly(tx.proof);
  }

  /** The checks come in the program's order, each with its own error; a refused transaction changes nothing. */
  lemma RefusedBecause(w: World, s: State, tx: Transaction)
    ensures Refusal(w, s, tx).Some? ==> Transact(w, s, tx) == Err(Refusal(w, s, tx).value)
  {
    hide Fresh;
    hide NullifiersNew;
    hide Recent;
    hide RootInWindow;
    hide CheckProofData;
    hide CommitsToData;
    hide CommitsToAmount;
    hide FeeSuffices;
    hide FeeWellAddressed;
    hide ProofPasses;
    if tx.mint in s.pools {
      var pool := s.pools[tx.mint];
      FreshExactly(s, tx.proof);
      AccountsExactly(w, pool, tx);
      RootExactly(w, pool, tx.proof.root);
      ProofDataRefusal(w, s.config, pool, tx);
    }
  }

  /** What the funds are refused for, once everything before them has passed. */
  lemma FundsRefusedBecause(w: World, pool: Pool, tx: Transaction)
    requires AccountsPresented(w, pool, tx) && tx.extAmount <= pool.maxDeposit
    ensures pool.asset.Sol? && tx.extAmount > 0 && Balance(pool.accounts, tx.signer) < tx.extAmount ==>
              MoveFunds(w, pool, tx) == Err(InsufficientFunds)
    ensures pool.asset.Sol? && tx.extAmount < 0 && Magnitude(tx.extAmount) + tx.fee + w.rent <= U64_MAX
            && Balance(pool.accounts, pool.vault) < Magnitude(tx.extAmount) + tx.fee + w.rent ==>
              MoveFunds(w, pool, tx) == Err(InsufficientFundsForWithdrawal)
    ensures pool.asset.Sol? && tx.extAmount == 0 < tx.fee && tx.fee + w.rent <= U64_MAX
            && Balance(pool.accounts, pool.vault) < tx.fee + w.rent ==>
              MoveFunds(w, pool, tx) == Err(InsufficientFundsForFee)
    ensures pool.asset.Token? && tx.extAmount < 0 && Balance(pool.accounts, pool.vault) < Magnitude(tx.extAmount) ==>
              MoveFunds(w, pool, tx) == Err(InsufficientFunds)
  {
  }

  /** What a token deposit is refused for, in order. */
  lemma TokenDepositRefusedBecause(w: World, pool: Pool, fee: TransferFee, tx: Transaction)
    requires pool.asset == Token(fee) && 0 < tx.extAmount <= pool.maxDeposit
    ensures var r := MoveTokenAmount(pool, fee, tx);
            if PreFee(fee, tx.extAmount) > U64_MAX then r == Err(ArithmeticOverflow)
            else if Balance(pool.accounts, tx.source) < PreFee(fee, tx.extAmount) then r == Err(InsufficientFunds)
            else if tx.source == pool.vault then r == Err(DepositAmountMismatch)
            else if Balance(pool.accounts, pool.vault) + tx.extAmount > U64_MAX then r == Err(ArithmeticOverflow)
            else r.Ok?
  {
    hide FeeOn;
    hide PreFee;
    PreFeeExact(fee, tx.extAmount);
    FeeAtMost(fee, 0);
  }

  /** A full tree is noticed last, after every check and with the funds at hand, and undoes everything. */
  lemma FullTreeRefuses(w: World, s: State, tx: Transaction)
    requires Refusal(w, s, tx).None? && FundsSuffice(w, s.pools[tx.mint], tx)
    requires |s.pools[tx.mint].leaves| + 2 > Pow2(w.height)
    ensures Transact(w, s, tx) == Err(MerkleTreeFull)
  {
    hide Fresh;
    hide NullifiersNew;
    hide Recent;
    hide RootInWindow;
    hide CheckProofData;
    hide CommitsToData;
    hide CommitsToAmount;
    hide FeeSuffices;
    hide FeeWellAddressed;
    hide ProofPasses;
    hide FundsSuffice;
    hide MoveFunds;
    var pool := s.pools[tx.mint];
    FreshExactly(s, tx.proof);
    AccountsExactly(w, pool, tx);
    RootExactly(w, pool, tx.proof.root);
    ProofDataExactly(w, s.config, pool, tx);
    FundsExactly(w, pool, tx);
  }

  lemma SolOwners(w: World, pool: Pool, tx: Transaction)
    requires MoveSol(w, pool, tx).Ok?
    ensures SameOwners(pool.accounts, MoveSol(w, pool, tx).value)
  {
    hide Lamports;
    hide Touched;
    hide PayLamports;
    if tx.extAmount < 0 {
      PaymentOwners(pool.accounts, pool.vault, tx.recipient, Magnitude(tx.extAmount));
    }
    if tx.fee > 0 {
      PaymentOwners(MoveSolAmount(w, pool, tx).value, pool.vault, tx.feeAccount, tx.fee);
    }
  }

  lemma PaymentOwners(accounts: map<Key, Account>, vault: Key, payee: Key, amount: nat)
    requires PayLamports(accounts, vault, payee, amount).Ok?
    ensures SameOwners(accounts, PayLamports(accounts, vault, payee, amount).value)
  {
  }

  lemma TokenOwners(pool: Pool, fee: TransferFee, tx: Transaction)
    requires MoveToken(pool, fee, tx).Ok?
    ensures SameOwners(pool.accounts, MoveToken(pool, fee, tx).value)
  {
    hide FeeOn;
    hide PreFee;
    hide MoveTokens;
    if tx.extAmount > 0 {
      TokenTransferFlow(fee, pool.accounts, tx.source, pool.vault, PreFee(fee, tx.extAmount));
    } else if tx.extAmount < 0 {
      TokenTransferFlow(fee, pool.accounts, pool.vault, tx.recipient, Magnitude(tx.extAmount));
    }
    if tx.fee > 0 {
      TokenTransferFlow(fee, MoveTokenAmount(pool, fee, tx).value, pool.vault, tx.feeAccount, tx.fee);
    }
  }

  /** The movement of funds changes every balance by its exact change, and no owner. */
  lemma FundsChange(w: World, pool: Pool, tx: Transaction)
    requires AccountsPresented(w, pool, tx) && FundsSuffice(w, pool, tx) && MoveFunds(w, pool, tx).Ok?
    ensures SameOwners(pool.accounts, MoveFunds(w, pool, tx).value)
    ensures forall k :: Balance(MoveFunds(w, pool, tx).value, k) == Balance(pool.accounts, k) + Change(pool, tx, k)
  {
    hide MoveSol;
    hide MoveToken;
    hide Change;
    hide SameOwners;
    forall k
      ensures Balance(MoveFunds(w, pool, tx).value, k) == Balance(pool.accounts, k) + Change(pool, tx, k)
    {
      match pool.asset {
        case Sol => SolChanges(w, pool, tx, k);
        case Token(fee) => TokenChanges(pool, fee, tx, k);
      }
    }
    match pool.asset {
      case Sol => SolOwners(w, pool, tx);
      case Token(fee) => TokenOwners(pool, fee, tx);
    }
  }

  /** What an accepted transaction changes in its pool, down to every account. */
  ghost predicate PoolChanged(pool: Pool, tx: Transaction, after: Pool) {
    && after == pool.(accounts := after.accounts, leaves := pool.leaves + [tx.proof.commitment0, tx.proof.commitment1])
    && SameOwners(pool.accounts, after.accounts)
    && forall k :: Balance(after.accounts, k) == Balance(pool.accounts, k) + Change(pool, tx, k)
  }

  /** What an accepted transaction changes: its pool, two nullifiers, and nothing else. */
  lemma AcceptedEffects(w: World, s: State, tx: Transaction)
    requires Transact(w, s, tx).Ok?
    ensures tx.mint in s.pools
    ensures var after := Transact(w, s, tx).value;
            && tx.mint in after.pools && after.pools == s.pools[tx.mint := after.pools[tx.mint]]
            && after.nullifiers0 == s.nullifiers0 + {tx.proof.nullifier0}
            && after.nullifiers1 == s.nullifiers1 + {tx.proof.nullifier1}
            && after.config == s.config
            && PoolChanged(s.pools[tx.mint], tx, after.pools[tx.mint])
  {
    hide Fresh;
    hide Recent;
    hide CheckAccounts;
    hide CheckProofData;
    hide NullifiersNew;
    hide RootInWindow;
    hide CommitsToData;
    hide CommitsToAmount;
    hide FeeSuffices;
    hide FeeWellAddressed;
    hide ProofPasses;
    hide FundsSuffice;
    hide AccountsPresented;
    hide MoveFunds;
    hide Balance;
    hide Change;
    hide SameOwners;
    AcceptedExactly(w, s, tx);
    FundsChange(w, s.pools[tx.mint], tx);
  }

  /** Nobody pays but the vault and the signer: for a token pool, the account the signer owns. */
  lemma OnlySignerPays(w: World, s: State, tx: Transaction, k: Key)
    requires Transact(w, s, tx).Ok?
    requires Balance(Transact(w, s, tx).value.pools[tx.mint].accounts, k) < Balance(s.pools[tx.mint].accounts, k)
    ensures var pool := s.pools[tx.mint];
            || k == pool.vault
            || (tx.extAmount > 0
                && if pool.asset.Sol? then k == tx.signer
                   else k in pool.accounts && pool.accounts[k].owner == tx.signer)
  {
    hide Transact;
    hide Change;
    hide Balance;
    hide FundsSuffice;
    hide NullifiersNew;
    hide RootInWindow;
    hide CommitsToData;
    hide CommitsToAmount;
    hide FeeSuffices;
    hide FeeWellAddressed;
    hide ProofPasses;
    AcceptedExactly(w, s, tx);
    AcceptedEffects(w, s, tx);
    if k != s.pools[tx.mint].vault {
      OnlyPayersLose(s.pools[tx.mint], tx, k);
    }
  }

  lemma OnlyPayersLose(pool: Pool, tx: Transaction, k: Key)
    requires Change(pool, tx, k) < 0 && k != pool.vault
    ensures tx.extAmount > 0 && k == if pool.asset.Sol? then tx.signer else tx.source
  {
    hide FeeOn;
    hide PreFee;
    if pool.asset.Token? {
      FeeAtMost(pool.asset.fee, tx.fee);
      FeeAtMost(pool.asset.fee, Magnitude(tx.extAmount));
    }
  }

  lemma AcceptableCommits(w: World, s: State, tx: Transaction)
    requires Acceptable(w, s, tx)
    ensures CommitsToData(w, tx)
  {
  }

  /**
   * One proof is good for one set of terms: two accepted transactions whose proofs carry the same digest pay the same
   * recipient the same amount for the same fee to the same account in the same mint, with the same ciphertexts.
   */
  lemma TermsBound(w: World, sa: State, sb: State, a: Transaction, b: Transaction)
    requires Transact(w, sa, a).Ok? && Transact(w, sb, b).Ok? && a.proof.extDataHash == b.proof.extDataHash
    requires Encodable(a.Ext()) && Encodable(b.Ext()) && DigestsApart(w, a.Ext(), b.Ext())
    ensures a.recipient == b.recipient && a.extAmount == b.extAmount && a.mint == b.mint
    ensures a.fee == b.fee && a.feeAccount == b.feeAccount
    ensures a.encryptedOutput1 == b.encryptedOutput1 && a.encryptedOutput2 == b.encryptedOutput2
  {
    hide Transact;
    hide Acceptable;
    hide Serialize;
    AcceptedExactly(w, sa, a);
    AcceptedExactly(w, sb, b);
    AcceptableCommits(w, sa, a);
    AcceptableCommits(w, sb, b);
    SerializeInjective(a.Ext(), b.Ext());
  }
}
