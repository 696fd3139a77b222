/**
 * What the program does to the chain, on values: one pool per mint, two nullifier sets shared by all of them, and the
 * fee configuration. Branches, order of checks and errors are the instruction handlers' own.
 */
module Ledger {
  import opened Bn254
  import opened Encoding
  import opened FrontierTree
  import opened JoinSplit
  import opened MerkleSpec
  import opened Poseidon
  import opened PublicAmount
  import opened TokenFee

  /** Addresses and mints are 32-byte words. */
  type Key = Word

  /**
   * What the program relies on and cannot see into: the hashes, the pairing check, the runtime's rent minimum and its
   * own signing authority, plus the height of the trees and the size of the root window.
   */
  datatype World = World(
    hash: Hash,
    sha256: Bytes -> Bytes,
    pairing: Proof -> bool,
    rent: U64,
    authority: Key,
    height: nat,
    window: nat)

  datatype Account = Account(owner: Key, balance: U64)

  datatype Asset = Sol | Token(fee: TransferFee)

  /** `accounts` holds lamports for SOL and token accounts of the mint otherwise; the vault is one of them. */
  datatype Pool = Pool(
    asset: Asset, admin: Key, leaves: seq<Word>, maxDeposit: U64, vault: Key, accounts: map<Key, Account>)

  datatype Config = Config(admin: Key, depositRate: Rate, withdrawalRate: Rate, margin: Rate, feeRecipient: Key)

  datatype State = State(pools: map<Key, Pool>, nullifiers0: set<Word>, nullifiers1: set<Word>, config: Config)

  datatype Proof = Proof(
    points: nat, root: Word, publicAmount: Word, extDataHash: Word,
    nullifier0: Word, nullifier1: Word, commitment0: Word, commitment1: Word)
  {
    function Publics(): Publics {
      JoinSplit.Publics(root, publicAmount, extDataHash, nullifier0, nullifier1, commitment0, commitment1)
    }

    /** Every public input is below the field order. */
    predicate Canonical() {
      && root < P && publicAmount < P && extDataHash < P
      && nullifier0 < P && nullifier1 < P && commitment0 < P && commitment1 < P
    }
  }

  /** `source` is the signer's token account; for SOL it is the signer's own account. */
  datatype Transaction = Transaction(
    mint: Key, signer: Key, source: Key, recipient: Key, feeAccount: Key,
    proof: Proof, extAmount: I64, fee: U64, encryptedOutput1: Bytes, encryptedOutput2: Bytes)
  {
    function Ext(): ExtData {
      ExtData(recipient, extAmount, encryptedOutput1, encryptedOutput2, fee, feeAccount, mint)
    }
  }

  datatype Error =
    | AccountNotInitialized | AccountInUse | MissingSignature | InvalidTokenAccount
    | UnknownRoot | ExtDataHashMismatch | InvalidPublicAmountData
    | InvalidFeeAmount | InvalidFeeRecipient | InvalidProof
    | DepositLimitExceeded | DepositAmountMismatch | ArithmeticOverflow
    | InsufficientFunds | InsufficientFundsForWithdrawal | InsufficientFundsForFee
    | UnbalancedInstruction | MerkleTreeFull
    | Unauthorized | InvalidFeeRate | UnsupportedMintExtension

  datatype Result<T> = Ok(value: T) | Err(error: Error) {
    predicate IsFailure() { Err? }
    function PropagateFailure<U>(): Result<U> requires Err? { Err(error) }
    function Extract(): T requires Ok? { value }
  }

  datatype Unit = Unit

  function Require(condition: bool, error: Error): Result<Unit> {
    if condition then Ok(Unit) else Err(error)
  }

  // ---------- balances ----------

  function Balance(accounts: map<Key, Account>, k: Key): U64 {
    if k in accounts then accounts[k].balance else 0
  }

  function SetBalance(accounts: map<Key, Account>, k: Key, balance: U64): map<Key, Account> {
    accounts[k := Account(if k in accounts then accounts[k].owner else 0, balance)]
  }

  function Debit(accounts: map<Key, Account>, k: Key, amount: nat, error: Error): Result<map<Key, Account>> {
    if Balance(accounts, k) < amount then Err(error)
    else Ok(SetBalance(accounts, k, Balance(accounts, k) - amount))
  }

  function Credit(accounts: map<Key, Account>, k: Key, amount: nat): Result<map<Key, Account>> {
    if Balance(accounts, k) + amount > U64_MAX then Err(ArithmeticOverflow)
    else Ok(SetBalance(accounts, k, Balance(accounts, k) + amount))
  }

  // ---------- SOL ----------

  /**
   * The handler's own way of paying out: both new balances are computed before either is written, so a payee that is
   * the vault itself would keep the second write.
   */
  function PayLamports(accounts: map<Key, Account>, vault: Key, payee: Key, amount: nat): Result<map<Key, Account>> {
    var v, p := Balance(accounts, vault), Balance(accounts, payee);
    if v < amount || p + amount > U64_MAX then Err(ArithmeticOverflow)
    else Ok(SetBalance(SetBalance(accounts, vault, v - amount), payee, p + amount))
  }

  function Lamports(accounts: map<Key, Account>, keys: seq<Key>): nat {
    if keys == [] then 0 else Balance(accounts, keys[0]) + Lamports(accounts, keys[1..])
  }

  function Distinct(keys: seq<Key>): seq<Key> {
    if keys == [] then []
    else if keys[0] in keys[1..] then Distinct(keys[1..])
    else [keys[0]] + Distinct(keys[1..])
  }

  /** The accounts a SOL instruction may write, each once. */
  function Touched(pool: Pool, tx: Transaction): seq<Key> {
    Distinct([tx.signer, pool.vault, tx.recipient, tx.feeAccount])
  }

  function MoveSolAmount(w: World, pool: Pool, tx: Transaction): Result<map<Key, Account>> {
    if tx.extAmount > 0 then
      var _ :- Require(tx.extAmount <= pool.maxDeposit, DepositLimitExceeded);
      var debited :- Debit(pool.accounts, tx.signer, tx.extAmount, InsufficientFunds);
      Credit(debited, pool.vault, tx.extAmount)
    else if tx.extAmount < 0 then
      var amount := Magnitude(tx.extAmount);
      var _ :- Require(amount + tx.fee + w.rent <= U64_MAX, ArithmeticOverflow);
      var _ :- Require(Balance(pool.accounts, pool.vault) >= amount + tx.fee + w.rent, InsufficientFundsForWithdrawal);
      PayLamports(pool.accounts, pool.vault, tx.recipient, amount)
    else
      Ok(pool.accounts)
  }

  function MoveSolFee(w: World, pool: Pool, tx: Transaction, accounts: map<Key, Account>): Result<map<Key, Account>> {
    if tx.fee > 0 then
      var _ :- Require(tx.extAmount >= 0 ==> tx.fee + w.rent <= U64_MAX, ArithmeticOverflow);
      var _ :- Require(tx.extAmount >= 0 ==> Balance(accounts, pool.vault) >= tx.fee + w.rent, InsufficientFundsForFee);
      PayLamports(accounts, pool.vault, tx.feeAccount, tx.fee)
    else
      Ok(accounts)
  }

  /** Lamport movements, under the runtime's rule that an instruction creates and destroys none. */
  function MoveSol(w: World, pool: Pool, tx: Transaction): Result<map<Key, Account>> {
    var moved :- MoveSolAmount(w, pool, tx);
    var paid :- MoveSolFee(w, pool, tx, moved);
    var _ :- Require(Lamports(paid, Touched(pool, tx)) == Lamports(pool.accounts, Touched(pool, tx)),
                     UnbalancedInstruction);
    Ok(paid)
  }

  // ---------- tokens ----------

  /** `move_tokens`: nothing for zero; a transfer to itself moves nothing and costs nothing. */
  function MoveTokens(fee: TransferFee, accounts: map<Key, Account>, from: Key, to: Key, amount: nat)
    : Result<map<Key, Account>>
  {
    if amount == 0 then Ok(accounts)
    else
      var _ :- Require(Balance(accounts, from) >= amount, InsufficientFunds);
      if from == to then Ok(accounts)
      else
        FeeAtMost(fee, amount);
        var debited :- Debit(accounts, from, amount, InsufficientFunds);
        Credit(debited, to, NetOf(fee, amount))
  }

  function MoveTokenAmount(pool: Pool, fee: TransferFee, tx: Transaction): Result<map<Key, Account>> {
    if tx.extAmount > 0 then
      var _ :- Require(tx.extAmount <= pool.maxDeposit, DepositLimitExceeded);
      var gross := PreFee(fee, tx.extAmount);
      var _ :- Require(gross <= U64_MAX, ArithmeticOverflow);
      var before := Balance(pool.accounts, pool.vault);
      var moved :- MoveTokens(fee, pool.accounts, tx.source, pool.vault, gross);
      var _ :- Require(Balance(moved, pool.vault) >= before, ArithmeticOverflow);
      var _ :- Require(Balance(moved, pool.vault) - before == tx.extAmount, DepositAmountMismatch);
      Ok(moved)
    else if tx.extAmount < 0 then
      MoveTokens(fee, pool.accounts, pool.vault, tx.recipient, Magnitude(tx.extAmount))
    else
      Ok(pool.accounts)
  }

  function MoveToken(pool: Pool, fee: TransferFee, tx: Transaction): Result<map<Key, Account>> {
    var moved :- MoveTokenAmount(pool, fee, tx);
    if tx.fee > 0 then MoveTokens(fee, moved, pool.vault, tx.feeAccount, tx.fee) else Ok(moved)
  }

  function MoveFunds(w: World, pool: Pool, tx: Transaction): Result<map<Key, Account>> {
    match pool.asset
    case Sol => MoveSol(w, pool, tx)
    case Token(fee) => MoveToken(pool, fee, tx)
  }

  // ---------- checks ----------

  /** The nullifier accounts: each is created under its own prefix and must not exist under the other. */
  predicate Fresh(s: State, proof: Proof) {
    && proof.nullifier0 !in s.nullifiers0 && proof.nullifier1 !in s.nullifiers1
    && proof.nullifier1 !in s.nullifiers0 && proof.nullifier0 !in s.nullifiers1
    && proof.nullifier0 != proof.nullifier1
  }

  /** Constraints on the token accounts; for SOL, only that the vault, which has no key, did not sign. */
  function CheckAccounts(w: World, pool: Pool, tx: Transaction): Result<Unit> {
    match pool.asset
    case Sol => Require(tx.signer != pool.vault, MissingSignature)
    case Token(_) =>
      var _ :- Require(tx.signer != w.authority, MissingSignature);
      var _ :- Require(tx.source in pool.accounts && tx.recipient in pool.accounts && tx.feeAccount in pool.accounts,
                       InvalidTokenAccount);
      Require(pool.accounts[tx.source].owner == tx.signer, InvalidTokenAccount)
  }

  function ExtDigest(w: World, e: ExtData): nat {
    FromLE(w.sha256(Serialize(e)))
  }

  function FeeError(check: FeeCheck): Result<Unit> {
    match check
    case FeeOk => Ok(Unit)
    case FeeTooLow => Err(InvalidFeeAmount)
    case FeeOverflow => Err(ArithmeticOverflow)
  }

  /** A fee may only go to the configured recipient: its account for SOL, a token account it owns otherwise. */
  predicate FeeRecipientOk(config: Config, pool: Pool, tx: Transaction) {
    tx.fee > 0 ==>
      match pool.asset
      case Sol => tx.feeAccount == config.feeRecipient
      case Token(_) => tx.feeAccount in pool.accounts && pool.accounts[tx.feeAccount].owner == config.feeRecipient
  }

  function CheckProofData(w: World, config: Config, pool: Pool, tx: Transaction): Result<Unit> {
    var _ :- Require(Reduce(ExtDigest(w, tx.Ext())) == Reduce(tx.proof.extDataHash), ExtDataHashMismatch);
    var _ :- Require(CheckPublicAmount(tx.extAmount, tx.fee, tx.proof.publicAmount), InvalidPublicAmountData);
    var _ :- FeeError(ValidateFee(tx.extAmount, tx.fee, config.depositRate, config.withdrawalRate, config.margin));
    var _ :- Require(FeeRecipientOk(config, pool, tx), InvalidFeeRecipient);
    Require(tx.proof.Canonical() && w.pairing(tx.proof), InvalidProof)
  }

  /** Two appends. The second cannot fail once the first succeeded, see the invariants. */
  function AppendOutputs(w: World, leaves: seq<Word>, proof: Proof): Result<seq<Word>> {
    var _ :- Require(|leaves| < Pow2(w.height), MerkleTreeFull);
    var _ :- Require(|leaves| + 1 < Pow2(w.height), MerkleTreeFull);
    Ok(leaves + [proof.commitment0, proof.commitment1])
  }

  /** `transact` and `transact_spl` on one pool. */
  ghost function TransactPool(w: World, s: State, pool: Pool, tx: Transaction): Result<Pool> {
    var _ :- Require(Fresh(s, tx.proof), AccountInUse);
    var _ :- CheckAccounts(w, pool, tx);
    var _ :- Require(Recent(w.hash, pool.leaves, w.height, w.window, tx.proof.root), UnknownRoot);
    var _ :- CheckProofData(w, s.config, pool, tx);
    var accounts :- MoveFunds(w, pool, tx);
    var leaves :- AppendOutputs(w, pool.leaves, tx.proof);
    Ok(pool.(accounts := accounts, leaves := leaves))
  }

  /** The whole instruction. A failure leaves the chain as it was. */
  ghost function Transact(w: World, s: State, tx: Transaction): Result<State> {
    var _ :- Require(tx.mint in s.pools, AccountNotInitialized);
    var pool :- TransactPool(w, s, s.pools[tx.mint], tx);
    Ok(State(s.pools[tx.mint := pool],
             s.nullifiers0 + {tx.proof.nullifier0}, s.nullifiers1 + {tx.proof.nullifier1}, s.config))
  }

  /** The digests of two serializations are told apart even after reduction to the field. */
  predicate DigestsApart(w: World, a: ExtData, b: ExtData) {
    Serialize(a) != Serialize(b) ==> Reduce(ExtDigest(w, a)) != Reduce(ExtDigest(w, b))
  }

  /** One proof commits to one recipient, amount, fee and pair of ciphertexts: nothing can be swapped in transit. */
  lemma ExtDataBound(w: World, config: Config, poolA: Pool, poolB: Pool, a: Transaction, b: Transaction)
    requires CheckProofData(w, config, poolA, a).Ok? && CheckProofData(w, config, poolB, b).Ok?
    requires a.proof.extDataHash == b.proof.extDataHash
    requires Encodable(a.Ext()) && Encodable(b.Ext()) && DigestsApart(w, a.Ext(), b.Ext())
    ensures a.recipient == b.recipient && a.extAmount == b.extAmount && a.mint == b.mint
    ensures a.fee == b.fee && a.feeAccount == b.feeAccount
    ensures a.encryptedOutput1 == b.encryptedOutput1 && a.encryptedOutput2 == b.encryptedOutput2
  {
    SerializeInjective(a.Ext(), b.Ext());
  }

  // ---------- the other instructions ----------

  type U16 = x: nat | x <= 0xFFFF

  const INITIAL_MARGIN: Rate := 500

  function NewPool(asset: Asset, admin: Key, vault: Key, accounts: map<Key, Account>): Pool {
    Pool(asset, admin, [], U64_MAX, vault, accounts)
  }

  /** `initialize`: the SOL pool and the configuration. Whoever calls it becomes the administrator. */
  function Initialize(solMint: Key, caller: Key, withdrawalRate: U16, vault: Key,
      accounts: map<Key, Account>)
    : Result<State>
  {
    var _ :- Require(withdrawalRate <= BPS, InvalidFeeRate);
    Ok(State(map[solMint := NewPool(Sol, caller, vault, accounts)], {}, {},
             Config(caller, 0, withdrawalRate, INITIAL_MARGIN, caller)))
  }

  datatype MintInfo = MintInfo(token2022: bool, nonTransferable: bool, fee: TransferFee)

  /** `create_pool`: anyone may open the pool of a mint once, unless its tokens could never leave again. */
  function CreatePool(s: State, mint: Key, info: MintInfo, vault: Key, accounts: map<Key, Account>): Result<State> {
    var _ :- Require(mint !in s.pools, AccountInUse);
    var _ :- Require(!(info.token2022 && info.nonTransferable), UnsupportedMintExtension);
    Ok(s.(pools := s.pools[mint := NewPool(Token(info.fee), s.config.admin, vault, accounts)]))
  }

  datatype ConfigUpdate = ConfigUpdate(
    depositRate: Option<U16>, withdrawalRate: Option<U16>, margin: Option<U16>, feeRecipient: Option<Key>)

  function ValidRate(rate: Option<U16>, current: Rate): Result<Rate> {
    match rate
    case None => Ok(current)
    case Some(v) => if v <= BPS then Ok(v) else Err(InvalidFeeRate)
  }

  /** `update_global_config`. */
  function UpdateGlobalConfig(config: Config, caller: Key, update: ConfigUpdate): Result<Config> {
    var _ :- Require(caller == config.admin, Unauthorized);
    var depositRate :- ValidRate(update.depositRate, config.depositRate);
    var withdrawalRate :- ValidRate(update.withdrawalRate, config.withdrawalRate);
    var margin :- ValidRate(update.margin, config.margin);
    Ok(Config(config.admin, depositRate, withdrawalRate, margin,
              if update.feeRecipient.Some? then update.feeRecipient.value else config.feeRecipient))
  }

  /** `update_deposit_limit`. */
  function UpdateDepositLimit(s: State, mint: Key, caller: Key, limit: U64): Result<State> {
    var _ :- Require(mint in s.pools, AccountNotInitialized);
    var _ :- Require(caller == s.pools[mint].admin, Unauthorized);
    Ok(s.(pools := s.pools[mint := s.pools[mint].(maxDeposit := limit)]))
  }
}
