/** What the other instructions do, and to whom they obey: opening, pool creation, configuration, deposit limits. */
module Administration {
  import opened Bn254
  import opened Ledger
  import opened PublicAmount
  import opened TokenFee

  /** A rate that is given has to be a proper one. */
  predicate ProperRate(given: Option<U16>) {
    given.Some? ==> given.value <= 10000
  }

  /** What is given replaces the old value; what is not leaves it. */
  predicate Replaced<T(==)>(given: Option<T>, was: T, now: T) {
    (given.Some? ==> now == given.value) && (given.None? ==> now == was)
  }

  /**
   * The configuration changes only at the administrator's word, only to proper rates, as a whole, and never in who the
   * administrator is.
   */
  lemma ConfigurationExactly(config: Config, caller: Key, update: ConfigUpdate)
    ensures UpdateGlobalConfig(config, caller, update).Ok?
       <==> && caller == config.admin
            && ProperRate(update.depositRate) && ProperRate(update.withdrawalRate) && ProperRate(update.margin)
    ensures caller != config.admin ==> UpdateGlobalConfig(config, caller, update) == Err(Unauthorized)
    ensures UpdateGlobalConfig(config, caller, update).Err? && caller == config.admin ==>
              UpdateGlobalConfig(config, caller, update) == Err(InvalidFeeRate)
    ensures UpdateGlobalConfig(config, caller, update).Ok? ==>
              var now := UpdateGlobalConfig(config, caller, update).value;
              && now.admin == config.admin
              && Replaced<U16>(update.depositRate, config.depositRate, now.depositRate)
              && Replaced<U16>(update.withdrawalRate, config.withdrawalRate, now.withdrawalRate)
              && Replaced<U16>(update.margin, config.margin, now.margin)
              && Replaced(update.feeRecipient, config.feeRecipient, now.feeRecipient)
  {
  }

  /** A pool as it is opened: empty, without a limit, under the given administrator. */
  predicate Opened(pool: Pool, asset: Asset, admin: Key, vault: Key, accounts: map<Key, Account>) {
    && pool.asset == asset && pool.admin == admin && pool.vault == vault && pool.accounts == accounts
    && pool.leaves == [] && pool.maxDeposit == 0xFFFF_FFFF_FFFF_FFFF
  }

  /** The opening: one pool, for SOL, no nullifiers, and a configuration that is all its caller's. */
  lemma OpeningExactly(solMint: Key, caller: Key, withdrawalRate: U16, vault: Key, accounts: map<Key, Account>)
    ensures Initialize(solMint, caller, withdrawalRate, vault, accounts).Ok? <==> withdrawalRate <= 10000
    ensures withdrawalRate > 10000 ==>
              Initialize(solMint, caller, withdrawalRate, vault, accounts) == Err(InvalidFeeRate)
    ensures withdrawalRate <= 10000 ==>
              var s := Initialize(solMint, caller, withdrawalRate, vault, accounts).value;
              && s.pools.Keys == {solMint} && Opened(s.pools[solMint], Sol, caller, vault, accounts)
              && s.nullifiers0 == {} && s.nullifiers1 == {}
              && s.config.admin == caller && s.config.feeRecipient == caller
              && s.config.depositRate == 0 && s.config.withdrawalRate == withdrawalRate && s.config.margin == 500
  {
  }

  /**
   * Anyone opens the pool of any mint, once, unless its tokens could never leave; the program's administrator runs it.
   */
  lemma CreationExactly(s: State, mint: Key, info: MintInfo, vault: Key, accounts: map<Key, Account>)
    ensures CreatePool(s, mint, info, vault, accounts).Ok?
       <==> mint !in s.pools && (info.token2022 ==> !info.nonTransferable)
    ensures mint in s.pools ==> CreatePool(s, mint, info, vault, accounts) == Err(AccountInUse)
    ensures mint !in s.pools && info.token2022 && info.nonTransferable ==>
              CreatePool(s, mint, info, vault, accounts) == Err(UnsupportedMintExtension)
    ensures CreatePool(s, mint, info, vault, accounts).Ok? ==>
              var after := CreatePool(s, mint, info, vault, accounts).value;
              && after.pools.Keys == s.pools.Keys + {mint}
              && (forall m | m in s.pools :: after.pools[m] == s.pools[m])
              && Opened(after.pools[mint], Token(info.fee), s.config.admin, vault, accounts)
              && after.nullifiers0 == s.nullifiers0 && after.nullifiers1 == s.nullifiers1 && after.config == s.config
  {
  }

  /** A pool's limit changes only at its administrator's word, and nothing else changes with it. */
  lemma LimitExactly(s: State, mint: Key, caller: Key, limit: U64)
    ensures UpdateDepositLimit(s, mint, caller, limit).Ok? <==> mint in s.pools && caller == s.pools[mint].admin
    ensures mint !in s.pools ==> UpdateDepositLimit(s, mint, caller, limit) == Err(AccountNotInitialized)
    ensures mint in s.pools && caller != s.pools[mint].admin ==>
              UpdateDepositLimit(s, mint, caller, limit) == Err(Unauthorized)
    ensures UpdateDepositLimit(s, mint, caller, limit).Ok? ==>
              var after := UpdateDepositLimit(s, mint, caller, limit).value;
              && after.pools.Keys == s.pools.Keys
              && (forall m | m in s.pools && m != mint :: after.pools[m] == s.pools[m])
              && after.pools[mint].maxDeposit == limit
              && after.pools[mint].(maxDeposit := s.pools[mint].maxDeposit) == s.pools[mint]
              && after.nullifiers0 == s.nullifiers0 && after.nullifiers1 == s.nullifiers1 && after.config == s.config
  {
  }
}
