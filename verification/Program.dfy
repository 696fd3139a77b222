/**
 * The instruction handlers, updating the accounts they are given in place. Each is proved to do exactly what Ledger
 * says: same result, same error, same new state.
 */
module Program {
  import opened Bn254
  import opened FrontierTree
  import opened JoinSplit
  import opened Ledger
  import opened MerkleSpec
  import opened PublicAmount
  import opened TokenFee

  /** A tree that takes an even number of leaves has room for a second one whenever it had room for a first. */
  lemma SecondAppendFits(n: nat, height: nat)
    requires height > 0 && n % 2 == 0 && n < Pow2(height)
    ensures n + 1 < Pow2(height)
  {
  }

  lemma FundsIgnoreLeaves(w: World, pool: Pool, leaves: seq<Word>, tx: Transaction)
    ensures MoveFunds(w, pool.(leaves := leaves), tx) == MoveFunds(w, pool, tx)
  {
  }

  lemma ChecksIgnoreLeaves(w: World, config: Config, pool: Pool, leaves: seq<Word>, tx: Transaction)
    ensures CheckAccounts(w, pool.(leaves := leaves), tx) == CheckAccounts(w, pool, tx)
    ensures CheckProofData(w, config, pool.(leaves := leaves), tx) == CheckProofData(w, config, pool, tx)
  {
  }

  /** What all pools share: the nullifier accounts that exist, and the configuration. */
  class Shared {
    var nullifiers0: set<Word>
    var nullifiers1: set<Word>
    var config: Config

    /** `initialize`, for the configuration. */
    constructor (caller: Key, withdrawalRate: Rate)
      ensures nullifiers0 == {} && nullifiers1 == {}
      ensures config == Config(caller, 0, withdrawalRate, INITIAL_MARGIN, caller)
    {
      nullifiers0, nullifiers1 := {}, {};
      config := Config(caller, 0, withdrawalRate, INITIAL_MARGIN, caller);
    }

    ghost function View(): State
      reads this
    {
      State(map[], nullifiers0, nullifiers1, config)
    }

    /** `update_global_config`: options are applied one by one, and none if any is refused. */
    method UpdateGlobalConfig(caller: Key, update: ConfigUpdate) returns (r: Result<Unit>)
      modifies this`config
      ensures var spec := Ledger.UpdateGlobalConfig(old(config), caller, update);
              if r.Ok? then spec == Ok(config) else spec == Err(r.error) && config == old(config)
    {
      if caller != config.admin {
        return Err(Unauthorized);
      }
      var next := config;
      if update.depositRate.Some? {
        if update.depositRate.value > BPS {
          return Err(InvalidFeeRate);
        }
        next := next.(depositRate := update.depositRate.value);
      }
      if update.withdrawalRate.Some? {
        if update.withdrawalRate.value > BPS {
          return Err(InvalidFeeRate);
        }
        next := next.(withdrawalRate := update.withdrawalRate.value);
      }
      if update.margin.Some? {
        if update.margin.value > BPS {
          return Err(InvalidFeeRate);
        }
        next := next.(margin := update.margin.value);
      }
      if update.feeRecipient.Some? {
        next := next.(feeRecipient := update.feeRecipient.value);
      }
      config := next;
      return Ok(Unit);
    }
  }

  /** The accounts of one pool. */
  class PoolAccounts {
    const w: World
    const tree: TreeAccount
    /** Everything but the tree. Leaves are not stored on chain: the field stays empty here. */
    var pool: Pool

    ghost predicate Valid()
      reads this, tree, tree.subtrees, tree.rootHistory
    {
      && w.height > 0
      && tree.Valid()
      && tree.hash == w.hash && tree.height == w.height && tree.rootHistorySize == w.window
      && |tree.leaves| % 2 == 0
    }

    /** The pool these accounts stand for. */
    ghost function View(): Pool
      reads this, tree
    {
      pool.(leaves := tree.leaves)
    }

    /** The tree and vault part of `initialize` and `create_pool`. */
    constructor (w: World, asset: Asset, admin: Key, vault: Key, accounts: map<Key, Account>)
      requires w.height > 0 && w.window > 0
      ensures Valid() && fresh(tree) && fresh(tree.subtrees) && fresh(tree.rootHistory)
      ensures this.w == w && View() == NewPool(asset, admin, vault, accounts)
    {
      this.w := w;
      tree := new TreeAccount(w.hash, w.height, w.window);
      pool := NewPool(asset, admin, vault, accounts);
    }

    /** `update_deposit_limit`. */
    method UpdateDepositLimit(caller: Key, limit: U64) returns (r: Result<Unit>)
      modifies this`pool
      ensures r == (if caller == old(pool.admin) then Ok(Unit) else Err(Unauthorized))
      ensures View() == if r.Ok? then old(View()).(maxDeposit := limit) else old(View())
    {
      if caller != pool.admin {
        return Err(Unauthorized);
      }
      pool := pool.(maxDeposit := limit);
      return Ok(Unit);
    }

    /** The lamport movements of `transact`, step by step on a working copy. */
    method MoveLamports(tx: Transaction) returns (r: Result<map<Key, Account>>)
      ensures r == MoveSol(w, pool, tx)
    {
      var accounts := pool.accounts;
      if tx.extAmount > 0 {
        if tx.extAmount > pool.maxDeposit {
          return Err(DepositLimitExceeded);
        }
        var debited := Debit(accounts, tx.signer, tx.extAmount, InsufficientFunds);
        if debited.Err? {
          return Err(debited.error);
        }
        var credited := Credit(debited.value, pool.vault, tx.extAmount);
        if credited.Err? {
          return Err(credited.error);
        }
        accounts := credited.value;
      } else if tx.extAmount < 0 {
        var amount := Magnitude(tx.extAmount);
        if amount + tx.fee + w.rent > U64_MAX {
          return Err(ArithmeticOverflow);
        }
        if Balance(accounts, pool.vault) < amount + tx.fee + w.rent {
          return Err(InsufficientFundsForWithdrawal);
        }
        var paid := PayLamports(accounts, pool.vault, tx.recipient, amount);
        if paid.Err? {
          return Err(paid.error);
        }
        accounts := paid.value;
      }
      if tx.fee > 0 {
        if tx.extAmount >= 0 {
          if tx.fee + w.rent > U64_MAX {
            return Err(ArithmeticOverflow);
          }
          if Balance(accounts, pool.vault) < tx.fee + w.rent {
            return Err(InsufficientFundsForFee);
          }
        }
        var paid := PayLamports(accounts, pool.vault, tx.feeAccount, tx.fee);
        if paid.Err? {
          return Err(paid.error);
        }
        accounts := paid.value;
      }
      if Lamports(accounts, Touched(pool, tx)) != Lamports(pool.accounts, Touched(pool, tx)) {
        return Err(UnbalancedInstruction);
      }
      return Ok(accounts);
    }

    /** The token movements of `transact_spl`. */
    method MoveTokenAccounts(fee: TransferFee, tx: Transaction) returns (r: Result<map<Key, Account>>)
      ensures r == MoveToken(pool, fee, tx)
    {
      var accounts := pool.accounts;
      if tx.extAmount > 0 {
        if tx.extAmount > pool.maxDeposit {
          return Err(DepositLimitExceeded);
        }
        var gross := PreFee(fee, tx.extAmount);
        if gross > U64_MAX {
          return Err(ArithmeticOverflow);
        }
        var before := Balance(accounts, pool.vault);
        var moved := MoveTokens(fee, accounts, tx.source, pool.vault, gross);
        if moved.Err? {
          return Err(moved.error);
        }
        accounts := moved.value;
        if Balance(accounts, pool.vault) < before {
          return Err(ArithmeticOverflow);
        }
        if Balance(accounts, pool.vault) - before != tx.extAmount {
          return Err(DepositAmountMismatch);
        }
      } else if tx.extAmount < 0 {
        var moved := MoveTokens(fee, accounts, pool.vault, tx.recipient, Magnitude(tx.extAmount));
        if moved.Err? {
          return Err(moved.error);
        }
        accounts := moved.value;
      }
      if tx.fee > 0 {
        var moved := MoveTokens(fee, accounts, pool.vault, tx.feeAccount, tx.fee);
        if moved.Err? {
          return Err(moved.error);
        }
        accounts := moved.value;
      }
      return Ok(accounts);
    }

    /** The two appends at the end of a transaction: both happen, or the tree is full and neither does. */
    method AppendBoth(proof: Proof) returns (ok: bool)
      requires Valid()
      modifies tree, tree.subtrees, tree.rootHistory
      ensures Valid()
      ensures ok <==> |old(tree.leaves)| < Pow2(w.height)
      ensures tree.leaves == if ok then old(tree.leaves) + [proof.commitment0, proof.commitment1] else old(tree.leaves)
    {
      hide IsFrontier;
      hide IsRing;
      hide Node;
      hide Fold;
      hide PathFrom;
      ghost var before := tree.leaves;
      var first := tree.Append(proof.commitment0);
      if first.Full? {
        return false;
      }
      SecondAppendFits(|before|, w.height);
      var second := tree.Append(proof.commitment1);
      assert tree.leaves == before + [proof.commitment0, proof.commitment1];
      return true;
    }

    /** What the checks before any change decide, in their order. */
    method Check(shared: Shared, tx: Transaction) returns (r: Result<Unit>)
      requires Valid()
      ensures r.Ok? ==> Passes(shared, tx)
      ensures r.Err? ==> TransactPool(w, shared.View(), View(), tx) == Err(r.error)
    {
      var proof := tx.proof;
      ChecksIgnoreLeaves(w, shared.config, pool, tree.leaves, tx);
      if proof.nullifier0 in shared.nullifiers0 || proof.nullifier1 in shared.nullifiers1
         || proof.nullifier1 in shared.nullifiers0 || proof.nullifier0 in shared.nullifiers1
         || proof.nullifier0 == proof.nullifier1 {
        return Err(AccountInUse);
      }
      var accounts := CheckAccounts(w, pool, tx);
      if accounts.Err? {
        return Err(accounts.error);
      }
      var known := tree.IsKnownRoot(proof.root);
      if !known {
        return Err(UnknownRoot);
      }
      var data := CheckProofData(w, shared.config, pool, tx);
      if data.Err? {
        return Err(data.error);
      }
      return Ok(Unit);
    }

    ghost predicate Passes(shared: Shared, tx: Transaction)
      reads this, tree, shared
    {
      && Fresh(shared.View(), tx.proof)
      && CheckAccounts(w, View(), tx).Ok?
      && Recent(w.hash, tree.leaves, w.height, w.window, tx.proof.root)
      && CheckProofData(w, shared.config, View(), tx).Ok?
    }

    /** `transact` and `transact_spl`. Funds move on a working copy that is dropped if the instruction fails. */
    method Transact(shared: Shared, tx: Transaction) returns (r: Result<Unit>)
      requires Valid()
      modifies this`pool, shared`nullifiers0, shared`nullifiers1, tree, tree.subtrees, tree.rootHistory
      ensures Valid()
      ensures var spec := TransactPool(w, old(shared.View()), old(View()), tx);
              if r.Ok? then spec == Ok(View()) else spec == Err(r.error) && View() == old(View())
      ensures r.Ok? ==> shared.nullifiers0 == old(shared.nullifiers0) + {tx.proof.nullifier0}
      ensures r.Ok? ==> shared.nullifiers1 == old(shared.nullifiers1) + {tx.proof.nullifier1}
      ensures r.Err? ==> unchanged(shared)
    {
      hide IsFrontier;
      hide IsRing;
      hide Node;
      hide CheckAccounts;
      hide CheckProofData;
      hide MoveSol;
      hide MoveToken;
      hide Recent;
      var checked := Check(shared, tx);
      if checked.Err? {
        return checked;
      }
      FundsIgnoreLeaves(w, pool, tree.leaves, tx);
      var moved;
      match pool.asset {
        case Sol => moved := MoveLamports(tx);
        case Token(fee) => moved := MoveTokenAccounts(fee, tx);
      }
      assert moved == MoveFunds(w, View(), tx);
      if moved.Err? {
        return Err(moved.error);
      }
      if tree.nextIndex < Pow2(w.height) {
        SecondAppendFits(|tree.leaves|, w.height);
      }
      var appended := AppendBoth(tx.proof);
      if !appended {
        return Err(MerkleTreeFull);
      }
      pool := pool.(accounts := moved.value);
      shared.nullifiers0 := shared.nullifiers0 + {tx.proof.nullifier0};
      shared.nullifiers1 := shared.nullifiers1 + {tx.proof.nullifier1};
      return Ok(Unit);
    }
  }
}
