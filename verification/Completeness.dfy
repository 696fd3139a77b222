/**
 * Honest spends are never refused: the transaction the client builds from owned, unspent notes passes every check of
 * the program in every reachable state that has room for two leaves, even if the tree has grown since the client
 * asked for its root and paths.
 */
module Completeness {
  import opened Acceptance
  import opened Bn254
  import opened Books
  import opened FrontierTree
  import opened JoinSplit
  import opened Ledger
  import opened Membership
  import opened MerkleSpec
  import opened Poseidon
  import opened PublicAmount
  import opened Runs
  import opened TokenFee
  import opened VaultFlow
  import ClientNotes
  import Encoding
  import Fees

  /**
   * What the client sets out to prove: two notes to spend (dummies of amount zero where it has fewer), two to create,
   * the amounts crossing the boundary, the rates it read for the fee, and how many leaves the relayer's tree had when
   * it served root and paths.
   */
  datatype Order = Order(
    mint: Key, mintField: Element, spend0: Spend, spend1: Spend, out0: Output, out1: Output,
    extAmount: I64, fee: U64, depositRate: Rate, quote: Fees.Quote, seen: nat, points: nat,
    signer: Key, source: Key, recipient: Key, feeAccount: Key,
    encryptedOutput1: Encoding.Bytes, encryptedOutput2: Encoding.Bytes)

  // ---------- what the client builds ----------

  predicate CanonicalLeaves(leaves: seq<Word>) {
    forall i | 0 <= i < |leaves| :: leaves[i] < P
  }

  lemma {:induction false} NodeCanonical(hash: Hash, leaves: seq<Word>, level: nat, i: nat)
    requires CanonicalLeaves(leaves)
    ensures Node(hash, leaves, level, i) < P
  {
  }

  lemma {:induction false} PathCanonical(hash: Hash, leaves: seq<Word>, i: nat, level: nat, height: nat)
    requires CanonicalLeaves(leaves) && level <= height
    ensures forall k | 0 <= k < height - level :: PathFrom(hash, leaves, i, level, height)[k] < P
    decreases height - level
  {
    if level < height {
      NodeCanonical(hash, leaves, level, Sibling(i));
      PathCanonical(hash, leaves, i / 2, level + 1, height);
    }
  }

  /** The path the relayer serves, as field elements. */
  function ServedPath(hash: Hash, leaves: seq<Word>, i: nat, height: nat): (path: seq<Element>)
    requires CanonicalLeaves(leaves)
    ensures path == Path(hash, leaves, i, height)
  {
    PathCanonical(hash, leaves, i, 0, height);
    Path(hash, leaves, i, height)
  }

  /** A dummy gets the all-zero path at index 0; a note gets its path in the served tree. */
  function BuildInput(w: World, leaves: seq<Word>, spend: Spend): Input
    requires CanonicalLeaves(leaves)
  {
    if spend.note.amount == 0 then
      Input(0, spend.key, spend.note.blinding, 0, seq(w.height, _ => 0))
    else
      Input(spend.note.amount, spend.key, spend.note.blinding, spend.index,
            ServedPath(w.hash, leaves, spend.index, w.height))
  }

  function BuildWitness(w: World, leaves: seq<Word>, order: Order): Witness
    requires CanonicalLeaves(leaves)
  {
    Witness(order.mintField, BuildInput(w, leaves, order.spend0), BuildInput(w, leaves, order.spend1),
            order.out0, order.out1)
  }

  function OrderExt(order: Order): Encoding.ExtData {
    Encoding.ExtData(order.recipient, order.extAmount, order.encryptedOutput1, order.encryptedOutput2,
                     order.fee, order.feeAccount, order.mint)
  }

  function BuildProof(w: World, leaves: seq<Word>, order: Order): Proof
    requires CanonicalLeaves(leaves)
  {
    NodeCanonical(w.hash, leaves, w.height, 0);
    ClientAndProgramAgree(order.extAmount, order.fee);
    Proof(order.points,
          Root(w.hash, leaves, w.height),
          PublicAmountField(order.extAmount, order.fee, P),
          Reduce(Encoding.FromLE(w.sha256(Encoding.Borsh(Encoding.ClientFields(OrderExt(order)))))),
          ClientNotes.Nullifier(w.hash, ClientNotes.Owned(order.spend0)).value,
          ClientNotes.Nullifier(w.hash, ClientNotes.Owned(order.spend1)).value,
          ClientNotes.Commitment(w.hash, ClientNotes.Created(order.out0, order.mintField)),
          ClientNotes.Commitment(w.hash, ClientNotes.Created(order.out1, order.mintField)))
  }

  function BuildTransaction(w: World, leaves: seq<Word>, order: Order): Transaction
    requires CanonicalLeaves(leaves)
  {
    Transaction(order.mint, order.signer, order.source, order.recipient, order.feeAccount,
                BuildProof(w, leaves, order), order.extAmount, order.fee,
                order.encryptedOutput1, order.encryptedOutput2)
  }

  // ---------- what makes an order honest ----------

  /** A note the client holds the key to, in the served tree; or a dummy, which stands at index 0. */
  predicate Owns(w: World, leaves: seq<Word>, mint: Element, spend: Spend) {
    && spend.OwnedBy(w.hash) && spend.note.mint == mint
    && if spend.note.amount == 0 then spend.index == 0
       else spend.index < |leaves| && leaves[spend.index] == spend.note.Commitment(w.hash)
  }

  /** The nullifier accounts do not exist yet, under either prefix. */
  predicate Unused(w: World, s: State, spend: Spend) {
    spend.Nullifier(w.hash) !in Words(s)
  }

  /**
   * The fee the client charges itself: the rate it read on a deposit, its withdrawal quote on a withdrawal, any flat
   * fee on a private payment. What the program's rates have risen by since, its margin forgives.
   */
  predicate ClientFee(config: Config, order: Order) {
    if order.extAmount > 0 then
      && order.fee == Percent(order.extAmount, order.depositRate)
      && Fees.MarginForgives(config.depositRate, config.margin, order.depositRate)
    else if order.extAmount < 0 then
      && order.fee == Fees.WithdrawFee(order.quote, Magnitude(order.extAmount))
      && Fees.MarginForgives(config.withdrawalRate, config.margin, order.quote.bps)
    else
      true
  }

  ghost predicate Honest(w: World, asked: iset<Query>, s: State, order: Order) {
    && order.mint in s.pools
    && var pool := s.pools[order.mint];
    && order.seen <= |pool.leaves| < order.seen + w.window
    && |pool.leaves| + 2 <= Pow2(w.height)
    && Owns(w, pool.leaves[..order.seen], order.mintField, order.spend0)
    && Owns(w, pool.leaves[..order.seen], order.mintField, order.spend1)
    && SpendAsked(w.hash, asked, order.spend0) && SpendAsked(w.hash, asked, order.spend1)
    && (order.spend0.note != order.spend1.note || order.spend0.index != order.spend1.index)
    && Unused(w, s, order.spend0) && Unused(w, s, order.spend1)
    && order.out0.amount < AMOUNT_BOUND && order.out1.amount < AMOUNT_BOUND
    && order.spend0.note.amount + order.spend1.note.amount + order.extAmount - order.fee
       == order.out0.amount + order.out1.amount
    && order.extAmount > I64_MIN && (order.extAmount > 0 ==> order.extAmount > order.fee)
    && ClientFee(s.config, order)
  }

  // ---------- the proof exists ----------

  lemma InputBuilt(w: World, leaves: seq<Word>, mint: Element, spend: Spend)
    requires CanonicalLeaves(leaves) && |leaves| <= Pow2(w.height)
    requires Owns(w, leaves, mint, spend)
    ensures BuildInput(w, leaves, spend).Spends(w.hash, mint) == spend
    ensures spend.note.amount == 0 ==>
              BuildInput(w, leaves, spend).index == 0 && forall x | x in BuildInput(w, leaves, spend).path :: x == 0
    ensures InputHolds(w.hash, w.height, Root(w.hash, leaves, w.height), spend.Nullifier(w.hash), mint,
                       BuildInput(w, leaves, spend))
  {
    if spend.note.amount != 0 {
      FoldPath(w.hash, leaves, spend.index, w.height);
    }
  }

  lemma InputsBuilt(w: World, asked: iset<Query>, s: State, order: Order, served: seq<Word>)
    requires Faithful(w.hash, asked) && Honest(w, asked, s, order) && CanonicalLeaves(served)
    requires served == s.pools[order.mint].leaves[..order.seen]
    ensures InputHolds(w.hash, w.height, Root(w.hash, served, w.height), order.spend0.Nullifier(w.hash),
                       order.mintField, BuildInput(w, served, order.spend0))
    ensures InputHolds(w.hash, w.height, Root(w.hash, served, w.height), order.spend1.Nullifier(w.hash),
                       order.mintField, BuildInput(w, served, order.spend1))
    ensures BuildInput(w, served, order.spend0).amount == order.spend0.note.amount
    ensures BuildInput(w, served, order.spend1).amount == order.spend1.note.amount
    ensures order.spend0.Nullifier(w.hash) != order.spend1.Nullifier(w.hash)
    ensures order.out0.amount < AMOUNT_BOUND && order.out1.amount < AMOUNT_BOUND
  {
    hide InputHolds;
    hide SpendAsked;
    hide Fold;
    InputBuilt(w, served, order.mintField, order.spend0);
    InputBuilt(w, served, order.mintField, order.spend1);
    NullifierUnique(w.hash, asked, order.spend0, order.spend1);
  }

  /** The client's public inputs and witness satisfy the circuit. */
  lemma WitnessBuilt(w: World, asked: iset<Query>, s: State, order: Order)
    requires Faithful(w.hash, asked) && Honest(w, asked, s, order)
    requires CanonicalLeaves(s.pools[order.mint].leaves)
    ensures var served := s.pools[order.mint].leaves[..order.seen];
            Satisfies(w.hash, w.height, BuildProof(w, served, order).Publics(), BuildWitness(w, served, order))
  {
    hide Faithful;
    hide SpendAsked;
    hide Owns;
    hide InputHolds;
    hide PublicAmountField;
    hide Node;
    hide ClientFee;
    hide Reduce;
    hide Unused;
    hide BuildInput;
    var served := s.pools[order.mint].leaves[..order.seen];
    InputsBuilt(w, asked, s, order, served);
    AmountsBuilt(w, asked, s, order);
  }

  /** The integer balance the client keeps is the field balance the circuit asks for. */
  lemma AmountsBuilt(w: World, asked: iset<Query>, s: State, order: Order)
    requires Honest(w, asked, s, order)
    ensures Reduce(order.spend0.note.amount + order.spend1.note.amount
                   + PublicAmountField(order.extAmount, order.fee, P))
         == Reduce(order.out0.amount + order.out1.amount)
  {
    hide PublicAmountField;
    hide Owns;
    hide ClientFee;
    hide SpendAsked;
    ClientAndProgramAgree(order.extAmount, order.fee);
    SumsAgree(order.spend0.note.amount + order.spend1.note.amount, PublicAmountField(order.extAmount, order.fee, P),
              order.extAmount - order.fee);
  }

  lemma SumsAgree(a: int, x: Element, y: int)
    requires x == Reduce(y)
    ensures Reduce(a + x) == Reduce(a + y)
  {
    assert y == x + P * (y / P);
    SameResidue(a + x, y / P);
  }

  // ---------- the checks pass ----------

  lemma NodesAreLeaves(w: World, asked: iset<Query>, words: set<Word>, pool: Pool, book: Book)
    requires PoolInv(w, asked, words, pool, book)
    ensures CanonicalLeaves(pool.leaves)
  {
    forall i | 0 <= i < |pool.leaves|
      ensures pool.leaves[i] < P
    {
      assert NoteBacked(w.hash, asked, pool.leaves[i], book.notes[i]);
    }
  }

  /** The root of a tree that was current at most `window - 1` appends ago is still known. */
  lemma ServedRootKnown(w: World, asked: iset<Query>, leaves: seq<Word>, seen: nat)
    requires Faithful(w.hash, asked) && TreesAsked(w.hash, asked, leaves, w.height) && w.height > 0
    requires seen <= |leaves| < seen + w.window
    ensures Recent(w.hash, leaves, w.height, w.window, Root(w.hash, leaves[..seen], w.height))
  {
    assert Asked(asked, TreeNode(w.hash, leaves, seen, w.height, 0));
    assert RootAfter(w.hash, leaves, w.height, seen) == Root(w.hash, leaves[..seen], w.height);
  }

  lemma FreshBuilt(w: World, asked: iset<Query>, s: State, order: Order)
    requires Faithful(w.hash, asked) && Honest(w, asked, s, order)
    requires CanonicalLeaves(s.pools[order.mint].leaves)
    ensures Fresh(s, BuildProof(w, s.pools[order.mint].leaves[..order.seen], order))
  {
    NullifierUnique(w.hash, asked, order.spend0, order.spend1);
  }

  /** The fee the client charges itself is one the program takes. */
  lemma ClientFeePasses(config: Config, order: Order)
    requires ClientFee(config, order) && order.extAmount > I64_MIN
    ensures ValidateFee(order.extAmount, order.fee, config.depositRate, config.withdrawalRate, config.margin).FeeOk?
  {
    if order.extAmount > 0 {
      Fees.DepositFeePasses(order.extAmount, order.depositRate, config.depositRate, config.withdrawalRate,
                            config.margin);
    } else if order.extAmount < 0 {
      Fees.WithdrawFeePasses(order.quote, -order.extAmount, config.depositRate, config.withdrawalRate, config.margin);
    }
  }

  /** Hash, public amount, fee and proof checks, given that the prover's proof verifies and the fee account is right. */
  lemma ProofDataBuilt(w: World, asked: iset<Query>, s: State, pool: Pool, order: Order, tx: Transaction)
    requires Honest(w, asked, s, order) && pool == s.pools[order.mint]
    requires CanonicalLeaves(pool.leaves)
    requires tx == BuildTransaction(w, pool.leaves[..order.seen], order)
    requires w.pairing(tx.proof) && FeeRecipientOk(s.config, pool, tx)
    ensures CheckProofData(w, s.config, pool, tx).Ok?
  {
    hide PublicAmountField;
    hide CheckPublicAmount;
    hide ValidateFee;
    hide ClientFee;
    hide ExtDigest;
    hide Owns;
    ClientFeePasses(s.config, order);
    ProofCanonical(w, pool.leaves[..order.seen], order);
    assert tx.Ext() == OrderExt(order);
    ClientAndProgramAgree(order.extAmount, order.fee);
  }

  /** Client and program hash the external data to the same number. */
  lemma DigestsAgree(w: World, e: Encoding.ExtData)
    ensures Encoding.FromLE(w.sha256(Encoding.Borsh(Encoding.ClientFields(e)))) == ExtDigest(w, e)
  {
    Encoding.LayoutsAgree(e);
  }

  lemma ProofCanonical(w: World, leaves: seq<Word>, order: Order)
    requires CanonicalLeaves(leaves)
    ensures var proof := BuildProof(w, leaves, order);
            && proof.Canonical()
            && proof.publicAmount == PublicAmountField(order.extAmount, order.fee, P)
            && Reduce(proof.extDataHash) == Reduce(ExtDigest(w, OrderExt(order)))
  {
    hide PublicAmountField;
    hide CheckPublicAmount;
    hide Node;
    hide ExtDigest;
    NodeCanonical(w.hash, leaves, w.height, 0);
    ClientAndProgramAgree(order.extAmount, order.fee);
    DigestsAgree(w, OrderExt(order));
    ReduceIdempotent(ExtDigest(w, OrderExt(order)));
  }

  // ---------- the vault can pay ----------

  /** A note whose nullifier is unused is unspent in the books. */
  lemma UnusedIsUnspent(w: World, asked: iset<Query>, words: set<Word>, pool: Pool, book: Book, mint: Element,
      spend: Spend, seen: nat)
    requires Faithful(w.hash, asked) && PoolInv(w, asked, words, pool, book)
    requires seen <= |pool.leaves| && Owns(w, pool.leaves[..seen], mint, spend) && SpendAsked(w.hash, asked, spend)
    requires spend.note.amount != 0 && spend.Nullifier(w.hash) !in words
    ensures spend.index < |book.notes| && book.notes[spend.index] == spend.note && spend.index !in book.spent
  {
    var i := spend.index;
    assert NoteBacked(w.hash, asked, pool.leaves[i], book.notes[i]);
    SameOutput(w.hash, asked, book.notes[i].Opening(), spend.note.Opening());
    if i in book.spent {
      var earlier := Spend(book.notes[i], i, book.spent[i]);
      assert SpendRecorded(w.hash, asked, words, earlier);
      NullifierUnique(w.hash, asked, earlier, spend);
    }
  }

  /** Two different unspent notes are both inside the unspent total. */
  lemma TwoNotesCovered(book: Book, a: Input, b: Input)
    requires IsUnspent(book, a) && IsUnspent(book, b)
    requires a.amount != 0 && b.amount != 0 ==> a.index != b.index
    ensures a.amount + b.amount <= Total(book)
  {
    SpendInput(book.notes, book.spent.Keys, a);
    SpendInput(book.notes, book.spent.Keys + Consumed(a), b);
  }

  /** Payability: whatever an honest order takes out of the pool, the vault holds beyond its reserve. */
  lemma VaultCovers(w: World, asked: iset<Query>, c: Chain, order: Order)
    requires Inv(w, asked, c) && Honest(w, asked, c.state, order)
    ensures var pool := c.state.pools[order.mint];
            Balance(pool.accounts, pool.vault) + order.extAmount >= Reserve(w, pool) + order.fee
  {
    hide ClientFee;
    hide NotesBacked;
    hide SpendsRecorded;
    hide NullifiersInv;
    hide Faithful;
    hide TreesAsked;
    hide SpendAsked;
    var words, pool, book := Words(c.state), c.state.pools[order.mint], c.books[order.mint];
    assert OnePoolInv(w, asked, c, order.mint);
    assert VaultBacked(w, pool, book);
    NodesAreLeaves(w, asked, words, pool, book);
    var a := BuildInput(w, pool.leaves[..order.seen], order.spend0);
    var b := BuildInput(w, pool.leaves[..order.seen], order.spend1);
    if a.amount != 0 {
      UnusedIsUnspent(w, asked, words, pool, book, order.mintField, order.spend0, order.seen);
    }
    if b.amount != 0 {
      UnusedIsUnspent(w, asked, words, pool, book, order.mintField, order.spend1, order.seen);
    }
    TwoNotesCovered(book, a, b);
  }

  /** Nothing but a full u64 can stop a payee from being credited. */
  predicate PayeesFit(pool: Pool, order: Order) {
    && Balance(pool.accounts, order.recipient) + Magnitude(order.extAmount) + order.fee <= U64_MAX
    && Balance(pool.accounts, order.feeAccount) + Magnitude(order.extAmount) + order.fee <= U64_MAX
  }

  /** For SOL the payees have to be other accounts than the vault, or the runtime refuses. */
  predicate PayeesApart(pool: Pool, order: Order) {
    pool.asset.Sol? ==>
      (order.extAmount < 0 ==> order.recipient != pool.vault) && (order.fee > 0 ==> order.feeAccount != pool.vault)
  }

  lemma SolPays(w: World, pool: Pool, order: Order, tx: Transaction)
    requires Carries(order, tx) && order.extAmount <= 0
    requires pool.asset.Sol? && PayeesFit(pool, order) && PayeesApart(pool, order)
    requires order.extAmount < 0 || order.fee > 0 ==>
              Balance(pool.accounts, pool.vault) + tx.extAmount >= w.rent + tx.fee
    ensures MoveSol(w, pool, tx).Ok?
  {
    var all := [tx.signer, pool.vault, tx.recipient, tx.feeAccount];
    DistinctKeys(all);
    var keys := Touched(pool, tx);
    assert all[0] in keys && all[1] in keys && all[2] in keys && all[3] in keys;
    var moved := MoveSolAmount(w, pool, tx).value;
    if tx.extAmount < 0 {
      PaymentBalance(pool.accounts, pool.vault, tx.recipient, Magnitude(tx.extAmount), keys);
    }
    if tx.fee > 0 {
      PaymentBalance(moved, pool.vault, tx.feeAccount, tx.fee, keys);
    }
  }

  lemma TokenPays(w: World, pool: Pool, order: Order, tx: Transaction)
    requires Carries(order, tx) && order.extAmount <= 0
    requires pool.asset.Token? && PayeesFit(pool, order)
    requires Balance(pool.accounts, pool.vault) + tx.extAmount >= tx.fee
    ensures MoveToken(pool, pool.asset.fee, tx).Ok?
  {
    var fee := pool.asset.fee;
    FeeAtMost(fee, Magnitude(tx.extAmount));
    FeeAtMost(fee, tx.fee);
    if tx.extAmount < 0 {
      TokenTransferFlow(fee, pool.accounts, pool.vault, tx.recipient, Magnitude(tx.extAmount));
    }
  }

  // ---------- the theorems ----------

  /** Proof completeness: what the prover makes of a satisfying witness verifies. */
  ghost predicate ProofComplete(w: World, proof: Proof, wit: Witness) {
    Satisfies(w.hash, w.height, proof.Publics(), wit) ==> w.pairing(proof)
  }

  /** All checks up to the movement of funds, and the two appends after it. */
  lemma ChecksPass(w: World, asked: iset<Query>, c: Chain, order: Order, tx: Transaction)
    requires Inv(w, asked, c) && Honest(w, asked, c.state, order)
    requires CanonicalLeaves(c.state.pools[order.mint].leaves)
    requires tx == BuildTransaction(w, c.state.pools[order.mint].leaves[..order.seen], order)
    requires w.pairing(tx.proof) && FeeRecipientOk(c.state.config, c.state.pools[order.mint], tx)
    ensures Fresh(c.state, tx.proof)
    ensures var pool := c.state.pools[order.mint];
            && Recent(w.hash, pool.leaves, w.height, w.window, tx.proof.root)
            && CheckProofData(w, c.state.config, pool, tx).Ok?
            && AppendOutputs(w, pool.leaves, tx.proof).Ok?
  {
    hide Owns;
    hide ClientFee;
    hide NotesBacked;
    hide SpendsRecorded;
    hide CheckProofData;
    hide NullifiersInv;
    hide Faithful;
    var pool := c.state.pools[order.mint];
    assert OnePoolInv(w, asked, c, order.mint);
    FreshBuilt(w, asked, c.state, order);
    ServedRootKnown(w, asked, pool.leaves, order.seen);
    ProofDataBuilt(w, asked, c.state, pool, order, tx);
  }

  lemma Assembled(w: World, s: State, pool: Pool, tx: Transaction)
    requires tx.mint in s.pools && pool == s.pools[tx.mint]
    requires Fresh(s, tx.proof) && CheckAccounts(w, pool, tx).Ok?
    requires Recent(w.hash, pool.leaves, w.height, w.window, tx.proof.root)
    requires CheckProofData(w, s.config, pool, tx).Ok?
    requires MoveFunds(w, pool, tx).Ok? && AppendOutputs(w, pool.leaves, tx.proof).Ok?
    ensures Transact(w, s, tx).Ok?
  {
    assert TransactPool(w, s, pool, tx).Ok?;
  }

  /** The accounts an order names can carry it: for a deposit, the signer has the money and the pool takes that much. */
  predicate FundsReady(pool: Pool, order: Order, tx: Transaction) {
    && PayeesApart(pool, order)
    && if order.extAmount <= 0 then PayeesFit(pool, order)
       else
         && order.extAmount <= pool.maxDeposit
         && Balance(pool.accounts, pool.vault) + order.extAmount <= U64_MAX
         && Balance(pool.accounts, order.feeAccount) + order.fee <= U64_MAX
         && match pool.asset
            case Sol => Balance(pool.accounts, tx.signer) >= order.extAmount
            case Token(fee) => PreFee(fee, order.extAmount) <= Balance(pool.accounts, tx.source)
  }

  /** The transaction carries the order's amounts and accounts. */
  predicate Carries(order: Order, tx: Transaction) {
    && tx.extAmount == order.extAmount && tx.fee == order.fee
    && tx.recipient == order.recipient && tx.feeAccount == order.feeAccount
  }

  lemma SolDeposits(w: World, pool: Pool, order: Order, tx: Transaction)
    requires Carries(order, tx) && order.extAmount > order.fee && tx.signer != pool.vault
    requires pool.asset.Sol? && FundsReady(pool, order, tx)
    requires Balance(pool.accounts, pool.vault) + tx.extAmount >= w.rent + tx.fee
    ensures MoveSol(w, pool, tx).Ok?
  {
    var all := [tx.signer, pool.vault, tx.recipient, tx.feeAccount];
    DistinctKeys(all);
    var keys := Touched(pool, tx);
    assert all[0] in keys && all[1] in keys && all[2] in keys && all[3] in keys;
    var moved := MoveSolAmount(w, pool, tx).value;
    SolAmountFlow(w, pool, tx, keys);
    if tx.fee > 0 {
      PaymentBalance(moved, pool.vault, tx.feeAccount, tx.fee, keys);
    }
  }

  lemma TokenDeposits(w: World, pool: Pool, order: Order, tx: Transaction)
    requires Carries(order, tx) && order.extAmount > order.fee && tx.source != pool.vault
    requires pool.asset.Token? && FundsReady(pool, order, tx)
    ensures MoveToken(pool, pool.asset.fee, tx).Ok?
  {
    var fee := pool.asset.fee;
    PreFeeExact(fee, tx.extAmount);
    FeeAtMost(fee, PreFee(fee, tx.extAmount));
    FeeAtMost(fee, tx.fee);
    TokenTransferFlow(fee, pool.accounts, tx.source, pool.vault, PreFee(fee, tx.extAmount));
  }

  /** The vault, or the signer, can pay; so can the vault pay the fee after a deposit. */
  lemma FundsMove(w: World, asked: iset<Query>, c: Chain, order: Order, tx: Transaction)
    requires Inv(w, asked, c) && Honest(w, asked, c.state, order) && Carries(order, tx)
    requires CheckAccounts(w, c.state.pools[order.mint], tx).Ok? && FundsReady(c.state.pools[order.mint], order, tx)
    ensures MoveFunds(w, c.state.pools[order.mint], tx).Ok?
  {
    var pool := c.state.pools[order.mint];
    hide Owns;
    hide ClientFee;
    hide NotesBacked;
    hide SpendsRecorded;
    hide Faithful;
    hide NullifiersInv;
    VaultCovers(w, asked, c, order);
    assert OnePoolInv(w, asked, c, order.mint);
    match pool.asset {
      case Sol => if order.extAmount <= 0 { SolPays(w, pool, order, tx); } else { SolDeposits(w, pool, order, tx); }
      case Token(_) =>
        if order.extAmount <= 0 { TokenPays(w, pool, order, tx); } else { TokenDeposits(w, pool, order, tx); }
    }
  }

  lemma WitnessLands(w: World, asked: iset<Query>, c: Chain, order: Order, tx: Transaction)
    requires Inv(w, asked, c) && Honest(w, asked, c.state, order)
    requires CanonicalLeaves(c.state.pools[order.mint].leaves)
    requires tx == BuildTransaction(w, c.state.pools[order.mint].leaves[..order.seen], order)
    ensures Satisfies(w.hash, w.height, tx.proof.Publics(),
                      BuildWitness(w, c.state.pools[order.mint].leaves[..order.seen], order))
  {
    WitnessBuilt(w, asked, c.state, order);
  }

  /**
   * Deposits, withdrawals and private payments: in every state that satisfies the invariant an honest order is
   * accepted. The statement its proof makes is true, so proof completeness makes the pairing check pass.
   */
  lemma HonestOrderAccepted(w: World, asked: iset<Query>, c: Chain, order: Order, tx: Transaction)
    requires Inv(w, asked, c) && Honest(w, asked, c.state, order)
    requires CanonicalLeaves(c.state.pools[order.mint].leaves)
    requires tx == BuildTransaction(w, c.state.pools[order.mint].leaves[..order.seen], order)
    requires ProofComplete(w, tx.proof, BuildWitness(w, c.state.pools[order.mint].leaves[..order.seen], order))
    requires FeeWellAddressed(c.state.config, c.state.pools[order.mint], tx)
    requires AccountsPresented(w, c.state.pools[order.mint], tx)
    requires FundsReady(c.state.pools[order.mint], order, tx)
    ensures Transact(w, c.state, tx).Ok?
  {
    hide FeeWellAddressed;
    hide AccountsPresented;
    hide FundsReady;
    hide FeeRecipientOk;
    hide CheckAccounts;
    hide Inv;
    hide MoveFunds;
    hide AppendOutputs;
    hide CheckProofData;
    hide Owns;
    hide ClientFee;
    hide Transact;
    hide BuildProof;
    hide Satisfies;
    hide BuildWitness;
    AccountsExactly(w, c.state.pools[order.mint], tx);
    FeeRecipientExactly(c.state.config, c.state.pools[order.mint], tx);
    WitnessLands(w, asked, c, order, tx);
    ChecksPass(w, asked, c, order, tx);
    FundsMove(w, asked, c, order, tx);
    Assembled(w, c.state, c.state.pools[order.mint], tx);
  }

  /** And it does what it says: its two outputs become the next leaves, in order, and its two inputs are used up. */
  lemma HonestOrderEffects(w: World, s: State, leaves: seq<Word>, order: Order, tx: Transaction)
    requires CanonicalLeaves(leaves) && tx == BuildTransaction(w, leaves, order) && Transact(w, s, tx).Ok?
    ensures order.mint in s.pools && order.mint in Transact(w, s, tx).value.pools
    ensures var pool, after := s.pools[order.mint], Transact(w, s, tx).value;
            && after.pools[order.mint].leaves == pool.leaves
                 + [w.hash(Four(order.out0.amount, order.out0.pubkey, order.out0.blinding, order.mintField)),
                    w.hash(Four(order.out1.amount, order.out1.pubkey, order.out1.blinding, order.mintField))]
            && order.spend0.Nullifier(w.hash) in after.nullifiers0
            && order.spend1.Nullifier(w.hash) in after.nullifiers1
            && forall k ::
                 Balance(after.pools[order.mint].accounts, k) == Balance(pool.accounts, k) + Change(pool, tx, k)
    ensures tx.recipient == order.recipient && tx.extAmount == order.extAmount && tx.fee == order.fee
    ensures tx.feeAccount == order.feeAccount && tx.signer == order.signer && tx.source == order.source
  {
    hide Transact;
    hide Change;
    hide Balance;
    hide Acceptable;
    hide Node;
    AcceptedEffects(w, s, tx);
  }

  /** The tree the client saw is a prefix of the tree its transaction meets. */
  lemma ServedPrefix(w: World, asked: iset<Query>, g: Genesis, steps: seq<Step>, chains: seq<Chain>, j: nat, i: nat,
      m: Key)
    requires IsRun(w, asked, g, steps, chains) && j <= i <= |steps|
    requires m in chains[j].state.pools && m in chains[i].state.pools
    ensures Inv(w, asked, chains[i])
    ensures CanonicalLeaves(chains[i].state.pools[m].leaves)
    ensures |chains[j].state.pools[m].leaves| <= |chains[i].state.pools[m].leaves|
    ensures chains[i].state.pools[m].leaves[..|chains[j].state.pools[m].leaves|] == chains[j].state.pools[m].leaves
  {
    hide GenesisLegal;
    hide Start;
    hide Next;
    hide NullifiersInv;
    hide PoolInv;
    hide BookOf;
    RunInv(w, asked, g, steps, chains, i);
    RunGrows(w, asked, g, steps, chains, j, i);
    assert PoolGrows(chains[j], chains[i], m);
    assert OnePoolInv(w, asked, chains[i], m);
    NodesAreLeaves(w, asked, Words(chains[i].state), chains[i].state.pools[m], chains[i].books[m]);
  }

  /**
   * The same over a run. The client built its transaction from the pool as it stood in state `j`; by state `i` the
   * tree may have grown by up to `window - 1` leaves, and the order still lands.
   */
  lemma HonestOrderLands(w: World, asked: iset<Query>, g: Genesis, steps: seq<Step>, chains: seq<Chain>,
      j: nat, i: nat, order: Order, tx: Transaction)
    requires IsRun(w, asked, g, steps, chains) && j <= i <= |steps|
    requires order.mint in chains[j].state.pools && order.mint in chains[i].state.pools
    requires CanonicalLeaves(chains[j].state.pools[order.mint].leaves)
    requires order.seen == |chains[j].state.pools[order.mint].leaves|
    requires tx == BuildTransaction(w, chains[j].state.pools[order.mint].leaves, order)
    requires Honest(w, asked, chains[i].state, order)
    requires ProofComplete(w, tx.proof, BuildWitness(w, chains[j].state.pools[order.mint].leaves, order))
    requires FeeWellAddressed(chains[i].state.config, chains[i].state.pools[order.mint], tx)
    requires AccountsPresented(w, chains[i].state.pools[order.mint], tx)
    requires FundsReady(chains[i].state.pools[order.mint], order, tx)
    ensures Satisfies(w.hash, w.height, tx.proof.Publics(),
                      BuildWitness(w, chains[j].state.pools[order.mint].leaves, order))
    ensures Transact(w, chains[i].state, tx).Ok?
  {
    hide FundsReady;
    hide FeeWellAddressed;
    hide AccountsPresented;
    hide Transact;
    hide Honest;
    hide BuildTransaction;
    hide BuildWitness;
    hide Satisfies;
    hide Start;
    hide Next;
    hide GenesisLegal;
    hide Inv;
    ServedPrefix(w, asked, g, steps, chains, j, i, order.mint);
    WitnessLands(w, asked, chains[i], order, tx);
    HonestOrderAccepted(w, asked, chains[i], order, tx);
  }
}
