/**
 * The books behind one pool, and what an accepted transaction does to them: the opening of every leaf, the leaves
 * spent so far with the key that spent each, and what the vault received without a note in return.
 */
module Books {
  import opened Bn254
  import opened FrontierTree
  import opened JoinSplit
  import opened Ledger
  import opened Membership
  import opened Poseidon
  import opened PublicAmount
  import opened TokenFee
  import opened VaultFlow

  datatype Book = Book(notes: seq<Note>, spent: map<nat, Element>, gifts: nat)

  /** Sum of the amounts of the notes not spent. */
  function Unspent(notes: seq<Note>, spent: set<nat>): nat {
    if notes == [] then 0
    else
      var last := |notes| - 1;
      Unspent(notes[..last], spent) + (if last in spent then 0 else notes[last].amount)
  }

  /** What the pool owes to the holders of its notes. */
  function Total(book: Book): nat {
    Unspent(book.notes, book.spent.Keys)
  }

  lemma UnspentPush(notes: seq<Note>, note: Note, spent: set<nat>)
    ensures Unspent(notes + [note], spent) == Unspent(notes, spent) + (if |notes| in spent then 0 else note.amount)
  {
    assert (notes + [note])[..|notes|] == notes;
  }

  lemma {:induction false} UnspentSpend(notes: seq<Note>, spent: set<nat>, i: nat)
    requires i !in spent
    ensures Unspent(notes, spent) == Unspent(notes, spent + {i}) + (if i < |notes| then notes[i].amount else 0)
  {
    if notes != [] {
      UnspentSpend(notes[..|notes| - 1], spent, i);
    }
  }

  /** Indices an input really spends: a zero-amount input spends nothing. */
  function Consumed(input: Input): set<nat> {
    if input.amount == 0 then {} else {input.index}
  }

  function ConsumedBy(wit: Witness): set<nat> {
    Consumed(wit.in0) + Consumed(wit.in1)
  }

  function MarkSpent(spent: map<nat, Element>, input: Input): map<nat, Element> {
    if input.amount == 0 then spent else spent[input.index := input.key]
  }

  function Record(book: Book, wit: Witness, gift: nat): Book {
    Book(book.notes + [wit.out0.Creates(wit.mint), wit.out1.Creates(wit.mint)],
         MarkSpent(MarkSpent(book.spent, wit.in0), wit.in1),
         book.gifts + gift)
  }

  lemma MarkedKeys(spent: map<nat, Element>, input: Input)
    ensures MarkSpent(spent, input).Keys == spent.Keys + Consumed(input)
  {
  }

  lemma RecordedKeys(book: Book, wit: Witness, gift: nat)
    ensures Record(book, wit, gift).spent.Keys == book.spent.Keys + ConsumedBy(wit)
    ensures Record(book, wit, gift).spent.Keys == book.spent.Keys + Consumed(wit.in0) + Consumed(wit.in1)
  {
    MarkedKeys(book.spent, wit.in0);
    MarkedKeys(MarkSpent(book.spent, wit.in0), wit.in1);
  }

  // ---------- the invariant of one pool ----------

  /** Every leaf is the commitment of its note, and every note's amount passed the range check. */
  ghost predicate NotesBacked(hash: Hash, asked: iset<Query>, leaves: seq<Word>, notes: seq<Note>) {
    |notes| == |leaves| && forall i | 0 <= i < |notes| :: NoteBacked(hash, asked, leaves[i], notes[i])
  }

  ghost predicate NoteBacked(hash: Hash, asked: iset<Query>, leaf: Word, note: Note) {
    Asked(asked, note.Opening()) && note.Commitment(hash) == leaf && note.amount < AMOUNT_BOUND
  }

  /** Every spent leaf was spent by its owner, and its nullifier is recorded. */
  ghost predicate SpendsRecorded(hash: Hash, asked: iset<Query>, words: set<Word>, book: Book) {
    forall i | i in book.spent ::
      i < |book.notes| && SpendRecorded(hash, asked, words, Spend(book.notes[i], i, book.spent[i]))
  }

  ghost predicate SpendRecorded(hash: Hash, asked: iset<Query>, words: set<Word>, spend: Spend) {
    spend.OwnedBy(hash) && SpendAsked(hash, asked, spend) && spend.Nullifier(hash) in words
  }

  /** Solvency: the vault is the reserve, the unspent notes, and the gifts; nothing else, and nothing less. */
  ghost predicate VaultBacked(w: World, pool: Pool, book: Book) {
    Balance(pool.accounts, pool.vault) == Reserve(w, pool) + Total(book) + book.gifts
  }

  ghost predicate PoolInv(w: World, asked: iset<Query>, words: set<Word>, pool: Pool, book: Book) {
    && VaultHeld(w, pool)
    && |pool.leaves| % 2 == 0 && |pool.leaves| <= Pow2(w.height)
    && TreesAsked(w.hash, asked, pool.leaves, w.height)
    && NotesBacked(w.hash, asked, pool.leaves, book.notes)
    && SpendsRecorded(w.hash, asked, words, book)
    && VaultBacked(w, pool, book)
  }

  /** Growing nullifier sets disturb no pool. */
  lemma MoreWords(w: World, asked: iset<Query>, words: set<Word>, more: set<Word>, pool: Pool, book: Book)
    requires PoolInv(w, asked, words, pool, book) && words <= more
    ensures PoolInv(w, asked, more, pool, book)
  {
    forall i | i in book.spent
      ensures i < |book.notes| && SpendRecorded(w.hash, asked, more, Spend(book.notes[i], i, book.spent[i]))
    {
      assert SpendRecorded(w.hash, asked, words, Spend(book.notes[i], i, book.spent[i]));
    }
  }

  // ---------- one input ----------

  /** A non-zero input with a fresh nullifier is an existing, unspent leaf of this pool, with the amount it claims. */
  lemma InputBacked(w: World, asked: iset<Query>, words: set<Word>, pool: Pool, book: Book,
      root: nat, nullifier: nat, mint: Element, input: Input)
    requires Faithful(w.hash, asked) && PoolInv(w, asked, words, pool, book)
    requires Recent(w.hash, pool.leaves, w.height, w.window, root)
    requires InputHolds(w.hash, w.height, root, nullifier, mint, input) && InputAsked(w.hash, asked, mint, input)
    requires input.amount != 0 && nullifier !in words
    ensures input.index < |book.notes| && book.notes[input.index] == input.Spends(w.hash, mint).note
    ensures input.index !in book.spent
  {
    var spend := input.Spends(w.hash, mint);
    MembershipSound(w.hash, asked, pool.leaves, w.height, w.window, root, spend.note, input.path, input.index);
    var i := input.index;
    assert NoteBacked(w.hash, asked, pool.leaves[i], book.notes[i]);
    SameOutput(w.hash, asked, book.notes[i].Opening(), spend.note.Opening());
    if i in book.spent {
      var earlier := Spend(book.notes[i], i, book.spent[i]);
      assert SpendRecorded(w.hash, asked, words, earlier);
      NullifierUnique(w.hash, asked, earlier, spend);
    }
  }

  /** Amounts of inputs were range-checked when their notes were created; the circuit does not repeat the check. */
  lemma InputBounded(w: World, asked: iset<Query>, words: set<Word>, pool: Pool, book: Book,
      root: nat, nullifier: nat, mint: Element, input: Input)
    requires Faithful(w.hash, asked) && PoolInv(w, asked, words, pool, book)
    requires Recent(w.hash, pool.leaves, w.height, w.window, root)
    requires InputHolds(w.hash, w.height, root, nullifier, mint, input) && InputAsked(w.hash, asked, mint, input)
    requires nullifier !in words
    ensures input.amount < AMOUNT_BOUND
  {
    if input.amount != 0 {
      InputBacked(w, asked, words, pool, book, root, nullifier, mint, input);
      assert NoteBacked(w.hash, asked, pool.leaves[input.index], book.notes[input.index]);
    }
  }

  // ---------- one accepted transaction ----------

  /** An accepted transaction together with the witness its proof stands for. */
  ghost predicate Accepted(w: World, asked: iset<Query>, words: set<Word>, pool: Pool, book: Book, tx: Transaction,
      wit: Witness)
  {
    && Faithful(w.hash, asked) && PoolInv(w, asked, words, pool, book)
    && Recent(w.hash, pool.leaves, w.height, w.window, tx.proof.root)
    && tx.proof.nullifier0 !in words && tx.proof.nullifier1 !in words
    && CheckPublicAmount(tx.extAmount, tx.fee, tx.proof.publicAmount)
    && Satisfies(w.hash, w.height, tx.proof.Publics(), wit) && WitnessAsked(w.hash, asked, wit)
  }

  /** No wrap-around: what goes in is what comes out, as integers. */
  lemma AmountsConserved(w: World, asked: iset<Query>, words: set<Word>, pool: Pool, book: Book, tx: Transaction,
      wit: Witness)
    requires Accepted(w, asked, words, pool, book, tx, wit)
    ensures wit.in0.amount + wit.in1.amount + tx.extAmount - tx.fee == wit.out0.amount + wit.out1.amount
  {
    InputBounded(w, asked, words, pool, book, tx.proof.root, tx.proof.nullifier0, wit.mint, wit.in0);
    InputBounded(w, asked, words, pool, book, tx.proof.root, tx.proof.nullifier1, wit.mint, wit.in1);
    CheckMeans(tx.extAmount, tx.fee, tx.proof.publicAmount);
    IntegerConservation(wit.in0.amount, wit.in1.amount, wit.out0.amount, wit.out1.amount,
                        tx.proof.publicAmount, tx.extAmount, tx.fee);
  }

  /** The two inputs never spend one leaf twice. */
  lemma InputsDistinct(w: World, asked: iset<Query>, words: set<Word>, pool: Pool, book: Book, tx: Transaction,
      wit: Witness)
    requires Accepted(w, asked, words, pool, book, tx, wit)
    requires wit.in0.amount != 0 && wit.in1.amount != 0
    ensures wit.in0.index != wit.in1.index
  {
    InputBacked(w, asked, words, pool, book, tx.proof.root, tx.proof.nullifier0, wit.mint, wit.in0);
    InputBacked(w, asked, words, pool, book, tx.proof.root, tx.proof.nullifier1, wit.mint, wit.in1);
    NullifierUnique(w.hash, asked, wit.in0.Spends(w.hash, wit.mint), wit.in1.Spends(w.hash, wit.mint));
  }

  /** `input` is one of the transaction's inputs and `nullifier` the public one that goes with it. */
  predicate IsInput(tx: Transaction, wit: Witness, input: Input, nullifier: nat) {
    (input == wit.in0 && nullifier == tx.proof.nullifier0) || (input == wit.in1 && nullifier == tx.proof.nullifier1)
  }

  /** Only the holder of a note's key spends it, and what is spent and what is created are of one mint field. */
  lemma OwnerSpends(w: World, asked: iset<Query>, words: set<Word>, pool: Pool, book: Book, tx: Transaction,
      wit: Witness, input: Input, nullifier: nat)
    requires Accepted(w, asked, words, pool, book, tx, wit) && IsInput(tx, wit, input, nullifier) && input.amount != 0
    ensures input.index < |book.notes|
    ensures var note := book.notes[input.index];
            && note.pubkey == w.hash(One(input.key)) && note.amount == input.amount && note.blinding == input.blinding
            && note.mint == wit.mint
    ensures tx.proof.commitment0
         == w.hash(Four(wit.out0.amount, wit.out0.pubkey, wit.out0.blinding, book.notes[input.index].mint))
    ensures tx.proof.commitment1
         == w.hash(Four(wit.out1.amount, wit.out1.pubkey, wit.out1.blinding, book.notes[input.index].mint))
  {
    InputBacked(w, asked, words, pool, book, tx.proof.root, nullifier, wit.mint, input);
  }

  /** What an input consumes is an unspent note of the amount it claims. */
  predicate IsUnspent(book: Book, input: Input) {
    input.amount != 0 ==>
      input.index < |book.notes| && book.notes[input.index].amount == input.amount && input.index !in book.spent
  }

  lemma ConsumesUnspent(w: World, asked: iset<Query>, words: set<Word>, pool: Pool, book: Book, tx: Transaction,
      wit: Witness, input: Input, nullifier: nat)
    requires Accepted(w, asked, words, pool, book, tx, wit) && IsInput(tx, wit, input, nullifier)
    ensures IsUnspent(book, input)
  {
    if input.amount != 0 {
      InputBacked(w, asked, words, pool, book, tx.proof.root, nullifier, wit.mint, input);
    }
  }

  /** Recording a witness takes its inputs out of the unspent total and puts its outputs in. */
  lemma UnspentRecord(book: Book, wit: Witness, gift: nat)
    requires forall i | i in book.spent.Keys :: i < |book.notes|
    requires IsUnspent(book, wit.in0) && IsUnspent(book, wit.in1)
    requires wit.in0.amount != 0 && wit.in1.amount != 0 ==> wit.in0.index != wit.in1.index
    ensures Total(Record(book, wit, gift)) + wit.in0.amount + wit.in1.amount
         == Total(book) + wit.out0.amount + wit.out1.amount
  {
    var after := Record(book, wit, gift);
    var note0, note1 := wit.out0.Creates(wit.mint), wit.out1.Creates(wit.mint);
    RecordedKeys(book, wit, gift);
    SpendInput(book.notes, book.spent.Keys, wit.in0);
    SpendInput(book.notes, book.spent.Keys + Consumed(wit.in0), wit.in1);
    assert |book.notes| !in after.spent.Keys && |book.notes| + 1 !in after.spent.Keys;
    UnspentPush(book.notes, note0, after.spent.Keys);
    UnspentPush(book.notes + [note0], note1, after.spent.Keys);
    assert after.notes == book.notes + [note0] + [note1];
  }

  lemma SpendInput(notes: seq<Note>, spent: set<nat>, input: Input)
    requires input.amount != 0 ==>
              input.index < |notes| && notes[input.index].amount == input.amount && input.index !in spent
    ensures Unspent(notes, spent + Consumed(input)) + input.amount == Unspent(notes, spent)
  {
    if input.amount != 0 {
      UnspentSpend(notes, spent, input.index);
    } else {
      assert spent + Consumed(input) == spent;
    }
  }

  /** The unspent total changes by exactly what crossed the pool's boundary. */
  lemma UnspentMoves(w: World, asked: iset<Query>, words: set<Word>, pool: Pool, book: Book, tx: Transaction,
      wit: Witness, gift: nat)
    requires Accepted(w, asked, words, pool, book, tx, wit)
    ensures Total(Record(book, wit, gift)) == Total(book) + tx.extAmount - tx.fee
  {
    ConsumesUnspent(w, asked, words, pool, book, tx, wit, wit.in0, tx.proof.nullifier0);
    ConsumesUnspent(w, asked, words, pool, book, tx, wit, wit.in1, tx.proof.nullifier1);
    SpendsAreEarlier(w, asked, words, pool, book);
    if wit.in0.amount != 0 && wit.in1.amount != 0 {
      InputsDistinct(w, asked, words, pool, book, tx, wit);
    }
    UnspentRecord(book, wit, gift);
    AmountsConserved(w, asked, words, pool, book, tx, wit);
  }

  lemma SpendsAreEarlier(w: World, asked: iset<Query>, words: set<Word>, pool: Pool, book: Book)
    requires PoolInv(w, asked, words, pool, book)
    ensures forall i | i in book.spent.Keys :: i < |book.notes|
  {
    forall i | i in book.spent
      ensures i < |book.notes|
    {
      assert SpendRecorded(w.hash, asked, words, Spend(book.notes[i], i, book.spent[i]));
    }
  }

  /** Notes of the new leaves. */
  lemma NotesRecorded(w: World, asked: iset<Query>, words: set<Word>, pool: Pool, book: Book, tx: Transaction,
      wit: Witness, gift: nat)
    requires Accepted(w, asked, words, pool, book, tx, wit)
    ensures NotesBacked(w.hash, asked, pool.leaves + [tx.proof.commitment0, tx.proof.commitment1],
                        Record(book, wit, gift).notes)
  {
    var leaves, notes := pool.leaves + [tx.proof.commitment0, tx.proof.commitment1], Record(book, wit, gift).notes;
    forall i | 0 <= i < |notes|
      ensures NoteBacked(w.hash, asked, leaves[i], notes[i])
    {
      if i < |book.notes| {
        assert NoteBacked(w.hash, asked, pool.leaves[i], book.notes[i]);
      }
    }
  }

  lemma NewSpendsRecorded(w: World, asked: iset<Query>, words: set<Word>, pool: Pool, book: Book, tx: Transaction,
      wit: Witness, gift: nat)
    requires Accepted(w, asked, words, pool, book, tx, wit)
    ensures SpendsRecorded(w.hash, asked, words + {tx.proof.nullifier0, tx.proof.nullifier1}, Record(book, wit, gift))
  {
    hide SpendAsked;
    hide FoldAsked;
    hide VaultHeld;
    hide TreesAsked;
    hide NotesBacked;
    hide Recent;
    hide CheckPublicAmount;
    var after, more := Record(book, wit, gift), words + {tx.proof.nullifier0, tx.proof.nullifier1};
    if wit.in0.amount != 0 {
      InputBacked(w, asked, words, pool, book, tx.proof.root, tx.proof.nullifier0, wit.mint, wit.in0);
    }
    if wit.in1.amount != 0 {
      InputBacked(w, asked, words, pool, book, tx.proof.root, tx.proof.nullifier1, wit.mint, wit.in1);
    }
    if wit.in0.amount != 0 && wit.in1.amount != 0 {
      InputsDistinct(w, asked, words, pool, book, tx, wit);
    }
    forall i | i in after.spent
      ensures i < |after.notes| && SpendRecorded(w.hash, asked, more, Spend(after.notes[i], i, after.spent[i]))
    {
      if wit.in1.amount != 0 && i == wit.in1.index {
        assert Spend(after.notes[i], i, after.spent[i]) == wit.in1.Spends(w.hash, wit.mint);
      } else if wit.in0.amount != 0 && i == wit.in0.index {
        assert Spend(after.notes[i], i, after.spent[i]) == wit.in0.Spends(w.hash, wit.mint);
      } else {
        assert SpendRecorded(w.hash, asked, words, Spend(book.notes[i], i, book.spent[i]));
      }
    }
  }

  /** Conservation over one accepted transaction, vault and books together. */
  lemma VaultStaysBacked(w: World, asked: iset<Query>, words: set<Word>, pool: Pool, book: Book,
      tx: Transaction, wit: Witness, after: Pool)
    requires Accepted(w, asked, words, pool, book, tx, wit) && AcceptsPool(w, pool, tx, after)
    ensures VaultBacked(w, after, Record(book, wit, SelfPaid(pool, tx)))
  {
    UnspentMoves(w, asked, words, pool, book, tx, wit, SelfPaid(pool, tx));
  }

  /** An accepted transaction keeps the invariant of its pool. */
  lemma AcceptedKeeps(w: World, asked: iset<Query>, words: set<Word>, pool: Pool, book: Book,
      tx: Transaction, wit: Witness, after: Pool)
    requires Accepted(w, asked, words, pool, book, tx, wit) && AcceptsPool(w, pool, tx, after)
    requires TreesAsked(w.hash, asked, after.leaves, w.height)
    ensures PoolInv(w, asked, words + {tx.proof.nullifier0, tx.proof.nullifier1}, after,
                    Record(book, wit, SelfPaid(pool, tx)))
  {
    var gift := SelfPaid(pool, tx);
    var more, book' := words + {tx.proof.nullifier0, tx.proof.nullifier1}, Record(book, wit, gift);
    VaultStaysBacked(w, asked, words, pool, book, tx, wit, after);
    NotesRecorded(w, asked, words, pool, book, tx, wit, gift);
    NewSpendsRecorded(w, asked, words, pool, book, tx, wit, gift);
    Assemble(w, asked, more, pool, after, book');
  }

  lemma Assemble(w: World, asked: iset<Query>, words: set<Word>, pool: Pool, after: Pool, book: Book)
    requires |pool.leaves| % 2 == 0 && |after.leaves| == |pool.leaves| + 2 <= Pow2(w.height)
    requires VaultHeld(w, after)
    requires TreesAsked(w.hash, asked, after.leaves, w.height)
    requires NotesBacked(w.hash, asked, after.leaves, book.notes)
    requires SpendsRecorded(w.hash, asked, words, book)
    requires VaultBacked(w, after, book)
    ensures PoolInv(w, asked, words, after, book)
  {
  }
}
