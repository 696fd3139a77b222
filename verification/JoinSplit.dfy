/** The circuit's relation between public inputs and a private witness, and what it proves about notes. */
module JoinSplit {
  import opened Bn254
  import opened MerkleSpec
  import opened Poseidon

  datatype Note = Note(amount: Element, pubkey: Element, blinding: Element, mint: Element) {
    /** The hash evaluation behind the commitment. */
    function Opening(): Query {
      Four(amount, pubkey, blinding, mint)
    }

    function Commitment(hash: Hash): Element {
      hash(Opening())
    }
  }

  /** A note being spent: who spends it and from which leaf. */
  datatype Spend = Spend(note: Note, index: nat, key: Element) {
    function SignatureQuery(hash: Hash): Query {
      Three(key, note.Commitment(hash), index)
    }

    function NullifierQuery(hash: Hash): Query {
      Three(note.Commitment(hash), index, hash(SignatureQuery(hash)))
    }

    function Nullifier(hash: Hash): Element {
      hash(NullifierQuery(hash))
    }

    predicate OwnedBy(hash: Hash) {
      note.pubkey == hash(One(key))
    }
  }

  datatype Input = Input(amount: Element, key: Element, blinding: Element, index: nat, path: seq<Element>) {
    function Spends(hash: Hash, mint: Element): Spend {
      Spend(Note(amount, hash(One(key)), blinding, mint), index, key)
    }
  }

  datatype Output = Output(amount: Element, pubkey: Element, blinding: Element) {
    function Creates(mint: Element): Note {
      Note(amount, pubkey, blinding, mint)
    }
  }

  datatype Publics = Publics(
    root: nat, publicAmount: nat, extDataHash: nat,
    nullifier0: nat, nullifier1: nat, commitment0: nat, commitment1: nat)

  /** The mint is a private input: nothing public ties it to the pool. */
  datatype Witness = Witness(mint: Element, in0: Input, in1: Input, out0: Output, out1: Output)

  /** Constraints on one input. Membership is enforced only for a non-zero amount. */
  predicate InputHolds(hash: Hash, levels: nat, root: nat, nullifier: nat, mint: Element, input: Input) {
    var spend := input.Spends(hash, mint);
    && nullifier == spend.Nullifier(hash)
    && |input.path| == levels
    && input.index < Pow2(levels)
    && (input.amount != 0 ==> Fold(hash, spend.note.Commitment(hash), input.path, input.index) == root)
  }

  predicate OutputHolds(hash: Hash, commitment: nat, mint: Element, output: Output) {
    commitment == output.Creates(mint).Commitment(hash) && output.amount < AMOUNT_BOUND
  }

  /** Transaction(levels, 2, 2). */
  predicate Satisfies(hash: Hash, levels: nat, pub: Publics, wit: Witness) {
    && InputHolds(hash, levels, pub.root, pub.nullifier0, wit.mint, wit.in0)
    && InputHolds(hash, levels, pub.root, pub.nullifier1, wit.mint, wit.in1)
    && OutputHolds(hash, pub.commitment0, wit.mint, wit.out0)
    && OutputHolds(hash, pub.commitment1, wit.mint, wit.out1)
    && pub.nullifier0 != pub.nullifier1
    && Reduce(wit.in0.amount + wit.in1.amount + pub.publicAmount) == Reduce(wit.out0.amount + wit.out1.amount)
  }

  // ---------- the evaluations a witness makes ----------

  ghost predicate SpendAsked(hash: Hash, asked: iset<Query>, spend: Spend) {
    && Asked(asked, One(spend.key))
    && Asked(asked, spend.note.Opening())
    && Asked(asked, spend.SignatureQuery(hash))
    && Asked(asked, spend.NullifierQuery(hash))
  }

  ghost predicate FoldAsked(hash: Hash, asked: iset<Query>, leaf: nat, path: seq<nat>, index: nat) {
    forall k | 0 <= k < |path| :: Asked(asked, FoldQuery(hash, leaf, path, index, k))
  }

  ghost predicate InputAsked(hash: Hash, asked: iset<Query>, mint: Element, input: Input) {
    var spend := input.Spends(hash, mint);
    SpendAsked(hash, asked, spend) && FoldAsked(hash, asked, spend.note.Commitment(hash), input.path, input.index)
  }

  ghost predicate WitnessAsked(hash: Hash, asked: iset<Query>, wit: Witness) {
    && InputAsked(hash, asked, wit.mint, wit.in0)
    && InputAsked(hash, asked, wit.mint, wit.in1)
    && Asked(asked, wit.out0.Creates(wit.mint).Opening())
    && Asked(asked, wit.out1.Creates(wit.mint).Opening())
  }

  // ---------- nullifiers ----------

  lemma SameOutput(hash: Hash, asked: iset<Query>, q: Query, r: Query)
    requires Faithful(hash, asked) && Asked(asked, q) && Asked(asked, r)
    requires q.Arity() == r.Arity() && hash(q) == hash(r)
    ensures q == r
  {
  }

  lemma NonZero(hash: Hash, asked: iset<Query>, q: Query)
    requires Faithful(hash, asked) && Asked(asked, q)
    ensures hash(q) != 0
  {
  }

  /** A leaf has exactly one nullifier, and it belongs to no other note, position or key. */
  lemma NullifierUnique(hash: Hash, asked: iset<Query>, a: Spend, b: Spend)
    requires Faithful(hash, asked) && SpendAsked(hash, asked, a) && SpendAsked(hash, asked, b)
    requires a.OwnedBy(hash) && b.OwnedBy(hash)
    ensures a.Nullifier(hash) == b.Nullifier(hash) <==> a.note == b.note && a.index == b.index
  {
    if a.Nullifier(hash) == b.Nullifier(hash) {
      SameOutput(hash, asked, a.NullifierQuery(hash), b.NullifierQuery(hash));
      SameOutput(hash, asked, a.note.Opening(), b.note.Opening());
    }
    if a.note == b.note && a.index == b.index {
      SameOutput(hash, asked, One(a.key), One(b.key));
    }
  }
}
