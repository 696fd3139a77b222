/** Notes as the client's own code computes them, beside the circuit's. */
module ClientNotes {
  import opened Bn254
  import opened JoinSplit
  import opened Poseidon
  import opened TokenFee

  /** `privkey` is there for notes the client owns; `index` is negative until the note is in the tree. */
  datatype Utxo = Utxo(
    amount: Element, blinding: Element, pubkey: Element, privkey: Option<Element>, mint: Element, index: int)

  function Commitment(hash: Hash, u: Utxo): Element {
    hash(Four(u.amount, u.pubkey, u.blinding, u.mint))
  }

  function TreeIndex(u: Utxo): nat {
    if u.index < 0 then 0 else u.index
  }

  /** A note the client does not own has no nullifier. */
  function Nullifier(hash: Hash, u: Utxo): Option<Element> {
    match u.privkey
    case None => None
    case Some(key) =>
      var c := Commitment(hash, u);
      var sig := hash(Three(key, c, TreeIndex(u)));
      Some(hash(Three(c, TreeIndex(u), sig)))
  }

  /** The client's commitment is the one the circuit demands of an output. */
  lemma CommitmentsAgree(hash: Hash, u: Utxo, c: nat)
    ensures OutputHolds(hash, c, u.mint, Output(u.amount, u.pubkey, u.blinding))
       <==> c == Commitment(hash, u) && u.amount < AMOUNT_BOUND
  {
  }

  /** The client's nullifier is the one the circuit demands of an input, whatever path goes with it. */
  lemma NullifiersAgree(hash: Hash, u: Utxo, levels: nat, root: nat, n: nat, path: seq<Element>)
    requires u.privkey.Some? && u.pubkey == hash(One(u.privkey.value))
    ensures Nullifier(hash, u).Some?
    ensures var input := Input(u.amount, u.privkey.value, u.blinding, TreeIndex(u), path);
            InputHolds(hash, levels, root, n, u.mint, input) ==> Nullifier(hash, u) == Some(n)
  {
  }

  /** A spend, as the client holds it. */
  function Owned(spend: Spend): (u: Utxo)
    ensures u.privkey.Some?
  {
    Utxo(spend.note.amount, spend.note.blinding, spend.note.pubkey, Some(spend.key), spend.note.mint, spend.index)
  }

  /** An output, as the client makes it: its place in the tree is not known yet. */
  function Created(out: Output, mint: Element): Utxo {
    Utxo(out.amount, out.blinding, out.pubkey, None, mint, -1)
  }
}
