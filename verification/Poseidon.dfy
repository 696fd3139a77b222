/** Poseidon as an abstract function of its inputs: one hash per arity, all with canonical outputs. */
module Poseidon {
  import opened Bn254

  datatype Query =
    | One(a: nat)
    | Two(a: nat, b: nat)
    | Three(a: nat, b: nat, c: nat)
    | Four(a: nat, b: nat, c: nat, d: nat)
  {
    function Arity(): nat {
      match this
      case One(_) => 1
      case Two(_, _) => 2
      case Three(_, _, _) => 3
      case Four(_, _, _, _) => 4
    }
  }

  type Hash = Query -> Element

  /** `q` is one of the hash evaluations under consideration. */
  ghost predicate Asked(asked: iset<Query>, q: Query) {
    q in asked
  }

  /**
   * No collision and no zero output among the evaluations in `asked`. Poseidon compresses, so this can never be
   * demanded of all inputs; it is demanded only of the evaluations one run really makes.
   */
  ghost predicate Faithful(hash: Hash, asked: iset<Query>) {
    && (forall q, r {:trigger Asked(asked, q), Asked(asked, r)} ::
          Asked(asked, q) && Asked(asked, r) && q.Arity() == r.Arity() && hash(q) == hash(r) ==> q == r)
    && (forall q {:trigger Asked(asked, q)} :: Asked(asked, q) ==> hash(q) != 0)
  }

  /** Two different inputs of the same arity with the same hash. */
  predicate Collides(hash: Hash, q: Query, r: Query) {
    q != r && q.Arity() == r.Arity() && hash(q) == hash(r)
  }
}
