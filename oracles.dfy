/** The inductiveness oracle every generalizer consults: a predicate transformer's
    `check_inductive(level, lits, &uses_level)`. Its body is not part of this model. */
module Oracles {
  import opened Syntax

  /** On success the oracle replaces the literal vector it was given by the unsat core it
      found and reports whether that core depends on the level; on failure it touches
      neither the vector nor the flag. */
  datatype Answer = Rejected | Accepted(core: seq<Expr>, usesLevel: bool)

  /** `check_inductive` of one predicate transformer, as a function of the level and the query. */
  type InductiveOracle = (nat, seq<Expr>) -> Answer

  /** The contract the cursor loop of the Boolean generalizer relies on for termination:
      an accepted core is a strictly shorter selection of the queried literals. */
  ghost predicate ShrinkingOracle(check: InductiveOracle) {
    forall level: nat, q: seq<Expr> | check(level, q).Accepted? ::
      |check(level, q).core| < |q| && forall x | x in check(level, q).core :: x in q
  }

  /** The pair (c, u) is something the oracle reported for some query at this level. */
  ghost predicate AcceptedAt(check: InductiveOracle, level: nat, c: seq<Expr>, u: bool) {
    exists q: seq<Expr> :: check(level, q) == Accepted(c, u)
  }
}
