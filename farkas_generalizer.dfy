/** `core_farkas_generalizer`: weaken the disjuncts of the core with Farkas lemmas. */
module Farkas {
  import opened Syntax

  /** `farkas_learner::get_lemma_guesses(A, B, lemmas)`: some lemmas, or none on failure.
      Modelled as a deterministic function of its two formulas. */
  type LemmaOracle = (Expr, Expr) -> Option<seq<Expr>>

  /** The disjuncts after the loop: each one replaced by the conjunction of the lemmas
      guessed for the whole conjunction `b`, when the guess succeeds. */
  function Rewritten(guesses: LemmaOracle, a: Expr, b: Expr, bs: seq<Expr>): (r: seq<Expr>)
    ensures |r| == |bs|
  {
    match guesses(a, b)
    case Some(lemmas) => seq(|bs|, _ => MkAnd(lemmas))
    case None => bs
  }

  /** operator(): `a` is the propagation formula one level below (computed by the caller). */
  method FarkasGeneralize(guesses: LemmaOracle, a: Expr, core: seq<Expr>, usesLevel: bool)
    returns (core': seq<Expr>, usesLevel': bool)
    ensures |core| == 0 ==> core' == core && usesLevel' == usesLevel
    ensures guesses(a, MkAnd(core)).None? ==> core' == core && usesLevel' == usesLevel
    ensures |GetOr(MkAnd(core))| == 0 ==> core' == core && usesLevel' == usesLevel
    ensures |core| > 0 && |GetOr(MkAnd(core))| > 0 && guesses(a, MkAnd(core)).Some? ==>
      usesLevel' && core' == FlattenAnd(MkOr(Rewritten(guesses, a, MkAnd(core), GetOr(MkAnd(core)))))
  {
    core', usesLevel' := core, usesLevel;
    if |core| == 0 {
      return;
    }
    var b := MkAnd(core);
    var bs := GetOr(b);
    var change := false;
    var i := 0;
    while i < |bs|
      invariant i <= |bs| == |GetOr(b)|
      invariant change <==> i > 0 && guesses(a, b).Some?
      invariant forall j | 0 <= j < |bs| ::
        bs[j] == if j < i then Rewritten(guesses, a, b, GetOr(b))[j] else GetOr(b)[j]
    {
      var lemmas := guesses(a, b);
      if lemmas.Some? {
        bs := bs[i := MkAnd(lemmas.value)];
        change := true;
      }
      i := i + 1;
    }
    if change {
      assert bs == Rewritten(guesses, a, b, GetOr(b));
      core' := FlattenAnd(MkOr(bs));
      usesLevel' := true;
    }
  }

  /** Because every call is given the whole conjunction, a change makes the new core
      equivalent to the conjunction of the guessed lemmas. */
  lemma FarkasMeaning(guesses: LemmaOracle, a: Expr, core: seq<Expr>, lemmas: seq<Expr>, env: Env)
    requires |GetOr(MkAnd(core))| > 0 && guesses(a, MkAnd(core)) == Some(lemmas)
    ensures AllHold(FlattenAnd(MkOr(Rewritten(guesses, a, MkAnd(core), GetOr(MkAnd(core))))), env)
        <==> AllHold(lemmas, env)
  {
    var bs := Rewritten(guesses, a, MkAnd(core), GetOr(MkAnd(core)));
    FlattenAndSound(MkOr(bs), env);
    MkOrHolds(bs, env);
    MkAndHolds(lemmas, env);
    assert bs[0] == MkAnd(lemmas);
  }

  /** A core of two or more literals is one disjunct: its own conjunction. */
  lemma ConjunctionIsOneDisjunct(core: seq<Expr>)
    requires |core| > 1
    ensures GetOr(MkAnd(core)) == [And(core)]
  {
  }
}
