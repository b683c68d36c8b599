/** `core_bool_inductive_generalizer`: drop literals one at a time while the core stays
    relatively inductive. */
module BoolInductive {
  import opened Syntax
  import opened Oracles

  /** The loop variables of the source: the core vector, the level flag, the cursor `i`,
      `num_failures` and the `processed` list. */
  datatype Cursor = Cursor(core: seq<Expr>, usesLevel: bool, i: nat, failures: nat, processed: seq<Expr>)

  /** The loop guard; a failure limit of 0 means unlimited. */
  predicate Continues(s: Cursor, limit: nat) {
    s.i < |s.core| && 1 < |s.core| && (limit == 0 || s.failures <= limit)
  }

  /** The first position at or after `from` whose literal has not been processed. */
  function FirstUnprocessed(core: seq<Expr>, processed: seq<Expr>, from: nat): (r: nat)
    requires from <= |core|
    ensures from <= r <= |core|
    ensures forall j | from <= j < r :: core[j] in processed
    ensures r < |core| ==> core[r] !in processed
    decreases |core| - from
  {
    if from < |core| && core[from] in processed then FirstUnprocessed(core, processed, from + 1) else from
  }

  /** One iteration: put `true` at the cursor and ask the oracle. */
  function Step(check: InductiveOracle, level: nat, s: Cursor): (t: Cursor)
    requires s.i < |s.core|
    ensures check(level, s.core[s.i := True]).Rejected? ==>
      t.core == s.core && t.usesLevel == s.usesLevel && t.i == s.i + 1 &&
      t.failures == s.failures + 1 && t.processed == s.processed + [s.core[s.i]]
    ensures check(level, s.core[s.i := True]).Accepted? ==>
      Accepted(t.core, t.usesLevel) == check(level, s.core[s.i := True]) &&
      t.failures == 0 && t.processed == s.processed &&
      t.i <= |t.core| && (forall j | 0 <= j < t.i :: t.core[j] in s.processed) &&
      (t.i < |t.core| ==> t.core[t.i] !in s.processed)
    ensures ShrinkingOracle(check) ==> |t.core| < |s.core| || (|t.core| == |s.core| && t.i == s.i + 1)
  {
    match check(level, s.core[s.i := True])
    case Accepted(c, u) => Cursor(c, u, FirstUnprocessed(c, s.processed, 0), 0, s.processed)
    case Rejected => Cursor(s.core, s.usesLevel, s.i + 1, s.failures + 1, s.processed + [s.core[s.i]])
  }

  /** The whole cursor loop, from a given state until the guard fails. */
  function Run(check: InductiveOracle, level: nat, limit: nat, s: Cursor): (t: Cursor)
    requires ShrinkingOracle(check)
    decreases |s.core|, |s.core| - s.i
  {
    if Continues(s, limit) then Run(check, level, limit, Step(check, level, s)) else s
  }

  function Start(core: seq<Expr>, usesLevel: bool): Cursor {
    Cursor(core, usesLevel, 0, 0, [])
  }

  /** The generalizer's result on a core: the final core and flag of the loop. */
  function Minimize(check: InductiveOracle, level: nat, limit: nat, core: seq<Expr>, usesLevel: bool): (seq<Expr>, bool)
    requires ShrinkingOracle(check)
  {
    var t := Run(check, level, limit, Start(core, usesLevel));
    (t.core, t.usesLevel)
  }

  /** The loop stops only when the source's guard is false. */
  lemma {:induction false} RunStops(check: InductiveOracle, level: nat, limit: nat, s: Cursor)
    requires ShrinkingOracle(check)
    ensures !Continues(Run(check, level, limit, s), limit)
    decreases |s.core|, |s.core| - s.i
  {
    if Continues(s, limit) {
      RunStops(check, level, limit, Step(check, level, s));
    }
  }

  /** The core never grows, and only ever holds literals of the input or `true`. */
  lemma {:induction false} RunShrinks(check: InductiveOracle, level: nat, limit: nat, s: Cursor)
    requires ShrinkingOracle(check)
    ensures |Run(check, level, limit, s).core| <= |s.core|
    ensures forall x | x in Run(check, level, limit, s).core :: x in s.core || x == True
    decreases |s.core|, |s.core| - s.i
  {
    if Continues(s, limit) {
      var t := Step(check, level, s);
      RunShrinks(check, level, limit, t);
      var q := s.core[s.i := True];
      if check(level, q).Accepted? {
        forall x | x in t.core ensures x in s.core || x == True {
          assert x in q;
          var j :| 0 <= j < |q| && q[j] == x;
          if j != s.i { assert s.core[j] == x; }
        }
      }
    }
  }

  /** When the oracle accepts nothing, the core and the flag come back untouched. */
  lemma {:induction false} RunNoOp(check: InductiveOracle, level: nat, limit: nat, s: Cursor)
    requires ShrinkingOracle(check)
    requires forall q: seq<Expr> :: check(level, q) == Rejected
    ensures Run(check, level, limit, s).core == s.core
    ensures Run(check, level, limit, s).usesLevel == s.usesLevel
    decreases |s.core|, |s.core| - s.i
  {
    if Continues(s, limit) {
      assert check(level, s.core[s.i := True]) == Rejected;
      RunNoOp(check, level, limit, Step(check, level, s));
    }
  }

  /** Soundness: a changed result is an answer the oracle accepted for some query at this level. */
  lemma {:induction false} RunSound(check: InductiveOracle, level: nat, limit: nat, s: Cursor)
    requires ShrinkingOracle(check)
    ensures var t := Run(check, level, limit, s);
      (t.core == s.core && t.usesLevel == s.usesLevel) || AcceptedAt(check, level, t.core, t.usesLevel)
    decreases |s.core|, |s.core| - s.i
  {
    if Continues(s, limit) {
      var t := Step(check, level, s);
      var q := s.core[s.i := True];
      if check(level, q).Accepted? {
        assert check(level, q) == Accepted(t.core, t.usesLevel);
        RunAccepted(check, level, limit, t);
      } else {
        RunSound(check, level, limit, t);
      }
    }
  }

  /** Once the state holds an accepted core, so does every later state. */
  lemma {:induction false} RunAccepted(check: InductiveOracle, level: nat, limit: nat, s: Cursor)
    requires ShrinkingOracle(check)
    requires AcceptedAt(check, level, s.core, s.usesLevel)
    ensures var t := Run(check, level, limit, s); AcceptedAt(check, level, t.core, t.usesLevel)
    decreases |s.core|, |s.core| - s.i
  {
    if Continues(s, limit) {
      var t := Step(check, level, s);
      var q := s.core[s.i := True];
      if check(level, q).Accepted? {
        assert check(level, q) == Accepted(t.core, t.usesLevel);
      }
      RunAccepted(check, level, limit, t);
    }
  }

  /** The loop of operator(): rewrites the core in place, query by query. */
  method Generalize(check: InductiveOracle, level: nat, limit: nat, core: seq<Expr>, usesLevel: bool)
    returns (core': seq<Expr>, usesLevel': bool)
    requires ShrinkingOracle(check)
    ensures (core', usesLevel') == Minimize(check, level, limit, core, usesLevel)
    ensures |core| <= 1 ==> core' == core && usesLevel' == usesLevel
    ensures |core'| <= |core|
    ensures forall x | x in core' :: x in core || x == True
    ensures (core' == core && usesLevel' == usesLevel) || AcceptedAt(check, level, core', usesLevel')
  {
    RunShrinks(check, level, limit, Start(core, usesLevel));
    RunSound(check, level, limit, Start(core, usesLevel));
    core', usesLevel' := core, usesLevel;
    if |core| <= 1 {
      return;
    }
    var failures: nat, i: nat := 0, 0;
    var processed: seq<Expr> := [];
    while i < |core'| && 1 < |core'| && (limit == 0 || failures <= limit)
      invariant i <= |core'|
      invariant Run(check, level, limit, Cursor(core', usesLevel', i, failures, processed))
             == Run(check, level, limit, Start(core, usesLevel))
      decreases |core'|, |core'| - i
    {
      core', usesLevel', i, failures, processed := Advance(check, level, core', usesLevel', i, failures, processed);
    }
  }

  /** One round of that loop: the literal at `i` is replaced by `true`; an accepted query
      restarts the cursor at the first unprocessed literal of the new core, a rejected one
      restores the literal and counts a failure. */
  method Advance(check: InductiveOracle, level: nat, core: seq<Expr>, usesLevel: bool, i: nat, failures: nat, processed: seq<Expr>)
    returns (core': seq<Expr>, usesLevel': bool, i': nat, failures': nat, processed': seq<Expr>)
    requires i < |core|
    ensures Cursor(core', usesLevel', i', failures', processed') == Step(check, level, Cursor(core, usesLevel, i, failures, processed))
  {
    var lit := core[i];
    core' := core[i := True];
    var answer := check(level, core');
    if answer.Accepted? {
      core', usesLevel' := answer.core, answer.usesLevel;
      failures', processed' := 0, processed;
      i' := 0;
      while i' < |core'| && core'[i'] in processed
        invariant i' <= FirstUnprocessed(core', processed, 0)
      {
        i' := i' + 1;
      }
    } else {
      core', usesLevel' := core'[i := lit], usesLevel;
      processed' := processed + [lit];
      failures' := failures + 1;
      i' := i + 1;
    }
  }

  /** An oracle that accepts dropping `a`, then dropping `b`, and nothing else. */
  function ScenarioOracle(b: Expr, c: Expr): InductiveOracle {
    (level: nat, q: seq<Expr>) =>
      if q == [True, b, c] then Accepted([b, c], false)
      else if q == [True, c] then Accepted([c], false)
      else Rejected
  }

  /** The core {a, b, c} minimizes to {c} under that oracle; the loop stops at size 1. */
  lemma BoolScenario(a: Expr, b: Expr, c: Expr, level: nat, limit: nat, u: bool)
    ensures ShrinkingOracle(ScenarioOracle(b, c))
    ensures Minimize(ScenarioOracle(b, c), level, limit, [a, b, c], u) == ([c], false)
  {
    var check := ScenarioOracle(b, c);
    var s0 := Start([a, b, c], u);
    assert s0.core[0 := True] == [True, b, c];
    var s1 := Step(check, level, s0);
    assert s1 == Cursor([b, c], false, 0, 0, []);
    assert s1.core[0 := True] == [True, c];
    var s2 := Step(check, level, s1);
    assert s2 == Cursor([c], false, 0, 0, []);
    assert Run(check, level, limit, s2) == s2;
    assert Run(check, level, limit, s1) == Run(check, level, limit, s2);
    assert Run(check, level, limit, s0) == Run(check, level, limit, s1);
  }
}
