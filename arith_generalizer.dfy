/** `core_arith_inductive_generalizer`: for each lower/upper bound pair of equal
    magnitude, try a core where the pair becomes a parity guess and the other literals
    refer to the term instead of the numeral. */
module ArithInductive {
  import opened Syntax
  import opened Oracles
  import opened ArithBounds

  // ---------------------------------------------------------------
  // substitute_alias

  /** Under any number of negations, a bound `y <= r` or `y >= r` on the numeral `r`
      becomes the same bound on `x`. */
  function SubstituteAlias(r: int, x: Expr, e: Expr): Option<Expr> {
    match e
    case Not(e1) =>
      (match SubstituteAlias(r, x, e1)
       case Some(s) => Some(Not(s))
       case None => None)
    case Le(y, Num(r2)) => if r == r2 then Some(Le(y, x)) else None
    case Ge(y, Num(r2)) => if r == r2 then Some(Ge(y, x)) else None
    case _ => None
  }

  function Nots(n: nat, e: Expr): Expr {
    if n == 0 then e else Not(Nots(n - 1, e))
  }

  /** Strips the leading negations: their number and what is under them. */
  function Peel(e: Expr): (p: (nat, Expr))
    ensures !p.1.Not? && Nots(p.0, p.1) == e
  {
    match e
    case Not(a) => (Peel(a).0 + 1, Peel(a).1)
    case _ => (0, e)
  }

  /** The alias rewrite described by shape: peel the negations, rewrite the bound, put
      the negations back. */
  function AliasByShape(r: int, x: Expr, e: Expr): Option<Expr> {
    var (n, b) := Peel(e);
    match b
    case Le(y, Num(r2)) => if r == r2 then Some(Nots(n, Le(y, x))) else None
    case Ge(y, Num(r2)) => if r == r2 then Some(Nots(n, Ge(y, x))) else None
    case _ => None
  }

  lemma {:induction false} SubstituteAliasShape(r: int, x: Expr, e: Expr)
    ensures SubstituteAlias(r, x, e) == AliasByShape(r, x, e)
  {
    if e.Not? {
      SubstituteAliasShape(r, x, e.arg);
      var (n, b) := Peel(e.arg);
      assert Peel(e) == (n + 1, b);
    } else {
      assert Peel(e) == (0, e);
    }
  }

  /** When `x` has value `r`, the rewritten literal means what the original did. */
  lemma {:induction false} SubstituteAliasSound(r: int, x: Expr, e: Expr, env: Env)
    requires Val(x, env) == r as real
    requires SubstituteAlias(r, x, e).Some?
    ensures Holds(SubstituteAlias(r, x, e).value, env) <==> Holds(e, env)
  {
    match e
    case Not(e1) => SubstituteAliasSound(r, x, e1, env);
    case Le(y, Num(r2)) =>
    case Ge(y, Num(r2)) =>
  }

  // ---------------------------------------------------------------
  // The candidate core of one eq (lines 178-193)

  /** The parity guess and the upper bound replace the pair only for an integer term
      of magnitude at least 2. */
  predicate Overwrites(e: EqRecord) {
    Abs(e.value) >= 2 && IsInt(e.term)
  }

  function Parity(x: Expr): Expr {
    Eq(Mod(x, Num(2)), Num(0))
  }

  function Rewrite(r: int, x: Expr, lit: Expr): Expr {
    match SubstituteAlias(r, x, lit)
    case Some(s) => s
    case None => lit
  }

  /** The core a candidate is built from, or `None` when the overwrite at the recorded
      positions falls outside it. Slot `lower` (every slot when `lower == upper`)
      becomes `true`; the others go through the alias rewrite. */
  function Candidate(core: seq<Expr>, e: EqRecord): (c: Option<seq<Expr>>)
    ensures c.Some? <==> !Overwrites(e) || (e.lower < |core| && e.upper < |core|)
    ensures c.Some? ==> |c.value| == |core|
    ensures c.Some? ==> forall i | 0 <= i < |core| && i != e.lower && i != e.upper && e.lower != e.upper ::
      c.value[i] == Rewrite(e.value, e.term, core[i])
    ensures c.Some? && e.lower == e.upper ==> forall i | 0 <= i < |core| && i != e.lower :: c.value[i] == True
    ensures c.Some? && Overwrites(e) ==>
      c.value[e.upper] == Le(e.term, Num(e.value)) && (e.lower != e.upper ==> c.value[e.lower] == Parity(e.term))
    ensures c.Some? && !Overwrites(e) ==>
      (e.lower < |core| ==> c.value[e.lower] == True) &&
      (e.upper < |core| && e.lower != e.upper ==> c.value[e.upper] == Rewrite(e.value, e.term, core[e.upper]))
  {
    var slots := seq(|core|, i requires 0 <= i < |core| =>
      if i == e.lower || e.lower == e.upper then True else Rewrite(e.value, e.term, core[i]));
    if !Overwrites(e) then Some(slots)
    else if e.lower < |core| && e.upper < |core| then
      Some(slots[e.lower := Parity(e.term)][e.upper := Le(e.term, Num(e.value))])
    else None
  }

  /** For a pair read from the core, the candidate follows from the core whenever the
      parity guess is consistent with the value (always for non-integer terms): it is a
      generalization of the core. */
  lemma CandidateImplied(rewritesToTrue: (Expr, Expr) -> bool, core: seq<Expr>, e: EqRecord, env: Env)
    requires PairedIn(rewritesToTrue, core, e) && RewriterSound(rewritesToTrue) && WellSorted(env)
    requires AllHold(core, env)
    requires Overwrites(e) ==> e.value % 2 == 0
    ensures Candidate(core, e).Some? && AllHold(Candidate(core, e).value, env)
  {
    EqImpliesEquality(rewritesToTrue, core, e, env);
    assert e.lower != e.upper;
    var c := Candidate(core, e).value;
    forall i | 0 <= i < |c| ensures Holds(c[i], env) {
      if i == e.lower {
      } else if i == e.upper && Overwrites(e) {
      } else {
        assert c[i] == Rewrite(e.value, e.term, core[i]);
        assert Holds(core[i], env);
        if SubstituteAlias(e.value, e.term, core[i]).Some? {
          SubstituteAliasSound(e.value, e.term, core[i], env);
        }
      }
    }
  }

  /** The loop of lines 179-189 followed by the overwrite of lines 190-193. */
  method BuildCandidate(core: seq<Expr>, e: EqRecord) returns (newCore: seq<Expr>)
    requires !Overwrites(e) || (e.lower < |core| && e.upper < |core|)
    ensures Candidate(core, e) == Some(newCore)
  {
    newCore := [];
    for i := 0 to |core|
      invariant |newCore| == i
      invariant forall p | 0 <= p < i ::
        newCore[p] == if p == e.lower || e.lower == e.upper then True else Rewrite(e.value, e.term, core[p])
    {
      if i == e.lower || e.lower == e.upper {
        newCore := newCore + [True];
      } else {
        var lit := core[i];
        var s := SubstituteAlias(e.value, e.term, lit);
        if s.Some? {
          lit := s.value;
        }
        newCore := newCore + [lit];
      }
    }
    assert newCore == seq(|core|, i requires 0 <= i < |core| =>
      if i == e.lower || e.lower == e.upper then True else Rewrite(e.value, e.term, core[i]));
    if Abs(e.value) >= 2 && IsInt(e.term) {
      newCore := newCore[e.lower := Parity(e.term)];
      newCore := newCore[e.upper := Le(e.term, Num(e.value))];
    }
  }

  // ---------------------------------------------------------------
  // Trying the eqs in turn (lines 172-207)

  type CoreState = (seq<Expr>, bool)

  /** One eq: build its candidate from the current core and adopt the oracle's core when
      accepted. An eq whose candidate cannot be built is skipped. */
  function TryEq(check: InductiveOracle, level: nat, e: EqRecord, s: CoreState): CoreState {
    match Candidate(s.0, e)
    case None => s
    case Some(q) =>
      match check(level, q)
      case Accepted(c, u) => (c, u)
      case Rejected => s
  }

  function Commit(check: InductiveOracle, level: nat, eqs: seq<EqRecord>, core: seq<Expr>, usesLevel: bool): CoreState
    decreases |eqs|
  {
    if eqs == [] then (core, usesLevel)
    else
      var s := TryEq(check, level, eqs[0], (core, usesLevel));
      Commit(check, level, eqs[1..], s.0, s.1)
  }

  /** The lines as written: the overwrite of slots `k` and `l` indexes the candidate
      with positions recorded against the core the eqs were computed from, and faults
      (`None`) once an earlier commit has shrunk the core below them. */
  function CommitAsWritten(check: InductiveOracle, level: nat, eqs: seq<EqRecord>, core: seq<Expr>, usesLevel: bool): Option<CoreState>
    decreases |eqs|
  {
    if eqs == [] then Some((core, usesLevel))
    else
      match Candidate(core, eqs[0])
      case None => None
      case Some(q) =>
        match check(level, q)
        case Accepted(c, u) => CommitAsWritten(check, level, eqs[1..], c, u)
        case Rejected => CommitAsWritten(check, level, eqs[1..], core, usesLevel)
  }

  /** The result core is the core of an accepted candidate for one of the eqs. */
  ghost predicate AcceptedCandidate(check: InductiveOracle, level: nat, eqs: seq<EqRecord>, r: CoreState) {
    exists c: seq<Expr>, k: int | 0 <= k < |eqs| && Candidate(c, eqs[k]).Some? ::
      check(level, Candidate(c, eqs[k]).value) == Accepted(r.0, r.1)
  }

  /** The core and flag change only to an accepted candidate. */
  lemma {:induction false} CommitSound(check: InductiveOracle, level: nat, eqs: seq<EqRecord>, core: seq<Expr>, usesLevel: bool)
    ensures var r := Commit(check, level, eqs, core, usesLevel);
      r == (core, usesLevel) || AcceptedCandidate(check, level, eqs, r)
    decreases |eqs|
  {
    if eqs != [] {
      var s := TryEq(check, level, eqs[0], (core, usesLevel));
      CommitSound(check, level, eqs[1..], s.0, s.1);
      var r := Commit(check, level, eqs, core, usesLevel);
      if r != s && r != (core, usesLevel) {
        var c, k :| 0 <= k < |eqs[1..]| && Candidate(c, eqs[1..][k]).Some? &&
          check(level, Candidate(c, eqs[1..][k]).value) == Accepted(r.0, r.1);
        assert eqs[1..][k] == eqs[k + 1];
      } else if r == s && s != (core, usesLevel) {
        assert Candidate(core, eqs[0]).Some?;
      }
    }
  }

  /** An oracle that rejects every candidate leaves core and flag unchanged. */
  lemma {:induction false} CommitNoOp(check: InductiveOracle, level: nat, eqs: seq<EqRecord>, core: seq<Expr>, usesLevel: bool)
    requires forall q :: check(level, q) == Rejected
    ensures Commit(check, level, eqs, core, usesLevel) == (core, usesLevel)
    decreases |eqs|
  {
    if eqs != [] {
      CommitNoOp(check, level, eqs[1..], core, usesLevel);
    }
  }

  /** Wherever the lines as written do not fault, they compute what `Commit` does. */
  lemma {:induction false} AsWrittenAgrees(check: InductiveOracle, level: nat, eqs: seq<EqRecord>, core: seq<Expr>, usesLevel: bool)
    ensures CommitAsWritten(check, level, eqs, core, usesLevel).Some? ==>
      CommitAsWritten(check, level, eqs, core, usesLevel).value == Commit(check, level, eqs, core, usesLevel)
    decreases |eqs|
  {
    if eqs != [] {
      var s := TryEq(check, level, eqs[0], (core, usesLevel));
      AsWrittenAgrees(check, level, eqs[1..], s.0, s.1);
    }
  }

  /** They do not fault while every accepted core keeps the length of its query and the
      recorded positions fall inside the core. */
  lemma {:induction false} AsWrittenTotal(check: InductiveOracle, level: nat, eqs: seq<EqRecord>, core: seq<Expr>, usesLevel: bool)
    requires forall q | check(level, q).Accepted? :: |check(level, q).core| == |q|
    requires forall k | 0 <= k < |eqs| :: eqs[k].lower < |core| && eqs[k].upper < |core|
    ensures CommitAsWritten(check, level, eqs, core, usesLevel).Some?
    decreases |eqs|
  {
    if eqs != [] {
      var q := Candidate(core, eqs[0]).value;
      var s := TryEq(check, level, eqs[0], (core, usesLevel));
      assert |s.0| == |core|;
      AsWrittenTotal(check, level, eqs[1..], s.0, s.1);
      match check(level, q)
      case Accepted(c, u) =>
      case Rejected =>
    }
  }

  // ---------------------------------------------------------------
  // The generalizer object

  /** Distinct keys listing the whole key set: one visit per map entry. */
  ghost predicate KeyOrder(order: seq<int>, m: Bounds) {
    && (forall k | k in order :: k in m)
    && (forall k | k in m :: k in order)
    && (forall p, q | 0 <= p < q < |order| :: order[p] != order[q])
  }

  /** The `eq`s of one key (the two inner loops of `get_eqs`). */
  method PairKey(rewritesToTrue: (Expr, Expr) -> bool, r: int, terms1: seq<TermLoc>, terms2: seq<TermLoc>)
    returns (eqs: seq<EqRecord>)
    ensures eqs == PairsAt(rewritesToTrue, r, terms1, terms2)
  {
    eqs := [];
    for i := 0 to |terms1|
      invariant eqs == PairsAt(rewritesToTrue, r, terms1[..i], terms2)
    {
      assert terms1[..i + 1][..i] == terms1[..i];
      ghost var before := eqs;
      ghost var m := FirstMatch(rewritesToTrue, terms1[i].term, terms2, 0);
      var done := false;
      var j := 0;
      while !done && j < |terms2|
        invariant 0 <= j <= |terms2|
        invariant !done ==> j <= m && eqs == before
        invariant done ==> m < |terms2| && eqs == before + [EqRecord(terms1[i].term, r, terms1[i].index, terms2[m].index)]
      {
        var t1 := terms1[i].term;
        var t2 := terms2[j].term;
        if t1 == t2 {
          eqs := eqs + [EqRecord(t1, r, terms1[i].index, terms2[j].index)];
          done := true;
        } else if rewritesToTrue(t1, t2) {
          eqs := eqs + [EqRecord(t1, r, terms1[i].index, terms2[j].index)];
          done := true;
        }
        j := j + 1;
      }
    }
    assert terms1[..|terms1|] == terms1;
  }

  /** A set is empty or has an element. */
  lemma SetWitness(s: set<int>)
    ensures s == {} || exists x :: x in s
  {
    if forall x :: x !in s {
      assert s == {};
    }
  }

  /** The second loop of `get_eqs`: every lower-bound key visited once, in an order
      the model leaves open (`order` records it). */
  method EqsOf(rewritesToTrue: (Expr, Expr) -> bool, bm: BoundMaps) returns (eqs: seq<EqRecord>, ghost order: seq<int>)
    ensures KeyOrder(order, bm.lb)
    ensures eqs == EqsAlong(rewritesToTrue, bm, order)
    ensures forall e | e in eqs :: e.value >= 2 && e.value in bm.lb && e.value in bm.ub
  {
    eqs := [];
    order := [];
    var keys := bm.lb.Keys;
    while keys != {}
      invariant keys <= bm.lb.Keys
      invariant forall k | k in order :: k in bm.lb && k !in keys
      invariant forall k | k in bm.lb :: k in order || k in keys
      invariant forall p, q | 0 <= p < q < |order| :: order[p] != order[q]
      invariant eqs == EqsAlong(rewritesToTrue, bm, order)
      invariant forall e | e in eqs :: e.value >= 2 && e.value in bm.lb && e.value in bm.ub
      decreases keys
    {
      SetWitness(keys);
      var r :| r in keys;
      eqs, order := VisitKey(rewritesToTrue, bm, r, eqs, order);
      keys := keys - {r};
    }
  }

  /** One round of that loop: the `eq`s of key `r`, appended. */
  method VisitKey(rewritesToTrue: (Expr, Expr) -> bool, bm: BoundMaps, r: int, eqs: seq<EqRecord>, ghost order: seq<int>)
    returns (eqs': seq<EqRecord>, ghost order': seq<int>)
    requires r in bm.lb && forall k | k in order :: k in bm.lb
    requires eqs == EqsAlong(rewritesToTrue, bm, order)
    ensures order' == order + [r]
    ensures eqs' == EqsAlong(rewritesToTrue, bm, order')
    ensures forall e | e in eqs' :: e in eqs || (e.value == r && r >= 2 && r in bm.ub)
  {
    eqs' := eqs;
    if r >= 2 && r in bm.ub {
      var found := PairKey(rewritesToTrue, r, bm.lb[r], bm.ub[r]);
      PairsAtOnePerEntry(rewritesToTrue, r, bm.lb[r], bm.ub[r]);
      eqs' := eqs + found;
    }
    order' := order + [r];
    assert order'[..|order|] == order;
  }

  /** One round of the commit loop of `operator()` (lines 173-206). */
  method TryEqOn(check: InductiveOracle, level: nat, e: EqRecord, core: seq<Expr>, usesLevel: bool)
    returns (core': seq<Expr>, usesLevel': bool)
    ensures (core', usesLevel') == TryEq(check, level, e, (core, usesLevel))
  {
    core', usesLevel' := core, usesLevel;
    if !(Abs(e.value) >= 2 && IsInt(e.term)) || (e.lower < |core| && e.upper < |core|) {
      var newCore := BuildCandidate(core, e);
      var answer := check(level, newCore);
      if answer.Accepted? {
        core', usesLevel' := answer.core, answer.usesLevel;
      }
    }
  }

  class ArithInductiveGeneralizer {
    /** `m_lb` and `m_ub`: bound magnitude to (term, position) entries. */
    var lb: Bounds
    var ub: Bounds

    constructor()
      ensures lb == map[] && ub == map[]
    {
      lb := map[];
      ub := map[];
    }

    method Reset()
      modifies this
      ensures lb == map[] && ub == map[]
    {
      lb := map[];
      ub := map[];
    }

    method InsertBound(isLower: bool, x: Expr, r: int, i: nat)
      modifies this
      ensures BoundMaps(lb, ub) == ArithBounds.InsertBound(old(BoundMaps(lb, ub)), isLower, x, r, i)
    {
      var term, lower := x, isLower;
      if r < 0 {
        term := UMinus(x);
        lower := !isLower;
      }
      if lower {
        lb := Insert(lb, Abs(r), TermLoc(term, i));
      } else {
        ub := Insert(ub, Abs(r), TermLoc(term, i));
      }
    }

    /** One round of the first loop of `get_eqs`: the bound literal `e` at position `i`, if
        it is one of the four shapes, is filed. */
    method FileLiteral(e: Expr, i: nat)
      modifies this
      ensures BoundMaps(lb, ub) == match LiteralBound(e)
        case Some(b) => ArithBounds.InsertBound(old(BoundMaps(lb, ub)), b.isLower, b.term, b.value, i)
        case None => old(BoundMaps(lb, ub))
    {
      if e.Not? && e.arg.Le? && e.arg.rhs.Num? && IsInt(e.arg.lhs) {
        assert LiteralBound(e) == Some(Bound(true, e.arg.lhs, e.arg.rhs.value + 1));
        InsertBound(true, e.arg.lhs, e.arg.rhs.value + 1, i);
      } else if e.Not? && e.arg.Ge? && e.arg.rhs.Num? && IsInt(e.arg.lhs) {
        assert LiteralBound(e) == Some(Bound(false, e.arg.lhs, e.arg.rhs.value - 1));
        InsertBound(false, e.arg.lhs, e.arg.rhs.value - 1, i);
      } else if e.Le? && e.rhs.Num? {
        assert LiteralBound(e) == Some(Bound(false, e.lhs, e.rhs.value));
        InsertBound(false, e.lhs, e.rhs.value, i);
      } else if e.Ge? && e.rhs.Num? {
        assert LiteralBound(e) == Some(Bound(true, e.lhs, e.rhs.value));
        InsertBound(true, e.lhs, e.rhs.value, i);
      } else {
        assert LiteralBound(e) == None;
      }
    }

    /** `get_eqs`: file the bounds of the core, then pair them key by key, visiting the
        keys in an order the model leaves open (`order` records it). */
    method GetEqs(rewritesToTrue: (Expr, Expr) -> bool, core: seq<Expr>)
      returns (eqs: seq<EqRecord>, ghost order: seq<int>)
      modifies this
      ensures BoundMaps(lb, ub) == CollectBounds(core, |core|, old(BoundMaps(lb, ub)))
      ensures KeyOrder(order, lb)
      ensures eqs == EqsAlong(rewritesToTrue, BoundMaps(lb, ub), order)
    {
      for i := 0 to |core|
        invariant BoundMaps(lb, ub) == CollectBounds(core, i, old(BoundMaps(lb, ub)))
      {
        FileLiteral(core[i], i);
      }
      eqs, order := EqsOf(rewritesToTrue, BoundMaps(lb, ub));
    }

    /** `operator()`: a core of at most one literal is left alone; otherwise the maps are
        rebuilt from the core and the eqs tried in turn against the current core. */
    method Generalize(check: InductiveOracle, level: nat, rewritesToTrue: (Expr, Expr) -> bool,
                      core: seq<Expr>, usesLevel: bool)
      returns (core': seq<Expr>, usesLevel': bool, eqs: seq<EqRecord>, ghost order: seq<int>)
      modifies this
      ensures |core| <= 1 ==> core' == core && usesLevel' == usesLevel && lb == old(lb) && ub == old(ub)
      ensures |core| > 1 ==>
        && BoundMaps(lb, ub) == CollectBounds(core, |core|, NoBounds)
        && KeyOrder(order, lb)
        && eqs == EqsAlong(rewritesToTrue, BoundMaps(lb, ub), order)
        && (core', usesLevel') == Commit(check, level, eqs, core, usesLevel)
    {
      core', usesLevel', eqs, order := core, usesLevel, [], [];
      if |core| <= 1 {
        return;
      }
      Reset();
      eqs, order := GetEqs(rewritesToTrue, core);
      ghost var lb0, ub0 := lb, ub;
      var n := 0;
      while n < |eqs|
        invariant n <= |eqs|
        invariant lb == lb0 && ub == ub0
        invariant Commit(check, level, eqs[n..], core', usesLevel') == Commit(check, level, eqs, core, usesLevel)
      {
        assert eqs[n..][1..] == eqs[n + 1..];
        core', usesLevel' := TryEqOn(check, level, eqs[n], core', usesLevel');
        n := n + 1;
      }
      assert eqs[|eqs|..] == [];
    }
  }

  // ---------------------------------------------------------------
  // Scenarios

  /** The candidate of the eq of `x <= 5, x >= 5`, pairing the lower bound at 1 with the
      upper bound at 0: the lower bound becomes `x mod 2 = 0` and the upper bound stays. */
  lemma ArithScenarioCandidate()
    ensures var x := Const("x", IntSort);
      Candidate([Le(x, Num(5)), Ge(x, Num(5))], EqRecord(x, 5, 1, 0)) == Some([Le(x, Num(5)), Parity(x)])
  {
    var x := Const("x", IntSort);
    var c := Candidate([Le(x, Num(5)), Ge(x, Num(5))], EqRecord(x, 5, 1, 0)).value;
    assert c[0] == Le(x, Num(5)) && c[1] == Parity(x);
    assert c == [Le(x, Num(5)), Parity(x)];
  }

  /** Accepts every nonempty query, keeping only its first literal. */
  function FirstLiteralOracle(): InductiveOracle {
    (level: nat, q: seq<Expr>) => if |q| == 0 then Rejected else Accepted([q[0]], true)
  }

  /** Two pinned integer terms, `x` to 5 and `y` to 3. */
  function StaleCore(): seq<Expr> {
    var x := Const("x", IntSort);
    var y := Const("y", IntSort);
    [Le(x, Num(5)), Ge(x, Num(5)), Le(y, Num(3)), Ge(y, Num(3))]
  }

  /** Lower bounds 5 on `x` at 1 and 3 on `y` at 3, upper bounds 5 on `x` at 0 and 3 on `y` at 2. */
  function StaleBounds(): BoundMaps {
    BoundMaps(map[5 := [TermLoc(Const("x", IntSort), 1)], 3 := [TermLoc(Const("y", IntSort), 3)]],
              map[5 := [TermLoc(Const("x", IntSort), 0)], 3 := [TermLoc(Const("y", IntSort), 2)]])
  }

  /** The bound maps of the stale core. */
  lemma StaleCoreBounds()
    ensures CollectBounds(StaleCore(), 4, NoBounds) == StaleBounds()
  {
    var x := Const("x", IntSort);
    var y := Const("y", IntSort);
    var core := StaleCore();
    assert LiteralBound(core[0]) == Some(Bound(false, x, 5));
    assert LiteralBound(core[1]) == Some(Bound(true, x, 5));
    assert LiteralBound(core[2]) == Some(Bound(false, y, 3));
    assert LiteralBound(core[3]) == Some(Bound(true, y, 3));
    assert [] + [TermLoc(x, 0)] == [TermLoc(x, 0)];
    assert [] + [TermLoc(x, 1)] == [TermLoc(x, 1)];
    assert [] + [TermLoc(y, 2)] == [TermLoc(y, 2)];
    assert [] + [TermLoc(y, 3)] == [TermLoc(y, 3)];
    assert CollectBounds(core, 1, NoBounds) == BoundMaps(map[], map[5 := [TermLoc(x, 0)]]);
    assert CollectBounds(core, 2, NoBounds) == BoundMaps(map[5 := [TermLoc(x, 1)]], map[5 := [TermLoc(x, 0)]]);
    assert CollectBounds(core, 3, NoBounds) ==
      BoundMaps(map[5 := [TermLoc(x, 1)]], map[5 := [TermLoc(x, 0)], 3 := [TermLoc(y, 2)]]);
  }

  /** The eqs of those maps, visiting key 5 first: one per pinned term, at positions
      (1, 0) and (3, 2). */
  lemma StaleCoreEqs(rewritesToTrue: (Expr, Expr) -> bool)
    ensures KeyOrder([5, 3], StaleBounds().lb)
    ensures EqsAlong(rewritesToTrue, StaleBounds(), [5, 3]) ==
      [EqRecord(Const("x", IntSort), 5, 1, 0), EqRecord(Const("y", IntSort), 3, 3, 2)]
  {
    var x := Const("x", IntSort);
    var y := Const("y", IntSort);
    var bm := StaleBounds();
    assert [TermLoc(x, 1)][..0] == [] && [TermLoc(y, 3)][..0] == [];
    assert FirstMatch(rewritesToTrue, x, [TermLoc(x, 0)], 0) == 0;
    assert FirstMatch(rewritesToTrue, y, [TermLoc(y, 2)], 0) == 0;
    assert KeyEqs(rewritesToTrue, bm, 5) == [EqRecord(x, 5, 1, 0)];
    assert KeyEqs(rewritesToTrue, bm, 3) == [EqRecord(y, 3, 3, 2)];
    assert [5, 3][..1] == [5] && [5][..0] == [];
  }

  /** The stale positions: the first eq's candidate is accepted and shrunk to one
      literal, so the second eq's positions 3 and 2 are past the end of the core. The
      lines as written fault there; `Commit` skips that eq. */
  lemma StaleIndexWitness()
    ensures var eqs := [EqRecord(Const("x", IntSort), 5, 1, 0), EqRecord(Const("y", IntSort), 3, 3, 2)];
      && CommitAsWritten(FirstLiteralOracle(), 0, eqs, StaleCore(), false) == None
      && Commit(FirstLiteralOracle(), 0, eqs, StaleCore(), false) == ([Le(Const("x", IntSort), Num(5))], true)
  {
    var x := Const("x", IntSort);
    var eqs := [EqRecord(x, 5, 1, 0), EqRecord(Const("y", IntSort), 3, 3, 2)];
    var q := Candidate(StaleCore(), eqs[0]).value;
    assert q[0] == Le(x, Num(5));
    assert eqs[1..] == [EqRecord(Const("y", IntSort), 3, 3, 2)];
    assert eqs[1..][1..] == [];
  }
}
