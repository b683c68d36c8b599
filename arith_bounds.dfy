/** Bound normalization and lower/upper pairing of `core_arith_inductive_generalizer`
    (`get_eqs`, `insert_bound`), as functions of the core. */
module ArithBounds {
  import opened Syntax

  function Abs(v: int): nat {
    if v < 0 then -v else v
  }

  /** A bound on a term: `term >= value` when `isLower`, else `term <= value`. */
  datatype Bound = Bound(isLower: bool, term: Expr, value: int)

  /** An entry of the `m_lb`/`m_ub` multimaps: the bounded term and the literal's position. */
  datatype TermLoc = TermLoc(term: Expr, index: nat)

  /** The source's `eq` record: term, bound value, lower-literal and upper-literal positions. */
  datatype EqRecord = EqRecord(term: Expr, value: int, lower: nat, upper: nat)

  /** The four shapes `get_eqs` reads a bound from, in the source's order; the strict
      forms are shifted by one and accepted only over integer terms. */
  function LiteralBound(e: Expr): Option<Bound> {
    match e
    case Not(Le(x, Num(r))) => if IsInt(x) then Some(Bound(true, x, r + 1)) else None
    case Not(Ge(x, Num(r))) => if IsInt(x) then Some(Bound(false, x, r - 1)) else None
    case Le(x, Num(r)) => Some(Bound(false, x, r))
    case Ge(x, Num(r)) => Some(Bound(true, x, r))
    case _ => None
  }

  /** `insert_bound`: a negative value negates the term and swaps the side. */
  function Normalize(b: Bound): (n: Bound)
    ensures n.value == Abs(b.value)
    ensures b.value < 0 ==> n.isLower == !b.isLower && n.term == UMinus(b.term)
    ensures b.value >= 0 ==> n == b
  {
    if b.value < 0 then Bound(!b.isLower, UMinus(b.term), -b.value) else b
  }

  /** The bound a core literal contributes, as it is keyed in the maps. */
  function NormalBound(e: Expr): Option<Bound> {
    match LiteralBound(e)
    case Some(b) => Some(Normalize(b))
    case None => None
  }

  function BoundHolds(b: Bound, env: Env): bool {
    if b.isLower then Val(b.term, env) >= b.value as real else Val(b.term, env) <= b.value as real
  }

  /** A literal holds exactly when the bound read from it does, before and after
      normalization (the shift by one needs the integer test). */
  lemma NormalBoundSound(e: Expr, env: Env)
    requires WellSorted(env) && LiteralBound(e).Some?
    ensures Holds(e, env) <==> BoundHolds(LiteralBound(e).value, env)
    ensures NormalBound(e).Some? && (Holds(e, env) <==> BoundHolds(NormalBound(e).value, env))
  {
    match e
    case Not(Le(x, Num(r))) =>
      IntTermIntegral(x, env);
      var v := Val(x, env);
      assert v == v.Floor as real;
      assert v > r as real <==> v.Floor >= r + 1;
    case Not(Ge(x, Num(r))) =>
      IntTermIntegral(x, env);
      var v := Val(x, env);
      assert v == v.Floor as real;
      assert v < r as real <==> v.Floor <= r - 1;
    case Le(x, Num(r)) =>
    case Ge(x, Num(r)) =>
  }

  // ---------------------------------------------------------------
  // The multimaps m_lb and m_ub

  type Bounds = map<int, seq<TermLoc>>

  datatype BoundMaps = BoundMaps(lb: Bounds, ub: Bounds)

  const NoBounds := BoundMaps(map[], map[])

  /** Multimap insertion: append to the entries stored under the key. */
  function Insert(m: Bounds, key: int, t: TermLoc): Bounds {
    m[key := (if key in m then m[key] else []) + [t]]
  }

  /** `insert_bound(is_lower, x, r, i)` applied to the pair of maps. */
  function InsertBound(bm: BoundMaps, isLower: bool, x: Expr, r: int, i: nat): BoundMaps {
    File(bm, Normalize(Bound(isLower, x, r)), i)
  }

  /** Files a normalized bound of literal `i` in the map of its side. */
  function File(bm: BoundMaps, n: Bound, i: nat): BoundMaps {
    if n.isLower then bm.(lb := Insert(bm.lb, n.value, TermLoc(n.term, i)))
    else bm.(ub := Insert(bm.ub, n.value, TermLoc(n.term, i)))
  }

  /** The maps after the first loop of `get_eqs` has read the first `n` literals. */
  function CollectBounds(core: seq<Expr>, n: nat, bm: BoundMaps): BoundMaps
    requires n <= |core|
  {
    if n == 0 then bm
    else
      var prev := CollectBounds(core, n - 1, bm);
      match LiteralBound(core[n - 1])
      case Some(b) => InsertBound(prev, b.isLower, b.term, b.value, n - 1)
      case None => prev
  }

  /** Every map entry records a bound its literal really contributes, under its key. */
  ghost predicate Consistent(core: seq<Expr>, bm: BoundMaps) {
    && (forall k, j | k in bm.lb && 0 <= j < |bm.lb[k]| ::
          bm.lb[k][j].index < |core| && NormalBound(core[bm.lb[k][j].index]) == Some(Bound(true, bm.lb[k][j].term, k)))
    && (forall k, j | k in bm.ub && 0 <= j < |bm.ub[k]| ::
          bm.ub[k][j].index < |core| && NormalBound(core[bm.ub[k][j].index]) == Some(Bound(false, bm.ub[k][j].term, k)))
  }

  /** Every bound of the first `n` literals is recorded in the map of its side. */
  ghost predicate Complete(core: seq<Expr>, n: nat, bm: BoundMaps)
    requires n <= |core|
  {
    forall i | 0 <= i < n && NormalBound(core[i]).Some? ::
      var b := NormalBound(core[i]).value;
      var m := if b.isLower then bm.lb else bm.ub;
      b.value in m && TermLoc(b.term, i) in m[b.value]
  }

  /** The maps hold exactly the normalized bounds of the core; so keys are magnitudes
      and each literal is filed under the one bound it yields. */
  lemma {:induction false} CollectBoundsSpec(core: seq<Expr>, n: nat)
    requires n <= |core|
    ensures Consistent(core, CollectBounds(core, n, NoBounds))
    ensures Complete(core, n, CollectBounds(core, n, NoBounds))
    ensures forall k | k in CollectBounds(core, n, NoBounds).lb :: k >= 0
    ensures forall k | k in CollectBounds(core, n, NoBounds).ub :: k >= 0
    ensures forall k, j | k in CollectBounds(core, n, NoBounds).lb && 0 <= j < |CollectBounds(core, n, NoBounds).lb[k]| ::
      CollectBounds(core, n, NoBounds).lb[k][j].index < n
    ensures forall k, j | k in CollectBounds(core, n, NoBounds).ub && 0 <= j < |CollectBounds(core, n, NoBounds).ub[k]| ::
      CollectBounds(core, n, NoBounds).ub[k][j].index < n
  {
    if n > 0 {
      CollectBoundsSpec(core, n - 1);
      var prev := CollectBounds(core, n - 1, NoBounds);
      var cur := CollectBounds(core, n, NoBounds);
      match LiteralBound(core[n - 1])
      case None =>
        assert cur == prev;
      case Some(b) =>
        var nb := Normalize(b);
        assert NormalBound(core[n - 1]) == Some(nb);
        assert cur == InsertBound(prev, b.isLower, b.term, b.value, n - 1);
        InsertKeeps(core, prev, nb, n - 1);
    }
  }

  lemma InsertKeeps(core: seq<Expr>, prev: BoundMaps, nb: Bound, i: nat)
    requires i < |core| && NormalBound(core[i]) == Some(nb) && nb.value >= 0
    requires Consistent(core, prev) && Complete(core, i, prev)
    requires forall k | k in prev.lb :: k >= 0
    requires forall k | k in prev.ub :: k >= 0
    requires forall k, j | k in prev.lb && 0 <= j < |prev.lb[k]| :: prev.lb[k][j].index < i
    requires forall k, j | k in prev.ub && 0 <= j < |prev.ub[k]| :: prev.ub[k][j].index < i
    ensures var cur := File(prev, nb, i);
      && Consistent(core, cur) && Complete(core, i + 1, cur)
      && (forall k | k in cur.lb :: k >= 0) && (forall k | k in cur.ub :: k >= 0)
      && (forall k, j | k in cur.lb && 0 <= j < |cur.lb[k]| :: cur.lb[k][j].index < i + 1)
      && (forall k, j | k in cur.ub && 0 <= j < |cur.ub[k]| :: cur.ub[k][j].index < i + 1)
  {
    InsertConsistent(core, prev, nb, i);
    InsertComplete(core, prev, nb, i);
  }

  /** Filing a literal's bound keeps every entry truthful, keys non-negative and positions below `i + 1`. */
  lemma InsertConsistent(core: seq<Expr>, prev: BoundMaps, nb: Bound, i: nat)
    requires i < |core| && NormalBound(core[i]) == Some(nb) && nb.value >= 0
    requires Consistent(core, prev)
    requires forall k | k in prev.lb :: k >= 0
    requires forall k | k in prev.ub :: k >= 0
    requires forall k, j | k in prev.lb && 0 <= j < |prev.lb[k]| :: prev.lb[k][j].index < i
    requires forall k, j | k in prev.ub && 0 <= j < |prev.ub[k]| :: prev.ub[k][j].index < i
    ensures var cur := File(prev, nb, i);
      && Consistent(core, cur)
      && (forall k | k in cur.lb :: k >= 0) && (forall k | k in cur.ub :: k >= 0)
      && (forall k, j | k in cur.lb && 0 <= j < |cur.lb[k]| :: cur.lb[k][j].index < i + 1)
      && (forall k, j | k in cur.ub && 0 <= j < |cur.ub[k]| :: cur.ub[k][j].index < i + 1)
  {
    assert SideOk(core, prev.lb, true, i) && SideOk(core, prev.ub, false, i);
    if nb.isLower {
      InsertSide(core, prev.lb, nb, i);
    } else {
      InsertSide(core, prev.ub, nb, i);
    }
  }

  /** One side's map: keys non-negative, every entry a truthful bound of a literal before `n`. */
  ghost predicate SideOk(core: seq<Expr>, m: Bounds, isLower: bool, n: nat)
    requires n <= |core|
  {
    && (forall k | k in m :: k >= 0)
    && forall k, j | k in m && 0 <= j < |m[k]| ::
      m[k][j].index < n && NormalBound(core[m[k][j].index]) == Some(Bound(isLower, m[k][j].term, k))
  }

  lemma InsertSide(core: seq<Expr>, m: Bounds, nb: Bound, i: nat)
    requires i < |core| && NormalBound(core[i]) == Some(nb) && nb.value >= 0
    requires SideOk(core, m, nb.isLower, i)
    ensures SideOk(core, Insert(m, nb.value, TermLoc(nb.term, i)), nb.isLower, i + 1)
  {
    var ins: Bounds := Insert(m, nb.value, TermLoc(nb.term, i));
    forall k, j | k in ins && 0 <= j < |ins[k]|
      ensures ins[k][j].index < i + 1 && NormalBound(core[ins[k][j].index]) == Some(Bound(nb.isLower, ins[k][j].term, k))
    {
      if k != nb.value || (k in m && j < |m[k]|) {
        assert ins[k][j] == m[k][j];
      } else {
        assert ins[k][j] == TermLoc(nb.term, i);
      }
    }
  }

  /** Filing literal `i` keeps the earlier literals filed and files literal `i`. */
  lemma InsertComplete(core: seq<Expr>, prev: BoundMaps, nb: Bound, i: nat)
    requires i < |core| && NormalBound(core[i]) == Some(nb)
    requires Complete(core, i, prev)
    ensures Complete(core, i + 1, File(prev, nb, i))
  {
    var cur := File(prev, nb, i);
    forall j | 0 <= j < i + 1 && NormalBound(core[j]).Some?
      ensures var b := NormalBound(core[j]).value;
              var m := if b.isLower then cur.lb else cur.ub;
              b.value in m && TermLoc(b.term, j) in m[b.value]
    {
      var b := NormalBound(core[j]).value;
      if j < i {
        var m := if b.isLower then prev.lb else prev.ub;
        assert b.value in m && TermLoc(b.term, j) in m[b.value];
        var p :| 0 <= p < |m[b.value]| && m[b.value][p] == TermLoc(b.term, j);
      }
    }
  }

  // ---------------------------------------------------------------
  // Pairing (second loop of get_eqs)

  /** Terms match when they are the same term or the rewriter turns `t1 = t2` into `true`. */
  predicate Matches(rewritesToTrue: (Expr, Expr) -> bool, t1: Expr, t2: Expr) {
    t1 == t2 || rewritesToTrue(t1, t2)
  }

  /** The rewriter only proves equalities that hold in every interpretation. */
  ghost predicate RewriterSound(rewritesToTrue: (Expr, Expr) -> bool) {
    forall t1: Expr, t2: Expr | rewritesToTrue(t1, t2) :: forall env: Env :: Val(t1, env) == Val(t2, env)
  }

  /** Position of the first upper-bound entry at or after `j` whose term matches `t1`. */
  function FirstMatch(rewritesToTrue: (Expr, Expr) -> bool, t1: Expr, terms2: seq<TermLoc>, j: nat): (m: nat)
    requires j <= |terms2|
    ensures j <= m <= |terms2|
    ensures forall p | j <= p < m :: !Matches(rewritesToTrue, t1, terms2[p].term)
    ensures m < |terms2| ==> Matches(rewritesToTrue, t1, terms2[m].term)
    decreases |terms2| - j
  {
    if j == |terms2| || Matches(rewritesToTrue, t1, terms2[j].term) then j
    else FirstMatch(rewritesToTrue, t1, terms2, j + 1)
  }

  /** The `eq` a lower-bound entry yields (the `done` flag stops at the first match). */
  function PairOf(rewritesToTrue: (Expr, Expr) -> bool, r: int, t: TermLoc, terms2: seq<TermLoc>): (ps: seq<EqRecord>)
    ensures |ps| <= 1
    ensures ps != [] <==> HasMatch(rewritesToTrue, t.term, terms2)
  {
    FirstMatchFinds(rewritesToTrue, t.term, terms2);
    var m := FirstMatch(rewritesToTrue, t.term, terms2, 0);
    if m < |terms2| then [EqRecord(t.term, r, t.index, terms2[m].index)] else []
  }

  /** The `eq`s of one key, lower-bound entries taken in order. */
  function PairsAt(rewritesToTrue: (Expr, Expr) -> bool, r: int, terms1: seq<TermLoc>, terms2: seq<TermLoc>): seq<EqRecord>
    decreases |terms1|
  {
    if terms1 == [] then []
    else PairsAt(rewritesToTrue, r, terms1[..|terms1| - 1], terms2) + PairOf(rewritesToTrue, r, terms1[|terms1| - 1], terms2)
  }

  /** Each lower-bound entry yields at most one `eq`, about its own term and position,
      paired with an upper-bound entry of a matching term. */
  lemma {:induction false} PairsAtOnePerEntry(rewritesToTrue: (Expr, Expr) -> bool, r: int, terms1: seq<TermLoc>, terms2: seq<TermLoc>)
    ensures |PairsAt(rewritesToTrue, r, terms1, terms2)| <= |terms1|
    ensures forall e | e in PairsAt(rewritesToTrue, r, terms1, terms2) ::
      e.value == r && TermLoc(e.term, e.lower) in terms1 &&
      exists u | u in terms2 :: u.index == e.upper && Matches(rewritesToTrue, e.term, u.term)
    decreases |terms1|
  {
    if terms1 != [] {
      var init := terms1[..|terms1| - 1];
      var t := terms1[|terms1| - 1];
      PairsAtOnePerEntry(rewritesToTrue, r, init, terms2);
      var m := FirstMatch(rewritesToTrue, t.term, terms2, 0);
      forall e | e in PairsAt(rewritesToTrue, r, terms1, terms2)
        ensures e.value == r && TermLoc(e.term, e.lower) in terms1
        ensures exists u | u in terms2 :: u.index == e.upper && Matches(rewritesToTrue, e.term, u.term)
      {
        if e in PairsAt(rewritesToTrue, r, init, terms2) {
          var k :| 0 <= k < |init| && init[k] == TermLoc(e.term, e.lower);
          assert terms1[k] == init[k];
        } else {
          assert m < |terms2| && e == EqRecord(t.term, r, t.index, terms2[m].index);
          assert terms2[m] in terms2;
        }
      }
    }
  }

  /** Some upper-bound entry has a term matching `t`. */
  ghost predicate HasMatch(rewritesToTrue: (Expr, Expr) -> bool, t: Expr, terms2: seq<TermLoc>) {
    exists u | u in terms2 :: Matches(rewritesToTrue, t, u.term)
  }

  /** The first-match search succeeds exactly when there is a match. */
  lemma FirstMatchFinds(rewritesToTrue: (Expr, Expr) -> bool, t: Expr, terms2: seq<TermLoc>)
    ensures FirstMatch(rewritesToTrue, t, terms2, 0) < |terms2| <==> HasMatch(rewritesToTrue, t, terms2)
  {
    var m := FirstMatch(rewritesToTrue, t, terms2, 0);
    if m < |terms2| {
      assert terms2[m] in terms2;
    } else {
      forall u | u in terms2 ensures !Matches(rewritesToTrue, t, u.term) {
        var j :| 0 <= j < |terms2| && terms2[j] == u;
      }
    }
  }

  /** The positions of the lower-bound entries that have a matching upper-bound entry. */
  function Matched(rewritesToTrue: (Expr, Expr) -> bool, terms1: seq<TermLoc>, terms2: seq<TermLoc>): seq<nat>
    decreases |terms1|
  {
    if terms1 == [] then []
    else
      var n := |terms1| - 1;
      Matched(rewritesToTrue, terms1[..n], terms2)
        + (if FirstMatch(rewritesToTrue, terms1[n].term, terms2, 0) < |terms2| then [n] else [])
  }

  /** `e` is the `eq` of the lower-bound entry at `p`: its term and position, the key's
      value, and the position of the first matching upper-bound entry. */
  ghost predicate EntryEq(rewritesToTrue: (Expr, Expr) -> bool, r: int, terms1: seq<TermLoc>, terms2: seq<TermLoc>,
                          p: nat, e: EqRecord)
  {
    && p < |terms1|
    && FirstMatch(rewritesToTrue, terms1[p].term, terms2, 0) < |terms2|
    && e == EqRecord(terms1[p].term, r, terms1[p].index, terms2[FirstMatch(rewritesToTrue, terms1[p].term, terms2, 0)].index)
  }

  /** The `eq`s of a key, entry by entry: one per lower-bound entry that has a match (and
      none for the others), in the order of the entries. */
  ghost predicate ByEntry(rewritesToTrue: (Expr, Expr) -> bool, r: int, terms1: seq<TermLoc>, terms2: seq<TermLoc>) {
    var ms, ps := Matched(rewritesToTrue, terms1, terms2), PairsAt(rewritesToTrue, r, terms1, terms2);
    && |ps| == |ms|
    && (forall q | 0 <= q < |ms| :: EntryEq(rewritesToTrue, r, terms1, terms2, ms[q], ps[q]))
    && (forall q1, q2 | 0 <= q1 < q2 < |ms| :: ms[q1] < ms[q2])
    && (forall p | 0 <= p < |terms1| :: p in ms <==> HasMatch(rewritesToTrue, terms1[p].term, terms2))
  }

  /** `PairsAt` is the in-order concatenation of the `eq`s of the matched entries. */
  lemma {:induction false} PairsAtByEntry(rewritesToTrue: (Expr, Expr) -> bool, r: int, terms1: seq<TermLoc>, terms2: seq<TermLoc>)
    ensures |PairsAt(rewritesToTrue, r, terms1, terms2)| == |Matched(rewritesToTrue, terms1, terms2)|
    ensures forall q | 0 <= q < |Matched(rewritesToTrue, terms1, terms2)| ::
      EntryEq(rewritesToTrue, r, terms1, terms2, Matched(rewritesToTrue, terms1, terms2)[q], PairsAt(rewritesToTrue, r, terms1, terms2)[q])
    ensures forall q1, q2 | 0 <= q1 < q2 < |Matched(rewritesToTrue, terms1, terms2)| ::
      Matched(rewritesToTrue, terms1, terms2)[q1] < Matched(rewritesToTrue, terms1, terms2)[q2]
    ensures forall p | 0 <= p < |terms1| ::
      p in Matched(rewritesToTrue, terms1, terms2) <==> HasMatch(rewritesToTrue, terms1[p].term, terms2)
  {
    ByEntryHolds(rewritesToTrue, r, terms1, terms2);
  }

  /** `ByEntry` by induction on the lower-bound entries. */
  lemma {:induction false} ByEntryHolds(rewritesToTrue: (Expr, Expr) -> bool, r: int, terms1: seq<TermLoc>, terms2: seq<TermLoc>)
    ensures ByEntry(rewritesToTrue, r, terms1, terms2)
    decreases |terms1|
  {
    if terms1 != [] {
      var init := terms1[..|terms1| - 1];
      ByEntryHolds(rewritesToTrue, r, init, terms2);
      StepEntries(rewritesToTrue, r, terms1, terms2);
      StepMembers(rewritesToTrue, r, terms1, terms2);
    }
  }

  /** The inductive step of `ByEntry` for the `eq`s themselves: one more entry at the end. */
  lemma StepEntries(rewritesToTrue: (Expr, Expr) -> bool, r: int, terms1: seq<TermLoc>, terms2: seq<TermLoc>)
    requires terms1 != [] && ByEntry(rewritesToTrue, r, terms1[..|terms1| - 1], terms2)
    ensures var ms, ps := Matched(rewritesToTrue, terms1, terms2), PairsAt(rewritesToTrue, r, terms1, terms2);
      && |ps| == |ms|
      && (forall q | 0 <= q < |ms| :: EntryEq(rewritesToTrue, r, terms1, terms2, ms[q], ps[q]))
      && (forall q1, q2 | 0 <= q1 < q2 < |ms| :: ms[q1] < ms[q2])
  {
    var n := |terms1| - 1;
    var init := terms1[..n];
    var mi, pi := Matched(rewritesToTrue, init, terms2), PairsAt(rewritesToTrue, r, init, terms2);
    var ms, ps := Matched(rewritesToTrue, terms1, terms2), PairsAt(rewritesToTrue, r, terms1, terms2);
    var found := FirstMatch(rewritesToTrue, terms1[n].term, terms2, 0) < |terms2|;
    assert ms == mi + (if found then [n] else []);
    assert ps == pi + PairOf(rewritesToTrue, r, terms1[n], terms2);
    assert forall q | 0 <= q < |mi| :: mi[q] < n;
    forall q | 0 <= q < |mi| ensures EntryEq(rewritesToTrue, r, terms1, terms2, ms[q], ps[q]) {
      assert ms[q] == mi[q] && ps[q] == pi[q];
      assert init[mi[q]] == terms1[mi[q]];
    }
  }

  /** The inductive step of `ByEntry` for which entries are matched. */
  lemma StepMembers(rewritesToTrue: (Expr, Expr) -> bool, r: int, terms1: seq<TermLoc>, terms2: seq<TermLoc>)
    requires terms1 != [] && ByEntry(rewritesToTrue, r, terms1[..|terms1| - 1], terms2)
    ensures forall p | 0 <= p < |terms1| ::
      p in Matched(rewritesToTrue, terms1, terms2) <==> HasMatch(rewritesToTrue, terms1[p].term, terms2)
  {
    var n := |terms1| - 1;
    var init := terms1[..n];
    var mi := Matched(rewritesToTrue, init, terms2);
    var ms := Matched(rewritesToTrue, terms1, terms2);
    var found := FirstMatch(rewritesToTrue, terms1[n].term, terms2, 0) < |terms2|;
    assert ms == mi + (if found then [n] else []);
    FirstMatchFinds(rewritesToTrue, terms1[n].term, terms2);
    assert forall q | 0 <= q < |mi| :: mi[q] < n;
    forall p | 0 <= p < |terms1| ensures p in ms <==> HasMatch(rewritesToTrue, terms1[p].term, terms2) {
      if p < n {
        assert init[p] == terms1[p];
        assert p in ms <==> p in mi;
      } else {
        assert n !in mi;
      }
    }
  }

  /** Completeness of one key: every lower-bound entry that has a matching upper-bound
      entry yields its `eq`, paired with the first match. */
  lemma PairsAtComplete(rewritesToTrue: (Expr, Expr) -> bool, r: int, terms1: seq<TermLoc>, terms2: seq<TermLoc>)
    ensures forall p | 0 <= p < |terms1| && HasMatch(rewritesToTrue, terms1[p].term, terms2) ::
      && FirstMatch(rewritesToTrue, terms1[p].term, terms2, 0) < |terms2|
      && EqRecord(terms1[p].term, r, terms1[p].index, terms2[FirstMatch(rewritesToTrue, terms1[p].term, terms2, 0)].index)
           in PairsAt(rewritesToTrue, r, terms1, terms2)
  {
    PairsAtByEntry(rewritesToTrue, r, terms1, terms2);
    var ms, ps := Matched(rewritesToTrue, terms1, terms2), PairsAt(rewritesToTrue, r, terms1, terms2);
    forall p | 0 <= p < |terms1| && HasMatch(rewritesToTrue, terms1[p].term, terms2)
      ensures FirstMatch(rewritesToTrue, terms1[p].term, terms2, 0) < |terms2|
      ensures EqRecord(terms1[p].term, r, terms1[p].index, terms2[FirstMatch(rewritesToTrue, terms1[p].term, terms2, 0)].index) in ps
    {
      var q :| 0 <= q < |ms| && ms[q] == p;
      assert ps[q] in ps;
    }
  }

  /** A key contributes only when it is at least 2 and also an upper-bound key. */
  function KeyEqs(rewritesToTrue: (Expr, Expr) -> bool, bm: BoundMaps, r: int): seq<EqRecord>
    requires r in bm.lb
  {
    if r >= 2 && r in bm.ub then PairsAt(rewritesToTrue, r, bm.lb[r], bm.ub[r]) else []
  }

  /** The `eq`s found visiting the lower-bound keys in the given order (the hash-map order,
      which the source leaves unspecified). */
  function EqsAlong(rewritesToTrue: (Expr, Expr) -> bool, bm: BoundMaps, order: seq<int>): seq<EqRecord>
    requires forall k | k in order :: k in bm.lb
    decreases |order|
  {
    if order == [] then []
    else EqsAlong(rewritesToTrue, bm, order[..|order| - 1]) + KeyEqs(rewritesToTrue, bm, order[|order| - 1])
  }

  /** The `eq`s of every visited key are among those found. */
  lemma {:induction false} KeyEqsIn(rewritesToTrue: (Expr, Expr) -> bool, bm: BoundMaps, order: seq<int>, r: int)
    requires forall k | k in order :: k in bm.lb
    requires r in order
    ensures forall e | e in KeyEqs(rewritesToTrue, bm, r) :: e in EqsAlong(rewritesToTrue, bm, order)
    decreases |order|
  {
    var init := order[..|order| - 1];
    if r != order[|order| - 1] {
      assert r in init by {
        var k :| 0 <= k < |order| && order[k] == r;
        assert init[k] == r;
      }
      assert forall k | k in init :: k in order;
      KeyEqsIn(rewritesToTrue, bm, init, r);
    }
  }

  /** What an `eq` record asserts about the core it was computed from. */
  ghost predicate PairedIn(rewritesToTrue: (Expr, Expr) -> bool, core: seq<Expr>, e: EqRecord) {
    && e.value >= 2 && e.lower < |core| && e.upper < |core|
    && NormalBound(core[e.lower]) == Some(Bound(true, e.term, e.value))
    && NormalBound(core[e.upper]).Some?
    && !NormalBound(core[e.upper]).value.isLower
    && NormalBound(core[e.upper]).value.value == e.value
    && Matches(rewritesToTrue, e.term, NormalBound(core[e.upper]).value.term)
  }

  lemma {:induction false} PairsAtPaired(rewritesToTrue: (Expr, Expr) -> bool, core: seq<Expr>, bm: BoundMaps, r: int, n: nat)
    requires Consistent(core, bm) && r >= 2 && r in bm.lb && r in bm.ub && n <= |bm.lb[r]|
    ensures forall e | e in PairsAt(rewritesToTrue, r, bm.lb[r][..n], bm.ub[r]) :: PairedIn(rewritesToTrue, core, e)
    decreases n
  {
    if n > 0 {
      var terms1 := bm.lb[r][..n];
      assert terms1[..n - 1] == bm.lb[r][..n - 1];
      PairsAtPaired(rewritesToTrue, core, bm, r, n - 1);
      var t := terms1[n - 1];
      assert t == bm.lb[r][n - 1];
      var m := FirstMatch(rewritesToTrue, t.term, bm.ub[r], 0);
      if m < |bm.ub[r]| {
        assert bm.ub[r][m].index < |core|;
      }
    }
  }

  /** Every recorded `eq` pairs a lower and an upper bound of equal magnitude r >= 2 on
      matching terms, at valid positions of the core. */
  lemma {:induction false} EqsPaired(rewritesToTrue: (Expr, Expr) -> bool, core: seq<Expr>, order: seq<int>)
    requires forall k | k in order :: k in CollectBounds(core, |core|, NoBounds).lb
    ensures forall e | e in EqsAlong(rewritesToTrue, CollectBounds(core, |core|, NoBounds), order) ::
      PairedIn(rewritesToTrue, core, e)
    decreases |order|
  {
    var bm := CollectBounds(core, |core|, NoBounds);
    if order != [] {
      EqsPaired(rewritesToTrue, core, order[..|order| - 1]);
      var r := order[|order| - 1];
      CollectBoundsSpec(core, |core|);
      if r >= 2 && r in bm.ub {
        assert bm.lb[r][..|bm.lb[r]|] == bm.lb[r];
        PairsAtPaired(rewritesToTrue, core, bm, r, |bm.lb[r]|);
      }
    }
  }

  lemma EqPaired(rewritesToTrue: (Expr, Expr) -> bool, core: seq<Expr>, order: seq<int>, e: EqRecord)
    requires forall k | k in order :: k in CollectBounds(core, |core|, NoBounds).lb
    requires e in EqsAlong(rewritesToTrue, CollectBounds(core, |core|, NoBounds), order)
    ensures PairedIn(rewritesToTrue, core, e)
  {
    EqsPaired(rewritesToTrue, core, order);
  }

  /** No equal-magnitude lower/upper pair of magnitude 2 or more: no `eq` at all. */
  lemma NoPairNoEqs(rewritesToTrue: (Expr, Expr) -> bool, core: seq<Expr>, order: seq<int>)
    requires forall k | k in order :: k in CollectBounds(core, |core|, NoBounds).lb
    requires forall i, j | 0 <= i < |core| && 0 <= j < |core| &&
      NormalBound(core[i]).Some? && NormalBound(core[j]).Some? &&
      NormalBound(core[i]).value.isLower && !NormalBound(core[j]).value.isLower &&
      NormalBound(core[i]).value.value == NormalBound(core[j]).value.value ::
      NormalBound(core[i]).value.value < 2
    ensures EqsAlong(rewritesToTrue, CollectBounds(core, |core|, NoBounds), order) == []
  {
    var eqs := EqsAlong(rewritesToTrue, CollectBounds(core, |core|, NoBounds), order);
    if eqs != [] {
      EqPaired(rewritesToTrue, core, order, eqs[0]);
      assert false;
    }
  }

  /** Completeness of `get_eqs`: a lower bound of magnitude at least 2 with a matching
      upper bound of the same magnitude yields an `eq` for its literal, once every key is
      visited. */
  lemma EqsComplete(rewritesToTrue: (Expr, Expr) -> bool, core: seq<Expr>, order: seq<int>, i: nat, j: nat)
    requires forall k | k in order :: k in CollectBounds(core, |core|, NoBounds).lb
    requires forall k | k in CollectBounds(core, |core|, NoBounds).lb :: k in order
    requires i < |core| && j < |core|
    requires NormalBound(core[i]).Some? && NormalBound(core[i]).value.isLower && NormalBound(core[i]).value.value >= 2
    requires NormalBound(core[j]).Some? && !NormalBound(core[j]).value.isLower
    requires NormalBound(core[j]).value.value == NormalBound(core[i]).value.value
    requires Matches(rewritesToTrue, NormalBound(core[i]).value.term, NormalBound(core[j]).value.term)
    ensures exists e | e in EqsAlong(rewritesToTrue, CollectBounds(core, |core|, NoBounds), order) ::
      e.lower == i && e.term == NormalBound(core[i]).value.term && e.value == NormalBound(core[i]).value.value
  {
    var bm := CollectBounds(core, |core|, NoBounds);
    var lo, up := NormalBound(core[i]).value, NormalBound(core[j]).value;
    var r := lo.value;
    CollectBoundsSpec(core, |core|);
    assert TermLoc(lo.term, i) in bm.lb[r] && TermLoc(up.term, j) in bm.ub[r];
    var p :| 0 <= p < |bm.lb[r]| && bm.lb[r][p] == TermLoc(lo.term, i);
    assert HasMatch(rewritesToTrue, bm.lb[r][p].term, bm.ub[r]);
    PairsAtComplete(rewritesToTrue, r, bm.lb[r], bm.ub[r]);
    var e := EqRecord(lo.term, r, i, bm.ub[r][FirstMatch(rewritesToTrue, lo.term, bm.ub[r], 0)].index);
    assert e in KeyEqs(rewritesToTrue, bm, r);
    KeyEqsIn(rewritesToTrue, bm, order, r);
  }

  /** Entries under one key are in increasing position order. */
  ghost predicate Increasing(m: Bounds) {
    forall k, j1, j2 | k in m && 0 <= j1 < j2 < |m[k]| :: m[k][j1].index < m[k][j2].index
  }

  /** Appending a later position keeps the entries in order. */
  lemma InsertIncreasing(m: Bounds, key: int, t: TermLoc)
    requires Increasing(m)
    requires forall k, j | k in m && 0 <= j < |m[k]| :: m[k][j].index < t.index
    ensures Increasing(Insert(m, key, t))
  {
  }

  /** Literals are filed in the order they are read, so each key's entries are in
      increasing position order. */
  lemma {:induction false} FiledIncreasing(core: seq<Expr>, n: nat)
    requires n <= |core|
    ensures Increasing(CollectBounds(core, n, NoBounds).lb) && Increasing(CollectBounds(core, n, NoBounds).ub)
    decreases n
  {
    if n > 0 {
      FiledIncreasing(core, n - 1);
      CollectBoundsSpec(core, n - 1);
      var prev := CollectBounds(core, n - 1, NoBounds);
      match LiteralBound(core[n - 1])
      case None =>
      case Some(b) =>
        var nb := Normalize(Bound(b.isLower, b.term, b.value));
        if nb.isLower {
          InsertIncreasing(prev.lb, nb.value, TermLoc(nb.term, n - 1));
        } else {
          InsertIncreasing(prev.ub, nb.value, TermLoc(nb.term, n - 1));
        }
    }
  }

  /** Each literal is filed at most once: a position appears under only one key of one
      side, and only once there. */
  lemma FiledOnce(core: seq<Expr>, n: nat)
    requires n <= |core|
    ensures var bm := CollectBounds(core, n, NoBounds);
      forall k1, j1, k2, j2 | k1 in bm.lb && k2 in bm.lb && 0 <= j1 < |bm.lb[k1]| && 0 <= j2 < |bm.lb[k2]| &&
        bm.lb[k1][j1].index == bm.lb[k2][j2].index :: k1 == k2 && j1 == j2
    ensures var bm := CollectBounds(core, n, NoBounds);
      forall k1, j1, k2, j2 | k1 in bm.ub && k2 in bm.ub && 0 <= j1 < |bm.ub[k1]| && 0 <= j2 < |bm.ub[k2]| &&
        bm.ub[k1][j1].index == bm.ub[k2][j2].index :: k1 == k2 && j1 == j2
    ensures var bm := CollectBounds(core, n, NoBounds);
      forall k1, j1, k2, j2 | k1 in bm.lb && k2 in bm.ub && 0 <= j1 < |bm.lb[k1]| && 0 <= j2 < |bm.ub[k2]| ::
        bm.lb[k1][j1].index != bm.ub[k2][j2].index
  {
    FiledIncreasing(core, n);
    CollectBoundsSpec(core, n);
    var bm := CollectBounds(core, n, NoBounds);
    forall k1, j1, k2, j2 | k1 in bm.lb && k2 in bm.lb && 0 <= j1 < |bm.lb[k1]| && 0 <= j2 < |bm.lb[k2]| &&
      bm.lb[k1][j1].index == bm.lb[k2][j2].index
      ensures k1 == k2 && j1 == j2
    {
      assert NormalBound(core[bm.lb[k1][j1].index]) == Some(Bound(true, bm.lb[k1][j1].term, k1));
      assert NormalBound(core[bm.lb[k2][j2].index]) == Some(Bound(true, bm.lb[k2][j2].term, k2));
    }
    forall k1, j1, k2, j2 | k1 in bm.ub && k2 in bm.ub && 0 <= j1 < |bm.ub[k1]| && 0 <= j2 < |bm.ub[k2]| &&
      bm.ub[k1][j1].index == bm.ub[k2][j2].index
      ensures k1 == k2 && j1 == j2
    {
      assert NormalBound(core[bm.ub[k1][j1].index]) == Some(Bound(false, bm.ub[k1][j1].term, k1));
      assert NormalBound(core[bm.ub[k2][j2].index]) == Some(Bound(false, bm.ub[k2][j2].term, k2));
    }
    forall k1, j1, k2, j2 | k1 in bm.lb && k2 in bm.ub && 0 <= j1 < |bm.lb[k1]| && 0 <= j2 < |bm.ub[k2]|
      ensures bm.lb[k1][j1].index != bm.ub[k2][j2].index
    {
      assert NormalBound(core[bm.lb[k1][j1].index]) == Some(Bound(true, bm.lb[k1][j1].term, k1));
      assert NormalBound(core[bm.ub[k2][j2].index]) == Some(Bound(false, bm.ub[k2][j2].term, k2));
    }
  }

  /** The two literals of an `eq` force its term to equal its value. */
  lemma EqImpliesEquality(rewritesToTrue: (Expr, Expr) -> bool, core: seq<Expr>, e: EqRecord, env: Env)
    requires PairedIn(rewritesToTrue, core, e) && RewriterSound(rewritesToTrue) && WellSorted(env)
    requires Holds(core[e.lower], env) && Holds(core[e.upper], env)
    ensures Val(e.term, env) == e.value as real
  {
    NormalBoundSound(core[e.lower], env);
    NormalBoundSound(core[e.upper], env);
  }
}
