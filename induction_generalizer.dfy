/** `core_induction_generalizer`: instantiating a Peano induction schema over the levels
    of a predicate, as a conjunction handed to an SMT kernel. */
module Induction {
  import opened Syntax

  const Two32: int := 0x1_0000_0000

  /** Unsigned 32-bit arithmetic of the source's `unsigned` levels. */
  function Wrap32(x: int): (r: nat)
    ensures r < Two32
    ensures 0 <= x < Two32 ==> r == x
    ensures Two32 <= x < 2 * Two32 ==> r == x - Two32
    ensures -Two32 <= x < 0 ==> r == x + Two32
  {
    x % Two32
  }

  // ---------------------------------------------------------------
  // mk_pred: the name of the level-indexed copy of a predicate

  function Digit(d: nat): char
    requires d < 10
  {
    ('0' as int + d) as char
  }

  /** Decimal notation of a natural number. */
  function Decimal(n: nat): (s: string)
    ensures 1 <= |s|
    ensures forall i | 0 <= i < |s| :: '0' <= s[i] <= '9'
    ensures n >= 10 ==> 2 <= |s|
  {
    if n < 10 then [Digit(n)] else Decimal(n / 10) + [Digit(n % 10)]
  }

  lemma {:induction false} DecimalInjective(m: nat, n: nat)
    requires Decimal(m) == Decimal(n)
    ensures m == n
  {
    if m >= 10 && n >= 10 {
      var sm, sn := Decimal(m), Decimal(n);
      assert sm[..|sm| - 1] == Decimal(m / 10);
      assert sn[..|sn| - 1] == Decimal(n / 10);
      DecimalInjective(m / 10, n / 10);
      assert Digit(m % 10) == sm[|sm| - 1];
    } else if m < 10 && n < 10 {
      assert Digit(m) == Decimal(m)[0];
    }
  }

  /** `mk_pred(level, f)`: the symbol `f_level`. */
  function PredName(f: string, level: nat): string {
    f + "_" + Decimal(level)
  }

  /** Length of the run of non-`_` characters that ends the string. */
  function SuffixLen(s: string): nat
    decreases |s|
  {
    if s == [] || s[|s| - 1] == '_' then 0 else 1 + SuffixLen(s[..|s| - 1])
  }

  lemma {:induction false} TrailingDigits(f: string, d: string)
    requires forall i | 0 <= i < |d| :: '0' <= d[i] <= '9'
    ensures SuffixLen(f + "_" + d) == |d|
    decreases |d|
  {
    if d != [] {
      var s := f + "_" + d;
      assert s[|s| - 1] == d[|d| - 1];
      assert s[..|s| - 1] == f + "_" + d[..|d| - 1];
      TrailingDigits(f, d[..|d| - 1]);
    } else {
      assert (f + "_" + d)[|f|] == '_';
    }
  }

  /** Distinct (predicate, level) pairs get distinct symbols: the level's digits hold no
      `_`, so the last `_` separates the two. */
  lemma PredNameInjective(f1: string, l1: nat, f2: string, l2: nat)
    requires PredName(f1, l1) == PredName(f2, l2)
    ensures f1 == f2 && l1 == l2
  {
    var s := PredName(f1, l1);
    var d1, d2 := Decimal(l1), Decimal(l2);
    TrailingDigits(f1, d1);
    TrailingDigits(f2, d2);
    PredNameParts(f1, l1);
    PredNameParts(f2, l2);
    DecimalInjective(l1, l2);
  }

  lemma PredNameParts(f: string, l: nat)
    ensures |PredName(f, l)| == |f| + 1 + |Decimal(l)|
    ensures PredName(f, l)[..|f|] == f
    ensures PredName(f, l)[|f| + 1..] == Decimal(l)
  {
    var s := PredName(f, l);
    assert s == f + ("_" + Decimal(l));
  }

  // ---------------------------------------------------------------
  // Relations and rules

  /** An uninterpreted tail atom: a relation applied to arguments. */
  datatype Atom = Atom(rel: nat, args: seq<Expr>)

  /** `head(args) <- tail atoms, constraints`; the constraints are the interpreted tail. */
  datatype Rule = Rule(head: seq<Expr>, tail: seq<Atom>, constraints: seq<Expr>)

  /** Per relation: its symbol name, its representative constants (`mk_reps`) and its
      rules (`pt.rules()`). */
  datatype System = System(names: seq<string>, reps: seq<seq<Expr>>, rules: seq<seq<Rule>>)

  predicate WellFormed(sys: System) {
    && |sys.names| == |sys.rules|
    && |sys.reps| == |sys.rules|
    && (forall r, i | 0 <= r < |sys.rules| && 0 <= i < |sys.rules[r]| ::
          |sys.rules[r][i].head| == |sys.reps[r]|)
    && (forall r, i, j | 0 <= r < |sys.rules| && 0 <= i < |sys.rules[r]| && 0 <= j < |sys.rules[r][i].tail| ::
          sys.rules[r][i].tail[j].rel < |sys.rules|)
  }

  // ---------------------------------------------------------------
  // Head binding (lines 359-374)

  function VarSlot(e: Expr): nat {
    if e.Var? then e.index + 1 else 0
  }

  /** One past the largest variable index among the head's variable arguments. */
  function SubSize(head: seq<Expr>): nat
    decreases |head|
  {
    if head == [] then 0
    else
      var prev := SubSize(head[..|head| - 1]);
      var last := VarSlot(head[|head| - 1]);
      if prev < last then last else prev
  }

  lemma {:induction false} SubSizeBound(head: seq<Expr>, j: nat)
    requires j < |head|
    ensures VarSlot(head[j]) <= SubSize(head)
    decreases |head|
  {
    if j < |head| - 1 {
      assert head[..|head| - 1][j] == head[j];
      SubSizeBound(head[..|head| - 1], j);
    }
  }

  /** Position of the first argument that is variable `idx`, at or after `j`; `|head|`
      when there is none. */
  function FirstVarFrom(head: seq<Expr>, idx: nat, j: nat): (p: nat)
    requires j <= |head|
    ensures j <= p <= |head|
    ensures forall q | j <= q < p :: head[q] != Var(idx)
    ensures p < |head| ==> head[p] == Var(idx)
    decreases |head| - j
  {
    if j == |head| || head[j] == Var(idx) then j else FirstVarFrom(head, idx, j + 1)
  }

  function FirstVarPos(head: seq<Expr>, idx: nat): nat {
    FirstVarFrom(head, idx, 0)
  }

  /** The substitution: each variable of the head is bound to the representative at
      its first position. */
  function Substitution(head: seq<Expr>, reps: seq<Expr>): seq<Option<Expr>>
    requires |head| == |reps|
  {
    seq(SubSize(head), idx requires 0 <= idx =>
      if FirstVarPos(head, idx) < |head| then Some(reps[FirstVarPos(head, idx)]) else None)
  }

  /** Whether position `i` is the first occurrence of its variable. */
  predicate IsFirst(head: seq<Expr>, i: nat)
    requires i < |head|
  {
    head[i].Var? && FirstVarPos(head, head[i].index) == i
  }

  /** The head argument at `i` after the substitution is applied. */
  function Resolved(head: seq<Expr>, reps: seq<Expr>, i: nat): Expr
    requires i < |head| == |reps|
  {
    if head[i].Var? then reps[FirstVarPos(head, head[i].index)] else head[i]
  }

  /** The equalities for the first `n` positions: one per position that is not the first
      occurrence of a variable. */
  function HeadEqualities(head: seq<Expr>, reps: seq<Expr>, n: nat): seq<Expr>
    requires n <= |head| == |reps|
  {
    if n == 0 then []
    else
      var last := if IsFirst(head, n - 1) then [] else [Eq(Resolved(head, reps, n - 1), reps[n - 1])];
      HeadEqualities(head, reps, n - 1) + last
  }

  /** Every head position is accounted for: a first occurrence by the substitution, any
      other position by the equality `head[i] = reps[i]` after substitution. */
  lemma {:induction false} HeadBindingCovers(head: seq<Expr>, reps: seq<Expr>, i: nat)
    requires i < |head| == |reps|
    ensures IsFirst(head, i) ==>
      head[i].index < |Substitution(head, reps)| && Substitution(head, reps)[head[i].index] == Some(reps[i])
    ensures !IsFirst(head, i) ==> Eq(Resolved(head, reps, i), reps[i]) in HeadEqualities(head, reps, |head|)
  {
    if IsFirst(head, i) {
      SubSizeBound(head, i);
    } else {
      HeadEqualitiesGrow(head, reps, i + 1, |head|);
      var he := HeadEqualities(head, reps, i + 1);
      assert he[|he| - 1] == Eq(Resolved(head, reps, i), reps[i]);
      assert HeadEqualities(head, reps, |head|)[|he| - 1] == he[|he| - 1];
    }
  }

  lemma {:induction false} HeadEqualitiesGrow(head: seq<Expr>, reps: seq<Expr>, m: nat, n: nat)
    requires m <= n <= |head| == |reps|
    ensures |HeadEqualities(head, reps, m)| <= |HeadEqualities(head, reps, n)|
    ensures HeadEqualities(head, reps, n)[..|HeadEqualities(head, reps, m)|] == HeadEqualities(head, reps, m)
    decreases n - m
  {
    if m < n {
      HeadEqualitiesGrow(head, reps, m, n - 1);
    }
  }

  /** Conversely, each equality is one of those: it stands for a position that is not a
      first occurrence. */
  lemma {:induction false} HeadEqualitiesOnly(head: seq<Expr>, reps: seq<Expr>, n: nat, e: Expr)
    requires n <= |head| == |reps|
    requires e in HeadEqualities(head, reps, n)
    ensures exists i | 0 <= i < n :: !IsFirst(head, i) && e == Eq(Resolved(head, reps, i), reps[i])
  {
    if e !in HeadEqualities(head, reps, n - 1) {
      assert !IsFirst(head, n - 1) && e == Eq(Resolved(head, reps, n - 1), reps[n - 1]);
    } else {
      HeadEqualitiesOnly(head, reps, n - 1, e);
    }
  }

  /** What the head-binding loop knows after the first `i` positions: the substitution so
      far binds each variable first seen before `i`, and the equalities are those of the
      first `i` positions. */
  ghost predicate BoundUpTo(head: seq<Expr>, reps: seq<Expr>, i: nat, sub: seq<Option<Expr>>, conj: seq<Expr>)
    requires i <= |head| == |reps|
  {
    && |sub| == SubSize(head[..i])
    && (forall idx | 0 <= idx < |sub| ::
          sub[idx] == if FirstVarPos(head, idx) < i then Some(reps[FirstVarPos(head, idx)]) else None)
    && (forall idx: nat | |sub| <= idx :: i <= FirstVarPos(head, idx))
    && conj == HeadEqualities(head, reps, i)
  }

  /** One round of the head-binding loop (lines 360-373), on position `i`. */
  method BindArg(head: seq<Expr>, reps: seq<Expr>, i: nat, sub: seq<Option<Expr>>, conj: seq<Expr>)
    returns (sub': seq<Option<Expr>>, conj': seq<Expr>)
    requires i < |head| == |reps| && BoundUpTo(head, reps, i, sub, conj)
    ensures BoundUpTo(head, reps, i + 1, sub', conj')
  {
    var arg := head[i];
    if arg.Var? {
      var idx := arg.index;
      var grown := sub;
      if idx >= |sub| {
        grown := sub + seq(idx + 1 - |sub|, _ => None);
      }
      BindVar(head, reps, i, sub, conj, grown);
      if grown[idx].Some? {
        sub', conj' := grown, conj + [Eq(grown[idx].value, reps[i])];
      } else {
        sub', conj' := grown[idx := Some(reps[i])], conj;
      }
    } else {
      BindOther(head, reps, i, sub, conj);
      sub', conj' := sub, conj + [Eq(arg, reps[i])];
    }
  }

  /** Whether the first occurrence of `x` is before `i + 1`, given it is not before `i`. */
  lemma FirstVarAt(head: seq<Expr>, x: nat, i: nat)
    requires i < |head| && i <= FirstVarPos(head, x)
    ensures FirstVarPos(head, x) == i <==> head[i] == Var(x)
  {
  }

  lemma BindOther(head: seq<Expr>, reps: seq<Expr>, i: nat, sub: seq<Option<Expr>>, conj: seq<Expr>)
    requires i < |head| == |reps| && BoundUpTo(head, reps, i, sub, conj) && !head[i].Var?
    ensures BoundUpTo(head, reps, i + 1, sub, conj + [Eq(head[i], reps[i])])
  {
    assert head[..i + 1][..i] == head[..i];
    forall x: nat | FirstVarPos(head, x) >= i ensures FirstVarPos(head, x) != i {
      FirstVarAt(head, x, i);
    }
  }

  /** The substitution widened to the variable at `i`, before that variable is bound. */
  lemma BindGrow(head: seq<Expr>, reps: seq<Expr>, i: nat, sub: seq<Option<Expr>>, conj: seq<Expr>,
                 grown: seq<Option<Expr>>)
    requires i < |head| == |reps| && BoundUpTo(head, reps, i, sub, conj) && head[i].Var?
    requires grown == if head[i].index >= |sub| then sub + seq(head[i].index + 1 - |sub|, _ => None) else sub
    ensures head[i].index < |grown| == SubSize(head[..i + 1])
    ensures forall x | 0 <= x < |grown| ::
      grown[x] == if FirstVarPos(head, x) < i then Some(reps[FirstVarPos(head, x)]) else None
    ensures forall x: nat | |grown| <= x :: i + 1 <= FirstVarPos(head, x)
    ensures FirstVarPos(head, head[i].index) <= i
    ensures IsFirst(head, i) <==> grown[head[i].index].None?
  {
    var idx := head[i].index;
    assert head[..i + 1][..i] == head[..i];
    forall x: nat | |grown| <= x ensures i + 1 <= FirstVarPos(head, x) {
      FirstVarAt(head, x, i);
    }
    forall x | 0 <= x < |grown| ensures grown[x] == if FirstVarPos(head, x) < i then Some(reps[FirstVarPos(head, x)]) else None {
      if x >= |sub| {
        assert i <= FirstVarPos(head, x);
      }
    }
    if FirstVarPos(head, idx) >= i {
      FirstVarAt(head, idx, i);
    }
  }

  lemma BindVar(head: seq<Expr>, reps: seq<Expr>, i: nat, sub: seq<Option<Expr>>, conj: seq<Expr>,
                grown: seq<Option<Expr>>)
    requires i < |head| == |reps| && BoundUpTo(head, reps, i, sub, conj) && head[i].Var?
    requires grown == if head[i].index >= |sub| then sub + seq(head[i].index + 1 - |sub|, _ => None) else sub
    ensures head[i].index < |grown|
    ensures grown[head[i].index].Some? ==>
      BoundUpTo(head, reps, i + 1, grown, conj + [Eq(grown[head[i].index].value, reps[i])])
    ensures grown[head[i].index].None? ==>
      BoundUpTo(head, reps, i + 1, grown[head[i].index := Some(reps[i])], conj)
  {
    BindGrow(head, reps, i, sub, conj, grown);
    var idx := head[i].index;
    forall x: nat | x != idx && FirstVarPos(head, x) >= i ensures FirstVarPos(head, x) != i {
      FirstVarAt(head, x, i);
    }
    if grown[idx].Some? {
      BindRepeat(head, reps, i, conj, grown);
    } else {
      BindFirst(head, reps, i, conj, grown);
    }
  }

  lemma BindRepeat(head: seq<Expr>, reps: seq<Expr>, i: nat, conj: seq<Expr>, grown: seq<Option<Expr>>)
    requires i < |head| == |reps| && head[i].Var? && head[i].index < |grown| == SubSize(head[..i + 1])
    requires forall x | 0 <= x < |grown| ::
      grown[x] == if FirstVarPos(head, x) < i then Some(reps[FirstVarPos(head, x)]) else None
    requires forall x: nat | |grown| <= x :: i + 1 <= FirstVarPos(head, x)
    requires forall x: nat | x != head[i].index && FirstVarPos(head, x) >= i :: FirstVarPos(head, x) != i
    requires conj == HeadEqualities(head, reps, i)
    requires grown[head[i].index].Some? && (IsFirst(head, i) <==> grown[head[i].index].None?)
    ensures BoundUpTo(head, reps, i + 1, grown, conj + [Eq(grown[head[i].index].value, reps[i])])
  {
  }

  lemma BindFirst(head: seq<Expr>, reps: seq<Expr>, i: nat, conj: seq<Expr>, grown: seq<Option<Expr>>)
    requires i < |head| == |reps| && head[i].Var? && head[i].index < |grown| == SubSize(head[..i + 1])
    requires forall x | 0 <= x < |grown| ::
      grown[x] == if FirstVarPos(head, x) < i then Some(reps[FirstVarPos(head, x)]) else None
    requires forall x: nat | |grown| <= x :: i + 1 <= FirstVarPos(head, x)
    requires forall x: nat | x != head[i].index && FirstVarPos(head, x) >= i :: FirstVarPos(head, x) != i
    requires conj == HeadEqualities(head, reps, i)
    requires FirstVarPos(head, head[i].index) <= i
    requires grown[head[i].index].None? && (IsFirst(head, i) <==> grown[head[i].index].None?)
    ensures BoundUpTo(head, reps, i + 1, grown[head[i].index := Some(reps[i])], conj)
  {
  }

  /** The head-binding loop of `mk_transition_rule`. */
  method BindHead(head: seq<Expr>, reps: seq<Expr>) returns (sub: seq<Option<Expr>>, conj: seq<Expr>)
    requires |head| == |reps|
    ensures sub == Substitution(head, reps)
    ensures conj == HeadEqualities(head, reps, |head|)
  {
    sub := [];
    conj := [];
    for i := 0 to |head|
      invariant BoundUpTo(head, reps, i, sub, conj)
    {
      sub, conj := BindArg(head, reps, i, sub, conj);
    }
    assert head[..|head|] == head;
  }

  // ---------------------------------------------------------------
  // mk_transition_rule and mk_blocked_transition

  predicate RuleFits(sys: System, reps: seq<Expr>, rule: Rule) {
    |rule.head| == |reps| && forall j | 0 <= j < |rule.tail| :: rule.tail[j].rel < |sys.names|
  }

  /** The tail atoms as applications of the level-`level` copies of their relations. */
  function TailApps(sys: System, tail: seq<Atom>, level: nat): seq<Expr>
    requires forall j | 0 <= j < |tail| :: tail[j].rel < |sys.names|
  {
    seq(|tail|, j requires 0 <= j < |tail| => App(PredName(sys.names[tail[j].rel], level), tail[j].args))
  }

  /** The conjuncts of a rule's transition at `level`. */
  function RuleBody(sys: System, reps: seq<Expr>, level: nat, rule: Rule): seq<Expr>
    requires RuleFits(sys, reps, rule)
  {
    HeadEqualities(rule.head, reps, |rule.head|)
      + (if level > 0 then TailApps(sys, rule.tail, level - 1) else [])
      + rule.constraints
  }

  /** `exists y z . F[Q_{level-1}, x, y, z]`: `false` for a rule with a tail at level 0. */
  function TransitionRule(sys: System, reps: seq<Expr>, level: nat, rule: Rule): Expr
    requires RuleFits(sys, reps, rule)
  {
    if level == 0 && 0 < |rule.tail| then False
    else Bind(Substitution(rule.head, reps), MkAnd(RuleBody(sys, reps, level, rule)))
  }

  /** Every tail atom appears in the body at the level below, and every predicate in the
      body comes from a tail atom (constraints aside). */
  lemma RuleBodyApps(sys: System, reps: seq<Expr>, level: nat, rule: Rule)
    requires RuleFits(sys, reps, rule) && 0 < level
    requires forall c | c in rule.constraints :: !c.App?
    ensures forall j | 0 <= j < |rule.tail| ::
      App(PredName(sys.names[rule.tail[j].rel], level - 1), rule.tail[j].args) in RuleBody(sys, reps, level, rule)
    ensures forall e | e in RuleBody(sys, reps, level, rule) && e.App? ::
      exists j | 0 <= j < |rule.tail| :: e == App(PredName(sys.names[rule.tail[j].rel], level - 1), rule.tail[j].args)
  {
    var he := HeadEqualities(rule.head, reps, |rule.head|);
    var apps := TailApps(sys, rule.tail, level - 1);
    forall j | 0 <= j < |rule.tail|
      ensures App(PredName(sys.names[rule.tail[j].rel], level - 1), rule.tail[j].args) in RuleBody(sys, reps, level, rule)
    {
      assert RuleBody(sys, reps, level, rule)[|he| + j] == apps[j];
    }
    forall e | e in RuleBody(sys, reps, level, rule) && e.App?
      ensures exists j | 0 <= j < |rule.tail| :: e == App(PredName(sys.names[rule.tail[j].rel], level - 1), rule.tail[j].args)
    {
      if e in he {
        HeadEqualitiesOnly(rule.head, reps, |rule.head|, e);
      }
      assert e !in he && e !in rule.constraints;
      assert e in apps;
    }
  }

  /** `mk_transition_rule(reps, level, rule)` (lines 341-401). */
  method MkTransitionRule(sys: System, reps: seq<Expr>, level: nat, rule: Rule) returns (result: Expr)
    requires RuleFits(sys, reps, rule)
    ensures result == TransitionRule(sys, reps, level, rule)
  {
    if level == 0 && 0 < |rule.tail| {
      return False;
    }
    var sub, conj := BindHead(rule.head, reps);
    if 0 < level {
      conj := AppendTail(sys, rule.tail, level, conj);
    }
    conj := AppendConstraints(conj, rule.constraints);
    result := Bind(sub, MkAnd(conj));
  }

  /** The tail atoms at the level below, appended (lines 375-380). */
  method AppendTail(sys: System, tail: seq<Atom>, level: nat, conj: seq<Expr>) returns (conj': seq<Expr>)
    requires 0 < level && forall j | 0 <= j < |tail| :: tail[j].rel < |sys.names|
    ensures conj' == conj + TailApps(sys, tail, level - 1)
  {
    ghost var apps := TailApps(sys, tail, level - 1);
    conj' := conj;
    for i := 0 to |tail|
      invariant conj' == conj + apps[..i]
    {
      assert apps[..i + 1] == apps[..i] + [App(PredName(sys.names[tail[i].rel], level - 1), tail[i].args)];
      conj' := conj' + [App(PredName(sys.names[tail[i].rel], level - 1), tail[i].args)];
    }
    assert apps[..|tail|] == apps;
  }

  /** The interpreted constraints, appended (lines 381-383). */
  method AppendConstraints(conj: seq<Expr>, cs: seq<Expr>) returns (conj': seq<Expr>)
    ensures conj' == conj + cs
  {
    conj' := conj;
    for j := 0 to |cs|
      invariant conj' == conj + cs[..j]
    {
      assert cs[..j + 1] == cs[..j] + [cs[j]];
      conj' := conj' + [cs[j]];
    }
    assert cs[..|cs|] == cs;
  }

  /** The rules of a relation fit its representatives. */
  predicate ValidRel(sys: System, rel: nat) {
    WellFormed(sys) && rel < |sys.rules|
  }

  /** The negated transition of each rule of `rel`. */
  function BlockedParts(sys: System, rel: nat, level: nat): (r: seq<Expr>)
    requires ValidRel(sys, rel)
    ensures |r| == |sys.rules[rel]|
  {
    seq(|sys.rules[rel]|, i requires 0 <= i < |sys.rules[rel]| =>
      Not(TransitionRule(sys, sys.reps[rel], level, sys.rules[rel][i])))
  }

  /** `not exists y . F(x, y)`: the negated transitions of every rule, conjoined. */
  function BlockedTransition(sys: System, rel: nat, level: nat): Expr
    requires ValidRel(sys, rel)
  {
    MkAnd(BlockedParts(sys, rel, level))
  }

  /** The blocked transition holds exactly when no rule's transition does. */
  lemma BlockedTransitionMeaning(sys: System, rel: nat, level: nat, env: Env)
    requires ValidRel(sys, rel)
    ensures Holds(BlockedTransition(sys, rel, level), env) <==>
      forall i | 0 <= i < |sys.rules[rel]| :: !Holds(TransitionRule(sys, sys.reps[rel], level, sys.rules[rel][i]), env)
  {
    var fmls := BlockedParts(sys, rel, level);
    MkAndHolds(fmls, env);
    assert forall i | 0 <= i < |fmls| :: Holds(fmls[i], env) == !Holds(TransitionRule(sys, sys.reps[rel], level, sys.rules[rel][i]), env);
  }

  /** `mk_blocked_transition(pt, level)` (lines 469-480). */
  method MkBlockedTransition(sys: System, rel: nat, level: nat) returns (fml: Expr)
    requires ValidRel(sys, rel) && 0 < level
    ensures fml == BlockedTransition(sys, rel, level)
  {
    ghost var parts := BlockedParts(sys, rel, level);
    var fmls: seq<Expr> := [];
    for i := 0 to |sys.rules[rel]|
      invariant fmls == parts[..i]
    {
      var tr := MkTransitionRule(sys, sys.reps[rel], level, sys.rules[rel][i]);
      assert parts[i] == Not(tr);
      TakeStep(parts, i);
      fmls := fmls + [Not(tr)];
    }
    assert parts[..|parts|] == parts;
    fml := MkAnd(fmls);
  }

  /** A prefix one longer is the prefix and the next element. */
  lemma TakeStep(s: seq<Expr>, i: nat)
    requires i < |s|
    ensures s[..i + 1] == s[..i] + [s[i]]
  {
  }

  // ---------------------------------------------------------------
  // mk_induction_goal

  /** The conjuncts of the goal. The property `Q_level(x) => phi(x)`, the transition
      axiom and the property of the frame formulas are kept as tagged parts; their
      quantifier construction is not modelled. */
  datatype GoalPart =
    | NotProperty(rel: nat, level: nat, phi: Expr)
    | Property(rel: nat, level: nat, phi: Expr)
    | TransitionAxiom(rel: nat, level: nat)
    | FrameProperty(rel: nat, level: nat)

  /** The induction-hypothesis levels `lo, lo+1, ..., hi-1` that are positive. */
  function HypothesisLevels(lo: nat, hi: nat): seq<nat>
    decreases hi
  {
    if hi <= lo then [] else HypothesisLevels(lo, hi - 1) + (if hi - 1 > 0 then [hi - 1] else [])
  }

  /** The hypothesis levels of the goal, starting from the unsigned `level - depth`. */
  function Hypotheses(level: nat, depth: nat): seq<nat> {
    HypothesisLevels(Wrap32(level - depth), level)
  }

  lemma {:induction false} HypothesisLevelsRange(lo: nat, hi: nat)
    ensures forall l :: l in HypothesisLevels(lo, hi) <==> 0 < l && lo <= l < hi
    ensures forall p, q | 0 <= p < q < |HypothesisLevels(lo, hi)| :: HypothesisLevels(lo, hi)[p] < HypothesisLevels(lo, hi)[q]
    decreases hi
  {
    if lo < hi {
      HypothesisLevelsRange(lo, hi - 1);
      var prev := HypothesisLevels(lo, hi - 1);
      assert forall p | 0 <= p < |prev| :: prev[p] in prev;
    }
  }

  /** Wrap-around of `level - depth` is harmless when `depth <= level` or `level <= 1`
      (so always for the depth 2 of `operator()`): the hypotheses are exactly the
      positive levels within `depth` below `level`, in increasing order. */
  lemma HypothesesRange(level: nat, depth: nat)
    requires level < Two32 && depth < Two32
    requires depth <= level || level <= 1
    ensures forall l :: l in Hypotheses(level, depth) <==> 0 < l < level && level <= l + depth
    ensures forall p, q | 0 <= p < q < |Hypotheses(level, depth)| :: Hypotheses(level, depth)[p] < Hypotheses(level, depth)[q]
  {
    HypothesisLevelsRange(Wrap32(level - depth), level);
  }

  /** The induction-hypothesis properties for the given levels. */
  ghost function HypothesisParts(sys: System, rel: nat, ls: seq<nat>): seq<GoalPart>
    requires ValidRel(sys, rel)
  {
    seq(|ls|, k requires 0 <= k < |ls| => Property(rel, ls[k], BlockedTransition(sys, rel, ls[k])))
  }

  /** The goal as the hypothesis loop leaves it: the negated property at `level`, then the
      property at each hypothesis level. */
  ghost function GoalHead(sys: System, rel: nat, level: nat, depth: nat): seq<GoalPart>
    requires ValidRel(sys, rel)
  {
    [NotProperty(rel, level, BlockedTransition(sys, rel, level))] + HypothesisParts(sys, rel, Hypotheses(level, depth))
  }

  lemma GoalHeadParts(sys: System, rel: nat, level: nat, depth: nat)
    requires ValidRel(sys, rel)
    ensures |GoalHead(sys, rel, level, depth)| == 1 + |Hypotheses(level, depth)|
    ensures GoalHead(sys, rel, level, depth)[0] == NotProperty(rel, level, BlockedTransition(sys, rel, level))
  {
  }

  /** The pruning test of line 512, negated: the pair at `lvl` is expanded. */
  predicate Expanded(lvl: nat, depth: nat, level: nat) {
    !(Wrap32(lvl + depth) < level || lvl == 0)
  }

  ghost predicate Present(pts: seq<nat>, levels: seq<nat>, r: nat, l: nat)
    requires |pts| == |levels|
  {
    exists m | 0 <= m < |pts| :: pts[m] == r && levels[m] == l
  }

  ghost predicate Distinct(pts: seq<nat>, levels: seq<nat>)
    requires |pts| == |levels|
  {
    forall p, q | 0 <= p < q < |pts| :: pts[p] != pts[q] || levels[p] != levels[q]
  }

  /** The relations in the uninterpreted tails of a relation's rules. */
  ghost function Callees(sys: System, r: nat): set<nat>
    requires r < |sys.rules|
  {
    set i, j | 0 <= i < |sys.rules[r]| && 0 <= j < |sys.rules[r][i].tail| :: sys.rules[r][i].tail[j].rel
  }

  lemma PresentExtends(pts: seq<nat>, levels: seq<nat>, pts': seq<nat>, levels': seq<nat>)
    requires |pts| == |levels| && |pts'| == |levels'| && |pts| <= |pts'|
    requires pts'[..|pts|] == pts && levels'[..|levels|] == levels
    ensures forall r, l | Present(pts, levels, r, l) :: Present(pts', levels', r, l)
  {
    forall r, l | Present(pts, levels, r, l) ensures Present(pts', levels', r, l) {
      var m :| 0 <= m < |pts| && pts[m] == r && levels[m] == l;
      assert pts'[m] == pts[m] && levels'[m] == levels[m];
    }
  }

  /** The `found` loop and the push that follows it (lines 521-528). */
  method Enqueue(f: nat, lvl: nat, pts: seq<nat>, levels: seq<nat>) returns (pts': seq<nat>, levels': seq<nat>)
    requires |pts| == |levels| && 0 < lvl
    ensures Present(pts, levels, f, lvl - 1) ==> pts' == pts && levels' == levels
    ensures !Present(pts, levels, f, lvl - 1) ==> pts' == pts + [f] && levels' == levels + [lvl - 1]
  {
    var found := false;
    var k := 0;
    while !found && k < |levels|
      invariant 0 <= k <= |levels|
      invariant !found ==> forall m | 0 <= m < k :: !(pts[m] == f && levels[m] == lvl - 1)
      invariant found ==> Present(pts, levels, f, lvl - 1)
    {
      found := pts[k] == f && levels[k] + 1 == lvl;
      k := k + 1;
    }
    if !found {
      pts', levels' := pts + [f], levels + [lvl - 1];
    } else {
      pts', levels' := pts, levels;
    }
  }

  /** The worklist `pts', levels'` extends `pts, levels` by distinct pairs `(f, lvl - 1)` with `f` a
      callee of `qt`, and holds the tail relations of the first `i` rules of `qt` at `lvl - 1`. */
  ghost predicate EnqueuedUpTo(sys: System, qt: nat, lvl: nat, i: nat,
                               pts: seq<nat>, levels: seq<nat>, pts': seq<nat>, levels': seq<nat>)
    requires qt < |sys.rules| && i <= |sys.rules[qt]| && 0 < lvl
  {
    && |pts| == |levels| && |pts'| == |levels'| && |pts| <= |pts'|
    && pts'[..|pts|] == pts && levels'[..|levels|] == levels
    && Distinct(pts', levels')
    && (forall i', j' | 0 <= i' < i && 0 <= j' < |sys.rules[qt][i'].tail| ::
          Present(pts', levels', sys.rules[qt][i'].tail[j'].rel, lvl - 1))
    && (forall k | |pts| <= k < |pts'| :: levels'[k] == lvl - 1 && pts'[k] in Callees(sys, qt) && pts'[k] < |sys.rules|)
  }

  /** Enqueues the callees of `qt` at `lvl - 1` that are not yet present (lines 515-530). */
  method EnqueueCallees(sys: System, qt: nat, lvl: nat, pts: seq<nat>, levels: seq<nat>)
    returns (pts': seq<nat>, levels': seq<nat>)
    requires WellFormed(sys) && qt < |sys.rules| && 0 < lvl && |pts| == |levels|
    requires Distinct(pts, levels)
    ensures |pts'| == |levels'| && |pts| <= |pts'|
    ensures pts'[..|pts|] == pts && levels'[..|levels|] == levels
    ensures Distinct(pts', levels')
    ensures forall f | f in Callees(sys, qt) :: Present(pts', levels', f, lvl - 1)
    ensures forall k | |pts| <= k < |pts'| :: levels'[k] == lvl - 1 && pts'[k] in Callees(sys, qt) && pts'[k] < |sys.rules|
  {
    pts', levels' := pts, levels;
    assert pts[..|pts|] == pts && levels[..|levels|] == levels;
    for i := 0 to |sys.rules[qt]|
      invariant EnqueuedUpTo(sys, qt, lvl, i, pts, levels, pts', levels')
    {
      var p2, l2 := EnqueueTail(sys, qt, lvl, i, pts', levels');
      EnqueuedStep(sys, qt, lvl, i, pts, levels, pts', levels', p2, l2);
      pts', levels' := p2, l2;
    }
    CalleesEnqueued(sys, qt, lvl, pts, levels, pts', levels');
  }

  /** The inner loop for rule `i` of `qt`: its tail relations, enqueued at `lvl - 1`. */
  method EnqueueTail(sys: System, qt: nat, lvl: nat, i: nat, pts: seq<nat>, levels: seq<nat>)
    returns (pts': seq<nat>, levels': seq<nat>)
    requires WellFormed(sys) && qt < |sys.rules| && i < |sys.rules[qt]| && 0 < lvl && |pts| == |levels|
    requires Distinct(pts, levels)
    ensures |pts'| == |levels'| && |pts| <= |pts'|
    ensures pts'[..|pts|] == pts && levels'[..|levels|] == levels
    ensures Distinct(pts', levels')
    ensures forall j | 0 <= j < |sys.rules[qt][i].tail| :: Present(pts', levels', sys.rules[qt][i].tail[j].rel, lvl - 1)
    ensures forall k | |pts| <= k < |pts'| :: levels'[k] == lvl - 1 && pts'[k] in Callees(sys, qt) && pts'[k] < |sys.rules|
  {
    pts', levels' := pts, levels;
    var tail := sys.rules[qt][i].tail;
    for j := 0 to |tail|
      invariant |pts'| == |levels'| && |pts| <= |pts'|
      invariant pts'[..|pts|] == pts && levels'[..|levels|] == levels
      invariant Distinct(pts', levels')
      invariant forall j' | 0 <= j' < j :: Present(pts', levels', tail[j'].rel, lvl - 1)
      invariant forall k | |pts| <= k < |pts'| :: levels'[k] == lvl - 1 && pts'[k] in Callees(sys, qt) && pts'[k] < |sys.rules|
    {
      var f := tail[j].rel;
      assert f in Callees(sys, qt);
      var p2, l2 := Enqueue(f, lvl, pts', levels');
      if |p2| > |pts'| {
        assert p2[..|pts'|] == pts' && l2[..|levels'|] == levels';
        PresentExtends(pts', levels', p2, l2);
        assert p2[..|pts|] == pts;
        assert l2[..|levels|] == levels;
        assert p2[|pts'|] == f && l2[|pts'|] == lvl - 1;
      }
      pts', levels' := p2, l2;
    }
  }

  /** Enqueueing the tail of rule `i` extends the invariant of the rule loop to rule `i + 1`. */
  lemma EnqueuedStep(sys: System, qt: nat, lvl: nat, i: nat, pts: seq<nat>, levels: seq<nat>,
                     mid: seq<nat>, midLevels: seq<nat>, pts': seq<nat>, levels': seq<nat>)
    requires qt < |sys.rules| && i < |sys.rules[qt]| && 0 < lvl
    requires EnqueuedUpTo(sys, qt, lvl, i, pts, levels, mid, midLevels)
    requires |pts'| == |levels'| && |mid| <= |pts'|
    requires pts'[..|mid|] == mid && levels'[..|midLevels|] == midLevels
    requires Distinct(pts', levels')
    requires forall j | 0 <= j < |sys.rules[qt][i].tail| :: Present(pts', levels', sys.rules[qt][i].tail[j].rel, lvl - 1)
    requires forall k | |mid| <= k < |pts'| :: levels'[k] == lvl - 1 && pts'[k] in Callees(sys, qt) && pts'[k] < |sys.rules|
    ensures EnqueuedUpTo(sys, qt, lvl, i + 1, pts, levels, pts', levels')
  {
    PresentExtends(mid, midLevels, pts', levels');
    Prefix(mid, pts');
    Prefix(midLevels, levels');
    PrefixKept(mid, pts', |pts|);
    PrefixKept(midLevels, levels', |levels|);
  }

  /** Once every rule is done, every callee of `qt` is present at `lvl - 1`. */
  lemma CalleesEnqueued(sys: System, qt: nat, lvl: nat, pts: seq<nat>, levels: seq<nat>, pts': seq<nat>, levels': seq<nat>)
    requires qt < |sys.rules| && 0 < lvl && EnqueuedUpTo(sys, qt, lvl, |sys.rules[qt]|, pts, levels, pts', levels')
    ensures forall f | f in Callees(sys, qt) :: Present(pts', levels', f, lvl - 1)
  {
    forall f | f in Callees(sys, qt) ensures Present(pts', levels', f, lvl - 1) {
      var i', j' :| 0 <= i' < |sys.rules[qt]| && 0 <= j' < |sys.rules[qt][i'].tail| && sys.rules[qt][i'].tail[j'].rel == f;
    }
  }

  /** All (relation, level) pairs the worklist can hold. */
  ghost function Grid(n: nat, level: nat): set<(nat, nat)> {
    set r: nat, l: nat | r < n && l <= level :: (r, l)
  }

  ghost function Pairs(pts: seq<nat>, levels: seq<nat>): set<(nat, nat)>
    requires |pts| == |levels|
  {
    set k | 0 <= k < |pts| :: (pts[k], levels[k])
  }

  /** The negated goal and the induction hypotheses (lines 487-500). */
  method StartGoal(sys: System, rel: nat, level: nat, depth: nat)
    returns (conjs: seq<GoalPart>, pts: seq<nat>, levels: seq<nat>)
    requires ValidRel(sys, rel) && 0 < level < Two32 && depth < Two32
    ensures levels == [level] + Hypotheses(level, depth)
    ensures |pts| == |levels| && forall k | 0 <= k < |pts| :: pts[k] == rel
    ensures conjs == GoalHead(sys, rel, level, depth)
  {
    var phi := MkBlockedTransition(sys, rel, level);
    conjs := [NotProperty(rel, level, phi)];
    pts := [rel];
    levels := [level];
    var start := Wrap32(level - depth);
    var lvl := start;
    while lvl < level
      invariant start <= lvl && (start <= level ==> lvl <= level) && (level < start ==> lvl == start)
      invariant HeadUpTo(sys, rel, level, start, lvl, phi, conjs, pts, levels)
    {
      conjs, pts, levels := PushHypothesis(sys, rel, level, start, lvl, phi, conjs, pts, levels);
      lvl := lvl + 1;
    }
    assert HypothesisLevels(start, lvl) == Hypotheses(level, depth);
  }

  /** The goal, relations and levels once the hypothesis loop has reached `lvl`. */
  ghost predicate HeadUpTo(sys: System, rel: nat, level: nat, start: nat, lvl: nat, phi: Expr,
                           conjs: seq<GoalPart>, pts: seq<nat>, levels: seq<nat>)
    requires ValidRel(sys, rel)
  {
    && levels == [level] + HypothesisLevels(start, lvl)
    && |pts| == |levels| && (forall k | 0 <= k < |pts| :: pts[k] == rel)
    && conjs == [NotProperty(rel, level, phi)] + HypothesisParts(sys, rel, HypothesisLevels(start, lvl))
  }

  /** One round of that loop (lines 493-499): a positive level adds its property. */
  method PushHypothesis(sys: System, rel: nat, level: nat, start: nat, lvl: nat, phi: Expr,
                        conjs: seq<GoalPart>, pts: seq<nat>, levels: seq<nat>)
    returns (conjs': seq<GoalPart>, pts': seq<nat>, levels': seq<nat>)
    requires ValidRel(sys, rel) && start <= lvl
    requires HeadUpTo(sys, rel, level, start, lvl, phi, conjs, pts, levels)
    ensures HeadUpTo(sys, rel, level, start, lvl + 1, phi, conjs', pts', levels')
  {
    HypothesisStep(sys, rel, start, lvl);
    conjs', pts', levels' := conjs, pts, levels;
    if lvl > 0 {
      var psi := MkBlockedTransition(sys, rel, lvl);
      conjs' := conjs + [Property(rel, lvl, psi)];
      pts' := pts + [rel];
      levels' := levels + [lvl];
    }
  }

  /** One round of the hypothesis loop: a positive level adds its level and its property. */
  lemma HypothesisStep(sys: System, rel: nat, start: nat, lvl: nat)
    requires ValidRel(sys, rel) && start <= lvl
    ensures HypothesisLevels(start, lvl + 1) == HypothesisLevels(start, lvl) + (if lvl > 0 then [lvl] else [])
    ensures HypothesisParts(sys, rel, HypothesisLevels(start, lvl + 1)) ==
      HypothesisParts(sys, rel, HypothesisLevels(start, lvl)) + (if lvl > 0 then [Property(rel, lvl, BlockedTransition(sys, rel, lvl))] else [])
  {
    var hl := HypothesisLevels(start, lvl);
    if lvl > 0 {
      HypothesisPartsPush(sys, rel, hl, lvl);
    } else {
      assert HypothesisLevels(start, lvl + 1) == hl + [];
    }
  }

  lemma HypothesisPartsPush(sys: System, rel: nat, hl: seq<nat>, lvl: nat)
    requires ValidRel(sys, rel)
    ensures HypothesisParts(sys, rel, hl + [lvl]) ==
      HypothesisParts(sys, rel, hl) + [Property(rel, lvl, BlockedTransition(sys, rel, lvl))]
  {
    var a := HypothesisParts(sys, rel, hl + [lvl]);
    var b := HypothesisParts(sys, rel, hl) + [Property(rel, lvl, BlockedTransition(sys, rel, lvl))];
    assert |a| == |b|;
    forall k | 0 <= k < |a| ensures a[k] == b[k] {
      if k < |hl| {
        assert (hl + [lvl])[k] == hl[k];
      }
    }
  }

  /** The goal so far: the `1 + h` properties it started with, then the transition axiom
      and frame property of every worklist pair before `qhead`. */
  ghost predicate GoalSoFar(h: nat, conjs0: seq<GoalPart>, conjs: seq<GoalPart>,
                            pts: seq<nat>, levels: seq<nat>, qhead: nat)
    requires |pts| == |levels| && qhead <= |pts|
  {
    && |conjs0| == 1 + h && |conjs| == 1 + h + 2 * qhead && conjs[..1 + h] == conjs0
    && forall k | 0 <= k < qhead ::
      && conjs[1 + h + 2 * k] == TransitionAxiom(pts[k], levels[k])
      && conjs[2 + h + 2 * k] == FrameProperty(pts[k], levels[k])
  }

  /** Every worklist pair names a relation and a level within `depth + 1` below `level`. */
  ghost predicate InRange(sys: System, level: nat, depth: nat, pts: seq<nat>, levels: seq<nat>)
    requires |pts| == |levels|
  {
    forall k | 0 <= k < |pts| :: pts[k] < |sys.rules| && levels[k] <= level && level <= levels[k] + depth + 1
  }

  /** Every expanded pair before `qhead` has all its callees at the level below it in the worklist. */
  ghost predicate ClosedUpTo(sys: System, level: nat, depth: nat, pts: seq<nat>, levels: seq<nat>, qhead: nat)
    requires |pts| == |levels| && qhead <= |pts| && InRange(sys, level, depth, pts, levels)
  {
    forall k | 0 <= k < qhead && Expanded(levels[k], depth, level) ::
      forall f | f in Callees(sys, pts[k]) :: Present(pts, levels, f, levels[k] - 1)
  }

  /** Every pair after the first `start` was pushed by the earlier expanded pair `origin[k]`,
      as its callee at the level below. */
  ghost predicate Reached(sys: System, level: nat, depth: nat, start: nat,
                          pts: seq<nat>, levels: seq<nat>, origin: seq<nat>, qhead: nat)
    requires |pts| == |levels| && InRange(sys, level, depth, pts, levels)
  {
    && |origin| == |pts|
    && forall k {:trigger origin[k]} | start <= k < |pts| ::
      && origin[k] < k && origin[k] < qhead
      && Expanded(levels[origin[k]], depth, level)
      && levels[k] + 1 == levels[origin[k]]
      && pts[k] in Callees(sys, pts[origin[k]])
  }

  /** The pair `(r, l)` is a callee, at the level below, of the expanded pair `(pr, pl)`. */
  ghost predicate PushedBy(sys: System, level: nat, depth: nat, pr: nat, pl: nat, r: nat, l: nat)
    requires pr < |sys.rules|
  {
    Expanded(pl, depth, level) && l + 1 == pl && r in Callees(sys, pr)
  }

  /** Some expanded pair before `k` has the pair at `k` as a callee at the level below. */
  ghost predicate HasPusher(sys: System, level: nat, depth: nat, pts: seq<nat>, levels: seq<nat>, k: nat)
    requires |pts| == |levels| && k < |pts| && InRange(sys, level, depth, pts, levels)
  {
    exists m | 0 <= m < k :: PushedBy(sys, level, depth, pts[m], levels[m], pts[k], levels[k])
  }

  ghost predicate Walking(sys: System, level: nat, depth: nat, h: nat,
                          conjs0: seq<GoalPart>, pts0: seq<nat>, levels0: seq<nat>,
                          conjs: seq<GoalPart>, pts: seq<nat>, levels: seq<nat>, origin: seq<nat>, qhead: nat)
  {
    && qhead <= |pts| == |levels| && |pts0| == |levels0| == 1 + h <= |pts|
    && pts[..|pts0|] == pts0 && levels[..|levels0|] == levels0
    && GoalSoFar(h, conjs0, conjs, pts, levels, qhead)
    && InRange(sys, level, depth, pts, levels)
    && Distinct(pts, levels)
    && ClosedUpTo(sys, level, depth, pts, levels, qhead)
    && Reached(sys, level, depth, 1 + h, pts, levels, origin, qhead)
  }

  /** One round of the worklist loop (lines 503-530) on the pair at `qhead`. */
  method WalkStep(sys: System, level: nat, depth: nat, h: nat,
                  conjs0: seq<GoalPart>, pts0: seq<nat>, levels0: seq<nat>,
                  conjs: seq<GoalPart>, pts: seq<nat>, levels: seq<nat>, ghost origin: seq<nat>, qhead: nat)
    returns (conjs': seq<GoalPart>, pts': seq<nat>, levels': seq<nat>, ghost origin': seq<nat>)
    requires WellFormed(sys) && level < Two32 && depth < Two32
    requires Walking(sys, level, depth, h, conjs0, pts0, levels0, conjs, pts, levels, origin, qhead) && qhead < |pts|
    requires Pairs(pts, levels) <= Grid(|sys.rules|, level)
    ensures Walking(sys, level, depth, h, conjs0, pts0, levels0, conjs', pts', levels', origin', qhead + 1)
    ensures Pairs(pts', levels') <= Grid(|sys.rules|, level)
    ensures (pts' == pts && levels' == levels) || Grid(|sys.rules|, level) - Pairs(pts', levels') < Grid(|sys.rules|, level) - Pairs(pts, levels)
  {
    var qt := pts[qhead];
    var lvl := levels[qhead];
    conjs' := conjs + [TransitionAxiom(qt, lvl), FrameProperty(qt, lvl)];
    if Wrap32(lvl + depth) < level || lvl == 0 {
      pts', levels', origin' := pts, levels, origin;
      PrunedStep(sys, level, depth, h, conjs0, pts0, levels0, conjs, pts, levels, origin, qhead, conjs');
    } else {
      pts', levels' := EnqueueCallees(sys, qt, lvl, pts, levels);
      origin' := origin + seq(|pts'| - |pts|, _ => qhead);
      GrowAccount(sys, level, depth, qhead, pts, levels, pts', levels');
      ExpandedStep(sys, level, depth, h, conjs0, pts0, levels0, conjs, pts, levels, origin, qhead, conjs', pts', levels', origin');
    }
  }

  /** A pruned pair adds its two goal parts and nothing to the worklist. */
  lemma PrunedStep(sys: System, level: nat, depth: nat, h: nat,
                   conjs0: seq<GoalPart>, pts0: seq<nat>, levels0: seq<nat>,
                   conjs: seq<GoalPart>, pts: seq<nat>, levels: seq<nat>, origin: seq<nat>, qhead: nat,
                   conjs': seq<GoalPart>)
    requires Walking(sys, level, depth, h, conjs0, pts0, levels0, conjs, pts, levels, origin, qhead) && qhead < |pts|
    requires !Expanded(levels[qhead], depth, level)
    requires conjs' == conjs + [TransitionAxiom(pts[qhead], levels[qhead]), FrameProperty(pts[qhead], levels[qhead])]
    ensures Walking(sys, level, depth, h, conjs0, pts0, levels0, conjs', pts, levels, origin, qhead + 1)
  {
    GoalGrows(h, conjs0, conjs, pts, levels, qhead, conjs', pts, levels);
    ReachedStays(sys, level, depth, 1 + h, qhead, pts, levels, origin);
  }

  /** An expanded pair adds its two goal parts, and the callees it enqueued keep the walk's invariant. */
  lemma ExpandedStep(sys: System, level: nat, depth: nat, h: nat,
                     conjs0: seq<GoalPart>, pts0: seq<nat>, levels0: seq<nat>,
                     conjs: seq<GoalPart>, pts: seq<nat>, levels: seq<nat>, origin: seq<nat>, qhead: nat,
                     conjs': seq<GoalPart>, pts': seq<nat>, levels': seq<nat>, origin': seq<nat>)
    requires Walking(sys, level, depth, h, conjs0, pts0, levels0, conjs, pts, levels, origin, qhead) && qhead < |pts|
    requires Expanded(levels[qhead], depth, level)
    requires conjs' == conjs + [TransitionAxiom(pts[qhead], levels[qhead]), FrameProperty(pts[qhead], levels[qhead])]
    requires |pts'| == |levels'| && |pts| <= |pts'| && pts'[..|pts|] == pts && levels'[..|levels|] == levels
    requires Distinct(pts', levels') && InRange(sys, level, depth, pts', levels')
    requires forall f | f in Callees(sys, pts[qhead]) :: Present(pts', levels', f, levels[qhead] - 1)
    requires forall k | |pts| <= k < |pts'| :: levels'[k] == levels[qhead] - 1 && pts'[k] in Callees(sys, pts[qhead])
    requires origin' == origin + seq(|pts'| - |pts|, _ => qhead)
    ensures Walking(sys, level, depth, h, conjs0, pts0, levels0, conjs', pts', levels', origin', qhead + 1)
  {
    Prefix(pts, pts');
    Prefix(levels, levels');
    GoalGrows(h, conjs0, conjs, pts, levels, qhead, conjs', pts', levels');
    ClosedGrows(sys, level, depth, pts, levels, qhead, pts', levels');
    ReachedGrows(sys, level, depth, 1 + h, qhead, pts, levels, origin, pts', levels', origin');
    PrefixKept(pts, pts', |pts0|);
    PrefixKept(levels, levels', |levels0|);
  }

  lemma PrefixKept(s: seq<nat>, s': seq<nat>, n: nat)
    requires n <= |s| <= |s'| && s'[..|s|] == s
    ensures s'[..n] == s[..n]
  {
    assert s'[..n] == s'[..|s|][..n];
  }

  lemma Prefix(s: seq<nat>, s': seq<nat>)
    requires |s| <= |s'| && s'[..|s|] == s
    ensures forall k | 0 <= k < |s| :: s'[k] == s[k]
  {
    forall k | 0 <= k < |s| ensures s'[k] == s[k] {
      assert s'[..|s|][k] == s'[k];
    }
  }

  lemma GoalGrows(h: nat, conjs0: seq<GoalPart>, conjs: seq<GoalPart>, pts: seq<nat>, levels: seq<nat>, qhead: nat,
                  conjs': seq<GoalPart>, pts': seq<nat>, levels': seq<nat>)
    requires qhead < |pts| == |levels| && |pts| <= |pts'| == |levels'|
    requires forall k | 0 <= k < |pts| :: pts'[k] == pts[k]
    requires forall k | 0 <= k < |levels| :: levels'[k] == levels[k]
    requires GoalSoFar(h, conjs0, conjs, pts, levels, qhead)
    requires conjs' == conjs + [TransitionAxiom(pts[qhead], levels[qhead]), FrameProperty(pts[qhead], levels[qhead])]
    ensures GoalSoFar(h, conjs0, conjs', pts', levels', qhead + 1)
  {
    assert conjs'[..1 + h] == conjs[..1 + h];
  }

  lemma ClosedGrows(sys: System, level: nat, depth: nat, pts: seq<nat>, levels: seq<nat>, qhead: nat,
                    pts': seq<nat>, levels': seq<nat>)
    requires qhead < |pts| == |levels| && |pts| <= |pts'| == |levels'|
    requires forall k | 0 <= k < |pts| :: pts'[k] == pts[k]
    requires forall k | 0 <= k < |levels| :: levels'[k] == levels[k]
    requires InRange(sys, level, depth, pts, levels) && InRange(sys, level, depth, pts', levels')
    requires ClosedUpTo(sys, level, depth, pts, levels, qhead)
    requires Expanded(levels[qhead], depth, level) ==>
      forall f | f in Callees(sys, pts[qhead]) :: Present(pts', levels', f, levels[qhead] - 1)
    ensures ClosedUpTo(sys, level, depth, pts', levels', qhead + 1)
  {
    assert pts'[..|pts|] == pts && levels'[..|levels|] == levels;
    PresentExtends(pts, levels, pts', levels');
  }

  lemma ReachedStays(sys: System, level: nat, depth: nat, start: nat, qhead: nat,
                     pts: seq<nat>, levels: seq<nat>, origin: seq<nat>)
    requires qhead < |pts| == |levels| && InRange(sys, level, depth, pts, levels)
    requires Reached(sys, level, depth, start, pts, levels, origin, qhead)
    ensures Reached(sys, level, depth, start, pts, levels, origin, qhead + 1)
  {
  }

  lemma ReachedGrows(sys: System, level: nat, depth: nat, start: nat, qhead: nat,
                     pts: seq<nat>, levels: seq<nat>, origin: seq<nat>,
                     pts': seq<nat>, levels': seq<nat>, origin': seq<nat>)
    requires qhead < |pts| == |levels| && |pts| <= |pts'| == |levels'|
    requires forall k | 0 <= k < |pts| :: pts'[k] == pts[k] && levels'[k] == levels[k]
    requires InRange(sys, level, depth, pts, levels) && InRange(sys, level, depth, pts', levels')
    requires Reached(sys, level, depth, start, pts, levels, origin, qhead)
    requires Expanded(levels[qhead], depth, level)
    requires forall k | |pts| <= k < |pts'| :: levels'[k] == levels[qhead] - 1 && pts'[k] in Callees(sys, pts[qhead])
    requires origin' == origin + seq(|pts'| - |pts|, _ => qhead)
    ensures Reached(sys, level, depth, start, pts', levels', origin', qhead + 1)
  {
    forall k | start <= k < |pts'|
      ensures origin'[k] < k && origin'[k] < qhead + 1
      ensures Expanded(levels'[origin'[k]], depth, level)
      ensures levels'[k] + 1 == levels'[origin'[k]]
      ensures pts'[k] in Callees(sys, pts'[origin'[k]])
    {
      if k < |pts| {
        assert origin'[k] == origin[k];
        assert pts'[origin[k]] == pts[origin[k]] && levels'[origin[k]] == levels[origin[k]];
      } else {
        assert origin'[k] == qhead;
        assert pts'[qhead] == pts[qhead] && levels'[qhead] == levels[qhead];
      }
    }
  }

  /** The worklist walk of lines 502-531, from a worklist holding the root and the
      `h` hypotheses and a goal holding their `1 + h` properties. */
  method WalkQueue(sys: System, level: nat, depth: nat, h: nat,
                   conjs0: seq<GoalPart>, pts0: seq<nat>, levels0: seq<nat>)
    returns (conjs: seq<GoalPart>, pts: seq<nat>, levels: seq<nat>, ghost origin: seq<nat>)
    requires WellFormed(sys) && level < Two32 && depth < Two32
    requires |pts0| == |levels0| == |conjs0| == 1 + h
    requires InRange(sys, level, depth, pts0, levels0) && Distinct(pts0, levels0)
    ensures Walking(sys, level, depth, h, conjs0, pts0, levels0, conjs, pts, levels, origin, |pts|)
    ensures |pts| == |levels| && GoalSoFar(h, conjs0, conjs, pts, levels, |pts|)
    ensures InRange(sys, level, depth, pts, levels) && Distinct(pts, levels)
    ensures ClosedUpTo(sys, level, depth, pts, levels, |pts|)
  {
    conjs, pts, levels := conjs0, pts0, levels0;
    origin := seq(|pts0|, _ => 0);
    var qhead := 0;
    assert pts[..|pts0|] == pts0 && levels[..|levels0|] == levels0 && conjs[..1 + h] == conjs0;
    forall x | x in Pairs(pts, levels) ensures x in Grid(|sys.rules|, level) {
      var k :| 0 <= k < |pts| && x == (pts[k], levels[k]);
    }
    while qhead < |pts|
      invariant Walking(sys, level, depth, h, conjs0, pts0, levels0, conjs, pts, levels, origin, qhead)
      invariant Pairs(pts, levels) <= Grid(|sys.rules|, level)
      decreases Grid(|sys.rules|, level) - Pairs(pts, levels), |pts| - qhead
    {
      conjs, pts, levels, origin := WalkStep(sys, level, depth, h, conjs0, pts0, levels0, conjs, pts, levels, origin, qhead);
      qhead := qhead + 1;
    }
  }

  /** `mk_induction_goal(pt, level, depth)`: the negated goal at `level`, the induction
      hypotheses below it, then for every worklist pair its transition axiom and frame
      property, the worklist growing by the callees at the level below of every pair
      that is not pruned. */
  method MkInductionGoal(sys: System, rel: nat, level: nat, depth: nat)
    returns (conjs: seq<GoalPart>, pts: seq<nat>, levels: seq<nat>)
    requires ValidRel(sys, rel) && 0 < level < Two32 && depth < Two32
    ensures |pts| == |levels| && 1 + |Hypotheses(level, depth)| <= |pts|
    ensures levels[..1 + |Hypotheses(level, depth)|] == [level] + Hypotheses(level, depth)
    ensures forall k | 0 <= k < 1 + |Hypotheses(level, depth)| :: pts[k] == rel
    ensures |conjs| == 1 + |Hypotheses(level, depth)| + 2 * |pts|
    ensures conjs[..1 + |Hypotheses(level, depth)|] == GoalHead(sys, rel, level, depth)
    ensures forall k | 0 <= k < |pts| ::
      && conjs[1 + |Hypotheses(level, depth)| + 2 * k] == TransitionAxiom(pts[k], levels[k])
      && conjs[2 + |Hypotheses(level, depth)| + 2 * k] == FrameProperty(pts[k], levels[k])
    ensures forall k | 0 <= k < |pts| :: pts[k] < |sys.rules| && levels[k] <= level && level <= levels[k] + depth + 1
    ensures Distinct(pts, levels)
    ensures forall k | 0 <= k < |pts| && Expanded(levels[k], depth, level) ::
      forall f | f in Callees(sys, pts[k]) :: Present(pts, levels, f, levels[k] - 1)
    ensures forall k | 1 + |Hypotheses(level, depth)| <= k < |pts| ::
      HasPusher(sys, level, depth, pts, levels, k)
  {
    var conjs0, pts0, levels0 := StartGoal(sys, rel, level, depth);
    StartInRange(sys, rel, level, depth, pts0, levels0);
    var h := |Hypotheses(level, depth)|;
    ghost var origin;
    conjs, pts, levels, origin := WalkQueue(sys, level, depth, h, conjs0, pts0, levels0);
    WalkedHead(sys, rel, level, depth, conjs0, pts0, levels0, conjs, pts, levels, origin);
    WalkedReached(sys, level, depth, 1 + h, pts, levels, origin);
    WalkedParts(level, depth, conjs0, conjs, pts, levels);
  }

  /** After the walk, the worklist and the goal still start with the root and the hypotheses. */
  lemma WalkedHead(sys: System, rel: nat, level: nat, depth: nat,
                   conjs0: seq<GoalPart>, pts0: seq<nat>, levels0: seq<nat>,
                   conjs: seq<GoalPart>, pts: seq<nat>, levels: seq<nat>, origin: seq<nat>)
    requires ValidRel(sys, rel)
    requires Walking(sys, level, depth, |Hypotheses(level, depth)|, conjs0, pts0, levels0, conjs, pts, levels, origin, |pts|)
    requires levels0 == [level] + Hypotheses(level, depth)
    requires forall k | 0 <= k < |pts0| :: pts0[k] == rel
    requires conjs0 == GoalHead(sys, rel, level, depth)
    ensures |pts| == |levels| && 1 + |Hypotheses(level, depth)| <= |pts|
    ensures levels[..1 + |Hypotheses(level, depth)|] == [level] + Hypotheses(level, depth)
    ensures forall k | 0 <= k < 1 + |Hypotheses(level, depth)| :: pts[k] == rel
    ensures conjs[..1 + |Hypotheses(level, depth)|] == GoalHead(sys, rel, level, depth)
  {
    forall k | 0 <= k < |pts0| ensures pts[k] == rel {
      assert pts[..|pts0|][k] == pts[k];
    }
  }

  /** After the walk, every worklist pair has its transition axiom and frame property. */
  lemma WalkedParts(level: nat, depth: nat, conjs0: seq<GoalPart>, conjs: seq<GoalPart>, pts: seq<nat>, levels: seq<nat>)
    requires |pts| == |levels| && GoalSoFar(|Hypotheses(level, depth)|, conjs0, conjs, pts, levels, |pts|)
    ensures |conjs| == 1 + |Hypotheses(level, depth)| + 2 * |pts|
    ensures forall k | 0 <= k < |pts| ::
      && conjs[1 + |Hypotheses(level, depth)| + 2 * k] == TransitionAxiom(pts[k], levels[k])
      && conjs[2 + |Hypotheses(level, depth)| + 2 * k] == FrameProperty(pts[k], levels[k])
  {
  }

  /** The root and the hypotheses are distinct pairs within range. */
  lemma StartInRange(sys: System, rel: nat, level: nat, depth: nat, pts0: seq<nat>, levels0: seq<nat>)
    requires ValidRel(sys, rel) && 0 < level < Two32 && depth < Two32
    requires levels0 == [level] + Hypotheses(level, depth)
    requires |pts0| == |levels0| && forall k | 0 <= k < |pts0| :: pts0[k] == rel
    ensures InRange(sys, level, depth, pts0, levels0) && Distinct(pts0, levels0)
  {
    var hyps := Hypotheses(level, depth);
    var start := Wrap32(level - depth);
    HypothesisLevelsRange(start, level);
    assert start + depth >= level;
    forall k | 0 <= k < |pts0| ensures pts0[k] < |sys.rules| && levels0[k] <= level && level <= levels0[k] + depth + 1 {
      if k > 0 {
        assert levels0[k] == hyps[k - 1] && hyps[k - 1] in hyps;
      }
    }
    forall p, q | 0 <= p < q < |pts0| ensures pts0[p] != pts0[q] || levels0[p] != levels0[q] {
      assert levels0[q] == hyps[q - 1] && hyps[q - 1] in hyps;
      if p > 0 {
        assert levels0[p] == hyps[p - 1];
      }
    }
  }

  /** Every pair after the first `start` was pushed by some earlier expanded pair. */
  lemma WalkedReached(sys: System, level: nat, depth: nat, start: nat,
                      pts: seq<nat>, levels: seq<nat>, origin: seq<nat>)
    requires |pts| == |levels| && InRange(sys, level, depth, pts, levels)
    requires Reached(sys, level, depth, start, pts, levels, origin, |pts|)
    ensures forall k | start <= k < |pts| ::
      HasPusher(sys, level, depth, pts, levels, k)
  {
    forall k | start <= k < |pts|
      ensures HasPusher(sys, level, depth, pts, levels, k)
    {
      assert PushedBy(sys, level, depth, pts[origin[k]], levels[origin[k]], pts[k], levels[k]);
      assert exists m | 0 <= m < k :: PushedBy(sys, level, depth, pts[m], levels[m], pts[k], levels[k]);
    }
  }

  /** Bookkeeping for one expansion: the new pairs lie in the grid and within `depth + 1`
      of `level`, and a non-empty expansion uses up a grid pair. */
  lemma GrowAccount(sys: System, level: nat, depth: nat, qhead: nat,
                    oldPts: seq<nat>, oldLevels: seq<nat>, pts: seq<nat>, levels: seq<nat>)
    requires WellFormed(sys) && qhead < |oldPts| == |oldLevels| && |pts| == |levels| && |oldPts| <= |pts|
    requires pts[..|oldPts|] == oldPts && levels[..|oldLevels|] == oldLevels
    requires oldPts[qhead] < |sys.rules| && Expanded(oldLevels[qhead], depth, level)
    requires forall k | 0 <= k < |oldPts| :: oldPts[k] < |sys.rules| && oldLevels[k] <= level && level <= oldLevels[k] + depth + 1
    requires forall k | |oldPts| <= k < |pts| :: levels[k] == oldLevels[qhead] - 1 && pts[k] < |sys.rules|
    requires Distinct(pts, levels)
    requires Pairs(oldPts, oldLevels) <= Grid(|sys.rules|, level)
    ensures forall k | 0 <= k < |pts| :: pts[k] < |sys.rules| && levels[k] <= level && level <= levels[k] + depth + 1
    ensures Pairs(pts, levels) <= Grid(|sys.rules|, level)
    ensures |oldPts| < |pts| ==> Grid(|sys.rules|, level) - Pairs(pts, levels) < Grid(|sys.rules|, level) - Pairs(oldPts, oldLevels)
  {
    var lvl := oldLevels[qhead];
    assert lvl + depth >= level;
    forall k | 0 <= k < |oldPts| ensures pts[k] == oldPts[k] && levels[k] == oldLevels[k] {
      assert pts[..|oldPts|][k] == pts[k];
      assert levels[..|oldLevels|][k] == levels[k];
    }
    forall x | x in Pairs(pts, levels) ensures x in Grid(|sys.rules|, level) {
      var k :| 0 <= k < |pts| && x == (pts[k], levels[k]);
    }
    if |oldPts| < |pts| {
      var n := |oldPts|;
      var x := (pts[n], levels[n]);
      assert x in Pairs(pts, levels);
      forall k | 0 <= k < |oldPts| ensures (oldPts[k], oldLevels[k]) != x {
        assert pts[k] == oldPts[k] && levels[k] == oldLevels[k];
      }
      assert x !in Pairs(oldPts, oldLevels);
      assert Pairs(oldPts, oldLevels) <= Pairs(pts, levels);
      assert x in Grid(|sys.rules|, level) - Pairs(oldPts, oldLevels);
    }
  }

  // ---------------------------------------------------------------
  // operator()

  /** A node of the search: the relation and level it is at, and its parent. */
  datatype ModelNode = ModelNode(rel: nat, level: nat, parent: Option<ModelNode>)

  datatype SatResult = Sat | Unsat | Unknown

  /** The SMT kernel's verdict on the conjunction of a goal. */
  type SmtOracle = seq<GoalPart> -> SatResult

  /** `operator()`: nothing happens without a parent; otherwise the induction goal for the
      parent at depth 2 is checked, and an unsatisfiable goal replaces the core by the
      single literal "some transition of the parent's relation fires", using the level. */
  method Generalize(sys: System, smt: SmtOracle, n: ModelNode, core: seq<Expr>, usesLevel: bool)
    returns (core': seq<Expr>, usesLevel': bool, goal: seq<GoalPart>)
    requires n.parent.Some? ==> ValidRel(sys, n.parent.value.rel) && 0 < n.parent.value.level < Two32
    ensures n.parent.None? ==> core' == core && usesLevel' == usesLevel && goal == []
    ensures n.parent.Some? ==>
      var p := n.parent.value;
      && |goal| >= 1
      && goal[0] == NotProperty(p.rel, p.level, BlockedTransition(sys, p.rel, p.level))
      && (smt(goal) == Unsat ==> core' == [Not(BlockedTransition(sys, p.rel, p.level))] && usesLevel')
      && (smt(goal) != Unsat ==> core' == core && usesLevel' == usesLevel)
  {
    core', usesLevel', goal := core, usesLevel, [];
    if n.parent.None? {
      return;
    }
    var p := n.parent.value;
    var depth := 2;
    var pts, levels;
    goal, pts, levels := MkInductionGoal(sys, p.rel, p.level, depth);
    GoalHeadParts(sys, p.rel, p.level, depth);
    assert goal[0] == goal[..1 + |Hypotheses(p.level, depth)|][0];
    var r := smt(goal);
    if r == Unsat {
      var phi := MkBlockedTransition(sys, p.rel, p.level);
      core' := [Not(phi)];
      usesLevel' := true;
    }
  }

  /** The new literal holds exactly when some rule of the parent's relation can fire. */
  lemma BlockedLiteralMeaning(sys: System, rel: nat, level: nat, env: Env)
    requires ValidRel(sys, rel)
    ensures Holds(Not(BlockedTransition(sys, rel, level)), env) <==>
      exists i | 0 <= i < |sys.rules[rel]| :: Holds(TransitionRule(sys, sys.reps[rel], level, sys.rules[rel][i]), env)
  {
    BlockedTransitionMeaning(sys, rel, level, env);
  }
}
