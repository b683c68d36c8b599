/** Formulas of the background theory, as far as the generalizers look inside them,
    with a reference semantics used to state what the syntactic rewrites preserve. */
module Syntax {

  datatype Option<T> = None | Some(value: T)

  datatype Sort = IntSort | RealSort

  /** A formula or term. Numerals stand for the source's rationals, restricted to integers.
      `App` is an application of a (level-indexed) predicate symbol; `Bind(sub, body)` stands
      for `body` after substituting `sub` for its variables and closing the remaining free
      variables existentially (how that is done is not modelled). */
  datatype Expr =
    | True
    | False
    | Not(arg: Expr)
    | Le(lhs: Expr, rhs: Expr)
    | Ge(lhs: Expr, rhs: Expr)
    | Eq(lhs: Expr, rhs: Expr)
    | Mod(lhs: Expr, rhs: Expr)
    | UMinus(arg: Expr)
    | Num(value: int)
    | Const(name: string, sort: Sort)
    | Var(index: nat)
    | And(args: seq<Expr>)
    | Or(args: seq<Expr>)
    | App(pred: string, args: seq<Expr>)
    | Bind(sub: seq<Option<Expr>>, body: Expr)

  /** The sort test `is_int`: integer numerals and constants, and negation and `mod` of them. */
  predicate IsInt(e: Expr) {
    match e
    case Num(_) => true
    case Const(_, s) => s == IntSort
    case UMinus(t) => IsInt(t)
    case Mod(_, _) => true
    case _ => false
  }

  /** Conjunction of a literal vector: `true` when empty, the literal itself when single. */
  function MkAnd(s: seq<Expr>): (r: Expr)
    ensures |s| == 0 ==> r == True
    ensures |s| == 1 ==> r == s[0]
    ensures |s| > 1 ==> r == And(s)
  {
    if |s| == 0 then True else if |s| == 1 then s[0] else And(s)
  }

  /** Disjunction of a vector: `false` when empty, the element itself when single. */
  function MkOr(s: seq<Expr>): (r: Expr)
    ensures |s| == 0 ==> r == False
    ensures |s| == 1 ==> r == s[0]
    ensures |s| > 1 ==> r == Or(s)
  {
    if |s| == 0 then False else if |s| == 1 then s[0] else Or(s)
  }

  /** Splits nested conjunctions into their conjuncts. */
  function FlattenAnd(e: Expr): (r: seq<Expr>)
    decreases e, 1
  {
    match e
    case And(args) => FlattenAndAll(args)
    case _ => [e]
  }

  function FlattenAndAll(s: seq<Expr>): (r: seq<Expr>)
    decreases s, 0
  {
    if s == [] then [] else FlattenAnd(s[0]) + FlattenAndAll(s[1..])
  }

  /** Splits nested disjunctions into their disjuncts. */
  function GetOr(e: Expr): (r: seq<Expr>)
    decreases e, 1
  {
    match e
    case Or(args) => GetOrAll(args)
    case _ => [e]
  }

  function GetOrAll(s: seq<Expr>): (r: seq<Expr>)
    decreases s, 0
  {
    if s == [] then [] else GetOr(s[0]) + GetOrAll(s[1..])
  }

  // ---------------------------------------------------------------
  // Reference semantics

  /** An interpretation: a value per (name, sort) constant and a truth value per atom
      the arithmetic does not interpret (predicate applications, bound bodies, variables). */
  datatype Env = Env(value: (string, Sort) -> real, atom: Expr -> bool)

  predicate Integral(v: real) {
    v.Floor as real == v
  }

  /** Integer constants take integer values. */
  ghost predicate WellSorted(env: Env) {
    forall n: string :: Integral(env.value(n, IntSort))
  }

  /** Value of a term (`mod` is Euclidean on the integer parts, as in SMT-LIB). */
  function Val(e: Expr, env: Env): real {
    match e
    case Num(v) => v as real
    case Const(n, s) => env.value(n, s)
    case UMinus(t) => -Val(t, env)
    case Mod(a, b) =>
      var d := Val(b, env).Floor;
      if d == 0 then 0.0 else (Val(a, env).Floor % d) as real
    case _ => 0.0
  }

  function Holds(e: Expr, env: Env): bool {
    match e
    case True => true
    case False => false
    case Not(a) => !Holds(a, env)
    case Le(a, b) => Val(a, env) <= Val(b, env)
    case Ge(a, b) => Val(a, env) >= Val(b, env)
    case Eq(a, b) => Val(a, env) == Val(b, env)
    case And(args) => forall i | 0 <= i < |args| :: Holds(args[i], env)
    case Or(args) => exists i | 0 <= i < |args| :: Holds(args[i], env)
    case _ => env.atom(e)
  }

  /** A core read as a conjunction. */
  predicate AllHold(s: seq<Expr>, env: Env) {
    forall i | 0 <= i < |s| :: Holds(s[i], env)
  }

  predicate SomeHolds(s: seq<Expr>, env: Env) {
    exists i | 0 <= i < |s| :: Holds(s[i], env)
  }

  lemma {:induction false} IntTermIntegral(t: Expr, env: Env)
    requires WellSorted(env) && IsInt(t)
    ensures Integral(Val(t, env))
  {
    match t
    case Num(_) =>
    case Const(n, s) =>
    case UMinus(u) =>
      IntTermIntegral(u, env);
      var k := Val(u, env).Floor;
      assert Val(t, env) == (-k) as real;
    case Mod(_, _) =>
  }

  lemma MkAndHolds(s: seq<Expr>, env: Env)
    ensures Holds(MkAnd(s), env) <==> AllHold(s, env)
  {
  }

  lemma MkOrHolds(s: seq<Expr>, env: Env)
    ensures Holds(MkOr(s), env) <==> SomeHolds(s, env)
  {
  }

  /** Flattening a conjunction keeps its meaning and leaves no conjunction behind. */
  lemma {:induction false} FlattenAndSound(e: Expr, env: Env)
    ensures AllHold(FlattenAnd(e), env) <==> Holds(e, env)
    ensures forall x | x in FlattenAnd(e) :: !x.And?
    decreases e, 1
  {
    match e
    case And(args) => FlattenAndAllSound(args, env);
    case _ => assert FlattenAnd(e)[0] == e;
  }

  lemma {:induction false} FlattenAndAllSound(s: seq<Expr>, env: Env)
    ensures AllHold(FlattenAndAll(s), env) <==> AllHold(s, env)
    ensures forall x | x in FlattenAndAll(s) :: !x.And?
    decreases s, 0
  {
    if s != [] {
      FlattenAndSound(s[0], env);
      FlattenAndAllSound(s[1..], env);
      AllHoldAppend(FlattenAnd(s[0]), FlattenAndAll(s[1..]), env);
      assert s == [s[0]] + s[1..];
      AllHoldAppend([s[0]], s[1..], env);
    }
  }

  /** Splitting a disjunction keeps its meaning, yields at least one disjunct and no disjunction. */
  lemma {:induction false} GetOrSound(e: Expr, env: Env)
    ensures SomeHolds(GetOr(e), env) <==> Holds(e, env)
    ensures forall x | x in GetOr(e) :: !x.Or?
    decreases e, 1
  {
    match e
    case Or(args) => GetOrAllSound(args, env);
    case _ => assert GetOr(e)[0] == e;
  }

  lemma {:induction false} GetOrAllSound(s: seq<Expr>, env: Env)
    ensures SomeHolds(GetOrAll(s), env) <==> SomeHolds(s, env)
    ensures forall x | x in GetOrAll(s) :: !x.Or?
    decreases s, 0
  {
    if s != [] {
      GetOrSound(s[0], env);
      GetOrAllSound(s[1..], env);
      SomeHoldsAppend(GetOr(s[0]), GetOrAll(s[1..]), env);
      assert s == [s[0]] + s[1..];
      SomeHoldsAppend([s[0]], s[1..], env);
    }
  }

  lemma AllHoldAppend(a: seq<Expr>, b: seq<Expr>, env: Env)
    ensures AllHold(a + b, env) <==> AllHold(a, env) && AllHold(b, env)
  {
    if AllHold(a, env) && AllHold(b, env) {
      forall i | 0 <= i < |a + b| ensures Holds((a + b)[i], env) {
        if i < |a| { assert (a + b)[i] == a[i]; } else { assert (a + b)[i] == b[i - |a|]; }
      }
    }
    if AllHold(a + b, env) {
      forall i | 0 <= i < |a| ensures Holds(a[i], env) { assert (a + b)[i] == a[i]; }
      forall i | 0 <= i < |b| ensures Holds(b[i], env) { assert (a + b)[|a| + i] == b[i]; }
    }
  }

  lemma SomeHoldsAppend(a: seq<Expr>, b: seq<Expr>, env: Env)
    ensures SomeHolds(a + b, env) <==> SomeHolds(a, env) || SomeHolds(b, env)
  {
    if SomeHolds(a + b, env) {
      var i :| 0 <= i < |a + b| && Holds((a + b)[i], env);
      if i < |a| { assert (a + b)[i] == a[i]; } else { assert (a + b)[i] == b[i - |a|]; }
    }
    if SomeHolds(a, env) {
      var i :| 0 <= i < |a| && Holds(a[i], env);
      assert (a + b)[i] == a[i];
    }
    if SomeHolds(b, env) {
      var i :| 0 <= i < |b| && Holds(b[i], env);
      assert (a + b)[|a| + i] == b[i];
    }
  }
}
