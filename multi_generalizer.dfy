/** `core_multi_generalizer`: minimal cores that each exclude a literal of an earlier one. */
module MultiCore {
  import opened Syntax
  import opened Oracles
  import BoolInductive

  /** A (core, uses_level) pair as pushed onto `new_cores`. */
  type CoreEntry = (seq<Expr>, bool)

  function Elems(s: seq<Expr>): set<Expr> {
    set x | x in s
  }

  /** `core1[i] = core1.back(); core1.pop_back();`: removal that does not keep the order. */
  function SwapRemove(s: seq<Expr>, i: nat): (r: seq<Expr>)
    requires i < |s|
    ensures |r| == |s| - 1
    ensures multiset(r) == multiset(s) - multiset{s[i]}
    ensures forall j | 0 <= j < |r| && j != i :: r[j] == s[j]
    ensures i < |r| ==> r[i] == s[|s| - 1]
  {
    SwapRemoveCount(s, i);
    s[i := s[|s| - 1]][..|s| - 1]
  }

  lemma SwapRemoveCount(s: seq<Expr>, i: nat)
    requires i < |s|
    ensures multiset(s[i := s[|s| - 1]][..|s| - 1]) == multiset(s) - multiset{s[i]}
  {
    var last := |s| - 1;
    var r := s[i := s[last]][..last];
    assert s == s[..last] + [s[last]];
    if i < last {
      assert s[..last] == s[..i] + [s[i]] + s[i + 1..last];
      assert r == s[..i] + [s[last]] + s[i + 1..last];
    } else {
      assert r == s[..last];
    }
  }

  /** Lines 81-99: for every literal of `oldCore` still in the retained set, minimize the
      core without it, record the result and intersect the retained set with it. */
  method ReminimizeExcluding(check: InductiveOracle, level: nat, limit: nat, oldCore: seq<Expr>, usesLevel: bool,
                             coreExprs: set<Expr>, cores: seq<CoreEntry>)
    returns (cores': seq<CoreEntry>, coreExprs': set<Expr>)
    requires ShrinkingOracle(check)
    ensures |oldCore| == 0 ==> cores' == cores && coreExprs' == coreExprs
    ensures |cores| <= |cores'| <= |cores| + |oldCore| && cores'[..|cores|] == cores
    ensures coreExprs' <= coreExprs
    ensures forall k | |cores| <= k < |cores'| ::
      |cores'[k].0| < |oldCore| &&
      exists i | 0 <= i < |oldCore| ::
        oldCore[i] in coreExprs && cores'[k] == BoolInductive.Minimize(check, level, limit, SwapRemove(oldCore, i), usesLevel)
  {
    cores', coreExprs' := cores, coreExprs;
    var i := 0;
    while i < |oldCore|
      invariant i <= |oldCore|
      invariant |cores| <= |cores'| <= |cores| + i && cores'[..|cores|] == cores
      invariant coreExprs' <= coreExprs
      invariant i == 0 ==> coreExprs' == coreExprs
      invariant forall k | |cores| <= k < |cores'| ::
        |cores'[k].0| < |oldCore| &&
        exists j | 0 <= j < |oldCore| ::
          oldCore[j] in coreExprs && cores'[k] == BoolInductive.Minimize(check, level, limit, SwapRemove(oldCore, j), usesLevel)
    {
      var lit := oldCore[i];
      if lit in coreExprs' {
        var core1 := SwapRemove(oldCore, i);
        var usesLevel1;
        core1, usesLevel1 := BoolInductive.Generalize(check, level, limit, core1, usesLevel);
        if |core1| < |oldCore| {
          cores' := cores' + [(core1, usesLevel1)];
          coreExprs' := coreExprs' * Elems(core1);
        }
      }
      i := i + 1;
    }
  }

  /** The collecting operator(): `old_core` is declared empty and never filled, so exactly
      one pair is appended, the Boolean generalizer's result on a copy of the input. */
  method MultiGeneralize(check: InductiveOracle, level: nat, limit: nat, core: seq<Expr>, usesLevel: bool,
                         cores: seq<CoreEntry>)
    returns (cores': seq<CoreEntry>)
    requires ShrinkingOracle(check)
    ensures cores' == cores + [BoolInductive.Minimize(check, level, limit, core, usesLevel)]
  {
    var oldCore: seq<Expr> := [];
    var core0 := core;
    var usesLevel1 := usesLevel;
    core0, usesLevel1 := BoolInductive.Generalize(check, level, limit, core0, usesLevel1);
    cores' := cores + [(core0, usesLevel1)];
    var coreExprs := Elems(core0);
    cores', coreExprs := ReminimizeExcluding(check, level, limit, oldCore, usesLevel, coreExprs, cores');
  }

  /** The in-place operator() is UNREACHABLE(): it aborts the process on any input.
      `None` stands for that abort: no core and no flag are ever produced. */
  method MultiGeneralizeInPlace(core: seq<Expr>, usesLevel: bool) returns (r: Option<CoreEntry>)
    ensures r == None
  {
    r := None;
  }
}
