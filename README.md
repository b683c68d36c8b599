# PDR core generalizers

This project models the core generalizers of the PDR (property-directed reachability)
engine of Z3, from `src/muz_qe/pdr_generalizers.cpp`. A core is a vector of literals
that blocks a counterexample at some level. A generalizer weakens the core while it
stays relatively inductive, and reports whether the result depends on the level. The
project models five generalizers:

- **Boolean inductive generalizer** (module `BoolInductive`, `bool_generalizer.dfy`).
  It drops literals one at a time, with a cursor, a `processed` list and a counter of
  consecutive failures. Its loop is a method proved against a function `Run` of the
  cursor state.
- **Multi-core generalizer** (`MultiCore`, `multi_generalizer.dfy`). It covers the
  collecting entry point and the unreachable in-place entry point.
- **Farkas generalizer** (`Farkas`, `farkas_generalizer.dfy`). It replaces disjuncts
  with lemmas that the Farkas learner guesses.
- **Arithmetic inductive generalizer** (`ArithBounds` in `arith_bounds.dfy` and
  `ArithInductive` in `arith_generalizer.dfy`). It is a class holding the `m_lb`/`m_ub`
  multimaps. `get_eqs` normalizes bounds and pairs lower and upper bounds of equal
  magnitude into `eq` records. `substitute_alias` rewrites the other literals. Each
  `eq` yields a candidate core with a parity guess, which is tested in turn.
- **Induction generalizer** (`Induction`, `induction_generalizer.dfy`). It models:
  - `mk_pred`, which names level-indexed predicates;
  - `mk_transition_rule`, with its head binding, tail atoms and constraints;
  - `mk_blocked_transition`;
  - `mk_induction_goal`, with its hypotheses and its worklist of
    (relation, level) pairs;
  - `operator()`.

Formulas are the datatype `Syntax.Expr` (`syntax.dfy`). It has a reference semantics
(`Holds`, `Val`), which is used to state what the rewrites preserve. The
inductiveness oracle `check_inductive` is a function value (`Oracles.InductiveOracle`,
`oracles.dfy`). On success it returns the unsat core it found and the level flag. On
failure it changes neither.

The code is followed wherever the prose description of the generalizers differs from it:

- A multi-core call produces exactly one core. The exclusion loop runs over
  `old_core`, which is declared empty and never filled (lines 77 and 83). The loop is
  still modelled as `MultiCore.ReminimizeExcluding`.
- In the candidate of an `eq`, only the lower-bound slot (`i == k`) becomes `true`.
  Every slot becomes `true` when `k == l`, before the overwrite; that is the condition as
  written at line 180. The upper-bound slot goes through `substitute_alias`, like the other
  literals. For integer terms of magnitude 2 or more, both slots are overwritten
  afterwards.
- The Farkas learner is given the whole conjunction `B` at line 128, not the disjunct
  `C`.

## Model

| member | source | states |
|---|---|---|
| Syntax.MkAndHolds | src/muz_qe/pdr_generalizers.cpp:119 | the conjunction of a literal vector holds exactly when every literal does (empty: `true`) |
| Syntax.MkOrHolds | src/muz_qe/pdr_generalizers.cpp:137 | the disjunction of a vector holds exactly when one element does (empty: `false`) |
| Syntax.GetOrSound | src/muz_qe/pdr_generalizers.cpp:121 | splitting into disjuncts keeps the meaning and leaves no disjunction among them |
| Syntax.FlattenAndSound | src/muz_qe/pdr_generalizers.cpp:140 | flattening into conjuncts keeps the meaning and leaves no conjunction among them |
| BoolInductive.Generalize | src/muz_qe/pdr_generalizers.cpp:37-63 | the in-place loop computes the final state of the cursor loop; a core of at most one literal comes back untouched; the core never grows and holds only input literals or `true`; core and flag are unchanged or are an answer the oracle accepted for some query at this level |
| BoolInductive.Advance | src/muz_qe/pdr_generalizers.cpp:47-59 | one loop round is one `Step` of the cursor state |
| BoolInductive.Step | src/muz_qe/pdr_generalizers.cpp:47-59 | rejection restores the literal, records it as processed, advances the cursor and counts a failure; acceptance adopts the oracle's core and flag, resets the failure count and puts the cursor on the first unprocessed literal; with a shrinking oracle, either the core shrinks or the cursor advances |
| BoolInductive.FirstUnprocessed | src/muz_qe/pdr_generalizers.cpp:52 | the cursor lands on the first position whose literal is not processed (or past the end); every literal it skips is processed |
| BoolInductive.RunStops | src/muz_qe/pdr_generalizers.cpp:46 | the loop ends only when the guard fails: cursor past the end, one literal left, or the failure limit (0 = none) exceeded |
| BoolInductive.RunShrinks | src/muz_qe/pdr_generalizers.cpp:46-60 | the final core is no longer than the initial one and holds only its literals or `true` |
| BoolInductive.RunNoOp | src/muz_qe/pdr_generalizers.cpp:50-59 | when the oracle rejects every query, core and flag are unchanged |
| BoolInductive.RunSound | src/muz_qe/pdr_generalizers.cpp:50-53 | a changed core and flag are a pair the oracle accepted at this level |
| BoolInductive.RunAccepted | src/muz_qe/pdr_generalizers.cpp:50-53 | once the state holds an accepted core, every later state does |
| BoolInductive.BoolScenario | src/muz_qe/pdr_generalizers.cpp:37-63 | `{a, b, c}` with an oracle that accepts dropping `a` and then `b` minimizes to `{c}`, and the loop stops at size 1 |
| MultiCore.SwapRemove | src/muz_qe/pdr_generalizers.cpp:86-88 | moving the last literal into slot `i` and popping removes exactly one copy of `s[i]` (multiset), keeps every other slot and moves the last literal to `i` |
| MultiCore.ReminimizeExcluding | src/muz_qe/pdr_generalizers.cpp:81-99 | each core it appends is the minimization of the old core without a literal of the initial retained set, and is strictly smaller than the old core; earlier results are kept; the retained set only shrinks; an empty old core changes nothing |
| MultiCore.MultiGeneralize | src/muz_qe/pdr_generalizers.cpp:75-100 | exactly one pair is appended to `new_cores`: the Boolean generalizer's result on the input core and flag |
| MultiCore.MultiGeneralizeInPlace | src/muz_qe/pdr_generalizers.cpp:66-68 | the in-place entry point yields no result on any input |
| Farkas.FarkasGeneralize | src/muz_qe/pdr_generalizers.cpp:115-143 | an empty core, a failed guess, or no disjuncts leaves core and flag unchanged; otherwise the new core is the flattening of the disjunction of the rewritten disjuncts, and the flag is set |
| Farkas.Rewritten | src/muz_qe/pdr_generalizers.cpp:125-135 | the rewrite keeps the number of disjuncts |
| Farkas.FarkasMeaning | src/muz_qe/pdr_generalizers.cpp:125-141 | since every guess is asked for the whole conjunction, a changed core holds exactly when the guessed lemmas all hold |
| Farkas.ConjunctionIsOneDisjunct | src/muz_qe/pdr_generalizers.cpp:119-121 | a core of two or more literals splits into a single disjunct, its conjunction |
| ArithBounds.Normalize | src/muz_qe/pdr_generalizers.cpp:211-217 | a negative bound is keyed by its magnitude on the negated term, on the other side; a non-negative bound is unchanged |
| ArithBounds.NormalBoundSound | src/muz_qe/pdr_generalizers.cpp:240-253 | each of the four literal shapes holds exactly when the bound read from it does, before and after normalization; the shift by one of a negated bound is exact over integer terms |
| ArithBounds.CollectBoundsSpec | src/muz_qe/pdr_generalizers.cpp:238-254 | after the first loop, every map entry is a bound its literal yields, filed under its magnitude on its side; every bound of the core is filed; keys are non-negative and positions lie in the core |
| ArithBounds.FirstMatch | src/muz_qe/pdr_generalizers.cpp:262-279 | the `done` loop stops at the first upper-bound entry whose term is the same or rewrites equal; no earlier entry matches |
| ArithBounds.PairsAtOnePerEntry | src/muz_qe/pdr_generalizers.cpp:261-280 | each lower-bound entry of a key yields at most one `eq`, with its own term and position, the key's value, and the position of a matching upper-bound entry |
| ArithBounds.FirstMatchFinds | src/muz_qe/pdr_generalizers.cpp:262-279 | the `done` search finds an upper-bound entry exactly when some entry's term matches |
| ArithBounds.PairOf | src/muz_qe/pdr_generalizers.cpp:262-279 | one lower-bound entry yields at most one `eq`, and yields one exactly when some upper-bound entry matches it |
| ArithBounds.PairsAtByEntry | src/muz_qe/pdr_generalizers.cpp:261-280 | the `eq`s of a key are, in entry order, one per lower-bound entry that has a match, pairing its term and position with the first matching upper-bound entry; the matched positions increase and are exactly those with a match |
| ArithBounds.PairsAtComplete | src/muz_qe/pdr_generalizers.cpp:261-280 | completeness for one key: every lower-bound entry with a matching upper-bound entry yields its `eq` with the first match |
| ArithBounds.KeyEqsIn | src/muz_qe/pdr_generalizers.cpp:257-281 | the `eq`s of every visited key are among those found |
| ArithBounds.EqsComplete | src/muz_qe/pdr_generalizers.cpp:238-283 | completeness of `get_eqs`: a lower bound of magnitude r >= 2 with a matching upper bound of magnitude r yields an `eq` for that lower literal, its term and r, once every key is visited |
| ArithBounds.FiledIncreasing | src/muz_qe/pdr_generalizers.cpp:238-254 | the entries under each key are in increasing literal position, on both sides |
| ArithBounds.FiledOnce | src/muz_qe/pdr_generalizers.cpp:238-254 | each literal position is filed at most once: under one key, on one side, once |
| ArithBounds.EqsPaired | src/muz_qe/pdr_generalizers.cpp:255-283 | every `eq` pairs a lower and an upper bound of the same magnitude r >= 2 on matching terms, at valid positions of the core |
| ArithBounds.NoPairNoEqs | src/muz_qe/pdr_generalizers.cpp:260 | without an equal-magnitude lower/upper pair of magnitude 2 or more, there are no `eq`s |
| ArithBounds.EqImpliesEquality | src/muz_qe/pdr_generalizers.cpp:240-260 | where both literals of an `eq` hold and the rewriter is sound, the term equals the value |
| ArithInductive.SubstituteAliasShape | src/muz_qe/pdr_generalizers.cpp:285-301 | the alias rewrite is: peel the negations, turn a bound `y <= r` / `y >= r` on the numeral `r` into `y <= x` / `y >= x`, put the negations back; any other literal is not rewritten |
| ArithInductive.SubstituteAliasSound | src/muz_qe/pdr_generalizers.cpp:285-301 | when `x` has value `r`, the rewritten literal means what the original did |
| ArithInductive.Candidate | src/muz_qe/pdr_generalizers.cpp:178-193 | a candidate exists unless the overwrite targets a position outside the core; it has the core's length; the lower slot is `true`; when k == l every other slot is `true` too, otherwise the other slots are the alias rewrite; for an integer term of magnitude at least 2, the lower slot is `x mod 2 = 0` and the upper slot is `x <= r` |
| ArithInductive.BuildCandidate | src/muz_qe/pdr_generalizers.cpp:178-193 | the loop and the overwrite build exactly that candidate |
| ArithInductive.CandidateImplied | src/muz_qe/pdr_generalizers.cpp:178-193 | for an `eq` read from the core, the candidate holds wherever the core holds, provided the parity guess is consistent with the value (always for non-integer terms) |
| ArithInductive.TryEqOn | src/muz_qe/pdr_generalizers.cpp:173-206 | one round builds the candidate from the current core and adopts the oracle's core and flag when it is accepted |
| ArithInductive.CommitSound | src/muz_qe/pdr_generalizers.cpp:172-207 | after all `eq`s, core and flag are unchanged or are an accepted candidate's result |
| ArithInductive.CommitNoOp | src/muz_qe/pdr_generalizers.cpp:195-206 | an oracle that rejects everything leaves core and flag unchanged |
| ArithInductive.AsWrittenAgrees | src/muz_qe/pdr_generalizers.cpp:172-207 | wherever the lines as written do not index out of range, they compute what the corrected loop does |
| ArithInductive.AsWrittenTotal | src/muz_qe/pdr_generalizers.cpp:190-193 | the lines as written stay in range while accepted cores keep their query's length and the positions fit the core |
| ArithInductive.StaleIndexWitness | src/muz_qe/pdr_generalizers.cpp:190-193 | on `x <= 5, x >= 5, y <= 3, y >= 3` with an oracle that keeps the first literal, the second `eq` indexes past the shrunk core |
| ArithInductive.ArithScenarioCandidate | src/muz_qe/pdr_generalizers.cpp:178-193 | the `eq` of `x <= 5, x >= 5` yields the candidate `x <= 5, x mod 2 = 0` |
| ArithInductive.PairKey | src/muz_qe/pdr_generalizers.cpp:261-280 | the two inner loops produce the `eq`s of one key |
| ArithInductive.EqsOf | src/muz_qe/pdr_generalizers.cpp:255-282 | every lower-bound key is visited exactly once, in some order, and the `eq`s are those of the keys in that order; every `eq` has a value of at least 2 that is both a lower-bound and an upper-bound key |
| ArithInductive.VisitKey | src/muz_qe/pdr_generalizers.cpp:257-281 | one visit appends the `eq`s of a key that is at least 2 and also an upper-bound key, and nothing else |
| ArithInductive.ArithInductiveGeneralizer.constructor | src/muz_qe/pdr_generalizers.cpp:153-157 | both multimaps start empty |
| ArithInductive.ArithInductiveGeneralizer.Reset | src/muz_qe/pdr_generalizers.cpp:227-231 | both multimaps are emptied |
| ArithInductive.ArithInductiveGeneralizer.InsertBound | src/muz_qe/pdr_generalizers.cpp:210-225 | the bound is normalized and appended to the entries under its magnitude, in the map of its side |
| ArithInductive.ArithInductiveGeneralizer.FileLiteral | src/muz_qe/pdr_generalizers.cpp:239-253 | a literal of one of the four shapes files its bound; any other literal leaves the maps unchanged |
| ArithInductive.ArithInductiveGeneralizer.GetEqs | src/muz_qe/pdr_generalizers.cpp:233-283 | the maps become those of the whole core, and the `eq`s are those of the lower-bound keys in the visiting order |
| ArithInductive.ArithInductiveGeneralizer.Generalize | src/muz_qe/pdr_generalizers.cpp:159-208 | a core of at most one literal is left alone, with the maps; otherwise the maps are rebuilt from the core, and the result is the corrected commit loop over its `eq`s |
| Induction.Wrap32 | src/muz_qe/pdr_generalizers.cpp:493 | unsigned 32-bit arithmetic: values in range are kept, one wrap in either direction is undone |
| Induction.PredNameInjective | src/muz_qe/pdr_generalizers.cpp:328-335 | distinct (predicate, level) pairs get distinct symbols `f_level` |
| Induction.HeadBindingCovers | src/muz_qe/pdr_generalizers.cpp:359-374 | a first occurrence of a variable binds it to its representative; every other head position contributes the equality of its resolved argument and its representative |
| Induction.HeadEqualitiesOnly | src/muz_qe/pdr_generalizers.cpp:359-374 | conversely, every head equality comes from a position that is not a first occurrence |
| Induction.BindHead | src/muz_qe/pdr_generalizers.cpp:359-374 | the head loop computes that substitution and those equalities |
| Induction.RuleBodyApps | src/muz_qe/pdr_generalizers.cpp:375-383 | every tail atom appears in the body as the level-below copy of its predicate, and every predicate application in the body is one of them |
| Induction.MkTransitionRule | src/muz_qe/pdr_generalizers.cpp:341-401 | the transition of a rule: `false` for a rule with a tail at level 0, otherwise the head binding applied to the conjunction of equalities, tail atoms and constraints |
| Induction.AppendTail | src/muz_qe/pdr_generalizers.cpp:375-380 | the tail atoms are appended at the level below, in order |
| Induction.AppendConstraints | src/muz_qe/pdr_generalizers.cpp:381-383 | the interpreted tail is appended, in order |
| Induction.BlockedTransitionMeaning | src/muz_qe/pdr_generalizers.cpp:469-480 | the blocked transition holds exactly when no rule's transition does |
| Induction.MkBlockedTransition | src/muz_qe/pdr_generalizers.cpp:469-480 | the loop conjoins the negated transition of every rule of the relation |
| Induction.HypothesesRange | src/muz_qe/pdr_generalizers.cpp:493-500 | when `depth <= level` or `level <= 1`, the hypothesis levels are the positive levels within `depth` below `level`, in increasing order |
| Induction.StartGoal | src/muz_qe/pdr_generalizers.cpp:484-500 | the goal starts with the negated property at `level` and then the property at each hypothesis level; the worklist holds the relation at `level` and at those levels |
| Induction.Enqueue | src/muz_qe/pdr_generalizers.cpp:521-528 | a pair already present at the level below is not pushed again; an absent one is appended |
| Induction.EnqueueCallees | src/muz_qe/pdr_generalizers.cpp:515-530 | every callee of the relation ends up present at the level below; the worklist only grows, by callees at that level, and stays free of duplicates |
| Induction.WalkQueue | src/muz_qe/pdr_generalizers.cpp:502-531 | the worklist loop terminates, with every pair given its transition axiom and frame property, every pair in range and distinct, and the callees of every expanded pair present |
| Induction.MkInductionGoal | src/muz_qe/pdr_generalizers.cpp:482-536 | the goal is the negated property, the hypotheses, then the transition axiom and frame property of every worklist pair; pairs are distinct, within `depth + 1` below `level`, closed under the callees of pairs that are not pruned (line 512), and every later pair was pushed by an earlier expanded pair |
| Induction.Generalize | src/muz_qe/pdr_generalizers.cpp:542-564 | without a parent nothing changes; otherwise the goal for the parent at depth 2 is checked; an unsatisfiable goal turns the core into the single literal "not blocked" for the parent and sets the flag; any other answer changes nothing |
| Induction.BlockedLiteralMeaning | src/muz_qe/pdr_generalizers.cpp:558-563 | the new literal holds exactly when some rule of the parent's relation can fire |

## Left out

- Syntax.MkAnd, Syntax.MkOr, Syntax.GetOr, Syntax.FlattenAnd: `pm.mk_and`, `pm.mk_or`,
  `pm.get_or` and `datalog::flatten_and` are modelled as plain constructors and in-order
  splitting. Empty gives `true`/`false`, one element gives itself, more give `And`/`Or`,
  and flattening only splits `And`. Their bodies are not part of this model. The
  source's helpers go through a simplifying rewriter, and that is not captured: it drops
  `true`, removes duplicates, collapses on `false`, reorders, and pushes negation over
  `or`. The exact results of `Farkas.FarkasGeneralize`, `Farkas.ConjunctionIsOneDisjunct`
  and the Syntax rows hold for these plain definitions only.
- MultiCore.ReminimizeExcluding: it states that each excluded literal is in the initial
  retained set, not the set as it stands at that iteration. It also does not state that
  every retained literal whose minimization shrinks yields an entry. The loop never runs
  in the source (line 77).
- The oracles are parameters: `check_inductive`, `farkas_learner::get_lemma_guesses`,
  `th_rewriter` (as the predicate `rewritesToTrue`) and the SMT kernel. Their
  implementations are not part of this model.
- BoolInductive.Generalize: it requires `ShrinkingOracle`, meaning an accepted core is
  strictly shorter than the query and drawn from it. The source relies on
  `check_inductive` for that; without it the loop need not terminate.
- Farkas.FarkasGeneralize: the learner is a deterministic function of its two formulas.
  The propagation formula `A` comes from the predicate transformer and is a parameter.
- ArithInductive.ArithInductiveGeneralizer.Generalize: it follows the corrected commit
  loop (see Findings). The out-of-range write of lines 190-193 is modelled separately,
  as `CommitAsWritten`.
- The source's rationals are integers here, and numerals are integer numerals.
  `a.is_int` is the syntactic sort test `Syntax.IsInt`.
- Pointer equality of hash-consed terms (line 266) is structural equality.
- The iteration order of the `m_lb` hash map is unspecified. It is a ghost `order`
  that the contracts quantify over.
- `m_refs` and all reference counting are not modelled; they only keep terms alive.
- Quantifier construction is abstract: `var_subst`, `get_free_vars`, `mk_exists`,
  `bind_head` and `expr_abstract` are the `Bind(sub, body)` node.
- `mk_reps` is the `reps` field of the system. `mk_transition_axiom`,
  `mk_predicate_property` and `get_formulas` are the tagged goal parts of
  `Induction.GoalPart`.
- The final `pm.mk_and(conjs)` of the goal is the sequence of parts that the kernel is
  given.
- `mk_pred` builds only the symbol name; arity and domain are not modelled.
- Induction.MkInductionGoal: it does not require `SASSERT(level >= depth)`. The start
  `level - depth` wraps around as unsigned 32-bit arithmetic (`Wrap32`). Levels and
  depths are below 2^32.
- Induction.Generalize: it requires the parent's level to be positive, which is the
  `SASSERT(level > 0)` of `mk_blocked_transition`. It states only the first part of
  the goal; the rest is stated by `MkInductionGoal`.
- `TRACE`, `IF_VERBOSE` and `collect_statistics` only produce output.
- `src/sat/sat_asymm_branch.h` is not part of this model.

## Findings

| source | as written | input that shows it | evidently intended | confidence | as-written member | corrected member |
|---|---|---|---|---|---|---|
| src/muz_qe/pdr_generalizers.cpp:190-193 | `eq` positions are recorded against the core given to `get_eqs`. After an accepted candidate shrinks `core`, a later `eq` still writes `new_core[k]` and `new_core[l]`, but `new_core` has the new, shorter length, so the write is out of range | core `x <= 5, x >= 5, y <= 3, y >= 3` over integers, `eq`s `(x, 5, 1, 0)` then `(y, 3, 3, 2)`, and an oracle that accepts the first candidate and keeps only its first literal | an `eq` whose positions no longer fit the current core is skipped | not executed | ArithInductive.CommitAsWritten, ArithInductive.StaleIndexWitness | ArithInductive.Commit, ArithInductive.CommitSound |
