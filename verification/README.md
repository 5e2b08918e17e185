# Type-inference resolver: bounds, dependencies, resolution and incorporation

This project models PMD's `TypeInferenceResolver` in Dafny. That class is the bound-processing engine of PMD's Java type inference. It follows chapter 18 of the Java Language Specification (Java SE 8): bounds and instantiations (section 18.1.3), incorporation (section 18.3) and resolution (section 18.4). The model covers these parts, one module each:

- `Terms`: inference variables, proper types, the terms a bound relates (`Var`, `Proper`, `Compound`), bounds and constraints.
- `Extraction`:
  - `getMentionedVariables`, `getInstantiations` and `getUninstantiatedVariables`;
  - which bound supplies an instantiation when several compete.
- `Dependencies`: `getVariableDependencies`, with snapshot passes (see "Findings").
  - Seeding, reflexivity and the bounded closure loop are modelled.
  - The result is proved to be exactly reachability along the seeded edges.
- `InPlace`: the same closure loop as the code writes it.
  - Each dependency set grows while it is being iterated, so a fail-fast iterator can throw.
  - The hash iteration order is a parameter.
- `Oracle`: `isProperSubsetOfVariables` and `boundsHaveAnEqualityBetween`.
  - Both are loops, proved equal to order-free predicates.
- `Combinations`: the subset iterator `Combinations`.
  - The bit formula of `next()` is proved to walk a recursive reference list of masks.
  - The result is every non-empty subset exactly once, smallest first, `A, B, C, AB, AC, BC, ABC` for `ABC`.
- `Incorporation`: `incorporateBounds`, `getUnequalSides` and `copyConstraint`.
  - Each pair's constraint is compared with the incorporation rules of section 18.3.1.
- `Resolution`: `resolveVariables`.
  - The model covers its terminating path and one round of its candidate search.
  - It proves that the first candidate set to pass has no smaller passing subset.

Variables and types are identified by number; two variables are equal exactly when their numbers are. The classes `Bound`, `Constraint`, `Variable` and `JavaTypeDefinition` are not part of this model. Only the accessors the resolver calls are modelled, as functions on `Term`: `leftVariable`, `rightVariable`, `getLeftMentionedVariable` and `addVariablesToSet`.

Where the code departs from section 18 of the Java Language Specification, the model keeps the code's behaviour and a lemma shows the gap:

- `Incorporation.RightPivotMissed`: `getUnequalSides` looks for the shared variable on the first bound's right side only when its left side is not a variable. So `α = β` with `β <: T` gives nothing, although the rules give `α <: T`.
- `Oracle.SingleUpperBoundDiverges`: the resolvable-subset test does not accept a dependency for being one of the candidates; it needs an equality bound. So `{α <: T}` with the candidate set `[α]` fails, although the specification's condition holds.
- `Dependencies.SeedingRules`: for `T = α` and `T <: α` with `T` mentioning β, the code makes β depend on α. The comment at the seeding loop states the specification's rule, under which α depends on β.

## Model

All source paths are under `pmd-java/src/main/java/net/sourceforge/pmd/lang/java/typeresolution/typeinference/`; the table writes them out in full.

| member | source | states |
|---|---|---|
| Extraction.MentionedVariables | pmd-java/src/main/java/net/sourceforge/pmd/lang/java/typeresolution/typeinference/TypeInferenceResolver.java:283-291 | a variable is mentioned exactly when some bound has it on one of its sides |
| Extraction.MentionedIgnoresOrder | pmd-java/src/main/java/net/sourceforge/pmd/lang/java/typeresolution/typeinference/TypeInferenceResolver.java:283-291 | two bound lists with the same members (in any order, with any repetition) mention the same variables |
| Extraction.Instantiation | pmd-java/src/main/java/net/sourceforge/pmd/lang/java/typeresolution/typeinference/TypeInferenceResolver.java:195-201 | a bound records an instantiation exactly when it is an equality between a bare variable and a proper type, in either order; the bound then mentions only that variable |
| Extraction.Instantiations | pmd-java/src/main/java/net/sourceforge/pmd/lang/java/typeresolution/typeinference/TypeInferenceResolver.java:182-206 | a variable is a key exactly when some bound of the list instantiates it; subtype bounds never contribute |
| Extraction.InstantiationsLastWins | pmd-java/src/main/java/net/sourceforge/pmd/lang/java/typeresolution/typeinference/TypeInferenceResolver.java:194-203 | the value of each key is the type given by a bound that instantiates the key and that no later bound of the list overrides |
| Extraction.InstantiatedAreMentioned | pmd-java/src/main/java/net/sourceforge/pmd/lang/java/typeresolution/typeinference/TypeInferenceResolver.java:211-215 | every instantiated variable is a mentioned one |
| Extraction.UninstantiatedVariables | pmd-java/src/main/java/net/sourceforge/pmd/lang/java/typeresolution/typeinference/TypeInferenceResolver.java:211-215 | a variable is uninstantiated exactly when it is mentioned and no bound instantiates it; with the instantiated keys it partitions the mentioned set |
| Extraction.InstantiationExamples | pmd-java/src/main/java/net/sourceforge/pmd/lang/java/typeresolution/typeinference/TypeInferenceResolver.java:195-201 | `α = T` and `T = α` both give α ↦ T; `α <: T` gives nothing |
| Extraction.LaterInstantiationWins | pmd-java/src/main/java/net/sourceforge/pmd/lang/java/typeresolution/typeinference/TypeInferenceResolver.java:194-203 | for `α = T1` followed by `T2 = α`, the map is α ↦ T2 |
| Dependencies.DependencyEdge | pmd-java/src/main/java/net/sourceforge/pmd/lang/java/typeresolution/typeinference/TypeInferenceResolver.java:233-245 | a bound seeds at most one edge, between two variables it mentions, and none when either side is a proper type |
| Dependencies.InitialDependencies | pmd-java/src/main/java/net/sourceforge/pmd/lang/java/typeresolution/typeinference/TypeInferenceResolver.java:220-245 | before closure, the keys are exactly the mentioned variables, each depends on itself, and no set names a non-key (no lookup can miss) |
| Dependencies.SeedingRules | pmd-java/src/main/java/net/sourceforge/pmd/lang/java/typeresolution/typeinference/TypeInferenceResolver.java:229-245 | `α = T` or `α <: T` with T being or mentioning β puts β in α's set; when the left side is not a bare variable, `T = α` or `T <: α` with T mentioning β puts α in β's set |
| Dependencies.SeedingExact | pmd-java/src/main/java/net/sourceforge/pmd/lang/java/typeresolution/typeinference/TypeInferenceResolver.java:220-245 | every seeded dependency is the variable itself or the edge of some bound; nothing else is seeded |
| Dependencies.Pass | pmd-java/src/main/java/net/sourceforge/pmd/lang/java/typeresolution/typeinference/TypeInferenceResolver.java:262-270 | a closure pass keeps the keys and only grows each set |
| Dependencies.VariableDependencies | pmd-java/src/main/java/net/sourceforge/pmd/lang/java/typeresolution/typeinference/TypeInferenceResolver.java:217-278 | the keys are exactly the mentioned variables; every variable depends on itself and keeps its seeded dependencies; after at most as many passes as there are variables, every set is exactly what the seeded edges reach from its key |
| Dependencies.DependenciesAreReachability | pmd-java/src/main/java/net/sourceforge/pmd/lang/java/typeresolution/typeinference/TypeInferenceResolver.java:256-275 | v depends on w exactly when a chain of seeded edges, possibly empty, leads from v to w |
| Dependencies.DependenciesTransitive | pmd-java/src/main/java/net/sourceforge/pmd/lang/java/typeresolution/typeinference/TypeInferenceResolver.java:256-275 | the result is transitively closed: whatever a dependency of v depends on, v depends on too |
| Dependencies.StableIsTransitive | pmd-java/src/main/java/net/sourceforge/pmd/lang/java/typeresolution/typeinference/TypeInferenceResolver.java:260-274 | when a pass would add nothing (the early exit), the relation is transitively closed |
| Dependencies.ChainExample | pmd-java/src/main/java/net/sourceforge/pmd/lang/java/typeresolution/typeinference/TypeInferenceResolver.java:229-275 | for `{α <: β, β <: γ}`, α depends on α, β and γ, and γ only on itself |
| InPlace.ScanEntry | pmd-java/src/main/java/net/sourceforge/pmd/lang/java/typeresolution/typeinference/TypeInferenceResolver.java:264-269 | scanning one set in place either throws the concurrent-modification exception or finishes with the keys unchanged, no set naming a non-key, and every set grown only |
| InPlace.PassInPlace | pmd-java/src/main/java/net/sourceforge/pmd/lang/java/typeresolution/typeinference/TypeInferenceResolver.java:262-270 | the same, for one in-place pass over every entry in hash order |
| InPlace.LoopInPlace | pmd-java/src/main/java/net/sourceforge/pmd/lang/java/typeresolution/typeinference/TypeInferenceResolver.java:259-275 | the same, for the bounded sequence of passes with its early exit, given a hash order that lists each key once |
| InPlace.InPlaceDependencies | pmd-java/src/main/java/net/sourceforge/pmd/lang/java/typeresolution/typeinference/TypeInferenceResolver.java:217-278 | given a hash order that lists each mentioned variable once, the in-place closure either throws or finishes with the mentioned variables as keys, each depending on itself and keeping its seeded dependencies |
| InPlace.ChainSeedExact | pmd-java/src/main/java/net/sourceforge/pmd/lang/java/typeresolution/typeinference/TypeInferenceResolver.java:220-245 | the seed of `{α <: β, β <: γ}` is exactly α → {α, β}, β → {β, γ}, γ → {γ} |
| InPlace.ConcurrentModificationExample | pmd-java/src/main/java/net/sourceforge/pmd/lang/java/typeresolution/typeinference/TypeInferenceResolver.java:259-275 | for `{α <: β, β <: γ}`, when β's hash bucket comes before α's, the in-place closure throws a concurrent-modification exception |
| Oracle.BoundsHaveAnEqualityBetween | pmd-java/src/main/java/net/sourceforge/pmd/lang/java/typeresolution/typeinference/TypeInferenceResolver.java:89-101 | true exactly when some equality bound has the given variable as one bare side and a list member as the other, in either orientation; hence false for an empty list or no bounds |
| Oracle.LinkIgnoresOrder | pmd-java/src/main/java/net/sourceforge/pmd/lang/java/typeresolution/typeinference/TypeInferenceResolver.java:89-101 | the equality link depends only on which variables and bounds occur, not on the scan order |
| Oracle.IsProperSubsetOfVariables | pmd-java/src/main/java/net/sourceforge/pmd/lang/java/typeresolution/typeinference/TypeInferenceResolver.java:68-84 | true exactly when every candidate has an entry and none depends on a variable that is neither instantiated nor equality-linked to a candidate; the null-dereference outcome occurs exactly when a candidate without an entry is reached first, and never when every candidate has an entry |
| Oracle.FailureIsFinal | pmd-java/src/main/java/net/sourceforge/pmd/lang/java/typeresolution/typeinference/TypeInferenceResolver.java:74-80 | after the first blocking dependency, no longer prefix of the candidates passes, so returning false at once is the only correct answer |
| Oracle.PassesIsResolvable | pmd-java/src/main/java/net/sourceforge/pmd/lang/java/typeresolution/typeinference/TypeInferenceResolver.java:68-84 | passing every candidate in list order is the same as the order-free condition, so the answer does not depend on scan order |
| Oracle.MoreInstantiationsHelp | pmd-java/src/main/java/net/sourceforge/pmd/lang/java/typeresolution/typeinference/TypeInferenceResolver.java:76-77 | with more instantiated variables, a passing candidate set still passes |
| Oracle.SelfDependencyNeedsEquality | pmd-java/src/main/java/net/sourceforge/pmd/lang/java/typeresolution/typeinference/TypeInferenceResolver.java:74-79 | an uninstantiated candidate passes only if some equality bound links it to a candidate |
| Oracle.SingleUpperBoundDiverges | pmd-java/src/main/java/net/sourceforge/pmd/lang/java/typeresolution/typeinference/TypeInferenceResolver.java:61-79 | for `{α <: T}` and the candidates `[α]`, the condition the comment quotes from the specification holds, yet the test fails |
| Oracle.EqualityPairPasses | pmd-java/src/main/java/net/sourceforge/pmd/lang/java/typeresolution/typeinference/TypeInferenceResolver.java:74-97 | with the bound `α = β` and the dependency relation it gives, the candidates `[α, β]` pass although neither is instantiated |
| Combinations.PrevClear | pmd-java/src/main/java/net/sourceforge/pmd/lang/java/typeresolution/typeinference/TypeInferenceResolver.java:154 | the highest clear position at or below i, or -1 when all are set |
| Combinations.PrevSet | pmd-java/src/main/java/net/sourceforge/pmd/lang/java/typeresolution/typeinference/TypeInferenceResolver.java:155 | the highest set position at or below i, or -1 when none is |
| Combinations.Advance | pmd-java/src/main/java/net/sourceforge/pmd/lang/java/typeresolution/typeinference/TypeInferenceResolver.java:152-163 | `next()` finds no successor of the same size exactly when every set bit comes after every clear bit; a successor has the mask's length |
| Combinations.Step | pmd-java/src/main/java/net/sourceforge/pmd/lang/java/typeresolution/typeinference/TypeInferenceResolver.java:151-163 | the cursor stays at its size exactly when the mask has a successor; otherwise it moves to the next size, whose first mask is the reference list's first, or ends once the size exceeds the list |
| Combinations.AdvanceIsSucc | pmd-java/src/main/java/net/sourceforge/pmd/lang/java/typeresolution/typeinference/TypeInferenceResolver.java:151-163 | the bit formula of `next()` equals a recursive successor defined on the leading bit, on every mask |
| Combinations.AdvanceWalksAt | pmd-java/src/main/java/net/sourceforge/pmd/lang/java/typeresolution/typeinference/TypeInferenceResolver.java:151-163 | within a size, `next()` moves each mask to the following one of the lexicographic reference list, and reports the size exhausted after the last |
| Combinations.AdvanceToNextK | pmd-java/src/main/java/net/sourceforge/pmd/lang/java/typeresolution/typeinference/TypeInferenceResolver.java:136-143 | moving to the next size sets up the first mask of that size, or ends the iteration once the size exceeds the list |
| Combinations.Enumerate | pmd-java/src/main/java/net/sourceforge/pmd/lang/java/typeresolution/typeinference/TypeInferenceResolver.java:122-173 | the iterator yields, in order, the selection of each mask of the reference list of all non-empty masks, sizes ascending |
| Combinations.EnumerateNonEmpty | pmd-java/src/main/java/net/sourceforge/pmd/lang/java/typeresolution/typeinference/TypeInferenceResolver.java:137-142 | no yielded subset is empty or larger than the list, and each draws only on the list |
| Combinations.EnumerateSorted | pmd-java/src/main/java/net/sourceforge/pmd/lang/java/typeresolution/typeinference/TypeInferenceResolver.java:103-107 | subsets come from the least to the most numerous |
| Combinations.EnumerateComplete | pmd-java/src/main/java/net/sourceforge/pmd/lang/java/typeresolution/typeinference/TypeInferenceResolver.java:103-107 | every non-empty selection of the list is yielded |
| Combinations.EnumerateCount | pmd-java/src/main/java/net/sourceforge/pmd/lang/java/typeresolution/typeinference/TypeInferenceResolver.java:103-107 | over n elements, exactly 2^n - 1 subsets are yielded |
| Combinations.EnumerateDistinct | pmd-java/src/main/java/net/sourceforge/pmd/lang/java/typeresolution/typeinference/TypeInferenceResolver.java:103-107 | over a list without repetitions, no subset is yielded twice |
| Combinations.Select | pmd-java/src/main/java/net/sourceforge/pmd/lang/java/typeresolution/typeinference/TypeInferenceResolver.java:165-170 | the list built from a mask has as many elements as the mask has set bits |
| Combinations.SelectShape | pmd-java/src/main/java/net/sourceforge/pmd/lang/java/typeresolution/typeinference/TypeInferenceResolver.java:165-170 | the list built from a mask has one element per set bit, each taken from the list |
| Combinations.SelectInjective | pmd-java/src/main/java/net/sourceforge/pmd/lang/java/typeresolution/typeinference/TypeInferenceResolver.java:165-170 | over a list without repetitions, different masks build different lists |
| Combinations.DocumentedOrder | pmd-java/src/main/java/net/sourceforge/pmd/lang/java/typeresolution/typeinference/TypeInferenceResolver.java:106-107 | for `[A, B, C]` the iterator yields exactly A, B, C, AB, AC, BC, ABC |
| Incorporation.Searched | pmd-java/src/main/java/net/sourceforge/pmd/lang/java/typeresolution/typeinference/TypeInferenceResolver.java:369-375 | the variable looked for is the first bound's left side when that is a variable, otherwise its right side; there is one exactly when either side is a variable |
| Incorporation.UnequalSides | pmd-java/src/main/java/net/sourceforge/pmd/lang/java/typeresolution/typeinference/TypeInferenceResolver.java:368-384 | a result exists exactly when the looked-for variable is a bare side of the second bound; it names, in each bound, the side opposite that variable, the second bound's left occurrence taking precedence |
| Incorporation.Incorporate | pmd-java/src/main/java/net/sourceforge/pmd/lang/java/typeresolution/typeinference/TypeInferenceResolver.java:304-338 | a pair gives a constraint exactly when the looked-for variable is a bare side of the second bound and the pair is not two subtype bounds with that variable on the same side; the constraint follows by a rule of section 18.3.1 and is an equality exactly when both bounds are |
| Incorporation.IncorporateComplete | pmd-java/src/main/java/net/sourceforge/pmd/lang/java/typeresolution/typeinference/TypeInferenceResolver.java:309-338 | whenever a rule of section 18.3.1 pivoting on the looked-for variable applies, and neither bound has that variable on both sides, the pair gives exactly that rule's constraint |
| Incorporation.RightPivotMissed | pmd-java/src/main/java/net/sourceforge/pmd/lang/java/typeresolution/typeinference/TypeInferenceResolver.java:369-375 | `α = β` with `β <: T` gives nothing, although the rules give `α <: T` |
| Incorporation.CopyConstraint | pmd-java/src/main/java/net/sourceforge/pmd/lang/java/typeresolution/typeinference/TypeInferenceResolver.java:386-449 | when each chosen side is opposite an occurrence of one shared variable, the constraint relates the first bound's other side to the second's, under the given rule |
| Incorporation.IncorporateBounds | pmd-java/src/main/java/net/sourceforge/pmd/lang/java/typeresolution/typeinference/TypeInferenceResolver.java:296-348 | the result is the pairs' constraints, current bound major, and there is at most one constraint per pair |
| Incorporation.EmittedMembers | pmd-java/src/main/java/net/sourceforge/pmd/lang/java/typeresolution/typeinference/TypeInferenceResolver.java:302-345 | a constraint is in the result exactly when some (current, new) pair gives it |
| Incorporation.RowMembers | pmd-java/src/main/java/net/sourceforge/pmd/lang/java/typeresolution/typeinference/TypeInferenceResolver.java:303-344 | one current bound's constraints are exactly those its pairs with the new bounds give |
| Incorporation.EmittedAreImplied | pmd-java/src/main/java/net/sourceforge/pmd/lang/java/typeresolution/typeinference/TypeInferenceResolver.java:297-338 | every constraint in the result follows from some (current, new) pair by a rule of section 18.3.1 |
| Incorporation.EmittedSize | pmd-java/src/main/java/net/sourceforge/pmd/lang/java/typeresolution/typeinference/TypeInferenceResolver.java:302-345 | at most one constraint per (current, new) pair |
| Incorporation.EmittedConcat | pmd-java/src/main/java/net/sourceforge/pmd/lang/java/typeresolution/typeinference/TypeInferenceResolver.java:302 | the constraints of earlier current bounds all precede those of later ones |
| Incorporation.RowConcat | pmd-java/src/main/java/net/sourceforge/pmd/lang/java/typeresolution/typeinference/TypeInferenceResolver.java:303 | within one current bound, the constraints follow the order of the new bounds |
| Incorporation.EqualityThenSubtype | pmd-java/src/main/java/net/sourceforge/pmd/lang/java/typeresolution/typeinference/TypeInferenceResolver.java:312-315 | `{α = U}` with `{α <: V}` gives exactly `U <: V` |
| Incorporation.SubtypeChain | pmd-java/src/main/java/net/sourceforge/pmd/lang/java/typeresolution/typeinference/TypeInferenceResolver.java:330-333 | `{S <: α}` with `{α <: T}` gives exactly `S <: T` |
| Incorporation.TwoUpperBoundsGiveNothing | pmd-java/src/main/java/net/sourceforge/pmd/lang/java/typeresolution/typeinference/TypeInferenceResolver.java:330-338 | `α <: S` with `α <: T` gives no constraint |
| Resolution.ResolveVariables | pmd-java/src/main/java/net/sourceforge/pmd/lang/java/typeresolution/typeinference/TypeInferenceResolver.java:32-53 | with nothing uninstantiated, the dependencies are computed first (by the snapshot closure), and the result has exactly the mentioned variables as keys, each value being the one its last instantiating bound gives |
| Resolution.CandidateRound | pmd-java/src/main/java/net/sourceforge/pmd/lang/java/typeresolution/typeinference/TypeInferenceResolver.java:44-48 | the candidate sets are the iterator's output in order, and each verdict is true exactly when its set is resolvable |
| Resolution.FirstPassingIsMinimal | pmd-java/src/main/java/net/sourceforge/pmd/lang/java/typeresolution/typeinference/TypeInferenceResolver.java:40-44 | no non-empty subset smaller than the first passing candidate set passes |

## Left out

- Resolution.ResolveVariables: computes the dependencies with the snapshot closure `Dependencies.VariableDependencies`, not the in-place loop the source calls at line 33. So the concurrent-modification exception of the Findings row, which the source can throw on this path too (for example `{α <: β, β <: γ}` with α, β and γ each instantiated and β hashed before α), is not reflected here.
- Resolution.ResolveVariables: requires that nothing is uninstantiated. Otherwise the source's outer loop never shrinks its list, and it runs forever. Its body, the resolution step itself, is not written yet.
- Resolution.CandidateRound: requires every candidate to have a dependency entry. The driver meets this, because uninstantiated variables are mentioned and every mentioned variable is a key. `Oracle.IsProperSubsetOfVariables` itself also models the missing-entry outcome.
- Generating instantiations (least upper bounds and greatest lower bounds of proper bounds) is not modelled. It is a TODO in the source and needs the type representation, which is not part of this model.
- Capture-conversion dependencies are not modelled: they are TODOs in the source with no behaviour.
- Substitution incorporation `S[α:=U]` is not modelled for the same reason.
- A compound term records at most one mentioned variable, since the accessors the resolver calls return one.
- Incorporation.CopyConstraint: copies each chosen side as it is. In the source, a side that is not a variable goes through `leftProper()`/`rightProper()`. Their behaviour on compound types belongs to the `Bound` class, which is not part of this model.
- Combinations.Enumerate: each yielded subset is an independent list. The source hands out one shared, unmodifiable view of a single list, refilled on every `next()`, and `remove()` does nothing.
- Oracle.IsProperSubsetOfVariables: a dependency lookup that misses is the result `None`, standing for the source's null dereference. Within one candidate, dependencies are examined in an arbitrary order.
- InPlace.InPlaceDependencies: one hash order, given as a parameter, serves for the map and every set; it must list each mentioned variable exactly once, as a hash table's iteration does. A real `HashSet` orders by bucket, which can differ between tables of different capacity. The model does not prove that a finished in-place run equals reachability.
- Dependencies.VariableDependencies: each pass reads a snapshot of the relation, so it may need more passes than an in-place run. The pass bound is the same, the number of variables, and it is proved enough to reach the closure.
- Java `int` overflow in the iterator's positions and the `BitSet` object are not modelled: masks are sequences of booleans over unbounded indices.

## Findings

| source | as written | input that shows it | evidently intended | confidence | as-written member | corrected member |
|---|---|---|---|---|---|---|
| pmd-java/src/main/java/net/sourceforge/pmd/lang/java/typeresolution/typeinference/TypeInferenceResolver.java:262-269 | the closure loop iterates over a variable's dependency set while `addAll` grows that same `HashSet`; its fail-fast iterator throws `ConcurrentModificationException` on the next element after any growth not made at the set's last element | bounds `{α <: β, β <: γ}` where hash order puts β before α: α's set {α, β} is visited β first, grows by γ, and α is still to come | iterate over a snapshot of each set (or collect additions and apply them after the scan), giving the transitive closure of the seeded relation | not executed | InPlace.InPlaceDependencies (counterexample InPlace.ConcurrentModificationExample) | Dependencies.VariableDependencies |
