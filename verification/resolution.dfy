/**
 * The resolution driver (`resolveVariables`). It computes the dependencies,
 * the instantiations and the uninstantiated variables of a bound set; when
 * nothing is left uninstantiated it returns the instantiations.
 *
 * With variables left, the driver enumerates the candidate subsets from the
 * least to the most numerous and asks the resolvable-subset test about each;
 * the resolution step itself is not written yet, so that loop never ends.
 * One round of it is modelled here, with the property the enumeration
 * order is there to give: the first candidate set that passes has no
 * smaller non-empty subset that passes.
 */
module Resolution {
  import opened Terms
  import opened Extraction
  import opened Dependencies
  import opened Oracle
  import opened Combinations

  /**
   * resolveVariables, on the path that terminates: every mentioned variable
   * is instantiated, and the value returned for each is the one the last
   * instantiating bound gives. The dependencies are computed first, as in
   * the code, by the snapshot closure; on this path nothing reads them.
   */
  method ResolveVariables(bounds: seq<Bound>) returns (r: map<VarId, TypeId>)
    requires UninstantiatedVariables(bounds) == {}
    ensures r.Keys == MentionedVariables(bounds)
    ensures forall v :: v in r ==>
              exists i :: 0 <= i < |bounds| && Instantiation(bounds[i]) == Some((v, r[v]))
                          && forall j :: i < j < |bounds| ==> !Instantiates(bounds[j], v)
  {
    var dependencies := VariableDependencies(bounds);
    r := Instantiations(bounds);
    forall v | v in r
      ensures exists i :: 0 <= i < |bounds| && Instantiation(bounds[i]) == Some((v, r[v]))
                          && forall j :: i < j < |bounds| ==> !Instantiates(bounds[j], v)
    {
      var i := InstantiationsLastWins(bounds, v);
    }
  }

  /**
   * One round of the driver's loop: the candidate subsets of `variables`
   * in enumeration order, and the test's verdict on each. Every candidate
   * has a dependency entry, so the test never misses a lookup.
   */
  method CandidateRound(variables: seq<VarId>, instantiations: map<VarId, TypeId>, dependencies: Graph,
                        bounds: seq<Bound>) returns (subsets: seq<seq<VarId>>, verdicts: seq<bool>)
    requires forall v :: v in variables ==> v in dependencies
    ensures Enumerates(variables, subsets)
    ensures |verdicts| == |subsets|
    ensures forall j :: 0 <= j < |subsets| ==>
              (verdicts[j] <==> Resolvable(subsets[j], instantiations, dependencies, bounds))
  {
    subsets := Enumerate(variables);
    verdicts := [];
    var j := 0;
    while j < |subsets|
      invariant 0 <= j <= |subsets| && |verdicts| == j
      invariant forall k :: 0 <= k < j ==> (verdicts[k] <==> Resolvable(subsets[k], instantiations, dependencies, bounds))
    {
      EnumerateNonEmpty(variables, subsets, j);
      var answer := IsProperSubsetOfVariables(subsets[j], instantiations, dependencies, bounds);
      PassesIsResolvable(subsets[j], instantiations, dependencies, bounds);
      verdicts := verdicts + [answer.value];
      j := j + 1;
    }
  }

  /**
   * The enumeration order is what makes the first passing candidate set
   * minimal: every non-empty subset with fewer elements came earlier, and
   * so failed.
   */
  lemma FirstPassingIsMinimal(variables: seq<VarId>, subsets: seq<seq<VarId>>, verdicts: seq<bool>,
                              instantiations: map<VarId, TypeId>, dependencies: Graph, bounds: seq<Bound>, j: int)
    requires Enumerates(variables, subsets) && |verdicts| == |subsets|
    requires forall k :: 0 <= k < |subsets| ==>
               (verdicts[k] <==> Resolvable(subsets[k], instantiations, dependencies, bounds))
    requires 0 <= j < |subsets| && verdicts[j] && forall k :: 0 <= k < j ==> !verdicts[k]
    ensures forall m :: |m| == |variables| && 1 <= Count(m) < |subsets[j]| ==>
              !Resolvable(Select(variables, m), instantiations, dependencies, bounds)
  {
    forall m | |m| == |variables| && 1 <= Count(m) < |subsets[j]|
      ensures !Resolvable(Select(variables, m), instantiations, dependencies, bounds)
    {
      EnumerateComplete(variables, subsets, m);
      SelectShape(variables, m);
      var k :| 0 <= k < |subsets| && subsets[k] == Select(variables, m);
      if j < k {
        EnumerateSorted(variables, subsets, j, k);
      }
      assert k < j;
    }
  }
}
