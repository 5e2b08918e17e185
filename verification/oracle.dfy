/**
 * The resolvable-subset test of resolution (`isProperSubsetOfVariables`) and
 * the equality search it relies on (`boundsHaveAnEqualityBetween`).
 *
 * A candidate set of uninstantiated variables passes when every variable any
 * candidate depends on either has an instantiation or is linked to some
 * candidate by an equality bound between two bare variables.
 */
module Oracle {
  import opened Terms
  import opened Extraction
  import opened Dependencies

  /** `b` is the bound `x = y` or `y = x` between two bare variables. */
  predicate EqualityBetween(b: Bound, x: VarId, y: VarId)
  {
    b.rule == Equality && ((b.left == Var(x) && b.right == Var(y)) || (b.left == Var(y) && b.right == Var(x)))
  }

  /** Some bound is an equality between `second` and some element of `firstList`. */
  predicate EqualityLinked(firstList: seq<VarId>, second: VarId, bounds: seq<Bound>)
  {
    exists i, j :: 0 <= i < |bounds| && 0 <= j < |firstList| && EqualityBetween(bounds[i], firstList[j], second)
  }

  /**
   * boundsHaveAnEqualityBetween: scans the bounds in order and, for each,
   * the list in order, answering true at the first equality found.
   */
  method BoundsHaveAnEqualityBetween(firstList: seq<VarId>, second: VarId, bounds: seq<Bound>) returns (r: bool)
    ensures r <==> EqualityLinked(firstList, second, bounds)
  {
    var i := 0;
    while i < |bounds|
      invariant 0 <= i <= |bounds|
      invariant forall k, j :: 0 <= k < i && 0 <= j < |firstList| ==> !EqualityBetween(bounds[k], firstList[j], second)
    {
      var bound := bounds[i];
      var j := 0;
      while j < |firstList|
        invariant 0 <= j <= |firstList|
        invariant forall k :: 0 <= k < j ==> !EqualityBetween(bound, firstList[k], second)
      {
        var first := firstList[j];
        if bound.rule == Equality
           && ((AsVariable(bound.left) == Some(first) && AsVariable(bound.right) == Some(second))
               || (AsVariable(bound.left) == Some(second) && AsVariable(bound.right) == Some(first)))
        {
          assert EqualityBetween(bounds[i], firstList[j], second);
          return true;
        }
        j := j + 1;
      }
      i := i + 1;
    }
    return false;
  }

  /** The link depends only on which variables and bounds occur, not on their order. */
  lemma LinkIgnoresOrder(l1: seq<VarId>, l2: seq<VarId>, b1: seq<Bound>, b2: seq<Bound>, second: VarId)
    requires forall x :: x in l1 <==> x in l2
    requires forall b :: b in b1 <==> b in b2
    ensures EqualityLinked(l1, second, b1) <==> EqualityLinked(l2, second, b2)
  {
    if EqualityLinked(l1, second, b1) {
      var i, j :| 0 <= i < |b1| && 0 <= j < |l1| && EqualityBetween(b1[i], l1[j], second);
      assert b1[i] in b2 && l1[j] in l2;
      var i', j' :| 0 <= i' < |b2| && 0 <= j' < |l2| && b2[i'] == b1[i] && l2[j'] == l1[j];
      assert EqualityBetween(b2[i'], l2[j'], second);
    }
    if EqualityLinked(l2, second, b2) {
      var i, j :| 0 <= i < |b2| && 0 <= j < |l2| && EqualityBetween(b2[i], l2[j], second);
      assert b2[i] in b1 && l2[j] in l1;
      var i', j' :| 0 <= i' < |b1| && 0 <= j' < |l1| && b1[i'] == b2[i] && l1[j'] == l2[j];
      assert EqualityBetween(b1[i'], l1[j'], second);
    }
  }

  /** `d` has no instantiation and no equality bound ties it to a candidate. */
  predicate Blocks(variables: seq<VarId>, instantiations: map<VarId, TypeId>, bounds: seq<Bound>, d: VarId)
  {
    d !in instantiations && !EqualityLinked(variables, d, bounds)
  }

  /**
   * The first `k` candidates have dependency entries and none of them
   * depends on a blocking variable.
   */
  ghost predicate PassesUpTo(variables: seq<VarId>, instantiations: map<VarId, TypeId>, dependencies: Graph,
                             bounds: seq<Bound>, k: int)
  {
    forall i :: 0 <= i < k && i < |variables| ==>
      variables[i] in dependencies
      && forall d :: d in dependencies[variables[i]] ==> !Blocks(variables, instantiations, bounds, d)
  }

  /**
   * isProperSubsetOfVariables. Candidates are examined in list order, and
   * each one's dependencies in any order; the answer is false at the first
   * blocking dependency and true when there is none. A candidate without an
   * entry in `dependencies` makes the Java code dereference null; that
   * outcome is `None`.
   */
  method IsProperSubsetOfVariables(variables: seq<VarId>, instantiations: map<VarId, TypeId>,
                                   dependencies: Graph, bounds: seq<Bound>) returns (r: Option<bool>)
    ensures r == Some(true) <==> PassesUpTo(variables, instantiations, dependencies, bounds, |variables|)
    ensures r == None <==>
              exists k :: 0 <= k < |variables| && PassesUpTo(variables, instantiations, dependencies, bounds, k)
                          && variables[k] !in dependencies
    ensures (forall v :: v in variables ==> v in dependencies) ==> r.Some?
  {
    var k := 0;
    while k < |variables|
      invariant 0 <= k <= |variables|
      invariant PassesUpTo(variables, instantiations, dependencies, bounds, k)
    {
      var v := variables[k];
      if v !in dependencies {
        return None;
      }
      var rest := dependencies[v];
      while rest != {}
        invariant rest <= dependencies[v]
        invariant forall d :: d in dependencies[v] - rest ==> !Blocks(variables, instantiations, bounds, d)
        decreases |rest|
      {
        var d :| d in rest;
        if d !in instantiations {
          var linked := BoundsHaveAnEqualityBetween(variables, d, bounds);
          if !linked {
            FailureIsFinal(variables, instantiations, dependencies, bounds, k, d);
            return Some(false);
          }
        }
        rest := rest - {d};
      }
      k := k + 1;
    }
    return Some(true);
  }

  /**
   * Once candidate `k` has an entry and a blocking dependency, no longer
   * prefix passes, so neither a later missing entry nor success can follow.
   */
  lemma FailureIsFinal(variables: seq<VarId>, instantiations: map<VarId, TypeId>, dependencies: Graph,
                       bounds: seq<Bound>, k: int, d: VarId)
    requires 0 <= k < |variables| && PassesUpTo(variables, instantiations, dependencies, bounds, k)
    requires variables[k] in dependencies && d in dependencies[variables[k]]
    requires Blocks(variables, instantiations, bounds, d)
    ensures forall m :: k < m ==> !PassesUpTo(variables, instantiations, dependencies, bounds, m)
    ensures forall m :: 0 <= m < |variables| && PassesUpTo(variables, instantiations, dependencies, bounds, m)
                        ==> variables[m] in dependencies
  {
  }

  /**
   * The condition the test decides, stated without order: every candidate
   * has an entry and no candidate depends on a blocking variable.
   */
  ghost predicate Resolvable(variables: seq<VarId>, instantiations: map<VarId, TypeId>, dependencies: Graph,
                             bounds: seq<Bound>)
  {
    forall v :: v in variables ==>
      v in dependencies && forall d :: d in dependencies[v] ==> !Blocks(variables, instantiations, bounds, d)
  }

  /** Passing every candidate in order is the same as the order-free condition. */
  lemma PassesIsResolvable(variables: seq<VarId>, instantiations: map<VarId, TypeId>, dependencies: Graph,
                           bounds: seq<Bound>)
    ensures PassesUpTo(variables, instantiations, dependencies, bounds, |variables|)
            <==> Resolvable(variables, instantiations, dependencies, bounds)
  {
    if PassesUpTo(variables, instantiations, dependencies, bounds, |variables|) {
      forall v | v in variables
        ensures v in dependencies
        ensures forall d :: d in dependencies[v] ==> !Blocks(variables, instantiations, bounds, d)
      {
        var i :| 0 <= i < |variables| && variables[i] == v;
      }
    }
  }

  /** More instantiations can only make a candidate set pass, never fail. */
  lemma MoreInstantiationsHelp(variables: seq<VarId>, inst1: map<VarId, TypeId>, inst2: map<VarId, TypeId>,
                               dependencies: Graph, bounds: seq<Bound>)
    requires inst1.Keys <= inst2.Keys
    requires Resolvable(variables, inst1, dependencies, bounds)
    ensures Resolvable(variables, inst2, dependencies, bounds)
  {
    forall v, d | v in variables && v in dependencies && d in dependencies[v]
      ensures !Blocks(variables, inst2, bounds, d)
    {
      assert !Blocks(variables, inst1, bounds, d);
    }
  }

  /**
   * Every variable depends on itself, so an uninstantiated candidate passes
   * only if an equality bound links it to a candidate (possibly itself, as
   * in `α = α`). Membership in the candidate set is not enough.
   */
  lemma SelfDependencyNeedsEquality(variables: seq<VarId>, instantiations: map<VarId, TypeId>,
                                    dependencies: Graph, bounds: seq<Bound>, v: VarId)
    requires v in variables && v in dependencies && v in dependencies[v]
    requires v !in instantiations
    requires Resolvable(variables, instantiations, dependencies, bounds)
    ensures exists i, j :: 0 <= i < |bounds| && 0 <= j < |variables| && EqualityBetween(bounds[i], variables[j], v)
  {
    assert !Blocks(variables, instantiations, bounds, v);
  }

  /**
   * The condition section 18.4 of the Java Language Specification (SE 8)
   * states: every variable a candidate depends on is instantiated or is
   * itself a candidate.
   */
  ghost predicate JlsResolvable(variables: seq<VarId>, instantiations: map<VarId, TypeId>, dependencies: Graph)
  {
    forall v :: v in variables ==>
      v in dependencies && forall d :: d in dependencies[v] ==> d in instantiations || d in variables
  }

  /**
   * The candidate set [α] for the bound set {α <: T}: the specification's
   * condition holds, while the test fails because α's dependency on itself
   * is not backed by an equality bound.
   */
  lemma SingleUpperBoundDiverges(a: VarId, t: TypeId)
    ensures var bounds := [Bound(Var(a), Proper(t), Subtype)];
            var deps := map[a := {a}];
            JlsResolvable([a], map[], deps) && !Resolvable([a], map[], deps, bounds)
  {
    var bounds := [Bound(Var(a), Proper(t), Subtype)];
    var deps := map[a := {a}];
    assert !EqualityLinked([a], a, bounds);
    assert Blocks([a], map[], bounds, a);
    assert a in [a] && a in deps && a in deps[a];
    forall d | d in deps[a]
      ensures d in [a]
    {
    }
  }

  /**
   * With the bound α = β, the candidate set [α, β] passes against the
   * dependency relation that bound gives, although neither is instantiated.
   */
  lemma EqualityPairPasses(a: VarId, b: VarId, r: Graph)
    requires IsReachability(InitialDependencies([Bound(Var(a), Var(b), Equality)]), r)
    ensures Resolvable([a, b], map[], r, [Bound(Var(a), Var(b), Equality)])
  {
    var bounds := [Bound(Var(a), Var(b), Equality)];
    assert MentionedVariables(bounds) == {a, b} by { assert BoundVariables(bounds[0]) == {a, b}; }
    assert EqualityLinked([a, b], a, bounds) by { assert EqualityBetween(bounds[0], [a, b][1], a); }
    assert EqualityLinked([a, b], b, bounds) by { assert EqualityBetween(bounds[0], [a, b][0], b); }
    forall v | v in [a, b]
      ensures v in r && forall d :: d in r[v] ==> !Blocks([a, b], map[], bounds, d)
    {
      forall d | d in r[v]
        ensures !Blocks([a, b], map[], bounds, d)
      {
        DependenciesTransitive(bounds, r, v, d);
      }
    }
  }
}
