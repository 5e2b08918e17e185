/**
 * The dependency graph (`getVariableDependencies`): which variables the
 * resolution of each mentioned variable depends on. Bounds seed direct
 * edges, every variable depends on itself, and a bounded number of
 * relaxation passes closes the relation transitively.
 */
module Dependencies {
  import opened Terms
  import opened Extraction

  /** A dependency relation: each key maps to the variables it depends on. */
  type Graph = map<VarId, set<VarId>>

  /** Every variable a key depends on is itself a key (no lookup can miss). */
  ghost predicate Closed(g: Graph)
  {
    forall v :: v in g ==> g[v] <= g.Keys
  }

  /**
   * The direct edge one bound seeds, as (dependent, dependency). `α = T` or
   * `α <: T` with α a bare variable and T being or mentioning β gives (α, β);
   * otherwise `T = α` or `T <: α` with T mentioning β gives (β, α). Both rule
   * types qualify, so the rule is not consulted.
   */
  function DependencyEdge(b: Bound): (r: Option<(VarId, VarId)>)
    ensures r.Some? ==> r.value.0 in BoundVariables(b) && r.value.1 in BoundVariables(b)
    ensures b.left.Proper? || b.right.Proper? ==> r.None?
  {
    if b.left.Var? && MentionedVariable(b.right).Some? then
      Some((b.left.id, MentionedVariable(b.right).value))
    else if MentionedVariable(b.left).Some? && b.right.Var? then
      Some((MentionedVariable(b.left).value, b.right.id))
    else None
  }

  /** Bound `i` of `bounds` seeds the edge (v, w). */
  predicate SeedsEdge(bounds: seq<Bound>, i: int, v: VarId, w: VarId)
  {
    0 <= i < |bounds| && DependencyEdge(bounds[i]) == Some((v, w))
  }

  /** The variables bound edges make `v` depend on directly. */
  function DirectDependencies(bounds: seq<Bound>, v: VarId): set<VarId>
  {
    set i | 0 <= i < |bounds| && DependencyEdge(bounds[i]).Some? && DependencyEdge(bounds[i]).value.0 == v
      :: DependencyEdge(bounds[i]).value.1
  }

  /**
   * The relation before closure: each mentioned variable depends on itself
   * and on the other end of every edge a bound seeds for it.
   */
  function InitialDependencies(bounds: seq<Bound>): (r: Graph)
    ensures r.Keys == MentionedVariables(bounds)
    ensures Closed(r)
    ensures forall v :: v in r ==> v in r[v]
  {
    DirectInMentioned(bounds);
    map v | v in MentionedVariables(bounds) :: {v} + DirectDependencies(bounds, v)
  }

  /** Both ends of every seeded edge are mentioned variables. */
  lemma DirectInMentioned(bounds: seq<Bound>)
    ensures forall v: VarId :: DirectDependencies(bounds, v) <= MentionedVariables(bounds)
  {
    forall v: VarId, w: VarId | w in DirectDependencies(bounds, v)
      ensures w in MentionedVariables(bounds)
    {
      var i :| 0 <= i < |bounds| && DependencyEdge(bounds[i]).Some? && DependencyEdge(bounds[i]).value == (v, w);
      assert w in BoundVariables(bounds[i]);
    }
  }

  /**
   * Seeding: `α = T` or `α <: T`, with T being or mentioning β, makes α
   * depend on β; when the left side is not a bare variable, `T = α` or
   * `T <: α` with T mentioning β makes β depend on α; nothing else is seeded.
   */
  lemma SeedingRules(bounds: seq<Bound>, i: int)
    requires 0 <= i < |bounds|
    ensures var b := bounds[i]; var r := InitialDependencies(bounds);
            b.left.Var? && MentionedVariable(b.right).Some? ==>
              b.left.id in r && MentionedVariable(b.right).value in r[b.left.id]
    ensures var b := bounds[i]; var r := InitialDependencies(bounds);
            !b.left.Var? && MentionedVariable(b.left).Some? && b.right.Var? ==>
              MentionedVariable(b.left).value in r && b.right.id in r[MentionedVariable(b.left).value]
  {
    assert BoundVariables(bounds[i]) <= MentionedVariables(bounds);
  }

  /** Every seeded dependency other than the reflexive one comes from a bound. */
  lemma SeedingExact(bounds: seq<Bound>, v: VarId, w: VarId)
    requires v in InitialDependencies(bounds) && w in InitialDependencies(bounds)[v]
    ensures w == v || exists i :: SeedsEdge(bounds, i, v, w)
  {
    if w != v {
      assert w in DirectDependencies(bounds, v);
      var i :| 0 <= i < |bounds| && DependencyEdge(bounds[i]).Some? && DependencyEdge(bounds[i]).value == (v, w);
      assert SeedsEdge(bounds, i, v, w);
    }
  }

  /** Everything one step of `g` leads to from `s`. */
  function Successors(g: Graph, s: set<VarId>): set<VarId>
  {
    set u, w | u in s && u in g && w in g[u] :: w
  }

  /**
   * One relaxation pass: every variable also depends on whatever its current
   * dependencies depend on.
   */
  function Pass(g: Graph): (r: Graph)
    ensures r.Keys == g.Keys
    ensures forall v :: v in g ==> g[v] <= r[v]
  {
    map v | v in g :: g[v] + Successors(g, g[v])
  }

  /** A pass would add nothing: no `addAll` of the pass reports a change. */
  predicate Stable(g: Graph)
  {
    forall v :: v in g ==> Successors(g, g[v]) <= g[v]
  }

  /**
   * getVariableDependencies: the seeded relation closed by at most
   * |variables| passes, stopping early after a pass that adds nothing. Every
   * set ends up exactly what the seeded edges reach from its key, so every
   * mentioned variable is a key and depends on itself.
   */
  method VariableDependencies(bounds: seq<Bound>) returns (r: Graph)
    ensures r.Keys == MentionedVariables(bounds)
    ensures forall v :: v in r ==> v in r[v]
    ensures forall v :: v in r ==> InitialDependencies(bounds)[v] <= r[v]
    ensures IsReachability(InitialDependencies(bounds), r)
  {
    var seed := InitialDependencies(bounds);
    SeedSatisfiesInvariant(seed);
    r := seed;
    var passes := 0;
    while passes < |seed| && !Stable(r)
      invariant passes <= |seed|
      invariant PassInvariant(seed, r, passes)
      decreases |seed| - passes
    {
      PassKeepsInvariant(seed, r, passes);
      r := Pass(r);
      passes := passes + 1;
    }
    if passes == |seed| {
      ExhaustedIsReachability(seed, r);
    } else {
      StableIsReachability(seed, r, passes);
    }
    forall v | v in r
      ensures v in r[v] && seed[v] <= r[v]
    {
      assert ReachesExactly(seed, r, v);
      SeedInReach(seed, r, passes, v);
    }
  }

  // ---------------------------------------------------------------------
  // Reachability: the reference meaning of "depends on".
  // ---------------------------------------------------------------------

  /** The variables reachable from `v` in at most `k` steps of `g`. */
  ghost function ReachWithin(g: Graph, v: VarId, k: nat): set<VarId>
  {
    if k == 0 then {v}
    else
      var prev := ReachWithin(g, v, k - 1);
      prev + Successors(g, prev)
  }

  /** `w` is reachable from `v` along a finite chain of `g`-edges (possibly empty). */
  ghost predicate Reaches(g: Graph, v: VarId, w: VarId)
  {
    exists k: nat :: w in ReachWithin(g, v, k)
  }

  lemma {:induction false} ReachMonotone(g: Graph, v: VarId, j: nat, k: nat)
    requires j <= k
    ensures ReachWithin(g, v, j) <= ReachWithin(g, v, k)
    decreases k
  {
    if j < k {
      ReachMonotone(g, v, j, k - 1);
    }
  }

  lemma {:induction false} ReachInKeys(g: Graph, v: VarId, k: nat)
    requires Closed(g) && v in g
    ensures ReachWithin(g, v, k) <= g.Keys
  {
    if k > 0 {
      ReachInKeys(g, v, k - 1);
    }
  }

  /** Once a step adds nothing, no later step does. */
  lemma {:induction false} ReachStable(g: Graph, v: VarId, k: nat, j: nat)
    requires ReachWithin(g, v, k + 1) == ReachWithin(g, v, k)
    requires k <= j
    ensures ReachWithin(g, v, j) == ReachWithin(g, v, k)
    decreases j
  {
    if j > k {
      ReachStable(g, v, k, j - 1);
    }
  }

  /** While the frontier keeps growing, the set has at least one element per step. */
  lemma {:induction false} ReachGrowth(g: Graph, v: VarId, k: nat)
    requires ReachWithin(g, v, k + 1) != ReachWithin(g, v, k)
    ensures |ReachWithin(g, v, k + 1)| >= k + 2
  {
    ReachMonotone(g, v, k, k + 1);
    ProperSubsetCard(ReachWithin(g, v, k), ReachWithin(g, v, k + 1));
    if k > 0 {
      assert ReachWithin(g, v, k) != ReachWithin(g, v, k - 1);
      ReachGrowth(g, v, k - 1);
    }
  }

  /** After |g| steps the reachable set is closed under `g`. */
  lemma ReachSaturates(g: Graph, v: VarId)
    requires Closed(g) && v in g
    ensures ReachWithin(g, v, |g| + 1) == ReachWithin(g, v, |g|)
  {
    var n := |g|;
    assert |g.Keys| == n;
    ReachInKeys(g, v, n + 1);
    SubsetCard(ReachWithin(g, v, n + 1), g.Keys);
    if ReachWithin(g, v, n + 1) != ReachWithin(g, v, n) {
      ReachGrowth(g, v, n);
      assert false;
    }
  }

  /** Reachability from `v` needs at most |g| steps. */
  lemma ReachesWithinSize(g: Graph, v: VarId, w: VarId)
    requires Closed(g) && v in g
    ensures Reaches(g, v, w) <==> w in ReachWithin(g, v, |g|)
  {
    if Reaches(g, v, w) {
      var k: nat :| w in ReachWithin(g, v, k);
      ReachSaturates(g, v);
      if k <= |g| {
        ReachMonotone(g, v, k, |g|);
      } else {
        ReachStable(g, v, |g|, k);
      }
    }
  }

  /** Any set containing `v` and closed under `g` contains everything reachable from `v`. */
  lemma {:induction false} ReachLeast(g: Graph, v: VarId, s: set<VarId>, k: nat)
    requires v in s
    requires forall u :: u in s && u in g ==> g[u] <= s
    ensures ReachWithin(g, v, k) <= s
  {
    if k > 0 {
      ReachLeast(g, v, s, k - 1);
    }
  }

  /** Reachability is transitive. */
  lemma ReachTransitive(g: Graph, v: VarId, u: VarId)
    requires Closed(g) && v in g
    requires u in ReachWithin(g, v, |g|)
    ensures ReachWithin(g, u, |g|) <= ReachWithin(g, v, |g|)
  {
    var rv := ReachWithin(g, v, |g|);
    ReachSaturates(g, v);
    forall x | x in rv && x in g
      ensures g[x] <= rv
    {
      assert g[x] <= Successors(g, rv);
    }
    ReachLeast(g, u, rv, |g|);
  }

  lemma {:induction false} SubsetCard(a: set<VarId>, b: set<VarId>)
    requires a <= b
    ensures |a| <= |b|
  {
    assert b == a + (b - a);
  }

  lemma {:induction false} ProperSubsetCard(a: set<VarId>, b: set<VarId>)
    requires a <= b && a != b
    ensures |a| < |b|
  {
    assert b == a + (b - a);
    var x :| x in b && x !in a;
    assert x in b - a;
  }

  // ---------------------------------------------------------------------
  // The closure computes exactly reachability over the seeded edges.
  // ---------------------------------------------------------------------

  /**
   * After `i` passes over the seed `s`, every set holds what `s` reaches in
   * `i + 1` steps and nothing `s` does not reach at all.
   */
  ghost predicate PassInvariant(s: Graph, g: Graph, i: nat)
  {
    && Closed(s)
    && g.Keys == s.Keys
    && forall v {:trigger Bracketed(s, g, i, v)} :: v in g ==> Bracketed(s, g, i, v)
  }

  /** The set of `v` lies between what `s` reaches in `i + 1` steps and all `s` reaches. */
  ghost predicate Bracketed(s: Graph, g: Graph, i: nat, v: VarId)
    requires v in g
  {
    ReachWithin(s, v, i + 1) <= g[v] <= ReachWithin(s, v, |s|)
  }

  lemma SeedSatisfiesInvariant(s: Graph)
    requires Closed(s)
    requires forall v :: v in s ==> v in s[v]
    ensures PassInvariant(s, s, 0)
  {
    forall v | v in s
      ensures Bracketed(s, s, 0, v)
    {
      assert ReachWithin(s, v, 0) == {v};
      assert s[v] <= Successors(s, {v});
      assert ReachWithin(s, v, 1) == {v} + Successors(s, {v});
      ReachMonotone(s, v, 1, |s|);
    }
  }

  /** Under the invariant, the seed's own edges are in every later set. */
  lemma SeedInReach(s: Graph, g: Graph, i: nat, u: VarId)
    requires PassInvariant(s, g, i) && u in s
    ensures s[u] <= g[u]
  {
    assert Bracketed(s, g, i, u);
    ReachMonotone(s, u, 1, i + 1);
    assert ReachWithin(s, u, 0) == {u};
    assert s[u] <= Successors(s, {u});
  }

  /** A pass lets every set reach one step further. */
  lemma PassReachesFurther(s: Graph, g: Graph, i: nat, v: VarId)
    requires PassInvariant(s, g, i) && v in g
    ensures ReachWithin(s, v, i + 2) <= Pass(g)[v]
  {
    assert Bracketed(s, g, i, v);
    var prev := ReachWithin(s, v, i + 1);
    var p := Pass(g)[v];
    assert ReachWithin(s, v, i + 2) == prev + Successors(s, prev);
    forall w | w in Successors(s, prev)
      ensures w in p
    {
      var u :| u in prev && u in s && w in s[u];
      SeedInReach(s, g, i, u);
      assert u in g[v] && u in g && w in g[u];
    }
  }

  /** A pass adds nothing the seed does not reach. */
  lemma PassStaysReachable(s: Graph, g: Graph, i: nat, v: VarId)
    requires PassInvariant(s, g, i) && v in g
    ensures Pass(g)[v] <= ReachWithin(s, v, |s|)
  {
    assert Bracketed(s, g, i, v);
    forall w | w in Pass(g)[v]
      ensures w in ReachWithin(s, v, |s|)
    {
      if w !in g[v] {
        var u :| u in g[v] && u in g && w in g[u];
        assert Bracketed(s, g, i, u);
        ReachTransitive(s, v, u);
      }
    }
  }

  lemma PassKeepsInvariant(s: Graph, g: Graph, i: nat)
    requires PassInvariant(s, g, i)
    ensures PassInvariant(s, Pass(g), i + 1)
  {
    forall v | v in Pass(g)
      ensures Bracketed(s, Pass(g), i + 1, v)
    {
      PassReachesFurther(s, g, i, v);
      PassStaysReachable(s, g, i, v);
    }
  }

  /** Every set of `r` is exactly what the seed `s` reaches from its key. */
  ghost predicate IsReachability(s: Graph, r: Graph)
  {
    r.Keys == s.Keys && forall v {:trigger ReachesExactly(s, r, v)} :: v in s ==> ReachesExactly(s, r, v)
  }

  /** The set of `v` in `r` is everything `s` reaches from `v`. */
  ghost predicate ReachesExactly(s: Graph, r: Graph, v: VarId)
    requires v in r
  {
    r[v] == ReachWithin(s, v, |s|)
  }

  /** When a pass changes nothing, every set is exactly what the seed reaches. */
  lemma StableIsReachability(s: Graph, g: Graph, i: nat)
    requires PassInvariant(s, g, i)
    requires Stable(g)
    ensures IsReachability(s, g)
  {
    forall v | v in g
      ensures ReachesExactly(s, g, v)
    {
      assert Bracketed(s, g, i, v);
      forall u | u in g[v] && u in s
        ensures s[u] <= g[v]
      {
        SeedInReach(s, g, i, u);
        assert g[u] <= Successors(g, g[v]);
      }
      assert v in ReachWithin(s, v, i + 1) by { ReachMonotone(s, v, 0, i + 1); }
      ReachLeast(s, v, g[v], |s|);
    }
  }

  /** After |s| passes every set is exactly what the seed reaches. */
  lemma ExhaustedIsReachability(s: Graph, g: Graph)
    requires PassInvariant(s, g, |s|)
    ensures IsReachability(s, g)
  {
    forall v | v in g
      ensures ReachesExactly(s, g, v)
    {
      assert Bracketed(s, g, |s|, v);
      ReachMonotone(s, v, |s|, |s| + 1);
    }
  }

  /**
   * The dependency relation is exactly reachability along the seeded edges:
   * v depends on w iff a chain of bound-seeded edges (possibly empty) leads
   * from v to w.
   */
  lemma DependenciesAreReachability(bounds: seq<Bound>, r: Graph, v: VarId, w: VarId)
    requires IsReachability(InitialDependencies(bounds), r)
    requires v in MentionedVariables(bounds)
    ensures w in r[v] <==> Reaches(InitialDependencies(bounds), v, w)
  {
    var s := InitialDependencies(bounds);
    assert ReachesExactly(s, r, v);
    ReachesWithinSize(s, v, w);
  }

  /** The dependency relation is transitively closed, and only relates keys. */
  lemma DependenciesTransitive(bounds: seq<Bound>, r: Graph, v: VarId, u: VarId)
    requires IsReachability(InitialDependencies(bounds), r)
    requires v in r && u in r[v]
    ensures u in r
    ensures r[u] <= r[v]
  {
    var s := InitialDependencies(bounds);
    assert ReachesExactly(s, r, v);
    ReachInKeys(s, v, |s|);
    assert u in r;
    assert ReachesExactly(s, r, u);
    ReachTransitive(s, v, u);
  }

  /**
   * A relation on which a pass would add nothing (the loop's early exit) is
   * transitively closed.
   */
  lemma StableIsTransitive(g: Graph, v: VarId, u: VarId)
    requires Stable(g)
    requires v in g && u in g[v] && u in g
    ensures g[u] <= g[v]
  {
    assert g[u] <= Successors(g, g[v]);
  }

  /** The seed of {α <: β, β <: γ} holds the two edges α → β and β → γ. */
  lemma ChainSeed(a: VarId, b: VarId, c: VarId)
    requires a != b && b != c && a != c
    ensures var s := InitialDependencies([Bound(Var(a), Var(b), Subtype), Bound(Var(b), Var(c), Subtype)]);
            a in s && b in s && c in s && b in s[a] && c in s[b]
  {
    var bounds := [Bound(Var(a), Var(b), Subtype), Bound(Var(b), Var(c), Subtype)];
    SeedingRules(bounds, 0);
    SeedingRules(bounds, 1);
    assert c in BoundVariables(bounds[1]);
  }

  /** In the seed of {α <: β, β <: γ}, γ depends only on itself: no bound has γ on its dependent side. */
  lemma ChainSink(a: VarId, b: VarId, c: VarId)
    requires a != b && b != c && a != c
    ensures var s := InitialDependencies([Bound(Var(a), Var(b), Subtype), Bound(Var(b), Var(c), Subtype)]);
            c in s && s[c] == {c}
  {
    var bounds := [Bound(Var(a), Var(b), Subtype), Bound(Var(b), Var(c), Subtype)];
    assert DependencyEdge(bounds[0]) == Some((a, b)) && DependencyEdge(bounds[1]) == Some((b, c));
    assert DirectDependencies(bounds, c) == {};
    assert c in MentionedVariables(bounds) by { assert c in BoundVariables(bounds[1]); }
  }

  /** Reachability over any seed with the edges α → β → γ and γ a sink. */
  lemma ChainReach(s: Graph, r: Graph, a: VarId, b: VarId, c: VarId)
    requires a != b && b != c && a != c
    requires Closed(s) && a in s && b in s && c in s
    requires b in s[a] && c in s[b] && s[c] == {c}
    requires IsReachability(s, r)
    ensures a in r && {a, b, c} <= r[a]
    ensures c in r && r[c] == {c}
  {
    assert ReachesExactly(s, r, a);
    assert ReachesExactly(s, r, c);
    assert ReachWithin(s, a, 0) == {a};
    assert b in ReachWithin(s, a, 1);
    assert c in ReachWithin(s, a, 2);
    SubsetCard({a, b, c}, s.Keys);
    ReachMonotone(s, a, 2, |s|);
    ReachLeast(s, c, {c}, |s|);
    ReachMonotone(s, c, 0, |s|);
  }

  /** {α <: β, β <: γ}: α depends on α, β and γ, and γ only on itself. */
  lemma ChainExample(a: VarId, b: VarId, c: VarId, r: Graph)
    requires a != b && b != c && a != c
    requires IsReachability(InitialDependencies([Bound(Var(a), Var(b), Subtype), Bound(Var(b), Var(c), Subtype)]), r)
    ensures a in r && {a, b, c} <= r[a]
    ensures c in r && r[c] == {c}
  {
    ChainSeed(a, b, c);
    ChainSink(a, b, c);
    ChainReach(InitialDependencies([Bound(Var(a), Var(b), Subtype), Bound(Var(b), Var(c), Subtype)]), r, a, b, c);
  }
}
