/**
 * The closure loop of `getVariableDependencies` as the code runs it: sets
 * are updated in place, and each entry's set grows (`addAll`) while it is
 * being iterated. A hash set's iterator is fail-fast: once the set has
 * changed, asking it for the next element throws a concurrent-modification
 * exception. The loop therefore completes only when every growth of a set
 * happens while its LAST element is being visited.
 *
 * Iteration order of hash sets and maps is a parameter here: `order` lists
 * the variables in the order their hash buckets are visited, and every set
 * and the map's entries are iterated in that order.
 */
module InPlace {
  import opened Terms
  import opened Extraction
  import opened Dependencies

  /**
   * How the in-place closure ends. No lookup can miss: every set names keys
   * only (`Closed`), so the code's null dereference has no outcome here.
   */
  datatype Run =
    | Finished(deps: Graph)
    | ConcurrentModification

  /**
   * `order` is a hash iteration order for the keys `keys`: it lists every
   * key, and no variable twice, so each element is visited exactly once.
   */
  predicate HashOrder(order: seq<VarId>, keys: set<VarId>)
  {
    (forall v :: v in keys ==> v in order)
    && forall i, j :: 0 <= i < j < |order| ==> order[i] != order[j]
  }

  /** The elements of `s`, in the iteration order `order`. */
  function InOrder(order: seq<VarId>, s: set<VarId>): (r: seq<VarId>)
    ensures forall x :: x in r ==> x in s
  {
    if |order| == 0 then []
    else (if order[0] in s then [order[0]] else []) + InOrder(order[1..], s)
  }

  /** Every element of `s` that `order` lists is visited. */
  lemma {:induction false} InOrderHas(order: seq<VarId>, s: set<VarId>, x: VarId)
    requires x in s && x in order
    ensures x in InOrder(order, s)
  {
    if order[0] != x {
      InOrderHas(order[1..], s, x);
    }
  }

  /**
   * The inner loop for entry `v`: `elems` are the elements still to visit.
   * Each visit adds the visited variable's current set to `v`'s set; a
   * change while another element is still to come throws.
   */
  function ScanEntry(g: Graph, v: VarId, elems: seq<VarId>): (r: Run)
    requires Closed(g) && v in g
    requires forall w :: w in elems ==> w in g
    ensures r.Finished? ==> r.deps.Keys == g.Keys && Closed(r.deps)
                            && forall u :: u in g ==> g[u] <= r.deps[u]
    decreases |elems|
  {
    if |elems| == 0 then Finished(g)
    else
      var w := elems[0];
      var grown := g[v] + g[w];
      if grown == g[v] then ScanEntry(g, v, elems[1..])
      else if |elems| > 1 then ConcurrentModification
      else Finished(g[v := grown])
  }

  /** One pass over the map's entries, in `keys` order, each set scanned in place. */
  function PassInPlace(g: Graph, order: seq<VarId>, keys: seq<VarId>): (r: Run)
    requires Closed(g)
    requires forall v :: v in keys ==> v in g
    ensures r.Finished? ==> r.deps.Keys == g.Keys && Closed(r.deps)
                            && forall u :: u in g ==> g[u] <= r.deps[u]
    decreases |keys|
  {
    if |keys| == 0 then Finished(g)
    else
      var v := keys[0];
      match ScanEntry(g, v, InOrder(order, g[v]))
      case Finished(g') => PassInPlace(g', order, keys[1..])
      case ConcurrentModification => ConcurrentModification
  }

  /** At most `remaining` passes, stopping after one that changes nothing. */
  function LoopInPlace(g: Graph, order: seq<VarId>, remaining: nat): (r: Run)
    requires Closed(g) && HashOrder(order, g.Keys)
    ensures r.Finished? ==> r.deps.Keys == g.Keys && Closed(r.deps)
                            && forall u :: u in g ==> g[u] <= r.deps[u]
    decreases remaining
  {
    if remaining == 0 then Finished(g)
    else
      match PassInPlace(g, order, InOrder(order, g.Keys))
      case Finished(g') => if g' == g then Finished(g') else LoopInPlace(g', order, remaining - 1)
      case ConcurrentModification => ConcurrentModification
  }

  /**
   * getVariableDependencies as written, for the hash order `order`. When
   * it finishes, every mentioned variable is a key and every set holds at
   * least its seeded dependencies.
   */
  function InPlaceDependencies(bounds: seq<Bound>, order: seq<VarId>): (r: Run)
    requires HashOrder(order, MentionedVariables(bounds))
    ensures r.Finished? ==> r.deps.Keys == MentionedVariables(bounds)
                            && forall v :: v in r.deps ==> v in r.deps[v] && InitialDependencies(bounds)[v] <= r.deps[v]
  {
    var seed := InitialDependencies(bounds);
    LoopInPlace(seed, order, |seed|)
  }

  /** Visiting a set in a three-variable order. */
  lemma InOrderThree(x: VarId, y: VarId, z: VarId, s: set<VarId>)
    ensures InOrder([x, y, z], s) == (if x in s then [x] else []) + (if y in s then [y] else []) + (if z in s then [z] else [])
  {
    var order := [x, y, z];
    assert order[1..] == [y, z] && order[1..][1..] == [z] && order[1..][1..][1..] == [];
    assert InOrder([z], s) == (if z in s then [z] else []) + InOrder([], s);
    assert InOrder([y, z], s) == (if y in s then [y] else []) + InOrder([z], s);
    assert InOrder([x, y, z], s) == (if x in s then [x] else []) + InOrder([y, z], s);
  }

  /** The variables {α <: β, β <: γ} mentions. */
  lemma ChainMentioned(a: VarId, b: VarId, c: VarId)
    ensures MentionedVariables([Bound(Var(a), Var(b), Subtype), Bound(Var(b), Var(c), Subtype)]) == {a, b, c}
  {
    var bounds := [Bound(Var(a), Var(b), Subtype), Bound(Var(b), Var(c), Subtype)];
    assert BoundVariables(bounds[0]) == {a, b} && BoundVariables(bounds[1]) == {b, c};
  }

  /** The direct edges of {α <: β, β <: γ}. */
  lemma ChainDirect(a: VarId, b: VarId, c: VarId)
    requires a != b && b != c && a != c
    ensures var bounds := [Bound(Var(a), Var(b), Subtype), Bound(Var(b), Var(c), Subtype)];
            DirectDependencies(bounds, a) == {b} && DirectDependencies(bounds, b) == {c}
            && DirectDependencies(bounds, c) == {}
  {
    var bounds := [Bound(Var(a), Var(b), Subtype), Bound(Var(b), Var(c), Subtype)];
    assert DependencyEdge(bounds[0]) == Some((a, b)) && DependencyEdge(bounds[1]) == Some((b, c));
  }

  /** A seed is fixed by the mentioned variables and their direct edges. */
  lemma SeedFromEdges(bounds: seq<Bound>, a: VarId, b: VarId, c: VarId)
    requires a != b && b != c && a != c
    requires MentionedVariables(bounds) == {a, b, c}
    requires DirectDependencies(bounds, a) == {b} && DirectDependencies(bounds, b) == {c}
    requires DirectDependencies(bounds, c) == {}
    ensures var s := InitialDependencies(bounds);
            s.Keys == {a, b, c} && s[a] == {a, b} && s[b] == {b, c} && s[c] == {c}
  {
  }

  /** The seed of {α <: β, β <: γ}, exactly: α → {α, β}, β → {β, γ}, γ → {γ}. */
  lemma ChainSeedExact(a: VarId, b: VarId, c: VarId)
    requires a != b && b != c && a != c
    ensures var s := InitialDependencies([Bound(Var(a), Var(b), Subtype), Bound(Var(b), Var(c), Subtype)]);
            s.Keys == {a, b, c} && s[a] == {a, b} && s[b] == {b, c} && s[c] == {c}
  {
    ChainMentioned(a, b, c);
    ChainDirect(a, b, c);
    SeedFromEdges([Bound(Var(a), Var(b), Subtype), Bound(Var(b), Var(c), Subtype)], a, b, c);
  }

  /**
   * The first pass over the seed α → {α, β}, β → {β, γ}, γ → {γ} in the
   * order β, α, γ: β's scan changes nothing, then α's set {α, β} is visited
   * β first, grows by γ, and α is still to come.
   */
  lemma ChainPassThrows(g: Graph, a: VarId, b: VarId, c: VarId, remaining: nat)
    requires a != b && b != c && a != c && remaining > 0
    requires g.Keys == {a, b, c} && g[a] == {a, b} && g[b] == {b, c} && g[c] == {c}
    ensures Closed(g) && HashOrder([b, a, c], g.Keys)
    ensures LoopInPlace(g, [b, a, c], remaining) == ConcurrentModification
  {
    var order := [b, a, c];
    InOrderThree(b, a, c, g.Keys);
    InOrderThree(b, a, c, g[b]);
    InOrderThree(b, a, c, g[a]);
    assert InOrder(order, g.Keys) == [b, a, c];
    assert InOrder(order, g[b]) == [b, c];
    assert InOrder(order, g[a]) == [b, a];
    assert ScanEntry(g, b, [b, c]) == Finished(g) by {
      assert [b, c][1..] == [c] && [b, c][1..][1..] == [];
      assert ScanEntry(g, b, [c]) == ScanEntry(g, b, []);
    }
    assert ScanEntry(g, a, [b, a]) == ConcurrentModification;
    assert PassInPlace(g, order, [b, a, c]) == ConcurrentModification by {
      assert [b, a, c][1..] == [a, c];
      assert PassInPlace(g, order, [b, a, c]) == PassInPlace(g, order, [a, c]);
    }
  }

  /**
   * {α <: β, β <: γ}: when β's bucket comes before α's, the code throws a
   * concurrent-modification exception instead of returning the dependencies.
   */
  lemma ConcurrentModificationExample(a: VarId, b: VarId, c: VarId)
    requires a != b && b != c && a != c
    ensures var bounds := [Bound(Var(a), Var(b), Subtype), Bound(Var(b), Var(c), Subtype)];
            HashOrder([b, a, c], MentionedVariables(bounds))
            && InPlaceDependencies(bounds, [b, a, c]) == ConcurrentModification
  {
    var bounds := [Bound(Var(a), Var(b), Subtype), Bound(Var(b), Var(c), Subtype)];
    ChainSeedExact(a, b, c);
    var seed := InitialDependencies(bounds);
    assert a in seed;
    ChainPassThrows(seed, a, b, c, |seed|);
  }
}
