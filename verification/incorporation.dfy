/**
 * Incorporation (`incorporateBounds`, `getUnequalSides`, `copyConstraint`):
 * every bound of the current list is paired with every bound of the new
 * list, and a pair that shares a bare variable α may give one constraint by
 * the rules of section 18.3.1 of the Java Language Specification (SE 8):
 *
 *   α = S and α = T   imply  S = T
 *   α = S and α <: T  imply  S <: T
 *   α = S and T <: α  imply  T <: S
 *   S <: α and α <: T imply  S <: T
 *
 * where a bound α = T also matches T = α, and the equality may come from
 * either list. The shared variable is looked for only where the code looks
 * for it: on the left of the first bound when that side is a variable, on
 * its right otherwise.
 */
module Incorporation {
  import opened Terms

  /** Which side of a bound a term sits on. */
  datatype Side = Left | Right
  {
    function Opposite(): Side
    {
      if this == Left then Right else Left
    }
  }

  /**
   * The sides of the first and second bound that hold the terms to relate;
   * the shared variable sits on the opposite side of each.
   */
  datatype Sides = Sides(first: Side, second: Side)
  {
    /** `copySwap`: the same pairing seen from the other bound. */
    function Swap(): Sides
    {
      Sides(second, first)
    }
  }

  function SideOf(b: Bound, s: Side): Term
  {
    if s == Left then b.left else b.right
  }

  /** `α` is one side of `b`, bare. */
  predicate Pins(b: Bound, a: VarId)
  {
    b.left == Var(a) || b.right == Var(a)
  }

  /**
   * The variable `getUnequalSides` looks for in the second bound: the first
   * bound's left side when that is a variable, otherwise its right side.
   */
  function Searched(first: Bound): (r: Option<VarId>)
    ensures r.Some? <==> first.left.Var? || first.right.Var?
    ensures r.Some? ==> Pins(first, r.value)
    ensures first.left.Var? ==> r == Some(first.left.id)
  {
    match AsVariable(first.left)
    case Some(v) => Some(v)
    case None => AsVariable(first.right)
  }

  /**
   * getUnequalSides. A result exists exactly when the searched variable of
   * the first bound is a bare side of the second; it then names, for each
   * bound, the side opposite that variable, preferring the second bound's
   * left side when the variable is on both.
   */
  function UnequalSides(first: Bound, second: Bound): (r: Option<Sides>)
    ensures r.Some? <==> Searched(first).Some? && Pins(second, Searched(first).value)
    ensures r.Some? ==> SideOf(first, r.value.first.Opposite()) == Var(Searched(first).value)
                        && SideOf(second, r.value.second.Opposite()) == Var(Searched(first).value)
    ensures r.Some? && second.left == Var(Searched(first).value) ==> r.value.second == Right
    ensures r.Some? && first.left == Var(Searched(first).value) ==> r.value.first == Right
  {
    if first.left.Var? then
      if second.left == first.left then Some(Sides(Right, Right))
      else if second.right == first.left then Some(Sides(Right, Left))
      else None
    else if first.right.Var? then
      if second.left == first.right then Some(Sides(Left, Right))
      else if second.right == first.right then Some(Sides(Left, Left))
      else None
    else None
  }

  /**
   * copyConstraint: relate the chosen side of the first bound to the chosen
   * side of the second. Each side is copied whether it is a variable or a
   * type, so the sixteen branches of the code all come down to this.
   */
  function CopyConstraint(first: Bound, second: Bound, sides: Sides, rule: Rule): (r: Constraint)
    ensures var pivot := SideOf(first, sides.first.Opposite());
            pivot.Var? && SideOf(second, sides.second.Opposite()) == pivot ==>
              r == Constraint(Partner(first, pivot.id), Partner(second, pivot.id), rule)
  {
    Constraint(SideOf(first, sides.first), SideOf(second, sides.second), rule)
  }

  /**
   * The loop body of `incorporateBounds`: what one (first, second) pair
   * gives. A constraint comes out exactly when the searched variable is a
   * bare side of the second bound, unless both bounds are subtype bounds
   * with that variable on the same side of each (α <: S with α <: T, or
   * S <: α with T <: α). It then follows by an incorporation rule pivoting
   * on the searched variable, and it is an equality exactly when both bounds
   * are.
   */
  function Incorporate(first: Bound, second: Bound): (r: Option<Constraint>)
    ensures r.Some? <==>
              Searched(first).Some? && Pins(second, Searched(first).value)
              && !(first.rule == Subtype && second.rule == Subtype
                   && (first.left == Var(Searched(first).value)) == (second.left == Var(Searched(first).value)))
    ensures r.Some? ==> JlsStep(first, second, Searched(first).value, r.value)
    ensures r.Some? ==> (r.value.rule == Equality <==> first.rule == Equality && second.rule == Equality)
  {
    match UnequalSides(first, second)
    case None => None
    case Some(sides) =>
      if first.rule == Equality && second.rule == Equality then
        Some(CopyConstraint(first, second, sides, Equality))
      else if first.rule == Equality then
        if sides.second == Right then Some(CopyConstraint(first, second, sides, Subtype))
        else Some(CopyConstraint(second, first, sides.Swap(), Subtype))
      else if second.rule == Equality then
        if sides.first == Right then Some(CopyConstraint(second, first, sides.Swap(), Subtype))
        else Some(CopyConstraint(first, second, sides, Subtype))
      else if sides.first == Left && sides.second == Right then
        Some(CopyConstraint(first, second, sides, Subtype))
      else if sides.first == Right && sides.second == Left then
        Some(CopyConstraint(second, first, sides.Swap(), Subtype))
      else
        assert first.rule == Subtype && second.rule == Subtype && sides.first == sides.second;
        var pivot := Var(Searched(first).value);
        assert (first.left == pivot) == (second.left == pivot);
        None
  }

  // ---------------------------------------------------------------------
  // The rules of section 18.3.1, as a reference.
  // ---------------------------------------------------------------------

  /** The side of `b` other than the bare `α` (its left when α is not on the left). */
  function Partner(b: Bound, a: VarId): Term
  {
    if b.left == Var(a) then b.right else b.left
  }

  /** The pair (first, second), pivoting on `α`, gives `c` by one of the incorporation rules. */
  predicate JlsStep(first: Bound, second: Bound, a: VarId, c: Constraint)
  {
    var s := Partner(first, a);
    var t := Partner(second, a);
    || (first.rule == Equality && second.rule == Equality && Pins(first, a) && Pins(second, a)
        && c == Constraint(s, t, Equality))
    || (first.rule == Equality && Pins(first, a) && second.rule == Subtype && second.left == Var(a)
        && c == Constraint(s, second.right, Subtype))
    || (first.rule == Equality && Pins(first, a) && second.rule == Subtype && second.right == Var(a)
        && c == Constraint(second.left, s, Subtype))
    || (first.rule == Subtype && first.left == Var(a) && second.rule == Equality && Pins(second, a)
        && c == Constraint(t, first.right, Subtype))
    || (first.rule == Subtype && first.right == Var(a) && second.rule == Equality && Pins(second, a)
        && c == Constraint(first.left, t, Subtype))
    || (first.rule == Subtype && first.right == Var(a) && second.rule == Subtype && second.left == Var(a)
        && c == Constraint(first.left, second.right, Subtype))
    || (first.rule == Subtype && first.left == Var(a) && second.rule == Subtype && second.right == Var(a)
        && c == Constraint(second.left, first.right, Subtype))
  }

  /** Some pivot makes the pair give `c`. */
  ghost predicate JlsImplies(first: Bound, second: Bound, c: Constraint)
  {
    exists a :: JlsStep(first, second, a, c)
  }

  /**
   * When the pivot is the searched variable and neither bound has it on both
   * sides, the pair gives exactly what the rules give.
   */
  lemma IncorporateComplete(first: Bound, second: Bound, a: VarId, c: Constraint)
    requires Searched(first) == Some(a)
    requires first.left != first.right && second.left != second.right
    requires JlsStep(first, second, a, c)
    ensures Incorporate(first, second) == Some(c)
  {
  }

  /**
   * The search looks only at the first bound's left side when it is a
   * variable: α = β with β <: T shares β, and the rules give α <: T, yet the
   * pair gives nothing.
   */
  lemma RightPivotMissed(a: VarId, b: VarId, t: TypeId)
    requires a != b
    ensures var first := Bound(Var(a), Var(b), Equality);
            var second := Bound(Var(b), Proper(t), Subtype);
            Incorporate(first, second) == None
            && JlsImplies(first, second, Constraint(Var(a), Proper(t), Subtype))
  {
    var first := Bound(Var(a), Var(b), Equality);
    var second := Bound(Var(b), Proper(t), Subtype);
    assert JlsStep(first, second, b, Constraint(Var(a), Proper(t), Subtype));
  }

  // ---------------------------------------------------------------------
  // incorporateBounds: all pairs, first-major.
  // ---------------------------------------------------------------------

  /** The constraint a pair gives, as a list of zero or one. */
  function Emit(c: Option<Constraint>): seq<Constraint>
  {
    if c.Some? then [c.value] else []
  }

  /** What one current bound gives with each new bound, in the new list's order. */
  function Row(first: Bound, newBounds: seq<Bound>): seq<Constraint>
  {
    if |newBounds| == 0 then []
    else Row(first, newBounds[..|newBounds| - 1]) + Emit(Incorporate(first, newBounds[|newBounds| - 1]))
  }

  /** The rows of all current bounds, in the current list's order. */
  function Emitted(currentBounds: seq<Bound>, newBounds: seq<Bound>): seq<Constraint>
  {
    if |currentBounds| == 0 then []
    else Emitted(currentBounds[..|currentBounds| - 1], newBounds) + Row(currentBounds[|currentBounds| - 1], newBounds)
  }

  /**
   * incorporateBounds: for each current bound, for each new bound, the
   * constraint the pair gives if any. At most one constraint per pair.
   */
  method IncorporateBounds(currentBounds: seq<Bound>, newBounds: seq<Bound>) returns (r: seq<Constraint>)
    ensures r == Emitted(currentBounds, newBounds)
    ensures |r| <= |currentBounds| * |newBounds|
  {
    r := [];
    var i := 0;
    while i < |currentBounds|
      invariant 0 <= i <= |currentBounds|
      invariant r == Emitted(currentBounds[..i], newBounds)
    {
      var first := currentBounds[i];
      var row := [];
      var j := 0;
      while j < |newBounds|
        invariant 0 <= j <= |newBounds|
        invariant row == Row(first, newBounds[..j])
      {
        assert newBounds[..j + 1][..j] == newBounds[..j];
        row := row + Emit(Incorporate(first, newBounds[j]));
        j := j + 1;
      }
      assert newBounds[..j] == newBounds;
      assert currentBounds[..i + 1][..i] == currentBounds[..i];
      r := r + row;
      i := i + 1;
    }
    assert currentBounds[..i] == currentBounds;
    EmittedSize(currentBounds, newBounds);
  }

  lemma {:induction false} RowSize(first: Bound, newBounds: seq<Bound>)
    ensures |Row(first, newBounds)| <= |newBounds|
  {
    if |newBounds| > 0 {
      RowSize(first, newBounds[..|newBounds| - 1]);
    }
  }

  /** At most one constraint per (current, new) pair. */
  lemma {:induction false} EmittedSize(currentBounds: seq<Bound>, newBounds: seq<Bound>)
    ensures |Emitted(currentBounds, newBounds)| <= |currentBounds| * |newBounds|
  {
    if |currentBounds| > 0 {
      var n := |currentBounds|;
      var prefix := currentBounds[..n - 1];
      EmittedSize(prefix, newBounds);
      RowSize(currentBounds[n - 1], newBounds);
      assert |Emitted(currentBounds, newBounds)| == |Emitted(prefix, newBounds)| + |Row(currentBounds[n - 1], newBounds)|;
      MulStep(n, |newBounds|);
    }
  }

  lemma MulStep(n: nat, p: nat)
    requires n > 0
    ensures (n - 1) * p + p == n * p
  {
  }


  /** A row holds the constraint of a pair exactly when some new bound gives it. */
  lemma {:induction false} RowMembers(first: Bound, newBounds: seq<Bound>, c: Constraint)
    ensures c in Row(first, newBounds) <==> exists j :: 0 <= j < |newBounds| && Incorporate(first, newBounds[j]) == Some(c)
  {
    if |newBounds| > 0 {
      var n := |newBounds|;
      var prefix := newBounds[..n - 1];
      RowMembers(first, prefix, c);
      assert forall j :: 0 <= j < n - 1 ==> prefix[j] == newBounds[j];
      if c in Row(first, prefix) {
        var j :| 0 <= j < n - 1 && Incorporate(first, prefix[j]) == Some(c);
        assert Incorporate(first, newBounds[j]) == Some(c);
      }
    }
  }

  /** The result holds a constraint exactly when some (current, new) pair gives it. */
  lemma EmittedMembers(currentBounds: seq<Bound>, newBounds: seq<Bound>, c: Constraint)
    ensures c in Emitted(currentBounds, newBounds) <==>
              exists i, j :: 0 <= i < |currentBounds| && 0 <= j < |newBounds|
                             && Incorporate(currentBounds[i], newBounds[j]) == Some(c)
  {
    if c in Emitted(currentBounds, newBounds) {
      var i := EmittedFrom(currentBounds, newBounds, c);
      RowMembers(currentBounds[i], newBounds, c);
    }
    if exists i, j :: 0 <= i < |currentBounds| && 0 <= j < |newBounds|
                      && Incorporate(currentBounds[i], newBounds[j]) == Some(c) {
      var i, j :| 0 <= i < |currentBounds| && 0 <= j < |newBounds|
                  && Incorporate(currentBounds[i], newBounds[j]) == Some(c);
      RowMembers(currentBounds[i], newBounds, c);
      EmittedHas(currentBounds, newBounds, c, i);
    }
  }

  /** A constraint in the result is in the row of the current bound returned. */
  lemma {:induction false} EmittedFrom(currentBounds: seq<Bound>, newBounds: seq<Bound>, c: Constraint)
    returns (i: nat)
    requires c in Emitted(currentBounds, newBounds)
    ensures i < |currentBounds| && c in Row(currentBounds[i], newBounds)
  {
    var n := |currentBounds|;
    var prefix := currentBounds[..n - 1];
    if c in Emitted(prefix, newBounds) {
      i := EmittedFrom(prefix, newBounds, c);
      assert currentBounds[i] == prefix[i];
    } else {
      i := n - 1;
    }
  }

  /** Every row's constraints are in the result. */
  lemma {:induction false} EmittedHas(currentBounds: seq<Bound>, newBounds: seq<Bound>, c: Constraint, i: nat)
    requires i < |currentBounds| && c in Row(currentBounds[i], newBounds)
    ensures c in Emitted(currentBounds, newBounds)
    decreases |currentBounds|
  {
    var n := |currentBounds|;
    var prefix := currentBounds[..n - 1];
    if i < n - 1 {
      assert prefix[i] == currentBounds[i];
      EmittedHas(prefix, newBounds, c, i);
      EmittedExtends(currentBounds, newBounds, c);
    } else {
      EmittedLastRow(currentBounds, newBounds, c);
    }
  }

  lemma EmittedExtends(currentBounds: seq<Bound>, newBounds: seq<Bound>, c: Constraint)
    requires |currentBounds| > 0 && c in Emitted(currentBounds[..|currentBounds| - 1], newBounds)
    ensures c in Emitted(currentBounds, newBounds)
  {
  }

  lemma EmittedLastRow(currentBounds: seq<Bound>, newBounds: seq<Bound>, c: Constraint)
    requires |currentBounds| > 0 && c in Row(currentBounds[|currentBounds| - 1], newBounds)
    ensures c in Emitted(currentBounds, newBounds)
  {
  }

  /** Every constraint in the result follows by an incorporation rule from some (current, new) pair. */
  lemma EmittedAreImplied(currentBounds: seq<Bound>, newBounds: seq<Bound>, c: Constraint)
    requires c in Emitted(currentBounds, newBounds)
    ensures exists i, j :: 0 <= i < |currentBounds| && 0 <= j < |newBounds|
                           && JlsImplies(currentBounds[i], newBounds[j], c)
  {
    EmittedMembers(currentBounds, newBounds, c);
    var i, j :| 0 <= i < |currentBounds| && 0 <= j < |newBounds| && Incorporate(currentBounds[i], newBounds[j]) == Some(c);
    assert JlsStep(currentBounds[i], newBounds[j], Searched(currentBounds[i]).value, c);
  }

  /**
   * First-major order: the constraints of an earlier current bound all come
   * before those of a later one.
   */
  lemma {:induction false} EmittedConcat(c1: seq<Bound>, c2: seq<Bound>, newBounds: seq<Bound>)
    ensures Emitted(c1 + c2, newBounds) == Emitted(c1, newBounds) + Emitted(c2, newBounds)
    decreases |c2|
  {
    if |c2| > 0 {
      var n := |c2|;
      assert (c1 + c2)[..|c1 + c2| - 1] == c1 + c2[..n - 1];
      EmittedConcat(c1, c2[..n - 1], newBounds);
    } else {
      assert c1 + c2 == c1;
    }
  }

  /** Within one current bound, the constraints follow the order of the new list. */
  lemma {:induction false} RowConcat(first: Bound, n1: seq<Bound>, n2: seq<Bound>)
    ensures Row(first, n1 + n2) == Row(first, n1) + Row(first, n2)
    decreases |n2|
  {
    if |n2| > 0 {
      var n := |n2|;
      assert (n1 + n2)[..|n1 + n2| - 1] == n1 + n2[..n - 1];
      RowConcat(first, n1, n2[..n - 1]);
    } else {
      assert n1 + n2 == n1;
    }
  }

  /** `{α = U}` with `{α <: V}` gives exactly `U <: V`. */
  lemma EqualityThenSubtype(a: VarId, u: TypeId, v: TypeId)
    ensures Emitted([Bound(Var(a), Proper(u), Equality)], [Bound(Var(a), Proper(v), Subtype)])
            == [Constraint(Proper(u), Proper(v), Subtype)]
  {
    var first := Bound(Var(a), Proper(u), Equality);
    var second := Bound(Var(a), Proper(v), Subtype);
    assert Incorporate(first, second) == Some(Constraint(Proper(u), Proper(v), Subtype));
    assert Row(first, [second]) == [Constraint(Proper(u), Proper(v), Subtype)];
  }

  /** `{S <: α}` with `{α <: T}` gives exactly `S <: T`, once. */
  lemma SubtypeChain(a: VarId, s: TypeId, t: TypeId)
    ensures Emitted([Bound(Proper(s), Var(a), Subtype)], [Bound(Var(a), Proper(t), Subtype)])
            == [Constraint(Proper(s), Proper(t), Subtype)]
  {
    var first := Bound(Proper(s), Var(a), Subtype);
    var second := Bound(Var(a), Proper(t), Subtype);
    assert Incorporate(first, second) == Some(Constraint(Proper(s), Proper(t), Subtype));
    assert Row(first, [second]) == [Constraint(Proper(s), Proper(t), Subtype)];
  }

  /** Two upper bounds of the same variable, `α <: S` and `α <: T`, give nothing. */
  lemma TwoUpperBoundsGiveNothing(a: VarId, s: TypeId, t: TypeId)
    ensures Incorporate(Bound(Var(a), Proper(s), Subtype), Bound(Var(a), Proper(t), Subtype)) == None
  {
  }
}
