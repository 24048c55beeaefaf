/**
 * The structural equality engine of the older rename detector. Hypotheses
 * are plain pairs: a pair listed in either order makes its two values equal
 * outright, before their types are looked at; no attribute is ever skipped.
 */
module LegacyAstEquality {
  import opened JavaAst

  /** A hypothesis `(a, b)`: the two values are taken to be equal. */
  datatype Pair = Pair(a: Value, b: Value)

  /** `(v1 == a and v2 == b) or (v1 == b and v2 == a)` for some listed pair. */
  predicate Paired(ms: seq<Pair>, v1: Value, v2: Value)
  {
    exists i :: 0 <= i < |ms| &&
      ((PyEq(v1, ms[i].a) && PyEq(v2, ms[i].b)) || (PyEq(v1, ms[i].b) && PyEq(v2, ms[i].a)))
  }

  /** `_ast_nodes_equal` of the older detector. */
  function Equal(v1: Value, v2: Value, recursive: bool, ms: seq<Pair>, firstLevel: bool): bool
    decreases v1
  {
    if !recursive && !firstLevel then true
    else if Paired(ms, v1, v2) then true
    else if TypeOf(v1) != TypeOf(v2) then false
    else match v1
      case List(xs) =>
        |xs| == |v2.items| &&
        forall i :: 0 <= i < |xs| ==> Equal(xs[i], v2.items[i], recursive, ms, false)
      case Node(_, _, fs) =>
        forall i :: 0 <= i < |fs| ==> Equal(fs[i].value, Get(v2, fs[i].attr), recursive, ms, false)
      case _ => PyEq(v1, v2)
  }

  /** `ast_nodes_equal` */
  function AstNodesEqual(v1: Value, v2: Value, recursive: bool, ms: seq<Pair>): bool
  {
    Equal(v1, v2, recursive, ms, true)
  }

  /** `ast_paths_equal` */
  function AstPathsEqual(p1: Path, p2: Path, ms: seq<Pair>): bool
  {
    |p1| == |p2| && forall i :: 0 <= i < |p1| ==> AstNodesEqual(p1[i], p2[i], false, ms)
  }

  /** A listed pair compares equal in both orders, whatever the two values are. */
  lemma {:induction false} ListedPairIsEqual(ms: seq<Pair>, k: int, recursive: bool)
    requires 0 <= k < |ms|
    ensures AstNodesEqual(ms[k].a, ms[k].b, recursive, ms)
    ensures AstNodesEqual(ms[k].b, ms[k].a, recursive, ms)
  {
    PyEqReflexive(ms[k].a);
    PyEqReflexive(ms[k].b);
  }

  /** Without a listed pair, values of different types are never equal. */
  lemma DifferentTypesNeverEqual(a: Value, b: Value, recursive: bool, ms: seq<Pair>)
    requires !Paired(ms, a, b) && TypeOf(a) != TypeOf(b)
    ensures !AstNodesEqual(a, b, recursive, ms)
  {
  }

  /** Without a listed pair, scalars are equal exactly when they have one type and are `==`. */
  lemma ScalarEquality(a: Value, b: Value, recursive: bool, ms: seq<Pair>)
    requires IsScalar(a) && !Paired(ms, a, b)
    ensures AstNodesEqual(a, b, recursive, ms) <==> TypeOf(a) == TypeOf(b) && PyEq(a, b)
  {
  }

  /** Without a listed pair, lists are equal exactly when they have one length and are equal pairwise. */
  lemma ListEquality(xs: seq<Value>, ys: seq<Value>, ms: seq<Pair>)
    requires !Paired(ms, List(xs), List(ys))
    ensures AstNodesEqual(List(xs), List(ys), true, ms) <==>
      |xs| == |ys| && forall i :: 0 <= i < |xs| ==> AstNodesEqual(xs[i], ys[i], true, ms)
  {
    forall i | 0 <= i < |xs| && i < |ys|
      ensures Equal(xs[i], ys[i], true, ms, false) == AstNodesEqual(xs[i], ys[i], true, ms)
    {
      RecursiveIgnoresLevel(xs[i], ys[i], ms);
    }
  }

  lemma RecursiveIgnoresLevel(a: Value, b: Value, ms: seq<Pair>)
    ensures Equal(a, b, true, ms, false) == Equal(a, b, true, ms, true)
  {
  }

  /**
   * No attribute is skipped: without a listed pair, one unequal attribute
   * makes two nodes unequal.
   */
  lemma NoAttributeIsSkipped(a: Value, b: Value, ms: seq<Pair>, i: int)
    requires a.Node? && !Paired(ms, a, b) && 0 <= i < |a.fields|
    requires !AstNodesEqual(a.fields[i].value, Get(b, a.fields[i].attr), true, ms)
    ensures !AstNodesEqual(a, b, true, ms)
  {
    RecursiveIgnoresLevel(a.fields[i].value, Get(b, a.fields[i].attr), ms);
  }

  /** A non-recursive comparison sees a listed pair or the shape of the two values, nothing deeper. */
  lemma NonRecursiveIsShallow(a: Value, b: Value, ms: seq<Pair>)
    ensures AstNodesEqual(a, b, false, ms) <==> Paired(ms, a, b) || SameShape(a, b)
  {
    if !Paired(ms, a, b) && TypeOf(a) == TypeOf(b) {
      match a
      case List(xs) =>
        assert forall i :: 0 <= i < |xs| && i < |b.items| ==> Equal(xs[i], b.items[i], false, ms, false);
      case Node(_, _, fs) =>
        assert forall i :: 0 <= i < |fs| ==> Equal(fs[i].value, Get(b, fs[i].attr), false, ms, false);
      case _ =>
    }
  }

  /** Paths of one length are equal when each pair of elements is listed or has the same shape. */
  lemma PathsCompareShapes(p1: Path, p2: Path, ms: seq<Pair>)
    ensures AstPathsEqual(p1, p2, ms) <==>
      |p1| == |p2| && forall i :: 0 <= i < |p1| ==> Paired(ms, p1[i], p2[i]) || SameShape(p1[i], p2[i])
  {
    forall i | 0 <= i < |p1| && i < |p2|
      ensures AstNodesEqual(p1[i], p2[i], false, ms) == (Paired(ms, p1[i], p2[i]) || SameShape(p1[i], p2[i]))
    {
      NonRecursiveIsShallow(p1[i], p2[i], ms);
    }
  }

  /** Every well-formed tree is equal to itself, whatever the hypotheses. */
  lemma {:induction false} EqualReflexive(v: Value, recursive: bool, ms: seq<Pair>, firstLevel: bool)
    requires WellFormed(v)
    ensures Equal(v, v, recursive, ms, firstLevel)
    decreases v
  {
    if (!recursive && !firstLevel) || Paired(ms, v, v) {
    } else {
      match v
      case List(xs) =>
        forall i | 0 <= i < |xs|
          ensures Equal(xs[i], xs[i], recursive, ms, false)
        {
          EqualReflexive(xs[i], recursive, ms, false);
        }
      case Node(_, _, fs) =>
        forall i | 0 <= i < |fs|
          ensures Equal(fs[i].value, Get(v, fs[i].attr), recursive, ms, false)
        {
          GetField(v, i);
          EqualReflexive(fs[i].value, recursive, ms, false);
        }
      case _ =>
        PyEqReflexive(v);
    }
  }

  /** Adding pairs never turns an equality into an inequality. */
  lemma {:induction false} MoreHypothesesKeepEquality(
    a: Value, b: Value, recursive: bool, ms: seq<Pair>, more: seq<Pair>, firstLevel: bool)
    requires forall m :: m in ms ==> m in more
    requires Equal(a, b, recursive, ms, firstLevel)
    ensures Equal(a, b, recursive, more, firstLevel)
    decreases a
  {
    if !recursive && !firstLevel {
    } else if Paired(more, a, b) {
    } else if Paired(ms, a, b) {
      PairedGrows(a, b, ms, more);
    } else {
      match a
      case List(xs) =>
        forall i | 0 <= i < |xs|
          ensures Equal(xs[i], b.items[i], recursive, more, false)
        {
          MoreHypothesesKeepEquality(xs[i], b.items[i], recursive, ms, more, false);
        }
      case Node(_, _, fs) =>
        forall i | 0 <= i < |fs|
          ensures Equal(fs[i].value, Get(b, fs[i].attr), recursive, more, false)
        {
          MoreHypothesesKeepEquality(fs[i].value, Get(b, fs[i].attr), recursive, ms, more, false);
        }
      case _ =>
    }
  }

  lemma PairedGrows(a: Value, b: Value, ms: seq<Pair>, more: seq<Pair>)
    requires forall m :: m in ms ==> m in more
    requires Paired(ms, a, b)
    ensures Paired(more, a, b)
  {
    var k :| 0 <= k < |ms| &&
      ((PyEq(a, ms[k].a) && PyEq(b, ms[k].b)) || (PyEq(a, ms[k].b) && PyEq(b, ms[k].a)));
    assert ms[k] in ms;
    var k' :| 0 <= k' < |more| && more[k'] == ms[k];
  }
}
