/**
 * The structural equality engine of the newer rename detector: two values
 * are equal when they have the same Python type and, recursively, the same
 * contents, except for attributes that a hypothesis says may differ.
 */
module AstEquality {
  import opened JavaAst

  /**
   * A hypothesis `(a, b, attr)`: nodes `a` and `b` are taken to be the same,
   * except that their attribute `attr` need not be equal.
   */
  datatype Match = Match(a: Value, b: Value, attr: string)

  /** `n in (a, b)` */
  predicate Mentions(m: Match, n: Value)
  {
    PyEq(m.a, n) || PyEq(m.b, n)
  }

  /** `attr in ignored_attrs`: some hypothesis naming `attr` mentions one of the two nodes. */
  predicate Ignored(ms: seq<Match>, n1: Value, n2: Value, attr: string)
  {
    exists i :: 0 <= i < |ms| && ms[i].attr == attr && (Mentions(ms[i], n1) || Mentions(ms[i], n2))
  }

  /**
   * `_ast_nodes_equal`. Below the first level of a non-recursive comparison
   * everything counts as equal; list membership is not a level of its own
   * only in the sense that list elements are visited with `firstLevel` false.
   */
  function Equal(v1: Value, v2: Value, recursive: bool, ms: seq<Match>, firstLevel: bool): bool
    decreases v1
  {
    if !recursive && !firstLevel then true
    else if TypeOf(v1) != TypeOf(v2) then false
    else match v1
      case List(xs) =>
        |xs| == |v2.items| &&
        forall i :: 0 <= i < |xs| ==> Equal(xs[i], v2.items[i], recursive, ms, false)
      case Node(_, _, fs) =>
        forall i :: 0 <= i < |fs| ==>
          Ignored(ms, v1, v2, fs[i].attr) ||
          Equal(fs[i].value, Get(v2, fs[i].attr), recursive, ms, false)
      case _ => PyEq(v1, v2)
  }

  /** `ast_nodes_equal` */
  function AstNodesEqual(v1: Value, v2: Value, recursive: bool, ms: seq<Match>): bool
  {
    Equal(v1, v2, recursive, ms, true)
  }

  /** `ast_paths_equal` */
  function AstPathsEqual(p1: Path, p2: Path, ms: seq<Match>): bool
  {
    |p1| == |p2| && forall i :: 0 <= i < |p1| ==> AstNodesEqual(p1[i], p2[i], false, ms)
  }

  /** Values of different types are never equal. */
  lemma DifferentTypesNeverEqual(a: Value, b: Value, recursive: bool, ms: seq<Match>)
    requires TypeOf(a) != TypeOf(b)
    ensures !AstNodesEqual(a, b, recursive, ms)
  {
  }

  /** Scalars are equal exactly when they have the same type and are `==`. */
  lemma ScalarEquality(a: Value, b: Value, recursive: bool, ms: seq<Match>)
    requires IsScalar(a)
    ensures AstNodesEqual(a, b, recursive, ms) <==> TypeOf(a) == TypeOf(b) && PyEq(a, b)
  {
  }

  /** Lists are equal exactly when they have the same length and are equal pairwise. */
  lemma ListEquality(xs: seq<Value>, ys: seq<Value>, ms: seq<Match>)
    ensures AstNodesEqual(List(xs), List(ys), true, ms) <==>
      |xs| == |ys| && forall i :: 0 <= i < |xs| ==> AstNodesEqual(xs[i], ys[i], true, ms)
  {
    forall i | 0 <= i < |xs| && i < |ys|
      ensures Equal(xs[i], ys[i], true, ms, false) == AstNodesEqual(xs[i], ys[i], true, ms)
    {
      RecursiveIgnoresLevel(xs[i], ys[i], ms);
    }
  }

  /** In a recursive comparison the level does not matter. */
  lemma RecursiveIgnoresLevel(a: Value, b: Value, ms: seq<Match>)
    ensures Equal(a, b, true, ms, false) == Equal(a, b, true, ms, true)
  {
  }

  /**
   * A non-recursive comparison sees only the shape of the two values: nothing
   * below their first level, and no hypothesis, affects it.
   */
  lemma NonRecursiveIsShallow(a: Value, b: Value, ms: seq<Match>)
    ensures AstNodesEqual(a, b, false, ms) <==> SameShape(a, b)
  {
    if TypeOf(a) == TypeOf(b) {
      match a
      case List(xs) =>
        assert forall i :: 0 <= i < |xs| && i < |b.items| ==> Equal(xs[i], b.items[i], false, ms, false);
      case Node(_, _, fs) =>
        assert forall i :: 0 <= i < |fs| ==> Equal(fs[i].value, Get(b, fs[i].attr), false, ms, false);
      case _ =>
    }
  }

  /**
   * Paths of different lengths are never equal; otherwise they are equal when
   * each pair of elements has the same shape, so two nodes on a path compare
   * by their class alone and hypotheses are never consulted.
   */
  lemma PathsCompareShapes(p1: Path, p2: Path, ms: seq<Match>)
    ensures AstPathsEqual(p1, p2, ms) <==>
      |p1| == |p2| && forall i :: 0 <= i < |p1| ==> SameShape(p1[i], p2[i])
    ensures AstPathsEqual(p1, p2, ms) == AstPathsEqual(p1, p2, [])
  {
    forall i | 0 <= i < |p1| && i < |p2|
      ensures AstNodesEqual(p1[i], p2[i], false, ms) == SameShape(p1[i], p2[i])
      ensures AstNodesEqual(p1[i], p2[i], false, []) == SameShape(p1[i], p2[i])
    {
      NonRecursiveIsShallow(p1[i], p2[i], ms);
      NonRecursiveIsShallow(p1[i], p2[i], []);
    }
  }

  /** Every well-formed tree is equal to itself, whatever the hypotheses. */
  lemma {:induction false} EqualReflexive(v: Value, recursive: bool, ms: seq<Match>, firstLevel: bool)
    requires WellFormed(v)
    ensures Equal(v, v, recursive, ms, firstLevel)
    decreases v
  {
    if !recursive && !firstLevel {
    } else {
      match v
      case List(xs) =>
        forall i | 0 <= i < |xs|
          ensures Equal(xs[i], xs[i], recursive, ms, false)
        {
          EqualReflexive(xs[i], recursive, ms, false);
        }
      case Node(_, _, fs) =>
        forall i | 0 <= i < |fs|
          ensures Equal(fs[i].value, Get(v, fs[i].attr), recursive, ms, false)
        {
          GetField(v, i);
          EqualReflexive(fs[i].value, recursive, ms, false);
        }
      case _ =>
        PyEqReflexive(v);
    }
  }

  /** Adding hypotheses never turns an equality into an inequality. */
  lemma {:induction false} MoreHypothesesKeepEquality(
    a: Value, b: Value, recursive: bool, ms: seq<Match>, more: seq<Match>, firstLevel: bool)
    requires forall m :: m in ms ==> m in more
    requires Equal(a, b, recursive, ms, firstLevel)
    ensures Equal(a, b, recursive, more, firstLevel)
    decreases a
  {
    if !recursive && !firstLevel {
    } else {
      match a
      case List(xs) =>
        forall i | 0 <= i < |xs|
          ensures Equal(xs[i], b.items[i], recursive, more, false)
        {
          MoreHypothesesKeepEquality(xs[i], b.items[i], recursive, ms, more, false);
        }
      case Node(_, _, fs) =>
        forall i | 0 <= i < |fs|
          ensures Ignored(more, a, b, fs[i].attr) || Equal(fs[i].value, Get(b, fs[i].attr), recursive, more, false)
        {
          if Ignored(ms, a, b, fs[i].attr) {
            var k :| 0 <= k < |ms| && ms[k].attr == fs[i].attr && (Mentions(ms[k], a) || Mentions(ms[k], b));
            assert ms[k] in ms;
            var k' :| 0 <= k' < |more| && more[k'] == ms[k];
          } else {
            MoreHypothesesKeepEquality(fs[i].value, Get(b, fs[i].attr), recursive, ms, more, false);
          }
        }
      case _ =>
    }
  }

  /**
   * Two nodes of one class that differ only in attribute `attr` are equal once
   * a hypothesis naming `attr` mentions either of them: this is how two
   * declarators that differ only in their name are accepted.
   */
  lemma IgnoredAttributeIsSkipped(a: Value, b: Value, attr: string, ms: seq<Match>, k: int)
    requires a.Node? && b.Node? && a.kind == b.kind && WellFormed(a) && WellFormed(b)
    requires |a.fields| == |b.fields|
    requires forall i :: 0 <= i < |a.fields| ==>
      a.fields[i].attr == b.fields[i].attr && (a.fields[i].attr != attr ==> a.fields[i].value == b.fields[i].value)
    requires 0 <= k < |ms| && ms[k].attr == attr && (Mentions(ms[k], a) || Mentions(ms[k], b))
    ensures AstNodesEqual(a, b, true, ms)
  {
    forall i | 0 <= i < |a.fields|
      ensures Ignored(ms, a, b, a.fields[i].attr) || Equal(a.fields[i].value, Get(b, a.fields[i].attr), true, ms, false)
    {
      if a.fields[i].attr != attr {
        GetField(b, i);
        EqualReflexive(a.fields[i].value, true, ms, false);
      }
    }
  }
}
