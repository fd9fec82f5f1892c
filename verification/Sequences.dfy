/** Sequences: the lexicographic order, in which a prefix is below its extensions, and sets of elements. */
module Sequences {

  // ---------------------------------------------------------------- lexicographic order

  predicate LexLess(a: seq<int>, b: seq<int>) {
    if b == [] then false
    else if a == [] then true
    else if a[0] != b[0] then a[0] < b[0]
    else LexLess(a[1..], b[1..])
  }

  predicate LexLeq(a: seq<int>, b: seq<int>) { !LexLess(b, a) }

  lemma {:induction false} LexTotal(a: seq<int>, b: seq<int>)
    ensures LexLess(a, b) || LexLess(b, a) || a == b
    ensures !(LexLess(a, b) && LexLess(b, a))
    ensures a == b ==> !LexLess(a, b)
  {
    if a != [] && b != [] {
      LexTotal(a[1..], b[1..]);
      if a[0] == b[0] && a[1..] == b[1..] {
        assert a == [a[0]] + a[1..] == [b[0]] + b[1..] == b;
      }
    }
  }

  lemma {:induction false} LexTransitive(a: seq<int>, b: seq<int>, c: seq<int>)
    requires LexLess(a, b) && LexLess(b, c)
    ensures LexLess(a, c)
  {
    if a != [] && a[0] == b[0] && b[0] == c[0] {
      LexTransitive(a[1..], b[1..], c[1..]);
    }
  }

  lemma LexLeqLess(a: seq<int>, b: seq<int>, c: seq<int>)
    requires LexLeq(a, b) && LexLess(b, c)
    ensures LexLess(a, c)
  {
    LexTotal(a, b);
    if a != b { LexTransitive(a, b, c); }
  }

  lemma LexLessLeq(a: seq<int>, b: seq<int>, c: seq<int>)
    requires LexLess(a, b) && LexLeq(b, c)
    ensures LexLess(a, c)
  {
    LexTotal(b, c);
    if b != c { LexTransitive(a, b, c); }
  }

  lemma LexLeqLeq(a: seq<int>, b: seq<int>, c: seq<int>)
    requires LexLeq(a, b) && LexLeq(b, c)
    ensures LexLeq(a, c)
  {
    if LexLess(c, a) {
      LexLessLeq(c, a, b);
    }
  }

  /** Whatever is at most an extension of p is below p or extends it too. */
  lemma {:induction false} PrefixCut(p: seq<int>, a: seq<int>, b: seq<int>)
    requires LexLeq(a, b) && p <= b
    ensures LexLess(a, p) || p <= a
  {
    if p != [] && a != [] && a[0] == p[0] {
      assert b[0] == p[0] && b[1..][..|p| - 1] == p[1..];
      PrefixCut(p[1..], a[1..], b[1..]);
      if p[1..] <= a[1..] {
        assert a == [a[0]] + a[1..] && p == [p[0]] + p[1..];
      }
    }
  }

  // ---------------------------------------------------------------- elements

  ghost function Elements(s: seq<nat>): set<nat> { set x | x in s }

  lemma ElementsConcat(a: seq<nat>, b: seq<nat>)
    ensures Elements(a + b) == Elements(a) + Elements(b)
  {
  }

  lemma ElementsEmpty()
    ensures Elements([]) == {}
  {
  }
}
