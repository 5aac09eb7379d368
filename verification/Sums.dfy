/** Sums of natural numbers over finite sets: SQL's SUM over the rows of a group. */
module Sums {

  ghost function Sum<T>(s: set<T>, f: T -> nat): (total: nat) {
    if s == {} then 0 else var x :| x in s; f(x) + Sum(s - {x}, f)
  }

  /** The sum does not depend on the order in which the elements are taken. */
  lemma {:induction false} SumPick<T>(s: set<T>, f: T -> nat, x: T)
    requires x in s
    ensures Sum(s, f) == f(x) + Sum(s - {x}, f)
    decreases s
  {
    var y :| y in s && Sum(s, f) == f(y) + Sum(s - {y}, f);
    if y != x {
      SumPick(s - {y}, f, x);
      SumPick(s - {x}, f, y);
      assert s - {y} - {x} == s - {x} - {y};
    }
  }

  lemma {:induction false} SumCongruent<T>(s: set<T>, f: T -> nat, g: T -> nat)
    requires forall x :: x in s ==> f(x) == g(x)
    ensures Sum(s, f) == Sum(s, g)
    decreases s
  {
    if s != {} {
      var x :| x in s;
      SumPick(s, f, x);
      SumPick(s, g, x);
      SumCongruent(s - {x}, f, g);
    }
  }

  lemma {:induction false} SumZero<T>(s: set<T>, f: T -> nat)
    requires forall x :: x in s ==> f(x) == 0
    ensures Sum(s, f) == 0
    decreases s
  {
    if s != {} {
      var x :| x in s;
      SumPick(s, f, x);
      SumZero(s - {x}, f);
    }
  }

  lemma {:induction false} SumUnion<T>(s: set<T>, t: set<T>, f: T -> nat)
    requires s !! t
    ensures Sum(s + t, f) == Sum(s, f) + Sum(t, f)
    decreases s
  {
    if s == {} {
      assert s + t == t;
    } else {
      var x :| x in s;
      SumPick(s, f, x);
      SumPick(s + t, f, x);
      assert s + t - {x} == (s - {x}) + t;
      SumUnion(s - {x}, t, f);
    }
  }

  /** Sums of pointwise sums. */
  lemma {:induction false} SumAdd<T>(s: set<T>, f: T -> nat, g: T -> nat, h: T -> nat)
    requires forall x :: x in s ==> h(x) == f(x) + g(x)
    ensures Sum(s, h) == Sum(s, f) + Sum(s, g)
    decreases s
  {
    if s != {} {
      var x :| x in s;
      SumPick(s, f, x);
      SumPick(s, g, x);
      SumPick(s, h, x);
      SumAdd(s - {x}, f, g, h);
    }
  }

  /** A function that vanishes outside one element sums to its value there. */
  lemma SumSingle<T>(s: set<T>, f: T -> nat, x: T)
    requires forall y :: y in s && y != x ==> f(y) == 0
    ensures Sum(s, f) == if x in s then f(x) else 0
  {
    if x in s {
      SumPick(s, f, x);
      SumZero(s - {x}, f);
    } else {
      SumZero(s, f);
    }
  }

  lemma NoMembers<T>(s: set<T>)
    requires forall x :: x !in s
    ensures s == {}
  {
  }
}
