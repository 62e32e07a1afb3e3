/** Finite sums over sets, used to state how much intensity a step adds to
    a key and how much intensity a whole field holds.  A Python dict is
    iterated in insertion order, but real addition is commutative and
    associative, so a sum over the set of keys (in any order) is exact. */
module Sums {

  /** The sum of `g` over the finite set `S`.  The element taken first is
      arbitrary; SumOverRemove shows that any element may be split off. */
  ghost function SumOver<K>(S: set<K>, g: K -> real): real
    decreases S
  {
    if S == {} then 0.0 else var x :| x in S; g(x) + SumOver(S - {x}, g)
  }

  lemma {:induction false} SumOverRemove<K>(S: set<K>, g: K -> real, y: K)
    requires y in S
    ensures SumOver(S, g) == g(y) + SumOver(S - {y}, g)
    decreases S
  {
    var x :| x in S && SumOver(S, g) == g(x) + SumOver(S - {x}, g);
    if x != y {
      SumOverRemove(S - {x}, g, y);
      SumOverRemove(S - {y}, g, x);
      assert S - {x} - {y} == S - {y} - {x};
    }
  }

  lemma SumOverAdd<K>(S: set<K>, g: K -> real, y: K)
    requires y !in S
    ensures SumOver(S + {y}, g) == SumOver(S, g) + g(y)
  {
    SumOverRemove(S + {y}, g, y);
    assert S + {y} - {y} == S;
  }

  lemma SumOverSingleton<K>(x: K, g: K -> real)
    ensures SumOver({x}, g) == g(x)
  {
  }

  /** Two functions that agree on `S` have the same sum over `S`. */
  lemma {:induction false} SumOverCongruent<K>(S: set<K>, g1: K -> real, g2: K -> real)
    requires forall x :: x in S ==> g1(x) == g2(x)
    ensures SumOver(S, g1) == SumOver(S, g2)
    decreases S
  {
    if S != {} {
      var x :| x in S;
      SumOverRemove(S, g1, x);
      SumOverRemove(S, g2, x);
      SumOverCongruent(S - {x}, g1, g2);
    }
  }

  /** Elements on which `g` vanishes may be dropped from the sum. */
  lemma {:induction false} SumOverZeroOutside<K>(S: set<K>, T: set<K>, g: K -> real)
    requires T <= S
    requires forall x :: x in S && x !in T ==> g(x) == 0.0
    ensures SumOver(S, g) == SumOver(T, g)
    decreases S
  {
    if S != T {
      var x :| x in S && x !in T;
      SumOverRemove(S, g, x);
      SumOverZeroOutside(S - {x}, T, g);
    }
  }

  lemma {:induction false} SumOverNonNegative<K>(S: set<K>, g: K -> real)
    requires forall x :: x in S ==> g(x) >= 0.0
    ensures SumOver(S, g) >= 0.0
    decreases S
  {
    if S != {} {
      var x :| x in S;
      SumOverRemove(S, g, x);
      SumOverNonNegative(S - {x}, g);
    }
  }

  /** A constant factor can be taken out of a sum. */
  lemma {:induction false} SumOverScale<K>(S: set<K>, g: K -> real, c: real, h: K -> real)
    requires forall x :: x in S ==> h(x) == c * g(x)
    ensures SumOver(S, h) == c * SumOver(S, g)
    decreases S
  {
    if S == {} {
      assert c * 0.0 == 0.0;
    } else {
      var x :| x in S;
      var rest := S - {x};
      SumOverRemove(S, g, x);
      SumOverRemove(S, h, x);
      SumOverScale(rest, g, c, h);
      calc {
        SumOver(S, h);
        h(x) + SumOver(rest, h);
        c * g(x) + c * SumOver(rest, g);
        { Distribute(c, g(x), SumOver(rest, g)); }
        c * (g(x) + SumOver(rest, g));
        c * SumOver(S, g);
      }
    }
  }

  lemma Distribute(c: real, a: real, b: real)
    ensures c * (a + b) == c * a + c * b
  {
  }

  /** The value stored under a key, 0.0 for a missing key. */
  ghost function ValueOf<K>(m: map<K, real>): K -> real
  {
    k => if k in m then m[k] else 0.0
  }

  /** Total intensity held by a map: the sum of its values. */
  ghost function Mass<K>(m: map<K, real>): real
  {
    SumOver(m.Keys, ValueOf(m))
  }

  /** Overwriting one entry changes the mass by exactly the difference. */
  lemma MassUpdate<K>(m: map<K, real>, k: K, v: real)
    ensures Mass(m[k := v]) == Mass(m) - ValueOf(m)(k) + v
  {
    var m' := m[k := v];
    SumOverRemove(m'.Keys, ValueOf(m'), k);
    assert m'.Keys - {k} == m.Keys - {k};
    SumOverCongruent(m.Keys - {k}, ValueOf(m'), ValueOf(m));
    if k in m {
      SumOverRemove(m.Keys, ValueOf(m), k);
    } else {
      assert m.Keys - {k} == m.Keys;
    }
  }
}
