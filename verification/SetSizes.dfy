/** Sizes of finite sets. */
module SetSizes {
  lemma {:induction false} SubsetSize(a: set<nat>, b: set<nat>)
    requires a <= b
    ensures |a| <= |b|
    decreases |a|
  {
    if a != {} {
      var x :| x in a;
      SubsetSize(a - {x}, b - {x});
    }
  }

  lemma {:induction false} UnionSize(a: set<nat>, b: set<nat>)
    ensures |a + b| <= |a| + |b|
  {
    assert |a + b| == |a| + |b| - |a * b|;
  }

  lemma {:induction false} RemoveSize(a: set<nat>, x: nat)
    ensures |a - {x}| == (if x in a then |a| - 1 else |a|) && (a == {} <==> |a| == 0)
  {
    if x in a { assert a == a - {x} + {x}; } else { assert a - {x} == a; }
  }

  lemma {:induction false} MoreThan(a: set<nat>, b: set<nat>, x: nat)
    requires a <= b && x in b && x !in a
    ensures |b| > |a|
  {
    SubsetSize(a + {x}, b);
  }

  ghost function Interval(lo: nat, hi: nat): (m: set<nat>)
    requires lo <= hi
    ensures (forall x: nat :: x in m <==> lo <= x < hi) && |m| == hi - lo
    decreases hi
  {
    if lo == hi then {} else Interval(lo, hi - 1) + {hi - 1}
  }

  ghost predicate Distinct(xs: seq<nat>) { forall j, k :: 0 <= j < k < |xs| ==> xs[j] != xs[k] }

  ghost function Members(xs: seq<nat>): (m: set<nat>)
    requires Distinct(xs)
    ensures (forall x :: x in m <==> x in xs) && |m| == |xs|
  {
    if xs == [] then {}
    else
      assert forall x :: x in xs <==> x == xs[0] || x in xs[1..];
      assert xs[0] !in xs[1..];
      {xs[0]} + Members(xs[1..])
  }
}
