/** Sizes of finite sets. */
module FiniteSets {

  lemma WithOrWithout(a: set<nat>, x: nat)
    ensures |a| == |a - {x}| + if x in a then 1 else 0
  {
    if x in a { assert a == (a - {x}) + {x}; } else { assert a == a - {x}; }
  }

  lemma SplitSize(a: set<nat>, b: set<nat>)
    requires b <= a
    ensures |a - b| == |a| - |b|
  {
    assert a == (a - b) + b;
  }

  lemma {:induction false} SubsetSize(a: set<nat>, b: set<nat>)
    requires a <= b
    ensures |a| <= |b|
    decreases a
  {
    if a != {} {
      var x :| x in a;
      SubsetSize(a - {x}, b - {x});
    }
  }
}
