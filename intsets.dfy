/** The static integer-set helpers of FiniteAutomaton and the alphabets of its algebra. */
module IntSets {
  import opened Codec

  /**
   * max(IntSet) (FiniteAutomaton.java:132-140): the largest element, or
   * Integer.MIN_VALUE for the empty set.
   */
  method MaxOf(hs: set<Int32>) returns (m: Int32)
    ensures hs == {} ==> m == INT_MIN
    ensures hs != {} ==> m in hs
    ensures forall n :: n in hs ==> n <= m
  {
    m := INT_MIN;
    var todo := hs;
    ghost var done: set<Int32> := {};
    while todo != {}
      invariant done + todo == hs && done !! todo
      invariant forall n :: n in done ==> n <= m
      invariant m == INT_MIN || m in done
      invariant done == {} ==> m == INT_MIN
      decreases todo
    {
      var n :| n in todo;
      if n > m {
        m := n;
      }
      todo, done := todo - {n}, done + {n};
    }
    if hs != {} && m == INT_MIN {
      var n :| n in hs;
      assert n == m;
    }
  }

  /**
   * min(IntSet) (FiniteAutomaton.java:142-150): the smallest element, or
   * Integer.MAX_VALUE for the empty set.
   */
  method MinOf(hs: set<Int32>) returns (m: Int32)
    ensures hs == {} ==> m == INT_MAX
    ensures hs != {} ==> m in hs
    ensures forall n :: n in hs ==> m <= n
  {
    m := INT_MAX;
    var todo := hs;
    ghost var done: set<Int32> := {};
    while todo != {}
      invariant done + todo == hs && done !! todo
      invariant forall n :: n in done ==> m <= n
      invariant m == INT_MAX || m in done
      invariant done == {} ==> m == INT_MAX
      decreases todo
    {
      var n :| n in todo;
      if n < m {
        m := n;
      }
      todo, done := todo - {n}, done + {n};
    }
    if hs != {} && m == INT_MAX {
      var n :| n in hs;
      assert n == m;
    }
  }

  /**
   * The alphabet of intersection (FiniteAutomaton.java:431-435): the symbols of the
   * first alphabet that the second one contains.
   */
  method IntersectAlphabets(a: set<Int32>, b: set<Int32>) returns (r: set<Int32>)
    ensures forall x :: x in r <==> x in a && x in b
  {
    r := {};
    var todo := a;
    while todo != {}
      invariant todo <= a
      invariant forall x :: x in r <==> x in a - todo && x in b
      decreases todo
    {
      var x :| x in todo;
      if x in b {
        r := r + {x};
      }
      todo := todo - {x};
    }
  }

  /**
   * The alphabet of union and concatenate (FiniteAutomaton.java:422-423, 450-451): a copy
   * of the first alphabet with every symbol of the second one added.
   */
  method UniteAlphabets(a: set<Int32>, b: set<Int32>) returns (r: set<Int32>)
    ensures forall x :: x in r <==> x in a || x in b
  {
    r := a;
    r := r + b;
  }
}
