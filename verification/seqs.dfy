/** Searching a sequence for the first element that satisfies a predicate:
    the shape of Rust's `Iterator::find` over a slice. */
module Seqs {
  import opened Wrappers

  /** Index of the first element of `s` satisfying `p`, if any */
  function FirstIndex<T>(s: seq<T>, p: T -> bool): (r: Option<nat>)
    ensures r.Some? ==> r.value < |s| && p(s[r.value])
    ensures r.Some? ==> forall j | 0 <= j < r.value :: !p(s[j])
    ensures r.None? <==> forall j | 0 <= j < |s| :: !p(s[j])
  {
    FirstIndexFrom(s, p, 0)
  }

  function FirstIndexFrom<T>(s: seq<T>, p: T -> bool, i: nat): (r: Option<nat>)
    requires i <= |s|
    ensures r.Some? ==> i <= r.value < |s| && p(s[r.value])
    ensures r.Some? ==> forall j | i <= j < r.value :: !p(s[j])
    ensures r.None? <==> forall j | i <= j < |s| :: !p(s[j])
    decreases |s| - i
  {
    if i == |s| then None
    else if p(s[i]) then Some(i)
    else FirstIndexFrom(s, p, i + 1)
  }

  /** No element occurs twice */
  predicate Distinct<T(==)>(s: seq<T>) {
    forall i, j | 0 <= i < j < |s| :: s[i] != s[j]
  }

  /** A duplicate-free sequence has as many elements as the set of its elements */
  lemma {:induction false} DistinctCardinality<T>(s: seq<T>)
    requires Distinct(s)
    ensures |set x | x in s| == |s|
  {
    if |s| > 0 {
      var init := s[..|s| - 1];
      var last := s[|s| - 1];
      DistinctCardinality(init);
      assert (set x | x in s) == (set x | x in init) + {last};
      assert last !in init;
    }
  }

  /** Number of elements of `s` satisfying `p` */
  function CountWhere<T>(s: seq<T>, p: T -> bool): (n: nat)
    ensures n <= |s|
    decreases |s|
  {
    if |s| == 0 then 0
    else CountWhere(s[..|s| - 1], p) + (if p(s[|s| - 1]) then 1 else 0)
  }

  /** The set of elements of `s` satisfying `p` */
  function ElementsWhere<T>(s: seq<T>, p: T -> bool): set<T> {
    set x | x in s && p(x)
  }

  /** In a duplicate-free sequence, the count of elements satisfying `p` is
      the size of the set of those elements */
  lemma {:induction false} CountWhereCardinality<T>(s: seq<T>, p: T -> bool)
    requires Distinct(s)
    ensures CountWhere(s, p) == |ElementsWhere(s, p)|
  {
    if |s| > 0 {
      var init := s[..|s| - 1];
      var last := s[|s| - 1];
      CountWhereCardinality(init, p);
      assert last !in init;
      var s0 := ElementsWhere(init, p);
      var s1 := ElementsWhere(s, p);
      assert forall x :: x in s <==> x in init || x == last;
      if p(last) {
        assert s1 == s0 + {last};
      } else {
        assert s1 == s0;
      }
    }
  }
}
