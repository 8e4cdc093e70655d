/** Order-preserving filtering of sequences (`Array.prototype.filter`). */
module Seqs {

  /** The elements of `s` that satisfy `keep`, in their original order. */
  function Filter<T(!new)>(s: seq<T>, keep: T -> bool): (r: seq<T>)
    ensures |r| <= |s|
    ensures forall x :: x in r <==> x in s && keep(x)
    ensures multiset(r) <= multiset(s)
  {
    if |s| == 0 then []
    else
      var rest := Filter(s[1..], keep);
      assert s == [s[0]] + s[1..];
      if keep(s[0]) then [s[0]] + rest else rest
  }

  /** Filtering distributes over concatenation, which together with the
      singleton cases pins down the order of what is kept. */
  lemma {:induction false} FilterConcat<T(!new)>(a: seq<T>, b: seq<T>, keep: T -> bool)
    ensures Filter(a + b, keep) == Filter(a, keep) + Filter(b, keep)
  {
    if |a| == 0 {
      assert a + b == b;
    } else {
      assert (a + b)[1..] == a[1..] + b;
      FilterConcat(a[1..], b, keep);
    }
  }

  /** Filtering keeps every copy of each kept element and drops every copy of the others. */
  lemma {:induction false} FilterMultiset<T(!new)>(s: seq<T>, keep: T -> bool, x: T)
    ensures multiset(Filter(s, keep))[x] == if keep(x) then multiset(s)[x] else 0
  {
    if |s| > 0 {
      assert s == [s[0]] + s[1..];
      FilterMultiset(s[1..], keep, x);
    }
  }
}
