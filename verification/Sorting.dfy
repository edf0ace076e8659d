/** Sorting by a given comparison, as the comparators handed to `sort` do. */
module Sorting {
  /** A total preorder, and one that tells the elements apart that it is used on. */
  ghost predicate Lawful<T(!new)>(leq: (T, T) -> bool, used: T -> bool) {
    && (forall a, b :: used(a) && used(b) ==> leq(a, b) || leq(b, a))
    && (forall a, b :: used(a) && used(b) && leq(a, b) && leq(b, a) ==> a == b)
    && (forall a, b, c :: used(a) && used(b) && used(c) && leq(a, b) && leq(b, c) ==> leq(a, c))
  }

  function Insert<T>(x: T, sorted: seq<T>, leq: (T, T) -> bool): seq<T> {
    if sorted == [] || leq(x, sorted[0]) then [x] + sorted else [sorted[0]] + Insert(x, sorted[1..], leq)
  }

  function Sort<T>(values: seq<T>, leq: (T, T) -> bool): seq<T> {
    if values == [] then [] else Insert(values[0], Sort(values[1..], leq), leq)
  }

  predicate AllUsed<T>(s: seq<T>, used: T -> bool) {
    forall i :: 0 <= i < |s| ==> used(s[i])
  }

  ghost predicate IsSorted<T>(s: seq<T>, leq: (T, T) -> bool) {
    forall i, j :: 0 <= i < j < |s| ==> leq(s[i], s[j])
  }

  lemma {:induction false} InsertAdds<T>(x: T, sorted: seq<T>, leq: (T, T) -> bool)
    ensures multiset(Insert(x, sorted, leq)) == multiset(sorted) + multiset{x}
  {
    if sorted != [] && !leq(x, sorted[0]) {
      InsertAdds(x, sorted[1..], leq);
      assert sorted == [sorted[0]] + sorted[1..];
    }
  }

  lemma {:induction false} SortPermutes<T>(values: seq<T>, leq: (T, T) -> bool)
    ensures multiset(Sort(values, leq)) == multiset(values)
  {
    if values != [] {
      SortPermutes(values[1..], leq);
      InsertAdds(values[0], Sort(values[1..], leq), leq);
      assert values == [values[0]] + values[1..];
    }
  }

  lemma PermutedAllUsed<T>(s: seq<T>, t: seq<T>, used: T -> bool)
    requires multiset(s) == multiset(t) && AllUsed(s, used)
    ensures AllUsed(t, used)
  {
    forall i | 0 <= i < |t| ensures used(t[i]) {
      assert t[i] in multiset(s);
    }
  }

  lemma {:induction false} InsertSorted<T(!new)>(x: T, sorted: seq<T>, leq: (T, T) -> bool, used: T -> bool)
    requires Lawful(leq, used) && IsSorted(sorted, leq) && used(x) && AllUsed(sorted, used)
    ensures IsSorted(Insert(x, sorted, leq), leq)
  {
    if sorted == [] {
    } else if leq(x, sorted[0]) {
      forall j | 0 <= j < |sorted| ensures leq(x, sorted[j]) {
        assert j > 0 ==> leq(sorted[0], sorted[j]);
      }
    } else {
      var rest := Insert(x, sorted[1..], leq);
      InsertSorted(x, sorted[1..], leq, used);
      InsertAdds(x, sorted[1..], leq);
      forall j | 0 <= j < |rest| ensures leq(sorted[0], rest[j]) {
        assert rest[j] in multiset(sorted[1..]) + multiset{x};
        assert rest[j] == x || rest[j] in sorted[1..];
      }
    }
  }

  lemma {:induction false} SortSorts<T(!new)>(values: seq<T>, leq: (T, T) -> bool, used: T -> bool)
    requires Lawful(leq, used) && AllUsed(values, used)
    ensures IsSorted(Sort(values, leq), leq)
  {
    if values != [] {
      SortSorts(values[1..], leq, used);
      SortPermutes(values[1..], leq);
      PermutedAllUsed(values[1..], Sort(values[1..], leq), used);
      InsertSorted(values[0], Sort(values[1..], leq), leq, used);
    }
  }

  lemma FirstIsLeast<T(!new)>(s: seq<T>, x: T, leq: (T, T) -> bool, used: T -> bool)
    requires Lawful(leq, used) && IsSorted(s, leq) && AllUsed(s, used) && x in multiset(s)
    ensures leq(s[0], x)
  {
    var i :| 0 <= i < |s| && s[i] == x;
    if i > 0 {
      assert leq(s[0], s[i]);
    } else {
      assert used(x);
    }
  }

  lemma WithoutFirst<T>(s: seq<T>)
    requires s != []
    ensures multiset(s[1..]) == multiset(s) - multiset{s[0]}
  {
    assert s == [s[0]] + s[1..];
  }

  lemma {:induction false} SortedIsUnique<T(!new)>(s: seq<T>, t: seq<T>, leq: (T, T) -> bool, used: T -> bool)
    requires Lawful(leq, used) && AllUsed(s, used) && AllUsed(t, used)
    requires IsSorted(s, leq) && IsSorted(t, leq) && multiset(s) == multiset(t)
    ensures s == t
  {
    assert |multiset(s)| == |s| && |multiset(t)| == |t|;
    if s != [] {
      assert s[0] in multiset(t) && t[0] in multiset(s);
      FirstIsLeast(s, t[0], leq, used);
      FirstIsLeast(t, s[0], leq, used);
      assert used(s[0]) && used(t[0]);
      WithoutFirst(s);
      WithoutFirst(t);
      SortedIsUnique(s[1..], t[1..], leq, used);
      assert s == [s[0]] + s[1..] && t == [t[0]] + t[1..];
    }
  }

  /** Two lists sort to the same one exactly when each is the other in some order. */
  lemma SortedEqualIff<T(!new)>(s: seq<T>, t: seq<T>, leq: (T, T) -> bool, used: T -> bool)
    requires Lawful(leq, used) && AllUsed(s, used) && AllUsed(t, used)
    ensures Sort(s, leq) == Sort(t, leq) <==> multiset(s) == multiset(t)
  {
    SortPermutes(s, leq);
    SortPermutes(t, leq);
    if multiset(s) == multiset(t) {
      SortSorts(s, leq, used);
      SortSorts(t, leq, used);
      PermutedAllUsed(s, Sort(s, leq), used);
      PermutedAllUsed(t, Sort(t, leq), used);
      SortedIsUnique(Sort(s, leq), Sort(t, leq), leq, used);
    }
  }
}
