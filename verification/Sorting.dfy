/** Rust's stable `sort_by`, and the byte order of strings. */
module Sorting {

  ghost predicate TotalPreorder<T(!new)>(le: (T, T) -> bool) {
    && (forall x, y :: le(x, y) || le(y, x))
    && (forall x, y, z :: le(x, y) && le(y, z) ==> le(x, z))
  }

  predicate Sorted<T>(le: (T, T) -> bool, s: seq<T>) {
    forall i, j :: 0 <= i < j < |s| ==> le(s[i], s[j])
  }

  /** Place `x` before the first element it does not exceed. */
  function Insert<T>(le: (T, T) -> bool, x: T, s: seq<T>): seq<T> {
    if s == [] || le(x, s[0]) then [x] + s else [s[0]] + Insert(le, x, s[1..])
  }

  /** The stable sort. */
  function SortBy<T>(le: (T, T) -> bool, s: seq<T>): seq<T> {
    if s == [] then [] else Insert(le, s[0], SortBy(le, s[1..]))
  }

  lemma {:induction false} InsertKeeps<T(!new)>(le: (T, T) -> bool, x: T, s: seq<T>)
    requires TotalPreorder(le) && Sorted(le, s)
    ensures Sorted(le, Insert(le, x, s)) && multiset(Insert(le, x, s)) == multiset(s) + multiset{x}
  {
    if s == [] || le(x, s[0]) {
      assert forall j :: 0 < j < |s| ==> le(x, s[j]);
    } else {
      InsertKeeps(le, x, s[1..]);
      var t := Insert(le, x, s[1..]);
      assert s == [s[0]] + s[1..];
      assert multiset(s) == multiset{s[0]} + multiset(s[1..]);
      forall y | y in t
        ensures le(s[0], y)
      {
        assert y in multiset(t);
        assert y == x || y in s[1..];
      }
    }
  }

  /** Sorting orders the elements and loses none. */
  lemma {:induction false} SortByIsSort<T(!new)>(le: (T, T) -> bool, s: seq<T>)
    requires TotalPreorder(le)
    ensures Sorted(le, SortBy(le, s)) && multiset(SortBy(le, s)) == multiset(s)
    ensures |SortBy(le, s)| == |s|
  {
    if s != [] {
      SortByIsSort(le, s[1..]);
      InsertKeeps(le, s[0], SortBy(le, s[1..]));
      assert s == [s[0]] + s[1..];
    }
    assert |multiset(SortBy(le, s))| == |multiset(s)|;
  }

  /** Sorting a sorted sequence changes nothing. */
  lemma {:induction false} SortedIsFixed<T>(le: (T, T) -> bool, s: seq<T>)
    requires Sorted(le, s)
    ensures SortBy(le, s) == s
  {
    if s != [] {
      SortedIsFixed(le, s[1..]);
      if |s| > 1 {
        assert le(s[0], s[1]) && s[1..][0] == s[1];
      }
    }
  }

  /** Elements that satisfy `keep`, in order. */
  function Filter<T(!new)>(keep: T -> bool, s: seq<T>): (r: seq<T>)
    ensures |r| <= |s|
    ensures forall x :: x in r <==> x in s && keep(x)
  {
    if s == [] then []
    else
      var rest := Filter(keep, s[1..]);
      if keep(s[0]) then [s[0]] + rest else rest
  }

  lemma {:induction false} ConsMultiset<T>(x: T, s: seq<T>)
    ensures multiset([x] + s) == multiset{x} + multiset(s)
  {
  }

  /** Splitting by a test and putting the two halves together again keeps every element. */
  lemma {:induction false} FilterSplits<T(!new)>(keep: T -> bool, drop: T -> bool, s: seq<T>)
    requires forall x :: x in s ==> keep(x) != drop(x)
    ensures multiset(Filter(keep, s)) + multiset(Filter(drop, s)) == multiset(s)
  {
    if s != [] {
      var x, rest := s[0], s[1..];
      FilterSplits(keep, drop, rest);
      assert s == [x] + rest;
      ConsMultiset(x, rest);
      if keep(x) {
        ConsMultiset(x, Filter(keep, rest));
      } else {
        ConsMultiset(x, Filter(drop, rest));
      }
    }
  }

  lemma {:induction false} FilterSorted<T(!new)>(le: (T, T) -> bool, keep: T -> bool, s: seq<T>)
    requires Sorted(le, s)
    ensures Sorted(le, Filter(keep, s))
  {
    if s != [] {
      FilterSorted(le, keep, s[1..]);
      var rest := Filter(keep, s[1..]);
      assert forall j :: 0 <= j < |s[1..]| ==> s[1..][j] == s[j + 1] && le(s[0], s[j + 1]);
      assert forall j :: 0 <= j < |rest| ==> rest[j] in s[1..];
      assert forall j :: 0 <= j < |rest| ==> le(s[0], rest[j]);
    }
  }

  /* ---- Orders ---- */

  /** Lexicographic order of sequences of numbers, shorter first. */
  predicate SeqLe(a: seq<int>, b: seq<int>)
    decreases |a|
  {
    a == [] || (b != [] && (a[0] < b[0] || (a[0] == b[0] && SeqLe(a[1..], b[1..]))))
  }

  lemma {:induction false} SeqLeTotal(a: seq<int>, b: seq<int>)
    ensures SeqLe(a, b) || SeqLe(b, a)
    ensures SeqLe(a, b) && SeqLe(b, a) ==> a == b
    decreases |a|
  {
    if a != [] && b != [] && a[0] == b[0] {
      SeqLeTotal(a[1..], b[1..]);
      assert a == [a[0]] + a[1..] && b == [b[0]] + b[1..];
    }
  }

  lemma {:induction false} SeqLeTransitive(a: seq<int>, b: seq<int>, c: seq<int>)
    requires SeqLe(a, b) && SeqLe(b, c)
    ensures SeqLe(a, c)
    decreases |a|
  {
    if a != [] && a[0] == b[0] == c[0] {
      SeqLeTransitive(a[1..], b[1..], c[1..]);
    }
  }

  /** Scalars of a string; comparing them compares its UTF-8 bytes. */
  function Codes(s: string): (r: seq<int>)
    ensures |r| == |s|
    ensures forall i :: 0 <= i < |s| ==> r[i] == s[i] as int
  {
    seq(|s|, i requires 0 <= i < |s| => s[i] as int)
  }

  lemma CodesInjective(a: string, b: string)
    requires Codes(a) == Codes(b)
    ensures a == b
  {
    assert |a| == |b|;
    assert forall i :: 0 <= i < |a| ==> a[i] as int == Codes(a)[i] == Codes(b)[i] == b[i] as int;
  }

  /** Order by a number, then by a key sequence. */
  predicate KeyLe(n: int, s: seq<int>, m: int, t: seq<int>) {
    n < m || (n == m && SeqLe(s, t))
  }
}
