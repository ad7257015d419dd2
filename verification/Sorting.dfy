/**
  Sorting by a total preorder, with the two facts every bounded index below relies on: sorting is a
  permutation, and for an order that separates the elements the sorted form is unique.
 */
module Sorting {

  ghost predicate IsPreorder<T(!new)>(le: (T, T) -> bool) {
    && (forall x, y :: le(x, y) || le(y, x))
    && (forall x, y, z :: le(x, y) && le(y, z) ==> le(x, z))
  }

  ghost predicate Sorted<T>(s: seq<T>, le: (T, T) -> bool) {
    forall i, j :: 0 <= i < j < |s| ==> le(s[i], s[j])
  }

  /** No two different positions hold elements that the order cannot tell apart. */
  ghost predicate Separated<T>(s: seq<T>, le: (T, T) -> bool) {
    forall i, j :: 0 <= i < j < |s| ==> !(le(s[i], s[j]) && le(s[j], s[i]))
  }

  /** Stable insertion: behind everything that is not greater. */
  function Insert<T>(x: T, s: seq<T>, le: (T, T) -> bool): seq<T> {
    if s == [] then [x]
    else if le(s[|s| - 1], x) then s + [x]
    else Insert(x, s[..|s| - 1], le) + [s[|s| - 1]]
  }

  function Sort<T>(s: seq<T>, le: (T, T) -> bool): seq<T> {
    if s == [] then [] else Insert(s[|s| - 1], Sort(s[..|s| - 1], le), le)
  }

  lemma {:induction false} InsertPermutes<T>(x: T, s: seq<T>, le: (T, T) -> bool)
    ensures multiset(Insert(x, s, le)) == multiset(s) + multiset{x}
    ensures |Insert(x, s, le)| == |s| + 1
  {
    if s != [] {
      assert s == s[..|s| - 1] + [s[|s| - 1]];
      InsertPermutes(x, s[..|s| - 1], le);
    }
  }

  lemma {:induction false} InsertSorts<T(!new)>(x: T, s: seq<T>, le: (T, T) -> bool)
    requires IsPreorder(le) && Sorted(s, le)
    ensures Sorted(Insert(x, s, le), le)
  {
    if s != [] && !le(s[|s| - 1], x) {
      var front, last := s[..|s| - 1], s[|s| - 1];
      var r := Insert(x, front, le);
      InsertSorts(x, front, le);
      InsertPermutes(x, front, le);
      forall i | 0 <= i < |r|
        ensures le(r[i], last)
      {
        assert r[i] in multiset(r);
        assert r[i] == x || r[i] in front;
      }
    } else if s != [] {
      forall i | 0 <= i < |s|
        ensures le(s[i], x)
      {
      }
    }
  }

  lemma {:induction false} SortPermutes<T>(s: seq<T>, le: (T, T) -> bool)
    ensures multiset(Sort(s, le)) == multiset(s)
    ensures |Sort(s, le)| == |s|
  {
    if s != [] {
      assert s == s[..|s| - 1] + [s[|s| - 1]];
      SortPermutes(s[..|s| - 1], le);
      InsertPermutes(s[|s| - 1], Sort(s[..|s| - 1], le), le);
    }
  }

  lemma {:induction false} SortSorts<T(!new)>(s: seq<T>, le: (T, T) -> bool)
    requires IsPreorder(le)
    ensures Sorted(Sort(s, le), le)
  {
    if s != [] {
      SortSorts(s[..|s| - 1], le);
      InsertSorts(s[|s| - 1], Sort(s[..|s| - 1], le), le);
    }
  }

  lemma MembersOfPermutation<T>(s: seq<T>, r: seq<T>)
    requires multiset(s) == multiset(r)
    ensures forall x :: x in s <==> x in r
  {
    forall x
      ensures x in s <==> x in r
    {
      assert x in s <==> x in multiset(s);
      assert x in r <==> x in multiset(r);
    }
  }

  /** Multiset of a sequence whose elements the order separates: multiplicity at most one. */
  lemma {:induction false} SeparatedIsPermutationInvariant<T(!new)>(s: seq<T>, r: seq<T>, le: (T, T) -> bool)
    requires multiset(s) == multiset(r) && Separated(s, le)
    ensures Separated(r, le)
  {
    forall i, j | 0 <= i < j < |r|
      ensures !(le(r[i], r[j]) && le(r[j], r[i]))
    {
      var x, y := r[i], r[j];
      if x == y {
        assert r == r[..i] + [x] + r[i + 1..j] + [x] + r[j + 1..];
        assert multiset(r)[x] >= 2;
        TwoOccurrences(s, x);
      } else {
        MembersOfPermutation(s, r);
        assert x in r && y in r;
        assert x in s && y in s;
        var k :| 0 <= k < |s| && s[k] == x;
        var l :| 0 <= l < |s| && s[l] == y;
        assert k < l || l < k;
      }
    }
  }

  lemma {:induction false} TwoOccurrences<T>(s: seq<T>, x: T)
    requires multiset(s)[x] >= 2
    ensures exists i, j :: 0 <= i < j < |s| && s[i] == x && s[j] == x
  {
    assert s == [s[0]] + s[1..];
    if s[0] == x {
      assert multiset(s[1..])[x] >= 1;
      assert x in s[1..];
      var j :| 0 <= j < |s[1..]| && s[1..][j] == x;
      assert s[0] == x && s[j + 1] == x;
    } else {
      TwoOccurrences(s[1..], x);
      var i, j :| 0 <= i < j < |s[1..]| && s[1..][i] == x && s[1..][j] == x;
      assert s[i + 1] == x && s[j + 1] == x;
    }
  }

  lemma SameLast<T(!new)>(a: seq<T>, b: seq<T>, le: (T, T) -> bool)
    requires a != [] && |a| == |b|
    requires Sorted(a, le) && Sorted(b, le) && multiset(a) == multiset(b)
    requires Separated(a, le)
    ensures a[|a| - 1] == b[|b| - 1]
  {
    var x, y := a[|a| - 1], b[|b| - 1];
    MembersOfPermutation(a, b);
    assert x in a && y in b;
    var i :| 0 <= i < |a| && a[i] == y;
    var j :| 0 <= j < |b| && b[j] == x;
    if i < |a| - 1 && j < |b| - 1 {
      assert false;
    }
  }

  lemma DropLast<T>(a: seq<T>)
    requires a != []
    ensures multiset(a[..|a| - 1]) == multiset(a) - multiset{a[|a| - 1]}
  {
    assert a == a[..|a| - 1] + [a[|a| - 1]];
  }

  /** Two sorted permutations of one separated collection are the same sequence. */
  lemma {:induction false} SortedIsUnique<T(!new)>(a: seq<T>, b: seq<T>, le: (T, T) -> bool)
    requires Sorted(a, le) && Sorted(b, le) && multiset(a) == multiset(b)
    requires Separated(a, le)
    ensures a == b
  {
    assert |multiset(a)| == |a| && |multiset(b)| == |b|;
    if a != [] {
      SameLast(a, b, le);
      DropLast(a);
      DropLast(b);
      SortedIsUnique(a[..|a| - 1], b[..|b| - 1], le);
      assert a == a[..|a| - 1] + [a[|a| - 1]];
      assert b == b[..|b| - 1] + [b[|b| - 1]];
    }
  }

  /** The sorted form depends on the collection only, not on the order it came in. */
  lemma SortOfPermutation<T(!new)>(a: seq<T>, b: seq<T>, le: (T, T) -> bool)
    requires IsPreorder(le) && multiset(a) == multiset(b) && Separated(a, le)
    ensures Sort(a, le) == Sort(b, le)
  {
    SortPermutes(a, le);
    SortPermutes(b, le);
    SortSorts(a, le);
    SortSorts(b, le);
    SeparatedIsPermutationInvariant(a, Sort(a, le), le);
    SortedIsUnique(Sort(a, le), Sort(b, le), le);
  }

  /** If everything in `a` precedes everything in `b`, the two can be sorted apart. */
  lemma SortConcat<T(!new)>(a: seq<T>, b: seq<T>, le: (T, T) -> bool)
    requires IsPreorder(le) && Separated(a + b, le)
    requires forall x, y :: x in a && y in b ==> le(x, y)
    ensures Sort(a + b, le) == Sort(a, le) + Sort(b, le)
  {
    var s, t := Sort(a + b, le), Sort(a, le) + Sort(b, le);
    SortPermutes(a + b, le);
    SortPermutes(a, le);
    SortPermutes(b, le);
    SortSorts(a + b, le);
    SortSorts(a, le);
    SortSorts(b, le);
    MembersOfPermutation(Sort(a, le), a);
    MembersOfPermutation(Sort(b, le), b);
    forall i, j | 0 <= i < j < |t|
      ensures le(t[i], t[j])
    {
      var n := |Sort(a, le)|;
      if i < n <= j {
        assert t[i] in Sort(a, le) && t[j] in Sort(b, le);
      }
    }
    SeparatedIsPermutationInvariant(a + b, s, le);
    SortedIsUnique(s, t, le);
  }

  // ---------------------------------------------------------------------------------------------
  // Lexicographic orders
  // ---------------------------------------------------------------------------------------------

  /** Lexicographic order of byte strings. */
  predicate BytesLe(a: seq<int>, b: seq<int>) {
    a == [] || (b != [] && (a[0] < b[0] || (a[0] == b[0] && BytesLe(a[1..], b[1..]))))
  }

  lemma {:induction false} BytesLeTotal(a: seq<int>, b: seq<int>)
    ensures BytesLe(a, b) || BytesLe(b, a)
    ensures BytesLe(a, b) && BytesLe(b, a) ==> a == b
  {
    if a != [] && b != [] && a[0] == b[0] {
      BytesLeTotal(a[1..], b[1..]);
      assert a == [a[0]] + a[1..] && b == [b[0]] + b[1..];
    }
  }

  lemma {:induction false} BytesLeTransitive(a: seq<int>, b: seq<int>, c: seq<int>)
    requires BytesLe(a, b) && BytesLe(b, c)
    ensures BytesLe(a, c)
  {
    if a != [] && a[0] == b[0] && b[0] == c[0] {
      BytesLeTransitive(a[1..], b[1..], c[1..]);
    }
  }

  /** Lexicographic order of component sequences, as `Path` compares them. */
  predicate PathLe(a: seq<seq<int>>, b: seq<seq<int>>) {
    a == [] || (b != [] && (if a[0] == b[0] then PathLe(a[1..], b[1..]) else BytesLe(a[0], b[0])))
  }

  lemma {:induction false} PathLeTotal(a: seq<seq<int>>, b: seq<seq<int>>)
    ensures PathLe(a, b) || PathLe(b, a)
    ensures PathLe(a, b) && PathLe(b, a) ==> a == b
  {
    if a != [] && b != [] {
      if a[0] == b[0] {
        PathLeTotal(a[1..], b[1..]);
        assert a == [a[0]] + a[1..] && b == [b[0]] + b[1..];
      } else {
        BytesLeTotal(a[0], b[0]);
      }
    }
  }

  lemma {:induction false} PathLeTransitive(a: seq<seq<int>>, b: seq<seq<int>>, c: seq<seq<int>>)
    requires PathLe(a, b) && PathLe(b, c)
    ensures PathLe(a, c)
  {
    if a != [] {
      if a[0] == b[0] && b[0] == c[0] {
        PathLeTransitive(a[1..], b[1..], c[1..]);
      } else if a[0] != b[0] && b[0] != c[0] {
        BytesLeTransitive(a[0], b[0], c[0]);
        BytesLeTotal(a[0], b[0]);
      }
    }
  }

  /** Two sequences that are at least this long and the same up to here. */
  ghost predicate AgreeUpTo<T>(a: seq<T>, b: seq<T>, k: int) {
    0 <= k <= |a| && k <= |b| && a[..k] == b[..k]
  }

  lemma AgreeTail<T>(a: seq<T>, b: seq<T>, k: int)
    requires a != [] && b != [] && k > 0
    ensures AgreeUpTo(a, b, k) <==> a[0] == b[0] && AgreeUpTo(a[1..], b[1..], k - 1)
  {
    if k <= |a| && k <= |b| {
      var x, y := a[1..][..k - 1], b[1..][..k - 1];
      assert a[..k] == [a[0]] + x && b[..k] == [b[0]] + y;
      if a[..k] == b[..k] {
        assert x == a[..k][1..] && y == b[..k][1..];
        assert a[0] == a[..k][0] && b[0] == b[..k][0];
      }
    }
  }

  /** One byte string comes before or equals another: it is a prefix, or smaller where they first differ. */
  ghost predicate IsBefore(a: seq<int>, b: seq<int>) {
    exists k :: AgreeUpTo(a, b, k) && (k == |a| || (k < |b| && a[k] < b[k]))
  }

  lemma {:induction false} BytesLeMeans(a: seq<int>, b: seq<int>)
    ensures BytesLe(a, b) <==> IsBefore(a, b)
  {
    assert AgreeUpTo(a, b, 0);
    if a != [] && b != [] {
      BytesLeMeans(a[1..], b[1..]);
      if k :| AgreeUpTo(a, b, k) && (k == |a| || (k < |b| && a[k] < b[k])) {
        if k > 0 {
          AgreeTail(a, b, k);
        }
      }
      if a[0] == b[0] && IsBefore(a[1..], b[1..]) {
        var k :| AgreeUpTo(a[1..], b[1..], k) && (k == |a[1..]| || (k < |b[1..]| && a[1..][k] < b[1..][k]));
        AgreeTail(a, b, k + 1);
      }
    }
  }

  /** The same for paths, whose components are byte strings. */
  ghost predicate IsPathBefore(a: seq<seq<int>>, b: seq<seq<int>>) {
    exists k :: AgreeUpTo(a, b, k) && (k == |a| || (k < |b| && a[k] != b[k] && IsBefore(a[k], b[k])))
  }

  lemma {:induction false} PathLeMeans(a: seq<seq<int>>, b: seq<seq<int>>)
    ensures PathLe(a, b) <==> IsPathBefore(a, b)
  {
    hide IsBefore;
    assert AgreeUpTo(a, b, 0);
    if a != [] && b != [] {
      BytesLeMeans(a[0], b[0]);
      PathLeMeans(a[1..], b[1..]);
      if k :| AgreeUpTo(a, b, k) && (k == |a| || (k < |b| && a[k] != b[k] && IsBefore(a[k], b[k]))) {
        if k > 0 {
          AgreeTail(a, b, k);
        }
      }
      if a[0] == b[0] && IsPathBefore(a[1..], b[1..]) {
        var k :| AgreeUpTo(a[1..], b[1..], k)
                 && (k == |a[1..]| || (k < |b[1..]| && a[1..][k] != b[1..][k] && IsBefore(a[1..][k], b[1..][k])));
        AgreeTail(a, b, k + 1);
      }
    }
  }
}
