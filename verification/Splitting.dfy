/**
  Splitting a sequence at a separator, and what the parts are: the maximal separator-free segments.
 */
module Splitting {

  function Split<T(==)>(s: seq<T>, separator: T): (parts: seq<seq<T>>)
    ensures |parts| > 0
  {
    if s == [] then [[]]
    else
      var rest := Split(s[1..], separator);
      if s[0] == separator then [[]] + rest else [[s[0]] + rest[0]] + rest[1..]
  }

  /** `s[i..j]` holds no separator and is bounded by separators or the ends. */
  ghost predicate IsSegment<T>(s: seq<T>, separator: T, i: int, j: int) {
    && 0 <= i <= j <= |s|
    && (i == 0 || s[i - 1] == separator) && (j == |s| || s[j] == separator)
    && separator !in s[i..j]
  }

  ghost predicate IsLaterPart<T>(s: seq<T>, separator: T, part: seq<T>) {
    exists i, j :: 0 < i && IsSegment(s, separator, i, j) && s[i..j] == part
  }

  /** The first part is the segment from the start. */
  lemma {:induction false} FirstPart<T>(s: seq<T>, separator: T)
    ensures var n := |Split(s, separator)[0]|; IsSegment(s, separator, 0, n) && s[..n] == Split(s, separator)[0]
  {
    if s != [] && s[0] != separator {
      FirstPart(s[1..], separator);
      var n := |Split(s[1..], separator)[0]|;
      assert s[..n + 1] == [s[0]] + s[1..][..n];
    }
  }

  lemma ShiftSegment<T>(s: seq<T>, separator: T, i: int, j: int)
    requires s != [] && 0 < i <= j <= |s|
    ensures IsSegment(s[1..], separator, i - 1, j - 1) && (i > 1 || s[0] == separator) <==> IsSegment(s, separator, i, j)
    ensures s[1..][i - 1..j - 1] == s[i..j]
  {
    assert s[1..][i - 1..j - 1] == s[i..j];
  }

  lemma HasLaterPart<T>(s: seq<T>, separator: T, i: int, j: int)
    requires 0 < i && IsSegment(s, separator, i, j)
    ensures IsLaterPart(s, separator, s[i..j])
  {
  }

  lemma PartIsSegment<T>(s: seq<T>, separator: T, part: seq<T>) returns (i: int, j: int)
    requires IsLaterPart(s, separator, part)
    ensures 0 < i <= j <= |s| && IsSegment(s, separator, i, j) && s[i..j] == part
  {
    i, j :| 0 < i && IsSegment(s, separator, i, j) && s[i..j] == part;
  }

  /** The later parts, seen from one element on. */
  lemma LaterPartOfTail<T>(s: seq<T>, separator: T, part: seq<T>)
    requires s != []
    ensures IsLaterPart(s, separator, part)
            <==> IsLaterPart(s[1..], separator, part) || (s[0] == separator && part == Split(s[1..], separator)[0])
  {
    hide Split, IsSegment, IsLaterPart;
    var t := s[1..];
    var n := |Split(t, separator)[0]|;
    FirstPart(t, separator);
    assert t[0..n] == Split(t, separator)[0];
    SegmentIsInside(t, separator, 0, n);
    ShiftSegment(s, separator, 1, n + 1);
    if IsLaterPart(s, separator, part) {
      var i, j := PartIsSegment(s, separator, part);
      ShiftSegment(s, separator, i, j);
      if i == 1 {
        FromStart(t, separator, j - 1, n);
        StartsAfter(s, separator, i, j);
      } else {
        HasLaterPart(t, separator, i - 1, j - 1);
      }
    }
    if IsLaterPart(t, separator, part) {
      var i, j := PartIsSegment(t, separator, part);
      ShiftSegment(s, separator, i + 1, j + 1);
      HasLaterPart(s, separator, i + 1, j + 1);
    }
    if s[0] == separator && part == Split(t, separator)[0] {
      HasLaterPart(s, separator, 1, n + 1);
    }
  }

  lemma SegmentIsInside<T>(s: seq<T>, separator: T, i: int, j: int)
    requires IsSegment(s, separator, i, j)
    ensures 0 <= i <= j <= |s|
  {
  }

  lemma StartsAfter<T>(s: seq<T>, separator: T, i: int, j: int)
    requires IsSegment(s, separator, i, j) && i > 0
    ensures i <= |s| && s[i - 1] == separator
  {
  }

  /** The other parts are the segments from elsewhere. */
  lemma {:induction false} LaterParts<T>(s: seq<T>, separator: T, part: seq<T>)
    ensures part in Split(s, separator)[1..] <==> IsLaterPart(s, separator, part)
  {
    if s != [] {
      var rest := Split(s[1..], separator);
      LaterParts(s[1..], separator, part);
      LaterPartOfTail(s, separator, part);
      assert rest == [rest[0]] + rest[1..];
    }
  }

  /** There is one segment from the start. */
  lemma FromStart<T>(s: seq<T>, separator: T, j: int, k: int)
    requires IsSegment(s, separator, 0, j) && IsSegment(s, separator, 0, k)
    ensures j == k
  {
    forall n | 0 <= n < j
      ensures s[n] != separator
    {
      assert s[0..j][n] == s[n];
    }
    forall n | 0 <= n < k
      ensures s[n] != separator
    {
      assert s[0..k][n] == s[n];
    }
  }

  /** The parts are exactly the segments. */
  lemma SplitMeans<T>(s: seq<T>, separator: T, part: seq<T>)
    ensures part in Split(s, separator) <==> exists i, j :: IsSegment(s, separator, i, j) && s[i..j] == part
  {
    var parts := Split(s, separator);
    assert parts == [parts[0]] + parts[1..];
    FirstPart(s, separator);
    LaterParts(s, separator, part);
    if part == parts[0] {
      assert s[0..|part|] == part;
    }
    if i, j :| IsSegment(s, separator, i, j) && s[i..j] == part {
      if i == 0 {
        FromStart(s, separator, j, |parts[0]|);
      } else {
        assert IsLaterPart(s, separator, part);
      }
    }
  }

  lemma {:induction false} SplitOfFree<T>(s: seq<T>, separator: T)
    requires separator !in s
    ensures Split(s, separator) == [s]
  {
    if s != [] {
      SplitOfFree(s[1..], separator);
      assert [s[0]] + s[1..] == s;
    }
  }

  /** The parts around a separator are split on their own. */
  lemma {:induction false} SplitAround<T>(a: seq<T>, b: seq<T>, separator: T)
    ensures Split(a + [separator] + b, separator) == Split(a, separator) + Split(b, separator)
  {
    var s := a + [separator] + b;
    if a == [] {
      assert s[1..] == b;
    } else {
      assert s[1..] == a[1..] + [separator] + b;
      SplitAround(a[1..], b, separator);
    }
  }

  /** There is nothing in a sequence but its parts and the separators between them. */
  lemma {:induction false} SplitCovers<T>(s: seq<T>, separator: T) returns (rest: seq<T>)
    requires |Split(s, separator)| > 1
    ensures s == Split(s, separator)[0] + [separator] + rest
    ensures Split(rest, separator) == Split(s, separator)[1..]
  {
    if s[0] == separator {
      rest := s[1..];
    } else {
      rest := SplitCovers(s[1..], separator);
    }
  }

  /** Two parts are the two sides of the only separator. */
  lemma SplitInTwo<T>(s: seq<T>, separator: T, a: seq<T>, b: seq<T>)
    ensures Split(s, separator) == [a, b] <==> s == a + [separator] + b && separator !in a && separator !in b
  {
    hide Split;
    if Split(s, separator) == [a, b] {
      var rest := SplitCovers(s, separator);
      assert Split(rest, separator) == [b];
      OnePart(rest, separator);
      FirstIsFree(s, separator);
    }
    if s == a + [separator] + b && separator !in a && separator !in b {
      SplitAround(a, b, separator);
      SplitOfFree(a, separator);
      SplitOfFree(b, separator);
    }
  }

  lemma SplitInThree<T>(s: seq<T>, separator: T, a: seq<T>, b: seq<T>, c: seq<T>)
    ensures Split(s, separator) == [a, b, c]
            <==> s == a + [separator] + (b + [separator] + c) && separator !in a && separator !in b && separator !in c
  {
    hide Split;
    if Split(s, separator) == [a, b, c] {
      var rest := SplitCovers(s, separator);
      assert Split(rest, separator) == [b, c];
      SplitInTwo(rest, separator, b, c);
      FirstIsFree(s, separator);
    }
    if s == a + [separator] + (b + [separator] + c) && separator !in a && separator !in b && separator !in c {
      SplitAround(a, b + [separator] + c, separator);
      SplitInTwo(b + [separator] + c, separator, b, c);
      SplitOfFree(a, separator);
    }
  }

  lemma {:induction false} OnePart<T>(s: seq<T>, separator: T)
    requires |Split(s, separator)| == 1
    ensures Split(s, separator) == [s] && separator !in s
  {
    if s != [] {
      OnePart(s[1..], separator);
      assert [s[0]] + s[1..] == s;
    }
  }

  lemma FirstIsFree<T>(s: seq<T>, separator: T)
    ensures separator !in Split(s, separator)[0]
  {
    FirstPart(s, separator);
    assert s[0..|Split(s, separator)[0]|] == Split(s, separator)[0];
  }
}
