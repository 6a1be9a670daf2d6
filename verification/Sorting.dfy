/** The order facts behind Go's sort and slices packages: what sorting a slice by a total order returns. */
module Sorting {
  ghost predicate TotalOrder<T(!new)>(le: (T, T) -> bool) {
    && (forall x, y :: le(x, y) || le(y, x))
    && (forall x, y, z :: le(x, y) && le(y, z) ==> le(x, z))
  }

  ghost predicate Sorted<T>(s: seq<T>, le: (T, T) -> bool) {
    forall i, j :: 0 <= i < j < |s| ==> le(s[i], s[j])
  }

  // No two positions are equivalent under the order.
  ghost predicate Distinct<T>(s: seq<T>, le: (T, T) -> bool) {
    forall i, j :: 0 <= i < j < |s| ==> !(le(s[i], s[j]) && le(s[j], s[i]))
  }

  function Insert<T(!new)>(x: T, s: seq<T>, le: (T, T) -> bool): (r: seq<T>)
    requires TotalOrder(le) && Sorted(s, le)
    ensures Sorted(r, le) && multiset(r) == multiset(s) + multiset{x}
    ensures |r| == |s| + 1 && forall y :: y in r <==> y == x || y in s
  {
    if s == [] then [x]
    else if le(x, s[0]) then
      assert [x] + s == [x] + s;
      [x] + s
    else
      var rest := Insert(x, s[1..], le);
      assert s == [s[0]] + s[1..];
      assert forall y :: y in rest ==> le(s[0], y);
      [s[0]] + rest
  }

  function Sort<T(!new)>(s: seq<T>, le: (T, T) -> bool): (r: seq<T>)
    requires TotalOrder(le)
    ensures Sorted(r, le) && multiset(r) == multiset(s)
    ensures |r| == |s| && forall y :: y in r <==> y in s
  {
    if s == [] then []
    else
      assert s == [s[0]] + s[1..];
      Insert(s[0], Sort(s[1..], le), le)
  }

  // No element of `s` is equivalent to `x`.
  ghost predicate Apart<T>(x: T, s: seq<T>, le: (T, T) -> bool) {
    forall y :: y in s ==> !(le(x, y) && le(y, x))
  }

  lemma DistinctCons<T>(x: T, s: seq<T>, le: (T, T) -> bool)
    ensures Distinct([x] + s, le) <==> Apart(x, s, le) && Distinct(s, le)
  {
    var whole := [x] + s;
    assert forall k :: 0 <= k < |s| ==> whole[k + 1] == s[k];
    if Distinct(whole, le) {
      forall y | y in s
        ensures !(le(x, y) && le(y, x))
      {
        var k :| 0 <= k < |s| && s[k] == y;
        assert !(le(whole[0], whole[k + 1]) && le(whole[k + 1], whole[0]));
      }
      forall i, j | 0 <= i < j < |s|
        ensures !(le(s[i], s[j]) && le(s[j], s[i]))
      {
        assert !(le(whole[i + 1], whole[j + 1]) && le(whole[j + 1], whole[i + 1]));
      }
    }
  }

  lemma {:induction false} InsertKeepsDistinct<T(!new)>(x: T, s: seq<T>, le: (T, T) -> bool)
    requires TotalOrder(le) && Sorted(s, le) && Distinct(s, le) && Apart(x, s, le)
    ensures Distinct(Insert(x, s, le), le)
  {
    if s == [] || le(x, s[0]) {
      DistinctCons(x, s, le);
    } else {
      assert s == [s[0]] + s[1..];
      DistinctCons(s[0], s[1..], le);
      InsertKeepsDistinct(x, s[1..], le);
      DistinctCons(s[0], Insert(x, s[1..], le), le);
    }
  }

  /** Sorting elements that are pairwise distinct under the order gives a strictly increasing result. */
  lemma {:induction false} SortKeepsDistinct<T(!new)>(s: seq<T>, le: (T, T) -> bool)
    requires TotalOrder(le) && Distinct(s, le)
    ensures Distinct(Sort(s, le), le)
  {
    if s != [] {
      assert s == [s[0]] + s[1..];
      DistinctCons(s[0], s[1..], le);
      SortKeepsDistinct(s[1..], le);
      InsertKeepsDistinct(s[0], Sort(s[1..], le), le);
    }
  }

  /** Two strictly increasing lists of the same elements are the same list. */
  lemma {:induction false} SortedIsUnique<T(!new)>(a: seq<T>, b: seq<T>, le: (T, T) -> bool)
    requires TotalOrder(le) && Sorted(a, le) && Sorted(b, le) && Distinct(a, le) && Distinct(b, le)
    requires forall x :: x in a <==> x in b
    ensures a == b
  {
    if a == [] {
      assert forall i :: 0 <= i < |b| ==> b[i] in b;
    } else {
      assert a[0] in a && a[0] in b;
      assert b[0] in b && b[0] in a;
      assert a[0] == b[0];
      forall x
        ensures x in a[1..] <==> x in b[1..]
      {
        TailMembers(a, x, le);
        TailMembers(b, x, le);
      }
      SortedIsUnique(a[1..], b[1..], le);
      assert a == [a[0]] + a[1..] && b == [b[0]] + b[1..];
    }
  }

  lemma TailMembers<T(!new)>(a: seq<T>, x: T, le: (T, T) -> bool)
    requires TotalOrder(le) && Distinct(a, le) && a != []
    ensures x in a[1..] <==> x in a && x != a[0]
  {
  }

  // ----- Integers and strings -----

  function IntLe(): (int, int) -> bool {
    (x, y) => x <= y
  }

  lemma IntLeIsTotalOrder()
    ensures TotalOrder(IntLe())
  {
  }

  // The byte order of Go strings, which on UTF-8 text is the order of code points.
  predicate StringLess(a: string, b: string) {
    |b| > 0 && (|a| == 0 || a[0] < b[0] || (a[0] == b[0] && StringLess(a[1..], b[1..])))
  }

  // Up to position n the texts agree, and there a ends or has the smaller character.
  predicate Precedes(a: string, b: string, n: int) {
    0 <= n <= |a| && n < |b| && a[..n] == b[..n] && (n == |a| || a[n] < b[n])
  }

  /** A text is less than another exactly when it is a proper prefix of it or smaller where they first differ. */
  lemma {:induction false} StringLessIff(a: string, b: string)
    ensures StringLess(a, b) <==> exists n :: Precedes(a, b, n)
  {
    if |a| > 0 && |b| > 0 && a[0] == b[0] {
      StringLessIff(a[1..], b[1..]);
      if n :| Precedes(a[1..], b[1..], n) {
        assert Precedes(a, b, n + 1);
      }
      if n :| Precedes(a, b, n) {
        assert n > 0;
        assert a[1..][..n - 1] == a[..n][1..] && b[1..][..n - 1] == b[..n][1..];
        assert Precedes(a[1..], b[1..], n - 1);
      }
    } else if StringLess(a, b) {
      assert Precedes(a, b, 0);
    }
  }

  function StringLe(): (string, string) -> bool {
    (a, b) => !StringLess(b, a)
  }

  lemma {:induction false} StringLessTrichotomy(a: string, b: string)
    ensures !(StringLess(a, b) && StringLess(b, a))
    ensures StringLess(a, b) || StringLess(b, a) || a == b
    ensures a == b ==> !StringLess(a, b)
  {
    if |a| > 0 && |b| > 0 {
      StringLessTrichotomy(a[1..], b[1..]);
      assert a == [a[0]] + a[1..] && b == [b[0]] + b[1..];
    }
  }

  lemma {:induction false} StringLessTransitive(a: string, b: string, c: string)
    requires StringLess(a, b) && StringLess(b, c)
    ensures StringLess(a, c)
  {
    if |a| > 0 && a[0] == b[0] == c[0] {
      StringLessTransitive(a[1..], b[1..], c[1..]);
    }
  }

  lemma StringLeTransitive(a: string, b: string, c: string)
    requires !StringLess(b, a) && !StringLess(c, b)
    ensures !StringLess(c, a)
  {
  }

  lemma StringLeIsTotalOrder()
    ensures TotalOrder(StringLe())
    ensures forall a, b :: StringLe()(a, b) && StringLe()(b, a) ==> a == b
  {
    var le := StringLe();
    forall a, b
      ensures le(a, b) || le(b, a)
      ensures le(a, b) && le(b, a) ==> a == b
    {
      StringLessTrichotomy(a, b);
    }
    forall a, b, c | le(a, b) && le(b, c)
      ensures le(a, c)
    {
      StringLeTransitive(a, b, c);
    }
  }

  // ----- Order statistics -----

  function CountAtMost(s: seq<int>, t: int): (n: nat)
    ensures n <= |s|
  {
    if s == [] then 0 else CountAtMost(s[1..], t) + (if s[0] <= t then 1 else 0)
  }

  lemma {:induction false} CountOfInsert(x: int, s: seq<int>, t: int)
    requires TotalOrder(IntLe()) && Sorted(s, IntLe())
    ensures CountAtMost(Insert(x, s, IntLe()), t) == CountAtMost(s, t) + (if x <= t then 1 else 0)
  {
    if s != [] && x > s[0] {
      CountOfInsert(x, s[1..], t);
    }
  }

  lemma {:induction false} CountOfSort(s: seq<int>, t: int)
    requires TotalOrder(IntLe())
    ensures CountAtMost(Sort(s, IntLe()), t) == CountAtMost(s, t)
  {
    if s != [] {
      CountOfSort(s[1..], t);
      CountOfInsert(s[0], Sort(s[1..], IntLe()), t);
    }
  }

  // The element at rank k of a sorted list is at most t exactly when more than k elements are.
  lemma {:induction false} RankByCount(s: seq<int>, k: nat, t: int)
    requires Sorted(s, IntLe()) && k < |s|
    ensures s[k] <= t <==> CountAtMost(s, t) > k
  {
    if s[0] > t {
      CountNone(s, t);
      if k > 0 { assert IntLe()(s[0], s[k]); }
    } else if k > 0 {
      RankByCount(s[1..], k - 1, t);
    }
  }

  lemma {:induction false} CountNone(s: seq<int>, t: int)
    requires Sorted(s, IntLe()) && (|s| > 0 ==> s[0] > t)
    ensures CountAtMost(s, t) == 0
  {
    if |s| > 1 {
      assert IntLe()(s[0], s[1]);
      CountNone(s[1..], t);
    }
  }

  lemma {:induction false} CountDominates(a: seq<int>, b: seq<int>, d: int, t: int)
    requires |a| == |b| && forall i :: 0 <= i < |a| ==> a[i] + d <= b[i]
    ensures CountAtMost(a, t - d) >= CountAtMost(b, t)
  {
    if a != [] {
      CountDominates(a[1..], b[1..], d, t);
    }
  }

  lemma RankDominates(a: seq<int>, sa: seq<int>, b: seq<int>, sb: seq<int>, d: int, k: nat)
    requires |a| == |b| == |sa| == |sb| && k < |a| && forall i :: 0 <= i < |a| ==> a[i] + d <= b[i]
    requires Sorted(sa, IntLe()) && Sorted(sb, IntLe())
    requires CountAtMost(sa, sb[k] - d) == CountAtMost(a, sb[k] - d)
    requires CountAtMost(sb, sb[k]) == CountAtMost(b, sb[k])
    ensures sa[k] + d <= sb[k]
  {
    RankByCount(sb, k, sb[k]);
    CountDominates(a, b, d, sb[k]);
    RankByCount(sa, k, sb[k] - d);
  }

  /** If every b[i] exceeds its a[i] by at least d, so does every rank of sorted b over sorted a. */
  lemma SortedDominates(a: seq<int>, b: seq<int>, d: int, k: nat)
    requires TotalOrder(IntLe())
    requires |a| == |b| && k < |a| && forall i :: 0 <= i < |a| ==> a[i] + d <= b[i]
    ensures Sort(a, IntLe())[k] + d <= Sort(b, IntLe())[k]
  {
    hide Sort, CountAtMost, Sorted, IntLe;
    var t := Sort(b, IntLe())[k];
    CountOfSort(b, t);
    CountOfSort(a, t - d);
    RankDominates(a, Sort(a, IntLe()), b, Sort(b, IntLe()), d, k);
  }
}
