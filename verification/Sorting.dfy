/** Sorting as Go's package `sort` does it: the result is sorted and holds the same elements. */
module Sorting {

  ghost predicate TotalOrder<T(!new)>(leq: (T, T) -> bool) {
    && (forall x, y :: leq(x, y) || leq(y, x))
    && (forall x, y :: leq(x, y) && leq(y, x) ==> x == y)
    && (forall x, y, z :: leq(x, y) && leq(y, z) ==> leq(x, z))
  }

  ghost predicate Sorted<T>(leq: (T, T) -> bool, s: seq<T>) {
    forall i, j | 0 <= i < j < |s| :: leq(s[i], s[j])
  }

  function Insert<T>(leq: (T, T) -> bool, x: T, s: seq<T>): seq<T> {
    if s == [] || leq(x, s[0]) then [x] + s else [s[0]] + Insert(leq, x, s[1..])
  }

  function Sort<T>(leq: (T, T) -> bool, s: seq<T>): seq<T> {
    if s == [] then [] else Insert(leq, s[0], Sort(leq, s[1..]))
  }

  lemma {:induction false} InsertSame<T>(leq: (T, T) -> bool, x: T, s: seq<T>)
    ensures multiset(Insert(leq, x, s)) == multiset{x} + multiset(s)
  {
    if s != [] && !leq(x, s[0]) {
      InsertSame(leq, x, s[1..]);
      assert s == [s[0]] + s[1..];
    }
  }

  lemma SortedCons<T(!new)>(leq: (T, T) -> bool, x: T, s: seq<T>)
    requires Sorted(leq, s) && forall y <- s :: leq(x, y)
    ensures Sorted(leq, [x] + s)
  {
  }

  lemma {:induction false} InsertSorted<T(!new)>(leq: (T, T) -> bool, x: T, s: seq<T>)
    requires TotalOrder(leq) && Sorted(leq, s)
    ensures Sorted(leq, Insert(leq, x, s))
  {
    if s == [] {
    } else if leq(x, s[0]) {
      forall y | y in s
        ensures leq(x, y)
      {
        var i :| 0 <= i < |s| && s[i] == y;
        assert i > 0 ==> leq(s[0], s[i]);
      }
      SortedCons(leq, x, s);
    } else {
      InsertSorted(leq, x, s[1..]);
      var r := Insert(leq, x, s[1..]);
      InsertSame(leq, x, s[1..]);
      forall y | y in r
        ensures leq(s[0], y)
      {
        assert y in multiset(r);
        if y in multiset(s[1..]) {
          assert y in s[1..];
          var i :| 0 <= i < |s| - 1 && s[1..][i] == y;
          assert leq(s[0], s[i + 1]);
        }
      }
      SortedCons(leq, s[0], r);
    }
  }

  lemma {:induction false} SortIsSorted<T(!new)>(leq: (T, T) -> bool, s: seq<T>)
    requires TotalOrder(leq)
    ensures Sorted(leq, Sort(leq, s))
  {
    if s != [] {
      SortIsSorted(leq, s[1..]);
      InsertSorted(leq, s[0], Sort(leq, s[1..]));
    }
  }

  lemma {:induction false} SortSame<T>(leq: (T, T) -> bool, s: seq<T>)
    ensures multiset(Sort(leq, s)) == multiset(s)
  {
    if s != [] {
      SortSame(leq, s[1..]);
      InsertSame(leq, s[0], Sort(leq, s[1..]));
      assert s == [s[0]] + s[1..];
    }
  }

  lemma SameHead<T(!new)>(leq: (T, T) -> bool, a: seq<T>, b: seq<T>)
    requires TotalOrder(leq) && Sorted(leq, a) && Sorted(leq, b) && multiset(a) == multiset(b) && a != []
    ensures b != [] && a[0] == b[0]
  {
    assert a[0] in multiset(a) && a[0] in b;
    var i :| 0 <= i < |b| && b[i] == a[0];
    assert b[0] in multiset(b) && b[0] in a;
    var j :| 0 <= j < |a| && a[j] == b[0];
    assert leq(b[0], b[i]) || i == 0;
    assert leq(a[0], a[j]) || j == 0;
  }

  lemma Rest<T(!new)>(leq: (T, T) -> bool, a: seq<T>)
    requires a != [] && Sorted(leq, a)
    ensures Sorted(leq, a[1..]) && multiset(a[1..]) == multiset(a) - multiset{a[0]} && a == [a[0]] + a[1..]
  {
    assert a == [a[0]] + a[1..];
  }

  /** Sorting determines the order: there is one sorted list of given elements. */
  lemma {:induction false} SortedUnique<T(!new)>(leq: (T, T) -> bool, a: seq<T>, b: seq<T>)
    requires TotalOrder(leq) && Sorted(leq, a) && Sorted(leq, b) && multiset(a) == multiset(b)
    ensures a == b
  {
    hide TotalOrder, Sorted;
    if a != [] {
      SameHead(leq, a, b);
      Rest(leq, a);
      Rest(leq, b);
      SortedUnique(leq, a[1..], b[1..]);
    } else if b != [] {
      SameHead(leq, b, a);
    }
  }

  /** Equal elements give equal sorted lists, in whatever order they come. */
  lemma SortPermutation<T(!new)>(leq: (T, T) -> bool, a: seq<T>, b: seq<T>)
    requires TotalOrder(leq) && multiset(a) == multiset(b)
    ensures Sort(leq, a) == Sort(leq, b)
  {
    SortIsSorted(leq, a);
    SortIsSorted(leq, b);
    SortSame(leq, a);
    SortSame(leq, b);
    SortedUnique(leq, Sort(leq, a), Sort(leq, b));
  }

  /** Go's order of strings: byte by byte, a beginning before the whole. */
  predicate LexLeq(a: string, b: string) {
    a == "" || (b != "" && (a[0] < b[0] || (a[0] == b[0] && LexLeq(a[1..], b[1..]))))
  }

  lemma LexTotal(a: string, b: string)
    ensures LexLeq(a, b) || LexLeq(b, a)
  {
  }

  lemma {:induction false} LexAntisymmetric(a: string, b: string)
    requires LexLeq(a, b) && LexLeq(b, a)
    ensures a == b
  {
    if a != "" {
      LexAntisymmetric(a[1..], b[1..]);
      assert a == [a[0]] + a[1..] && b == [b[0]] + b[1..];
    }
  }

  lemma LexTransitive(a: string, b: string, c: string)
    requires LexLeq(a, b) && LexLeq(b, c)
    ensures LexLeq(a, c)
  {
  }

  lemma LexOrder()
    ensures TotalOrder(LexLeq)
  {
    forall a, b
      ensures LexLeq(a, b) || LexLeq(b, a)
    {
      LexTotal(a, b);
    }
    forall a, b | LexLeq(a, b) && LexLeq(b, a)
      ensures a == b
    {
      LexAntisymmetric(a, b);
    }
    forall a, b, c | LexLeq(a, b) && LexLeq(b, c)
      ensures LexLeq(a, c)
    {
      LexTransitive(a, b, c);
    }
  }

  predicate IntLeq(a: int, b: int) {
    a <= b
  }

  /** The elements of a set in an arbitrary order. */
  ghost function Listing<T(!new)>(s: set<T>): (r: seq<T>)
    ensures multiset(r) == multiset(s)
  {
    if s == {} then []
    else
      var x :| x in s;
      assert s == {x} + (s - {x});
      [x] + Listing(s - {x})
  }

  ghost predicate StrictlySorted<T>(leq: (T, T) -> bool, s: seq<T>) {
    forall i, j | 0 <= i < j < |s| :: leq(s[i], s[j]) && s[i] != s[j]
  }

  /** Without the elements that equal the one before. */
  function Unique<T(==)>(s: seq<T>): seq<T> {
    var n := |s|;
    if n == 0 then []
    else if n > 1 && s[n - 2] == s[n - 1] then Unique(s[..n - 1])
    else Unique(s[..n - 1]) + [s[n - 1]]
  }

  lemma {:induction false} UniqueKeepsElements<T>(s: seq<T>)
    ensures forall x :: x in Unique(s) <==> x in s
    ensures |Unique(s)| <= |s|
  {
    if s != [] {
      var t := s[..|s| - 1];
      UniqueKeepsElements(t);
      assert s == t + [s[|s| - 1]];
      if |s| > 1 && s[|s| - 2] == s[|s| - 1] {
        assert t[|s| - 2] == s[|s| - 2];
      }
    }
  }

  /** Where equal elements stand together, every element remains once. */
  lemma {:induction false} UniqueOfSorted<T(!new)>(leq: (T, T) -> bool, s: seq<T>)
    requires TotalOrder(leq) && Sorted(leq, s)
    ensures StrictlySorted(leq, Unique(s))
  {
    if s != [] {
      var t, last := s[..|s| - 1], s[|s| - 1];
      UniqueOfSorted(leq, t);
      if !(|s| > 1 && s[|s| - 2] == last) {
        var u := Unique(t);
        UniqueKeepsElements(t);
        forall i | 0 <= i < |u|
          ensures leq(u[i], last) && u[i] != last
        {
          assert u[i] in t;
          var j :| 0 <= j < |t| && t[j] == u[i];
          assert leq(s[j], s[|s| - 1]);
          if j < |s| - 2 {
            assert leq(s[j], s[|s| - 2]) && leq(s[|s| - 2], last);
          }
        }
      }
    }
  }

  /** Every element occurs once. */
  predicate Distinct<T(==)>(s: seq<T>) {
    forall i, j | 0 <= i < j < |s| :: s[i] != s[j]
  }

  /** A list of the elements of a set, each once. */
  lemma EachOnce<T>(s: seq<T>, all: set<T>)
    requires multiset(s) == multiset(all)
    ensures Distinct(s) && forall x :: x in s <==> x in all
  {
    forall i, j | 0 <= i < j < |s|
      ensures s[i] != s[j]
    {
      if s[i] == s[j] {
        TwiceInMultiset(s, i, j);
        assert false;
      }
    }
    forall x
      ensures x in s <==> x in all
    {
      assert x in s <==> x in multiset(s);
    }
  }

  lemma TwiceInMultiset<T>(s: seq<T>, i: nat, j: nat)
    requires i < j < |s| && s[i] == s[j]
    ensures multiset(s)[s[i]] >= 2
  {
    assert s == s[..j] + [s[j]] + s[j + 1..];
    assert s[i] in s[..j];
  }
}
