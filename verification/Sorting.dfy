/** The stable sort behind Array.prototype.sort, for a comparator given as "not greater". */
module Sorting {
  ghost predicate TotalPreorder<T(!new)>(le: (T, T) -> bool) {
    && (forall a, b :: le(a, b) || le(b, a))
    && (forall a, b, c :: le(a, b) && le(b, c) ==> le(a, c))
  }

  ghost predicate SortedBy<T>(s: seq<T>, le: (T, T) -> bool) {
    forall i, j | 0 <= i < j < |s| :: le(s[i], s[j])
  }

  /** x goes in front of the first element it is not greater than. */
  function Insert<T>(x: T, s: seq<T>, le: (T, T) -> bool): (r: seq<T>)
    ensures |r| == |s| + 1 && multiset(r) == multiset{x} + multiset(s)
  {
    if s == [] then [x]
    else if le(x, s[0]) then [x] + s
    else
      assert s == [s[0]] + s[1..];
      [s[0]] + Insert(x, s[1..], le)
  }

  function Sorted<T>(s: seq<T>, le: (T, T) -> bool): (r: seq<T>)
    ensures |r| == |s| && multiset(r) == multiset(s)
  {
    if s == [] then []
    else
      assert s == [s[0]] + s[1..];
      Insert(s[0], Sorted(s[1..], le), le)
  }

  lemma SameElements<T>(a: seq<T>, b: seq<T>, x: T)
    requires multiset(a) == multiset(b)
    ensures x in a <==> x in b
  {
    assert x in a <==> x in multiset(a);
    assert x in b <==> x in multiset(b);
  }

  lemma TwiceCounted<T>(s: seq<T>, a: nat, b: nat)
    requires a < b < |s| && s[a] == s[b]
    ensures multiset(s)[s[a]] >= 2
  {
    assert s == s[..a] + [s[a]] + s[a + 1..b] + [s[b]] + s[b + 1..];
  }

  lemma {:induction false} InsertSorted<T(!new)>(x: T, s: seq<T>, le: (T, T) -> bool)
    requires TotalPreorder(le) && SortedBy(s, le)
    ensures SortedBy(Insert(x, s, le), le)
  {
    if s != [] {
      if le(x, s[0]) {
        forall j | 0 <= j < |s| ensures le(x, s[j]) {
          if j > 0 { assert le(s[0], s[j]); }
        }
      } else {
        InsertSorted(x, s[1..], le);
        var rest := Insert(x, s[1..], le);
        forall y | y in rest ensures le(s[0], y) {
          assert y in multiset(rest);
          if y != x {
            assert y in multiset(s[1..]);
            var j :| 0 <= j < |s[1..]| && s[1..][j] == y;
            assert le(s[0], s[j + 1]);
          }
        }
      }
    }
  }

  lemma {:induction false} SortedIsSorted<T(!new)>(s: seq<T>, le: (T, T) -> bool)
    requires TotalPreorder(le)
    ensures SortedBy(Sorted(s, le), le)
  {
    if s != [] {
      SortedIsSorted(s[1..], le);
      InsertSorted(s[0], Sorted(s[1..], le), le);
    }
  }

  /** The first element is a least one. */
  lemma SortedHeadLeast<T(!new)>(s: seq<T>, le: (T, T) -> bool)
    requires TotalPreorder(le) && s != []
    ensures Sorted(s, le)[0] in s && forall t | t in s :: le(Sorted(s, le)[0], t)
  {
    var sorted := Sorted(s, le);
    SortedIsSorted(s, le);
    SameElements(sorted, s, sorted[0]);
    forall t | t in s ensures le(sorted[0], t) {
      SameElements(sorted, s, t);
      var i :| 0 <= i < |sorted| && sorted[i] == t;
      assert i == 0 || le(sorted[0], sorted[i]);
    }
  }

  /** The elements of s that are neither below nor above y, in order. */
  function Ties<T>(s: seq<T>, y: T, le: (T, T) -> bool): seq<T> {
    if s == [] then []
    else (if le(s[0], y) && le(y, s[0]) then [s[0]] else []) + Ties(s[1..], y, le)
  }

  lemma {:induction false} InsertStable<T(!new)>(x: T, s: seq<T>, y: T, le: (T, T) -> bool)
    requires TotalPreorder(le)
    ensures Ties(Insert(x, s, le), y, le) == Ties([x] + s, y, le)
  {
    if s != [] && !le(x, s[0]) {
      InsertStable(x, s[1..], y, le);
      TiesHead(x, s, y, le);
      TiesHead(x, s[1..], y, le);
      TiesHead(s[0], Insert(x, s[1..], le), y, le);
      NotBothTied(x, s[0], y, le);
    }
  }

  lemma NotBothTied<T(!new)>(x: T, z: T, y: T, le: (T, T) -> bool)
    requires TotalPreorder(le) && !le(x, z)
    ensures !(le(x, y) && le(y, x) && le(z, y) && le(y, z))
  {
  }

  lemma TiesHead<T>(x: T, s: seq<T>, y: T, le: (T, T) -> bool)
    ensures Ties([x] + s, y, le) == (if le(x, y) && le(y, x) then [x] else []) + Ties(s, y, le)
  {
    assert ([x] + s)[1..] == s;
  }

  /** Elements that compare equal keep their order. */
  lemma {:induction false} SortedStable<T(!new)>(s: seq<T>, y: T, le: (T, T) -> bool)
    requires TotalPreorder(le)
    ensures Ties(Sorted(s, le), y, le) == Ties(s, y, le)
  {
    if s != [] {
      SortedStable(s[1..], y, le);
      var rest := Sorted(s[1..], le);
      InsertStable(s[0], rest, y, le);
      assert ([s[0]] + rest)[1..] == rest;
    }
  }
}
