/** Sorting by a total preorder, and when its outcome is unique.

    The program sorts with library routines that promise a sorted permutation and nothing
    about the order of equivalent elements. `SortedUnique` says when that promise pins the
    result down; `Sort` is one function that keeps it. */
module Sorting {

  ghost predicate TotalPreorder<T(!new)>(le: (T, T) -> bool) {
    && (forall x, y :: le(x, y) || le(y, x))
    && (forall x, y, z :: le(x, y) && le(y, z) ==> le(x, z))
  }

  ghost predicate TotalOrder<T(!new)>(le: (T, T) -> bool) {
    && TotalPreorder(le)
    && (forall x, y :: le(x, y) && le(y, x) ==> x == y)
  }

  ghost predicate Sorted<T(!new)>(le: (T, T) -> bool, s: seq<T>) {
    forall i, j :: 0 <= i < j < |s| ==> le(s[i], s[j])
  }

  /** No two different elements of `s` are equivalent. */
  ghost predicate AntisymmetricOn<T(!new)>(le: (T, T) -> bool, s: seq<T>) {
    forall x, y :: x in s && y in s && le(x, y) && le(y, x) ==> x == y
  }

  ghost predicate Distinct<T(!new)>(s: seq<T>) {
    forall i, j :: 0 <= i < j < |s| ==> s[i] != s[j]
  }

  function Insert<T>(le: (T, T) -> bool, x: T, s: seq<T>): (r: seq<T>)
    ensures |r| == |s| + 1
  {
    if s == [] || le(x, s[0]) then [x] + s else [s[0]] + Insert(le, x, s[1..])
  }

  function Sort<T>(le: (T, T) -> bool, s: seq<T>): (r: seq<T>)
    ensures |r| == |s|
  {
    if s == [] then [] else Insert(le, s[0], Sort(le, s[1..]))
  }

  lemma {:induction false} InsertPermutes<T(!new)>(le: (T, T) -> bool, x: T, s: seq<T>)
    ensures multiset(Insert(le, x, s)) == multiset{x} + multiset(s)
  {
    if s != [] && !le(x, s[0]) {
      InsertPermutes(le, x, s[1..]);
      assert [s[0]] + s[1..] == s;
    }
  }

  lemma {:induction false} InsertSorted<T(!new)>(le: (T, T) -> bool, x: T, s: seq<T>)
    requires TotalPreorder(le) && Sorted(le, s)
    ensures Sorted(le, Insert(le, x, s))
  {
    var r := Insert(le, x, s);
    if s == [] {
    } else if le(x, s[0]) {
      forall i, j | 0 <= i < j < |r| ensures le(r[i], r[j]) {
        assert r[j] == s[j - 1];
        if i == 0 { assert j - 1 == 0 || le(s[0], s[j - 1]); }
      }
    } else {
      InsertSorted(le, x, s[1..]);
      InsertPermutes(le, x, s[1..]);
      var t := Insert(le, x, s[1..]);
      forall j | 0 <= j < |t| ensures le(s[0], t[j]) {
        assert t[j] in multiset(t);
        if t[j] != x {
          assert t[j] in s[1..];
        }
      }
    }
  }

  lemma {:induction false} SortPermutes<T(!new)>(le: (T, T) -> bool, s: seq<T>)
    ensures multiset(Sort(le, s)) == multiset(s)
  {
    if s != [] {
      SortPermutes(le, s[1..]);
      InsertPermutes(le, s[0], Sort(le, s[1..]));
      assert [s[0]] + s[1..] == s;
    }
  }

  lemma {:induction false} SortSorted<T(!new)>(le: (T, T) -> bool, s: seq<T>)
    requires TotalPreorder(le)
    ensures Sorted(le, Sort(le, s))
  {
    if s != [] {
      SortSorted(le, s[1..]);
      InsertSorted(le, s[0], Sort(le, s[1..]));
    }
  }

  lemma {:induction false} SortIdentity<T(!new)>(le: (T, T) -> bool, s: seq<T>)
    requires Sorted(le, s)
    ensures Sort(le, s) == s
  {
    if s != [] {
      SortIdentity(le, s[1..]);
      assert [s[0]] + s[1..] == s;
      if |s| > 1 {
        assert le(s[0], s[1]) && s[1..][0] == s[1];
      }
    }
  }

  lemma MultisetMember<T>(s: seq<T>, t: seq<T>)
    requires multiset(s) == multiset(t)
    ensures |s| == |t|
    ensures forall x :: x in s <==> x in t
  {
    assert |multiset(s)| == |s| && |multiset(t)| == |t|;
    forall x ensures x in s <==> x in t {
      assert x in s <==> x in multiset(s);
      assert x in t <==> x in multiset(t);
    }
  }

  lemma TailBag<T>(s: seq<T>)
    requires s != []
    ensures multiset(s[1..]) == multiset(s) - multiset{s[0]} && s == [s[0]] + s[1..]
  {
    assert s == [s[0]] + s[1..];
  }

  lemma SameHead<T(!new)>(le: (T, T) -> bool, s: seq<T>, t: seq<T>)
    requires TotalPreorder(le) && AntisymmetricOn(le, s) && Sorted(le, s) && Sorted(le, t)
    requires s != [] && t != [] && s[0] in t && t[0] in s
    ensures s[0] == t[0]
  {}

  /** Two sorted arrangements of the same elements coincide when no two of them tie. */
  lemma {:induction false} SortedUnique<T(!new)>(le: (T, T) -> bool, s: seq<T>, t: seq<T>)
    requires TotalPreorder(le) && AntisymmetricOn(le, s)
    requires Sorted(le, s) && Sorted(le, t) && multiset(s) == multiset(t)
    ensures s == t
  {
    MultisetMember(s, t);
    if s != [] {
      assert s[0] in t && t[0] in s;
      assert t != [];
      SameHead(le, s, t);
      TailBag(s);
      TailBag(t);
      SortedUnique(le, s[1..], t[1..]);
    }
  }

  function Swapped<T>(s: seq<T>, i: nat, j: nat): (r: seq<T>)
    requires i < j < |s|
    ensures |r| == |s| && r[i] == s[j] && r[j] == s[i]
    ensures forall k :: 0 <= k < |s| && k != i && k != j ==> r[k] == s[k]
  {
    s[i := s[j]][j := s[i]]
  }

  lemma SwappedPermutes<T>(s: seq<T>, i: nat, j: nat)
    requires i < j < |s|
    ensures multiset(Swapped(s, i, j)) == multiset(s)
  {}

  // ---------------------------------------------------------------- sets in order

  ghost function Listing<T(!new)>(s: set<T>): (r: seq<T>)
    ensures |r| == |s|
  {
    if s == {} then [] else var x :| x in s; [x] + Listing(s - {x})
  }

  lemma {:induction false} ListingMembers<T(!new)>(s: set<T>)
    ensures multiset(Listing(s)) == multiset(s)
  {
    if s != {} {
      var r := Listing(s);
      var x := r[0];
      assert x in s && r == [x] + Listing(s - {x}) by { ListingHead(s); }
      ListingMembers(s - {x});
      assert multiset(s) == multiset{x} + multiset(s - {x});
    }
  }

  lemma ListingHead<T(!new)>(s: set<T>)
    requires s != {}
    ensures Listing(s)[0] in s && Listing(s) == [Listing(s)[0]] + Listing(s - {Listing(s)[0]})
  {
    var x :| x in s && Listing(s) == [x] + Listing(s - {x});
  }

  /** The elements of a set in increasing order. */
  ghost function InOrder<T(!new)>(le: (T, T) -> bool, s: set<T>): (r: seq<T>)
    ensures |r| == |s|
  {
    Sort(le, Listing(s))
  }

  lemma InOrderProperties<T(!new)>(le: (T, T) -> bool, s: set<T>)
    requires TotalPreorder(le)
    ensures Sorted(le, InOrder(le, s))
    ensures multiset(InOrder(le, s)) == multiset(s)
    ensures forall x :: x in InOrder(le, s) <==> x in s
    ensures Distinct(InOrder(le, s))
  {
    var r := InOrder(le, s);
    ListingMembers(s);
    SortSorted(le, Listing(s));
    SortPermutes(le, Listing(s));
    forall x ensures x in r <==> x in s {
      assert x in r <==> x in multiset(r);
    }
    forall i, j | 0 <= i < j < |r| ensures r[i] != r[j] {
      if r[i] == r[j] {
        DuplicateCount(r, i, j);
        assert false;
      }
    }
  }

  lemma DuplicateCount<T>(s: seq<T>, i: nat, j: nat)
    requires i < j < |s| && s[i] == s[j]
    ensures multiset(s)[s[i]] >= 2
  {
    assert s == s[..i] + [s[i]] + s[i + 1..j] + [s[j]] + s[j + 1..];
  }

  ghost function Members<T(!new)>(t: seq<T>): set<T> {
    set x | x in t
  }

  lemma {:induction false} DistinctMembers<T(!new)>(t: seq<T>)
    requires Distinct(t)
    ensures multiset(t) == multiset(Members(t))
  {
    if t == [] {
      assert Members(t) == {};
    } else {
      var rest := t[1..];
      assert t == [t[0]] + rest;
      assert t[0] !in rest;
      assert Members(t) == {t[0]} + Members(rest);
      DistinctMembers(rest);
    }
  }

  /** Sorting any duplicate-free enumeration of a set gives its elements in order. */
  lemma SortedEnumeration<T(!new)>(le: (T, T) -> bool, list: seq<T>, s: set<T>)
    requires TotalOrder(le) && Distinct(list) && forall x :: x in list <==> x in s
    ensures Sort(le, list) == InOrder(le, s)
  {
    SortSorted(le, list);
    SortPermutes(le, list);
    DistinctMembers(list);
    assert Members(list) == s;
    InOrderProperties(le, s);
    SortedUnique(le, Sort(le, list), InOrder(le, s));
  }

  /** Walks a set in some order. */
  method Enumerate<T(==, !new)>(s: set<T>) returns (list: seq<T>)
    ensures Distinct(list) && forall x :: x in list <==> x in s
  {
    list := [];
    var left := s;
    while left != {}
      invariant left <= s && Distinct(list) && forall x :: x in list <==> x in s - left
      decreases |left|
    {
      var x :| x in left;
      assert x !in list;
      list := list + [x];
      left := left - {x};
    }
  }

  // ---------------------------------------------------------------- sequences

  lemma Assoc<T>(a: seq<T>, b: seq<T>, c: seq<T>)
    ensures a + b + c == a + (b + c)
  {}

  lemma Take<T>(l: seq<T>, i: nat)
    requires i < |l|
    ensures l[..i + 1] == l[..i] + [l[i]]
  {}

  lemma TakeAfter<T>(a: seq<T>, l: seq<T>, i: nat)
    requires i < |l|
    ensures a + l[..i + 1] == a + l[..i] + [l[i]]
  {}

  lemma TakeNothing<T>(a: seq<T>, l: seq<T>)
    ensures l[..0] == [] && a + l[..0] == a && a + [] == a
  {}

  lemma TakeAll<T>(l: seq<T>)
    ensures l[..|l|] == l
  {}

  // ---------------------------------------------------------------- mapping

  function Map<T, U>(f: T -> U, s: seq<T>): (r: seq<U>)
    ensures |r| == |s|
    ensures forall i :: 0 <= i < |s| ==> r[i] == f(s[i])
  {
    seq(|s|, i requires 0 <= i < |s| => f(s[i]))
  }

  lemma MapRemove<T, U>(f: T -> U, t: seq<T>, k: nat)
    requires k < |t|
    ensures multiset(Map(f, t)) == multiset{f(t[k])} + multiset(Map(f, t[..k] + t[k + 1..]))
  {
    assert Map(f, t) == Map(f, t[..k]) + [f(t[k])] + Map(f, t[k + 1..]);
    assert Map(f, t[..k] + t[k + 1..]) == Map(f, t[..k]) + Map(f, t[k + 1..]);
  }

  lemma MapHead<T, U>(f: T -> U, t: seq<T>)
    requires t != []
    ensures multiset(Map(f, t)) == multiset{f(t[0])} + multiset(Map(f, t[1..]))
  {
    assert Map(f, t) == [f(t[0])] + Map(f, t[1..]);
  }

  lemma FindImage<T(!new), U(!new)>(f: T -> U, s: seq<T>, t: seq<T>) returns (k: nat)
    requires s != [] && multiset(Map(f, s)) == multiset(Map(f, t))
    ensures k < |t| && f(t[k]) == f(s[0])
    ensures multiset(Map(f, s[1..])) == multiset(Map(f, t[..k] + t[k + 1..]))
  {
    MultisetMember(Map(f, s), Map(f, t));
    assert Map(f, s)[0] in Map(f, t);
    k :| 0 <= k < |t| && Map(f, t)[k] == Map(f, s)[0];
    MapHead(f, s);
    MapRemove(f, t, k);
    Cancel(multiset{f(s[0])}, multiset(Map(f, s[1..])), multiset(Map(f, t[..k] + t[k + 1..])));
  }

  lemma Cancel<T>(a: multiset<T>, x: multiset<T>, y: multiset<T>)
    requires a + x == a + y
    ensures x == y
  {
    assert x == (a + x) - a && y == (a + y) - a;
  }

  /** Equal images as bags stay equal under any function that respects the image. */
  lemma {:induction false} MapThrough<T(!new), U(!new), V(!new)>(f: T -> U, g: T -> V, s: seq<T>, t: seq<T>)
    requires forall x, y :: f(x) == f(y) ==> g(x) == g(y)
    requires multiset(Map(f, s)) == multiset(Map(f, t))
    ensures multiset(Map(g, s)) == multiset(Map(g, t))
    decreases |s|
  {
    if s == [] {
      assert t == [] by { assert |multiset(Map(f, t))| == |t|; }
    } else {
      var k := FindImage(f, s, t);
      MapThrough(f, g, s[1..], t[..k] + t[k + 1..]);
      MapHead(g, s);
      MapRemove(g, t, k);
    }
  }

  lemma MapPermuted<T(!new), U(!new)>(f: T -> U, s: seq<T>, t: seq<T>)
    requires multiset(s) == multiset(t)
    ensures multiset(Map(f, s)) == multiset(Map(f, t))
  {
    var id := (x: T) => x;
    assert Map(id, s) == s && Map(id, t) == t;
    MapThrough(id, f, s, t);
  }
}
