/** Sorting by an arbitrary total order. The program sorts with the standard
    library everywhere; what matters for its own claims is that a sorted
    arrangement exists and is determined by the contents alone. */
module Sorting {

  /** What a comparison must be for sorting by it to make sense. */
  ghost predicate Preorder<T(!new)>(le: (T, T) -> bool) {
    && (forall x, y :: le(x, y) || le(y, x))
    && (forall x, y, z :: le(x, y) && le(y, z) ==> le(x, z))
  }

  /** A comparison that ties only equal values. */
  ghost predicate TotalOrder<T(!new)>(le: (T, T) -> bool) {
    Preorder(le) && (forall x, y :: le(x, y) && le(y, x) ==> x == y)
  }

  ghost predicate SortedBy<T>(le: (T, T) -> bool, s: seq<T>) {
    forall i, j | 0 <= i < j < |s| :: le(s[i], s[j])
  }

  function Insert<T>(le: (T, T) -> bool, x: T, s: seq<T>): seq<T> {
    if s == [] then [x]
    else if le(x, s[0]) then [x] + s
    else [s[0]] + Insert(le, x, s[1..])
  }

  function Sort<T>(le: (T, T) -> bool, s: seq<T>): seq<T> {
    if s == [] then [] else Insert(le, s[0], Sort(le, s[1..]))
  }

  lemma {:induction false} InsertContents<T>(le: (T, T) -> bool, x: T, s: seq<T>)
    ensures multiset(Insert(le, x, s)) == multiset{x} + multiset(s)
  {
    if s == [] {
    } else if le(x, s[0]) {
    } else {
      InsertContents(le, x, s[1..]);
      assert s == [s[0]] + s[1..];
    }
  }

  lemma {:induction false} InsertSorted<T(!new)>(le: (T, T) -> bool, x: T, s: seq<T>)
    requires Preorder(le) && SortedBy(le, s)
    ensures SortedBy(le, Insert(le, x, s))
  {
    if s == [] {
    } else if le(x, s[0]) {
      assert forall j | 0 < j < |s| :: le(s[0], s[j]);
    } else {
      var rest := Insert(le, x, s[1..]);
      InsertSorted(le, x, s[1..]);
      InsertContents(le, x, s[1..]);
      forall j | 0 <= j < |rest| ensures le(s[0], rest[j]) {
        assert rest[j] in multiset(rest);
        assert rest[j] == x || rest[j] in s[1..];
      }
    }
  }

  /** Sorting only rearranges, and leaves the result in order. */
  lemma {:induction false} SortCorrect<T(!new)>(le: (T, T) -> bool, s: seq<T>)
    requires Preorder(le)
    ensures SortedBy(le, Sort(le, s)) && multiset(Sort(le, s)) == multiset(s)
    ensures |Sort(le, s)| == |s|
  {
    if s != [] {
      SortCorrect(le, s[1..]);
      InsertSorted(le, s[0], Sort(le, s[1..]));
      InsertContents(le, s[0], Sort(le, s[1..]));
      assert s == [s[0]] + s[1..];
    }
    assert |multiset(Sort(le, s))| == |multiset(s)|;
  }

  /** Among the elements of s, le ties only equal ones. */
  ghost predicate Separates<T>(le: (T, T) -> bool, s: seq<T>) {
    forall x, y | x in s && y in s && le(x, y) && le(y, x) :: x == y
  }

  lemma SameLeast<T(!new)>(le: (T, T) -> bool, a: seq<T>, b: seq<T>)
    requires Preorder(le) && Separates(le, a) && SortedBy(le, a) && SortedBy(le, b)
    requires multiset(a) == multiset(b) && a != [] && b != []
    ensures a[0] == b[0]
  {
    assert a[0] in multiset(b) && b[0] in multiset(a);
    var i :| 0 <= i < |b| && b[i] == a[0];
    var j :| 0 <= j < |a| && a[j] == b[0];
    assert le(b[0], b[i]) && le(a[0], a[j]);
  }

  lemma TailContents<T>(a: seq<T>)
    requires a != []
    ensures multiset(a[1..]) == multiset(a) - multiset{a[0]}
  {
    assert a == [a[0]] + a[1..];
  }

  lemma TailSorted<T(!new)>(le: (T, T) -> bool, a: seq<T>)
    requires SortedBy(le, a) && a != []
    ensures SortedBy(le, a[1..])
    ensures Separates(le, a) ==> Separates(le, a[1..])
  {
    assert forall x | x in a[1..] :: x in a;
  }

  /** Contents determine the sorted arrangement when nothing different ties. */
  lemma {:induction false} SortedUniquely<T(!new)>(le: (T, T) -> bool, a: seq<T>, b: seq<T>)
    requires Preorder(le) && Separates(le, a) && SortedBy(le, a) && SortedBy(le, b)
    requires multiset(a) == multiset(b)
    ensures a == b
    decreases |a|
  {
    hide Preorder, Separates, SortedBy;
    if a != [] {
      SameSize(a, b);
      SameLeast(le, a, b);
      SameTails(a, b);
      TailSorted(le, a);
      TailSorted(le, b);
      SortedUniquely(le, a[1..], b[1..]);
      assert a == [a[0]] + a[1..] && b == [b[0]] + b[1..];
    } else {
      SameSize(a, b);
    }
  }

  lemma SameSize<T>(a: seq<T>, b: seq<T>)
    requires multiset(a) == multiset(b)
    ensures |a| == |b|
  {
    assert |multiset(a)| == |a| && |multiset(b)| == |b|;
  }

  lemma SameTails<T>(a: seq<T>, b: seq<T>)
    requires multiset(a) == multiset(b) && a != [] && b != [] && a[0] == b[0]
    ensures multiset(a[1..]) == multiset(b[1..])
  {
    TailContents(a);
    TailContents(b);
  }

  lemma SortedUnique<T(!new)>(le: (T, T) -> bool, a: seq<T>, b: seq<T>)
    requires TotalOrder(le) && SortedBy(le, a) && SortedBy(le, b)
    requires multiset(a) == multiset(b)
    ensures a == b
  {
    SortedUniquely(le, a, b);
  }

  lemma SortByContents<T(!new)>(le: (T, T) -> bool, a: seq<T>, b: seq<T>)
    requires TotalOrder(le) && multiset(a) == multiset(b)
    ensures Sort(le, a) == Sort(le, b)
  {
    SortCorrect(le, a);
    SortCorrect(le, b);
    SortedUnique(le, Sort(le, a), Sort(le, b));
  }

  /** The members of a finite set, each once, in the given order. */
  ghost function Ascending<T(!new)>(le: (T, T) -> bool, members: set<T>): (s: seq<T>)
    requires TotalOrder(le)
    ensures SortedBy(le, s) && multiset(s) == multiset(members)
    ensures |s| == |members| && forall x :: x in s <==> x in members
    ensures forall i, j | 0 <= i < j < |s| :: s[i] != s[j]
  {
    var s := if members == {} then [] else
               var x :| x in members;
               Insert(le, x, Ascending(le, members - {x}));
    assert SortedBy(le, s) && multiset(s) == multiset(members) by {
      if members != {} {
        var x :| x in members && s == Insert(le, x, Ascending(le, members - {x}));
        InsertSorted(le, x, Ascending(le, members - {x}));
        InsertContents(le, x, Ascending(le, members - {x}));
        assert members == {x} + (members - {x});
      }
    }
    DistinctFromSet(s, members);
    s
  }

  lemma DistinctFromSet<T>(s: seq<T>, members: set<T>)
    requires multiset(s) == multiset(members)
    ensures |s| == |members| && forall x :: x in s <==> x in members
    ensures forall i, j | 0 <= i < j < |s| :: s[i] != s[j]
  {
    assert |multiset(s)| == |s|;
    forall x ensures x in s <==> x in members {
      assert x in s <==> x in multiset(s);
      assert x in members <==> x in multiset(members);
    }
    forall i, j | 0 <= i < j < |s| ensures s[i] != s[j] {
      SplitAtTwo(s, i, j);
    }
  }

  lemma SplitAtTwo<T>(s: seq<T>, i: nat, j: nat)
    requires i < j < |s|
    ensures multiset(s) >= multiset{s[i], s[j]}
  {
    assert s == s[..i] + [s[i]] + s[i + 1..j] + [s[j]] + s[j + 1..];
  }

  lemma AscendingUnique<T(!new)>(le: (T, T) -> bool, members: set<T>, s: seq<T>)
    requires TotalOrder(le) && SortedBy(le, s) && multiset(s) == multiset(members)
    ensures s == Ascending(le, members)
  {
    SortedUnique(le, s, Ascending(le, members));
  }

  // ---- ascending lists of integers ----

  const IntAtMost := (a: int, b: int) => a <= b

  /** ps names each member once, in ascending order. */
  ghost predicate Lists(ps: seq<int>, members: set<int>) {
    SortedBy(IntAtMost, ps) && multiset(ps) == multiset(members)
  }

  lemma ListsAppend(ps: seq<int>, members: set<int>, i: int)
    requires Lists(ps, members) && forall p | p in members :: p < i
    ensures Lists(ps + [i], members + {i})
  {
    DistinctFromSet(ps, members);
    assert forall j | 0 <= j < |ps| :: ps[j] in members;
    assert i !in members;
  }

  lemma ListsDropLast(ps: seq<int>, members: set<int>, i: int)
    requires Lists(ps, members) && i in members && forall p | p in members :: p <= i
    ensures ps != [] && ps[|ps| - 1] == i && Lists(ps[..|ps| - 1], members - {i})
  {
    DistinctFromSet(ps, members);
    LastIsGreatest(ps, i);
    var end := |ps| - 1;
    assert ps == ps[..end] + [i];
    assert multiset(ps[..end]) == multiset(ps) - multiset{i};
    assert multiset(members - {i}) == multiset(members) - multiset{i};
  }

  lemma LastIsGreatest(ps: seq<int>, i: int)
    requires SortedBy(IntAtMost, ps) && i in ps && forall p | p in ps :: p <= i
    ensures ps[|ps| - 1] == i
  {
    var at :| 0 <= at < |ps| && ps[at] == i;
    var end := |ps| - 1;
    assert ps[end] in ps;
    assert at < end ==> IntAtMost(ps[at], ps[end]);
  }

  lemma ListsEmpty(ps: seq<int>)
    requires Lists(ps, {})
    ensures ps == []
  {
    DistinctFromSet(ps, {});
  }
}
