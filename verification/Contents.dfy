/** What a loop over a slice gathers, and why the order of the slice does not
    change the contents of what it gathered. */
module Contents {

  datatype Option<+T> = None | Some(value: T)

  datatype Result<+T> = Ok(value: T) | Err

  /** The values f finds in s, in order: the effect of a loop that appends f(x)
      whenever it is present. Grows at the end, as such a loop does. */
  function Collect<T, U>(f: T -> Option<U>, s: seq<T>): (r: seq<U>)
    ensures |r| <= |s|
  {
    if s == [] then []
    else
      var before := Collect(f, s[..|s| - 1]);
      match f(s[|s| - 1])
      case None => before
      case Some(u) => before + [u]
  }

  /** One more turn of the loop. */
  lemma CollectStep<T, U>(f: T -> Option<U>, s: seq<T>, x: T)
    ensures Collect(f, s + [x]) == Collect(f, s) + (if f(x).Some? then [f(x).value] else [])
  {
  }

  lemma {:induction false} CollectConcat<T, U>(f: T -> Option<U>, a: seq<T>, b: seq<T>)
    ensures Collect(f, a + b) == Collect(f, a) + Collect(f, b)
    decreases |b|
  {
    if b == [] {
      assert a + b == a;
    } else {
      var n := |b| - 1;
      CollectConcat(f, a, b[..n]);
      assert a + b == (a + b[..n]) + [b[n]];
      CollectStep(f, a + b[..n], b[n]);
      assert b == b[..n] + [b[n]];
      CollectStep(f, b[..n], b[n]);
    }
  }

  /** Where a rearranged slice keeps a's last element, and that the rest of it
      rearranges the rest of a. */
  lemma FindLast<T>(a: seq<T>, b: seq<T>) returns (i: nat)
    requires multiset(a) == multiset(b) && a != []
    ensures i < |b| && b[i] == a[|a| - 1] && b == (b[..i] + [b[i]]) + b[i + 1..]
    ensures multiset(a[..|a| - 1]) == multiset(b[..i] + b[i + 1..])
  {
    var n := |a| - 1;
    assert a == a[..n] + [a[n]];
    assert a[n] in multiset(b);
    i :| 0 <= i < |b| && b[i] == a[n];
    assert b == (b[..i] + [b[i]]) + b[i + 1..];
    assert multiset(b[..i] + b[i + 1..]) == multiset(b) - multiset{b[i]};
  }

  /** What is gathered from a rearranged slice is a rearrangement. */
  lemma {:induction false} CollectContents<T, U>(f: T -> Option<U>, a: seq<T>, b: seq<T>)
    requires multiset(a) == multiset(b)
    ensures multiset(Collect(f, a)) == multiset(Collect(f, b))
    ensures |Collect(f, a)| == |Collect(f, b)|
    decreases |a|
  {
    assert |multiset(a)| == |a| && |multiset(b)| == |b|;
    if a != [] {
      var i := FindLast(a, b);
      CollectContents(f, a[..|a| - 1], b[..i] + b[i + 1..]);
      CollectConcat(f, b[..i], b[i + 1..]);
      CollectConcat(f, b[..i] + [b[i]], b[i + 1..]);
      CollectStep(f, b[..i], b[i]);
    }
    assert |multiset(Collect(f, a))| == |multiset(Collect(f, b))|;
  }

  /** A value is gathered exactly when some element yields it. */
  lemma {:induction false} CollectMembers<T, U>(f: T -> Option<U>, s: seq<T>)
    ensures forall u :: u in Collect(f, s) <==> exists x | x in s :: f(x) == Some(u)
    decreases |s|
  {
    if s != [] {
      var n := |s| - 1;
      assert s == s[..n] + [s[n]];
      CollectMembers(f, s[..n]);
      CollectStep(f, s[..n], s[n]);
      forall u ensures u in Collect(f, s) <==> exists x | x in s :: f(x) == Some(u) {
        if x :| x in s && f(x) == Some(u) && x !in s[..n] {
          assert x == s[n];
        }
      }
    }
  }

  /** A rule that takes everything takes it in place. */
  lemma {:induction false} CollectAll<T, U>(f: T -> Option<U>, s: seq<T>)
    requires forall x | x in s :: f(x).Some?
    ensures |Collect(f, s)| == |s| && forall i | 0 <= i < |s| :: Collect(f, s)[i] == f(s[i]).value
    decreases |s|
  {
    if s != [] {
      var n := |s| - 1;
      assert s[n] in s && forall x | x in s[..n] :: x in s;
      CollectAll(f, s[..n]);
    }
  }

  /** How many elements a predicate holds of. */
  ghost function Count<T(!new)>(p: T -> bool, s: seq<T>): nat { |set i | 0 <= i < |s| && p(s[i])| }

  lemma CountStep<T(!new)>(p: T -> bool, s: seq<T>, x: T)
    ensures Count(p, s + [x]) == Count(p, s) + if p(x) then 1 else 0
  {
    var was, now := set i | 0 <= i < |s| && p(s[i]), set i | 0 <= i < |s + [x]| && p((s + [x])[i]);
    assert now == was + if p(x) then {|s|} else {};
  }

  /** A loop gathers as many values as it finds elements for. */
  lemma {:induction false} CollectCount<T(!new), U(!new)>(f: T -> Option<U>, p: T -> bool, s: seq<T>)
    requires forall x | x in s :: f(x).Some? == p(x)
    ensures |Collect(f, s)| == Count(p, s)
    decreases |s|
  {
    if s != [] {
      var n := |s| - 1;
      assert s == s[..n] + [s[n]] && s[n] in s && forall x | x in s[..n] :: x in s;
      CollectCount(f, p, s[..n]);
      CountStep(p, s[..n], s[n]);
    }
  }

  /** Gathering from what was gathered is gathering once. */
  lemma {:induction false} CollectThrough<T, U, V>(f: U -> Option<V>, g: T -> Option<U>, h: T -> Option<V>, s: seq<T>)
    requires forall x | x in s :: h(x) == match g(x) case None => None case Some(u) => f(u)
    ensures Collect(f, Collect(g, s)) == Collect(h, s)
    decreases |s|
  {
    if s != [] {
      hide Collect;
      var front, x := s[..|s| - 1], s[|s| - 1];
      assert s == front + [x] && x in s && forall y | y in front :: y in s;
      CollectThrough(f, g, h, front);
      CollectStep(g, front, x);
      CollectStep(h, front, x);
      match g(x)
      case None => assert Collect(g, front) + [] == Collect(g, front);
      case Some(u) => CollectStep(f, Collect(g, front), u);
    }
  }

  /** Two rules that agree on the elements gather the same. */
  lemma {:induction false} CollectAlike<T, U>(f: T -> Option<U>, g: T -> Option<U>, s: seq<T>)
    requires forall x | x in s :: f(x) == g(x)
    ensures Collect(f, s) == Collect(g, s)
    decreases |s|
  {
    if s != [] {
      var n := |s| - 1;
      assert s[n] in s && forall x | x in s[..n] :: x in s;
      CollectAlike(f, g, s[..n]);
    }
  }

  /** Selects the elements a predicate holds of. */
  function Where<T>(p: T -> bool): T -> Option<T> {
    (x: T) => if p(x) then Some(x) else None
  }

  /** None is counted exactly when the predicate holds of no element. */
  lemma CountNone<T(!new)>(p: T -> bool, s: seq<T>)
    ensures Count(p, s) == 0 <==> forall x | x in s :: !p(x)
  {
    var at := set i | 0 <= i < |s| && p(s[i]);
    if Count(p, s) == 0 {
      forall x | x in s ensures !p(x) {
        var i :| 0 <= i < |s| && s[i] == x;
        assert i !in at;
      }
    } else {
      assert at != {};
      var i :| i in at;
      assert s[i] in s;
    }
  }

  /** Naming each member of a set once. */
  lemma {:induction false} Enumeration<T>(names: seq<T>, members: set<T>)
    requires (forall x :: x in names <==> x in members) && forall i, j | 0 <= i < j < |names| :: names[i] != names[j]
    ensures multiset(names) == multiset(members)
    decreases |names|
  {
    if names == [] {
      assert members == {};
    } else {
      var n := |names| - 1;
      assert names == names[..n] + [names[n]];
      assert names[n] !in names[..n] && names[n] in members;
      Enumeration(names[..n], members - {names[n]});
      assert members == (members - {names[n]}) + {names[n]};
    }
  }

  function Repeated<T>(x: T, n: nat): (s: seq<T>)
    ensures |s| == n && forall i | 0 <= i < n :: s[i] == x
  {
    if n == 0 then [] else Repeated(x, n - 1) + [x]
  }

  /** Selects the elements with a given key. */
  function Having<T, K(==)>(key: T -> K, k: K): T -> Option<T> {
    x => if key(x) == k then Some(x) else None
  }

  /** The elements of one group, in order. */
  function Members<T, K(==)>(key: T -> K, k: K, s: seq<T>): seq<T> {
    Collect(Having(key, k), s)
  }

  lemma MembersStep<T, K>(key: T -> K, k: K, s: seq<T>, x: T)
    ensures Members(key, k, s + [x]) == if key(x) == k then Members(key, k, s) + [x] else Members(key, k, s)
  {
  }

  lemma MembersIn<T, K>(key: T -> K, k: K, s: seq<T>)
    ensures forall x :: x in Members(key, k, s) <==> x in s && key(x) == k
    ensures Members(key, k, s) != [] <==> exists x | x in s :: key(x) == k
  {
    var f := Having(key, k);
    CollectMembers(f, s);
    forall x ensures x in Members(key, k, s) <==> x in s && key(x) == k {
      if x in s && key(x) == k {
        assert f(x) == Some(x);
      }
    }
    if x :| x in s && key(x) == k {
      assert x in Members(key, k, s);
    }
    if Members(key, k, s) != [] {
      assert Members(key, k, s)[0] in Members(key, k, s);
      var y :| y in Members(key, k, s);
      assert y in s && key(y) == k;
    }
  }

  /** The sum of f over the given keys. */
  function SumOver<K>(f: K -> int, ks: seq<K>): int {
    if ks == [] then 0 else SumOver(f, ks[..|ks| - 1]) + f(ks[|ks| - 1])
  }

  /** Grouping loses and repeats nothing: over distinct keys that cover every
      element, the sizes of the groups add up to the whole. */
  lemma {:induction false} PartitionCount<T, K>(key: T -> K, ks: seq<K>, s: seq<T>)
    requires forall i, j | 0 <= i < j < |ks| :: ks[i] != ks[j]
    requires forall x | x in s :: key(x) in ks
    ensures SumOver(k => |Members(key, k, s)|, ks) == |s|
    decreases |s|
  {
    var size := k => |Members(key, k, s)|;
    if s == [] {
      SumZero(size, ks);
    } else {
      var n := |s| - 1;
      var x := s[n];
      var before := k => |Members(key, k, s[..n])|;
      assert s == s[..n] + [x];
      PartitionCount(key, ks, s[..n]);
      forall k ensures size(k) == before(k) + if k == key(x) then 1 else 0 {
        CollectStep(Having(key, k), s[..n], x);
      }
      assert x in s;
      SumBump(before, size, key(x), ks);
    }
  }

  lemma {:induction false} SumConcat<K>(f: K -> int, a: seq<K>, b: seq<K>)
    ensures SumOver(f, a + b) == SumOver(f, a) + SumOver(f, b)
    decreases |b|
  {
    if b == [] {
      assert a + b == a;
    } else {
      SumConcat(f, a, b[..|b| - 1]);
      assert (a + b)[..|a + b| - 1] == a + b[..|b| - 1];
    }
  }

  lemma {:induction false} SumByContents<K>(f: K -> int, a: seq<K>, b: seq<K>)
    requires multiset(a) == multiset(b)
    ensures SumOver(f, a) == SumOver(f, b)
    decreases |a|
  {
    assert |multiset(a)| == |a| && |multiset(b)| == |b|;
    if a != [] {
      var i := FindLast(a, b);
      SumByContents(f, a[..|a| - 1], b[..i] + b[i + 1..]);
      SumConcat(f, b[..i], b[i + 1..]);
      SumConcat(f, b[..i] + [b[i]], b[i + 1..]);
      SumConcat(f, b[..i], [b[i]]);
      assert SumOver(f, [b[i]]) == f(b[i]);
    }
  }

  lemma {:induction false} SumZero<K>(f: K -> int, ks: seq<K>)
    requires forall k :: f(k) == 0
    ensures SumOver(f, ks) == 0
    decreases |ks|
  {
    if ks != [] { SumZero(f, ks[..|ks| - 1]); }
  }

  lemma {:induction false} SumBump<K>(f: K -> int, g: K -> int, at: K, ks: seq<K>)
    requires forall i, j | 0 <= i < j < |ks| :: ks[i] != ks[j]
    requires forall k :: g(k) == f(k) + if k == at then 1 else 0
    ensures SumOver(g, ks) == SumOver(f, ks) + if at in ks then 1 else 0
    decreases |ks|
  {
    if ks != [] {
      var n := |ks| - 1;
      SumBump(f, g, at, ks[..n]);
      assert ks == ks[..n] + [ks[n]];
    }
  }

  lemma {:induction false} SumAligned<A, B>(f: A -> int, xs: seq<A>, g: B -> int, ys: seq<B>)
    requires |xs| == |ys| && forall i | 0 <= i < |xs| :: f(xs[i]) == g(ys[i])
    ensures SumOver(f, xs) == SumOver(g, ys)
    decreases |xs|
  {
    if xs != [] {
      SumAligned(f, xs[..|xs| - 1], g, ys[..|ys| - 1]);
    }
  }

  /** The smallest of the gathered ids. */
  function Smallest(ids: seq<int>): (m: int)
    requires ids != []
    ensures m in ids && forall k | k in ids :: m <= k
  {
    var last := ids[|ids| - 1];
    if |ids| == 1 then last
    else
      var m := Smallest(ids[..|ids| - 1]);
      assert forall k | k in ids :: k in ids[..|ids| - 1] || k == last;
      if last < m then last else m
  }

  lemma SmallestStep(ids: seq<int>, x: int)
    ensures Smallest(ids + [x]) == if ids == [] || x < Smallest(ids) then x else Smallest(ids)
  {
  }

  lemma SmallestOfSame(a: seq<int>, b: seq<int>)
    requires a != [] && multiset(a) == multiset(b)
    ensures b != [] && Smallest(a) == Smallest(b)
  {
    assert a[0] in multiset(b);
    assert Smallest(a) in multiset(a) && Smallest(b) in multiset(b);
    assert Smallest(a) in b && Smallest(b) in a;
  }

  lemma {:induction false} SubsetSize<T>(a: set<T>, b: set<T>)
    requires a <= b
    ensures |a| <= |b|
    decreases |a|
  {
    if a != {} {
      var x :| x in a;
      SubsetSize(a - {x}, b - {x});
    }
  }
}
