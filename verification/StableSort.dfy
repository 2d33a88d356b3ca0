/** Python's `sorted`: the stable sort by a total preorder. */
module StableSort {
  import opened Sequences

  ghost predicate TotalPreorder<T(!new)>(le: (T, T) -> bool) {
    && (forall x, y :: le(x, y) || le(y, x))
    && (forall x, y, z :: le(x, y) && le(y, z) ==> le(x, z))
  }

  function Insert<T>(le: (T, T) -> bool, x: T, xs: seq<T>): seq<T> {
    if xs == [] then [x]
    else if le(x, xs[0]) then [x] + xs
    else [xs[0]] + Insert(le, x, xs[1..])
  }

  function Sort<T>(le: (T, T) -> bool, xs: seq<T>): seq<T> {
    if xs == [] then [] else Insert(le, xs[0], Sort(le, xs[1..]))
  }

  ghost predicate Sorted<T>(le: (T, T) -> bool, xs: seq<T>) {
    forall i, j | 0 <= i < j < |xs| :: le(xs[i], xs[j])
  }

  lemma {:induction false} InsertKeepsElements<T>(le: (T, T) -> bool, x: T, xs: seq<T>)
    ensures multiset(Insert(le, x, xs)) == multiset{x} + multiset(xs)
  {
    if xs != [] {
      assert xs == [xs[0]] + xs[1..];
      if !le(x, xs[0]) { InsertKeepsElements(le, x, xs[1..]); }
    }
  }

  lemma {:induction false} SortKeepsElements<T>(le: (T, T) -> bool, xs: seq<T>)
    ensures multiset(Sort(le, xs)) == multiset(xs)
  {
    if xs != [] {
      assert xs == [xs[0]] + xs[1..];
      SortKeepsElements(le, xs[1..]);
      InsertKeepsElements(le, xs[0], Sort(le, xs[1..]));
    }
  }

  lemma SortMember<T>(le: (T, T) -> bool, xs: seq<T>, x: T)
    ensures x in Sort(le, xs) <==> x in xs
  {
    SortKeepsElements(le, xs);
    assert x in Sort(le, xs) <==> x in multiset(Sort(le, xs));
  }

  lemma {:induction false} InsertSorts<T(!new)>(le: (T, T) -> bool, x: T, xs: seq<T>)
    requires TotalPreorder(le) && Sorted(le, xs)
    ensures Sorted(le, Insert(le, x, xs))
  {
    if xs != [] {
      if le(x, xs[0]) {
        assert forall j | 0 <= j < |xs| :: le(x, xs[j]);
      } else {
        var rest := Insert(le, x, xs[1..]);
        InsertSorts(le, x, xs[1..]);
        InsertKeepsElements(le, x, xs[1..]);
        forall y | y in rest ensures le(xs[0], y) {
          assert y in multiset(rest);
          assert y == x || y in xs[1..];
        }
      }
    }
  }

  lemma {:induction false} SortSorts<T(!new)>(le: (T, T) -> bool, xs: seq<T>)
    requires TotalPreorder(le)
    ensures Sorted(le, Sort(le, xs))
  {
    if xs != [] {
      SortSorts(le, xs[1..]);
      InsertSorts(le, xs[0], Sort(le, xs[1..]));
    }
  }

  // ---- Stability ----

  function Keep<T>(p: T -> bool, xs: seq<T>): seq<T> {
    if xs == [] then [] else (if p(xs[0]) then [xs[0]] else []) + Keep(p, xs[1..])
  }

  /** The two heads are kept in either order, because at most one of them is kept. */
  lemma KeepSwap<T>(p: T -> bool, x: T, y: T, kept: seq<T>)
    requires !p(x) || !p(y)
    ensures var a, b := if p(x) then [x] else [], if p(y) then [y] else []; b + (a + kept) == a + (b + kept)
  {
    Associative(if p(x) then [x] else [], if p(y) then [y] else [], kept);
    Associative(if p(y) then [y] else [], if p(x) then [x] else [], kept);
  }

  lemma {:induction false} InsertIsStable<T>(le: (T, T) -> bool, p: T -> bool, x: T, xs: seq<T>)
    requires p(x) ==> forall y <- xs :: p(y) ==> le(x, y)
    ensures Keep(p, Insert(le, x, xs)) == (if p(x) then [x] else []) + Keep(p, xs)
  {
    if xs == [] {
      assert [x][1..] == [];
    } else if le(x, xs[0]) {
    } else {
      assert xs[0] in xs && forall y <- xs[1..] :: y in xs;
      InsertIsStable(le, p, x, xs[1..]);
      KeepSwap(p, x, xs[0], Keep(p, xs[1..]));
    }
  }

  /** Elements that compare equal to each other keep their order. */
  lemma {:induction false} SortIsStable<T>(le: (T, T) -> bool, p: T -> bool, xs: seq<T>)
    requires forall x, y | x in xs && y in xs :: p(x) && p(y) ==> le(x, y)
    ensures Keep(p, Sort(le, xs)) == Keep(p, xs)
  {
    if xs != [] {
      assert xs[0] in xs;
      SortIsStable(le, p, xs[1..]);
      var tail := Sort(le, xs[1..]);
      forall y | y in tail ensures y in xs {
        SortMember(le, xs[1..], y);
      }
      InsertIsStable(le, p, xs[0], Sort(le, xs[1..]));
    }
  }

  /** `a` stands before `b`. */
  ghost predicate Before<T>(xs: seq<T>, a: T, b: T) {
    exists i, j :: 0 <= i < j < |xs| && xs[i] == a && xs[j] == b
  }

  lemma {:induction false} KeepMembers<T>(p: T -> bool, xs: seq<T>, x: T)
    ensures x in Keep(p, xs) <==> x in xs && p(x)
  {
    if xs != [] {
      KeepMembers(p, xs[1..], x);
      assert x in xs <==> x == xs[0] || x in xs[1..];
    }
  }

  lemma BeforeCons<T>(x: T, xs: seq<T>, a: T, b: T)
    ensures Before([x] + xs, a, b) <==> (x == a && b in xs) || Before(xs, a, b)
  {
    var ys := [x] + xs;
    if Before(ys, a, b) {
      var i, j :| 0 <= i < j < |ys| && ys[i] == a && ys[j] == b;
      assert ys[j] == xs[j - 1];
      if i > 0 { assert xs[i - 1] == a && xs[j - 1] == b; }
    }
    if x == a && b in xs {
      var j :| 0 <= j < |xs| && xs[j] == b;
      assert ys[0] == a && ys[j + 1] == b;
    }
    if Before(xs, a, b) {
      var i, j :| 0 <= i < j < |xs| && xs[i] == a && xs[j] == b;
      assert ys[i + 1] == a && ys[j + 1] == b;
    }
  }

  lemma {:induction false} KeepBefore<T>(p: T -> bool, xs: seq<T>, a: T, b: T)
    requires p(a) && p(b)
    ensures Before(Keep(p, xs), a, b) <==> Before(xs, a, b)
  {
    if xs != [] {
      KeepBefore(p, xs[1..], a, b);
      KeepMembers(p, xs[1..], b);
      BeforeCons(xs[0], xs[1..], a, b);
      assert xs == [xs[0]] + xs[1..];
      if p(xs[0]) {
        BeforeCons(xs[0], Keep(p, xs[1..]), a, b);
      } else {
        assert [] + Keep(p, xs[1..]) == Keep(p, xs[1..]);
      }
    }
  }

  // ---- Uniqueness ----

  /** Without ties the sorted order is determined by the elements alone. */
  lemma {:induction false} SortedIsUnique<T(!new)>(le: (T, T) -> bool, a: seq<T>, b: seq<T>)
    requires TotalPreorder(le) && Sorted(le, a) && Sorted(le, b) && multiset(a) == multiset(b)
    requires forall x, y | x in a && y in a :: le(x, y) && le(y, x) ==> x == y
    ensures a == b
  {
    assert |multiset(a)| == |multiset(b)|;
    if a != [] {
      assert a[0] in multiset(b) && b[0] in multiset(a);
      SortedHead(le, a, b[0]);
      SortedHead(le, b, a[0]);
      TailElements(a, b);
      assert forall x | x in a[1..] :: x in a;
      SortedIsUnique(le, a[1..], b[1..]);
    }
  }

  lemma TailElements<T>(a: seq<T>, b: seq<T>)
    requires a != [] && b != [] && a[0] == b[0] && multiset(a) == multiset(b)
    ensures multiset(a[1..]) == multiset(b[1..])
  {
    assert a == [a[0]] + a[1..] && b == [b[0]] + b[1..];
    assert multiset(a[1..]) == multiset(a) - multiset{a[0]} == multiset(b[1..]);
  }

  lemma SortedHead<T(!new)>(le: (T, T) -> bool, xs: seq<T>, x: T)
    requires TotalPreorder(le) && Sorted(le, xs) && x in xs
    ensures le(xs[0], x)
  {
  }

  /** A sequence without repetitions is determined, up to order, by its set of elements. */
  lemma {:induction false} DistinctElements<T>(xs: seq<T>, ys: seq<T>)
    requires forall i, j | 0 <= i < j < |xs| :: xs[i] != xs[j]
    requires forall i, j | 0 <= i < j < |ys| :: ys[i] != ys[j]
    requires forall x :: x in xs <==> x in ys
    ensures multiset(xs) == multiset(ys)
  {
    forall x ensures multiset(xs)[x] == multiset(ys)[x] {
      CountDistinct(xs, x);
      CountDistinct(ys, x);
    }
  }

  lemma {:induction false} CountDistinct<T>(xs: seq<T>, x: T)
    requires forall i, j | 0 <= i < j < |xs| :: xs[i] != xs[j]
    ensures multiset(xs)[x] == if x in xs then 1 else 0
  {
    if xs != [] {
      assert xs == [xs[0]] + xs[1..];
      CountDistinct(xs[1..], x);
    }
  }

  // ---- Mapping ----

  function Map<T, U>(f: T -> U, xs: seq<T>): (ys: seq<U>)
    ensures |ys| == |xs| && forall i | 0 <= i < |xs| :: ys[i] == f(xs[i])
  {
    if xs == [] then [] else [f(xs[0])] + Map(f, xs[1..])
  }

  function Without<T>(xs: seq<T>, k: nat): seq<T>
    requires k < |xs|
  {
    xs[..k] + xs[k + 1..]
  }

  lemma WithoutElements<T>(xs: seq<T>, k: nat)
    requires k < |xs|
    ensures multiset(xs) == multiset{xs[k]} + multiset(Without(xs, k))
  {
    assert xs == xs[..k] + [xs[k]] + xs[k + 1..];
  }

  /** Mapping commutes with reordering. */
  lemma {:induction false} MapPermutes<T, U>(f: T -> U, xs: seq<T>, ys: seq<T>)
    requires multiset(xs) == multiset(ys)
    ensures multiset(Map(f, xs)) == multiset(Map(f, ys))
  {
    assert |multiset(xs)| == |multiset(ys)|;
    if xs != [] {
      assert xs[0] in multiset(ys);
      var k :| 0 <= k < |ys| && ys[k] == xs[0];
      WithoutElements(xs, 0);
      WithoutElements(ys, k);
      assert multiset(Without(xs, 0)) == multiset(xs) - multiset{xs[0]} == multiset(Without(ys, k));
      MapPermutes(f, Without(xs, 0), Without(ys, k));
      MapWithout(f, xs, 0);
      MapWithout(f, ys, k);
      WithoutElements(Map(f, xs), 0);
      WithoutElements(Map(f, ys), k);
    }
  }

  lemma WithoutAt<T>(xs: seq<T>, k: nat, i: nat)
    requires k < |xs| && i < |xs| - 1
    ensures Without(xs, k)[i] == xs[if i < k then i else i + 1]
  {
  }

  lemma MapWithout<T, U>(f: T -> U, xs: seq<T>, k: nat)
    requires k < |xs|
    ensures Without(Map(f, xs), k) == Map(f, Without(xs, k))
  {
    forall i | 0 <= i < |xs| - 1 ensures Without(Map(f, xs), k)[i] == Map(f, Without(xs, k))[i] {
      WithoutAt(xs, k, i);
      WithoutAt(Map(f, xs), k, i);
    }
    assert |Without(Map(f, xs), k)| == |Map(f, Without(xs, k))|;
  }
}
