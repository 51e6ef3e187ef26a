/**
 The sorting used throughout the control plane: a stable sort by a total preorder, and
 the order on strings by character. The one fact the callers rely on is SortUnique:
 where the order has no ties, sorting forgets the order of the input.
 */
module Ordering {

  ghost predicate TotalPreorder<T(!new)>(le: (T, T) -> bool) {
    && (forall a, b :: le(a, b) || le(b, a))
    && (forall a, b, c :: le(a, b) && le(b, c) ==> le(a, c))
  }

  ghost predicate SortedBy<T>(le: (T, T) -> bool, xs: seq<T>) {
    forall i, j | 0 <= i < j < |xs| :: le(xs[i], xs[j])
  }

  /** No two different elements of xs are tied. */
  ghost predicate NoTies<T>(le: (T, T) -> bool, xs: seq<T>) {
    forall a, b | a in xs && b in xs && le(a, b) && le(b, a) :: a == b
  }

  function Insert<T>(le: (T, T) -> bool, x: T, xs: seq<T>): (r: seq<T>)
    ensures multiset(r) == multiset{x} + multiset(xs)
    ensures |r| == |xs| + 1
  {
    if xs == [] || le(x, xs[0]) then [x] + xs
    else
      assert xs == [xs[0]] + xs[1..];
      [xs[0]] + Insert(le, x, xs[1..])
  }

  /** A stable sort: equal elements keep the order they came in. */
  function SortBy<T>(le: (T, T) -> bool, xs: seq<T>): (r: seq<T>)
    ensures multiset(r) == multiset(xs)
    ensures |r| == |xs|
  {
    if xs == [] then []
    else
      assert xs == [xs[0]] + xs[1..];
      Insert(le, xs[0], SortBy(le, xs[1..]))
  }

  lemma SameMembers<T>(xs: seq<T>, ys: seq<T>)
    requires multiset(xs) == multiset(ys)
    ensures |xs| == |ys|
    ensures forall x :: x in xs <==> x in ys
  {
    assert |multiset(xs)| == |multiset(ys)|;
    forall x ensures x in xs <==> x in ys {
      assert x in multiset(xs) <==> x in xs;
      assert x in multiset(ys) <==> x in ys;
    }
  }

  lemma {:induction false} InsertSorted<T(!new)>(le: (T, T) -> bool, x: T, xs: seq<T>)
    requires TotalPreorder(le) && SortedBy(le, xs)
    ensures SortedBy(le, Insert(le, x, xs))
  {
    if xs == [] || le(x, xs[0]) {
    } else {
      var tail := Insert(le, x, xs[1..]);
      InsertSorted(le, x, xs[1..]);
      assert multiset(tail) == multiset([x] + xs[1..]);
      SameMembers(tail, [x] + xs[1..]);
      forall y | y in tail ensures le(xs[0], y) {
        assert y == x || y in xs[1..];
      }
    }
  }

  lemma {:induction false} SortSorted<T(!new)>(le: (T, T) -> bool, xs: seq<T>)
    requires TotalPreorder(le)
    ensures SortedBy(le, SortBy(le, xs))
  {
    if xs != [] {
      SortSorted(le, xs[1..]);
      InsertSorted(le, xs[0], SortBy(le, xs[1..]));
    }
  }

  lemma {:induction false} SortedIsFixed<T>(le: (T, T) -> bool, xs: seq<T>)
    requires SortedBy(le, xs)
    ensures SortBy(le, xs) == xs
  {
    if |xs| > 0 {
      SortedIsFixed(le, xs[1..]);
    }
  }

  lemma TailMembers<T>(xs: seq<T>)
    requires xs != []
    ensures multiset(xs[1..]) == multiset(xs) - multiset{xs[0]}
  {
    assert xs == [xs[0]] + xs[1..];
  }

  lemma HeadsAgree<T>(le: (T, T) -> bool, xs: seq<T>, ys: seq<T>)
    requires SortedBy(le, xs) && SortedBy(le, ys)
    requires multiset(xs) == multiset(ys) && NoTies(le, xs) && xs != []
    ensures |ys| == |xs| && xs[0] == ys[0]
  {
    SameMembers(xs, ys);
    var x, y := xs[0], ys[0];
    assert x in xs && y in ys;
    var i :| 0 <= i < |ys| && ys[i] == x;
    var j :| 0 <= j < |xs| && xs[j] == y;
    assert 0 < j ==> le(x, y);
    assert 0 < i ==> le(y, x);
  }

  lemma {:induction false} SortedUnique<T>(le: (T, T) -> bool, xs: seq<T>, ys: seq<T>)
    requires SortedBy(le, xs) && SortedBy(le, ys)
    requires multiset(xs) == multiset(ys) && NoTies(le, xs)
    ensures xs == ys
  {
    if xs == [] {
      SameMembers(xs, ys);
    } else {
      HeadsAgree(le, xs, ys);
      TailMembers(xs);
      TailMembers(ys);
      SortedUnique(le, xs[1..], ys[1..]);
      assert xs == [xs[0]] + xs[1..] && ys == [ys[0]] + ys[1..];
    }
  }

  /** Sorting without ties depends only on which elements there are. */
  lemma SortUnique<T(!new)>(le: (T, T) -> bool, xs: seq<T>, ys: seq<T>)
    requires TotalPreorder(le)
    requires multiset(xs) == multiset(ys) && NoTies(le, xs)
    ensures SortBy(le, xs) == SortBy(le, ys)
  {
    SortSorted(le, xs);
    SortSorted(le, ys);
    SameMembers(xs, SortBy(le, xs));
    SortedUnique(le, SortBy(le, xs), SortBy(le, ys));
  }

  function Reversed<T>(xs: seq<T>): (r: seq<T>)
    ensures |r| == |xs| && forall i | 0 <= i < |xs| :: r[i] == xs[|xs| - 1 - i]
    ensures multiset(r) == multiset(xs)
  {
    if xs == [] then []
    else
      assert xs == [xs[0]] + xs[1..];
      Reversed(xs[1..]) + [xs[0]]
  }

  lemma ReversedCons<T>(x: T, xs: seq<T>)
    ensures Reversed([x] + xs) == Reversed(xs) + [x]
  {
    assert ([x] + xs)[1..] == xs;
  }

  ghost predicate Distinct<T>(xs: seq<T>) {
    forall i, j | 0 <= i < j < |xs| :: xs[i] != xs[j]
  }

  lemma {:induction false} DistinctMultiplicity<T>(xs: seq<T>)
    ensures Distinct(xs) <==> forall x | x in xs :: multiset(xs)[x] == 1
  {
    if xs != [] {
      var x, tail := xs[0], xs[1..];
      assert xs == [x] + tail;
      DistinctMultiplicity(tail);
      forall y | y in tail ensures y in xs {}
      assert Distinct(xs) <==> Distinct(tail) && x !in tail;
      assert forall y | y in tail && y != x :: multiset(xs)[y] == multiset(tail)[y];
      assert multiset(xs)[x] == multiset(tail)[x] + 1;
    }
  }

  lemma SortDistinct<T>(le: (T, T) -> bool, xs: seq<T>)
    requires Distinct(xs)
    ensures Distinct(SortBy(le, xs))
  {
    DistinctMultiplicity(xs);
    DistinctMultiplicity(SortBy(le, xs));
    SameMembers(xs, SortBy(le, xs));
  }

  /** Strings by character, the shorter first when one is a prefix of the other. */
  predicate StringLe(a: string, b: string) {
    a == "" || (b != "" && (a[0] < b[0] || (a[0] == b[0] && StringLe(a[1..], b[1..]))))
  }

  /** Text is compared at the first character where it differs; a beginning comes first. */
  lemma {:induction false} StringLeSays(a: string, b: string)
    ensures StringLe(a, b) <==> a <= b || exists i :: 0 <= i < |a| && i < |b| && a[..i] == b[..i] && a[i] < b[i]
  {
    if a != "" && b != "" {
      StringLeSays(a[1..], b[1..]);
      if i :| 0 <= i < |a| && i < |b| && a[..i] == b[..i] && a[i] < b[i] {
        if i > 0 {
          assert a[0] == a[..i][0] == b[..i][0] == b[0];
          assert a[1..][..i - 1] == a[..i][1..] && b[1..][..i - 1] == b[..i][1..];
          assert a[1..][i - 1] == a[i] && b[1..][i - 1] == b[i];
        }
      }
      if a[0] == b[0] {
        if i :| 0 <= i < |a[1..]| && i < |b[1..]| && a[1..][..i] == b[1..][..i] && a[1..][i] < b[1..][i] {
          assert a[..i + 1] == [a[0]] + a[1..][..i] && b[..i + 1] == [b[0]] + b[1..][..i];
          assert a[i + 1] < b[i + 1];
        }
        assert a == [a[0]] + a[1..] && b == [b[0]] + b[1..];
      } else if a[0] < b[0] {
        assert a[..0] == b[..0];
      }
    }
  }

  lemma {:induction false} StringLeTotal(a: string, b: string)
    ensures StringLe(a, b) || StringLe(b, a)
    ensures StringLe(a, b) && StringLe(b, a) ==> a == b
  {
    if a != "" && b != "" && a[0] == b[0] {
      StringLeTotal(a[1..], b[1..]);
      assert a == [a[0]] + a[1..] && b == [b[0]] + b[1..];
    }
  }

  lemma {:induction false} StringLeTransitive(a: string, b: string, c: string)
    requires StringLe(a, b) && StringLe(b, c)
    ensures StringLe(a, c)
  {
    if a != "" && b != "" && c != "" && a[0] == b[0] == c[0] {
      StringLeTransitive(a[1..], b[1..], c[1..]);
    }
  }

  lemma StringLeOrders()
    ensures TotalPreorder(StringLe)
    ensures forall a, b :: StringLe(a, b) && StringLe(b, a) ==> a == b
  {
    forall a, b ensures StringLe(a, b) || StringLe(b, a)
            ensures StringLe(a, b) && StringLe(b, a) ==> a == b {
      StringLeTotal(a, b);
    }
    forall a, b, c | StringLe(a, b) && StringLe(b, c) ensures StringLe(a, c) {
      StringLeTransitive(a, b, c);
    }
  }

  function Once(xs: seq<string>): (r: seq<string>)
    ensures forall x :: x in r <==> x in xs
    ensures Distinct(r)
  {
    if xs == [] then []
    else
      var rest := Once(xs[1..]);
      if xs[0] in rest then rest else [xs[0]] + rest
  }

  /** The strings of a list, each once and in order. */
  function SortedSet(xs: seq<string>): seq<string> {
    SortBy(StringLe, Once(xs))
  }

  lemma SortedSetIs(xs: seq<string>)
    ensures forall x :: x in SortedSet(xs) <==> x in xs
    ensures Distinct(SortedSet(xs)) && SortedBy(StringLe, SortedSet(xs))
  {
    StringLeOrders();
    SortSorted(StringLe, Once(xs));
    SortDistinct(StringLe, Once(xs));
    SameMembers(Once(xs), SortedSet(xs));
  }
}
