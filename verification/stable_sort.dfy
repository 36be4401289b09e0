/**
 Stable sorting as the standard library's `sort_by` promises it, for any total preorder:
 a definition, the properties that characterise it, and the fact that they determine the result.
 */
module StableSort {

  ghost predicate TotalPreorder<T(!new)>(le: (T, T) -> bool) {
    && (forall x, y :: le(x, y) || le(y, x))
    && (forall x, y, z :: le(x, y) && le(y, z) ==> le(x, z))
  }

  predicate Tied<T>(le: (T, T) -> bool, x: T, y: T) { le(x, y) && le(y, x) }

  ghost predicate Sorted<T>(le: (T, T) -> bool, xs: seq<T>) {
    forall i, j :: 0 <= i < j < |xs| ==> le(xs[i], xs[j])
  }

  function Filter<T(!new)>(keep: T -> bool, xs: seq<T>): seq<T> {
    if xs == [] then []
    else if keep(xs[0]) then [xs[0]] + Filter(keep, xs[1..])
    else Filter(keep, xs[1..])
  }

  lemma {:induction false} FilterMembers<T(!new)>(keep: T -> bool, xs: seq<T>)
    ensures forall y :: y in Filter(keep, xs) <==> y in xs && keep(y)
  {
    if xs == [] {
    } else {
      FilterMembers(keep, xs[1..]);
      assert xs == [xs[0]] + xs[1..];
    }
  }

  function Not<T>(p: T -> bool): T -> bool { x => !p(x) }

  lemma FilterCons<T(!new)>(keep: T -> bool, x: T, xs: seq<T>)
    ensures Filter(keep, [x] + xs) == (if keep(x) then [x] + Filter(keep, xs) else Filter(keep, xs))
  {
    assert ([x] + xs)[1..] == xs;
  }

  function TieWith<T>(le: (T, T) -> bool, x: T): T -> bool { y => Tied(le, x, y) }

  lemma FilterTail<T(!new)>(keep: T -> bool, x: T, a: seq<T>, b: seq<T>)
    requires Filter(keep, [x] + a) == Filter(keep, [x] + b)
    ensures Filter(keep, a) == Filter(keep, b)
  {
    FilterCons(keep, x, a);
    FilterCons(keep, x, b);
    assert ([x] + Filter(keep, a))[1..] == Filter(keep, a);
    assert ([x] + Filter(keep, b))[1..] == Filter(keep, b);
  }

  /** The elements tied with `x`, in the order in which they occur. */
  function TiesOf<T(!new)>(le: (T, T) -> bool, x: T, xs: seq<T>): seq<T> {
    Filter(TieWith(le, x), xs)
  }

  function Insert<T>(le: (T, T) -> bool, x: T, xs: seq<T>): (ys: seq<T>)
    ensures multiset(ys) == multiset([x] + xs)
  {
    if xs == [] then [x]
    else if le(x, xs[0]) then [x] + xs
    else
      assert [x] + xs == [x, xs[0]] + xs[1..];
      [xs[0]] + Insert(le, x, xs[1..])
  }

  function Sort<T>(le: (T, T) -> bool, xs: seq<T>): (ys: seq<T>)
    ensures multiset(ys) == multiset(xs)
  {
    if xs == [] then []
    else
      assert xs == [xs[0]] + xs[1..];
      Insert(le, xs[0], Sort(le, xs[1..]))
  }

  lemma SameElements<T(!new)>(a: seq<T>, b: seq<T>)
    requires multiset(a) == multiset(b)
    ensures |a| == |b| && forall x :: x in a <==> x in b
  {
    assert |multiset(a)| == |multiset(b)|;
    forall x ensures x in a <==> x in b {
      assert x in a <==> x in multiset(a);
      assert x in b <==> x in multiset(b);
    }
  }

  lemma {:induction false} InsertSorted<T(!new)>(le: (T, T) -> bool, x: T, xs: seq<T>)
    requires TotalPreorder(le) && Sorted(le, xs)
    ensures Sorted(le, Insert(le, x, xs))
  {
    if xs != [] && !le(x, xs[0]) {
      InsertSorted(le, x, xs[1..]);
      SameElements(Insert(le, x, xs[1..]), [x] + xs[1..]);
      forall y | y in Insert(le, x, xs[1..]) ensures le(xs[0], y) {
        assert y in [x] + xs[1..];
      }
    }
  }

  lemma {:induction false} SortSorted<T(!new)>(le: (T, T) -> bool, xs: seq<T>)
    requires TotalPreorder(le)
    ensures Sorted(le, Sort(le, xs))
  {
    if xs == [] {
    } else {
      SortSorted(le, xs[1..]);
      InsertSorted(le, xs[0], Sort(le, xs[1..]));
    }
  }

  lemma {:induction false} InsertTies<T(!new)>(le: (T, T) -> bool, x: T, xs: seq<T>, key: T)
    requires TotalPreorder(le)
    ensures TiesOf(le, key, Insert(le, x, xs)) == TiesOf(le, key, [x] + xs)
  {
    if xs == [] {
      assert [x] + xs == [x];
    } else if !le(x, xs[0]) {
      var tied := TieWith(le, key);
      InsertTies(le, x, xs[1..], key);
      FilterCons(tied, xs[0], Insert(le, x, xs[1..]));
      FilterCons(tied, x, xs[1..]);
      FilterCons(tied, x, xs);
      assert !(Tied(le, key, x) && Tied(le, key, xs[0]));
    }
  }

  /** Stability: tied elements keep their order. */
  lemma {:induction false} SortStable<T(!new)>(le: (T, T) -> bool, xs: seq<T>, key: T)
    requires TotalPreorder(le)
    ensures TiesOf(le, key, Sort(le, xs)) == TiesOf(le, key, xs)
  {
    if xs == [] {
    } else {
      SortStable(le, xs[1..], key);
      InsertTies(le, xs[0], Sort(le, xs[1..]), key);
      FilterCons(TieWith(le, key), xs[0], Sort(le, xs[1..]));
    }
  }

  lemma TiesMembers<T(!new)>(le: (T, T) -> bool, x: T, a: seq<T>, b: seq<T>)
    requires TotalPreorder(le) && TiesOf(le, x, a) == TiesOf(le, x, b)
    ensures x in a <==> x in b
  {
    FilterMembers(TieWith(le, x), a);
    FilterMembers(TieWith(le, x), b);
  }

  /** Sorted lists whose classes of tied elements agree in order are equal. */
  lemma {:induction false} SortedUnique<T(!new)>(le: (T, T) -> bool, a: seq<T>, b: seq<T>)
    requires TotalPreorder(le) && Sorted(le, a) && Sorted(le, b)
    requires forall key :: TiesOf(le, key, a) == TiesOf(le, key, b)
    ensures a == b
  {
    if a == [] {
      if b != [] {
        TiesMembers(le, b[0], a, b);
      }
    } else {
      var x := a[0];
      TiesMembers(le, x, a, b);
      var y := b[0];
      TiesMembers(le, y, a, b);
      assert Tied(le, x, y);
      assert TiesOf(le, x, a)[0] == x && TiesOf(le, x, b)[0] == y;
      assert x == y;
      assert a == [x] + a[1..] && b == [x] + b[1..];
      forall key ensures TiesOf(le, key, a[1..]) == TiesOf(le, key, b[1..]) {
        assert TiesOf(le, key, a) == TiesOf(le, key, b);
        FilterTail(TieWith(le, key), x, a[1..], b[1..]);
      }
      SortedUnique(le, a[1..], b[1..]);
    }
  }

  lemma {:induction false} FilterConcat<T(!new)>(keep: T -> bool, a: seq<T>, b: seq<T>)
    ensures Filter(keep, a + b) == Filter(keep, a) + Filter(keep, b)
  {
    if a == [] {
      assert a + b == b;
    } else {
      FilterConcat(keep, a[1..], b);
      FilterCons(keep, a[0], a[1..] + b);
      assert a + b == [a[0]] + (a[1..] + b);
      assert [a[0]] + (Filter(keep, a[1..]) + Filter(keep, b)) == [a[0]] + Filter(keep, a[1..]) + Filter(keep, b);
    }
  }

  /** Filtering twice is the same in either order. */
  lemma {:induction false} FilterFilter<T(!new)>(p: T -> bool, q: T -> bool, xs: seq<T>)
    ensures Filter(p, Filter(q, xs)) == Filter(q, Filter(p, xs))
  {
    if xs == [] {
    } else {
      FilterFilter(p, q, xs[1..]);
      FilterCons(p, xs[0], Filter(q, xs[1..]));
      FilterCons(q, xs[0], Filter(p, xs[1..]));
    }
  }

  lemma {:induction false} FilterSame<T(!new)>(p: T -> bool, q: T -> bool, xs: seq<T>)
    requires forall x :: x in xs ==> p(x) == q(x)
    ensures Filter(p, xs) == Filter(q, xs)
  {
    if xs == [] {
    } else {
      FilterSame(p, q, xs[1..]);
    }
  }

  /** Every kept element is strictly before every dropped one. */
  ghost predicate Separates<T(!new)>(le: (T, T) -> bool, low: T -> bool, xs: seq<T>) {
    forall x, y :: x in xs && y in xs && low(x) && !low(y) ==> le(x, y) && !le(y, x)
  }

  /**
   Sorting what a threshold keeps and what it drops, and joining the two, is sorting everything,
   when each kept element is strictly before each dropped one.
   */
  lemma SortSplit<T(!new)>(le: (T, T) -> bool, low: T -> bool, xs: seq<T>)
    requires TotalPreorder(le) && Separates(le, low, xs)
    ensures Sort(le, xs) == Sort(le, Filter(low, xs)) + Sort(le, Filter(Not(low), xs))
  {
    var a, b := Filter(low, xs), Filter(Not(low), xs);
    SortSorted(le, xs);
    HalvesSorted(le, low, xs);
    forall key ensures TiesOf(le, key, Sort(le, xs)) == TiesOf(le, key, Sort(le, a) + Sort(le, b)) {
      SortStable(le, xs, key);
      SortStable(le, a, key);
      SortStable(le, b, key);
      FilterConcat(TieWith(le, key), Sort(le, a), Sort(le, b));
      TiesSplit(le, low, xs, key);
    }
    SortedUnique(le, Sort(le, xs), Sort(le, a) + Sort(le, b));
  }

  lemma HalvesSorted<T(!new)>(le: (T, T) -> bool, low: T -> bool, xs: seq<T>)
    requires TotalPreorder(le) && Separates(le, low, xs)
    ensures Sorted(le, Sort(le, Filter(low, xs)) + Sort(le, Filter(Not(low), xs)))
  {
    var sa, sb := Sort(le, Filter(low, xs)), Sort(le, Filter(Not(low), xs));
    SortSorted(le, Filter(low, xs));
    SortSorted(le, Filter(Not(low), xs));
    SameElements(sa, Filter(low, xs));
    SameElements(sb, Filter(Not(low), xs));
    FilterMembers(low, xs);
    FilterMembers(Not(low), xs);
    forall i, j | 0 <= i < |sa| && 0 <= j < |sb| ensures le(sa[i], sb[j]) {
      assert sa[i] in sa && sb[j] in sb;
    }
  }

  lemma {:induction false} TiesSplit<T(!new)>(le: (T, T) -> bool, low: T -> bool, xs: seq<T>, key: T)
    requires TotalPreorder(le) && Separates(le, low, xs)
    ensures TiesOf(le, key, xs) == TiesOf(le, key, Filter(low, xs)) + TiesOf(le, key, Filter(Not(low), xs))
  {
    var tied := TieWith(le, key);
    var ties := Filter(tied, xs);
    FilterFilter(tied, low, xs);
    FilterFilter(tied, Not(low), xs);
    FilterMembers(tied, xs);
    if exists x :: x in ties && low(x) {
      FilterAll(low, ties);
      FilterNone(Not(low), ties);
    } else {
      FilterNone(low, ties);
      FilterAll(Not(low), ties);
    }
  }

  lemma {:induction false} FilterAll<T(!new)>(keep: T -> bool, xs: seq<T>)
    requires forall x :: x in xs ==> keep(x)
    ensures Filter(keep, xs) == xs
  {
    if xs == [] {
    } else {
      FilterAll(keep, xs[1..]);
    }
  }

  lemma {:induction false} FilterNone<T(!new)>(keep: T -> bool, xs: seq<T>)
    requires forall x :: x in xs ==> !keep(x)
    ensures Filter(keep, xs) == []
  {
    if xs == [] {
    } else {
      FilterNone(keep, xs[1..]);
    }
  }

  // ----- What input order means for tied elements -----

  lemma {:induction false} FilterSorted<T(!new)>(le: (T, T) -> bool, keep: T -> bool, xs: seq<T>)
    requires Sorted(le, xs)
    ensures Sorted(le, Filter(keep, xs))
  {
    if xs == [] {
    } else {
      FilterSorted(le, keep, xs[1..]);
      FilterMembers(keep, xs[1..]);
      var rest := Filter(keep, xs[1..]);
      forall j | 0 <= j < |rest| ensures le(xs[0], rest[j]) {
        assert rest[j] in xs[1..];
      }
    }
  }

  /** Kept elements keep their order. */
  lemma {:induction false} FilterOrder<T(!new)>(keep: T -> bool, xs: seq<T>, i: nat, j: nat) returns (p: nat, q: nat)
    requires i < j < |xs| && keep(xs[i]) && keep(xs[j])
    ensures p < q < |Filter(keep, xs)| && Filter(keep, xs)[p] == xs[i] && Filter(keep, xs)[q] == xs[j]
  {
    if i > 0 {
      p, q := FilterOrder(keep, xs[1..], i - 1, j - 1);
      if keep(xs[0]) {
        p, q := p + 1, q + 1;
      }
    } else {
      FilterMembers(keep, xs[1..]);
      assert xs[j] == xs[1..][j - 1] && xs[j] in xs[1..];
      var k :| 0 <= k < |Filter(keep, xs[1..])| && Filter(keep, xs[1..])[k] == xs[j];
      p, q := 0, k + 1;
    }
  }

  /** Elements that tie come out in any order that the input was already in. */
  lemma TiesInOrder<T(!new)>(le: (T, T) -> bool, before: (T, T) -> bool, xs: seq<T>, i: nat, j: nat)
    requires TotalPreorder(le) && Sorted(before, xs)
    requires i < j < |Sort(le, xs)| && Tied(le, Sort(le, xs)[i], Sort(le, xs)[j])
    ensures before(Sort(le, xs)[i], Sort(le, xs)[j])
  {
    var ys := Sort(le, xs);
    var tied := TieWith(le, ys[i]);
    SortStable(le, xs, ys[i]);
    FilterSorted(before, tied, xs);
    var p, q := FilterOrder(tied, ys, i, j);
  }

  // ----- Lists without repeats -----

  ghost predicate Distinct<T(!new)>(xs: seq<T>) { forall i, j :: 0 <= i < j < |xs| ==> xs[i] != xs[j] }

  lemma DistinctHead<T(!new)>(xs: seq<T>)
    requires xs != []
    ensures Distinct(xs) <==> Distinct(xs[1..]) && xs[0] !in xs[1..]
  {
    var rest := xs[1..];
    if Distinct(rest) && xs[0] !in rest {
      forall i, j | 0 <= i < j < |xs| ensures xs[i] != xs[j] {
        assert xs[j] == rest[j - 1] && xs[j] in rest;
      }
    }
    if Distinct(xs) {
      forall j | 0 <= j < |rest| ensures rest[j] != xs[0] {
        assert rest[j] == xs[j + 1];
      }
    }
  }

  lemma {:induction false} DistinctCounts<T(!new)>(xs: seq<T>)
    ensures Distinct(xs) <==> forall x :: multiset(xs)[x] <= 1
  {
    if xs == [] {
    } else {
      var head, rest := xs[0], xs[1..];
      DistinctCounts(rest);
      assert xs == [head] + rest;
      assert forall x :: multiset(xs)[x] == multiset(rest)[x] + if x == head then 1 else 0;
      assert head in rest <==> multiset(rest)[head] > 0;
      DistinctHead(xs);
    }
  }

  lemma SortDistinct<T(!new)>(le: (T, T) -> bool, xs: seq<T>)
    requires Distinct(xs)
    ensures Distinct(Sort(le, xs)) && |Sort(le, xs)| == |xs| && forall x :: x in Sort(le, xs) <==> x in xs
  {
    DistinctCounts(xs);
    DistinctCounts(Sort(le, xs));
    SameElements(Sort(le, xs), xs);
  }

  /** Where only equal elements tie, the sorted list depends on nothing but its members. */
  lemma {:induction false} StrictUnique<T(!new)>(le: (T, T) -> bool, a: seq<T>, b: seq<T>)
    requires Sorted(le, a) && Sorted(le, b) && Distinct(a) && Distinct(b)
    requires |a| == |b| && forall x :: x in a <==> x in b
    requires forall x, y :: x in a && y in a && Tied(le, x, y) ==> x == y
    ensures a == b
  {
    if a == [] {
    } else {
      assert a[0] in b && b != [] && b[0] in a;
      var i :| 0 <= i < |b| && b[i] == a[0];
      var j :| 0 <= j < |a| && a[j] == b[0];
      assert a[0] == b[0];
      assert a == [a[0]] + a[1..] && b == [b[0]] + b[1..];
      forall x ensures x in a[1..] <==> x in b[1..] {
        assert x in a <==> x in b;
      }
      StrictUnique(le, a[1..], b[1..]);
    }
  }

  // ----- Sorting what a function makes of a list -----

  function Map<T, U>(f: T -> U, xs: seq<T>): (ys: seq<U>)
    ensures |ys| == |xs| && forall i :: 0 <= i < |xs| ==> ys[i] == f(xs[i])
  {
    seq(|xs|, i requires 0 <= i < |xs| => f(xs[i]))
  }

  lemma MapCons<T, U>(f: T -> U, x: T, xs: seq<T>)
    ensures Map(f, [x] + xs) == [f(x)] + Map(f, xs)
  {
  }

  /** One function compares elements as the other compares their images. */
  ghost predicate Agree<T(!new), U>(f: T -> U, le: (U, U) -> bool, before: (T, T) -> bool) {
    forall y, z :: before(y, z) == le(f(y), f(z))
  }

  lemma {:induction false} InsertMap<T(!new), U>(f: T -> U, le: (U, U) -> bool, before: (T, T) -> bool,
                                                 x: T, xs: seq<T>)
    requires Agree(f, le, before)
    ensures Insert(le, f(x), Map(f, xs)) == Map(f, Insert(before, x, xs))
  {
    hide Map, Agree;
    MapCons(f, x, xs);
    if xs == [] {
      assert [x] + xs == [x] && [f(x)] + Map(f, xs) == [f(x)];
    } else {
      var y, rest := xs[0], xs[1..];
      assert xs == [y] + rest;
      MapCons(f, y, rest);
      assert Map(f, xs)[1..] == Map(f, rest);
      assert before(x, y) == le(f(x), f(y)) by {
        Compared(f, le, before, x, y);
      }
      InsertMap(f, le, before, x, rest);
      MapCons(f, y, Insert(before, x, rest));
    }
  }

  lemma Compared<T(!new), U>(f: T -> U, le: (U, U) -> bool, before: (T, T) -> bool, y: T, z: T)
    requires Agree(f, le, before)
    ensures before(y, z) == le(f(y), f(z))
  {
  }

  /** Sorting the images is taking the images of the elements sorted alike. */
  lemma {:induction false} SortMap<T(!new), U>(f: T -> U, le: (U, U) -> bool, before: (T, T) -> bool, xs: seq<T>)
    requires Agree(f, le, before)
    ensures Sort(le, Map(f, xs)) == Map(f, Sort(before, xs))
  {
    hide Agree;
    if xs == [] {
    } else {
      assert Map(f, xs)[1..] == Map(f, xs[1..]);
      SortMap(f, le, before, xs[1..]);
      InsertMap(f, le, before, xs[0], Sort(before, xs[1..]));
    }
  }
}
