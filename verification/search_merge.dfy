/**
 The universal token search (src/controllers/search/mod.rs): symbol hits and name hits are merged
 without repeats, sorted by price and capped.
 */
module SearchMerge {
  import opened Arithmetic
  import opened StableSort

  datatype Hit = Hit(id: string, price: real)

  const CAP: nat := 50

  function Ids(hits: seq<Hit>): set<string> { set h | h in hits :: h.id }

  /** The first hit of every id that is not in `seen`. */
  function FirstHits(hits: seq<Hit>, seen: set<string>): seq<Hit> {
    if hits == [] then []
    else if hits[0].id in seen then FirstHits(hits[1..], seen)
    else [hits[0]] + FirstHits(hits[1..], seen + {hits[0].id})
  }

  /** `b.token_price.cmp(&a.token_price)` */
  predicate Pricier(x: Hit, y: Hit) { x.price >= y.price }

  /** How many first hits the name loop lets through when the symbols alone gave `base`. */
  function Kept(base: nat, all: nat): nat { if base >= CAP then base else Min(CAP, all) }

  /** What the two loops collect. */
  function Combined(symbols: seq<Hit>, names: seq<Hit>): seq<Hit> {
    var all := FirstHits(symbols + names, {});
    FirstHitsBase(symbols, names);
    all[..Kept(|FirstHits(symbols, {})|, |all|)]
  }

  function Merged(symbols: seq<Hit>, names: seq<Hit>): seq<Hit> {
    var sorted := Sort(Pricier, Combined(symbols, names));
    sorted[..Min(CAP, |sorted|)]
  }

  // ----- First hits -----

  lemma IdsConcat(a: seq<Hit>, b: seq<Hit>)
    ensures Ids(a + b) == Ids(a) + Ids(b)
  {
    assert forall h :: h in a + b <==> h in a || h in b;
  }

  lemma IdsHead(a: seq<Hit>)
    requires a != []
    ensures Ids(a) == {a[0].id} + Ids(a[1..])
  {
    IdsConcat([a[0]], a[1..]);
    assert a == [a[0]] + a[1..] && Ids([a[0]]) == {a[0].id};
  }

  lemma {:induction false} FirstHitsConcat(a: seq<Hit>, b: seq<Hit>, seen: set<string>)
    ensures FirstHits(a + b, seen) == FirstHits(a, seen) + FirstHits(b, seen + Ids(a))
  {
    if a == [] {
      assert a + b == b && seen + Ids(a) == seen;
    } else {
      IdsHead(a);
      hide Ids;
      assert (a + b)[1..] == a[1..] + b;
      var next := if a[0].id in seen then seen else seen + {a[0].id};
      FirstHitsConcat(a[1..], b, next);
      assert next + Ids(a[1..]) == seen + Ids(a);
    }
  }

  lemma FirstHitsBase(symbols: seq<Hit>, names: seq<Hit>)
    ensures FirstHits(symbols, {}) <= FirstHits(symbols + names, {})
  {
    FirstHitsConcat(symbols, names, {});
  }

  ghost predicate DistinctIds(hits: seq<Hit>) {
    forall i, j :: 0 <= i < j < |hits| ==> hits[i].id != hits[j].id
  }

  /** Every id once, each by its earliest hit. */
  lemma {:induction false} FirstHitsExact(hits: seq<Hit>, seen: set<string>)
    ensures var first := FirstHits(hits, seen);
      && DistinctIds(first) && |first| <= |hits|
      && Ids(first) == Ids(hits) - seen && (forall h :: h in first ==> h in hits)
  {
    if hits == [] {
    } else {
      var head, rest := hits[0], hits[1..];
      var next := if head.id in seen then seen else seen + {head.id};
      FirstHitsExact(rest, next);
      IdsConcat([head], rest);
      assert hits == [head] + rest && Ids([head]) == {head.id};
      if head.id !in seen {
        var tail := FirstHits(rest, next);
        IdsConcat([head], tail);
        forall i | 0 <= i < |tail| ensures tail[i].id != head.id {
          assert tail[i].id in Ids(tail);
        }
      }
    }
  }

  lemma HeadIdIsNew(hits: seq<Hit>)
    requires DistinctIds(hits) && hits != []
    ensures DistinctIds(hits[1..]) && hits[0].id !in Ids(hits[1..]) && Ids(hits) == {hits[0].id} + Ids(hits[1..])
  {
    IdsHead(hits);
  }

  lemma {:induction false} IdCount(hits: seq<Hit>)
    requires DistinctIds(hits)
    ensures |Ids(hits)| == |hits|
  {
    if hits == [] {
      assert Ids(hits) == {};
    } else {
      HeadIdIsNew(hits);
      IdCount(hits[1..]);
    }
  }

  lemma PermutedIds(a: seq<Hit>, b: seq<Hit>)
    requires multiset(a) == multiset(b) && DistinctIds(a)
    ensures DistinctIds(b) && Ids(a) == Ids(b)
  {
    SameElements(a, b);
    forall i, j | 0 <= i < j < |b| ensures b[i].id != b[j].id {
      OneOfEach(a, b, i, j);
    }
  }

  lemma OneOfEach(a: seq<Hit>, b: seq<Hit>, i: nat, j: nat)
    requires multiset(a) == multiset(b) && DistinctIds(a) && i < j < |b|
    ensures b[i].id != b[j].id
  {
    SameElements(a, b);
    assert Distinct(a);
    DistinctCounts(a);
    DistinctCounts(b);
    assert b[i] != b[j] && b[i] in a && b[j] in a;
  }

  // ----- The merged list -----

  ghost predicate IsSymbolHit(symbols: seq<Hit>, h: Hit) { exists s :: s in symbols && s.id == h.id }

  ghost function SymbolsFirst(symbols: seq<Hit>): (Hit, Hit) -> bool {
    (x: Hit, y: Hit) => IsSymbolHit(symbols, x) || !IsSymbolHit(symbols, y)
  }

  lemma CombinedInOrder(symbols: seq<Hit>, names: seq<Hit>)
    ensures Sorted(SymbolsFirst(symbols), Combined(symbols, names))
  {
    FirstHitsConcat(symbols, names, {});
    FirstHitsExact(symbols, {});
    FirstHitsExact(names, {} + Ids(symbols));
    var a, b := FirstHits(symbols, {}), FirstHits(names, {} + Ids(symbols));
    forall i | 0 <= i < |a| ensures IsSymbolHit(symbols, a[i]) {
      assert a[i].id in Ids(a);
    }
    forall i | 0 <= i < |b| ensures !IsSymbolHit(symbols, b[i]) {
      assert b[i].id in Ids(b) && b[i].id !in Ids(symbols);
    }
  }

  lemma PricierIsOrder()
    ensures TotalPreorder(Pricier)
  {
  }

  lemma PrefixFacts(symbols: seq<Hit>, names: seq<Hit>)
    ensures var all := FirstHits(symbols + names, {});
      && Combined(symbols, names) <= all && DistinctIds(Combined(symbols, names))
      && |all| == |Ids(symbols) + Ids(names)| && Ids(all) == Ids(symbols) + Ids(names)
  {
    hide FirstHits, Ids;
    FirstHitsBase(symbols, names);
    FirstHitsExact(symbols + names, {});
    IdCount(FirstHits(symbols + names, {}));
    IdsConcat(symbols, names);
  }

  lemma FirstHitsSnoc(hits: seq<Hit>, h: Hit)
    ensures FirstHits(hits + [h], {}) == if h.id in Ids(hits) then FirstHits(hits, {}) else FirstHits(hits, {}) + [h]
    ensures Ids(hits + [h]) == Ids(hits) + {h.id}
  {
    FirstHitsConcat(hits, [h], {});
    IdsConcat(hits, [h]);
    assert Ids([h]) == {h.id} && {} + Ids(hits) == Ids(hits);
  }

  /** The hit at index `k` is `h`, and the earliest of its id. */
  ghost predicate IsFirst(hits: seq<Hit>, k: int, h: Hit) {
    0 <= k < |hits| && hits[k] == h && forall l :: 0 <= l < k ==> hits[l].id != h.id
  }

  lemma FirstIsKept(hits: seq<Hit>, k: int, h: Hit)
    requires IsFirst(hits, k, h)
    ensures FirstHits(hits[..k], {}) + [h] <= FirstHits(hits, {})
  {
    hide FirstHits;
    FirstHitsSnoc(hits[..k], h);
    FirstHitsBase(hits[..k] + [h], hits[k + 1..]);
    assert hits == hits[..k] + [h] + hits[k + 1..];
  }

  lemma {:induction false} KeptIsFirst(hits: seq<Hit>, h: Hit) returns (k: int)
    requires h in FirstHits(hits, {})
    ensures IsFirst(hits, k, h)
  {
    var n := |hits| - 1;
    assert hits == hits[..n] + [hits[n]];
    FirstHitsSnoc(hits[..n], hits[n]);
    if h in FirstHits(hits[..n], {}) {
      k := KeptIsFirst(hits[..n], h);
      forall l | 0 <= l < k ensures hits[l].id != h.id {
        assert hits[l] == hits[..n][l];
      }
    } else {
      k := n;
      forall l | 0 <= l < n ensures hits[l].id != h.id {
        assert hits[l] == hits[..n][l] && hits[l] in hits[..n];
      }
    }
  }

  /**
   Main result, for hit lists of any length: the merged list has at most 50 hits, repeats no id, represents
   each of its ids by the earliest hit of it, is sorted by price descending, and lists symbol hits before
   name hits where prices are equal.
   */
  lemma MergedIsOrdered(symbols: seq<Hit>, names: seq<Hit>)
    ensures var m := Merged(symbols, names);
      && |m| <= 50
      && (forall i, j :: 0 <= i < j < |m| ==> m[i].id != m[j].id && m[i].price >= m[j].price)
      && (forall h :: h in m ==> exists k :: IsFirst(symbols + names, k, h))
      && (forall i, j :: 0 <= i < j < |m| && m[i].price == m[j].price && IsSymbolHit(symbols, m[j]) ==>
            IsSymbolHit(symbols, m[i]))
  {
    hide Sort, FirstHits, Combined, IsSymbolHit, IsFirst;
    var c, m := Combined(symbols, names), Merged(symbols, names);
    var sorted := Sort(Pricier, c);
    MergedMembers(symbols, names);
    PermutedIds(c, sorted);
    PricierIsOrder();
    SortSorted(Pricier, c);
    CombinedInOrder(symbols, names);
    forall i, j | 0 <= i < j < |m| && m[i].price == m[j].price ensures SymbolsFirst(symbols)(m[i], m[j]) {
      TiesInOrder(Pricier, SymbolsFirst(symbols), c, i, j);
    }
    forall h | h in m ensures exists k :: IsFirst(symbols + names, k, h) {
      var k := KeptIsFirst(symbols + names, h);
    }
  }

  lemma MergedMembers(symbols: seq<Hit>, names: seq<Hit>)
    ensures var m, c := Merged(symbols, names), Combined(symbols, names);
      && (forall h :: h in m ==> h in c && h in FirstHits(symbols + names, {}))
      && DistinctIds(c) && Ids(m) <= Ids(c) <= Ids(symbols) + Ids(names)
  {
    hide Sort, FirstHits;
    var c, all := Combined(symbols, names), FirstHits(symbols + names, {});
    PrefixFacts(symbols, names);
    SameElements(Sort(Pricier, c), c);
    PrefixIds(Merged(symbols, names), Sort(Pricier, c));
    PermutedIds(c, Sort(Pricier, c));
    PrefixIds(c, all);
  }

  lemma PrefixIds(a: seq<Hit>, b: seq<Hit>)
    requires a <= b
    ensures Ids(a) <= Ids(b)
  {
    forall h | h in a ensures h in b {
      var i :| 0 <= i < |a| && a[i] == h;
      assert b[i] == h;
    }
  }

  /** The cap drops nothing exactly when there are at most 50 different ids. */
  lemma NothingDroppedIff(symbols: seq<Hit>, names: seq<Hit>)
    ensures Ids(Merged(symbols, names)) == Ids(symbols) + Ids(names) <==> |Ids(symbols) + Ids(names)| <= 50
  {
    hide Sort, FirstHits;
    var all, c, m := FirstHits(symbols + names, {}), Combined(symbols, names), Merged(symbols, names);
    PrefixFacts(symbols, names);
    FirstHitsBase(symbols, names);
    if |all| <= CAP {
      assert c == all;
      SameElements(Sort(Pricier, c), c);
      assert m == Sort(Pricier, c);
      PermutedIds(c, m);
    } else {
      MergedMembers(symbols, names);
      PermutedIds(c, Sort(Pricier, c));
      IdCount(m);
    }
  }

  /**
   What the cap drops. With at most 50 symbol ids, the hits that came last in query order; with more, every
   name hit and the cheapest symbols.
   */
  lemma CapDropsLast(symbols: seq<Hit>, names: seq<Hit>)
    ensures var m, hits := Merged(symbols, names), symbols + names;
      && (|Ids(symbols)| <= 50 ==>
            forall k, l, x, y :: k < l && IsFirst(hits, k, x) && IsFirst(hits, l, y) && y in m ==> x in m)
      && (|Ids(symbols)| > 50 ==>
            forall k, x, y :: IsFirst(symbols, k, x) && y in m ==>
              IsSymbolHit(symbols, y) && (x in m || y.price >= x.price))
  {
    hide Sort, FirstHits, Ids, IsFirst, IsSymbolHit, Merged;
    var hits, m := symbols + names, Merged(symbols, names);
    FirstHitsExact(symbols, {});
    IdCount(FirstHits(symbols, {}));
    if |Ids(symbols)| <= 50 {
      forall k, l, x, y | k < l && IsFirst(hits, k, x) && IsFirst(hits, l, y) && y in m ensures x in m {
        EarlierIsKept(symbols, names, k, l, x, y);
      }
    } else {
      forall k, x, y | IsFirst(symbols, k, x) && y in m
        ensures IsSymbolHit(symbols, y) && (x in m || y.price >= x.price)
      {
        CheapestDropped(symbols, names, k, x, y);
      }
    }
  }

  lemma EarlierFirst(hits: seq<Hit>, k: int, l: int, x: Hit, y: Hit)
    requires k < l && IsFirst(hits, k, x) && IsFirst(hits, l, y)
    ensures x in FirstHits(hits[..l], {})
  {
    hide FirstHits;
    assert hits[..l][..k] == hits[..k];
    assert forall j :: 0 <= j < k ==> hits[..l][j] == hits[j];
    FirstIsKept(hits[..l], k, x);
    var before, all := FirstHits(hits[..k], {}), FirstHits(hits[..l], {});
    assert (before + [x])[|before|] == all[|before|];
  }

  lemma DistinctPrefix(all: seq<Hit>, c: seq<Hit>, before: seq<Hit>, x: Hit, y: Hit)
    requires DistinctIds(all) && c <= all && before + [y] <= all && x in before && y in c
    ensures x in c
  {
    assert (before + [y])[|before|] == all[|before|];
    var i :| 0 <= i < |c| && c[i] == y;
    var j :| 0 <= j < |before| && before[j] == x;
    assert all[i] == y && i == |before|;
    assert (before + [y])[j] == all[j] == c[j];
  }

  lemma EarlierIsKept(symbols: seq<Hit>, names: seq<Hit>, k: int, l: int, x: Hit, y: Hit)
    requires |FirstHits(symbols, {})| <= 50
    requires k < l && IsFirst(symbols + names, k, x) && IsFirst(symbols + names, l, y) && y in Merged(symbols, names)
    ensures x in Merged(symbols, names)
  {
    hide Sort, FirstHits, DistinctIds, Ids;
    var hits, c := symbols + names, Combined(symbols, names);
    var all := FirstHits(hits, {});
    PrefixFacts(symbols, names);
    FirstHitsBase(symbols, names);
    FirstHitsExact(hits, {});
    SameElements(Sort(Pricier, c), c);
    EarlierFirst(hits, k, l, x, y);
    FirstIsKept(hits, l, y);
    assert |c| <= 50 && Merged(symbols, names) == Sort(Pricier, c);
    DistinctPrefix(all, c, FirstHits(hits[..l], {}), x, y);
  }

  lemma CheapestDropped(symbols: seq<Hit>, names: seq<Hit>, k: int, x: Hit, y: Hit)
    requires |FirstHits(symbols, {})| > 50 && IsFirst(symbols, k, x) && y in Merged(symbols, names)
    ensures IsSymbolHit(symbols, y) && (x in Merged(symbols, names) || y.price >= x.price)
  {
    hide Sort, FirstHits, Ids, DistinctIds;
    var c := Combined(symbols, names);
    var sorted := Sort(Pricier, c);
    FirstHitsBase(symbols, names);
    assert c == FirstHits(symbols, {});
    FirstHitsExact(symbols, {});
    SameElements(sorted, c);
    FirstIsKept(symbols, k, x);
    var before := FirstHits(symbols[..k], {});
    assert (before + [x])[|before|] == c[|before|];
    PricierIsOrder();
    SortSorted(Pricier, c);
    PrefixKeepsFirst(sorted, x, y);
  }

  lemma PrefixKeepsFirst(sorted: seq<Hit>, x: Hit, y: Hit)
    requires Sorted(Pricier, sorted) && |sorted| >= CAP && x in sorted && y in sorted[..CAP]
    ensures y in sorted && (x in sorted[..CAP] || y.price >= x.price)
  {
    var i :| 0 <= i < CAP && sorted[i] == y;
    var j :| 0 <= j < |sorted| && sorted[j] == x;
    if j < CAP {
      assert sorted[..CAP][j] == x;
    } else {
      assert Pricier(sorted[i], sorted[j]);
    }
  }

  /** Two queries, each with its LIMIT 25, never lose a hit to the cap. */
  lemma QueriesNeverLoseAHit(symbols: seq<Hit>, names: seq<Hit>)
    requires |symbols| <= 25 && |names| <= 25
    ensures Ids(Merged(symbols, names)) == Ids(symbols) + Ids(names)
  {
    FirstHitsExact(symbols + names, {});
    PrefixFacts(symbols, names);
    NothingDroppedIff(symbols, names);
  }

  // ----- The loops as the source writes them -----

  /** `HashSet::insert` reports whether the id is new; the name loop also watches the cap. */
  method CollectSymbols(symbols: seq<Hit>) returns (combined: seq<Hit>, seen: set<string>)
    ensures combined == FirstHits(symbols, {}) && seen == Ids(symbols)
  {
    combined, seen := [], {};
    for i := 0 to |symbols|
      invariant combined == FirstHits(symbols[..i], {}) && seen == Ids(symbols[..i])
    {
      var h := symbols[i];
      FirstHitsSnoc(symbols[..i], h);
      assert symbols[..i + 1] == symbols[..i] + [h];
      if h.id !in seen {
        combined := combined + [h];
      }
      seen := seen + {h.id};
    }
    assert symbols[..|symbols|] == symbols;
  }

  method CollectNames(symbols: seq<Hit>, names: seq<Hit>) returns (combined: seq<Hit>)
    ensures combined == Combined(symbols, names)
  {
    hide FirstHits;
    var seen: set<string>;
    combined, seen := CollectSymbols(symbols);
    ghost var base := |combined|;
    assert symbols + names[..0] == symbols;
    for i := 0 to |names|
      invariant seen == Ids(symbols + names[..i])
      invariant combined == Combined(symbols, names[..i])
    {
      var h := names[i];
      FirstHitsSnoc(symbols + names[..i], h);
      FirstHitsBase(symbols, names[..i]);
      assert symbols + names[..i + 1] == symbols + names[..i] + [h];
      if h.id !in seen && |combined| < CAP {
        combined := combined + [h];
      }
      seen := seen + {h.id};
    }
    assert names[..|names|] == names;
  }

  /** The universal branch of `search_tokens_by_pattern`, after its two queries. */
  method Merge(symbols: seq<Hit>, names: seq<Hit>) returns (merged: seq<Hit>)
    ensures merged == Merged(symbols, names)
  {
    merged := CollectNames(symbols, names);
    merged := Sort(Pricier, merged);
    if |merged| > CAP {
      merged := merged[..CAP];
    }
  }
}
