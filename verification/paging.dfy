/** `OFFSET (page - 1) * limit LIMIT limit` over a list in a fixed order. */
module Paging {
  import opened Arithmetic

  const I64_MAX: int := 0x7fff_ffff_ffff_ffff

  /** The range in which `(page - 1) * limit` does not leave 64 bits. */
  predicate ValidPage(page: int, limit: int) {
    1 <= page && 1 <= limit && (page - 1) * limit <= I64_MAX
  }

  function Offset(page: int, limit: int): (o: nat)
    requires ValidPage(page, limit)
  {
    Product(page - 1, limit)
  }

  function Page<T>(xs: seq<T>, page: int, limit: int): seq<T>
    requires ValidPage(page, limit)
  {
    var from := Min(Offset(page, limit), |xs|);
    xs[from..Min(from + limit, |xs|)]
  }

  /** Pages 1 to `n`, one after the other. */
  function Pages<T>(xs: seq<T>, limit: int, n: nat): seq<T>
    requires n > 0 ==> ValidPage(n, limit)
    decreases n
  {
    if n == 0 then []
    else
      assert n > 1 ==> ValidPage(n - 1, limit) by { PreviousPage(n, limit); }
      Pages(xs, limit, n - 1) + Page(xs, n, limit)
  }

  lemma PreviousPage(page: int, limit: int)
    requires ValidPage(page, limit)
    ensures page > 1 ==> ValidPage(page - 1, limit)
    ensures (page - 1) * limit + limit == page * limit
  {
  }

  /** The first `n` pages are the first `n * limit` rows: nothing is skipped or repeated. */
  lemma {:induction false} PagesArePrefix<T>(xs: seq<T>, limit: int, n: nat)
    requires n > 0 ==> ValidPage(n, limit)
    requires limit >= 1
    ensures Pages(xs, limit, n) == xs[..Min(Product(n, limit), |xs|)]
    decreases n
  {
    if n == 0 {
    } else {
      PreviousPage(n, limit);
      PagesArePrefix(xs, limit, n - 1);
    }
  }

  /** A page is non-empty exactly when its offset is inside the list. */
  lemma PageNonEmpty<T>(xs: seq<T>, page: int, limit: int)
    requires ValidPage(page, limit)
    ensures Page(xs, page, limit) != [] <==> Offset(page, limit) < |xs|
    ensures |Page(xs, page, limit)| <= limit
  {
  }

  /** As soon as enough pages are taken, their concatenation is the whole list. */
  lemma AllPages<T>(xs: seq<T>, limit: int, n: nat)
    requires n > 0 ==> ValidPage(n, limit)
    requires limit >= 1 && |xs| <= Product(n, limit)
    ensures Pages(xs, limit, n) == xs
  {
    PagesArePrefix(xs, limit, n);
  }
}
