/**
 * Pagination of list queries: the `page` and `limit` query parameters become
 * the `skip` and `limit` handed to the store's cursor.
 */
module Query {
  import opened Wrappers

  /** A limit of 0 asks the store for every record: no limit at all. */
  const DEFAULT_PAGE_LIMIT: int := 0
  const DEFAULT_PAGE_NUMBER: int := 1

  /**
   * A query parameter after numeric coercion. `None` stands for `NaN`, which is
   * what a missing or non-numeric parameter becomes.
   */
  type QueryNumber = Option<int>

  datatype Pagination = Pagination(skip: int, limit: int)

  /** `Math.abs`: the magnitude of a number; `NaN` stays `NaN`. */
  function AbsNumber(v: QueryNumber): (magnitude: QueryNumber)
  {
    match v
    case None => None
    case Some(x) => Some(if x < 0 then -x else x)
  }

  /** `v || fallback` on a number: `0` and `NaN` are falsy and give way to the fallback. */
  function OrDefault(v: QueryNumber, fallback: int): (n: int)
  {
    match v
    case None => fallback
    case Some(x) => if x == 0 then fallback else x
  }

  /** The page number the query asks for (1 when it asks for none). */
  function PageNumber(page: QueryNumber): (pageNumber: int)
  {
    OrDefault(AbsNumber(page), DEFAULT_PAGE_NUMBER)
  }

  function GetPagination(page: QueryNumber, limit: QueryNumber): (p: Pagination)
    // both values are non-negative
    ensures p.skip >= 0 && p.limit >= 0
    // a missing, NaN or zero limit means "no limit"
    ensures limit.None? || limit == Some(0) ==> p.limit == DEFAULT_PAGE_LIMIT
    // a given limit is used by magnitude
    ensures limit.Some? ==> p.limit == (if limit.value < 0 then -limit.value else limit.value)
    // a missing, NaN or zero page is the first page, which skips nothing
    ensures page.None? || page == Some(0) ==> p.skip == 0
    // a given page is used by magnitude: pages before it are skipped whole
    ensures page.Some? && page.value != 0 ==>
      p.skip == ((if page.value < 0 then -page.value else page.value) - 1) * p.limit
  {
    var pageNumber := PageNumber(page);
    var pageLimit := OrDefault(AbsNumber(limit), DEFAULT_PAGE_LIMIT);
    Pagination((pageNumber - 1) * pageLimit, pageLimit)
  }

  /** The skip is a whole number of pages: the page asked for can be read back from it. */
  lemma PageFromSkip(page: QueryNumber, limit: QueryNumber)
    requires GetPagination(page, limit).limit > 0
    ensures var p := GetPagination(page, limit);
      p.skip % p.limit == 0 && p.skip / p.limit + 1 == PageNumber(page)
  {
    var p := GetPagination(page, limit);
    var k := PageNumber(page) - 1;
    assert k >= 0;
    MultipleOfLimit(k, p.limit);
  }

  lemma MultipleOfLimit(k: nat, l: int)
    requires l > 0
    ensures (k * l) % l == 0 && (k * l) / l == k
  {
    QuotientIsUnique(k * l, l, k);
  }

  /** Euclidean division has one quotient: a multiple of `l` divides back exactly. */
  lemma QuotientIsUnique(n: int, l: int, k: int)
    requires l > 0 && n == k * l
    ensures n % l == 0 && n / l == k
  {
    var q, r := n / l, n % l;
    var d := k - q;
    assert n == q * l + r && 0 <= r < l;
    assert d * l == r by {
      assert d * l == k * l - q * l;
    }
    if d >= 1 {
      AtLeastOneMultiple(d, l);
    }
  }

  lemma {:induction false} AtLeastOneMultiple(a: int, l: int)
    requires a >= 1 && l > 0
    ensures a * l >= l
  {
    if a > 1 {
      AtLeastOneMultiple(a - 1, l);
      assert a * l == (a - 1) * l + l;
    }
  }

  /** Page 1, given or defaulted, never skips anything. */
  lemma FirstPageSkipsNothing(limit: QueryNumber)
    ensures GetPagination(Some(1), limit).skip == 0
    ensures GetPagination(Some(-1), limit).skip == 0
    ensures GetPagination(None, limit).skip == 0
  {
  }

  /** Without a limit, every page starts at the beginning. */
  lemma NoLimitSkipsNothing(page: QueryNumber)
    ensures GetPagination(page, None) == Pagination(0, DEFAULT_PAGE_LIMIT)
  {
  }

  /** A negative parameter is read as its magnitude. */
  lemma NegativeIsMagnitude(page: int, limit: int)
    ensures GetPagination(Some(-page), Some(-limit)) == GetPagination(Some(page), Some(limit))
  {
  }

  lemma Examples()
    ensures GetPagination(None, None) == Pagination(0, 0)
    ensures GetPagination(Some(2), Some(10)) == Pagination(10, 10)
    ensures GetPagination(Some(-3), Some(5)) == Pagination(10, 5)
  {
  }
}
