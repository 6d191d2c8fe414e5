/** The paging arithmetic the book and vocabulary repositories share: the
    page and limit read from the query string with their defaults and clamps,
    the page count, the page actually served and the number of documents
    skipped to reach it. */
module Paging {

  /** What `Number(x)` makes of a query-string value: `NaN` (an absent or
      unparsable value) or an integer. `Number("")` is the integer 0. */
  datatype RawNumber = NotANumber | Integer(n: int)

  /** `Number(x) || d`: `NaN` and 0 are falsy and give the default. */
  function NumberOr(raw: RawNumber, d: int): (v: int)
    ensures raw.Integer? && raw.n != 0 ==> v == raw.n
    ensures raw == NotANumber || raw == Integer(0) ==> v == d
  {
    match raw
    case Integer(n) => if n != 0 then n else d
    case NotANumber => d
  }

  /** `Math.max(1, Number(page) || 1)`. */
  function PageNumber(raw: RawNumber): (p: int)
    ensures p >= 1
    ensures raw == NotANumber || raw == Integer(0) ==> p == 1
    ensures raw.Integer? && raw.n >= 1 ==> p == raw.n
    ensures raw.Integer? && raw.n < 1 ==> p == 1
  {
    Max(1, NumberOr(raw, 1))
  }

  /** `Math.min(100, Math.max(1, Number(limit) || 20))`. */
  function Limit(raw: RawNumber): (l: int)
    ensures 1 <= l <= 100
    ensures raw == NotANumber || raw == Integer(0) ==> l == 20
    ensures raw.Integer? && 1 <= raw.n <= 100 ==> l == raw.n
    ensures raw.Integer? && raw.n > 100 ==> l == 100
    ensures raw.Integer? && raw.n < 0 ==> l == 1
  {
    Min(100, Max(1, NumberOr(raw, 20)))
  }

  function Max(a: int, b: int): int {
    if a >= b then a else b
  }

  function Min(a: int, b: int): int {
    if a <= b then a else b
  }

  /** `Math.ceil(total / limit)` on integers: the fewest pages of `limit`
      documents that hold `total` documents. */
  function CeilDiv(total: nat, limit: int): (q: nat)
    requires limit >= 1
    ensures (q - 1) * limit < total <= q * limit
  {
    if total == 0 then 0 else 1 + CeilDiv(if total <= limit then 0 else total - limit, limit)
  }

  /** `totalPages > 0 ? Math.min(page, totalPages) : 1`. */
  function EffectivePage(page: int, totalPages: nat): (p: int)
    requires page >= 1
    ensures p >= 1
    ensures totalPages > 0 ==> p <= totalPages
    ensures page <= totalPages ==> p == page
    ensures totalPages == 0 ==> p == 1
  {
    if totalPages > 0 then Min(page, totalPages) else 1
  }

  /** The `meta` object of a paginated response. */
  datatype PageMeta = PageMeta(page: int, limit: int, totalItems: nat, totalPages: nat)

  /** A page request: the documents to skip, how many to take, and the `meta`
      reported alongside them. */
  datatype PageRequest = PageRequest(skip: int, take: int, meta: PageMeta)

  /** The paging steps of `findPublicBooks` and `findEntries`, given the raw
      `page` and `limit` and the number of matching documents. */
  function Paginate(rawPage: RawNumber, rawLimit: RawNumber, total: nat): (r: PageRequest)
  {
    var limit := Limit(rawLimit);
    var totalPages := CeilDiv(total, limit);
    var page := EffectivePage(PageNumber(rawPage), totalPages);
    PageRequest((page - 1) * limit, limit, PageMeta(page, limit, total, totalPages))
  }

  /** The served page is never past the last one: when anything matches, the
      skipped documents leave at least one document to return, and the page
      served holds no more than the limit. When nothing matches, page 1 is
      served from the start. */
  lemma {:induction false} PaginateServesExistingPage(rawPage: RawNumber, rawLimit: RawNumber, total: nat)
    ensures var r := Paginate(rawPage, rawLimit, total);
            && r.take == r.meta.limit && 1 <= r.take <= 100
            && r.meta.totalItems == total
            && 1 <= r.meta.page
            && r.skip == (r.meta.page - 1) * r.take
            && 0 <= r.skip
            && (total > 0 ==> r.skip < total && r.meta.page <= r.meta.totalPages)
            && (total == 0 ==> r.meta.page == 1 && r.skip == 0 && r.meta.totalPages == 0)
  {
    var limit := Limit(rawLimit);
    var tp := CeilDiv(total, limit);
    var page := EffectivePage(PageNumber(rawPage), tp);
    assert Paginate(rawPage, rawLimit, total) == PageRequest((page - 1) * limit, limit, PageMeta(page, limit, total, tp));
    MulMonotone(0, page - 1, limit);
    if total > 0 {
      MulMonotone(page - 1, tp - 1, limit);
    }
  }

  /** A requested page within range is served as requested, at offset
      `(page - 1) * limit`. */
  lemma {:induction false} PaginateHonoursPageInRange(n: int, rawLimit: RawNumber, total: nat)
    requires n >= 1
    requires n <= CeilDiv(total, Limit(rawLimit))
    ensures Paginate(Integer(n), rawLimit, total).meta.page == n
    ensures Paginate(Integer(n), rawLimit, total).skip == (n - 1) * Limit(rawLimit)
  {
  }

  /** A page past the end is served as the last page. */
  lemma {:induction false} PaginateClampsPastEnd(n: int, rawLimit: RawNumber, total: nat)
    requires total > 0
    requires n > CeilDiv(total, Limit(rawLimit))
    ensures Paginate(Integer(n), rawLimit, total).meta.page == CeilDiv(total, Limit(rawLimit))
  {
  }

  lemma {:induction false} MulMonotone(a: int, b: int, c: int)
    requires 0 <= a <= b && c >= 0
    ensures a * c <= b * c
  {
  }
}
