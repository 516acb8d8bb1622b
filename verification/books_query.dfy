/** `BooksQuery`: the query string of the book listing. Each bound is
    checked on its own first; only a query whose fields all pass reaches the
    range check, which reports the first inverted range. */
module BooksQuery {

  import opened Common
  import opened Schema
  import BookRepository

  datatype Query = Query(
    genre: Option<Genre>,
    limit: Option<int>,
    yearFrom: Option<int>,
    yearTo: Option<int>,
    pagesFrom: Option<int>,
    pagesTo: Option<int>)

  datatype Violation =
    | LimitBelowZero
    | YearFromBelowZero
    | YearToBelowZero
    | PagesFromBelowOne
    | PagesToBelowOne
    | YearRangeInverted
    | PagesRangeInverted

  datatype Checked = Rejected(violations: seq<Violation>) | Accepted(filter: BookRepository.BookFilter)

  predicate AtLeast(bound: Option<int>, least: int)
  {
    bound.Some? ==> bound.value >= least
  }

  predicate Ordered(low: Option<int>, high: Option<int>)
  {
    low.Some? && high.Some? ==> low.value <= high.value
  }

  /** The declarative reading of the schema: every present bound in range and
      no range inverted. */
  predicate Admissible(q: Query)
  {
    && AtLeast(q.limit, 0) && AtLeast(q.yearFrom, 0) && AtLeast(q.yearTo, 0)
    && AtLeast(q.pagesFrom, 1) && AtLeast(q.pagesTo, 1)
    && Ordered(q.yearFrom, q.yearTo) && Ordered(q.pagesFrom, q.pagesTo)
  }

  /** Whether `v` describes something wrong with `q`. */
  predicate Holds(v: Violation, q: Query)
  {
    match v
    case LimitBelowZero => !AtLeast(q.limit, 0)
    case YearFromBelowZero => !AtLeast(q.yearFrom, 0)
    case YearToBelowZero => !AtLeast(q.yearTo, 0)
    case PagesFromBelowOne => !AtLeast(q.pagesFrom, 1)
    case PagesToBelowOne => !AtLeast(q.pagesTo, 1)
    case YearRangeInverted => !Ordered(q.yearFrom, q.yearTo)
    case PagesRangeInverted => !Ordered(q.pagesFrom, q.pagesTo)
  }

  function FieldViolations(q: Query): (vs: seq<Violation>)
    ensures forall v :: v in vs ==> Holds(v, q)
    ensures vs == [] <==>
      AtLeast(q.limit, 0) && AtLeast(q.yearFrom, 0) && AtLeast(q.yearTo, 0)
      && AtLeast(q.pagesFrom, 1) && AtLeast(q.pagesTo, 1)
  {
    (if AtLeast(q.limit, 0) then [] else [LimitBelowZero])
    + (if AtLeast(q.yearFrom, 0) then [] else [YearFromBelowZero])
    + (if AtLeast(q.yearTo, 0) then [] else [YearToBelowZero])
    + (if AtLeast(q.pagesFrom, 1) then [] else [PagesFromBelowOne])
    + (if AtLeast(q.pagesTo, 1) then [] else [PagesToBelowOne])
  }

  /** Validation of the query, then the filter the listing runs with. */
  function Check(q: Query): (c: Checked)
    ensures c.Accepted? <==> Admissible(q)
    ensures c.Rejected? ==> |c.violations| > 0 && forall v :: v in c.violations ==> Holds(v, q)
    ensures c.Rejected? && FieldViolations(q) == [] ==>
      c.violations == [if Ordered(q.yearFrom, q.yearTo) then PagesRangeInverted else YearRangeInverted]
    ensures c.Accepted? ==>
      var f := c.filter;
      && f.genre == q.genre && f.yearFrom == q.yearFrom && f.yearTo == q.yearTo
      && f.pagesFrom == q.pagesFrom && f.pagesTo == q.pagesTo
      && (f.limit.Some? <==> q.limit.Some?) && (f.limit.Some? ==> f.limit.value == q.limit.value)
  {
    var fields := FieldViolations(q);
    if fields != [] then Rejected(fields)
    else if !Ordered(q.yearFrom, q.yearTo) then Rejected([YearRangeInverted])
    else if !Ordered(q.pagesFrom, q.pagesTo) then Rejected([PagesRangeInverted])
    else
      var limit: Option<nat> := if q.limit.Some? then Some(q.limit.value) else None;
      Accepted(BookRepository.BookFilter(q.genre, limit, q.yearFrom, q.yearTo, q.pagesFrom, q.pagesTo))
  }

  /** A query with no parameters lists everything. */
  lemma EmptyQueryAccepted()
    ensures Check(Query(None, None, None, None, None, None)).Accepted?
  {
  }

  /** A single year or page count is a valid range. */
  lemma PointRangeAccepted(year: nat, pages: nat)
    requires pages >= 1
    ensures Check(Query(None, None, Some(year), Some(year), Some(pages), Some(pages))).Accepted?
  {
  }

  /** A book passes the filter of an accepted query exactly when it falls in
      every range the query gives. */
  lemma AcceptedFilterMeaning(q: Query, b: Book)
    requires Check(q).Accepted?
    ensures BookRepository.Matches(Check(q).filter, b) <==>
      && (q.genre.Some? ==> b.genre == q.genre.value)
      && (q.yearFrom.Some? || q.yearTo.Some? ==> b.publishYear.Some?)
      && (q.pagesFrom.Some? || q.pagesTo.Some? ==> b.pageCount.Some?)
      && (b.publishYear.Some? ==> AtLeastOpt(b.publishYear.value, q.yearFrom) && AtMostOpt(b.publishYear.value, q.yearTo))
      && (b.pageCount.Some? ==> AtLeastOpt(b.pageCount.value, q.pagesFrom) && AtMostOpt(b.pageCount.value, q.pagesTo))
  {
  }

  predicate AtLeastOpt(x: int, bound: Option<int>)
  {
    bound.Some? ==> x >= bound.value
  }

  predicate AtMostOpt(x: int, bound: Option<int>)
  {
    bound.Some? ==> x <= bound.value
  }
}
