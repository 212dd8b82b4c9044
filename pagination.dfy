/**
 * The `pagination` query schema (bounds, defaults and the offset it
 * derives), and the page arithmetic the services apply to a listing:
 * skip `offset` rows, take `limit`, and count `ceil(total / limit)` pages.
 */
module Pagination {

  import opened Wrappers

  /** What the schema hands on: the page, its size and the rows before it. */
  datatype Params = Params(page: int, limit: int, offset: int)

  /**
   * A check of the schema that an input fails. `int()` fails a fractional
   * number (and then no later check of that field runs) and an integer
   * outside the safe range of a double; `min` and `max` are the bounds.
   */
  datatype Issue =
    | PageNotInteger | PageUnsafe | PageTooSmall
    | LimitNotInteger | LimitUnsafe | LimitTooSmall | LimitTooLarge

  const DefaultPage := 1
  const DefaultLimit := 10
  const MaxLimit := 100
  /** `Number.MAX_SAFE_INTEGER`, 2^53 - 1. */
  const MaxSafeInteger := 9007199254740991

  predicate IsInteger(x: real)
  {
    x.Floor as real == x
  }

  /** `Number.isSafeInteger` of a number that is already an integer. */
  predicate IsSafe(x: real)
  {
    -(MaxSafeInteger as real) <= x <= MaxSafeInteger as real
  }

  /** The checks `page` fails, in the order the schema declares them. */
  function PageIssues(page: real): (issues: seq<Issue>)
    ensures issues == [] <==> IsInteger(page) && 1.0 <= page <= MaxSafeInteger as real
    ensures !IsInteger(page) ==> issues == [PageNotInteger]
    ensures PageUnsafe in issues <==> IsInteger(page) && !IsSafe(page)
    ensures PageTooSmall in issues <==> IsInteger(page) && page < 1.0
  {
    if !IsInteger(page) then [PageNotInteger]
    else
      (if IsSafe(page) then [] else [PageUnsafe]) +
      (if page >= 1.0 then [] else [PageTooSmall])
  }

  /** The checks `limit` fails, in the order the schema declares them. */
  function LimitIssues(limit: real): (issues: seq<Issue>)
    ensures issues == [] <==> IsInteger(limit) && 1.0 <= limit <= MaxLimit as real
    ensures !IsInteger(limit) ==> issues == [LimitNotInteger]
    ensures LimitUnsafe in issues <==> IsInteger(limit) && !IsSafe(limit)
    ensures LimitTooSmall in issues <==> IsInteger(limit) && limit < 1.0
    ensures LimitTooLarge in issues <==> IsInteger(limit) && limit > MaxLimit as real
  {
    if !IsInteger(limit) then [LimitNotInteger]
    else
      (if IsSafe(limit) then [] else [LimitUnsafe]) +
      (if limit >= 1.0 then [] else [LimitTooSmall]) +
      (if limit <= MaxLimit as real then [] else [LimitTooLarge])
  }

  /**
   * The schema: a missing field takes its default, a present one must pass
   * its checks; the result carries `offset = (page - 1) * limit`. A
   * rejection lists the failed checks of both fields, the page's first.
   */
  function Parse(page: Option<real>, limit: Option<real>): (r: Result<Params, seq<Issue>>)
    ensures r.Ok? <==>
              (page.None? || (IsInteger(page.value) && 1.0 <= page.value <= MaxSafeInteger as real)) &&
              (limit.None? || (IsInteger(limit.value) && 1.0 <= limit.value <= MaxLimit as real))
    ensures r.Ok? ==>
              (r.value.page as real == if page.Some? then page.value else DefaultPage as real) &&
              (r.value.limit as real == if limit.Some? then limit.value else DefaultLimit as real)
    ensures r.Err? ==> r.error != []
    ensures page.Some? && !IsInteger(page.value) ==>
              r.Err? && PageNotInteger in r.error && PageUnsafe !in r.error && PageTooSmall !in r.error
    ensures limit.Some? && !IsInteger(limit.value) ==>
              r.Err? && LimitNotInteger in r.error && LimitUnsafe !in r.error &&
              LimitTooSmall !in r.error && LimitTooLarge !in r.error
  {
    var p := if page.Some? then page.value else DefaultPage as real;
    var l := if limit.Some? then limit.value else DefaultLimit as real;
    var issues := PageIssues(p) + LimitIssues(l);
    if issues != [] then Err(issues)
    else Ok(Params(p.Floor, l.Floor, (p.Floor - 1) * l.Floor))
  }

  /** What every accepted query satisfies. */
  predicate Valid(p: Params)
  {
    1 <= p.page <= MaxSafeInteger && 1 <= p.limit <= MaxLimit && p.offset == (p.page - 1) * p.limit
  }

  lemma ParseValid(page: Option<real>, limit: Option<real>)
    ensures Parse(page, limit).Ok? ==> Valid(Parse(page, limit).value)
  {
  }

  /** The offset is never negative, is a whole number of pages, and gives the page back. */
  lemma OffsetOfPage(p: Params)
    requires Valid(p)
    ensures p.offset >= 0
    ensures p.offset % p.limit == 0
    ensures p.offset / p.limit + 1 == p.page
  {
    var k := p.page - 1;
    assert p.offset == k * p.limit;
    assert k * p.limit >= 0;
    assert (k * p.limit) / p.limit == k && (k * p.limit) % p.limit == 0 by {
      MultipleDivMod(k, p.limit);
    }
  }

  lemma MultipleDivMod(k: nat, d: int)
    requires d >= 1
    ensures (k * d) / d == k && (k * d) % d == 0
  {
    var a := k * d;
    var e := k - a / d;
    assert a == d * (a / d) + a % d;
    assert e * d == a - (a / d) * d;
    assert e * d == a % d;
    MulAwayFromZero(e, d);
  }

  lemma MulAwayFromZero(e: int, d: int)
    requires d >= 0
    ensures e >= 1 ==> e * d >= d
    ensures e <= -1 ==> e * d <= -d
  {
    if e >= 1 {
      MulMonotone(1, e, d);
    } else if e <= -1 {
      MulMonotone(1, -e, d);
      assert e * d == -((-e) * d);
    }
  }

  /** Missing fields give the first page of ten rows. */
  lemma ParseDefaults()
    ensures Parse(None, None) == Ok(Params(1, 10, 0))
  {
  }

  /** Page 2 of 20 rows starts after row 20. */
  lemma ParseSecondPage()
    ensures Parse(Some(2.0), Some(20.0)) == Ok(Params(2, 20, 20))
  {
  }

  /**
   * Page 0, a fractional page, a page past the safe integers and a limit
   * over 100 are rejected; a fractional limit fails its integer check alone.
   */
  lemma ParseRejects()
    ensures Parse(Some(0.0), None) == Err([PageTooSmall])
    ensures Parse(Some(1.5), None) == Err([PageNotInteger])
    ensures Parse(Some(9007199254740992.0), None) == Err([PageUnsafe])
    ensures Parse(None, Some(200.0)) == Err([LimitTooLarge])
    ensures Parse(None, Some(0.5)) == Err([LimitNotInteger])
  {
    assert IsInteger(0.0) && IsInteger(10.0) && IsInteger(1.0) && IsInteger(200.0);
    assert (9007199254740992.0).Floor == 9007199254740992 && IsInteger(9007199254740992.0);
    assert (1.5).Floor == 1 && !IsInteger(1.5);
    assert (0.5).Floor == 0 && !IsInteger(0.5);
    assert PageIssues(1.0) == [];
    assert LimitIssues(10.0) == [];
    assert PageIssues(0.0) == [PageTooSmall];
    assert PageIssues(9007199254740992.0) == [PageUnsafe];
    assert LimitIssues(200.0) == [LimitTooLarge];
    assert PageIssues(0.0) + LimitIssues(10.0) == [PageTooSmall];
    assert PageIssues(1.5) + LimitIssues(10.0) == [PageNotInteger];
    assert PageIssues(9007199254740992.0) + LimitIssues(10.0) == [PageUnsafe];
    assert LimitIssues(0.5) == [LimitNotInteger];
    assert PageIssues(1.0) + LimitIssues(0.5) == [LimitNotInteger];
    assert PageIssues(1.0) + LimitIssues(200.0) == [LimitTooLarge];
  }

  /** `Math.ceil(total / limit)`: the number of pages a listing of `total` rows fills. */
  function PageCount(total: nat, limit: int): (pages: nat)
    requires limit >= 1
    ensures pages * limit >= total
    ensures pages == 0 || (pages - 1) * limit < total
  {
    if total == 0 then 0 else 1 + PageCount(if total <= limit then 0 else total - limit, limit)
  }

  /** No smaller number of pages holds every row. */
  lemma PageCountLeast(total: nat, limit: int, pages: nat)
    requires limit >= 1 && pages * limit >= total
    ensures PageCount(total, limit) <= pages
  {
    var c := PageCount(total, limit);
    if c > pages {
      assert (c - 1) * limit >= pages * limit by {
        assert c - 1 >= pages;
        MulMonotone(pages, c - 1, limit);
      }
    }
  }

  lemma MulMonotone(a: nat, b: nat, d: nat)
    requires a <= b
    ensures a * d <= b * d
  {
  }

  /** TypeORM's `skip`/`take`: the rows after the first `offset`, at most `limit` of them. */
  function Window<T>(rows: seq<T>, offset: nat, limit: nat): (w: seq<T>)
    ensures |w| <= limit
    ensures offset >= |rows| ==> w == []
    ensures offset < |rows| ==> |w| == (if |rows| - offset < limit then |rows| - offset else limit)
    ensures forall i :: 0 <= i < |w| ==> w[i] == rows[offset + i]
  {
    if offset >= |rows| then []
    else if |rows| - offset < limit then rows[offset..]
    else rows[offset..offset + limit]
  }

  /** A page of a listing: its rows, the page asked for, the row count and the page count. */
  datatype Listing<T> = Listing(items: seq<T>, page: int, total: nat, pages: nat)

  /**
   * What `findAll` returns for the matching rows in listing order: missing
   * parameters default to page 1, limit 10 and offset 0, each on its own
   * (the offset is not recomputed from the page).
   */
  function Paginate<T>(rows: seq<T>, page: Option<int>, limit: Option<int>, offset: Option<nat>): (r: Listing<T>)
    requires limit.None? || limit.value >= 1
    ensures var lim, off := (if limit.Some? then limit.value else DefaultLimit), (if offset.Some? then offset.value else 0);
            r.page == (if page.Some? then page.value else DefaultPage) &&
            r.total == |rows| &&
            |r.items| <= lim &&
            (forall i :: 0 <= i < |r.items| ==> off + i < |rows| && r.items[i] == rows[off + i]) &&
            (off < |rows| ==> |r.items| > 0) &&
            r.pages * lim >= r.total && (r.pages == 0 || (r.pages - 1) * lim < r.total)
  {
    var lim := if limit.Some? then limit.value else DefaultLimit;
    var off := if offset.Some? then offset.value else 0;
    Listing(Window(rows, off, lim), if page.Some? then page.value else DefaultPage, |rows|, PageCount(|rows|, lim))
  }

  /** A page whose offset comes from the schema starts inside the listing exactly when it is within the page count. */
  lemma PageWithinCount(total: nat, limit: int, page: int)
    requires limit >= 1 && page >= 1
    ensures (page - 1) * limit < total <==> page <= PageCount(total, limit)
  {
    var c := PageCount(total, limit);
    if page <= c {
      MulMonotone(page - 1, c - 1, limit);
    } else {
      MulMonotone(c, page - 1, limit);
    }
  }
}
