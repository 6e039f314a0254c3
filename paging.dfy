/**
 * The search of OnFetchButtonClick in OMDBfetch/MainForm.cs, as values: the three checks
 * made before anything is cleared, the rows one result page contributes, and which pages
 * the page loop requests before it stops.
 */
module Paging {
  import opened Wrappers
  import opened Listing

  /** One entry of a search-result page, as the API client returns it. */
  datatype SearchResult = SearchResult(imdbId: string, title: string, year: string, kind: string, poster: string)

  /** The API client's answer for a term and a 1-based page number; None when it throws. */
  type Fetch = (string, int) -> Option<seq<SearchResult>>

  /** A page with fewer results than this is the last one. */
  const PageSize: nat := 10

  /** The table row made from one result: ID, Title, "Year (Type)", Poster. */
  function ResultRow(r: SearchResult): (row: Row)
    ensures row.id == r.imdbId && row.image == r.poster
    ensures Line(row, true) == r.title + " " + r.year + " (" + r.kind + ")"
  {
    Row(r.imdbId, r.title, r.year + " (" + r.kind + ")", r.poster)
  }

  function PageRows(results: seq<SearchResult>): (rows: seq<Row>)
    ensures |rows| == |results|
    ensures forall i :: 0 <= i < |results| ==> rows[i] == ResultRow(results[i])
  {
    seq(|results|, i requires 0 <= i < |results| => ResultRow(results[i]))
  }

  /** Pages 1 to `k` were all answered. */
  ghost predicate Answered(term: string, fetch: Fetch, k: nat) {
    forall p :: 1 <= p <= k ==> fetch(term, p).Some?
  }

  /** The rows of pages 1 to `k`, page after page, each page in its own order. */
  ghost function PagesRows(term: string, fetch: Fetch, k: nat): seq<Row> {
    if k == 0 then []
    else
      PagesRows(term, fetch, k - 1) + match fetch(term, k) case Some(results) => PageRows(results) case None => []
  }

  /** Pages 1 to `k` were answered, each with a full page. */
  ghost predicate FullPages(term: string, fetch: Fetch, k: nat) {
    forall p :: 1 <= p <= k ==> fetch(term, p).Some? && |fetch(term, p).value| >= PageSize
  }

  /** After `k` full pages within the limit, the loop is where a run from page 1 would be. */
  lemma {:induction false} PageRunSkipsFull(term: string, fetch: Fetch, limit: int, k: nat)
    requires FullPages(term, fetch, k) && k <= limit
    ensures PageRun(term, fetch, limit, 0) == PageRun(term, fetch, limit, k)
  {
    if k > 0 {
      PageRunSkipsFull(term, fetch, limit, k - 1);
      assert fetch(term, k).Some? && |fetch(term, k).value| >= PageSize;
    }
  }

  /** How the page loop ends: after `pages` answered pages, and whether the next one threw. */
  datatype RunEnd = RunEnd(pages: nat, failed: bool)

  /**
   * The page loop continued after `done` pages with at most `limit` pages in all: it asks
   * for page done+1, done+2, ... and stops after a short page, at the limit, or when a
   * request fails.
   */
  function PageRun(term: string, fetch: Fetch, limit: int, done: nat): RunEnd
    decreases limit - done
  {
    if done >= limit then RunEnd(done, false)
    else
      match fetch(term, done + 1)
      case None => RunEnd(done, true)
      case Some(results) =>
        if |results| < PageSize then RunEnd(done + 1, false)
        else PageRun(term, fetch, limit, done + 1)
  }

  /**
   * From page done+1 on, the loop requests consecutive pages, never past the limit; every
   * page but the last is full, and so is the last when the next one fails; it ends at the limit, after the first short page, or just
   * before the first page whose request fails.
   */
  lemma {:induction false} PageRunRequests(term: string, fetch: Fetch, limit: int, done: nat)
    decreases limit - done
    ensures var r := PageRun(term, fetch, limit, done);
      && done <= r.pages && (r.pages == done || r.pages <= limit)
      && (forall p :: done < p <= r.pages ==> fetch(term, p).Some?)
      && (forall p :: done < p < r.pages ==> |fetch(term, p).value| >= PageSize)
      && (r.failed ==> r.pages < limit && fetch(term, r.pages + 1).None?)
      && (r.failed && r.pages > done ==> |fetch(term, r.pages).value| >= PageSize)
      && (!r.failed ==> r.pages >= limit || (r.pages > done && |fetch(term, r.pages).value| < PageSize))
  {
    if done < limit {
      match fetch(term, done + 1)
      case None =>
      case Some(results) =>
        if |results| >= PageSize {
          PageRunRequests(term, fetch, limit, done + 1);
        }
    }
  }

  /**
   * A whole search requests pages 1..k consecutively, k at most the page limit, every
   * page but the last full; it ends at the limit, after the first short page, or when
   * page k+1 fails.
   */
  lemma SearchPagesRequested(term: string, fetch: Fetch, limit: int)
    ensures var r := PageRun(term, fetch, limit, 0);
      && (limit <= 0 ==> r == RunEnd(0, false))
      && (limit > 0 ==> r.pages <= limit)
      && Answered(term, fetch, r.pages)
      && (forall p :: 1 <= p < r.pages ==> |fetch(term, p).value| >= PageSize)
      && (r.failed ==> r.pages < limit && fetch(term, r.pages + 1).None?)
      && (r.failed && r.pages >= 1 ==> |fetch(term, r.pages).value| >= PageSize)
      && (!r.failed && r.pages < limit ==> r.pages >= 1 && |fetch(term, r.pages).value| < PageSize)
  {
    PageRunRequests(term, fetch, limit, 0);
  }

  /** Why a search is refused before the table is touched. */
  datatype Rejection = EmptyTerm | MissingDirectory | MissingApiKey

  /** The three checks, in the source's order. */
  function Validate(term: string, directoryExists: bool, apiKey: string): (r: Option<Rejection>)
    ensures r.None? <==> term != "" && directoryExists && apiKey != ""
    ensures r == Some(EmptyTerm) <==> term == ""
    ensures r == Some(MissingDirectory) <==> term != "" && !directoryExists
    ensures r == Some(MissingApiKey) ==> term != "" && directoryExists
  {
    if |term| == 0 then Some(EmptyTerm)
    else if !directoryExists then Some(MissingDirectory)
    else if |apiKey| == 0 then Some(MissingApiKey)
    else None
  }
}
