/** `syncAllDownloads`: the paginated download of the Real-Debrid list.

    The network is replaced by the sequence of outcomes the successive page
    requests would have: `pages[n]` is what fetching page `n + 1` yields. */
module Sync {
  import opened Records

  const PageSize: nat := 100

  datatype PageOutcome =
    | Page(records: seq<Download>)   // an ok response whose body is an array
    | NotArray                       // an ok response whose body is not an array
    | NotOk                          // a response with a non-ok status
    | Throw                          // the request itself rejected

  /** The loop fetches no page after this one. */
  predicate EndsFetching(o: PageOutcome) {
    !o.Page? || |o.records| < PageSize
  }

  predicate Terminates(pages: seq<PageOutcome>) {
    exists i :: 0 <= i < |pages| && EndsFetching(pages[i])
  }

  /** The index of the last page requested. */
  function LastPage(pages: seq<PageOutcome>): (n: nat)
    requires Terminates(pages)
    ensures n < |pages| && EndsFetching(pages[n])
    ensures forall j :: 0 <= j < n ==> !EndsFetching(pages[j])
  {
    if EndsFetching(pages[0]) then 0
    else
      var n := LastPage(pages[1..]);
      assert forall j :: 1 <= j <= n ==> pages[1..][j - 1] == pages[j];
      n + 1
  }

  /** The records of the pages in order. */
  function Concat(pages: seq<PageOutcome>): seq<Download> {
    if pages == [] then []
    else Concat(pages[..|pages| - 1])
         + (if pages[|pages| - 1].Page? then pages[|pages| - 1].records else [])
  }

  /** What the loop accumulates when nothing throws. */
  function Fetched(pages: seq<PageOutcome>): seq<Download>
    requires Terminates(pages)
  {
    Concat(pages[..LastPage(pages) + 1])
  }

  /** The loop of `syncAllDownloads`. `threw` reports an exception that
      leaves the `try` block. */
  method FetchAllPages(pages: seq<PageOutcome>) returns (items: seq<Download>, threw: bool)
    requires Terminates(pages)
    ensures threw <==> pages[LastPage(pages)].Throw?
    ensures !threw ==> items == Fetched(pages)
  {
    var page := 0;
    items := [];
    threw := false;
    var keepFetching := true;
    while keepFetching
      invariant 0 <= page <= LastPage(pages)
      invariant !threw
      invariant keepFetching ==> items == Concat(pages[..page])
      invariant !keepFetching ==> page == LastPage(pages) && items == Fetched(pages)
                                  && !pages[page].Throw?
      decreases LastPage(pages) - page, keepFetching
    {
      assert pages[..page + 1][..page] == pages[..page];
      match pages[page]
      case Throw =>
        threw := true;
        return;
      case NotOk =>
        break;
      case NotArray =>
        keepFetching := false;
      case Page(data) =>
        if |data| == 0 {
          keepFetching := false;
        } else {
          items := items + data;
          if |data| < PageSize {
            keepFetching := false;
          } else {
            page := page + 1;
          }
        }
    }
    if keepFetching {
      assert pages[page].NotOk?;
    }
  }

  // ---------------------------------------------------------------------

  /** The downloads cache after a sync that was not already running. */
  function SyncedCache(cache: seq<Download>, pages: seq<PageOutcome>): seq<Download>
    requires Terminates(pages)
  {
    if pages[LastPage(pages)].Throw? || Fetched(pages) == [] then cache else Fetched(pages)
  }

  /** Every page before the last one was full. */
  lemma {:induction false} FullPagesCount(pages: seq<PageOutcome>, n: nat)
    requires n <= |pages| && forall j :: 0 <= j < n ==> !EndsFetching(pages[j])
    ensures |Concat(pages[..n])| >= PageSize * n
  {
    if n > 0 {
      FullPagesCount(pages, n - 1);
      assert pages[..n][..n - 1] == pages[..n - 1];
    }
  }

  /** The accumulated list is the full pages in order followed by the
      records of the last page, if it was an array. A non-ok response after
      full pages keeps what they brought. */
  lemma FetchedSpec(pages: seq<PageOutcome>)
    requires Terminates(pages)
    ensures var n := LastPage(pages);
      Fetched(pages) == Concat(pages[..n]) + (if pages[n].Page? then pages[n].records else [])
      && |Fetched(pages)| >= PageSize * n
      && (pages[n].NotOk? || pages[n].NotArray? ==> Fetched(pages) == Concat(pages[..n]))
  {
    var n := LastPage(pages);
    assert pages[..n + 1][..n] == pages[..n];
    FullPagesCount(pages, n);
  }

  /** Pages `0 .. n - 1` were full, so page `n` was requested. */
  predicate FullBefore(pages: seq<PageOutcome>, n: nat) {
    n < |pages| && forall i :: 0 <= i < n ==> !EndsFetching(pages[i])
  }

  /** The loop stops at the first page that is not full. */
  lemma LastPageAt(pages: seq<PageOutcome>, n: nat)
    requires FullBefore(pages, n) && EndsFetching(pages[n])
    ensures Terminates(pages) && LastPage(pages) == n
  {
    assert Terminates(pages);
    var l := LastPage(pages);
    assert EndsFetching(pages[l]) && EndsFetching(pages[n]);
  }

  /** The cache after a sync whose page `n` ends the loop, after `n` full
      pages:
      - a throw leaves the cache as it was;
      - a non-ok response or a non-array body installs the full pages,
        unless there were none, in which case the cache is kept;
      - an array installs the full pages followed by its records, unless
        it is the first page and empty, in which case the cache is kept.
      Whatever is installed holds at least 100 records per full page. */
  lemma SyncedCacheSpec(cache: seq<Download>, pages: seq<PageOutcome>, n: nat)
    requires FullBefore(pages, n) && EndsFetching(pages[n])
    ensures Terminates(pages)
    ensures pages[n].Throw? ==> SyncedCache(cache, pages) == cache
    ensures pages[n].NotOk? || pages[n].NotArray? ==>
      SyncedCache(cache, pages) == if n == 0 then cache else Concat(pages[..n])
    ensures pages[n].Page? ==>
      SyncedCache(cache, pages) ==
        if n == 0 && pages[n].records == [] then cache else Concat(pages[..n]) + pages[n].records
    ensures !pages[n].Throw? && n > 0 ==> |SyncedCache(cache, pages)| >= PageSize * n
  {
    LastPageAt(pages, n);
    FetchedSpec(pages);
    if n == 0 {
      assert pages[..0] == [];
    }
  }
}
