/** The paginated history replies: ten entries per page, a page counter and
    Back/Next buttons. The creating and the editing builders of each history
    command compute the same bounds, so both are this one function. */
module Pagination {
  import opened Rows

  const EntriesPerPage: nat := 10

  /** One embed field: the time stamp its title shows, and its text. */
  datatype Entry = Entry(recordedAt: Timestamp, content: string)

  datatype Page<T> = Page(items: seq<T>, totalPages: nat, backDisabled: bool, nextDisabled: bool)

  /** ⌈n / d⌉, as the builders get it from a float ceil. */
  function CeilDiv(n: nat, d: nat): nat
    requires d > 0
  {
    (n + d - 1) / d
  }

  /** start = page·10 and end = min(start + 10, len); slicing [start..end]
      panics when start > end, which happens exactly when start > len. */
  function PageOf<T>(entries: seq<T>, page: nat): Option<Page<T>>
  {
    var start := page * EntriesPerPage;
    var end := if start + EntriesPerPage < |entries| then start + EntriesPerPage else |entries|;
    if start > end then None
    else Some(Page(entries[start..end], CeilDiv(|entries|, EntriesPerPage), page == 0, end == |entries|))
  }

  /** A page exists exactly when it starts inside the list (or right at its
      end); it then holds at most ten entries, the ones from page·10 on,
      Back is disabled exactly on the first page and Next exactly when the
      page reaches the end of the list. */
  lemma PageBounds<T>(entries: seq<T>, page: nat)
    ensures PageOf(entries, page).Some? <==> page * EntriesPerPage <= |entries|
    ensures PageOf(entries, page).Some? ==>
      var p := PageOf(entries, page).value;
      && |p.items| <= EntriesPerPage
      && (forall k :: 0 <= k < |p.items| ==> p.items[k] == entries[page * EntriesPerPage + k])
      && (p.backDisabled <==> page == 0)
      && (p.nextDisabled <==> |entries| <= page * EntriesPerPage + EntriesPerPage)
      && (!p.nextDisabled ==> |p.items| == EntriesPerPage)
  {
  }

  /** The page count is the least number of ten-entry pages holding the
      list. */
  lemma TotalPagesIsCeiling(n: nat)
    ensures CeilDiv(n, EntriesPerPage) * EntriesPerPage >= n
    ensures CeilDiv(n, EntriesPerPage) == 0 || (CeilDiv(n, EntriesPerPage) - 1) * EntriesPerPage < n
  {
  }

  /** Next is offered only when the following page exists and is still
      within the page count. */
  lemma NextPageExists<T>(entries: seq<T>, page: nat)
    requires PageOf(entries, page).Some? && !PageOf(entries, page).value.nextDisabled
    ensures PageOf(entries, page + 1).Some?
    ensures page + 1 < PageOf(entries, page).value.totalPages
  {
    PageBounds(entries, page);
    PageBounds(entries, page + 1);
    TotalPagesIsCeiling(|entries|);
  }

  /** Back is offered only when the previous page exists. */
  lemma BackPageExists<T>(entries: seq<T>, page: nat)
    requires PageOf(entries, page).Some? && !PageOf(entries, page).value.backDisabled
    ensures PageOf(entries, page - 1).Some?
  {
  }

  /** Every entry is shown: entry k is item k % 10 of page k / 10. */
  lemma EveryEntryOnItsPage<T>(entries: seq<T>, k: nat)
    requires k < |entries|
    ensures PageOf(entries, k / EntriesPerPage).Some?
    ensures k % EntriesPerPage < |PageOf(entries, k / EntriesPerPage).value.items|
    ensures PageOf(entries, k / EntriesPerPage).value.items[k % EntriesPerPage] == entries[k]
  {
    var page := k / EntriesPerPage;
    assert page * EntriesPerPage + k % EntriesPerPage == k;
    PageBounds(entries, page);
  }

  /** sub occurs in content at position i. */
  predicate OccursAt(content: string, sub: string, i: int)
  {
    0 <= i && i + |sub| <= |content| && content[i..i + |sub|] == sub
  }

  ghost predicate Contains(content: string, sub: string)
  {
    exists i :: OccursAt(content, sub, i)
  }
}
