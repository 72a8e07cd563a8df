/**
 * Client-side pagination as the catalogue and review views compute it:
 * `list.slice((page - 1) * n, (page - 1) * n + n)` for the shown page and
 * `Math.ceil(list.length / n)` for the number of pages.
 */
module Paging {
  import opened Seqs

  /** The items shown on `page` when each page holds `perPage` items. */
  function PageOf<T>(s: seq<T>, page: int, perPage: nat): seq<T>
  {
    Slice(s, (page - 1) * perPage, (page - 1) * perPage + perPage)
  }

  /** `Math.ceil(len / perPage)`. */
  function PageCount(len: nat, perPage: nat): (r: nat)
    requires perPage > 0
    ensures r * perPage >= len
    ensures r > 0 ==> (r - 1) * perPage < len
    ensures r == 0 <==> len == 0
  {
    if len == 0 then 0
    else if len <= perPage then 1
    else 1 + PageCount(len - perPage, perPage)
  }

  /** A page never shows more than `perPage` items, for any page number. */
  lemma PageWidth<T>(s: seq<T>, page: int, perPage: nat)
    ensures |PageOf(s, page, perPage)| <= perPage
  {
    SliceWidth(s, (page - 1) * perPage, perPage);
  }

  /**
   * For a page number the pagination control can produce (page >= 1), the
   * shown items are the contiguous run starting at (page - 1) * perPage, cut
   * at the end of the list.
   */
  lemma PageRun<T>(s: seq<T>, page: int, perPage: nat)
    requires page >= 1
    ensures var start := (page - 1) * perPage;
            PageOf(s, page, perPage) == s[Min(start, |s|)..Min(start + perPage, |s|)]
  {
    assert (page - 1) * perPage >= 0;
  }

  /** A page that starts at or past the end of the list is empty. */
  lemma PagePastEnd<T>(s: seq<T>, page: int, perPage: nat)
    requires perPage > 0
    requires page > PageCount(|s|, perPage)
    ensures PageOf(s, page, perPage) == []
  {
    var k := PageCount(|s|, perPage);
    assert (page - 1) * perPage >= k * perPage by {
      MulMonotone(k, page - 1, perPage);
    }
    PageRun(s, page, perPage);
  }

  /** Item i lies in any run of positions, cut at the end of the list, that covers i. */
  lemma IndexInRun<T>(s: seq<T>, i: nat, start: nat, width: nat)
    requires i < |s| && start <= i < start + width
    ensures s[i] in s[Min(start, |s|)..Min(start + width, |s|)]
  {
    assert s[Min(start, |s|)..Min(start + width, |s|)][i - start] == s[i];
  }

  lemma MulMonotone(a: nat, b: nat, c: nat)
    requires a <= b
    ensures a * c <= b * c
  {
  }

  /** Pages 1..k laid end to end. */
  function Pages<T>(s: seq<T>, perPage: nat, k: nat): seq<T>
  {
    if k == 0 then [] else Pages(s, perPage, k - 1) + PageOf(s, k, perPage)
  }

  /** Pages 1..k hold exactly the first k * perPage items. */
  lemma {:induction false} PagesPrefix<T>(s: seq<T>, perPage: nat, k: nat)
    ensures Pages(s, perPage, k) == s[..Min(k * perPage, |s|)]
  {
    if k > 0 {
      PagesPrefix(s, perPage, k - 1);
      PrefixThenPage(s, perPage, k);
    }
  }

  /** The first k - 1 pages followed by page k are the first k pages' worth of items. */
  lemma PrefixThenPage<T>(s: seq<T>, perPage: nat, k: nat)
    requires k > 0
    ensures s[..Min((k - 1) * perPage, |s|)] + PageOf(s, k, perPage) == s[..Min(k * perPage, |s|)]
  {
    MulSucc(k - 1, perPage);
    PageRun(s, k, perPage);
    PrefixJoin(s, (k - 1) * perPage, k * perPage);
  }

  /** Cutting the list at `a` and again at `b` (a <= b) and rejoining the parts gives its first b items. */
  lemma PrefixJoin<T>(s: seq<T>, a: nat, b: nat)
    requires a <= b
    ensures s[..Min(a, |s|)] + s[Min(a, |s|)..Min(b, |s|)] == s[..Min(b, |s|)]
  {
    assert s[..Min(b, |s|)] == s[..Min(b, |s|)][..Min(a, |s|)] + s[Min(a, |s|)..Min(b, |s|)];
  }

  lemma MulSucc(a: nat, c: nat)
    ensures a * c + c == (a + 1) * c
  {
  }

  /**
   * Every item of the list is shown on exactly one page: pages 1 through
   * PageCount, in order, concatenate back to the whole list.
   */
  lemma PagesCoverAll<T>(s: seq<T>, perPage: nat)
    requires perPage > 0
    ensures Pages(s, perPage, PageCount(|s|, perPage)) == s
  {
    PagesPrefix(s, perPage, PageCount(|s|, perPage));
  }
}
