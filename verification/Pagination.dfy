/** Collecting a merge request's file diffs page by page. */
module Pagination {
  import opened DiffFiles

  datatype Response = Response(items: seq<FileDiff>, nextPage: nat)

  /** A listing split into pages; page 0 is how the client asks for the first one, and the
      last page names 0 as its successor. */
  function ListDiffs(pages: seq<seq<FileDiff>>, page: nat): Response
    requires 0 < |pages| && page <= |pages|
  {
    var p := if page == 0 then 1 else page;
    Response(pages[p - 1], if p < |pages| then p + 1 else 0)
  }

  function Concat(pages: seq<seq<FileDiff>>): seq<FileDiff> {
    if pages == [] then [] else Concat(pages[..|pages| - 1]) + pages[|pages| - 1]
  }

  /** Follows the next-page links; every item of every page, in order. */
  method GetDiff(pages: seq<seq<FileDiff>>) returns (diffs: seq<FileDiff>)
    requires pages != []
    ensures diffs == Concat(pages)
  {
    diffs := [];
    var page := 0;
    var done := 0;
    assert pages[..0] == [];
    while true
      invariant done < |pages|
      invariant page == if done == 0 then 0 else done + 1
      invariant diffs == Concat(pages[..done])
      decreases |pages| - done
    {
      var resp := ListDiffs(pages, page);
      assert pages[..done + 1][..done] == pages[..done];
      diffs := diffs + resp.items;
      done := done + 1;
      if resp.nextPage == 0 {
        assert pages[..done] == pages;
        break;
      }
      page := resp.nextPage;
    }
  }

  method GetDiffUnified(pages: seq<seq<FileDiff>>) returns (text: string)
    requires pages != []
    ensures text == Print(Concat(pages))
  {
    var diffs := GetDiff(pages);
    text := "";
    for i := 0 to |diffs|
      invariant text == Print(diffs[..i])
    {
      assert diffs[..i + 1][..i] == diffs[..i];
      text := text + PrintOne(diffs[i]);
    }
    assert diffs[..|diffs|] == diffs;
  }

  // ------------------------------------- the provider's loop never turns the page

  datatype Fetch = Running(text: string) | Finished(text: string)

  /** The state of the provider's FetchDiff after k rounds. It passes no options, so every
      round asks for the first page. */
  function FetchRounds(pages: seq<seq<FileDiff>>, k: nat): Fetch
    requires pages != []
  {
    if k == 0 then Running("")
    else
      match FetchRounds(pages, k - 1)
      case Finished(text) => Finished(text)
      case Running(text) =>
        var resp := ListDiffs(pages, 0);
        if resp.nextPage == 0 then Finished(text + Print(resp.items)) else Running(text + Print(resp.items))
  }

  function Repeat(s: string, k: nat): string {
    if k == 0 then "" else Repeat(s, k - 1) + s
  }

  /** With more than one page the loop goes round for ever on the first page. */
  lemma {:induction false} FetchRepeatsFirstPage(pages: seq<seq<FileDiff>>, k: nat)
    requires |pages| > 1
    ensures FetchRounds(pages, k) == Running(Repeat(Print(pages[0]), k))
  {
    if k > 0 {
      FetchRepeatsFirstPage(pages, k - 1);
    }
  }

  /** FetchDiff ends exactly when the listing fits one page, and then its text is the one
      GetDiffUnified gives. */
  lemma {:induction false} FetchEndsExactlyOnOnePage(pages: seq<seq<FileDiff>>)
    requires pages != []
    ensures (exists k: nat :: FetchRounds(pages, k).Finished?) <==> |pages| == 1
    ensures |pages| == 1 ==> FetchRounds(pages, 1) == Finished(Print(Concat(pages)))
  {
    if |pages| == 1 {
      assert pages[..0] == [];
      assert Concat(pages) == [] + pages[0] == pages[0];
      assert FetchRounds(pages, 0) == Running("");
      assert "" + Print(pages[0]) == Print(pages[0]);
      assert FetchRounds(pages, 1).Finished?;
    } else {
      forall k: nat
        ensures !FetchRounds(pages, k).Finished?
      {
        FetchRepeatsFirstPage(pages, k);
      }
    }
  }
}
