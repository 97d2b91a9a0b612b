/** The page record the content hub works with (`SitemapPage`). A JavaScript `null` or a
    missing field is `None`; the analysis object is carried as its serialised text. */
module Pages {
  import opened Text

  datatype SitemapPage = SitemapPage(
    id: string,
    title: string,
    slug: string,
    lastMod: Option<string>,
    wordCount: Option<nat>,
    crawledContent: Option<string>,
    healthScore: Option<int>,
    updatePriority: Option<string>,
    justification: Option<string>,
    daysOld: Option<int>,
    isStale: bool,
    publishedState: string,
    status: string,
    analysis: Option<string>,
    opportunityScore: Option<int>)

  function Ids(pages: seq<SitemapPage>): (ids: seq<string>)
    ensures |ids| == |pages| && forall k :: 0 <= k < |pages| ==> ids[k] == pages[k].id
  {
    seq(|pages|, k requires 0 <= k < |pages| => pages[k].id)
  }
}
