/** `finex_daily_extractor` end to end: scroll the listing page, wait for its container,
    collect and filter the links, then build one record per link whose page loads. */
module Extractor {
  import opened Wrappers
  import opened Scroll
  import opened LinkDiscovery
  import opened PageParsing
  import opened Records

  /** The listing page as the browser shows it: its height after each scroll, whether each
      wait for the container succeeds, and what reading each anchor's `href` gives. */
  datatype ListingPage = ListingPage(height: nat -> int, containerPresent: nat -> bool, anchors: seq<HrefRead>)

  /** `visit(u)` is what happens when the driver is sent to link `u`. The run fails when
      the container never appears or an anchor has no `href`; otherwise the records are
      those of the distinct kept links whose page loads, each link once. */
  method FinexDailyExtractor(listing: ListingPage, visit: string -> Visit, parse: DateParser)
    returns (outcome: Result<seq<ArticleRecord>, RunFailure>)
    ensures outcome == Failure(ContainerNotFound) <==>
      forall i :: 0 <= i < MaxRetries ==> !listing.containerPresent(i)
    ensures outcome == Failure(MissingHref) <==>
      (exists i :: 0 <= i < MaxRetries && listing.containerPresent(i)) && NoHref in listing.anchors
    ensures outcome.Success? ==> forall r :: r in outcome.value ==>
      WellFormed(r) && Keep(r.url) && Href(r.url) in listing.anchors && visit(r.url).Loaded?
    ensures outcome.Success? ==> forall r :: r in outcome.value ==>
      r == Assemble(r.url, ParsePage(visit(r.url).page, parse), visit(r.url).seconds)
    ensures outcome.Success? ==> forall u :: Href(u) in listing.anchors && Keep(u) && visit(u).Loaded? ==>
      exists r :: r in outcome.value && r.url == u
    ensures outcome.Success? ==> forall j, k :: 0 <= j < k < |outcome.value| ==>
      outcome.value[j].url != outcome.value[k].url
  {
    var scrolls := ScrollPage(listing.height, DefaultMaxScrolls);
    var attempts, found := WaitForContainer(listing.containerPresent);
    if !found {
      assert forall i :: 0 <= i < MaxRetries ==> !listing.containerPresent(i);
      return Failure(ContainerNotFound);
    }
    assert listing.containerPresent(attempts - 1);
    var hrefs := CollectHrefs(listing.anchors);
    var unique := Dedupe(hrefs);
    var filtered := FilterLinks(unique);
    if filtered.Failure? {
      return Failure(MissingHref);
    }
    var links := filtered.value;
    var visits := seq(|links|, i requires 0 <= i < |links| => visit(links[i]));
    var data := ExtractRecords(links, visits, parse);
    outcome := Success(data);

    forall r | r in data
      ensures Keep(r.url) && Href(r.url) in listing.anchors && visit(r.url).Loaded?
      ensures r == Assemble(r.url, ParsePage(visit(r.url).page, parse), visit(r.url).seconds)
    {
      RecordFromLoadedLink(links, visits, parse, r);
      var i :| 0 <= i < |links| && links[i] == r.url && visits[i].Loaded? && r == RecordAt(links, visits, parse, i);
      assert links[i] in links;
    }
    forall u | Href(u) in listing.anchors && Keep(u) && visit(u).Loaded?
      ensures exists r :: r in data && r.url == u
    {
      assert Some(u) in unique;
      var i :| 0 <= i < |links| && links[i] == u;
      LoadedLinkHasRecord(links, visits, parse, i);
    }
    DistinctLinksDistinctUrls(links, visits, parse);
  }
}
