/** Link discovery on the listing page of `finex_daily_extractor`: the bounded wait for the
    listing container, the collection of every anchor's `href`, the set-based
    de-duplication and the site filter. */
module LinkDiscovery {
  import opened Wrappers
  import opened PyStr

  /** Why a run of the extractor ends with an exception instead of a record list. */
  datatype RunFailure =
    | ContainerNotFound  // every wait failed, so `elem` is unbound when it is first used
    | MissingHref        // an anchor without `href` put `None` in the list, and `None.lower()` raises

  /** `max_retries`: how many times the listing container is waited for. */
  const MaxRetries := 5

  /** The retry loop around the wait for the listing container. `present(i)` tells whether
      the wait of attempt `i` (counted from 0) finds it; a wait that does not raises and
      is retried. Returns how many waits were made and whether the container was found. */
  method WaitForContainer(present: nat -> bool) returns (attempts: nat, found: bool)
    ensures 1 <= attempts <= MaxRetries
    ensures forall i :: 0 <= i < attempts - 1 ==> !present(i)
    ensures found <==> present(attempts - 1)
    ensures !found ==> attempts == MaxRetries
  {
    var retryCount := 0;
    found := false;
    while retryCount < MaxRetries
      invariant 0 <= retryCount <= MaxRetries
      invariant forall i :: 0 <= i < retryCount ==> !present(i)
    {
      if present(retryCount) {
        found := true;
        break;
      }
      retryCount := retryCount + 1;
    }
    attempts := if found then retryCount + 1 else retryCount;
  }

  /** What reading the `href` attribute of one anchor gives. */
  datatype HrefRead =
    | Href(url: string)  // the attribute's value
    | NoHref             // the anchor has no `href`: the read returns `None`
    | ReadRaises         // the element went stale and the read raised

  /** The list the collection loop builds: one entry per anchor whose read did not raise,
      in document order. */
  function HrefValues(anchors: seq<HrefRead>): (links: seq<Option<string>>)
    ensures |links| <= |anchors|
    ensures forall u :: Some(u) in links <==> Href(u) in anchors
    ensures None in links <==> NoHref in anchors
    decreases |anchors|
  {
    if anchors == [] then []
    else
      var init := anchors[..|anchors| - 1];
      var prev := HrefValues(init);
      assert anchors == init + [anchors[|anchors| - 1]];
      match anchors[|anchors| - 1]
      case Href(u) => prev + [Some(u)]
      case NoHref => prev + [None]
      case ReadRaises => prev
  }

  /** The loop over the container's anchors: an anchor whose attribute read raises is
      skipped and collection goes on with the next one. */
  method CollectHrefs(anchors: seq<HrefRead>) returns (links: seq<Option<string>>)
    ensures links == HrefValues(anchors)
  {
    links := [];
    for i := 0 to |anchors|
      invariant links == HrefValues(anchors[..i])
    {
      assert anchors[..i + 1][..i] == anchors[..i];
      match anchors[i]
      case Href(u) =>
        links := links + [Some(u)];
      case NoHref =>
        links := links + [None];
      case ReadRaises =>
    }
    assert anchors[..|anchors|] == anchors;
  }

  predicate Distinct<T(==)>(s: seq<T>) {
    forall i, j :: 0 <= i < j < |s| ==> s[i] != s[j]
  }

  /** `list(set(links))`: the same values without repetition, in an order the model
      leaves open (Python's hash order). */
  method Dedupe<T(==)>(links: seq<T>) returns (unique: seq<T>)
    ensures Distinct(unique)
    ensures forall x :: x in unique <==> x in links
  {
    var pending := set x | x in links;
    unique := [];
    while pending != {}
      invariant Distinct(unique)
      invariant forall x :: x in unique ==> x !in pending
      invariant forall x :: x in links <==> x in unique || x in pending
      invariant forall x :: x in pending ==> x in links
      decreases |pending|
    {
      var x :| x in pending;
      unique := unique + [x];
      pending := pending - {x};
    }
  }

  const SiteHttps := "https://www.financialexpress.com"
  const SiteHttp := "http://www.financialexpress.com"
  const AuthorPath := "/author/"
  const PaginationPath := "/market/page/"

  /** The condition of the list comprehension that keeps a link: lower-cased, it starts
      with the site's https or http root and with none of the author-listing or market
      pagination prefixes under either scheme. */
  predicate Keep(link: string) {
    var l := Lower(link);
    && (StartsWith(l, SiteHttps) || StartsWith(l, SiteHttp))
    && !StartsWith(l, SiteHttps + AuthorPath)
    && !StartsWith(l, SiteHttps + PaginationPath)
    && !StartsWith(l, SiteHttp + AuthorPath)
    && !StartsWith(l, SiteHttp + PaginationPath)
  }

  /** A path under the site root that the filter rejects. */
  predicate ExcludedPath(path: string) {
    StartsWith(path, AuthorPath) || StartsWith(path, PaginationPath)
  }

  /** The filter read as "a page of the site under either scheme that is neither an author
      listing nor a market listing page", whatever the case of the link. */
  lemma {:induction false} KeepIffSitePage(link: string)
    ensures Keep(link) <==>
      var l := Lower(link);
      || (StartsWith(l, SiteHttps) && !ExcludedPath(l[|SiteHttps|..]))
      || (StartsWith(l, SiteHttp) && !ExcludedPath(l[|SiteHttp|..]))
  {
    var l := Lower(link);
    StartsWithConcat(l, SiteHttps, AuthorPath);
    StartsWithConcat(l, SiteHttps, PaginationPath);
    StartsWithConcat(l, SiteHttp, AuthorPath);
    StartsWithConcat(l, SiteHttp, PaginationPath);
    // The two roots differ at their fifth character, so at most one of them applies.
    assert StartsWith(l, SiteHttps) ==> l[4] == 's';
    assert StartsWith(l, SiteHttp) ==> l[4] == ':';
  }

  /** The filter ignores case: a link and its lower-cased form are kept alike. */
  lemma KeepIgnoresCase(link: string)
    ensures Keep(Lower(link)) == Keep(link)
  {
    LowerIdempotent(link);
  }

  /** The list comprehension over the de-duplicated links. It raises on the first `None`
      it meets (`None` has no `lower`); otherwise it keeps the links that pass `Keep`. */
  function FilterLinks(links: seq<Option<string>>): (r: Result<seq<string>, RunFailure>)
    ensures r.Failure? <==> None in links
    ensures r.Failure? ==> r.error == MissingHref
    ensures r.Success? ==> forall u :: u in r.value <==> Some(u) in links && Keep(u)
    ensures r.Success? && Distinct(links) ==> Distinct(r.value)
    decreases |links|
  {
    if links == [] then Success([])
    else match links[0]
      case None => Failure(MissingHref)
      case Some(u) =>
        var rest := FilterLinks(links[1..]);
        if rest.Failure? then rest
        else if Keep(u) then Success([u] + rest.value)
        else rest
  }
}
