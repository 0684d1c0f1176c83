/** The record loop of `finex_daily_extractor`: every link is visited, parsed and turned
    into the fixed-shape record the queue consumer expects. */
module Records {
  import opened Wrappers
  import opened PyStr
  import opened PageParsing

  datatype Topic = Topic(name: string, group: string)
  datatype Source = Source(homeUrl: string)

  /** The record dictionary, one field per key. */
  datatype ArticleRecord = ArticleRecord(
    originalUrl: string,
    url: string,
    harvestDate: Option<string>,
    publishedDate: Option<string>,
    estimatedPublishedDate: Option<string>,
    duplicateGroupId: string,
    id: string,
    languageCode: string,
    title: Option<string>,
    content: string,
    topics: seq<Topic>,
    source: Source,
    originalName: Option<string>,
    stockTicker: string,
    AssetClass: string,
    NerMessage: string)

  const IdPrefix := "finex_"
  const ListingUrl := "https://www.financialexpress.com/market/"
  const FinanceTopics := [Topic("Finance latest", "Finance")]

  /** The fixed part of every record. */
  predicate WellFormed(r: ArticleRecord) {
    && r.url == r.originalUrl
    && r.harvestDate == r.publishedDate == r.estimatedPublishedDate
    && r.id == r.duplicateGroupId
    && r.languageCode == "en"
    && r.topics == FinanceTopics
    && r.source == Source(ListingUrl)
    && r.stockTicker == "" && r.AssetClass == "" && r.NerMessage == ""
  }

  /** `finex_` followed by the whole seconds of the clock. */
  function UniqueId(seconds: nat): (id: string)
    ensures StartsWith(id, IdPrefix)
    ensures forall i :: |IdPrefix| <= i < |id| ==> IsDigit(id[i])
  {
    IdPrefix + Decimal(seconds)
  }

  /** Two records get the same id exactly when they are assembled in the same second. */
  lemma UniqueIdCollision(a: nat, b: nat)
    ensures UniqueId(a) == UniqueId(b) <==> a == b
  {
    if UniqueId(a) == UniqueId(b) {
      assert Decimal(a) == UniqueId(a)[|IdPrefix|..];
      assert Decimal(b) == UniqueId(b)[|IdPrefix|..];
      DecimalInjective(a, b);
    }
  }

  /** The record built from a link, the page result and the clock reading. */
  function Assemble(link: string, res: PageResult, seconds: nat): (r: ArticleRecord)
    ensures WellFormed(r)
    ensures r.url == link && r.harvestDate == res.date
    ensures r.title == res.title && r.content == res.body && r.originalName == res.author
    ensures StartsWith(r.id, IdPrefix) && r.id[|IdPrefix|..] == Decimal(seconds)
  {
    var uniqueId := UniqueId(seconds);
    ArticleRecord(
      originalUrl := link,
      url := link,
      harvestDate := res.date,
      publishedDate := res.date,
      estimatedPublishedDate := res.date,
      duplicateGroupId := uniqueId,
      id := uniqueId,
      languageCode := "en",
      title := res.title,
      content := res.body,
      topics := FinanceTopics,
      source := Source(ListingUrl),
      originalName := res.author,
      stockTicker := "",
      AssetClass := "",
      NerMessage := "")
  }

  /** What happens when the driver is sent to one link: navigation raises (the link is
      skipped and the driver replaced), or the page loads and is parsed, the clock reading
      whole `seconds` when the record is assembled. */
  datatype Visit = NavigationFails | Loaded(page: ArticlePage, seconds: nat)

  /** Python's `==` between the tuple `page_parsing` returns and a record dictionary:
      values of these two types never compare equal. */
  predicate TupleEqualsDict(res: PageResult, d: ArticleRecord) {
    false
  }

  /** The guard `res and res not in data`. */
  predicate Accepted(res: PageResult, data: seq<ArticleRecord>) {
    // `res` is a 4-tuple, so always truthy; `not in` compares it with each dictionary
    forall d | d in data :: !TupleEqualsDict(res, d)
  }

  /** The guard lets every parse result through: it never de-duplicates, and its `else`
      branch (the debugger breakpoint) is unreachable. */
  lemma GuardNeverRejects(res: PageResult, data: seq<ArticleRecord>)
    ensures Accepted(res, data)
  {
  }

  /** Reference reading of the record loop over the first `|links|` links. */
  function RecordLoop(links: seq<string>, visits: seq<Visit>, parse: DateParser): (data: seq<ArticleRecord>)
    requires |links| == |visits|
    ensures |data| <= |links|
    ensures forall r :: r in data ==> WellFormed(r) && r.url in links
    decreases |links|
  {
    if links == [] then []
    else
      var n := |links| - 1;
      var prev := RecordLoop(links[..n], visits[..n], parse);
      match visits[n]
      case NavigationFails => prev
      case Loaded(page, seconds) =>
        var res := ParsePage(page, parse);
        if Accepted(res, prev) then prev + [Assemble(links[n], res, seconds)] else prev
  }

  /** Positions of the links whose page loaded, in increasing order. */
  function LoadedIndices(visits: seq<Visit>): (idx: seq<nat>)
    ensures forall j :: 0 <= j < |idx| ==> idx[j] < |visits| && visits[idx[j]].Loaded?
    ensures forall j, k :: 0 <= j < k < |idx| ==> idx[j] < idx[k]
    ensures forall i :: 0 <= i < |visits| && visits[i].Loaded? ==> i in idx
    decreases |visits|
  {
    if visits == [] then []
    else
      var n := |visits| - 1;
      var prev := LoadedIndices(visits[..n]);
      if visits[n].Loaded? then prev + [n] else prev
  }

  /** The record assembled for the link at position `i`. */
  function RecordAt(links: seq<string>, visits: seq<Visit>, parse: DateParser, i: nat): ArticleRecord
    requires i < |links| == |visits| && visits[i].Loaded?
  {
    Assemble(links[i], ParsePage(visits[i].page, parse), visits[i].seconds)
  }

  /** The records are exactly those of the links whose page loaded, one each, in link
      order: a link whose navigation raises adds nothing, and the links after it are
      still processed. */
  lemma {:induction false} RecordsAreLoadedLinks(links: seq<string>, visits: seq<Visit>, parse: DateParser)
    requires |links| == |visits|
    ensures |RecordLoop(links, visits, parse)| == |LoadedIndices(visits)|
    ensures forall j :: 0 <= j < |LoadedIndices(visits)| ==>
      RecordLoop(links, visits, parse)[j] == RecordAt(links, visits, parse, LoadedIndices(visits)[j])
    decreases |links|
  {
    if links != [] {
      var n := |links| - 1;
      var pl, pv := links[..n], visits[..n];
      RecordsAreLoadedLinks(pl, pv, parse);
      var prev, prevIdx := RecordLoop(pl, pv, parse), LoadedIndices(pv);
      var data, idx := RecordLoop(links, visits, parse), LoadedIndices(visits);
      if visits[n].Loaded? {
        GuardNeverRejects(ParsePage(visits[n].page, parse), prev);
        assert data == prev + [RecordAt(links, visits, parse, n)];
        assert idx == prevIdx + [n];
      } else {
        assert data == prev && idx == prevIdx;
      }
      forall j | 0 <= j < |idx| ensures data[j] == RecordAt(links, visits, parse, idx[j]) {
        if j < |prevIdx| {
          assert data[j] == prev[j] == RecordAt(pl, pv, parse, prevIdx[j]);
        }
      }
    }
  }

  /** A record is the one assembled for a link whose page loaded. */
  lemma RecordFromLoadedLink(links: seq<string>, visits: seq<Visit>, parse: DateParser, r: ArticleRecord)
    requires |links| == |visits| && r in RecordLoop(links, visits, parse)
    ensures exists i :: 0 <= i < |links| && links[i] == r.url && visits[i].Loaded? && r == RecordAt(links, visits, parse, i)
  {
    var data := RecordLoop(links, visits, parse);
    RecordsAreLoadedLinks(links, visits, parse);
    var idx := LoadedIndices(visits);
    var j :| 0 <= j < |data| && data[j] == r;
    assert r.url == links[idx[j]];
  }

  /** Every link whose page loaded has a record. */
  lemma LoadedLinkHasRecord(links: seq<string>, visits: seq<Visit>, parse: DateParser, i: nat)
    requires i < |links| == |visits| && visits[i].Loaded?
    ensures exists r :: r in RecordLoop(links, visits, parse) && r.url == links[i]
  {
    var data := RecordLoop(links, visits, parse);
    RecordsAreLoadedLinks(links, visits, parse);
    var idx := LoadedIndices(visits);
    assert i in idx;
    var j :| 0 <= j < |idx| && idx[j] == i;
    assert data[j] in data && data[j].url == links[i];
  }

  /** Distinct links give records with distinct urls. */
  lemma DistinctLinksDistinctUrls(links: seq<string>, visits: seq<Visit>, parse: DateParser)
    requires |links| == |visits|
    requires forall i, j :: 0 <= i < j < |links| ==> links[i] != links[j]
    ensures var data := RecordLoop(links, visits, parse);
      forall j, k :: 0 <= j < k < |data| ==> data[j].url != data[k].url
  {
    var data := RecordLoop(links, visits, parse);
    RecordsAreLoadedLinks(links, visits, parse);
    var idx := LoadedIndices(visits);
    forall j, k | 0 <= j < k < |data| ensures data[j].url != data[k].url {
      assert data[j].url == links[idx[j]] && data[k].url == links[idx[k]];
    }
  }

  /** The record loop. `visits[i]` is what happens at `links[i]`. */
  method ExtractRecords(links: seq<string>, visits: seq<Visit>, parse: DateParser) returns (data: seq<ArticleRecord>)
    requires |links| == |visits|
    ensures data == RecordLoop(links, visits, parse)
  {
    data := [];
    for i := 0 to |links|
      invariant data == RecordLoop(links[..i], visits[..i], parse)
    {
      assert links[..i + 1][..i] == links[..i] && visits[..i + 1][..i] == visits[..i];
      match visits[i] {
        case NavigationFails =>
          // logged; the driver is closed and replaced, and the loop goes on
        case Loaded(page, seconds) =>
          var res := PageParsingOf(page, parse);
          if Accepted(res, data) {
            data := data + [Assemble(links[i], res, seconds)];
          }
      }
    }
    assert links[..|links|] == links && visits[..|visits|] == visits;
  }
}
