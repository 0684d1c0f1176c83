/** `page_parsing` and `clean_datetime_string`: reading the title, body, author and
    publication date of one article page. The rendered page is an input: each element
    lookup or text read either yields its value or raises. */
module PageParsing {
  import opened Wrappers
  import opened PyStr

  /** The body must be longer than this for author and date to be read. */
  const MinBodyLength := 150

  /** Marker removed from the raw date text. */
  const UpdatedMarker := "Updated:"

  /** The date library (`dateutil` parsing with the IST offset, then `strftime`): the
      normalised date, or `None` when it raises. */
  type DateParser = string -> Option<string>

  /** What looking for anchors inside a paragraph gives. */
  datatype AnchorLookup = Anchors(count: nat) | LookupRaises

  /** One `<p>` of the article container: its anchor lookup, what the first read of its
      text gives and what a second read gives (`None` when that read raises). */
  datatype Paragraph = Paragraph(anchors: AnchorLookup, text: Option<string>, retryText: Option<string>)

  /** A paragraph whose text goes into the body: it has no anchor, or the anchor lookup
      raised and the text is taken anyway. */
  predicate Included(p: Paragraph) {
    p.anchors.LookupRaises? || p.anchors.count == 0
  }

  /** The text an included paragraph adds to the body, or `None` when a read that nothing
      catches raises. When the anchor lookup raised, the handler reads the text once; when
      there is no anchor, a first read that raises is caught and the handler reads again. */
  function Contributed(p: Paragraph): (t: Option<string>)
    requires Included(p)
    ensures t.Some? <==> p.text.Some? || (p.anchors.Anchors? && p.retryText.Some?)
  {
    if p.anchors.LookupRaises? || p.text.Some? then p.text else p.retryText
  }

  /** The body accumulated over some paragraphs, and whether a text read raised out of
      the paragraph loop (which ends the whole parse). */
  datatype BodyScan = BodyScan(text: string, aborted: bool)

  /** Reference reading of the body: the texts of the included paragraphs concatenated in
      document order, up to the first included paragraph whose text cannot be read. */
  function Scan(ps: seq<Paragraph>): (r: BodyScan)
    ensures !r.aborted ==> forall i :: 0 <= i < |ps| && Included(ps[i]) ==> Contributed(ps[i]).Some?
    decreases |ps|
  {
    if ps == [] then BodyScan("", false)
    else if !Included(ps[0]) then Scan(ps[1..])
    else if Contributed(ps[0]).None? then BodyScan("", true)
    else
      var rest := Scan(ps[1..]);
      BodyScan(Contributed(ps[0]).value + rest.text, rest.aborted)
  }

  /** One iteration of the paragraph loop. */
  function Step(acc: BodyScan, p: Paragraph): BodyScan {
    if acc.aborted || !Included(p) then acc
    else if Contributed(p).None? then BodyScan(acc.text, true)
    else BodyScan(acc.text + Contributed(p).value, false)
  }

  /** Scanning one more paragraph is one more loop iteration. */
  lemma {:induction false} ScanSnoc(ps: seq<Paragraph>, p: Paragraph)
    ensures Scan(ps + [p]) == Step(Scan(ps), p)
    decreases |ps|
  {
    if ps == [] {
      assert [p][1..] == [];
      if Included(p) && Contributed(p).Some? {
        assert Contributed(p).value + "" == "" + Contributed(p).value;
      }
    } else {
      assert (ps + [p])[0] == ps[0];
      assert (ps + [p])[1..] == ps[1..] + [p];
      ScanSnoc(ps[1..], p);
      if Included(ps[0]) && Contributed(ps[0]).Some? {
        var rest := Scan(ps[1..]);
        if !rest.aborted && Included(p) && Contributed(p).Some? {
          assert Contributed(ps[0]).value + (rest.text + Contributed(p).value)
              == (Contributed(ps[0]).value + rest.text) + Contributed(p).value;
        }
      }
    }
  }

  /** Once a text read has raised, later paragraphs are never looked at. */
  lemma {:induction false} ScanAbortedPrefix(ps: seq<Paragraph>, k: nat)
    requires k <= |ps| && Scan(ps[..k]).aborted
    ensures Scan(ps) == Scan(ps[..k])
    decreases |ps|
  {
    if k == |ps| {
      assert ps[..k] == ps;
    } else {
      assert ps[..k] == ps[..|ps| - 1][..k];
      ScanAbortedPrefix(ps[..|ps| - 1], k);
      assert ps == ps[..|ps| - 1] + [ps[|ps| - 1]];
      ScanSnoc(ps[..|ps| - 1], ps[|ps| - 1]);
    }
  }

  /** A paragraph with anchors, wherever it stands, changes nothing. */
  lemma {:induction false} AnchoredParagraphIgnored(ps: seq<Paragraph>, qs: seq<Paragraph>, p: Paragraph)
    requires p.anchors.Anchors? && p.anchors.count > 0
    ensures Scan(ps + [p] + qs) == Scan(ps + qs)
    decreases |ps|
  {
    if ps == [] {
      assert ps + [p] + qs == [p] + qs;
      assert ps + qs == qs;
      assert ([p] + qs)[1..] == qs;
    } else {
      assert (ps + [p] + qs)[0] == ps[0] && (ps + qs)[0] == ps[0];
      assert (ps + [p] + qs)[1..] == ps[1..] + [p] + qs;
      assert (ps + qs)[1..] == ps[1..] + qs;
      AnchoredParagraphIgnored(ps[1..], qs, p);
    }
  }

  /** The paragraph loop of `page_parsing`, growing the body from the empty string. */
  method AccumulateBody(ps: seq<Paragraph>) returns (body: string, aborted: bool)
    ensures BodyScan(body, aborted) == Scan(ps)
  {
    body, aborted := "", false;
    var i := 0;
    while i < |ps| && !aborted
      invariant 0 <= i <= |ps|
      invariant BodyScan(body, aborted) == Scan(ps[..i])
    {
      var p := ps[i];
      assert ps[..i + 1] == ps[..i] + [p];
      ScanSnoc(ps[..i], p);
      match p.anchors {
        case Anchors(count) =>
          if count == 0 {
            match p.text {
              case Some(t) => body := body + t;
              case None =>
                // the handler reads the text a second time, and nothing catches that read
                match p.retryText {
                  case Some(t) => body := body + t;
                  case None => aborted := true;
                }
            }
          }
        case LookupRaises =>
          // the except branch reads the text anyway
          match p.text {
            case Some(t) => body := body + t;
            case None => aborted := true;
          }
      }
      i := i + 1;
    }
    if aborted {
      ScanAbortedPrefix(ps, i);
    } else {
      assert ps[..i] == ps;
    }
  }

  /** `date_parse`: the parser's result, or the `UnboundLocalError` raised by `return x`
      when the parser failed and `x` was never bound. */
  function DateParse(s: string, parse: DateParser): (r: Result<string, string>)
    ensures r.Success? <==> parse(s).Some?
    ensures r.Success? ==> r.value == parse(s).value
  {
    match parse(s)
    case Some(d) => Success(d)
    case None => Failure("UnboundLocalError")
  }

  /** `clean_datetime_string`: every `Updated:` is removed and the stripped text is parsed;
      when parsing raises, the caught exception leaves the unstripped text in place. */
  function CleanDatetimeString(input: string, parse: DateParser): (r: string)
    ensures var cleaned := RemoveAll(input, UpdatedMarker);
      && (parse(Strip(cleaned)).Some? ==> r == parse(Strip(cleaned)).value)
      && (parse(Strip(cleaned)).None? ==> r == cleaned)
  {
    var cleaned := RemoveAll(input, UpdatedMarker);
    match DateParse(Strip(cleaned), parse)
    case Success(d) => d
    case Failure(_) => cleaned
  }

  /** A date text that carries no marker and that the parser rejects comes back exactly as
      it was read, surrounding whitespace included. */
  lemma UnparsableDateUnchanged(input: string, parse: DateParser)
    requires !Occurs(input, UpdatedMarker) && parse(Strip(input)).None?
    ensures CleanDatetimeString(input, parse) == input
  {
    RemoveAllNoMatch(input, UpdatedMarker);
  }

  /** The usual shape of the date text, `Updated: ` followed by a date such as
      `Jan 5, 2024 10:30 AM IST` with no outer whitespace and no marker inside it: the
      parser is handed exactly the date, and when it fails the result keeps the space
      that followed the marker. */
  lemma UpdatedDateParsed(date: string, parse: DateParser)
    requires date != [] && !IsSpace(date[0]) && !IsSpace(date[|date| - 1])
    requires !Occurs(date, UpdatedMarker)
    ensures CleanDatetimeString(UpdatedMarker + " " + date, parse)
         == if parse(date).Some? then parse(date).value else " " + date
  {
    var rest := " " + date;
    assert UpdatedMarker + " " + date == UpdatedMarker + rest;
    NoMatchAfterOther(' ', date, UpdatedMarker);
    MarkerRemoved(rest);
    SpaceStripped(date);
  }

  /** A leading marker is removed when the rest holds no other one. */
  lemma MarkerRemoved(rest: string)
    requires !Occurs(rest, UpdatedMarker)
    ensures RemoveAll(UpdatedMarker + rest, UpdatedMarker) == rest
  {
    var input := UpdatedMarker + rest;
    assert input[..|UpdatedMarker|] == UpdatedMarker;
    RemoveAllDrop(input, UpdatedMarker);
    assert input[|UpdatedMarker|..] == rest;
    RemoveAllNoMatch(rest, UpdatedMarker);
  }

  /** Stripping drops the single space before a text that has no outer whitespace. */
  lemma SpaceStripped(date: string)
    requires date != [] && !IsSpace(date[0]) && !IsSpace(date[|date| - 1])
    ensures Strip(" " + date) == date
  {
    var rest := " " + date;
    assert rest[1..] == date;
    assert LeadingSpaces(rest) == 1;
    assert TrailingSpaces(date) == 0;
    assert date[..|date|] == date;
  }

  /** The article page as the browser shows it; `None` marks a lookup that raises. */
  datatype ArticlePage = ArticlePage(
    title: Option<string>,                // headline present within the wait, text readable
    paragraphs: Option<seq<Paragraph>>,   // the article container
    author: Option<string>,               // the author link's text
    dateText: Option<string>)             // the date element's text

  /** The tuple `(date, title, body, author)` that `page_parsing` returns. */
  datatype PageResult = PageResult(date: Option<string>, title: Option<string>, body: string, author: Option<string>)

  /** The parse reaches the author and date lookups: the headline and the article
      container are found, the paragraph loop completes, and the body is longer than the
      threshold. */
  predicate ReachesMetadata(page: ArticlePage) {
    && page.title.Some? && page.paragraphs.Some?
    && !Scan(page.paragraphs.value).aborted
    && |Scan(page.paragraphs.value).text| > MinBodyLength
  }

  /** Reference reading of `page_parsing`: the first lookup that raises ends the parse
      and leaves the remaining fields as they were initialised. */
  function ParsePage(page: ArticlePage, parse: DateParser): (r: PageResult)
    ensures r.title == page.title
    ensures r.title.None? ==> r == PageResult(None, None, "", None)
    ensures page.title.Some? && page.paragraphs.Some? ==> r.body == Scan(page.paragraphs.value).text
    ensures page.paragraphs.None? ==> r.body == ""
    ensures |r.body| <= MinBodyLength ==> r.author.None? && r.date.None?
    ensures r.author.Some? ==> ReachesMetadata(page) && r.author == page.author
    ensures ReachesMetadata(page) ==> r.author == page.author
    ensures r.date.Some? <==> r.author.Some? && page.dateText.Some?
    ensures r.date.Some? ==> r.date.value == CleanDatetimeString(page.dateText.value, parse)
    ensures ReachesMetadata(page) && page.author.Some? && page.dateText.Some? ==>
      r.date == Some(CleanDatetimeString(page.dateText.value, parse))
  {
    match page.title
    case None => PageResult(None, None, "", None)
    case Some(_) =>
      match page.paragraphs
      case None => PageResult(None, page.title, "", None)
      case Some(ps) =>
        var scan := Scan(ps);
        if scan.aborted || !(scan.text != "" && |scan.text| > MinBodyLength) then
          PageResult(None, page.title, scan.text, None)
        else
          match page.author
          case None => PageResult(None, page.title, scan.text, None)
          case Some(_) =>
            match page.dateText
            case None => PageResult(None, page.title, scan.text, page.author)
            case Some(d) => PageResult(Some(CleanDatetimeString(d, parse)), page.title, scan.text, page.author)
  }

  /** `page_parsing` run against the page; nothing it does raises past it. */
  method PageParsingOf(page: ArticlePage, parse: DateParser) returns (res: PageResult)
    ensures res == ParsePage(page, parse)
  {
    var body, dattimez, author := "", None, None;
    if page.title.None? {
      return PageResult(dattimez, None, body, author);
    }
    var title := page.title;
    if page.paragraphs.None? {
      return PageResult(dattimez, title, body, author);
    }
    var aborted;
    body, aborted := AccumulateBody(page.paragraphs.value);
    if aborted {
      return PageResult(dattimez, title, body, author);
    }
    if body != "" && |body| > MinBodyLength {
      if page.author.None? {
        return PageResult(dattimez, title, body, author);
      }
      author := page.author;
      if page.dateText.None? {
        return PageResult(dattimez, title, body, author);
      }
      dattimez := Some(CleanDatetimeString(page.dateText.value, parse));
    }
    res := PageResult(dattimez, title, body, author);
  }
}
