# Financial Express harvester, modelled in Dafny

This project models the harvest pipeline of a scraper for one news site, together with the queue sender it feeds.

The harvest side (`finex_daily_extractor` and its helpers) works in these steps:
- it scrolls the market listing page until its height settles;
- it waits, up to five times, for the listing container;
- it collects the `href` of every anchor in that container;
- it removes repeated links through a set and keeps only links into the site;
- it visits each kept link and parses the article page (title, body, author, date);
- it builds one fixed-shape record per page that loads.

The delivery side (`SQSUtils`) splits the records into groups of five. It makes one batch send per group. When a batch raises or reports failed entries, it sends every message of that group on its own and swallows any failure of those single sends.

The browser, the clock, the date library and the queue service are inputs of the model:
- the page height after each scroll;
- whether each wait finds the container;
- what reading each anchor's `href` gives;
- the paragraphs of an article (anchor lookup and text, each of which may raise);
- whether navigating to a link raises, and the clock reading when its record is built;
- the date parser, as a partial function;
- the response to each batch send;
- whether each single send goes through.

Modules, one per part of the program:
- `Scroll`: the scroll loop.
- `LinkDiscovery`: the container wait, href collection, de-duplication and the site filter.
- `PageParsing`: `page_parsing`, `clean_datetime_string` and `date_parse`.
- `Records`: record assembly and the record loop.
- `Extractor`: `finex_daily_extractor` end to end.
- `Sqs`: the `SQSUtils` class.
- `PyStr`: the Python string built-ins these use (`lower`, `startswith`, `strip`, `re.sub` with a literal pattern, `str` of an integer).
- `Wrappers`: `Option` and `Result`.

The scroll loop, the container wait and the set-based de-duplication are methods whose postconditions state the promised properties directly. The other loops are methods whose postconditions tie their result to a reference function. The properties the program promises are proved about those functions as lemmas.

Notes on the code's behaviour, which the model follows:
- No record is ever rejected as a duplicate. The guard `res and res not in data` compares a 4-tuple with dictionaries, so it always holds (`Records.GuardNeverRejects`). Its debugger branch is unreachable.
- A record is built for every link whose page loads, whatever the body length. The 150-character threshold only decides whether author and date are read.
- An anchor without `href` puts `None` into the link list. The filter then calls `None.lower()`, which makes the whole run fail (`RunFailure.MissingHref`). It is not a skipped element.
- When the container is never found, `elem` is unbound at its first use, so the run fails (`RunFailure.ContainerNotFound`).
- The filter is a prefix test. It therefore also accepts hosts such as `https://www.financialexpress.com.example`.

## Model

| member | source | states |
|---|---|---|
| Scroll.ScrollPage | financial_express_crawler/financial_express_lambda.py:26-44 | at most `N` scrolls (none when `N <= 0`); every scroll before the last changed the height; stopping before `N` means the last scroll left the height equal to the one before, so when every scroll changes the height exactly `N` happen |
| LinkDiscovery.WaitForContainer | financial_express_crawler/financial_express_lambda.py:77-85 | between 1 and 5 waits; every wait before the last failed; the container is found iff the last wait succeeded; not found means all 5 were spent |
| LinkDiscovery.HrefValues | financial_express_crawler/financial_express_lambda.py:86-94 | the collected list holds `u` iff some anchor's `href` is `u`; it holds `None` iff some anchor lacks `href`; anchors whose read raises add nothing, so it is no longer than the anchor list |
| LinkDiscovery.CollectHrefs | financial_express_crawler/financial_express_lambda.py:86-94 | the href loop builds exactly `HrefValues` of the anchors, skipping reads that raise and going on |
| LinkDiscovery.Dedupe | financial_express_crawler/financial_express_lambda.py:95 | `list(set(links))` has no repeated element and exactly the elements of `links` |
| LinkDiscovery.FilterLinks | financial_express_crawler/financial_express_lambda.py:96 | raises (`MissingHref`) iff a `None` is in the list; otherwise a link is kept iff it was collected and passes the site test; a repetition-free input gives a repetition-free output |
| LinkDiscovery.KeepIffSitePage | financial_express_crawler/financial_express_lambda.py:96 | the site test holds iff the lower-cased link starts with the https or the http root and the path after that root starts with neither `/author/` nor `/market/page/` |
| LinkDiscovery.KeepIgnoresCase | financial_express_crawler/financial_express_lambda.py:96 | the site test gives the same answer for a link and for its lower-cased form |
| PyStr.LowerIdempotent | financial_express_crawler/financial_express_lambda.py:96 | lower-casing twice is lower-casing once |
| PyStr.StartsWithConcat | financial_express_crawler/financial_express_lambda.py:96 | starting with `a + b` is starting with `a` and having `b` right after it |
| PageParsing.Contributed | financial_express_crawler/financial_express_lambda.py:149-157 | an included paragraph adds text iff its first text read succeeds, or it has no anchors and the handler's second read succeeds; when the anchor lookup raised, the handler's read is the only one |
| PageParsing.Scan | financial_express_crawler/financial_express_lambda.py:147-157 | when the body scan did not abort, every included paragraph (no anchors, or anchor lookup raised) had readable text |
| PageParsing.ScanSnoc | financial_express_crawler/financial_express_lambda.py:148-157 | scanning one more paragraph is one more iteration of the paragraph loop: the paragraph's text is appended when it is included and a read succeeds, the scan aborts when it is included and the read nothing catches raises, and nothing changes after an abort |
| PageParsing.ScanAbortedPrefix | financial_express_crawler/financial_express_lambda.py:148-157 | once a text read has raised out of the loop, later paragraphs do not affect the result |
| PageParsing.AnchoredParagraphIgnored | financial_express_crawler/financial_express_lambda.py:150-152 | inserting a paragraph with anchors anywhere leaves the body and the abort flag unchanged |
| PageParsing.AccumulateBody | financial_express_crawler/financial_express_lambda.py:147-157 | the paragraph loop yields exactly the body and abort flag of `Scan`: included texts concatenated in document order, fail-open when the anchor lookup raises |
| PageParsing.DateParse | financial_express_crawler/financial_express_lambda.py:180-187 | succeeds iff the parser succeeds, with the parser's value; otherwise it fails (the unbound `x`) |
| PageParsing.CleanDatetimeString | financial_express_crawler/financial_express_lambda.py:168-178 | removes every `Updated:` and parses the stripped text; on parse success returns the parsed value, on failure returns the unstripped text with the markers removed |
| PageParsing.UnparsableDateUnchanged | financial_express_crawler/financial_express_lambda.py:168-178 | a marker-free text the parser rejects comes back exactly as read, whitespace included |
| PageParsing.UpdatedDateParsed | financial_express_crawler/financial_express_lambda.py:174-175 | for `Updated: <date>`, with a date that has no outer whitespace and no `Updated:` inside it, the parser receives exactly `<date>`; on failure the result is `" " + <date>` |
| PageParsing.MarkerRemoved | financial_express_crawler/financial_express_lambda.py:174 | a leading `Updated:` followed by text without another `Updated:` is removed, leaving that text |
| PageParsing.SpaceStripped | financial_express_crawler/financial_express_lambda.py:175 | stripping `" " + d` gives `d` when `d` has no outer whitespace |
| PageParsing.ParsePage | financial_express_crawler/financial_express_lambda.py:140-166 | the result is the tuple (date, title, body, author); the title is the headline's; without a headline all fields keep their initial values; the body is the paragraph scan's text; the author is present iff the parse reaches the metadata lookups (headline and container found, loop completed, body over 150 characters) and the author element is there, and it is then that element's text; the date is present iff the author is and the date element is there, and it is then the cleaned date text |
| PageParsing.PageParsingOf | financial_express_crawler/financial_express_lambda.py:140-166 | `page_parsing` step by step, with each lookup that raises ending the parse, gives exactly `ParsePage` |
| PyStr.Lower | financial_express_crawler/financial_express_lambda.py:96 | `lower()` keeps the length; each ASCII capital becomes its small letter (code point plus 32) and the Kelvin sign becomes `k`, so no ASCII capital is left; every other character is unchanged |
| PyStr.RemoveAll | financial_express_crawler/financial_express_lambda.py:174 | `re.sub` with a literal pattern never lengthens the text; `RemoveAllFirstMatch` and `RemoveAllNoMatch` give its behaviour |
| PyStr.Strip | financial_express_crawler/financial_express_lambda.py:175 | `strip()` returns the slice after the leading whitespace; everything after it is whitespace; its first and last characters are not whitespace |
| PyStr.RemoveAllFirstMatch | financial_express_crawler/financial_express_lambda.py:174 | `re.sub` keeps the text before the first match, deletes the match and resumes after it |
| PyStr.RemoveAllNoMatch | financial_express_crawler/financial_express_lambda.py:174 | without a match `re.sub` returns its input unchanged |
| PyStr.NoMatchAfterOther | financial_express_crawler/financial_express_lambda.py:174 | a character other than the pattern's first, followed by a text without the pattern, gives a text without the pattern |
| Records.UniqueId | financial_express_crawler/financial_express_lambda.py:105 | the id is `finex_` followed by decimal digits only |
| Records.UniqueIdCollision | financial_express_crawler/financial_express_lambda.py:105 | two ids are equal iff they were made in the same whole second |
| PyStr.Decimal | financial_express_crawler/financial_express_lambda.py:105 | `str(n)` is a non-empty string of decimal digits with no leading zero except for `0` itself |
| PyStr.DecimalRoundTrip | financial_express_crawler/financial_express_lambda.py:105 | reading back the decimal digits of `str(n)` gives `n` |
| PyStr.DecimalInjective | financial_express_crawler/financial_express_lambda.py:105 | different numbers have different decimal strings |
| Records.Assemble | financial_express_crawler/financial_express_lambda.py:105-128 | `url == originalUrl ==` link; the three dates are the parsed date; `id == duplicateGroupId == "finex_" + str(seconds)`; language `en`; title, content and author from the page result; the fixed topic and source; empty ticker, asset class and NER fields |
| Records.GuardNeverRejects | financial_express_crawler/financial_express_lambda.py:104 | `res and res not in data` holds for every page result and every list of records |
| Records.RecordLoop | financial_express_crawler/financial_express_lambda.py:99-136 | every record is well-formed and carries one of the links; there are no more records than links |
| Records.RecordsAreLoadedLinks | financial_express_crawler/financial_express_lambda.py:99-136 | the records are, in link order, exactly those assembled for the links whose page loaded, one each; a link whose navigation raises adds nothing and later links are still processed |
| Records.RecordFromLoadedLink | financial_express_crawler/financial_express_lambda.py:101-129 | every record is the one assembled from a link whose page loaded, the page parsed at that link and its clock reading |
| Records.LoadedLinkHasRecord | financial_express_crawler/financial_express_lambda.py:101-129 | every link whose page loaded has a record with that url |
| Records.DistinctLinksDistinctUrls | financial_express_crawler/financial_express_lambda.py:99-129 | distinct links give records with distinct urls |
| Records.ExtractRecords | financial_express_crawler/financial_express_lambda.py:98-136 | the record loop builds exactly `RecordLoop` of the links and visit outcomes |
| Extractor.FinexDailyExtractor | financial_express_crawler/financial_express_lambda.py:69-138 | the run fails with `ContainerNotFound` iff all 5 waits fail; it fails with `MissingHref` iff the container is found and some anchor has no `href`; otherwise every record is well-formed, its url is a collected href that passes the site test and whose page loaded, and the record is the one assembled from that url, the page parsed there and its clock reading; every such href has a record, and no two records share a url |
| Sqs.ChooseCredentials | financial_express_crawler/sqs_utils.py:15-19 | explicit keys iff both the access key id and the secret are given and non-empty, with those values; the default chain otherwise |
| Sqs.SqsUtils.constructor | financial_express_crawler/sqs_utils.py:15-20 | the client uses `ChooseCredentials` of the arguments; the queue handle is the queue-url lookup response for the queue name |
| Sqs.Grouper | financial_express_crawler/sqs_utils.py:23 | the groups concatenate to the articles in order; each is non-empty with at most 5 messages; all but the last hold exactly 5 |
| Sqs.FlattenAppend | financial_express_crawler/sqs_utils.py:23 | concatenating the groups of `a + b` is concatenating those of `a`, then those of `b` |
| Sqs.Plan | financial_express_crawler/sqs_utils.py:24-36 | the reference reading of the calls: at least one call per group, every call addressed to the queue handle |
| Sqs.Dropped | financial_express_crawler/sqs_utils.py:33-39 | the reference reading of the dropped messages: each belongs to a group whose batch raised or listed failures |
| Sqs.SqsUtils.BatchSendToSqs | financial_express_crawler/sqs_utils.py:22-39 | assuming `json.dumps` succeeds, returns normally, having made exactly the calls of `Plan` over the groups of 5 and having dropped exactly the messages of `Dropped` |
| Sqs.SqsUtils.SendGroup | financial_express_crawler/sqs_utils.py:25-39 | one group: a batch send, then, iff the batch raised or listed failures, one single send per message in order; the messages dropped are those whose single send failed |
| Sqs.GroupCallsShape | financial_express_crawler/sqs_utils.py:25-36 | a group's calls hold exactly one batch attempt, with the group as entries; the single sends are the whole group in order when it fell back and none otherwise |
| Sqs.OneBatchAttemptPerGroup | financial_express_crawler/sqs_utils.py:24-26 | the batch attempts, in order, are exactly the groups: one per group |
| Sqs.SingleSendsAreFallbackMessages | financial_express_crawler/sqs_utils.py:26-36 | the single sends are, in order and each once, all messages of the groups whose batch raised or reported failures, and no others |
| Sqs.CallCount | financial_express_crawler/sqs_utils.py:24-36 | the number of calls is the number of groups plus the number of fallback messages: there are no other retries |
| Sqs.DroppedFromFallbackGroups | financial_express_crawler/sqs_utils.py:33-39 | a message is dropped only if it belongs to a group that fell back; no more messages are dropped than were sent singly |
| Sqs.FailedSendsWithin | financial_express_crawler/sqs_utils.py:34-39 | a group's dropped messages are messages of that group, no more of them than the group holds |

## Left out

- Chrome and Selenium session set-up (`get_chrome_driver`), `WebDriverWait` timeouts and element lookups. They are inputs: heights, wait outcomes, href reads, paragraphs and page fields.
- The randomised one-to-two-second wait between scrolls.
- Extractor.FinexDailyExtractor: closing and re-creating the driver after a failed link is not modelled beyond the loop going on. Neither is the failure of that re-creation, which would leave `driver` unbound and end the run.
- Extractor.FinexDailyExtractor: the navigation to the listing page is assumed to succeed.
- Extractor.FinexDailyExtractor: the scroll scripts (`driver.execute_script`, lines 35, 38 and 40), the anchor lookup in the container (`elem.find_elements`, line 86) and the final `driver.close()` (line 137) are assumed to succeed. If any of them raised, for example on a stale element, the run would end with an exception the model does not represent.
- Records.Assemble: the clock is an input (whole seconds per visit), not `time.time()`.
- The `dateutil` parse with the IST alias and the `strftime` reformatting are an abstract partial function (`DateParser`).
- LinkDiscovery.Dedupe: the order of `list(set(links))` follows Python's hashing and is left open. Only its elements and their distinctness are stated.
- PyStr.Lower: only ASCII capitals and the Kelvin sign are lower-cased. The only other character whose lower case contains an ASCII letter is U+0130, which becomes `i` followed by U+0307. No site prefix ends in `i` or contains U+0307, so a prefix test fails on that pair just as it fails on the unchanged U+0130, and the filter's answers are the same.
- PyStr.RemoveAll: `re.sub` is modelled for a literal pattern only, which is the only way it is used.
- boto3 client creation, the `get_queue_url` call, `json.dumps`, the entry format of `send_message_batch` and the queue transport. Responses and single-send outcomes are inputs, and the queue handle is the response value itself.
- Sqs.SqsUtils.BatchSendToSqs: the `self.queue_name` lookup when failures are reported raises `AttributeError` instead of the intended exception. It is caught by the same handler, so only the failing path's exception differs, and that is not modelled.
- Sqs.SqsUtils.BatchSendToSqs: `json.dumps` of a message is assumed to succeed. The records hold only strings, `None`, lists and dictionaries, so it does. If it raised at line 36, the handler would call it again at line 39, that failure would escape the method, and the remaining messages and groups would not be sent.
- Logging, the `pdb` branch (unreachable, see `Records.GuardNeverRejects`), `lambda_handler` and the module entry point.
