# Regional press aggregator — a Dafny model of its collection core

The aggregator collects the RSS feeds of French regional newspapers. It
keeps one row per article URL and serves the articles by region to a small
web page. This project models the core of that system and proves its
behaviour:

- **Normalisation of feed entries.** For each source, the first 20 parsed
  entries are turned into articles:
  - title and link are trimmed;
  - the description is chosen (summary first), stripped of `<…>` tags,
    two HTML entities are decoded, and it is cut to 300 characters plus `...`;
  - the publication date falls back from feed date to update date to the
    clock;
  - an entry with a blank title or link, or with an out-of-range date, is
    skipped;
  - a failed request or parse gives no articles.
- **The deduplicating store.** A batch is written with one
  insert-if-absent statement per article, keyed by the `UNIQUE` URL column.
  The writer returns the number of rows actually inserted. There are two
  writers: the collector's own SQLite writer, and the batch writer with its
  PostgreSQL and SQLite statements.
- **The collection cycle.** Every source of every region is fetched in
  catalog order, and each non-empty region is written as one batch. The
  cycle produces the per-region `details` accounting and appends one run
  record to the `collectes` table.
- **Region ids and the region lookup.** A region's id is its slug. The
  articles endpoint decodes the path it receives and searches the catalog
  for that region.
- **Display helpers of the web page.** These cover the relative
  publication time, the unknown-date label, the truncated card
  description and the plural `s` of count labels.

Modules:

| file | module | contents |
|---|---|---|
| text.dfy | `Text` | Python's `strip`, `replace`, `lower` (ASCII and Latin-1), truncation, decimal rendering |
| normalizer.dfy | `Normalizer` | entries, articles, dates, tag removal, description cleaning, `NormalizeEntry` |
| fetcher.dfy | `Fetcher` | a fetch outcome becomes the source's articles; the entry loop as a method |
| store.dfy | `Store` | the `Database` class (URL-keyed `articles` map, `collectes` run list) and the writers |
| collector.dfy | `Collector` | the collection cycle as nested loops, proved against a fold over the catalog |
| regions.dfy | `Regions` | slug, path decoding, the search loop, the endpoint's 404 rule and its corrected form |
| catalog.dfy | `Catalog` | the 18 regions and 68 sources of the catalog; which regions the lookup cannot reach |
| frontend.dfy | `Frontend` | `formatDate`'s empty branch, `formatRelativeTime`, card description, plural labels |

Several things are inputs rather than computed:

- the network and the feed parser: a `FetchOutcome` per feed URL;
- the clock: one `now` value per cycle;
- the database's own failures: a predicate `rejects` that says which
  insert statements raise;
- the browser's date parsing: an `Elapsed` value, and the locale rendering
  of a date, a string.

## Model

| member | source | states |
|---|---|---|
| Text.Strip | app.py:257-259 | the result is the input minus its leading and trailing Python whitespace: a contiguous slice that starts after the leading run, is followed only by whitespace, and has non-space ends; it is empty exactly when the input is all whitespace |
| Text.StripIdempotent | app.py:257-259 | trimming an already trimmed title, link or description changes nothing |
| Text.ReplaceAbsent | app.py:275 | `replace` leaves text with no occurrence of the pattern unchanged |
| Text.ReplaceAll | app.py:275 | one left-to-right pass of `replace`: a replacement no longer than the pattern never lengthens the text, and one of the same length keeps its length |
| Text.ReplaceChars | app.py:275 | every character of a `replace` result comes from the input or from the replacement |
| Text.ReplaceCharRemoves | app.py:443 | replacing a one-character pattern by text without it removes that character entirely |
| Text.ReplaceCharKeeps | app.py:430 | replacing one character keeps every other character present |
| Text.ReplaceCharInserts | app.py:430 | where the replaced character occurs, the replacement appears in the result |
| Text.ReplaceLeavesNone | app.py:275 | a single left-to-right pass leaves no occurrence of the pattern when the replacement shares no character with it |
| Text.Lower | app.py:430 | `lower` keeps the length and lower-cases each character on its own |
| Text.Truncate | app.py:276-277 | a text of at most `n` characters is unchanged; a longer one becomes its first `n` characters followed by `...` (length `n + 3`) |
| Text.TruncateIdempotent | app.py:276-277 | cutting an already cut description again changes nothing |
| Text.NatToString | static/script.js:30-31 | the decimal rendering of a count is non-empty, all digits and has no leading zero |
| Text.NatToStringRoundTrip | static/script.js:30-31 | the rendering reads back as the number it renders |
| Normalizer.TagLen | app.py:274 | a match of `<[^>]+>` at a position: it starts with `<`, ends at the first following `>`, has at least one character between them; when no match starts at a `<`, that `<` is followed at once by `>` or by no `>` at all |
| Normalizer.ValidDateTime | app.py:264-266 | the fields a date may take: years 1 to 9999, months 1 to 12, days within the month (29 February only in leap years), hours, minutes and seconds within a day |
| Normalizer.StripTags | app.py:274 | removing tags never lengthens the text nor adds a character |
| Normalizer.StripTagsTagFree | app.py:274 | after removal, no match of the tag pattern starts anywhere in the text |
| Normalizer.StripTagsIdempotent | app.py:274 | removing tags twice is removing them once |
| Normalizer.StripTagsNoAngle | app.py:274 | text without `<` is left as it is |
| Normalizer.DecodeEntities | app.py:275 | decoding the two entities never lengthens the text and leaves text without `&` unchanged |
| Normalizer.CleanDescription | app.py:271-277 | the cleaned description has at most 303 characters; when the tag-free, entity-decoded text has at most 300 characters it is that text, otherwise its first 300 characters followed by `...` |
| Normalizer.NbspPassLeavesNone | app.py:275 | after the `&nbsp;` pass no `&nbsp;` is left, so any `&nbsp;` in the result comes from the `&amp;` pass |
| Normalizer.AmpNbspDecodesOnce | app.py:275 | each entity pass runs once: `&amp;nbsp;` becomes `&nbsp;`, not a space |
| Normalizer.CleanPlainText | app.py:271-277 | a description with no `<` and no `&` is only truncated |
| Normalizer.ResolveDate | app.py:262-268 | the date chosen for an entry (published, else updated, else the clock), when one is returned, is a valid date |
| Normalizer.ResolveDescription | app.py:259 | the description is taken from the summary when that key is present, else from the description, else empty |
| Normalizer.NormalizeEntry | app.py:256-291 | an entry fails exactly when the chosen date (published, else updated) is out of range; it is kept exactly when it does not fail and both trimmed title and link are non-empty; a kept article has the given source and region, the trimmed title and link, a description cleaned from the summary whenever that key is present (else from the description, else empty), and the date published, else updated, else `now` |
| Fetcher.EntryArticles | app.py:255-291 | one entry contributes at most one article, nothing exactly when it is skipped, and that article is its normalisation |
| Fetcher.KeptArticles | app.py:253-291 | no more articles than entries, each well formed for the given source and region |
| Fetcher.FetchResultToArticles | app.py:232-304 | a failed fetch gives no article; otherwise at most 20 articles and no more than the entries, each well formed |
| Fetcher.KeptArticlesStep | app.py:254-291 | one more entry appends its own contribution after the earlier articles |
| Fetcher.KeptArticlesAppend | app.py:254-291 | entries are normalised independently: the articles of a concatenation are the concatenation of the articles, in feed order |
| Fetcher.SkippedEntryIsolated | app.py:289-291 | a skipped entry (blank field or exception) changes nothing for the other entries |
| Fetcher.KeptArticlesFromEntries | app.py:279-287 | every article is the normalisation of one of the entries |
| Fetcher.EntriesBeyondLimitIgnored | app.py:254 | entries after the twentieth never influence the result |
| Fetcher.FetchedArticleOrigin | app.py:254 | each article returned for a fetched feed is the normalisation of one of its first 20 entries |
| Fetcher.EntryArticlesRedated | app.py:262-291 | read at another clock, an entry is kept or skipped alike, and its article differs at most in a date that came from the clock |
| Fetcher.KeptArticlesRedated | app.py:253-291 | the same for the articles of a list of entries, position by position |
| Fetcher.FetchResultRedated | app.py:232-304 | a fetch outcome gives the same articles at every clock reading, up to dates taken from the clock |
| Fetcher.FetchRssFeed | app.py:230-304 | the entry loop returns exactly the articles the fetch outcome determines |
| Collector.TotalSources | app.py:347 | the number of feeds over all regions, at least each region's own count |
| Collector.SourceArticles | app.py:356-357 | a source whose request or parse failed contributes nothing; otherwise at most 20 articles, each carrying the source's name and the region |
| Store.NewCount | app.py:314-331 | the new-row counter never exceeds the batch length |
| Store.InsertRow | db_utils.py:57-83 | one insert-if-absent statement keeps every stored row, adds the article's URL unless it fails, and stores the article under a URL that was absent |
| Store.SavedRows | db_utils.py:55-90 | the table after the statements of a batch ran in order keeps every URL it held |
| Store.SavedRowsExtends | db_utils.py:57-86 | writing a batch keeps the table keyed by URL and leaves every stored row unchanged |
| Store.SavedRowsKeys | db_utils.py:55-90 | the stored URLs afterwards are the old ones plus those of the batch's non-failing articles |
| Store.NewCountIsNewKeys | db_utils.py:85-86 | the returned count is the number of URLs the batch added |
| Store.NewKeyCount | db_utils.py:85-86 | inserting an absent URL adds exactly one new key |
| Store.NewCountDistinctNewUrls | db_utils.py:55-86 | the returned count is the number of distinct URLs of non-failing articles not stored before |
| Store.FirstOccurrenceWins | db_utils.py:55-86 | a newly stored URL holds the first non-failing article of the batch that carries it |
| Store.SaveAppend | db_utils.py:55-90 | writing two batches in a row is writing their concatenation, and the counts add up |
| Store.RejectedArticleIsolated | db_utils.py:88-90 | a failing insert is skipped and not counted: the batch behaves as if that article were absent |
| Store.SaveStoredIsNoOp | db_utils.py:62 | articles that fail or whose URL is stored change nothing and count for nothing |
| Store.SaveTwiceSameBatch | db_utils.py:62 | after a batch was written, writing any part of it again changes nothing and counts nothing, whatever fails the second time, provided every insert that failed the first time fails again |
| Store.SaveIdempotent | app.py:317-331 | writing the same batch a second time returns 0 and leaves the table unchanged, under any failures of the second write that include those of the first |
| Store.PgInsert | db_utils.py:57-70 | one PostgreSQL statement in the transaction: refused once the transaction failed; it aborts the transaction exactly when the server refuses it, while an error the driver raises before sending it leaves the transaction usable; otherwise it behaves as the SQLite statement |
| Store.PgRun | db_utils.py:55-90 | the transaction after the batch's statements ran in order: the rows it sees, the statements that inserted, and whether the server refused one |
| Store.PgCommitted | db_utils.py:92 | the committed table is the table before the batch (rollback of an aborted transaction) or the transaction's table |
| Store.PgCleanBatch | db_utils.py:55-92 | with no statement the server refuses, the PostgreSQL transaction ends in the same table and count as the SQLite writer: inserts the driver rejects are skipped one by one |
| Store.PgFailureAborts | db_utils.py:88-90 | one statement the server refuses anywhere in the batch leaves the transaction aborted |
| Store.PgAbortedIffFailure | db_utils.py:55-90 | the transaction is aborted exactly when the server refuses some statement of the batch |
| Store.PgFailureRollsBack | db_utils.py:92 | a batch with a statement the server refuses leaves the committed table exactly as it was |
| Store.PgCountBeforeFailure | db_utils.py:85-92 | the count returned is the number of rows inserted before the first statement the server refuses, which the rollback discards |
| Store.PgOverCount | db_utils.py:85-92 | a new article followed by one the server refuses: the writer returns 1 and the table is unchanged |
| Store.PgDriverErrorKeepsOthers | db_utils.py:55-92 | between two new articles, an insert the driver rejects unsent does not abort: both articles are committed and the writer returns 2 |
| Store.Database.InsertOrIgnore | db_utils.py:71-83 | SQLite's insert-or-ignore: raises when the statement fails; otherwise stores the article under its URL when absent, with row count 1, and changes nothing with row count 0 when present |
| Store.Database.InsertOnConflictDoNothing | db_utils.py:57-70 | PostgreSQL's insert with `ON CONFLICT (url) DO NOTHING` inside the writer's transaction: it raises when the transaction already failed or the statement fails (refused by the server or rejected by the driver); otherwise it stores an absent URL with row count 1 and leaves a present one with row count 0 |
| Store.Database.InsertUnderSavepoint | db_utils.py:57-70 | the same insert under its own savepoint: a failure raises and undoes only that statement, with the effect of the SQLite statement |
| Store.Database.SaveArticles | app.py:306-340 | the collector's writer: the table becomes the batch written over the old table, the result is the new-row count, and the run list is unchanged |
| Store.Database.SaveInTransaction | db_utils.py:55-92 | the PostgreSQL branch: the table afterwards is the committed table of the single transaction (unchanged when the server refused any statement) and the result is the number of rows the transaction inserted |
| Store.Database.SaveArticlesBatch | db_utils.py:46-95 | the batch writer: on SQLite the new table and count of `SavedRows` and `NewCount`; on PostgreSQL the committed table of the single transaction (rolled back when the server refused any statement) and the number of rows the transaction inserted |
| Store.Database.SaveWithSavepoints | db_utils.py:55-92 | the PostgreSQL branch with a savepoint per statement: the table and count of `SavedRows` and `NewCount` |
| Store.Database.SaveArticlesBatchCorrected | db_utils.py:46-95 | the writer with a savepoint per PostgreSQL statement: on both backends the table and count of the SQLite writer, so every property proved about `SavedRows` and `NewCount` holds |
| Store.Database.RecordRun | app.py:383-390 | the run insert raises exactly when it fails; otherwise exactly one run record is appended; the articles are untouched either way |
| Collector.RegionArticles | app.py:353-361 | a region's article list has at most 20 articles per source, each carrying that region |
| Collector.RegionOk | app.py:354-360 | the number of sources that answered is at most the number of sources, and zero exactly when the region has no article |
| Collector.RegionUnfold | app.py:356-361 | the last source's articles come after the earlier sources', and it counts as answering exactly when it gave an article |
| Collector.FailedSourceArticles | app.py:356-361 | a source whose fetch failed leaves its region's articles as if it were not in the catalog |
| Collector.FailedSourceOk | app.py:356-361 | a source whose fetch failed leaves its region's answering-source count as if it were not in the catalog |
| Collector.FailedSourceIsolated | app.py:356-361 | both of the above: one failing source never affects the rest of its region |
| Collector.RegionArticlesOrigin | app.py:356-361 | every article of a region comes from one of its sources and carries that source's name, and every article of every source is in the region's batch |
| Collector.CollectRegion | app.py:363-380 | a region's details entry has its name, source count, answering sources, total and new articles with `new <= total <= 20 * sources`; an empty region gets zero counts and the table is not written |
| Collector.Collected | app.py:352-380 | the cycle produces one details entry per region |
| Collector.RunOf | app.py:383-401 | the run record of a cycle has one details entry per catalog region |
| Collector.CollectedStep | app.py:352-380 | each region continues from the table the earlier regions left |
| Collector.DetailIsRegionPass | app.py:363-380 | the `i`-th details entry is the one computed for region `i` |
| Collector.DetailsSumToTotals | app.py:347-380 | the details' answering sources, new articles and source counts add up to the run's `sources_ok`, `articles_nouveaux` and `sources_total` |
| Collector.DetailOfRegion | app.py:363-380 | region `i` gets the `i`-th details entry, describing that region, with `sources_ok <= sources_total`, `articles_nouveaux <= articles_total` and zero counts when it had no article |
| Collector.SumOkBounded | app.py:347-361 | summed answering sources never exceed summed source counts |
| Collector.SourcesOkBounded | app.py:347-361 | a run's `sources_ok` is at most its `sources_total` |
| Collector.KeysAddUp | app.py:364-365 | new URLs over two consecutive writes add up |
| Collector.CollectedKeepsRows | app.py:363-365 | a cycle keeps the table keyed by URL and never changes a stored row |
| Collector.CollectedCountsNewKeys | app.py:363-365 | a cycle's `articles_nouveaux` is the number of URLs it added to the table |
| Collector.CollectedAddsNewKeys | app.py:363-365 | both of the above together |
| Collector.CollectedKeysGrow | app.py:352-380 | the URLs stored after a prefix of the catalog stay stored after the whole cycle |
| Collector.RegionArticlesStored | app.py:363-365 | after a cycle every non-failing article of every region has its URL stored |
| Collector.RegionOfStoredIsNoOp | app.py:363-365 | a region whose articles all fail or are stored adds nothing |
| Collector.RegionArticlesRedated | app.py:262-268 | a region's articles read at two clock readings are the same, position by position, except for dates taken from the clock |
| Collector.StoredAtAnyClock | app.py:363-365 | when a region's articles were all stored or failing, the same articles read at another clock are too, under failures that include the earlier ones |
| Collector.SecondPassIsNoOp | app.py:352-380 | after a cycle, a second pass over any prefix of the catalog, at any clock reading and with any failures that include the first cycle's, adds nothing |
| Collector.CollectTwiceInsertsNothing | app.py:342-401 | a second cycle over unchanged feeds, at any later clock reading and with any failures in which an insert that failed in the first cycle fails again (for the re-dated article when its date came from the clock), reports no new article and leaves the table unchanged |
| Collector.CollectTwiceAnyClock | app.py:342-401 | after a cycle in which no insert failed, a second cycle over unchanged feeds at any clock reading and with any failures reports no new article and leaves the table unchanged |
| Collector.SameCycleFailsAgain | app.py:342-401 | the same clock reading and the same failures always meet the second cycle's condition |
| Collector.FetchRegion | app.py:356-361 | the inner loop gathers exactly the region's articles and its number of answering sources |
| Collector.CollectAllFeeds | app.py:342-401 | the cycle leaves the table written region by region and computes the run the catalog determines; the run is appended, unless its insert fails, in which case the error reaches the caller, nothing is appended and the articles stay written |
| Regions.Slug | app.py:430 | a region id has no space, no apostrophe and no upper-case letter |
| Regions.DecodePath | app.py:443 | the decoded path has no hyphen and no underscore |
| Regions.LowerKeepsNoHyphen | app.py:448 | lower-casing introduces no hyphen |
| Regions.SlugHasHyphen | app.py:430 | a name with a space or a hyphen has a hyphen in its id |
| Regions.LookupKey | app.py:443-448 | the text compared with the ids never contains a hyphen |
| Regions.FindRegion | app.py:446-450 | the search returns the first catalog name whose id equals the key, and nothing exactly when no id does |
| Regions.SlugIsFirstMatch | app.py:446-450 | with distinct ids, a region's own id is already lower-case and first matches that region |
| Regions.GetRegionArticles | app.py:443-453 | the endpoint answers with the first region whose id equals the lower-cased decoded path when that name is non-empty, and 404 otherwise |
| Regions.HyphenatedSlugUnreachable | app.py:443-453 | no path matches an id containing a hyphen |
| Regions.SpacedRegionNeverFound | app.py:443-453 | a region with a space or hyphen in its name is matched by no path |
| Regions.GetRegionArticlesCorrected | app.py:443-453 | matching the lower-cased path itself: every region with a non-empty name and a distinct id is found through its own id |
| Catalog.CatalogRegionsUnreachable | app.py:443-453 | ten catalog regions, among them Grand Est and Île-de-France, cannot be reached by any path |
| Frontend.FormatDate | static/script.js:9-10 | a missing or empty date string shows `Date inconnue`; otherwise the locale rendering is shown |
| Frontend.Pluralize | static/script.js:119 | the label starts with the word, and is the word plus `s` exactly when the count is above one |
| Frontend.FormatRelativeTime | static/script.js:21-33 | a missing or empty date gives `Date inconnue`, an unparseable one the absolute date, and every other label is the absolute date or starts with `Il y a ` |
| Frontend.FoundLabel | static/script.js:119 | the listing's count line: the number, then `article` and `trouvé`, each with the plural `s` above one |
| Frontend.CountLabel | static/script.js:385-387 | a region card's count: the number, then the noun with the plural `s` above one |
| Frontend.DaysFromMillis | static/script.js:26-27 | whole hours divided by 24 give the whole days elapsed |
| Frontend.RelativeUnderAnHour | static/script.js:29 | under an hour, future dates included, shows `Il y a moins d'1h` |
| Frontend.RelativeHours | static/script.js:30 | from one hour to one day, shows the 1 to 23 whole hours elapsed |
| Frontend.RelativeDays | static/script.js:31 | from one day to one week, shows the 1 to 6 whole days, with `jours` from two days on |
| Frontend.RelativeFallsBackToDate | static/script.js:32 | from a week on, and for an unparseable date, shows the absolute date |
| Frontend.RelativeUnknownDate | static/script.js:22 | a missing or empty date shows `Date inconnue` whatever the elapsed time |
| Frontend.RelativeHoursReadBack | static/script.js:30 | the number shown in the hours bucket reads back as the hours elapsed |
| Frontend.CardDescription | static/script.js:362-365 | empty exactly for a missing or empty description; at most 200 characters unchanged; longer ones become their first 200 characters followed by `...` |
| Frontend.DescriptionBlock | static/script.js:370 | a card has a description block exactly when its description is non-empty |
| Frontend.CardDescriptionStable | static/script.js:362-365 | cutting a shown description again changes nothing |
| Frontend.CountLabelPlural | static/script.js:385-387 | a region card's count label ends in `s` exactly when the count is above one |
| Frontend.FoundLabelPlural | static/script.js:119 | the listing's line reads `articles trouvés` above one and `article trouvé` otherwise |

## Left out

- The HTTP request, its headers and timeout, and `feedparser` (app.py:236-251) are not modelled. Their combined outcome is the input `FetchOutcome`: parsed entries, or one of the three failures. Bozo warnings only log.
- Entry fields are text or absent, and dates are six integers. Attribute-style access and the `[:6]` slicing of a time tuple are not modelled.
- Normalizer.NormalizeEntry: the only exception modelled inside the entry block is the `datetime` constructor's range check (years 1–9999, months, days with leap years, hours, minutes, seconds). Other exceptions feedparser values might raise there are not modelled.
- Normalizer.ResolveDate: the fallback uses one clock reading `now` for the whole cycle. The program reads the clock once per entry.
- Text.Lower: lower-casing is modelled for ASCII and Latin-1 capitals only. Other characters are left as they are, so lower-casing outside Latin-1 (Unicode case folding) is not modelled.
- Text.Strip: the whitespace set is Python's `str.isspace` code points.
- Failing insert statements are given by the predicate `rejects`. On SQLite a failing statement leaves the table unchanged and the loop continues. On PostgreSQL a second predicate, `refused`, says whether a failure is the server's refusal of the statement or an error the driver raises before sending it (a NUL character in a parameter, say). A refusal aborts the batch's transaction, later statements are refused, and the server answers the final commit with a rollback (`Store.PgRun`, `Store.PgCommitted`). A driver-side error only skips its article. Which values make either kind fail is not modelled.
- Store.Database.SaveArticles: a failure of the connection or of the commit itself, outside the per-article handler, is not modelled.
- Commit, connections, the DDL, row ids and the `date_collecte` default are not modelled. Only URL uniqueness is kept, as the class invariant.
- The collector always writes through its own SQLite writer. The batch writer's backend flag is an argument.
- Store.Database.RecordRun: `details` is a sequence of per-region entries in catalog order, not JSON text. A failing run insert is an input flag; what makes it fail (the connection, the disk) is not modelled. The duration and the logging of the cycle are not modelled.
- The catalog's total of 68 feeds is not proved: the unfolding over the 18-region literal is too costly for the verifier. The catalog is data (`Catalog.RssSources`), and the properties proved about it are the ten unreachable regions.
- The feed oracle gives one outcome per URL for the whole cycle. A feed listed twice gets the same answer both times.
- The SQL read endpoints are not modelled: listings, counts, search, ordering and limits. Only the region lookup before the query is modelled.
- The scheduler, the background thread of a manual collection and `atexit` are not modelled, because concurrency is out of scope.
- Frontend.FormatRelativeTime: the elapsed time is whole milliseconds, or NaN for an unparseable date. Floating-point rounding of `Math.floor` on huge values is not modelled.
- Frontend.CardDescription: lengths count Unicode scalar values. JavaScript counts UTF-16 code units, so the two differ for characters outside the Basic Multilingual Plane.
- Frontend.FormatDate: the locale rendering of `toLocaleString` is an input.
- DOM rendering, `fetch`, notifications and the random progress animation are not modelled.

## Findings

| source | as written | input that shows it | evidently intended | confidence | as-written member | corrected member |
|---|---|---|---|---|---|---|
| app.py:443-453 | the endpoint turns every `-` of the path into a space, then compares the result with ids in which spaces became `-` | the id `grand-est` that the region list gives for "Grand Est" (static/script.js:182 builds the URL from it): the decoded key `grand est` equals no id, so the answer is 404; the same holds for 10 of the 18 regions | a region is found through the id the region list hands out | high (not executed) | Regions.SpacedRegionNeverFound | Regions.GetRegionArticlesCorrected |
| db_utils.py:55-92 | on PostgreSQL every insert of the batch runs in the one transaction the connection opened; the handler catches a failing statement and carries on, and the commit comes at the end | a batch of a new article followed by one whose insert the server refuses (a `NOT NULL` violation for a missing title, say; an error the driver raises before sending does not abort): every later insert raises, the commit rolls the new article back, and the writer still returns 1 | a failing article is skipped while the others are stored and counted, as on SQLite | medium (not executed) | Store.PgOverCount | Store.Database.SaveArticlesBatchCorrected |
