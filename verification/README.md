# Resonance research harness — a Dafny model

Resonance collects recent research papers on a topic and keeps the best few. It then runs a three-agent debate on each kept paper and stores a verdict.

The model covers these parts:

- **Collection.** Papers come from the arXiv API, the bioRxiv search page, and Google and Google Scholar.
- **Filtering and ranking.** The papers are merged by URL, filtered by age and sorted newest first. An LLM then ranks them.
- **Full text.** The PDF text is fetched for the arXiv and bioRxiv papers.
- **Storage.** Rows are saved to a Supabase table through a retry state machine.
- **The debate.** A scout, an advocate and a skeptic talk in rounds. A moderator's verdict is then cleaned and normalised.
- **The pipeline.** It wraps all of this: config loading, storing scraped rows, storing a debate and keeping the most confident results.

Every call into the outside world is a parameter of the operation that makes it. That covers HTTP replies, the LLM, the browser extractor, PDF text extraction, JSON parsing, the database and the clock. The model therefore states what each operation does with whatever those calls return.

Modules, one per file:

| module | file | what it holds |
|---|---|---|
| `Wrappers`, `Json` | values.dfy | `Option`, and the JSON value type used for dict fields |
| `Text` | text.dfy | Python's `strip`, `lower`, `split`, `replace`, `find` and string order |
| `Seqs` | seqs.dfy | filtering, taking a prefix, deduplication by key, subsequences |
| `Sorting` | sorting.dfy | a stable descending sort; it stands for `sorted(..., reverse=True)` |
| `Papers` | papers.dfy | `Paper`, `_sanitize_for_db`, `paper_to_dict` |
| `Http` | http.dfy | the shapes of HTTP replies and downloads |
| `Urls` | urls.dfy | the abstract-to-PDF link rewrite, the bioRxiv `.full.pdf` address, the `https` upgrade |
| `Arxiv` | arxiv.dfy | `fetch_arxiv`: the rate-limit retry and the Atom entry to paper mapping |
| `FullText` | fulltext.dfy | the arXiv and bioRxiv PDF full-text fetchers |
| `Fences` | fences.dfy | removal of the Markdown code fence from LLM replies, for the ranker and for the verdict |
| `Ranking` | ranking.dfy | the recency filter, the date sort and the LLM ranker |
| `Web` | web.dfy | page metadata scraping, bioRxiv hits, search result parsing, the Scholar merge |
| `Harness` | harness.dfy | `run_harness` |
| `Storage` | storage.dfy | `save_papers_to_supabase` |
| `Agents` | agents.dfy | the `Agent` class, `run_debate` and `_format_paper` |
| `Scrapers` | scrapers.dfy | `run_scraper` |
| `Pipeline` | pipeline.dfy | `load_config`, `scrape_and_store`, `store_debate`, `run_debate_pipeline`, `get_top_papers` |

## Model

| member | source | states |
|---|---|---|
| Papers.Sanitize | research_harness.py:48-54 | The result holds only characters PostgreSQL text accepts: no NUL, and no control character other than newline, carriage return and tab. It is never longer than the input. |
| Papers.SanitizeKeepsAllowed | research_harness.py:48-54 | Every allowed character of the input appears in the result. |
| Papers.SanitizeSubseq | research_harness.py:48-54 | The sanitiser only deletes characters: its result is a subsequence of the input. |
| Papers.SanitizeKeepsClean | research_harness.py:48-54 | A string that is already clean comes back unchanged. |
| Papers.SanitizeIdempotent | research_harness.py:48-54 | Sanitising twice is the same as sanitising once. |
| Papers.SanitizeOpt | research_harness.py:48-51 | `None` stays `None`. A present string comes back clean and no longer than before. |
| Papers.SanitizedAuthors | research_harness.py:776 | The author list keeps its length. Each entry is the sanitised author, in the same order. |
| Papers.PaperToDict | research_harness.py:773-786 | The row has exactly the eight columns topic, paper_name, paper_authors, published, journal, abstract, fulltext and url. Every string in it is clean. |
| Papers.PaperToDictLossless | research_harness.py:773-786 | For clean input, the title, url, journal, topic and author list come through unchanged. |
| Urls.FirstMatch | research_harness.py:152 | Finds the leftmost position, at or after the start, where `arxiv.org/(abs\|pdf)/` followed by an id character matches case-insensitively. `None` means there is no match anywhere. |
| Urls.RunEnd | research_harness.py:152 | Finds the end of the greedy `[^?#]+` run. Every character before it is an id character, and the character at it is not. |
| Urls.PdfId | research_harness.py:154 | The id is built only from characters of the captured group. |
| Urls.AbsToPdf | research_harness.py:147-157 | A URL without `arxiv.org`, or without a match, gives `None`. Any result is a well-formed PDF link: the fixed base, a `.pdf` suffix and no `?` or `#`. |
| Urls.AbsToPdfCanonical | research_harness.py:147-157 | A clean abstract link `https://arxiv.org/abs/<id>` maps to `https://arxiv.org/pdf/<id>.pdf`. |
| Urls.PdfIdOfPdfGroup | research_harness.py:154 | Extracting the id from `<id>.pdf` gives `<id>` back. |
| Urls.PdfLinkFixed | research_harness.py:147-157 | The rewrite maps a canonical PDF link to itself. |
| Urls.MatchOfCleanLink | research_harness.py:152-154 | In a clean link, the pattern matches right after the scheme, and the group captured is the path after `abs/` or `pdf/`. |
| Urls.UpgradeToHttps | research_harness.py:220-221 | An `http://` address becomes `https://` with the same rest. Any other address is unchanged. The result never starts with `http://`. |
| Urls.PdfLinkIsHttps | research_harness.py:220-221 | The upgrade leaves the rewritten PDF links alone. |
| Urls.BiorxivPdfUrl | research_harness.py:264 | The address is the page URL without trailing slashes, followed by `.full.pdf`. |
| Urls.BiorxivPdfUrlSlash | research_harness.py:264 | A trailing slash on the page URL does not change the PDF address. |
| Arxiv.Retry | research_harness.py:69-86 | At most three requests are made, starting from the attempt given. |
| Arxiv.RetryShape | research_harness.py:69-86 | Every request before the last one was rate-limited. The outcome is decided by the last reply. A rate-limited last reply means all three attempts were used. The waits are a prefix of the backoff 5, 15, 30 seconds. |
| Arxiv.RetryExhausted | research_harness.py:69-86 | Three 429 replies give an HTTP error with the last status, after waits of 5, 15 and 30 seconds and three requests. |
| Arxiv.RetryOk | research_harness.py:69-86 | The fetch succeeds exactly when some attempt within three, after only rate-limited replies, returns a response with a non-error status. |
| Arxiv.RequestWithRetry | research_harness.py:69-86 | The retry loop produces exactly the trace `Retry` describes. |
| Arxiv.AlternateUrl | research_harness.py:103-116 | The result is empty exactly when no link is `rel="alternate"`. |
| Arxiv.PdfHref | research_harness.py:103-116 | The result is `None` exactly when no link is a PDF link. Otherwise it is a non-empty href. |
| Arxiv.ScanLinks | research_harness.py:103-116 | The link loop returns the first alternate href and the last PDF href. |
| Arxiv.EntryTitle | research_harness.py:91-92 | The title has no newline. It is empty exactly when the element is missing or blank. |
| Arxiv.EntryAuthors | research_harness.py:94-98 | No more names than author elements. Every name is stripped. When every author has a name, none is dropped. |
| Arxiv.EntryJournal | research_harness.py:100-101 | Without a journal reference the journal is `arXiv`. The value is always stripped. |
| Arxiv.DatePart | research_harness.py:118-126 | A date exists only when the text is present. It is non-empty and cut before the `T`. |
| Arxiv.EntryDate | research_harness.py:118-126 | A usable `published` date wins over `updated`. Any date is non-empty and has no time part. |
| Arxiv.EntryAbstract | research_harness.py:128-129 | The abstract is present exactly when the summary is. It has no newline and at most 8000 characters. |
| Arxiv.BuildPaper | research_harness.py:131-143 | A paper is produced exactly when the title and the URL are non-empty. It is a well-formed arXiv paper carrying the PDF link found. |
| Arxiv.EntryPapers | research_harness.py:88-143 | There are at most as many papers as entries, and each one is well formed. |
| Arxiv.EntryPapersConcat | research_harness.py:88-143 | Mapping entries distributes over concatenation, so papers keep feed order. |
| Arxiv.EntryWithAlternate | research_harness.py:103-116 | An entry with a title gets the href of its first alternate link as its URL. |
| Arxiv.FetchArxiv | research_harness.py:57-144 | The trace is the retry trace. On success, the papers are the mapped entries. On failure there are none. |
| FullText.WithText | research_harness.py:237-254 | A non-blank extracted text is stored stripped. A missing or blank text leaves the paper unchanged. |
| FullText.Enrich | research_harness.py:222-254 | An unusable download leaves the paper unchanged. Otherwise the stored text comes from the extracted body. |
| FullText.ArxivPdfTarget | research_harness.py:216-221 | A paper with a PDF link is fetched from that link, upgraded to https. Without one, an abstract link that rewrites to a PDF link gives that PDF link, upgraded to https. With neither there is no target. A target never starts with `http://`. |
| FullText.ArxivPdfTargetCanonical | research_harness.py:216-221 | A clean abstract link with no PDF link targets the canonical PDF link. |
| FullText.FetchArxivFullText | research_harness.py:209-254 | A non-arXiv paper, a paper without a URL or target, and a failed download are all returned unchanged. Any other result differs from the input only by an added full text. |
| FullText.FetchBiorxivFullText | research_harness.py:257-299 | A non-bioRxiv paper, an empty URL and a failed download all leave the paper unchanged. Otherwise only the full text is added. |
| FullText.ArxivFullTextSuccess | research_harness.py:209-254 | An arXiv paper whose target download is usable and whose text is not blank gets that text, stripped, and nothing else changes. |
| FullText.BiorxivFullTextSuccess | research_harness.py:257-299 | A good download whose text is not blank stores that text, stripped. |
| FullText.EnrichKeepsIdentity | research_harness.py:209-299 | The full-text fetchers never change a paper's URL or source. |
| Fences.RankerUnfence | research_harness.py:356-361 | The result is stripped. A reply without a fence is just stripped. After unfencing, no fence is left. |
| Fences.RankerUnfenceSameLine | research_harness.py:356-361 | With the fence on the first line, the JSON body between the fences is recovered. |
| Fences.RankerUnfenceLosesBody | research_harness.py:358-360 | As written: when a line break precedes the fence, only the preamble comes out. See Findings. |
| Fences.RankerUnfenceAnyLine | research_harness.py:356-361 | Corrected: the body is recovered wherever the opening fence is. |
| Fences.DropClosing | agents.py:290 | Drops a trailing fence after right-stripping, or leaves the text alone. |
| Fences.VerdictUnfence | agents.py:286-291 | The result is stripped. Text that does not start with a fence is only stripped. |
| Fences.VerdictUnfenceFenced | agents.py:286-291 | A verdict wrapped in a ```` ``` ```` or ```` ```json ```` fence gives back its body. |
| Ranking.FilterRecency | research_harness.py:375-396 | The loop keeps exactly the papers `RecencyFilter` keeps. |
| Ranking.RecencyFilterKeeps | research_harness.py:375-396 | With a positive limit, the kept papers are an order-preserving subsequence. A paper is kept exactly when it is recent: it has no date, or its date is not before the cutoff. |
| Ranking.SortPapersByDate | research_harness.py:399-415 | The method returns `ByDate`: the dated papers sorted newest first, then the undated ones. |
| Ranking.ByDatePermutation | research_harness.py:399-415 | The sort is a permutation of its input. |
| Ranking.ByDateDatedFirst | research_harness.py:399-415 | No undated paper comes before a dated one. |
| Ranking.ByDateNewestFirst | research_harness.py:399-415 | Dated papers are in non-increasing date order. |
| Ranking.ByDateStable | research_harness.py:399-415 | Papers with the same date, and the undated ones, keep their input order. |
| Ranking.UrlOrder | research_harness.py:365 | There are no more URLs than items, and each one is a non-blank string item of the reply. |
| Ranking.UrlOrderFollowsReply | research_harness.py:365 | The URLs are exactly the non-blank string items of the reply, in reply order. |
| Ranking.UrlOrderKeeps | research_harness.py:365 | No non-blank string item of the reply is dropped. |
| Ranking.ByUrl | research_harness.py:366 | The map's keys are exactly the papers' URLs. Each value is a paper with that URL. |
| Ranking.ByUrlLastWins | research_harness.py:366 | When several papers share a URL, the last one is stored. |
| Ranking.Pick | research_harness.py:367 | Every picked paper is a known paper. There are no more picks than URLs in the reply. |
| Ranking.PickFollowsOrder | research_harness.py:367 | The picks are the known URLs of the reply, in reply order, mapped to their papers. |
| Ranking.ReplyUrls | research_harness.py:356-364 | A list is used exactly when the unfenced reply parses to a JSON list. |
| Ranking.Picked | research_harness.py:367 | At most `top_k` picks are kept, each one an input paper. |
| Ranking.RankWithLlm | research_harness.py:311-372 | A non-positive `top_k` gives nothing. Otherwise there are at most `top_k` results, each one an input paper. With no key, no reply or an unparsable reply, the first `top_k` papers are returned. |
| Ranking.RankWithLlmPicks | research_harness.py:365-369 | A usable reply naming known URLs returns those papers in reply order, cut to `top_k`. |
| Ranking.RankWithLlmNoKnownUrl | research_harness.py:367-369 | A reply that names no known URL falls back to the first `top_k` papers. |
| Ranking.RankWithLlmKeepsRepeats | research_harness.py:365-367 | A reply naming one URL twice yields that paper twice. Nothing removes repeats. |
| Web.StrippedOrNone | research_harness.py:466-472 | Returns a stripped, non-empty value. It is `None` exactly when the field is missing or blank. |
| Web.PageDate | research_harness.py:466-468 | The date is non-empty and at most 10 characters. It is present exactly when the field is not blank. |
| Web.PageAbstract | research_harness.py:469-471 | The abstract is non-empty and at most 12000 characters. It is present exactly when the field is not blank. |
| Web.ScrapeMetadata | research_harness.py:418-491 | A failed extraction leaves the paper unchanged. The URL, journal and source are never changed. A successful extraction sets the date, abstract and full text and clears the PDF link. For non-bioRxiv pages, a non-blank title and author list replace the old ones. |
| Web.ScrapeMetadataIdempotent | research_harness.py:418-491 | Scraping the same page twice gives the same paper as scraping it once. |
| Web.ScrapeAll | research_harness.py:573-578 | The first `max_results` papers are each scraped with their own page and the rest are left as they are. URLs and sources are kept. |
| Web.HitAuthors | research_harness.py:562-563 | Author names are non-empty and stripped. |
| Web.BiorxivAbsolute | research_harness.py:560-561 | The result starts with `http`. An absolute URL is kept as it is. |
| Web.BiorxivAbsoluteMentions | research_harness.py:560-561 | A URL that mentions biorxiv still does after it is made absolute. |
| Web.BiorxivHit | research_harness.py:554-572 | An item is accepted exactly when it is an object whose stripped title and URL are not blank and whose URL mentions biorxiv in any case. It becomes a fresh bioRxiv paper with the stripped title, the comma-split authors, journal `bioRxiv` and the URL made absolute on www.biorxiv.org. |
| Web.BiorxivHitsKeep | research_harness.py:553-572 | Every accepted hit's paper is among the collected bioRxiv papers. |
| Web.BiorxivHitsPapers | research_harness.py:553-572 | Every collected hit is a well-formed bioRxiv paper. |
| Web.CollectBiorxiv | research_harness.py:551-572 | A result that is not a list gives nothing. Otherwise the hits come from the first `max_results` items, and there are at most `max_results` of them. |
| Web.BiorxivCandidates | research_harness.py:494-583 | At most `max_results` papers. All are from bioRxiv with journal `bioRxiv`, and all have a URL that mentions biorxiv. |
| Web.SearchAbsolute | research_harness.py:601-602 | The result starts with `http`. An absolute URL is kept as it is. |
| Web.SearchHit | research_harness.py:595-606 | An item passes the checks exactly when it is an object whose stripped title is not blank and whose stripped URL has at least 10 characters. It becomes an internet paper with the stripped title, the comma-split authors, an empty journal and the URL made absolute with `https://`. |
| Web.Scan | research_harness.py:586-607 | No more papers than items. The list stops at `max_results`. |
| Web.ScanSkips | research_harness.py:590-607 | The loop skips an item exactly when the cap is reached, the item is not an object, its stripped title is blank, its stripped URL is shorter than 10 characters, or the URL looked up is among the stored URLs. With the check as written, that is the raw stripped URL. Any other item's paper is appended. |
| Web.ScanDistinct | research_harness.py:586-607 | Corrected: when the normalised URL is checked, no URL appears twice. |
| Web.RawCheckKeepsDuplicates | research_harness.py:599-603 | As written: a schemeless URL seen twice yields the same paper twice. See Findings. |
| Web.ParseSearchResults | research_harness.py:586-607 | A result that is not a list gives nothing. Otherwise the result is the scan of the items with the chosen seen-check (`RawUrl` as written), and has at most `max_results` internet papers with absolute URLs. Corrected: with the `AbsoluteUrl` check no URL appears twice. |
| Web.ScholarMerge | research_harness.py:676-683 | The Google results are a prefix and stay in place. Scholar papers follow, up to `max_results`. |
| Web.ScholarMergeDistinct | research_harness.py:676-683 | Merging keeps URLs distinct. |
| Web.MergeScholar | research_harness.py:676-683 | The merge loop computes `ScholarMerge`. |
| Web.InternetCandidates | research_harness.py:610-698 | At most `max_results` internet papers, all with absolute URLs, with either seen-check. Corrected: with the `AbsoluteUrl` check no URL appears twice. |
| Harness.MergeCandidates | research_harness.py:747-752 | The merge keeps the first paper for each non-empty URL over arXiv, then bioRxiv, then internet. |
| Harness.MergeCandidatesProperties | research_harness.py:747-752 | The merged list keeps input order, holds exactly the first occurrences, covers every non-empty URL and has no empty or repeated URL. |
| Harness.MergeKeepsArxivFirst | research_harness.py:747-752 | An arXiv paper that is the first with its URL always survives the merge. |
| Harness.FullTextFor | research_harness.py:760-766 | Internet papers are untouched. Others are unchanged or gain only a full text. |
| Harness.FullTextPass | research_harness.py:760-766 | Each entry is replaced by its enriched copy, with the length and order kept. |
| Harness.RunHarness | research_harness.py:716-770 | The result is `HarnessResult`: the merged candidates, recency-filtered, date-sorted and ranked by `_filter_papers_with_llm` with the chosen fence repair (`FirstLine` as written), then given full text entry by entry. `SKIP_BROWSERBASE` drops the bioRxiv and internet lists. |
| Harness.RunHarnessBounds | research_harness.py:716-770 | For either fence repair, the returned list has one entry per ranked paper: nothing when `top_k` is not positive, otherwise at most `top_k`. Each entry is its ranked paper, unchanged or with only full text added. That ranked paper is a merged candidate. Each entry has a URL, and with an age limit it is recent. |
| Storage.EnvKey | research_harness.py:799-801 | The service-role key wins over the plain key, and both are stripped. With neither, the key is empty. |
| Storage.BuildRows | research_harness.py:809-829 | There is one row per paper: its `paper_to_dict` row without the skipped columns. |
| Storage.BuildRowsColumns | research_harness.py:809-829 | Each row has exactly the columns not skipped, with the `paper_to_dict` values. |
| Storage.MissingColumn | research_harness.py:871-874 | A reported column is a non-empty word. |
| Storage.MissingColumnOfMessage | research_harness.py:871-874 | The PostgREST "Could not find the 'col' column of 'table' in the schema cache" message yields `col`. |
| Storage.ReadError | research_harness.py:862-874 | An error is read as a missing unique constraint (42P10) and/or a missing column. |
| Storage.Next | research_harness.py:831-885 | The machine stops with success exactly when there was no error. A retry never returns to upsert after insert, and it never forgets a skipped column. |
| Storage.NextTransitions | research_harness.py:862-884 | On an error, a 42P10 while upserting retries as a plain insert with the same skipped columns. Otherwise a named missing column is added to the skipped ones, and any other error stops the save unsuccessfully. |
| Storage.Save | research_harness.py:789-885 | The count is all papers on success and 0 otherwise. At most `MaxRetries` requests are made. Without a URL, a key or the client, nothing is sent. |
| Storage.AttemptOnce | research_harness.py:831-861 | One attempt sends every paper. Its step is the machine's `Next`. |
| Storage.SaveLoop | research_harness.py:831-885 | The loop produces the outcome of `Attempts` from upsert with no skipped columns. |
| Storage.SavePapers | research_harness.py:789-885 | The method produces exactly the outcome `Save` describes. |
| Storage.AttemptsRequests | research_harness.py:831-885 | There are between 1 and `MaxRetries` requests, and the first is a plain upsert. Once insert is used, it stays. Skipped columns only grow. |
| Storage.SaveRequests | research_harness.py:799-885 | With configuration present, saving runs the retry machine, starting with an upsert. |
| Storage.MissingColumnsExhaust | research_harness.py:871-884 | Missing-column errors on every attempt use up every retry and end with a count of 0. |
| Storage.ConstraintFallsBackToInsert | research_harness.py:862-869 | A 42P10 reply to the upsert, then a successful insert, saves every paper in two requests. |
| Agents.Agent.constructor | agents.py:96-103 | A new agent has its name and persona and an empty history. |
| Agents.Agent.Say | agents.py:107-118 | The reply is the model's answer to the persona and the history with the message added. Both turns are then appended, which keeps the history alternating. |
| Agents.Agent.Reset | agents.py:120-121 | The history is emptied. |
| Agents.RoundStepTurns | agents.py:225-263 | A round adds the advocate's and skeptic's turns and, except in the last round, the scout's turn for the next round. Earlier turns are kept. |
| Agents.RoundsFromSchedule | agents.py:225-263 | Playing the remaining rounds completes the debate schedule and only appends to the transcript. |
| Agents.DebateSchedule | agents.py:214-263 | The transcript of a debate follows the schedule. It opens with the scout's reply to the opening prompt on the paper. |
| Agents.Round | agents.py:225-263 | One round updates the three agents' histories, the scout's and skeptic's last words and the transcript exactly as `RoundStep` says. The advocate answers the scout (round 1) or the skeptic. The skeptic answers the scout and the advocate. Except in the last round, the scout rebuts the skeptic. Every reply is the model's answer to the agent's own history plus its prompt. |
| Agents.PlayRounds | agents.py:225-263 | The loop leaves the transcript and all three histories as `RoundsFrom` describes, starting from the scout's opening. Every message is a function of the replies. |
| Agents.DebateRounds | agents.py:207-263 | The transcript is `Debate`'s: the scout's reply to the opening prompt on the paper, then the rounds. It follows the schedule: advocate, skeptic and scout per round, with no scout after the last round. |
| Agents.ScheduleAt | agents.py:214-263 | The schedule has 3·n turns: the scout opens, round r has the advocate at 3r-2 and the skeptic at 3r-1, and the scout follows every round but the last. With no rounds, only the scout speaks. |
| Agents.ScheduleRounds | agents.py:225-263 | Every turn's round number lies between 1 and the number of rounds. |
| Agents.NormalizeVerdict | agents.py:298-310 | Alias normalisation computes `Normalize` over the alias table. |
| Agents.AliasEntry | agents.py:298-310 | A canonical key already present is kept. Otherwise the first alias present is moved to it. With no alias present, the key stays absent. |
| Agents.AliasFrame | agents.py:298-310 | Keys outside the alias table are left alone. |
| Agents.Fallback | agents.py:293-296 | An unparsable verdict becomes UNCERTAIN with confidence 0.0 and the raw text. |
| Agents.VerdictFrom | agents.py:293-310 | Failed parsing gives the fallback. A parsed value that is not an object passes through unchanged. In Python a number, bool or null verdict raises TypeError at agents.py:306 instead (see Left out). |
| Agents.CleanVerdict | agents.py:286-310 | The verdict is unfenced, parsed or given the fallback, then normalised. |
| Agents.FormatPaperLines | agents.py:144-171 | The title line always comes first, and there are at most 8 lines. |
| Agents.ShownLinesSpec | agents.py:155-171 | An optional field adds exactly one line, `label + value`, exactly when it is truthy. |
| Agents.FormatPaperTitleOnly | agents.py:136-171 | A paper with only a title formats to its title line alone. |
| Agents.RunDebate | agents.py:174-317 | The result is `DebateOf`: the paper, the transcript of `Debate` on the formatted paper, the moderator's reply to the title and transcript as the raw verdict, and the cleaned verdict. The rounds follow the schedule and open with the scout's reply. |
| Pipeline.LoadConfig | pipeline.py:29-36 | File values override the defaults. Missing keys take their defaults. No other keys appear. `topic` and `multiplier` are always present. |
| Pipeline.ScrapedRow | pipeline.py:86-97 | Each column takes the primary key, then its fallback key, then the default. The topic falls back to the first topic. |
| Pipeline.ScrapedRows | pipeline.py:86-97 | There is one row per paper, in order. |
| Pipeline.ScrapeRows | pipeline.py:86-97 | The row loop produces `ScrapedRows`. |
| Pipeline.TopicsOr | pipeline.py:75 | The topic list is never empty. Given topics are used as they are. |
| Pipeline.ScrapeAndStore | pipeline.py:65-102 | Without a connection, or with a non-string title, the call fails. No papers gives no rows. Otherwise the rows are the deduplicated scrape, and the stored rows are returned when there are any. |
| Pipeline.DebateRow | pipeline.py:140-154 | Each column takes its verdict field or default. The list fields and the log are JSON dumps. The raw verdict and the timestamp are kept. |
| Pipeline.StoreDebate | pipeline.py:135-156 | Returns the first stored row, or the built row when the insert returns nothing. |
| Pipeline.CeilDivLeast | pipeline.py:277-279 | The ceiling quotient is the least q with q·m ≥ n. |
| Pipeline.TopCount | pipeline.py:277-279 | At least one paper is kept, and never more than there are. A negative multiplier keeps one. |
| Pipeline.TopCountLeast | pipeline.py:277-279 | The count kept is the least that, multiplied, covers all the papers (but at least one). |
| Pipeline.GetTopPapers | pipeline.py:252-279 | No rows give an empty list. A multiplier of 0 with rows fails, as the division raises. Otherwise the result is the first `TopCount` rows, at least one and at most all. |
| Pipeline.GetTopPapersFraction | pipeline.py:277-279 | A positive multiplier keeps about 1/multiplier of the rows, rounded up. A negative one keeps one. |
| Pipeline.SortResults | pipeline.py:234-236 | Results are sorted by confidence, highest first, stably. |
| Pipeline.TopResultsProperties | pipeline.py:234-240 | The top results are sorted and drawn from the results. Each is at least as confident as every result left out. |
| Pipeline.DebatedOf | pipeline.py:204-232 | A paper's entry keeps the paper and follows the schedule. A stored row exists exactly when the verdict is an object. |
| Pipeline.DebateOne | pipeline.py:204-222 | One pass is `DebatedOf` on the paper: its debate, and the stored row when the verdict is an object. `ok` says the verdict is an object. |
| Pipeline.TakeThroughShape | pipeline.py:205-232 | The loop's list has entry k equal to paper k's result. Every entry but the last passed, and the list ends early only at an entry that failed. |
| Pipeline.TakeThroughLength | pipeline.py:205-232 | The loop's list is never longer than the papers, and it covers all of them when every entry passed. |
| Pipeline.DebateAll | pipeline.py:205-232 | The loop debates the papers in order, stopping after the first non-object verdict. `ok` says none was found. |
| Pipeline.DebateNext | pipeline.py:205-232 | One turn of the loop appends the paper's entry and goes on exactly when its verdict is an object. |
| Pipeline.DebatedEntries | pipeline.py:205-232 | Entry i of the loop's list is paper i's debate and stored row, and it follows the schedule. |
| Pipeline.RunDebatePipeline | pipeline.py:159-249 | The debates are the loop's list over the papers, in order. The run fails exactly when a verdict is not an object, or when a multiplier of 0 meets a non-empty list. With no papers it returns an empty list. Otherwise it debated every paper and returns the `TopCount` most confident results. |
| Scrapers.Gather | scrapers.py:124-133 | Papers are gathered topic by topic, Browserbase results before Bright Data results. |
| Scrapers.CollectedAppend | scrapers.py:126-133 | Gathering over two runs of topics concatenates the two gatherings. |
| Scrapers.RunScraper | scrapers.py:124-144 | Fails exactly when some title is not a string. Otherwise it returns the first paper for each non-blank stripped, lower-cased title. |
| Scrapers.RunScraperProperties | scrapers.py:135-144 | The kept papers are an ordered subsequence: the first occurrences, covering every non-blank key, with no key twice. |
| Scrapers.TitleKeyBlank | scrapers.py:139-140 | The key is blank exactly when the title is missing or all whitespace. |
| Scrapers.BlankTitleDropped | scrapers.py:139-142 | A paper with a missing or blank title is never kept. |
| Sorting.SortDescPermutation | pipeline.py:234-236 | The sort is a permutation. |
| Sorting.SortDescSorted | pipeline.py:234-236 | The sort's output is in descending order. |
| Sorting.SortDescStable | pipeline.py:234-236 | Equal keys keep their input order, as Python's sort guarantees. |

## Left out

- Rendering of JSON values with `str()` is a single function, `Show`. Its exact text is not modelled. Only where it is used, and the labels around it, are.
- `Lower` folds ASCII letters only. `IsSpace` is an explicit set of whitespace characters. Python's full Unicode case mapping and whitespace class are not modelled.
- The environment variables, the config file, the clock and the "today" cutoff are parameters. The cutoff date string is computed outside the model.
- JSON parsing (`json.loads`), XML parsing of the arXiv feed and PDF text extraction are oracles. The model receives parsed entries and extracted text.
- The HTTP client, the Browserbase/Stagehand browser, the LLM clients and the Supabase client are oracles. Their replies are parameters.
- The system prompts of the agents and the ranker are opaque strings.
- Python `print`, logging (including `_log_collection_sources` and the `dropped` list of `_filter_recency`) and `time.sleep` are not modelled. The retry waits are recorded in the trace instead.
- asyncio concurrency: the gathered calls are modelled as sequential. Their results do not depend on the order in which they run.
- Dict key order is not modelled: rows and verdicts are maps.
- The moderator verdict paths that crash in Python are not modelled. An example is a list verdict holding an alias string, where `pop` raises.
- A field of a non-string type where the source calls `.strip()` raises. This is modelled only for `paper_name` in `run_scraper` (as `None`). Elsewhere the model's fields are strings.
- Pipeline.RunDebatePipeline: the confidence comparison is a parameter `ge`. Python's mixed-type comparison of confidences is not modelled.
- Pipeline.GetTopPapers: the multiplier is an integer. A float multiplier from the config is not modelled.
- The `topic or config` and `multiplier or config` fallbacks in the pipeline's entry points take the already resolved values as parameters.
- `fetch_papers_by_topic`, the HTTP API in api.py and the MCP server in poke-mcp are not part of this model.
- Pipeline rows are modelled as datatypes (`PaperRow`, `DebateRecord`) rather than dicts.
- Agents.VerdictFrom: a parsed verdict that is not an object passes through unchanged. In Python, `canonical not in verdict` at agents.py:306 raises TypeError for a number, bool or null verdict, and `verdict.pop` raises for a string or list that holds an alias. Those crashes are not modelled. Such a verdict still stops the pipeline, as `v.get` would.
- Storage.IsWordChar: `\w` in the missing-column pattern is taken as ASCII letters, digits and `_`. Python's Unicode word class is not modelled.
- Pipeline.ScrapeAndStore: an exception raised by the upsert call at pipeline.py:99 is not modelled. The `upsert` parameter always returns rows.
- Pipeline.TakeThrough: the loop's list also holds the entry whose verdict made `v.get` raise. In Python that list is lost with the exception, so it only records which paper failed.
- Web.ScrapeMetadata: a page that raises during extraction is modelled as a failed extraction. The exception types are not distinguished.

## Findings

| source | as written | input that shows it | evidently intended | confidence | as-written member | corrected member |
|---|---|---|---|---|---|---|
| research_harness.py:599-603 | `if url in seen` tests the raw URL, but the URL added to `seen` is the one with `https://` prefixed | two identical items whose url is `www.example.org/p` (Web.SchemelessHit) | the normalised URL is what is checked, so each URL is returned once | not executed | Web.RawCheckKeepsDuplicates | Web.ScanDistinct |
| research_harness.py:358-360 | `^.*?```(?:json)?\s*` without DOTALL only matches when the opening fence is on the first line; otherwise the second substitution deletes from the fence to the end | a reply `Here:\nRanked:` followed by a fenced JSON list | the fenced body is used wherever the fence starts | not executed | Fences.RankerUnfenceLosesBody | Fences.RankerUnfenceAnyLine |
