# Google Patents scraper: record assembly, verified in Dafny

This project models the record-assembly core of `google_patent_scraper.py`. That code turns a query into a list of patent records. It searches `patents.google.com`, visits the detail page of each result article, and builds the record's eleven text fields (`title`, `abstract`, `patent_id`, `link`, `claims`, `description`, `inventor`, `assignee`, `classification`, `citations`, `date_published`). When the patents search lists no article, it falls back to a web search and visits the `/patent/` links found there.

No page is parsed here. Every selector query comes already evaluated:
- a search article is its `href`, its link text, its snippet, and the outcome of fetching its detail page;
- a detail page is the text-node lists its selectors return, its citation rows (each a list of cell texts) and its timeline events (date texts and title texts);
- a fetch either gives the page or raises.

Modules:

- `Strings`: the character classes (`str.isspace`, `[A-Z]`, `\d`), `startswith`, `find`, `in`, `sep.join` and list filtering.
- `TextNodes`: `_txts`, described in two ways:
  - as the code computes it: drop blank fragments, collapse whitespace runs with `re.sub(r"\s+", " ", x)`, `strip()`, join with `" "`;
  - independently, as the whitespace-separated words of all fragments joined by single spaces.

  The two are proved equal. That is the basis of the normal-form, emptiness, concatenation and idempotence lemmas.
- `Fields`: the citation table and the application timeline.
  - On the main path they are loops (`BuildCitations`, `BuildTimeline`) that drop blank rows and empty events.
  - On the fallback path they are comprehensions that keep every row and every event.

  Lemmas relate the two forms.
- `Links`: link resolution against `https://patents.google.com` and the main path's `re.search` for the patent id, modelled as a scanner that finds the leftmost match and the greedy `[A-Z0-9]` run. It also covers the fallback's `link.split("/patent/")[-1].split("/")[0]`.
- `Crawl`: the two crawl loops as methods, each proved equal to a specification function. Lemmas about those functions cover:
  - the bounds on the number of records;
  - order;
  - deduplication;
  - when a run raises;
  - what each record holds.

Fetch outcomes are inputs. An exception from `httpx.get` is modelled as `Outcome.Raised`. It propagates out of `run_google_patents_scraper`. Its `finally` block writes the log, and the model assumes that write succeeds.

Points where the code's behaviour is easy to misread:
- **Detail-fetch failure.** A failed detail fetch is not caught: the whole run raises, so one failed fetch loses every record.
- **Cap on the fallback path.** The cap check `len(results) >= max_results` runs after the append. So the fallback returns one record when `max_results <= 0` and some link qualifies (`Crawl.Cap`).
- **Negative `max_results`.** On the main path, `articles[:max_results]` with a negative bound drops that many articles from the end (`Crawl.SliceLength`).
- **`split("/patent/")[-1]`.** This takes what follows the last separator that a left-to-right, non-overlapping scan finds (`Links.PieceStart`); on `/patent/patent/x` that is `patent/x` (`Links.OverlappingMarkerExample`).

## Model

| member | source | states |
|---|---|---|
| TextNodes.Txts | google_patent_scraper.py:61-62 | `_txts(nodes)`: the non-blank fragments, each with its whitespace runs collapsed to one space and stripped, joined by single spaces; its meaning is given by the lemmas below |
| TextNodes.TxtsClean | google_patent_scraper.py:61-62 | `_txts` output has no leading or trailing whitespace, each whitespace character is a plain space, and no two whitespace characters are adjacent |
| TextNodes.TxtsEmptyIff | google_patent_scraper.py:62 | `_txts` returns `""` exactly when every fragment is empty or whitespace-only |
| TextNodes.TxtsIsJoinedWords | google_patent_scraper.py:61-62 | `_txts` equals the words of all fragments, in input order, joined by single spaces; it keeps no fragment exactly when there is no word |
| TextNodes.TxtsIdempotent | google_patent_scraper.py:61-62 | `_txts([_txts(xs)]) == _txts(xs)` |
| TextNodes.TxtsAppend | google_patent_scraper.py:61-62 | `_txts(xs + ys)` is `_txts(xs)` and `_txts(ys)` joined by one space, or whichever of them is non-empty |
| TextNodes.KeepsIffNotBlank | google_patent_scraper.py:62 | the guard `x and x.strip()` keeps a fragment exactly when it has a non-whitespace character |
| TextNodes.CollapseFrom | google_patent_scraper.py:62 | `re.sub(r"\s+", " ", x)` leaves only single plain spaces, yields an empty string only for an empty input, and starts with whitespace exactly when the input does |
| TextNodes.Strip | google_patent_scraper.py:62 | `strip()` leaves no whitespace at either end |
| TextNodes.NormalizeClean | google_patent_scraper.py:62 | each kept fragment, once collapsed and stripped, is in normal form |
| TextNodes.NormalizeIsJoinedWords | google_patent_scraper.py:62 | a collapsed and stripped fragment is its words joined by single spaces |
| TextNodes.NormalizeIdempotent | google_patent_scraper.py:62 | collapsing and stripping twice is collapsing and stripping once |
| TextNodes.WordsEmptyIffBlank | google_patent_scraper.py:62 | a fragment has no word exactly when it is whitespace-only |
| Fields.Cells | google_patent_scraper.py:147 | the kept cells of a row are non-empty and stripped, no more than the row's texts |
| Fields.BuildCitations | google_patent_scraper.py:145-149 | the loop's `citations` is the newline join of one line per row with a non-blank cell, in document order |
| Fields.CitationLinesDropBlankRows | google_patent_scraper.py:145-149 | the main path's citation lines are the per-row lines with the empty ones removed; no line is empty and none starts or ends with whitespace |
| Fields.RowLineShape | google_patent_scraper.py:147-148 | a row's line of cells joined by the cell separator is empty exactly when the row has no non-blank cell, and it is trimmed |
| Fields.AllRowLines | google_patent_scraper.py:92-95 | the fallback path writes exactly one line per row, the `i`-th for the `i`-th row |
| Fields.BuildTimeline | google_patent_scraper.py:150-155 | the loop's `date_published` is the `"; "` join of one `"{date} — {tt}"` entry per event with a date or a title, in document order |
| Fields.TimelineDropsEmptyEvents | google_patent_scraper.py:150-155 | the main path's entries are the per-event entries without the bare `" — "` ones; no kept entry is bare |
| Fields.EventEntryBareIff | google_patent_scraper.py:154 | `date or tt` holds exactly when the event's entry is not the bare separator |
| Fields.EventEntrySides | google_patent_scraper.py:152-153 | both sides of an entry are in normal form, and each is empty exactly when all its text nodes are blank |
| Fields.AllEventEntries | google_patent_scraper.py:96-99 | the fallback path writes exactly one entry per event, the `i`-th for the `i`-th event |
| Links.ResolveLink | google_patent_scraper.py:129 | the link is empty exactly when the href is; an href starting with `/` becomes the patents origin followed by the href, and any other href is kept unchanged |
| Links.FirstIdMatch | google_patent_scraper.py:130 | finds a match of `/patent/[A-Z]{2}\d` at or after the start, and no match starts before it |
| Links.IdRunEnd | google_patent_scraper.py:130 | the greedy `[A-Z0-9]*` run ends at the first character outside the class, or at the end |
| Links.PatentId | google_patent_scraper.py:130-131 | the patent id is `""` exactly when the link has no match; otherwise it matches `[A-Z]{2}\d+[A-Z0-9]*` in full |
| Links.PatentIdLeftmost | google_patent_scraper.py:130-131 | the id is group 1 of the leftmost match and runs up to the first character after it outside `[A-Z0-9]` |
| Links.ResolvedPatentId | google_patent_scraper.py:129-131 | an href `/patent/<id-run>...` gets the link on the patents host, and that run as its patent id |
| Links.PatentHrefExample | google_patent_scraper.py:129-131 | `/patent/US1234567A1/en` resolves to `https://patents.google.com/patent/US1234567A1/en`, and the main path's search and the fallback path's split both give `US1234567A1` |
| Links.FallbackPatentId | google_patent_scraper.py:85 | `link.split("/patent/")[-1].split("/")[0]`: the first `/`-segment of the last piece after `/patent/`; the lemmas below characterise it |
| Links.OverlappingMarkerExample | google_patent_scraper.py:85 | the split's scan does not overlap occurrences: the last piece of `/patent/patent/x` is `patent/x` |
| Links.PieceStart | google_patent_scraper.py:85 | the last piece of `split("/patent/")` starts right after a separator, or at the start, and holds no separator |
| Links.SlashIndex | google_patent_scraper.py:85 | `split("/")[0]` ends at the first `/`, or at the end |
| Links.LastPieceHasNoSeparator | google_patent_scraper.py:85 | `split("/patent/")[-1]` contains no `/patent/` |
| Links.FallbackPatentIdSegment | google_patent_scraper.py:85 | a link that contains `/patent/` is a head, `/patent/`, the fallback id, and a tail that is empty or starts with `/`; the id holds no `/`, and neither it nor the tail holds `/patent/` |
| Links.ResolvedFallbackPatentId | google_patent_scraper.py:85 | on a patents-host link with a single `/patent/`, the fallback id is the segment after it up to the next `/` |
| Crawl.SliceLength | google_patent_scraper.py:125 | `len(articles[:max_results])`: at most `max_results` when that is not negative, and all articles but the last `-max_results` when it is negative |
| Crawl.MainRecord | google_patent_scraper.py:126-169 | the record the main loop appends for a linked, fetched article: stripped link text, detail abstract or stripped snippet, resolved link and its regex id, `_txts` of each detail field, filtered citations and timeline |
| Crawl.MainPath | google_patent_scraper.py:125-170 | the main loop's outcome over given articles: raises when a linked article's fetch raises, else the records of the linked articles in order |
| Crawl.ArticleRecord | google_patent_scraper.py:126-169 | the loop body builds the main-path record of a fetched article, citations and timeline included |
| Crawl.ScrapeArticles | google_patent_scraper.py:125 | the main loop runs over `articles[:max_results]` and gives the main path over that slice |
| Crawl.CrawlArticles | google_patent_scraper.py:125-170 | the loop returns one record per article with a link, in order, or raises at the first failed detail fetch: exactly the main path over its articles |
| Crawl.LinkedMembers | google_patent_scraper.py:132-133 | the articles the main loop keeps are articles of its input, each with a non-empty link |
| Crawl.MainPathBounded | google_patent_scraper.py:125 | the main path returns at most `max_results` records when that is not negative, never more than there are articles, and with a negative bound leaves room for the dropped tail |
| Crawl.MainPathRaisedIff | google_patent_scraper.py:132-136 | the main path raises exactly when some article with a link has a detail fetch that raises |
| Crawl.MainPathRecordOf | google_patent_scraper.py:125-169 | each article with a link contributes its record, at the position given by the linked articles before it: order is kept and none is dropped |
| Crawl.MainRecordShape | google_patent_scraper.py:126-169 | a main-path record has a non-empty resolved link and a patent id that is empty or well formed; its abstract is the detail abstract when that has text, else the stripped snippet, and is empty only when both are blank; its patent id is the regex id of its link; its title and abstract are trimmed; its claims, description, inventor, assignee and classification are in normal form; its citations and timeline are the newline and `"; "` joins of the per-row lines and per-event entries with the blank ones dropped |
| Crawl.PatentLinksMembers | google_patent_scraper.py:71 | the fallback keeps only hrefs of the page that contain `/patent/` |
| Crawl.PatentLinksKeeps | google_patent_scraper.py:71 | every href that contains `/patent/` is kept |
| Crawl.UrlsIff | google_patent_scraper.py:72-76 | `seen` after visiting some links holds exactly their URLs |
| Crawl.FreshLinks | google_patent_scraper.py:73-78 | every link the fallback fetches starts with `http`, and there are no more than the links |
| Crawl.FreshLinksMembers | google_patent_scraper.py:73-78 | every fetched link is one of the links visited, and its URL is in `seen` |
| Crawl.FreshLinksFinds | google_patent_scraper.py:73-78 | the URL of every link that starts with `http` is fetched |
| Crawl.FreshLinksPosition | google_patent_scraper.py:73-80 | the first occurrence of an `http` URL is itself fetched, right after the links fetched before it: fetches follow document order |
| Crawl.FreshLinksDistinct | google_patent_scraper.py:72-76 | `seen` at work: no URL is fetched twice |
| Crawl.Cap | google_patent_scraper.py:101-102 | the stop condition after an append is reached at `max(max_results, 1)` records: `max_results` when positive, one otherwise |
| Crawl.CapCount | google_patent_scraper.py:101-102 | the loop fetches all candidates, or exactly `max(max_results, 1)` of them |
| Crawl.FallbackRecord | google_patent_scraper.py:82-100 | the record the fallback appends for a fetched link: `_txts` of each field, the link itself, its split-derived id, unfiltered citations and timeline |
| Crawl.FallbackPath | google_patent_scraper.py:71-103 | the fallback's outcome: the records of the first `min(candidates, max(max_results, 1))` fresh `http` links with `/patent/`, or a raise when one of those fetches raises |
| Crawl.ScrapeGoogleSearch | google_patent_scraper.py:71-103 | the fallback loop returns the records of the first `min(candidates, max(max_results, 1))` fresh `http` links with `/patent/`, in order, or raises if one of those fetches raises |
| Crawl.FallbackBounded | google_patent_scraper.py:101-102 | the fallback returns at most `max_results` records when that is positive, at most one otherwise, and fewer than the candidates only when it reached the cap |
| Crawl.FallbackRecordOf | google_patent_scraper.py:73-100 | the `k`-th fallback record is the record of the `k`-th fresh link |
| Crawl.FreshPatentLink | google_patent_scraper.py:71-78 | every fresh link is an href that contains `/patent/` and starts with `http` |
| Crawl.FallbackRecordAtRank | google_patent_scraper.py:73-102 | the first occurrence of an `http` URL met before the cap was fetched, and its record, built from that occurrence's detail page, sits in the result at the number of links fetched before it |
| Crawl.FallbackRecordsLinks | google_patent_scraper.py:71-86 | every fallback record's link contains `/patent/`, starts with `http` and is one of the page's hrefs; records' links are pairwise distinct; each patent id is the split-derived segment of the link |
| Crawl.FallbackRecordShape | google_patent_scraper.py:82-99 | a fallback record keeps the fetched link, takes its split-derived id, and has normal-form text fields; its citations and timeline join one line per row and one entry per event, blank ones included, where the main path drops them |
| Crawl.Scrape | google_patent_scraper.py:113-125 | the run's outcome: raises with the search fetch, takes the fallback on zero articles, else the main path over `articles[:max_results]` |
| Crawl.RunGooglePatentsScraper | google_patent_scraper.py:113-125 | the run raises if the search fetch does, takes the fallback when the search lists no article, and takes the main path otherwise |
| Crawl.ScrapeBounded | google_patent_scraper.py:121-125 | a run returns at most `max_results` records when that is at least one; the fallback at most `max(max_results, 1)`; the main path no more than the articles, none for `max_results == 0`, and with a negative bound leaves room for the dropped tail |
| Crawl.ScrapeWithoutCandidates | google_patent_scraper.py:71-78 | with no article and no `http` href containing `/patent/`, the run returns no record |
| Crawl.FreshLinksWithoutHttp | google_patent_scraper.py:77-78 | without an `http` link the fallback fetches nothing |

## Left out

- **Service plumbing:** the FastAPI app, the CORS middleware, the `/healthz` and `/get_patents_detailed` endpoints, the pydantic models, `asyncio` and the thread pool. They are service plumbing and concurrency wrappers around the run.
- **Network and parsing:** `httpx.get` and the `parsel` CSS and XPath evaluation are foreign library calls. Each selector result is an input, including the `following-sibling::dd[1]` inventor and assignee lookups. A fetch is the page or an exception, and no status code is examined, as in the code.
- **The query:** the search URLs and `quote_plus(query)` only build URLs for the fetches, which are inputs here.
- **Side effects:** `time.sleep`, `print` and the log rows do not change the returned records.
- **Log write:** the pandas Excel write in the `finally` block is assumed to succeed. A `to_excel` that raises (no Excel writer installed, an unwritable directory) replaces the returned list, or the pending exception, with its own exception; the model does not capture that.
- Links.ResolveLink: prefixes the origin to any href that starts with `/`, where `urljoin` does more. It resolves a protocol-relative `//host/...` href to another host. It removes dot segments: `/a/../patent/US1A1/en` becomes `https://patents.google.com/patent/US1A1/en`, where the model keeps `/a/../`. It drops tab, CR and LF characters from the href. It drops an empty query, fragment or params marker: `/patent/US1A1/en?` becomes `https://patents.google.com/patent/US1A1/en`, where the model keeps the `?`. None of these is modelled.
- Strings.IsDigit: `\d` is read as the ASCII digits. Python's `str` patterns also match other Unicode decimal digits.
