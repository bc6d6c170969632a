# Gazaimage crawler and ingestion core, in Dafny

Gazaimage collects high-resolution imagery of Gaza from curated web sources. Its core has four parts:

- A crawler (`crawler.py`). It reads seed URLs, fetches each page, and paces requests per domain. It hands keyword-matching inline images to the ingestion module and mines linked PDFs for embedded images. It also recurses into at most 25 same-site links per page, one level deep.
- The ingestion module (`utils_2.py`). It keeps three SQLite tables:
  - `seen_urls`: the outcome of each page visit;
  - `resources`: the ETag and Last-Modified validators of each image URL;
  - `images`: one row per distinct content hash.
  Every candidate image goes through one of two save paths. The URL path sends a HEAD, skips the download when the validators are unchanged, and otherwise GETs the body. The byte path enforces a size floor and de-duplicates by content hash. It writes the file under a sanitised, hash-prefixed name and records the provider.
- The older hash store (`utils.py`). `file_seen` reports whether some content was seen before and records its first URL.
- The X/Twitter feed adapter (`social_scrape_termux.py`). It reads handles from a file and hands photo URLs to the save path. It caps the tweets examined and the images saved per user.

The model has ten modules:

- `Basics`: `Option`, bytes, and Python truthiness of optional strings.
- `Text`: strip, ASCII lower-casing, substring search, decimal printing and parsing.
- `Seqs`: the first-seen de-duplication, filter and capped-dedup folds behind the crawler's loops.
- `Lines`: the comment and blank-line filter shared by the seeds file and the handles file.
- `Web`:
  - HTTP replies and parsed pages;
  - the URL operations `urljoin` and `urlparse`, taken as given;
  - a `Network` object that answers each request and logs it.
- `Names`: the pure helpers of `utils_2.py`.
- `Ingest`: the `Store` class that owns the three tables and the download directory, with the two save paths and the PDF loop.
- `Crawl`: the `Crawler` class with its pacing state and the recursive crawl.
- `HashIndex`: `utils.py`.
- `Termux`: the feed adapter.

Time is an integer clock. In the crawler it moves only when the rate limiter sleeps. The save paths receive the current time as a parameter.

Three external pieces are function values fixed when the model is built: the SHA-256 digest, `mimetypes.guess_extension`, and the `pdfimages` run. The network is an oracle `server(request, n)`, which answers the n-th request. So a resource may answer differently from one request to the next. The log of requests lets contracts say which requests were made, for example that no GET follows an unchanged HEAD.

The model follows the code, including these behaviours:

- `save_image_url` is not paced by the per-domain rate limiter. Only page and PDF fetches go through `_get` (crawler.py:32-34).
- `crawl_page` never consults `is_new_url`. The same page can be fetched and marked more than once in one run, for instance when two seeds link to it. `Crawl.Crawler.CrawlPage` marks the URL on every call, and the row written last wins.
- PDF links are not de-duplicated or restricted to the site. Every `.pdf` href of a page is fetched, once per occurrence.
- A failed image or PDF fetch is not recorded in `seen_urls`. Only `crawl_page` marks URLs.
- On an unchanged HEAD, `save_image_url` refreshes the `resources` row (utils_2.py:162) before it returns.
- `content_length` is an SQLite INTEGER column (utils_2.py:43). A `Content-Length` that parses to a number outside the signed 64-bit range makes `sqlite3` raise OverflowError in `record_resource_head`. `save_image_url` catches it, so the resources row is not written; on the download path the image is already saved.
- A stored file is named by the first 8 characters of the content hash and the sanitised base name (utils_2.py:134-137). Two different contents whose hashes share those 8 characters and that arrive under the same base name get the same path. The second save opens it with "wb" and overwrites the first one's file, while the first row still names it. `Ingest.SaveBytesSharedName` states this.
- The model keeps ghost logs of the calls to `save_image_url` (`Ingest.Store.calls`) and to `process_pdf` (`Crawl.Crawler.pdfCalls`), so that contracts can say which calls the loops make.
- `crawler.py` (line 13) and `social_scrape_termux.py` (line 10) import `save_image_url` and the crawl helpers from a module named `utils`. The `utils.py` in the tree defines only `init_db` and `file_seen`. The helpers they import are those of `utils_2.py`, which calls itself "utils.py ... (v2)" in its header. The model wires both callers to the `utils_2.py` store, the evident intent. `utils.py` is modelled on its own as `HashIndex`.

## Model

| member | source | states |
|---|---|---|
| Ingest.Store.IsNewUrl | sandbox_WIP/Gazaimage/utils_2.py:67-69 | true exactly when the URL has no `seen_urls` row |
| Ingest.Store.MarkUrlSeen | sandbox_WIP/Gazaimage/utils_2.py:71-74 | insert-or-replace: the URL's row becomes (now, status, error); no other row or table changes |
| Ingest.Store.ImageAlreadySaved | sandbox_WIP/Gazaimage/utils_2.py:76-78 | true exactly when an `images` row exists for the hash |
| Ingest.Store.RecordResourceHead | sandbox_WIP/Gazaimage/utils_2.py:80-83 | insert-or-replace of the URL's validators and check time, done exactly when the length is absent or fits SQLite's signed 64-bit INTEGER (column at utils_2.py:43); otherwise `sqlite3` raises and nothing is written. Nothing else changes |
| Ingest.Store.GetResourceHead | sandbox_WIP/Gazaimage/utils_2.py:85-88 | the stored (etag, last_modified, content_length), or (None, None, None) for an unknown URL; the same lookup the save-path contracts use |
| Names.SanitizeFilenameSpec | sandbox_WIP/Gazaimage/utils_2.py:90-93 | at most 200 characters, the first ones of the input; every kept character is ASCII alphanumeric or one of `._-()[]{}`, and every other character becomes `_` |
| Names.SanitizeIdempotent | sandbox_WIP/Gazaimage/utils_2.py:90-93 | sanitising a sanitised name changes nothing |
| Names.SanitizeAll | sandbox_WIP/Gazaimage/utils_2.py:91-92 | same length as the input; character i is the sanitised character i |
| Names.BeforeSemicolon | sandbox_WIP/Gazaimage/utils_2.py:98 | `ct.split(";")[0]`: the longest prefix without ';', followed by ';' when shorter than the input |
| Names.DetectExtensionIgnoresParameters | sandbox_WIP/Gazaimage/utils_2.py:95-99 | the parameters after the first ';' do not change the extension: a non-empty media type without ';' followed by ";" and any parameters gives what the media type alone gives |
| Names.FirstHit | sandbox_WIP/Gazaimage/utils_2.py:101-119 | the index of the first provider token, in the fixed order, that occurs in the text; none before it occurs |
| Names.ProviderFromFirstMatch | sandbox_WIP/Gazaimage/utils_2.py:101-119 | the provider of the first token found in the lower-cased "referrer img_url"; "web" exactly when no token is found |
| Names.ProviderSeesEitherUrl | sandbox_WIP/Gazaimage/utils_2.py:102 | a token is found in "referrer img_url" exactly when it is in the referrer or in the image URL: none is found across the space |
| Names.Basename | sandbox_WIP/Gazaimage/utils_2.py:128 | `os.path.basename`: the suffix after the last '/', without '/' |
| Names.JoinPath | sandbox_WIP/Gazaimage/utils_2.py:135 | `os.path.join(dir, name)` is at least as long as the name |
| Names.HashPrefix | sandbox_WIP/Gazaimage/utils_2.py:134 | `h[:8]`: a prefix of the hash, 8 characters long or the whole hash |
| Names.ImageFileNameShape | sandbox_WIP/Gazaimage/utils_2.py:128-134 | the stored file name is the 8-character hash prefix, '_', then at most 200 safe characters |
| Ingest.BaseName | sandbox_WIP/Gazaimage/utils_2.py:128 | `suggested_name or basename(path) or "unnamed"` is never empty |
| Ingest.SaveBytes | sandbox_WIP/Gazaimage/utils_2.py:121-144 | None, with nothing changed, exactly when the content is empty, below the size floor or its hash is stored. Otherwise one new row keyed by the hash with the file name, URL, referrer, provider (explicit, else inferred), downloaded flag and time. The file at the returned path, the download directory joined with that file name, holds the bytes, whether it is new or was there before. No old row changes, and every other file keeps its content |
| Ingest.SaveBytesKeepsIndex | sandbox_WIP/Gazaimage/utils_2.py:121-144 | saving keeps the index invariant: every row is downloaded, its file name starts with its hash prefix and '_', and the file exists |
| Ingest.SaveBytesTwiceIsOnce | sandbox_WIP/Gazaimage/utils_2.py:122-126 | the same bytes saved a second time, under any URL, referrer, name or provider, return None and change nothing: at most one row and one file write per content |
| Ingest.SaveBytesSharedName | sandbox_WIP/Gazaimage/utils_2.py:128-139 | two new contents above the floor with different hashes that share the 8-character prefix, saved under the same base name, get the same path. The second save rewrites that file with its own bytes and adds no file, and the first row stays and still names the path |
| Ingest.SaveBytesGrowsByOne | sandbox_WIP/Gazaimage/utils_2.py:198 | a save with an explicit provider keeps every old row, grows the table by one row exactly when it returns a path, and tags the new row with the given provenance; afterwards the hash of any content above the floor is stored |
| Ingest.Store.SaveImageFromBytes | sandbox_WIP/Gazaimage/utils_2.py:121-144 | the store's tables and the returned path are those of `SaveBytes`; `seen_urls` and `resources` are untouched |
| Ingest.DecideHeadSpec | sandbox_WIP/Gazaimage/utils_2.py:148-163 | after the HEAD: stop exactly when it raised, is not 200, or neither the content type nor the URL looks like an image. Skip the GET exactly when both validators are present and equal to the stored ones, which are then both present |
| Ingest.ParseLengthReadsDecimal | sandbox_WIP/Gazaimage/utils_2.py:162 | `int(size) if size else None` reads a `Content-Length` holding the decimal text of a number as that number |
| Ingest.RecordHeadersSpec | sandbox_WIP/Gazaimage/utils_2.py:162 | recording a HEAD touches only its own URL's row. When the call raises, because `int(size)` fails or the length does not fit the INTEGER column, nothing changes; otherwise `get_resource_head` afterwards returns the recorded validators |
| Ingest.RecordHeadersLength | sandbox_WIP/Gazaimage/utils_2.py:172-174 | a `Content-Length` of n in decimal is recorded exactly when n fits a signed 64-bit integer; `Content-Length: 99999999999999999999` leaves the resources table as it was |
| Ingest.SuggestedName | sandbox_WIP/Gazaimage/utils_2.py:168-169 | the suggested name is never empty |
| Ingest.Store.SaveImageUrl | sandbox_WIP/Gazaimage/utils_2.py:146-174 | logs one `save_image_url(url, referrer)` call. HEAD first, then by the decision: stop with nothing recorded; or refresh only the resource row without a GET; or GET. A failed GET changes nothing. A 200 body goes through `SaveBytes` with the suggested name, and the validators are recorded. Only this URL is requested, `seen_urls` is untouched and no image row changes |
| Ingest.Store.RecordHead | sandbox_WIP/Gazaimage/utils_2.py:162 | the unchanged-HEAD branch: the resource row is refreshed with the HEAD's validators and time; `seen_urls`, images and files stay |
| Ingest.Store.FetchAndSave | sandbox_WIP/Gazaimage/utils_2.py:164-172 | exactly one GET of the URL. A raised or non-200 GET changes nothing. A 200 body is saved by `SaveBytes` under the suggested name with an inferred provider, and then the HEAD's validators are recorded |
| Ingest.Store.SavePdfImage | sandbox_WIP/Gazaimage/utils_2.py:192-200 | one extracted file: the tables become those of `SaveBytes` on the file's bytes, with image URL referrer + "#pdf", the referrer as source, the file's name as suggested name and provider "pdf". It is counted exactly when a path is returned. `seen_urls`, `resources` and the call log stay |
| Ingest.BlobsStoredStep | sandbox_WIP/Gazaimage/utils_2.py:191-200 | one more extracted file keeps "every file above the floor so far has its hash stored" |
| Ingest.PdfRowsTransitive | sandbox_WIP/Gazaimage/utils_2.py:191-200 | rows added over two stretches of the loop, each all "pdf" rows of the referrer, are all "pdf" rows of the referrer |
| Ingest.Store.ExtractImagesFromPdf | sandbox_WIP/Gazaimage/utils_2.py:176-203 | the tables and the returned count are those of `Extract`. A missing `pdfimages` result changes nothing and counts 0. Otherwise the files are saved one by one, as `SavePdfImage` does, counting those that return a path. `seen_urls`, `resources` and the call log stay |
| Ingest.ExtractAllStep | sandbox_WIP/Gazaimage/utils_2.py:191-200 | the loop over the extracted files: one more file is one more `SavePdfImage` step on the tables so far, and adds one to the count exactly when that step returns a path |
| Ingest.PdfSaveKeeps | sandbox_WIP/Gazaimage/utils_2.py:191-200 | one more file keeps the loop invariant: old rows stay, no file disappears, the table has grown by exactly the count, which is at most the files so far, every new row is a "pdf" row of the referrer, and every file so far above the size floor has its hash stored |
| Ingest.ExtractAllSpec | sandbox_WIP/Gazaimage/utils_2.py:176-203 | after the loop: no old row changes, no file disappears, the table grows by exactly the returned count, which is at most the number of files, every new row has provider "pdf", image URL referrer + "#pdf" and the referrer as source, and the hash of every file above the size floor is stored |
| Ingest.ExtractAllSource | sandbox_WIP/Gazaimage/utils_2.py:191-200 | every new row comes from an extracted file above the size floor with that hash. It is the row `SaveBytes` writes for that file: named from the hash and the file's name, image URL referrer + "#pdf", the referrer as source, provider "pdf", downloaded, at the call's time |
| Ingest.PdfSaveFile | sandbox_WIP/Gazaimage/utils_2.py:134-139 | one file save keeps old rows, and adds or rewrites only the returned path, which is the download directory joined with the file name of the new row it adds. Every other file is unchanged |
| Ingest.ExtractAllFileSource | sandbox_WIP/Gazaimage/utils_2.py:191-200 | every file the loop adds or rewrites is the download directory joined with the file name of a row the loop added |
| Web.Network.Send | sandbox_WIP/Gazaimage/crawler.py:32-34 | the request is appended to the log, and the reply is the server's answer to it as the n-th request |
| Crawl.WaitTime | sandbox_WIP/Gazaimage/crawler.py:24-30 | the wait is never negative and puts at least the rate limit between the domain's last request and now; a positive wait is the least such |
| Crawl.Crawler.PauseForDomain | sandbox_WIP/Gazaimage/crawler.py:24-30 | sleeps `WaitTime`, advances the clock by it, and records the new time for this URL's domain only |
| Crawl.Crawler.Fetch | sandbox_WIP/Gazaimage/crawler.py:32-34 | exactly one GET of the URL, made at least the rate limit after the domain's previous request |
| Crawl.Crawler.ProcessPdf | sandbox_WIP/Gazaimage/crawler.py:36-44 | logs one `process_pdf(url, referrer)` call and makes one paced GET of the PDF. Unless the reply is a 200 body longer than 1024 bytes, no image or file changes. An accepted body gives exactly the tables of `Extract` on the `pdfimages` output for it, at the time after the pause. `seen_urls`, `resources` and the `save_image_url` log stay |
| Crawl.Crawler.SaveInlineImage | sandbox_WIP/Gazaimage/crawler.py:67 | logs one `save_image_url(full, page)` call. Its first request is the HEAD of the image, and every request it makes is for the image's URL. `seen_urls` and the old image rows stay |
| Crawl.Crawler.SaveIfAccepted | sandbox_WIP/Gazaimage/crawler.py:66-67 | the keyword gate: the image joins the handed-over list exactly when it matches, and `save_image_url` is called for it with the page as referrer exactly then. Every request made so far is for a handed-over image |
| Crawl.ResolvedSpec | sandbox_WIP/Gazaimage/crawler.py:57-61 | the candidates are exactly the tags with a non-empty src, joined with the page URL, with their alt text |
| Crawl.ResolvedStep | sandbox_WIP/Gazaimage/crawler.py:57-61 | one more tag adds its joined candidate exactly when its src is non-empty |
| Crawl.InlineTargetsGated | sandbox_WIP/Gazaimage/crawler.py:56-67 | every image handed to `save_image_url` matches the keywords in its URL or alt text, and no absolute URL is handed over twice |
| Crawl.InlineTargetsFirsts | sandbox_WIP/Gazaimage/crawler.py:56-64 | each handed-over image is the first tag of the page with its absolute URL |
| Crawl.InlineTargetsComplete | sandbox_WIP/Gazaimage/crawler.py:56-67 | every first tag of an absolute URL that matches the keywords is handed over |
| Crawl.Crawler.ProcessInlineImages | sandbox_WIP/Gazaimage/crawler.py:55-67 | the images handed to `save_image_url` are exactly the inline targets, in document order. The call log grows by one call per target with the page as referrer. Every request made is for one of them; `seen_urls` and the old image rows stay |
| Crawl.PdfTargets | sandbox_WIP/Gazaimage/crawler.py:70-74 | the PDF targets are the hrefs ending in ".pdf" (any case), each joined with the page URL, in order |
| Crawl.Crawler.ProcessPdfLinks | sandbox_WIP/Gazaimage/crawler.py:69-74 | processes exactly the PDF targets in order: one `process_pdf(target, page)` call each. The request log grows by one GET per target and nothing else. No `save_image_url` call is made |
| Crawl.SameDomainLinks | sandbox_WIP/Gazaimage/crawler.py:78-83 | every link is on the page's host and starts with "http", and every resolved href that is has its link in the list |
| Crawl.Crawler.CollectSameDomainLinks | sandbox_WIP/Gazaimage/crawler.py:79-83 | the loop builds exactly `SameDomainLinks` |
| Crawl.Crawler.DedupAndCap | sandbox_WIP/Gazaimage/crawler.py:85-90 | the `seenl` loop builds exactly the capped first-seen fold of the links |
| Seqs.CapFirstIsTake | sandbox_WIP/Gazaimage/crawler.py:85-90 | the capped loop keeps the first 25 distinct links in first-seen order |
| Seqs.CapFirstProperties | sandbox_WIP/Gazaimage/crawler.py:84-90 | at most 25 targets, no duplicates, a prefix of the first-seen distinct links, and fewer than 25 only when every link is kept |
| Crawl.RecursionTargetsSpec | sandbox_WIP/Gazaimage/crawler.py:77-90 | the recursion targets: at most 25, all on the page's site, no duplicates, first-seen order, and all same-site links when fewer than 25 |
| Seqs.FirstByKeys | sandbox_WIP/Gazaimage/crawler.py:56-64 | first-seen de-duplication keeps every key of the input |
| Seqs.KeySetSpec | sandbox_WIP/Gazaimage/crawler.py:62-64 | the `seen` set holds exactly the keys of the elements walked |
| Seqs.FirstByFilterAppend | sandbox_WIP/Gazaimage/crawler.py:62-67 | one more element: an already-seen key leaves the filtered first-seen list unchanged; a new key joins the seen set and lets the element through exactly when it passes the filter |
| Seqs.FirstByUnique | sandbox_WIP/Gazaimage/crawler.py:56-64 | the de-duplicated sequence comes from the input and repeats no key |
| Seqs.FirstByFirsts | sandbox_WIP/Gazaimage/crawler.py:56-64 | each kept element is the first of its key in the input |
| Seqs.FirstByKeepsFirsts | sandbox_WIP/Gazaimage/crawler.py:56-64 | each first element of its key is kept |
| Seqs.FilterProperties | sandbox_WIP/Gazaimage/crawler.py:66 | the filter keeps exactly the elements that pass, never more than the input |
| Seqs.FilterKeepsUnique | sandbox_WIP/Gazaimage/crawler.py:62-67 | filtering a sequence without repeated keys leaves none |
| Crawl.MaxPages | sandbox_WIP/Gazaimage/crawler.py:77-92 | the page bound of a crawl of a given depth is at least one |
| Crawl.Crawler.CrawlPage | sandbox_WIP/Gazaimage/crawler.py:46-97 | GETs the page first. Its `seen_urls` row, written last, holds status 200, the HTTP status with "HTTP n", or 599 with the exception message. A failed page changes nothing else and makes no call. After a 200 page, the `save_image_url` calls start with one per inline target and the `process_pdf` calls with one per PDF target; above depth 0 the visits at depth - 1 are exactly the recursion targets, in order, and each has a `seen_urls` row. Every page reached is shallower and on the same host, and at most `MaxPages(depth)` pages are visited. No URL row disappears, no image row changes and no logged call is lost |
| Crawl.Crawler.CrawlOk | sandbox_WIP/Gazaimage/crawler.py:55-94 | the rest of a page with status 200: its inline and PDF calls come first; above depth 0 the visits at depth - 1 are exactly the recursion targets in order, each with a row; then the page's own row records status 200 |
| Crawl.Crawler.CrawlFetched | sandbox_WIP/Gazaimage/crawler.py:55-92 | the work on a fetched page: the `save_image_url` calls start with one per inline target and the `process_pdf` calls with one per PDF target, and at depth 0 they are exactly those. Above depth 0, the visits at depth - 1 are exactly the recursion targets in order, and each has a `seen_urls` row. Every page visited is shallower and on the same host, at most `MaxPages(depth) - 1` of them, none at depth 0. No URL row disappears and no image row changes |
| Crawl.Crawler.CrawlChild | sandbox_WIP/Gazaimage/crawler.py:91-92 | `crawl_page(link, depth-1)` for one same-site link: the link is fetched first and visited at depth - 1, it is the only visit at that depth, and it gets a `seen_urls` row. Every page visited is shallower than the parent and on the parent's host, at most `MaxPages(depth-1)` of them; no logged call is lost |
| Crawl.Crawler.CrawlLinks | sandbox_WIP/Gazaimage/crawler.py:76-92 | recursion one level shallower: the visits at depth - 1 are exactly the recursion targets, in order, and every target has a `seen_urls` row. Every visited page is on the page's host, at most 25 × `MaxPages(depth-1)` pages; no logged call is lost |
| Crawl.Crawler.CrawlTarget | sandbox_WIP/Gazaimage/crawler.py:91-92 | one turn of the loop over `nxt`: after the j-th target is crawled, the visits at depth - 1 are the first j + 1 targets and each of them has a row |
| Crawl.UrlsAtDepthOfCrawl | sandbox_WIP/Gazaimage/crawler.py:91-92 | a crawl started at depth d adds exactly one visit at depth d, its own URL, after those already made |
| Crawl.Crawler.Run | sandbox_WIP/Gazaimage/crawler.py:99-106 | no seeds file, no crawl. Otherwise the depth-1 visits are exactly the seed lines in file order, and every seed ends with a `seen_urls` row |
| Crawl.Crawler.CrawlSeeds | sandbox_WIP/Gazaimage/crawler.py:105-106 | the seed loop: the depth-1 visits are exactly the seeds in order, and every seed has a `seen_urls` row afterwards |
| Crawl.Crawler.CrawlSeed | sandbox_WIP/Gazaimage/crawler.py:105-106 | one turn of the seed loop adds exactly one depth-1 visit, for its seed, and leaves the seed with a `seen_urls` row; no row disappears |
| Lines.ContentLinesShape | sandbox_WIP/Gazaimage/crawler.py:104 | a kept line is non-empty, does not start with '#', has no surrounding whitespace, and is the strip of a line of the file |
| Lines.ContentLinesComplete | sandbox_WIP/Gazaimage/crawler.py:104 | every line that strips to a non-empty text not starting with '#' is kept, and no more lines than the file are kept |
| Lines.ContentLinesStep | sandbox_WIP/Gazaimage/social_scrape_termux.py:28-31 | one more line extends the kept lines by its strip exactly when it is kept |
| HashIndex.Record | sandbox_WIP/Gazaimage/utils.py:18-28 | true exactly when the hash is stored; afterwards it is stored, no other key is added, no old row changes, and a new row holds this url and time |
| HashIndex.RecordTwice | sandbox_WIP/Gazaimage/utils.py:22-25 | a second call with the same content, from any url at any time, answers true and changes nothing |
| HashIndex.FirstUrlKept | sandbox_WIP/Gazaimage/utils.py:22-25 | after any calls, a new hash holds the url and time of the first call with that content |
| HashIndex.NotStoredBeforeFirst | sandbox_WIP/Gazaimage/utils.py:22-25 | before the first call with a content, its hash is not stored |
| HashIndex.StoredRowsKept | sandbox_WIP/Gazaimage/utils.py:24-25 | rows stored before any calls are never overwritten |
| HashIndex.FileIndex.InitDb | sandbox_WIP/Gazaimage/utils.py:11-16 | afterwards the table exists; existing rows stay |
| HashIndex.FileIndex.FileSeen | sandbox_WIP/Gazaimage/utils.py:18-28 | without the table, no answer and nothing written; otherwise the answer and the new table are those of `Record` |
| Termux.EnvLimitReadsDecimal | sandbox_WIP/Gazaimage/social_scrape_termux.py:20-21 | a variable holding the decimal text of a number sets the cap to that number |
| Termux.HandlesSpec | sandbox_WIP/Gazaimage/social_scrape_termux.py:28-32 | no more handles than lines; none starts with '@'; each is the strip of a file line with its leading '@' removed |
| Termux.LoadUsers | sandbox_WIP/Gazaimage/social_scrape_termux.py:23-33 | a missing file gives no users; otherwise the handles, in file order |
| Termux.PhotoUrl | sandbox_WIP/Gazaimage/social_scrape_termux.py:56-58 | a URL exactly for a photo with a non-empty `fullUrl` or `url`; it is non-empty and is `fullUrl` when that is non-empty |
| Termux.CapPhotosIsTake | sandbox_WIP/Gazaimage/social_scrape_termux.py:54-62 | the media loop saves the first `room` photo URLs of the tweet |
| Termux.CapPhotosFull | sandbox_WIP/Gazaimage/social_scrape_termux.py:61-62 | once the cap is reached, the rest of the tweet's media adds nothing |
| Termux.CapPhotosSource | sandbox_WIP/Gazaimage/social_scrape_termux.py:54-59 | every saved URL is the photo URL of one of the tweet's media items |
| Termux.ScanCaps | sandbox_WIP/Gazaimage/social_scrape_termux.py:43-62 | per user, at most MAX_IMAGES saves and at most MAX_TWEETS tweets examined, never more than were received; the scan runs to the end unless it breaks off |
| Termux.ScanSource | sandbox_WIP/Gazaimage/social_scrape_termux.py:46-59 | every save is a photo URL of one of the examined tweets, with that tweet's `https://x.com/<user>/status/<id>` permalink as referrer |
| Termux.StepSourced | sandbox_WIP/Gazaimage/social_scrape_termux.py:46-59 | one more tweet keeps every save traced to an examined tweet's photo and permalink |
| Termux.KeptSaveSourced | sandbox_WIP/Gazaimage/social_scrape_termux.py:46-59 | a save made before a tweet stays at its place and stays traced to an examined tweet |
| Termux.AddedSaveSourced | sandbox_WIP/Gazaimage/social_scrape_termux.py:46-59 | a save added by a tweet is traced to that tweet, which is examined |
| Termux.StepKeepsSave | sandbox_WIP/Gazaimage/social_scrape_termux.py:46-59 | a tweet never removes or changes an earlier save and never un-examines a tweet |
| Termux.StepAddsSave | sandbox_WIP/Gazaimage/social_scrape_termux.py:46-59 | a save added by a tweet comes from a tweet with media, before the break, and is one of its capped photo URLs with its permalink |
| Termux.ScanPrefixStep | sandbox_WIP/Gazaimage/social_scrape_termux.py:46-48 | the scan of one more tweet is one more step of the loop body |
| Termux.ScanStopped | sandbox_WIP/Gazaimage/social_scrape_termux.py:46-48 | once the loop breaks off, later tweets change nothing |
| Termux.SaveTweetPhotos | sandbox_WIP/Gazaimage/social_scrape_termux.py:54-62 | the media loop calls `save_image_url` for exactly the capped photo URLs, in order, with the permalink as referrer; `seen_urls` and the old image rows stay |
| Termux.ScanTweet | sandbox_WIP/Gazaimage/social_scrape_termux.py:49-62 | the body for an examined tweet: the saves grow exactly as the scan step says, by none for a tweet without media and otherwise by its capped photos with its permalink, and the `save_image_url` calls are exactly the new saves; `seen_urls` and the old image rows stay |
| Termux.ScanUser | sandbox_WIP/Gazaimage/social_scrape_termux.py:43-62 | the `save_image_url` calls made for one user are exactly the scan's saves, in order |
| Termux.ScanNextUser | sandbox_WIP/Gazaimage/social_scrape_termux.py:41-64 | one turn of the loop over users appends that user's scan to the saves, and the call log grows by it |
| Termux.Run | sandbox_WIP/Gazaimage/social_scrape_termux.py:35-64 | the users are the loaded handles (none without the file). Each user's saves are that user's scan of their timeline, and the `save_image_url` calls are all users' saves, user after user |

## Left out

- Network transfer, timeouts, headers sent and redirects are not modelled. The server oracle gives every reply, and an exception from `requests` is a `Raised` reply with its message.
- HTML parsing is not modelled: a page is given as its `<img>` tags and its `<a href>` values. `urljoin` and `urlparse` (netloc, path) are function parameters.
- The SHA-256 digest, `mimetypes.guess_extension` and the `pdfimages` run are function parameters. The temporary directory, the glob order of the extracted files and a file that fails to read are left out; the model takes the tool's list of files in order.
- SQLite is not modelled, apart from the `files` table's existence in `utils.py`: schema creation, `ALTER TABLE` upgrades, commits and connections are left out. Each table is a map keyed by its primary key.
- Environment configuration is not modelled: the download directory, database path, user agent, `MIN_IMAGE_BYTES` and the rate limit are fields or constants. A malformed `GAZA_MIN_BYTES` or `GAZA_RATE_LIMIT` makes the import fail, and that is not modelled.
- Time is whole seconds: `RATE_LIMIT_SECONDS` and `time.time()` are integers, and the clock advances only by the rate limiter's sleeps.
- Character classes are ASCII only: `str.isalnum`, `str.lower`, `str.strip` and the case-insensitive KEYWORDS match are not extended to Unicode letters, digits, whitespace or case folding.
- `Text.ParseInt` accepts optional surrounding whitespace, a sign and ASCII digits. Python's `int` also accepts `_` separators and non-ASCII digits, which the model rejects.
- Log and console output (`print`) is not modelled.
- An exception inside `crawl_page` after a successful GET, raised by the parser or by `urljoin` on a malformed href, is not modelled. The model treats parsing and joining as total.
- A `snscrape` failure ends a user's scan. It is modelled by the timeline being the tweets yielded before the failure. A missing `snscrape` module is not modelled.
- Termux.Run: takes the tweet and image caps as integers. A malformed `GAZA_MAX_TWEETS`, which makes the import fail, is `Termux.EnvLimit` returning None, and is not connected to `Run`.
- Crawl.Crawler.CrawlPage: after a successful page, states the page's own row, the preserved rows and the calls the page itself makes, not the exact image, resource and file tables.
- Crawl.Crawler.CrawlFetched: states the calls the page itself makes as the start of the call logs, not the calls made by the recursion into its links.
- Crawl.Crawler.ProcessInlineImages: states the `save_image_url` calls and that every request is for a handed-over image, not the exact sequence of HEAD and GET requests.
- Termux.ScanUser: states the `save_image_url` calls, not the requests they cause or the final tables.
- Ingest.SaveBytesKeepsIndex: states that each row's file exists, not that it holds that row's content, because a later save can overwrite it (see `Ingest.SaveBytesSharedName`).
- `extract_images_from_pdf` calls `image_already_saved` before `save_image_from_bytes`, which checks the same hash again. The model performs both checks as the code does, so the first check's redundancy is not exposed.
- Concurrency: the code is sequential, and the model is too.
