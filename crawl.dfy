/** The crawl controller of sandbox_WIP/Gazaimage/crawler.py: per-domain pacing, the keyword gate
    on inline images, PDF link processing, the capped same-domain recursion, and seed parsing. */
module Crawl {
  import opened Basics
  import opened Text
  import opened Web
  import opened Ingest
  import opened Lines
  import Seqs

  const MaxLinksPerPage: nat := 25

  /** The alternatives of the case-insensitive KEYWORDS regex, lower-cased;
      `before[- ]after` is its two spellings. */
  const KeywordTokens: seq<string> := [
    "maxar", "skysat", "planet", "unosat", "satellite", "gaza", "damage",
    "before-after", "before after", "2023", "2024", "2025"
  ]

  /** RATE_LIMIT_SECONDS, whole seconds. */
  const DefaultRateLimit: int := 2

  /** `process_pdf` extracts only from bodies longer than this. */
  const PdfMinBytes: int := 1024

  /** `KEYWORDS.search(s)` is not None. */
  predicate KeywordMatch(s: string)
  {
    exists k :: 0 <= k < |KeywordTokens| && Contains(Lower(s), KeywordTokens[k])
  }

  // ---------------------------------------------------------------------
  // Inline images

  /** An `<img>` resolved against the page: its absolute URL and its alt text. */
  datatype Candidate = Candidate(url: string, alt: string)

  function UrlOf(c: Candidate): string { c.url }

  /** The absolute URLs of `cs`, in order. */
  function UrlsOf(cs: seq<Candidate>): (r: seq<string>)
    ensures |r| == |cs| && forall i :: 0 <= i < |cs| ==> r[i] == cs[i].url
  {
    seq(|cs|, i requires 0 <= i < |cs| => cs[i].url)
  }

  lemma UrlsOfAppend(cs: seq<Candidate>, c: Candidate)
    ensures UrlsOf(cs + [c]) == UrlsOf(cs) + [c.url]
  {
    assert UrlsOf(cs + [c])[|cs|] == c.url;
  }

  /** The keyword gate: the absolute URL or the alt text matches. */
  predicate Accepted(c: Candidate)
  {
    KeywordMatch(c.url) || KeywordMatch(c.alt)
  }

  /** The `<img>` tags with a non-empty src, resolved with `urljoin(page, src)`, in document order. */
  function Resolved(pageUrl: string, tags: seq<ImgTag>, join: (string, string) -> string): (r: seq<Candidate>)
    ensures |r| <= |tags|
  {
    if tags == [] then []
    else
      var t := tags[|tags| - 1];
      Resolved(pageUrl, tags[..|tags| - 1], join) + (if t.src == "" then [] else [Candidate(join(pageUrl, t.src), t.alt)])
  }

  /** Every resolved candidate comes from a tag with a non-empty src, and every such tag yields one. */
  lemma {:induction false} ResolvedSpec(pageUrl: string, tags: seq<ImgTag>, join: (string, string) -> string)
    ensures forall c :: c in Resolved(pageUrl, tags, join) ==>
              (exists i :: 0 <= i < |tags| && tags[i].src != "" && c == Candidate(join(pageUrl, tags[i].src), tags[i].alt))
    ensures forall i :: 0 <= i < |tags| && tags[i].src != "" ==>
              Candidate(join(pageUrl, tags[i].src), tags[i].alt) in Resolved(pageUrl, tags, join)
  {
    if tags != [] {
      var tags', t := tags[..|tags| - 1], tags[|tags| - 1];
      ResolvedSpec(pageUrl, tags', join);
      forall c | c in Resolved(pageUrl, tags, join)
        ensures exists i :: 0 <= i < |tags| && tags[i].src != "" && c == Candidate(join(pageUrl, tags[i].src), tags[i].alt)
      {
        if c in Resolved(pageUrl, tags', join) {
          var i :| 0 <= i < |tags'| && tags'[i].src != "" && c == Candidate(join(pageUrl, tags'[i].src), tags'[i].alt);
          assert tags[i] == tags'[i];
        } else {
          assert tags[|tags| - 1] == t;
        }
      }
      forall i | 0 <= i < |tags| && tags[i].src != ""
        ensures Candidate(join(pageUrl, tags[i].src), tags[i].alt) in Resolved(pageUrl, tags, join)
      {
        if i < |tags'| {
          assert tags[i] == tags'[i];
        }
      }
    }
  }

  /** The images `crawl_page` hands to `save_image_url`, in order: the first tag of each absolute URL,
      if it passes the keyword gate. */
  function InlineTargets(pageUrl: string, tags: seq<ImgTag>, join: (string, string) -> string): seq<Candidate>
  {
    Seqs.Filter(Seqs.FirstBy(Resolved(pageUrl, tags, join), UrlOf), Accepted)
  }

  /** Every handled image passes the keyword gate, and no absolute URL is handled twice. */
  lemma InlineTargetsGated(pageUrl: string, tags: seq<ImgTag>, join: (string, string) -> string)
    ensures forall c :: c in InlineTargets(pageUrl, tags, join) ==> KeywordMatch(c.url) || KeywordMatch(c.alt)
    ensures Seqs.UniqueKeys(InlineTargets(pageUrl, tags, join), UrlOf)
  {
    var f := Seqs.FirstBy(Resolved(pageUrl, tags, join), UrlOf);
    Seqs.FilterProperties(f, Accepted);
    Seqs.FirstByUnique(Resolved(pageUrl, tags, join), UrlOf);
    Seqs.FilterKeepsUnique(f, UrlOf, Accepted);
  }

  /** Each handled image is the first resolved tag with its absolute URL. */
  lemma InlineTargetsFirsts(pageUrl: string, tags: seq<ImgTag>, join: (string, string) -> string, c: Candidate)
    requires c in InlineTargets(pageUrl, tags, join)
    ensures exists i :: 0 <= i < |Resolved(pageUrl, tags, join)| && Resolved(pageUrl, tags, join)[i] == c
                        && Seqs.FirstOfKey(Resolved(pageUrl, tags, join), UrlOf, i)
  {
    var r := Resolved(pageUrl, tags, join);
    var f := Seqs.FirstBy(r, UrlOf);
    Seqs.FirstByFirsts(r, UrlOf);
    Seqs.FilterSource(f, Accepted, c);
    var k :| 0 <= k < |f| && f[k] == c;
    assert c in f;
  }

  /** Every first resolved tag of an absolute URL that passes the keyword gate is handled. */
  lemma InlineTargetsComplete(pageUrl: string, tags: seq<ImgTag>, join: (string, string) -> string, i: nat)
    requires i < |Resolved(pageUrl, tags, join)|
    requires Seqs.FirstOfKey(Resolved(pageUrl, tags, join), UrlOf, i)
    requires KeywordMatch(Resolved(pageUrl, tags, join)[i].url) || KeywordMatch(Resolved(pageUrl, tags, join)[i].alt)
    ensures Resolved(pageUrl, tags, join)[i] in InlineTargets(pageUrl, tags, join)
  {
    var r := Resolved(pageUrl, tags, join);
    Seqs.FirstByKeepsFirsts(r, UrlOf, i);
    Seqs.FilterProperties(Seqs.FirstBy(r, UrlOf), Accepted);
  }

  /** One more tag: a tag with an empty src resolves to nothing, any other to one candidate. */
  lemma ResolvedStep(pageUrl: string, tags: seq<ImgTag>, i: nat, join: (string, string) -> string)
    requires i < |tags|
    ensures Resolved(pageUrl, tags[..i + 1], join) == Resolved(pageUrl, tags[..i], join)
              + (if tags[i].src == "" then [] else [Candidate(join(pageUrl, tags[i].src), tags[i].alt)])
  {
    assert tags[..i + 1][..i] == tags[..i];
  }

  // ---------------------------------------------------------------------
  // PDF links

  predicate IsPdfHref(href: string)
  {
    EndsWith(Lower(href), ".pdf")
  }

  /** Every href ending in ".pdf" (any case), resolved against the page, in document order,
      duplicates and other domains included. */
  function PdfTargets(pageUrl: string, hrefs: seq<string>, join: (string, string) -> string): (r: seq<string>)
    ensures var pdfs := Seqs.Filter(hrefs, IsPdfHref);
            |r| == |pdfs| && forall k :: 0 <= k < |r| ==> r[k] == join(pageUrl, pdfs[k])
  {
    if hrefs == [] then []
    else
      var h := hrefs[|hrefs| - 1];
      PdfTargets(pageUrl, hrefs[..|hrefs| - 1], join) + (if IsPdfHref(h) then [join(pageUrl, h)] else [])
  }

  /** One `process_pdf(pdf_url, referrer=...)` call. */
  datatype PdfCall = PdfCall(url: string, referrer: string)

  /** The calls that process each of `pdfUrls`, in order, from the page `referrer`. */
  function PdfCallsOf(pdfUrls: seq<string>, referrer: string): (r: seq<PdfCall>)
    ensures |r| == |pdfUrls| && forall k :: 0 <= k < |pdfUrls| ==> r[k] == PdfCall(pdfUrls[k], referrer)
  {
    seq(|pdfUrls|, k requires 0 <= k < |pdfUrls| => PdfCall(pdfUrls[k], referrer))
  }

  lemma PdfCallsOfAppend(pdfUrls: seq<string>, u: string, referrer: string)
    ensures PdfCallsOf(pdfUrls + [u], referrer) == PdfCallsOf(pdfUrls, referrer) + [PdfCall(u, referrer)]
  {
    assert PdfCallsOf(pdfUrls + [u], referrer)[|pdfUrls|] == PdfCall(u, referrer);
  }

  /** `process_pdf` extracts only from a 200 response whose body is longer than 1024 bytes. */
  predicate PdfBodyAccepted(reply: Reply)
  {
    reply.Answered? && reply.status == 200 && |reply.content| > 0 && |reply.content| > PdfMinBytes
  }

  // ---------------------------------------------------------------------
  // Same-domain recursion links

  /** `urlparse(link).netloc == domain and link.startswith("http")`. */
  predicate SameSite(urls: UrlOps, pageUrl: string, link: string)
  {
    urls.netloc(link) == urls.netloc(pageUrl) && StartsWith(link, "http")
  }

  /** The `links` list: every href resolved against the page, kept when it is on the page's site. */
  function SameDomainLinks(urls: UrlOps, pageUrl: string, hrefs: seq<string>): (r: seq<string>)
    ensures forall l :: l in r ==> SameSite(urls, pageUrl, l)
    ensures forall h :: h in hrefs && SameSite(urls, pageUrl, urls.join(pageUrl, h)) ==> urls.join(pageUrl, h) in r
  {
    if hrefs == [] then []
    else
      var l := urls.join(pageUrl, hrefs[|hrefs| - 1]);
      SameDomainLinks(urls, pageUrl, hrefs[..|hrefs| - 1]) + (if SameSite(urls, pageUrl, l) then [l] else [])
  }

  /** The `nxt` list: the recursion targets. */
  function RecursionTargets(urls: UrlOps, pageUrl: string, hrefs: seq<string>): seq<string>
  {
    Seqs.CapFirst(SameDomainLinks(urls, pageUrl, hrefs), MaxLinksPerPage)
  }

  /** At most 25 targets, all on the page's site, no duplicates, the first-seen distinct links in
      order, and fewer than 25 only when every same-site link is a target. */
  lemma RecursionTargetsSpec(urls: UrlOps, pageUrl: string, hrefs: seq<string>)
    ensures var links, t := SameDomainLinks(urls, pageUrl, hrefs), RecursionTargets(urls, pageUrl, hrefs);
      && |t| <= MaxLinksPerPage
      && (forall l :: l in t ==> SameSite(urls, pageUrl, l))
      && (forall i, j :: 0 <= i < j < |t| ==> t[i] != t[j])
      && t <= Seqs.FirstBy(links, Seqs.Id)
      && (|t| < MaxLinksPerPage ==> forall l :: l in links ==> l in t)
  {
    Seqs.CapFirstProperties(SameDomainLinks(urls, pageUrl, hrefs), MaxLinksPerPage);
  }

  /** The loop that builds `links`. */
  method CollectSameDomainLinks(urls: UrlOps, pageUrl: string, hrefs: seq<string>) returns (links: seq<string>)
    ensures links == SameDomainLinks(urls, pageUrl, hrefs)
  {
    links := [];
    for i := 0 to |hrefs|
      invariant links == SameDomainLinks(urls, pageUrl, hrefs[..i])
    {
      assert hrefs[..i + 1][..i] == hrefs[..i];
      var link := urls.join(pageUrl, hrefs[i]);
      if urls.netloc(link) == urls.netloc(pageUrl) && StartsWith(link, "http") {
        links := links + [link];
      }
    }
    assert hrefs[..|hrefs|] == hrefs;
  }

  /** The "de-dup and cap" loop that builds `nxt` with the `seenl` set. */
  method DedupAndCap(links: seq<string>) returns (nxt: seq<string>)
    ensures nxt == Seqs.CapFirst(links, MaxLinksPerPage)
  {
    nxt := [];
    var seen: set<string> := {};
    for i := 0 to |links|
      invariant nxt == Seqs.CapFirst(links[..i], MaxLinksPerPage)
      invariant forall l :: l in seen <==> l in nxt
    {
      Seqs.CapFirstStep(links, i, MaxLinksPerPage);
      var l := links[i];
      if l !in seen && |nxt| < MaxLinksPerPage {
        seen := seen + {l};
        nxt := nxt + [l];
      }
    }
    assert links[..|links|] == links;
  }

  // ---------------------------------------------------------------------
  // Pacing

  /** `_last_request.get(dom, 0)`. */
  function LastRequest(last: map<string, int>, dom: string): int
  {
    if dom in last then last[dom] else 0
  }

  /** How long `_pause_for_domain` sleeps: the least wait that puts RATE_LIMIT_SECONDS between the
      previous request to the domain and this one. */
  function WaitTime(last: map<string, int>, dom: string, now: int, rate: int): (w: int)
    ensures w >= 0
    ensures now + w >= LastRequest(last, dom) + rate
    ensures w > 0 ==> now + w == LastRequest(last, dom) + rate
  {
    var wait := rate - (now - LastRequest(last, dom));
    if wait > 0 then wait else 0
  }

  // ---------------------------------------------------------------------
  // The crawler

  /** One call of `crawl_page`. */
  datatype Visit = Visit(url: string, depth: nat)

  /** The most pages one `crawl_page(url, depth)` can fetch. */
  function MaxPages(depth: nat): (n: nat)
    ensures n >= 1
  {
    if depth == 0 then 1 else 1 + MaxLinksPerPage * MaxPages(depth - 1)
  }

  lemma MulSucc(j: nat, m: nat)
    ensures j * m + m == (j + 1) * m
  {
  }

  lemma MulMonotone(a: nat, b: nat, m: nat)
    requires a <= b
    ensures a * m <= b * m
  {
  }

  /** The URLs of the visits made at depth `d`, in visit order. */
  function UrlsAtDepth(vs: seq<Visit>, d: nat): seq<string>
  {
    if vs == [] then []
    else UrlsAtDepth(vs[..|vs| - 1], d) + (if vs[|vs| - 1].depth == d then [vs[|vs| - 1].url] else [])
  }

  lemma {:induction false} UrlsAtDepthAppend(a: seq<Visit>, b: seq<Visit>, d: nat)
    ensures UrlsAtDepth(a + b, d) == UrlsAtDepth(a, d) + UrlsAtDepth(b, d)
    decreases |b|
  {
    if b == [] {
      assert a + b == a;
    } else {
      UrlsAtDepthAppend(a, b[..|b| - 1], d);
      assert (a + b)[..|a + b| - 1] == a + b[..|b| - 1];
      assert (a + b)[|a + b| - 1] == b[|b| - 1];
    }
  }

  lemma {:induction false} UrlsAtDepthOfDeeper(vs: seq<Visit>, d: nat)
    requires forall i :: 0 <= i < |vs| ==> vs[i].depth < d
    ensures UrlsAtDepth(vs, d) == []
  {
    if vs != [] {
      UrlsAtDepthOfDeeper(vs[..|vs| - 1], d);
    }
  }

  /** A crawl started at depth `d` adds exactly one visit at depth `d`, its own: every page it
      reaches from there is visited at a smaller depth. */
  lemma UrlsAtDepthOfCrawl(before: seq<Visit>, after: seq<Visit>, start: nat, url: string, d: nat)
    requires start <= |before| < |after| && before <= after
    requires after[|before|] == Visit(url, d)
    requires forall i :: |before| < i < |after| ==> after[i].depth < d
    ensures UrlsAtDepth(after[start..], d) == UrlsAtDepth(before[start..], d) + [url]
  {
    var added := after[|before|..];
    assert after[start..] == before[start..] + added;
    UrlsAtDepthAppend(before[start..], added, d);
    assert added == [Visit(url, d)] + added[1..];
    UrlsAtDepthAppend([Visit(url, d)], added[1..], d);
    assert forall k :: 0 <= k < |added[1..]| ==> added[1..][k] == after[|before| + 1 + k];
    UrlsAtDepthOfDeeper(added[1..], d);
    assert UrlsAtDepth([Visit(url, d)], d) == [url];
  }

  lemma UrlsAtDepthSplit(before: seq<Visit>, after: seq<Visit>, start: nat, d: nat)
    requires start <= |before| <= |after| && before <= after
    ensures UrlsAtDepth(after[start..], d) == UrlsAtDepth(before[start..], d) + UrlsAtDepth(after[|before|..], d)
  {
    assert after[start..] == before[start..] + after[|before|..];
    UrlsAtDepthAppend(before[start..], after[|before|..], d);
  }

  /** What `crawl_page` does with a page fetched with status 200, seen in the call logs before
      (`saves0`, `pdfs0`) and after (`saves`, `pdfs`), the visits it makes (`added`) and the
      `seen_urls` table afterwards: the inline targets go to `save_image_url` and the PDF links to
      `process_pdf` first, and above depth 0 the recursion targets are crawled in order at
      depth - 1, each getting a row. */
  ghost predicate PageWork(urls: UrlOps, url: string, page: Page, depth: nat,
                           saves0: seq<Save>, saves: seq<Save>, pdfs0: seq<PdfCall>, pdfs: seq<PdfCall>,
                           added: seq<Visit>, seen: map<string, SeenRow>)
  {
    && saves0 + SavesOf(UrlsOf(InlineTargets(url, page.images, urls.join)), url) <= saves
    && pdfs0 + PdfCallsOf(PdfTargets(url, page.hrefs, urls.join), url) <= pdfs
    && (depth > 0 ==> UrlsAtDepth(added, depth - 1) == RecursionTargets(urls, url, page.hrefs))
    && (depth > 0 ==> forall l :: l in RecursionTargets(urls, url, page.hrefs) ==> l in seen)
  }

  /** `status` and `error` that `crawl_page` records for the reply to its page GET. */
  function PageStatus(reply: Reply): int
  {
    if reply.Raised? then 599 else if reply.status != 200 then reply.status else 200
  }

  function PageError(reply: Reply): Option<string>
  {
    if reply.Raised? then Some(reply.message)
    else if reply.status != 200 then Some("HTTP " + IntToDecimal(reply.status))
    else None
  }

  class Crawler {
    const store: Store
    const net: Network
    const urls: UrlOps
    const rateLimit: int
    /** Running `pdfimages` on a PDF body: None when it is not installed. */
    const pdfTool: Bytes -> Option<seq<Blob>>
    /** `_last_request`: domain -> time of the last request. */
    var lastRequest: map<string, int>
    /** `time.time()`, in whole seconds. */
    var clock: int
    /** Every `crawl_page` call so far, in call order. */
    ghost var visits: seq<Visit>
    /** Every `process_pdf` call so far, in call order. */
    ghost var pdfCalls: seq<PdfCall>

    constructor (store: Store, net: Network, urls: UrlOps, rateLimit: int,
                 pdfTool: Bytes -> Option<seq<Blob>>, clock: int)
      ensures this.store == store && this.net == net && this.urls == urls
      ensures this.rateLimit == rateLimit && this.pdfTool == pdfTool && this.clock == clock
      ensures lastRequest == map[] && visits == [] && pdfCalls == []
    {
      this.store, this.net, this.urls := store, net, urls;
      this.rateLimit, this.pdfTool, this.clock := rateLimit, pdfTool, clock;
      lastRequest, visits, pdfCalls := map[], [], [];
    }

    /** `_pause_for_domain`: sleep for the wait, then record the time for this domain only. */
    method PauseForDomain(url: string) returns (slept: int)
      modifies this`lastRequest, this`clock
      ensures slept == WaitTime(old(lastRequest), urls.netloc(url), old(clock), rateLimit)
      ensures clock == old(clock) + slept
      ensures lastRequest == old(lastRequest)[urls.netloc(url) := clock]
      ensures clock >= LastRequest(old(lastRequest), urls.netloc(url)) + rateLimit
    {
      var dom := urls.netloc(url);
      var last := if dom in lastRequest then lastRequest[dom] else 0;
      var wait := rateLimit - (clock - last);
      slept := 0;
      if wait > 0 {
        slept := wait;
        clock := clock + wait;
      }
      lastRequest := lastRequest[dom := clock];
    }

    /** `_get`: pace, then GET. */
    method Fetch(url: string) returns (reply: Reply)
      modifies this`lastRequest, this`clock, net
      ensures net.log == old(net.log) + [Get(url)]
      ensures reply == net.server(Get(url), |old(net.log)|)
      ensures lastRequest == old(lastRequest)[urls.netloc(url) := clock]
      ensures clock >= old(clock) && clock >= LastRequest(old(lastRequest), urls.netloc(url)) + rateLimit
    {
      var _ := PauseForDomain(url);
      reply := net.Send(Get(url));
    }

    /** `process_pdf`: GET the PDF, and extract its images when the body is accepted. */
    method ProcessPdf(pdfUrl: string, referrer: string)
      requires store.Valid()
      modifies this`lastRequest, this`clock, this`pdfCalls, store, net
      ensures store.Valid()
      ensures pdfCalls == old(pdfCalls) + [PdfCall(pdfUrl, referrer)]
      ensures net.log == old(net.log) + [Get(pdfUrl)]
      ensures store.seenUrls == old(store.seenUrls) && store.resources == old(store.resources)
      ensures store.calls == old(store.calls)
      ensures RowsKept(old(store.images), store.images)
      ensures var reply := net.server(Get(pdfUrl), |old(net.log)|);
              && (!PdfBodyAccepted(reply) ==> store.images == old(store.images) && store.files == old(store.files))
              && (PdfBodyAccepted(reply) ==>
                    var r := Extract(store.cfg, old(store.images), old(store.files), pdfTool(reply.content), referrer, clock);
                    store.images == r.images && store.files == r.files)
      ensures clock >= old(clock)
    {
      pdfCalls := pdfCalls + [PdfCall(pdfUrl, referrer)];
      var reply := Fetch(pdfUrl);
      if reply.Answered? && reply.status == 200 && |reply.content| > 0 && |reply.content| > PdfMinBytes {
        var _ := store.ExtractImagesFromPdf(reply.content, referrer, pdfTool, clock);
        if pdfTool(reply.content).Some? {
          ExtractAllSpec(store.cfg, old(store.images), old(store.files), pdfTool(reply.content).value, referrer, clock);
        }
      }
    }

    /** `save_image_url(full, referrer=url)`, seen from the crawler: it touches neither the seen
        table nor any stored image row, and it only requests `full`. */
    method SaveInlineImage(full: string, pageUrl: string)
      requires store.Valid()
      modifies store, net
      ensures store.Valid()
      ensures store.calls == old(store.calls) + [Save(full, pageUrl)]
      ensures store.seenUrls == old(store.seenUrls)
      ensures RowsKept(old(store.images), store.images)
      ensures old(net.log) <= net.log
      ensures |net.log| > |old(net.log)| && net.log[|old(net.log)|] == Head(full)
      ensures forall k :: |old(net.log)| <= k < |net.log| ==> net.log[k].url == full
    {
      store.SaveImageUrl(net, full, pageUrl, clock);
    }

    /** The keyword gate for a first-seen image (`KEYWORDS.search(full) or KEYWORDS.search(alt)`):
        an accepted image is handed to `save_image_url` and joins `handled`. The calls made since
        `base` are those of `handled`, and every request made since `start` is for a URL of
        `handled`, before and after. */
    method SaveIfAccepted(c: Candidate, pageUrl: string, handled: seq<Candidate>, ghost base: seq<Save>, ghost start: nat)
      returns (handled': seq<Candidate>)
      requires store.Valid()
      requires store.calls == base + SavesOf(UrlsOf(handled), pageUrl)
      requires start <= |net.log| && forall k :: start <= k < |net.log| ==> net.log[k].url in UrlsOf(handled)
      modifies store, net
      ensures store.Valid()
      ensures handled' == handled + (if Accepted(c) then [c] else [])
      ensures store.calls == base + SavesOf(UrlsOf(handled'), pageUrl)
      ensures store.seenUrls == old(store.seenUrls)
      ensures RowsKept(old(store.images), store.images)
      ensures old(net.log) <= net.log
      ensures forall k :: start <= k < |net.log| ==> net.log[k].url in UrlsOf(handled')
    {
      handled' := handled;
      if Accepted(c) {
        SaveInlineImage(c.url, pageUrl);
        UrlsOfAppend(handled, c);
        SavesOfAppend(UrlsOf(handled), c.url, pageUrl);
        handled' := handled + [c];
      }
    }

    /** Step 1 of `crawl_page`: inline images. Returns the images handed to `save_image_url`. */
    method ProcessInlineImages(pageUrl: string, tags: seq<ImgTag>) returns (handled: seq<Candidate>)
      requires store.Valid()
      modifies store, net
      ensures store.Valid()
      ensures handled == InlineTargets(pageUrl, tags, urls.join)
      ensures store.calls == old(store.calls) + SavesOf(UrlsOf(handled), pageUrl)
      ensures store.seenUrls == old(store.seenUrls)
      ensures RowsKept(old(store.images), store.images)
      ensures old(net.log) <= net.log
      ensures forall k :: |old(net.log)| <= k < |net.log| ==> net.log[k].url in UrlsOf(handled)
    {
      handled := [];
      var seen: set<string> := {};
      ghost var resolved: seq<Candidate> := [];
      for i := 0 to |tags|
        invariant store.Valid()
        invariant resolved == Resolved(pageUrl, tags[..i], urls.join)
        invariant handled == Seqs.Filter(Seqs.FirstBy(resolved, UrlOf), Accepted)
        invariant seen == Seqs.KeySet(resolved, UrlOf)
        invariant store.calls == old(store.calls) + SavesOf(UrlsOf(handled), pageUrl)
        invariant store.seenUrls == old(store.seenUrls)
        invariant RowsKept(old(store.images), store.images)
        invariant old(net.log) <= net.log
        invariant forall k :: |old(net.log)| <= k < |net.log| ==> net.log[k].url in UrlsOf(handled)
      {
        ResolvedStep(pageUrl, tags, i, urls.join);
        var src := tags[i].src;
        if src == "" {
          continue;
        }
        var full := urls.join(pageUrl, src);
        var c := Candidate(full, tags[i].alt);
        Seqs.FirstByFilterAppend(resolved, c, UrlOf, Accepted);
        resolved := resolved + [c];
        if full in seen {
          continue;
        }
        seen := seen + {full};
        handled := SaveIfAccepted(c, pageUrl, handled, old(store.calls), |old(net.log)|);
      }
      assert tags[..|tags|] == tags;
    }

    /** Step 2 of `crawl_page`: every PDF link, in order. Returns the PDF URLs processed. */
    method ProcessPdfLinks(pageUrl: string, hrefs: seq<string>) returns (processed: seq<string>)
      requires store.Valid()
      modifies this`lastRequest, this`clock, this`pdfCalls, store, net
      ensures store.Valid()
      ensures processed == PdfTargets(pageUrl, hrefs, urls.join)
      ensures pdfCalls == old(pdfCalls) + PdfCallsOf(processed, pageUrl)
      ensures store.calls == old(store.calls)
      ensures net.log == old(net.log) + seq(|processed|, k requires 0 <= k < |processed| => Get(processed[k]))
      ensures store.seenUrls == old(store.seenUrls)
      ensures RowsKept(old(store.images), store.images)
      ensures clock >= old(clock)
    {
      processed := [];
      for i := 0 to |hrefs|
        invariant store.Valid()
        invariant processed == PdfTargets(pageUrl, hrefs[..i], urls.join)
        invariant pdfCalls == old(pdfCalls) + PdfCallsOf(processed, pageUrl)
        invariant store.calls == old(store.calls)
        invariant net.log == old(net.log) + seq(|processed|, k requires 0 <= k < |processed| => Get(processed[k]))
        invariant store.seenUrls == old(store.seenUrls)
        invariant RowsKept(old(store.images), store.images)
        invariant clock >= old(clock)
      {
        assert hrefs[..i + 1][..i] == hrefs[..i];
        var href := hrefs[i];
        if EndsWith(Lower(href), ".pdf") {
          var pdfUrl := urls.join(pageUrl, href);
          ProcessPdf(pdfUrl, pageUrl);
          PdfCallsOfAppend(processed, pdfUrl, pageUrl);
          processed := processed + [pdfUrl];
        }
      }
      assert hrefs[..|hrefs|] == hrefs;
    }

    /** `crawl_page(url, depth)`. */
    method CrawlPage(url: string, depth: nat)
      requires store.Valid()
      modifies this, store, net
      decreases depth, 5
      ensures store.Valid()
      // the visit log: this page first, then only shallower pages on the same site, boundedly many
      ensures |visits| > |old(visits)| && old(visits) <= visits && visits[|old(visits)|] == Visit(url, depth)
      ensures forall i :: |old(visits)| < i < |visits| ==> visits[i].depth < depth
      ensures forall i :: |old(visits)| <= i < |visits| ==> urls.netloc(visits[i].url) == urls.netloc(url)
      ensures |visits| - |old(visits)| <= MaxPages(depth)
      ensures depth == 0 ==> visits == old(visits) + [Visit(url, 0)]
      // the page is fetched first, and its row records the outcome, written last
      ensures |net.log| > |old(net.log)| && old(net.log) <= net.log && net.log[|old(net.log)|] == Get(url)
      ensures var reply := net.server(Get(url), |old(net.log)|);
              url in store.seenUrls && store.seenUrls[url] == SeenRow(clock, PageStatus(reply), PageError(reply))
      ensures old(store.seenUrls).Keys <= store.seenUrls.Keys
      ensures RowsKept(old(store.images), store.images)
      ensures clock >= old(clock)
      // a fetched page hands its inline targets to `save_image_url`, then its PDF links to
      // `process_pdf`, before any page it links to does
      ensures old(store.calls) <= store.calls && old(pdfCalls) <= pdfCalls
      // and, above depth 0, then crawls its recursion targets in order at depth - 1
      ensures var reply := net.server(Get(url), |old(net.log)|);
              PageStatus(reply) == 200 ==>
                PageWork(urls, url, reply.page, depth, old(store.calls), store.calls, old(pdfCalls), pdfCalls,
                         visits[|old(visits)| + 1..], store.seenUrls)
      // a failed page is recorded and nothing else happens
      ensures var reply := net.server(Get(url), |old(net.log)|);
              PageStatus(reply) != 200 ==>
                && net.log == old(net.log) + [Get(url)]
                && visits == old(visits) + [Visit(url, depth)]
                && store.seenUrls == old(store.seenUrls)[url := SeenRow(clock, PageStatus(reply), PageError(reply))]
                && store.resources == old(store.resources)
                && store.images == old(store.images) && store.files == old(store.files)
                && store.calls == old(store.calls) && pdfCalls == old(pdfCalls)
    {
      visits := visits + [Visit(url, depth)];
      var reply := Fetch(url);
      if reply.Raised? {
        store.MarkUrlSeen(url, clock, 599, Some(reply.message));
        return;
      }
      var status := reply.status;
      if status != 200 {
        store.MarkUrlSeen(url, clock, status, Some("HTTP " + IntToDecimal(status)));
        return;
      }
      ghost var logged, before := net.log, visits;
      CrawlOk(url, reply.page, depth);
      assert net.log[|old(net.log)|] == logged[|old(net.log)|];
      assert visits[|old(visits)| + 1..] == visits[|before|..];
    }

    /** The rest of `crawl_page` after a 200 reply: steps 1 to 3, then the page's own row. */
    method CrawlOk(url: string, page: Page, depth: nat)
      requires store.Valid()
      modifies this, store, net
      decreases depth, 4
      ensures store.Valid()
      ensures old(visits) <= visits
      ensures forall i :: |old(visits)| <= i < |visits| ==> visits[i].depth < depth
      ensures forall i :: |old(visits)| <= i < |visits| ==> urls.netloc(visits[i].url) == urls.netloc(url)
      ensures |visits| - |old(visits)| <= MaxPages(depth) - 1
      ensures depth == 0 ==> visits == old(visits)
      ensures old(net.log) <= net.log
      ensures url in store.seenUrls && store.seenUrls[url] == SeenRow(clock, 200, None)
      ensures old(store.seenUrls).Keys <= store.seenUrls.Keys
      ensures RowsKept(old(store.images), store.images)
      ensures clock >= old(clock)
      ensures PageWork(urls, url, page, depth, old(store.calls), store.calls, old(pdfCalls), pdfCalls,
                       visits[|old(visits)|..], store.seenUrls)
    {
      CrawlFetched(url, page, depth);
      store.MarkUrlSeen(url, clock, 200, None);
    }

    /** Steps 1 to 3 of `crawl_page` on a page fetched with status 200: inline images, linked
        PDFs, then the same-domain links one level shallower. */
    method CrawlFetched(url: string, page: Page, depth: nat)
      requires store.Valid()
      modifies this, store, net
      decreases depth, 3
      ensures store.Valid()
      ensures old(visits) <= visits
      ensures forall i :: |old(visits)| <= i < |visits| ==> visits[i].depth < depth
      ensures forall i :: |old(visits)| <= i < |visits| ==> urls.netloc(visits[i].url) == urls.netloc(url)
      ensures |visits| - |old(visits)| <= MaxPages(depth) - 1
      ensures depth == 0 ==> visits == old(visits)
      ensures old(net.log) <= net.log
      ensures old(store.seenUrls).Keys <= store.seenUrls.Keys
      ensures RowsKept(old(store.images), store.images)
      ensures clock >= old(clock)
      // the inline targets go to `save_image_url` and the PDF links to `process_pdf` first;
      // any further calls come from the pages linked to, and there are none at depth 0
      ensures old(store.calls) + SavesOf(UrlsOf(InlineTargets(url, page.images, urls.join)), url) <= store.calls
      ensures old(pdfCalls) + PdfCallsOf(PdfTargets(url, page.hrefs, urls.join), url) <= pdfCalls
      ensures depth == 0 ==>
                && store.calls == old(store.calls) + SavesOf(UrlsOf(InlineTargets(url, page.images, urls.join)), url)
                && pdfCalls == old(pdfCalls) + PdfCallsOf(PdfTargets(url, page.hrefs, urls.join), url)
      // above depth 0, the recursion targets are crawled in order at depth - 1, and each gets a row
      ensures depth > 0 ==> UrlsAtDepth(visits[|old(visits)|..], depth - 1) == RecursionTargets(urls, url, page.hrefs)
      ensures depth > 0 ==> forall l :: l in RecursionTargets(urls, url, page.hrefs) ==> l in store.seenUrls
    {
      // 1) inline images
      var _ := ProcessInlineImages(url, page.images);
      // 2) linked PDFs
      var _ := ProcessPdfLinks(url, page.hrefs);
      // 3) shallow same-domain crawl
      if depth > 0 {
        CrawlLinks(url, page.hrefs, depth);
      }
    }

    /** Step 3 of `crawl_page`: recurse one level shallower into the capped same-domain links. */
    method CrawlLinks(pageUrl: string, hrefs: seq<string>, depth: nat)
      requires store.Valid() && depth > 0
      modifies this, store, net
      decreases depth, 2
      ensures store.Valid()
      ensures old(visits) <= visits
      ensures forall i :: |old(visits)| <= i < |visits| ==> visits[i].depth < depth
      ensures forall i :: |old(visits)| <= i < |visits| ==> urls.netloc(visits[i].url) == urls.netloc(pageUrl)
      ensures |visits| - |old(visits)| <= MaxLinksPerPage * MaxPages(depth - 1)
      // the targets are crawled one after the other, each at depth - 1, and each gets a row
      ensures UrlsAtDepth(visits[|old(visits)|..], depth - 1) == RecursionTargets(urls, pageUrl, hrefs)
      ensures forall l :: l in RecursionTargets(urls, pageUrl, hrefs) ==> l in store.seenUrls
      ensures old(store.calls) <= store.calls && old(pdfCalls) <= pdfCalls
      ensures old(net.log) <= net.log
      ensures old(store.seenUrls).Keys <= store.seenUrls.Keys
      ensures RowsKept(old(store.images), store.images)
      ensures clock >= old(clock)
    {
      var links := CollectSameDomainLinks(urls, pageUrl, hrefs);
      var nxt := DedupAndCap(links);
      assert |nxt| <= MaxLinksPerPage && forall l :: l in nxt ==> SameSite(urls, pageUrl, l) by {
        Seqs.CapFirstProperties(links, MaxLinksPerPage);
      }
      ghost var start := |visits|;
      ghost var perChild := MaxPages(depth - 1);
      for j := 0 to |nxt|
        invariant store.Valid()
        invariant old(visits) <= visits
        invariant forall i :: start <= i < |visits| ==> visits[i].depth < depth
        invariant forall i :: start <= i < |visits| ==> urls.netloc(visits[i].url) == urls.netloc(pageUrl)
        invariant |visits| - start <= j * perChild
        invariant UrlsAtDepth(visits[start..], depth - 1) == nxt[..j]
        invariant forall k :: 0 <= k < j ==> nxt[k] in store.seenUrls
        invariant old(store.calls) <= store.calls && old(pdfCalls) <= pdfCalls
        invariant old(net.log) <= net.log
        invariant old(store.seenUrls).Keys <= store.seenUrls.Keys
        invariant RowsKept(old(store.images), store.images)
        invariant clock >= old(clock)
      {
        CrawlTarget(pageUrl, nxt, j, depth, start);
      }
      assert nxt[..|nxt|] == nxt;
      MulMonotone(|nxt|, MaxLinksPerPage, perChild);
    }

    /** The loop of step 3 at its `j`-th target: crawl it, after the targets before it. */
    method CrawlTarget(pageUrl: string, nxt: seq<string>, j: nat, depth: nat, ghost start: nat)
      requires store.Valid() && depth > 0 && j < |nxt| && SameSite(urls, pageUrl, nxt[j])
      requires start <= |visits| && UrlsAtDepth(visits[start..], depth - 1) == nxt[..j]
      requires forall k :: 0 <= k < j ==> nxt[k] in store.seenUrls
      requires forall i :: start <= i < |visits| ==> visits[i].depth < depth
      requires forall i :: start <= i < |visits| ==> urls.netloc(visits[i].url) == urls.netloc(pageUrl)
      requires |visits| - start <= j * MaxPages(depth - 1)
      modifies this, store, net
      decreases depth, 1
      ensures store.Valid()
      ensures old(visits) <= visits
      ensures forall i :: start <= i < |visits| ==> visits[i].depth < depth
      ensures forall i :: start <= i < |visits| ==> urls.netloc(visits[i].url) == urls.netloc(pageUrl)
      ensures |visits| - start <= (j + 1) * MaxPages(depth - 1)
      ensures UrlsAtDepth(visits[start..], depth - 1) == nxt[..j + 1]
      ensures forall k :: 0 <= k < j + 1 ==> nxt[k] in store.seenUrls
      ensures old(store.calls) <= store.calls && old(pdfCalls) <= pdfCalls
      ensures old(net.log) <= net.log
      ensures old(store.seenUrls).Keys <= store.seenUrls.Keys
      ensures RowsKept(old(store.images), store.images)
      ensures clock >= old(clock)
    {
      ghost var mid, seen0 := visits, store.seenUrls.Keys;
      CrawlChild(pageUrl, nxt[j], depth);
      MulSucc(j, MaxPages(depth - 1));
      UrlsAtDepthSplit(mid, visits, start, depth - 1);
      Seqs.PrefixStep(nxt, j);
      forall k | 0 <= k < j + 1
        ensures nxt[k] in store.seenUrls
      {
        if k < j {
          assert nxt[k] in seen0;
        }
      }
    }

    /** One recursive `crawl_page(link, depth - 1)` of step 3, seen from the page that links to it. */
    method CrawlChild(pageUrl: string, link: string, depth: nat)
      requires store.Valid() && depth > 0 && SameSite(urls, pageUrl, link)
      modifies this, store, net
      decreases depth, 0
      ensures store.Valid()
      ensures old(visits) <= visits
      ensures forall i :: |old(visits)| <= i < |visits| ==> visits[i].depth < depth
      ensures forall i :: |old(visits)| <= i < |visits| ==> urls.netloc(visits[i].url) == urls.netloc(pageUrl)
      ensures |visits| - |old(visits)| <= MaxPages(depth - 1)
      // `link` itself is fetched first and visited at depth - 1; the pages below it are deeper
      ensures |visits| > |old(visits)| && visits[|old(visits)|] == Visit(link, depth - 1)
      ensures UrlsAtDepth(visits[|old(visits)|..], depth - 1) == [link]
      ensures |net.log| > |old(net.log)| && net.log[|old(net.log)|] == Get(link)
      ensures link in store.seenUrls
      ensures old(store.calls) <= store.calls && old(pdfCalls) <= pdfCalls
      ensures old(net.log) <= net.log
      ensures old(store.seenUrls).Keys <= store.seenUrls.Keys
      ensures RowsKept(old(store.images), store.images)
      ensures clock >= old(clock)
    {
      ghost var mid := visits;
      CrawlPage(link, depth - 1);
      assert |visits| - |mid| <= MaxPages(depth - 1);
      UrlsAtDepthOfCrawl(mid, visits, |mid|, link, depth - 1);
      assert mid[|mid|..] == [];
    }

    /** `main`: crawl every seed at depth 1; nothing when the seeds file is missing. */
    method Run(seedFile: Option<seq<string>>)
      requires store.Valid()
      modifies this, store, net
      ensures store.Valid()
      ensures old(visits) <= visits
      ensures seedFile.None? ==> visits == old(visits)
      ensures seedFile.Some? ==> UrlsAtDepth(visits[|old(visits)|..], 1) == ContentLines(seedFile.value)
      ensures seedFile.Some? ==> forall s :: s in ContentLines(seedFile.value) ==> s in store.seenUrls
      ensures RowsKept(old(store.images), store.images)
    {
      if seedFile.None? {
        return;
      }
      CrawlSeeds(ContentLines(seedFile.value));
    }

    /** The loop of `main` over the parsed seeds: `crawl_page(seed, depth=1)` for each, in order. */
    method CrawlSeeds(seeds: seq<string>)
      requires store.Valid()
      modifies this, store, net
      ensures store.Valid()
      ensures old(visits) <= visits
      ensures UrlsAtDepth(visits[|old(visits)|..], 1) == seeds
      ensures forall k :: 0 <= k < |seeds| ==> seeds[k] in store.seenUrls
      ensures RowsKept(old(store.images), store.images)
    {
      ghost var start := |visits|;
      for i := 0 to |seeds|
        invariant store.Valid()
        invariant old(visits) <= visits && |visits| >= start
        invariant UrlsAtDepth(visits[start..], 1) == seeds[..i]
        invariant forall k :: 0 <= k < i ==> seeds[k] in store.seenUrls
        invariant RowsKept(old(store.images), store.images)
      {
        CrawlSeed(seeds[i], start);
        assert seeds[..i + 1] == seeds[..i] + [seeds[i]];
      }
      assert seeds[..|seeds|] == seeds;
    }

    /** One turn of `main`'s loop: `crawl_page(seed, depth=1)`, seen as one more root visit. */
    method CrawlSeed(seed: string, ghost start: nat)
      requires store.Valid() && start <= |visits|
      modifies this, store, net
      ensures store.Valid()
      ensures old(visits) <= visits
      ensures UrlsAtDepth(visits[start..], 1) == UrlsAtDepth(old(visits)[start..], 1) + [seed]
      ensures seed in store.seenUrls && old(store.seenUrls).Keys <= store.seenUrls.Keys
      ensures RowsKept(old(store.images), store.images)
    {
      ghost var mid := visits;
      CrawlPage(seed, 1);
      UrlsAtDepthOfCrawl(mid, visits, start, seed, 1);
    }
  }
}
