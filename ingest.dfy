/** The ingestion store of sandbox_WIP/Gazaimage/utils_2.py: the `seen_urls`, `resources`
    and `images` tables, the download directory, and the two save paths (from bytes and
    from a URL) that every caller goes through. */
module Ingest {
  import opened Basics
  import opened Text
  import opened Web
  import opened Names

  const DefaultMinImageBytes: int := 80000
  const DefaultDownloadDir: string := "/home/comrade/Pictures/scraper"

  /** Substrings of the lower-cased URL that let `save_image_url` accept a non-image content type. */
  const ImageUrlMarkers: seq<string> := [".jpg", ".jpeg", ".png", ".tif", ".tiff", ".webp"]

  /** The provider `extract_images_from_pdf` passes for every extracted image. */
  const PdfProvider: string := "pdf"

  /** The environment of the module: SHA-256 as a hex digest, `urlparse(u).path`,
      `mimetypes.guess_extension` ("" for None), `DOWNLOAD_DIR` and `MIN_IMAGE_BYTES`. */
  datatype Config = Config(
    hash: Bytes -> string,
    urlPath: string -> string,
    guessExtension: string -> string,
    downloadDir: string,
    minImageBytes: int)

  /** A `seen_urls` row (the key is the URL). */
  datatype SeenRow = SeenRow(lastSeen: int, lastStatus: int, error: Option<string>)

  /** A `resources` row (the key is the URL). */
  datatype ResourceRow = ResourceRow(
    etag: Option<string>, lastModified: Option<string>, contentLength: Option<int>, lastChecked: int)

  /** An `images` row (the key is the content hash). */
  datatype ImageRow = ImageRow(
    filename: string, imageUrl: string, sourceUrl: string, provider: string, downloaded: bool, createdAt: int)

  /** What `get_resource_head` returns: the stored (etag, last_modified, content_length). */
  datatype StoredHead = StoredHead(etag: Option<string>, lastModified: Option<string>, contentLength: Option<int>)

  /** One file `pdfimages` wrote: its base name and its bytes. */
  datatype Blob = Blob(name: string, content: Bytes)

  /** One `save_image_url(url, referrer=...)` call. */
  datatype Save = Save(url: string, referrer: string)

  /** The calls that save each of `urls`, in order, all with the same referrer. */
  function SavesOf(urls: seq<string>, referrer: string): (r: seq<Save>)
    ensures |r| == |urls| && forall k :: 0 <= k < |urls| ==> r[k] == Save(urls[k], referrer)
  {
    seq(|urls|, k requires 0 <= k < |urls| => Save(urls[k], referrer))
  }

  lemma SavesOfAppend(urls: seq<string>, u: string, referrer: string)
    ensures SavesOf(urls + [u], referrer) == SavesOf(urls, referrer) + [Save(u, referrer)]
  {
    assert SavesOf(urls + [u], referrer)[|urls|] == Save(u, referrer);
  }

  // ---------------------------------------------------------------------
  // save_image_from_bytes

  /** The size floor: empty content, or fewer than MIN_IMAGE_BYTES bytes. */
  predicate TooSmall(cfg: Config, content: Bytes)
  {
    |content| == 0 || |content| < cfg.minImageBytes
  }

  /** `suggested_name or os.path.basename(urlparse(image_url).path) or "unnamed"`. */
  function BaseName(cfg: Config, imageUrl: string, suggested: Option<string>): (r: string)
    ensures r != ""
  {
    if Truthy(suggested) then suggested.value
    else
      var b := Basename(cfg.urlPath(imageUrl));
      if b != "" then b else "unnamed"
  }

  /** `provider or provider_from(referrer, image_url)`. */
  function ChosenProvider(provider: Option<string>, referrer: string, imageUrl: string): string
  {
    if Truthy(provider) then provider.value else ProviderFrom(referrer, imageUrl)
  }

  /** Every stored image is marked downloaded, its filename starts with the first 8 characters of
      its hash and '_', and the download directory holds a file under that name. */
  predicate ImagesIndexed(cfg: Config, images: map<string, ImageRow>, files: map<string, Bytes>)
  {
    forall h :: h in images ==>
      && images[h].downloaded
      && HashPrefix(h) + "_" <= images[h].filename
      && JoinPath(cfg.downloadDir, images[h].filename) in files
  }

  /** No stored image row is removed or changed: the `images` table only grows. */
  predicate RowsKept(before: map<string, ImageRow>, after: map<string, ImageRow>)
  {
    forall h :: h in before ==> h in after && after[h] == before[h]
  }

  lemma RowsKeptTransitive(a: map<string, ImageRow>, b: map<string, ImageRow>, c: map<string, ImageRow>)
    requires RowsKept(a, b) && RowsKept(b, c)
    ensures RowsKept(a, c)
  {
  }

  /** Every row added between `before` and `after` came out of the PDF at `referrer`. */
  predicate PdfRows(before: map<string, ImageRow>, after: map<string, ImageRow>, referrer: string)
  {
    forall h :: h in after && h !in before ==>
      after[h].provider == PdfProvider && after[h].imageUrl == referrer + "#pdf" && after[h].sourceUrl == referrer
  }

  lemma PdfRowsTransitive(a: map<string, ImageRow>, b: map<string, ImageRow>, c: map<string, ImageRow>, referrer: string)
    requires RowsKept(b, c) && PdfRows(a, b, referrer) && PdfRows(b, c, referrer)
    ensures PdfRows(a, c, referrer)
  {
  }

  /** The hash of every extracted image above the size floor is stored. */
  predicate BlobsStored(cfg: Config, blobs: seq<Blob>, images: map<string, ImageRow>)
  {
    forall j :: 0 <= j < |blobs| && !TooSmall(cfg, blobs[j].content) ==> cfg.hash(blobs[j].content) in images
  }

  lemma BlobsStoredStep(cfg: Config, blobs: seq<Blob>, i: nat, before: map<string, ImageRow>, after: map<string, ImageRow>)
    requires i < |blobs| && BlobsStored(cfg, blobs[..i], before) && RowsKept(before, after)
    requires !TooSmall(cfg, blobs[i].content) ==> cfg.hash(blobs[i].content) in after
    ensures BlobsStored(cfg, blobs[..i + 1], after)
  {
    var s := blobs[..i + 1];
    forall j | 0 <= j < |s| && !TooSmall(cfg, s[j].content)
      ensures cfg.hash(s[j].content) in after
    {
      if j < i {
        assert s[j] == blobs[..i][j];
      }
    }
  }

  /** The two tables `save_image_from_bytes` changes, and the path it returns (None for Python's None). */
  datatype Saved = Saved(images: map<string, ImageRow>, files: map<string, Bytes>, path: Option<string>)

  /** `save_image_from_bytes` on the `images` table and the download directory `files`. */
  function SaveBytes(cfg: Config, images: map<string, ImageRow>, files: map<string, Bytes>,
                     content: Bytes, imageUrl: string, referrer: string,
                     suggested: Option<string>, provider: Option<string>, now: int): (r: Saved)
    // rejected below the size floor or when the hash is already stored; nothing changes then
    ensures r.path.None? <==> TooSmall(cfg, content) || cfg.hash(content) in images
    ensures r.path.None? ==> r.images == images && r.files == files
    // otherwise exactly one new row, keyed by the hash, and no existing row changes
    ensures r.path.Some? ==>
      var h := cfg.hash(content);
      && r.images.Keys == images.Keys + {h}
      && (forall k :: k in images ==> r.images[k] == images[k])
      && r.images[h] == ImageRow(ImageFileName(h, BaseName(cfg, imageUrl, suggested)), imageUrl, referrer,
                                 ChosenProvider(provider, referrer, imageUrl), true, now)
      && r.path == Some(JoinPath(cfg.downloadDir, r.images[h].filename))
      && r.path.value != ""
      && r.files.Keys == files.Keys + {r.path.value}
      && r.files[r.path.value] == content
      && (forall p :: p in files && p != r.path.value ==> r.files[p] == files[p])
  {
    if TooSmall(cfg, content) then Saved(images, files, None)
    else
      var h := cfg.hash(content);
      if h in images then Saved(images, files, None)
      else
        var fname := ImageFileName(h, BaseName(cfg, imageUrl, suggested));
        var path := JoinPath(cfg.downloadDir, fname);
        var row := ImageRow(fname, imageUrl, referrer, ChosenProvider(provider, referrer, imageUrl), true, now);
        Saved(images[h := row], files[path := content], Some(path))
  }

  /** Saving keeps the index invariant. */
  lemma SaveBytesKeepsIndex(cfg: Config, images: map<string, ImageRow>, files: map<string, Bytes>,
                            content: Bytes, imageUrl: string, referrer: string,
                            suggested: Option<string>, provider: Option<string>, now: int)
    requires ImagesIndexed(cfg, images, files)
    ensures var r := SaveBytes(cfg, images, files, content, imageUrl, referrer, suggested, provider, now);
            ImagesIndexed(cfg, r.images, r.files)
  {
    var r := SaveBytes(cfg, images, files, content, imageUrl, referrer, suggested, provider, now);
    if r.path.Some? {
      var h := cfg.hash(content);
      ImageFileNameShape(h, BaseName(cfg, imageUrl, suggested));
    }
  }

  /** Exactly once per content: saving the same bytes a second time, under any URL, referrer, name
      or provider, returns None and changes nothing, so there is one row and one file write. */
  lemma SaveBytesTwiceIsOnce(cfg: Config, images: map<string, ImageRow>, files: map<string, Bytes>,
                             content: Bytes, url1: string, ref1: string, name1: Option<string>, prov1: Option<string>, now1: int,
                             url2: string, ref2: string, name2: Option<string>, prov2: Option<string>, now2: int)
    ensures var r1 := SaveBytes(cfg, images, files, content, url1, ref1, name1, prov1, now1);
            var r2 := SaveBytes(cfg, r1.images, r1.files, content, url2, ref2, name2, prov2, now2);
            && r2.path == None
            && r2.images == r1.images && r2.files == r1.files
            && |r2.images| <= |images| + 1
            && (!TooSmall(cfg, content) ==> cfg.hash(content) in r2.images)
  {
  }

  /** What one save in the PDF loop does to the table: the old rows stay, the table grows by one row
      exactly when a path is returned, that row carries the given provenance, and afterwards the
      hash of any content above the floor is stored. */
  lemma SaveBytesGrowsByOne(cfg: Config, images: map<string, ImageRow>, files: map<string, Bytes>,
                            content: Bytes, imageUrl: string, referrer: string,
                            suggested: Option<string>, provider: string, now: int)
    requires provider != ""
    ensures var r := SaveBytes(cfg, images, files, content, imageUrl, referrer, suggested, Some(provider), now);
      && RowsKept(images, r.images)
      && |r.images| == |images| + (if r.path.Some? then 1 else 0)
      && (forall h :: h in r.images && h !in images ==>
            r.images[h].provider == provider && r.images[h].imageUrl == imageUrl && r.images[h].sourceUrl == referrer)
      && (!TooSmall(cfg, content) ==> cfg.hash(content) in r.images)
  {
  }

  /** File names are not unique per content: two contents whose hashes share their first 8
      characters and that get the same base name are written to the same path, so the second
      save overwrites the file the first row points to (`open(path, "wb")`), and no file is added. */
  lemma SaveBytesSharedName(cfg: Config, images: map<string, ImageRow>, files: map<string, Bytes>,
                            c1: Bytes, url1: string, ref1: string, name1: Option<string>, prov1: Option<string>, now1: int,
                            c2: Bytes, url2: string, ref2: string, name2: Option<string>, prov2: Option<string>, now2: int)
    requires !TooSmall(cfg, c1) && !TooSmall(cfg, c2) && c1 != c2
    requires cfg.hash(c1) !in images && cfg.hash(c2) !in images && cfg.hash(c1) != cfg.hash(c2)
    requires HashPrefix(cfg.hash(c1)) == HashPrefix(cfg.hash(c2))
    requires BaseName(cfg, url1, name1) == BaseName(cfg, url2, name2)
    ensures var r1 := SaveBytes(cfg, images, files, c1, url1, ref1, name1, prov1, now1);
            var r2 := SaveBytes(cfg, r1.images, r1.files, c2, url2, ref2, name2, prov2, now2);
            && r1.path.Some? && r2.path == r1.path
            && r2.images[cfg.hash(c1)] == r1.images[cfg.hash(c1)]
            && r1.files[r1.path.value] == c1 && r2.files[r1.path.value] == c2
            && r2.files.Keys == r1.files.Keys
  {
  }

  // ---------------------------------------------------------------------
  // extract_images_from_pdf

  /** The save of one extracted file: provider "pdf", the referrer plus "#pdf" as its URL, and the
      file's base name as the suggested name. */
  function PdfSave(cfg: Config, images: map<string, ImageRow>, files: map<string, Bytes>,
                   blob: Blob, referrer: string, now: int): Saved
  {
    SaveBytes(cfg, images, files, blob.content, referrer + "#pdf", referrer, Some(blob.name), Some(PdfProvider), now)
  }

  /** The tables after the loop over the extracted files, and the count of files saved. */
  datatype Extracted = Extracted(images: map<string, ImageRow>, files: map<string, Bytes>, saved: nat)

  /** The loop of `extract_images_from_pdf` over `blobs`, in order. */
  function ExtractAll(cfg: Config, images: map<string, ImageRow>, files: map<string, Bytes>,
                      blobs: seq<Blob>, referrer: string, now: int): Extracted
  {
    if blobs == [] then Extracted(images, files, 0)
    else
      var p := ExtractAll(cfg, images, files, blobs[..|blobs| - 1], referrer, now);
      var r := PdfSave(cfg, p.images, p.files, blobs[|blobs| - 1], referrer, now);
      Extracted(r.images, r.files, p.saved + (if r.path.Some? then 1 else 0))
  }

  /** The loop over the first `i + 1` files is the loop over the first `i`, then one more save. */
  lemma ExtractAllStep(cfg: Config, images: map<string, ImageRow>, files: map<string, Bytes>,
                       blobs: seq<Blob>, i: nat, referrer: string, now: int)
    requires i < |blobs|
    ensures var p := ExtractAll(cfg, images, files, blobs[..i], referrer, now);
            var r := PdfSave(cfg, p.images, p.files, blobs[i], referrer, now);
            ExtractAll(cfg, images, files, blobs[..i + 1], referrer, now)
              == Extracted(r.images, r.files, p.saved + (if r.path.Some? then 1 else 0))
  {
    assert blobs[..i + 1][..i] == blobs[..i];
  }

  /** `extract_images_from_pdf`: nothing when `pdfimages` is missing, else the loop. */
  function Extract(cfg: Config, images: map<string, ImageRow>, files: map<string, Bytes>,
                   extracted: Option<seq<Blob>>, referrer: string, now: int): Extracted
  {
    if extracted.None? then Extracted(images, files, 0) else ExtractAll(cfg, images, files, extracted.value, referrer, now)
  }

  /** What the loop keeps from the start tables `images0` and `files0` over the files `blobs`
      walked so far: no row or file disappears, the count is the number of new rows and at most
      one per file, every new row is a "pdf" row of the referrer, and the hash of every file
      above the size floor is stored. */
  predicate ExtractKeeps(cfg: Config, images0: map<string, ImageRow>, files0: map<string, Bytes>,
                         blobs: seq<Blob>, referrer: string, r: Extracted)
  {
    && RowsKept(images0, r.images)
    && files0.Keys <= r.files.Keys
    && |r.images| == |images0| + r.saved && r.saved <= |blobs|
    && PdfRows(images0, r.images, referrer)
    && BlobsStored(cfg, blobs, r.images)
  }

  /** One more file keeps `ExtractKeeps`. */
  lemma PdfSaveKeeps(cfg: Config, images0: map<string, ImageRow>, files0: map<string, Bytes>,
                     blobs: seq<Blob>, referrer: string, now: int, p: Extracted)
    requires blobs != [] && ExtractKeeps(cfg, images0, files0, blobs[..|blobs| - 1], referrer, p)
    ensures var r := PdfSave(cfg, p.images, p.files, blobs[|blobs| - 1], referrer, now);
            ExtractKeeps(cfg, images0, files0, blobs, referrer,
                         Extracted(r.images, r.files, p.saved + (if r.path.Some? then 1 else 0)))
  {
    var last := blobs[|blobs| - 1];
    var r := PdfSave(cfg, p.images, p.files, last, referrer, now);
    SaveBytesGrowsByOne(cfg, p.images, p.files, last.content, referrer + "#pdf", referrer, Some(last.name), PdfProvider, now);
    BlobsStoredStep(cfg, blobs, |blobs| - 1, p.images, r.images);
    assert blobs[..|blobs|] == blobs;
    RowsKeptTransitive(images0, p.images, r.images);
    PdfRowsTransitive(images0, p.images, r.images, referrer);
    assert files0.Keys <= r.files.Keys;
  }

  /** Hence, over all the files: the count is the number of new rows, at most one per file; no old
      row or file disappears; every new row is a "pdf" row of the referrer; and the hash of every
      file above the size floor is stored afterwards. */
  lemma {:induction false} ExtractAllSpec(cfg: Config, images: map<string, ImageRow>, files: map<string, Bytes>,
                                          blobs: seq<Blob>, referrer: string, now: int)
    ensures ExtractKeeps(cfg, images, files, blobs, referrer, ExtractAll(cfg, images, files, blobs, referrer, now))
  {
    if blobs != [] {
      var init := blobs[..|blobs| - 1];
      ExtractAllSpec(cfg, images, files, init, referrer, now);
      PdfSaveKeeps(cfg, images, files, blobs, referrer, now, ExtractAll(cfg, images, files, init, referrer, now));
    }
  }

  /** Every new row is keyed by the hash of an extracted file above the size floor and names
      that file: its file name is the hash prefix and the file's base name. */
  lemma {:induction false} ExtractAllSource(cfg: Config, images: map<string, ImageRow>, files: map<string, Bytes>,
                                            blobs: seq<Blob>, referrer: string, now: int, h: string)
    returns (j: nat)
    requires h in ExtractAll(cfg, images, files, blobs, referrer, now).images && h !in images
    ensures j < |blobs| && cfg.hash(blobs[j].content) == h && !TooSmall(cfg, blobs[j].content)
    ensures ExtractAll(cfg, images, files, blobs, referrer, now).images[h] ==
              ImageRow(ImageFileName(h, BaseName(cfg, referrer + "#pdf", Some(blobs[j].name))),
                       referrer + "#pdf", referrer, PdfProvider, true, now)
  {
    var init, last := blobs[..|blobs| - 1], blobs[|blobs| - 1];
    var p := ExtractAll(cfg, images, files, init, referrer, now);
    if h in p.images {
      j := ExtractAllSource(cfg, images, files, init, referrer, now, h);
      assert blobs[j] == init[j];
    } else {
      j := |blobs| - 1;
    }
  }

  /** A file that one PDF save adds or rewrites is the file of the row it adds. */
  lemma PdfSaveFile(cfg: Config, images: map<string, ImageRow>, files: map<string, Bytes>,
                    blob: Blob, referrer: string, now: int, path: string)
    ensures var r := PdfSave(cfg, images, files, blob, referrer, now);
            var h := cfg.hash(blob.content);
            && RowsKept(images, r.images)
            && (path in r.files && (path !in files || r.files[path] != files[path]) ==>
                  r.path == Some(path) && h in r.images && h !in images
                  && path == JoinPath(cfg.downloadDir, r.images[h].filename))
            && (r.path != Some(path) ==> (path in r.files <==> path in files) && (path in files ==> r.files[path] == files[path]))
  {
  }

  /** Every file that is added or rewritten is the file of a new row. */
  lemma {:induction false} ExtractAllFileSource(cfg: Config, images: map<string, ImageRow>, files: map<string, Bytes>,
                                                blobs: seq<Blob>, referrer: string, now: int, path: string)
    returns (h: string)
    requires var r := ExtractAll(cfg, images, files, blobs, referrer, now);
             path in r.files && (path !in files || r.files[path] != files[path])
    ensures var r := ExtractAll(cfg, images, files, blobs, referrer, now);
            h in r.images && h !in images && path == JoinPath(cfg.downloadDir, r.images[h].filename)
  {
    var init, last := blobs[..|blobs| - 1], blobs[|blobs| - 1];
    var p := ExtractAll(cfg, images, files, init, referrer, now);
    var s := PdfSave(cfg, p.images, p.files, last, referrer, now);
    assert ExtractAll(cfg, images, files, blobs, referrer, now).images == s.images;
    assert ExtractAll(cfg, images, files, blobs, referrer, now).files == s.files;
    PdfSaveFile(cfg, p.images, p.files, last, referrer, now, path);
    ExtractAllSpec(cfg, images, files, init, referrer, now);
    if s.path == Some(path) {
      h := cfg.hash(last.content);
    } else {
      h := ExtractAllFileSource(cfg, images, files, init, referrer, now, path);
    }
  }

  // ---------------------------------------------------------------------
  // save_image_url: the decision taken on the HEAD reply

  /** The value of the Content-Type header as the code reads it: `headers.get("Content-Type", "") or ""`. */
  function ContentType(h: Headers): string
  {
    OrElse(h.contentType, "")
  }

  /** The content type mentions "image", or the URL carries one of the image extensions. */
  predicate LooksLikeImage(ct: string, url: string)
  {
    Contains(Lower(ct), "image") || exists k :: 0 <= k < |ImageUrlMarkers| && Contains(Lower(url), ImageUrlMarkers[k])
  }

  datatype HeadDecision =
    | Stop        // HEAD failed, status is not 200, or not an image: nothing is recorded
    | Unchanged   // validators match the stored ones: no GET, only the resources row is refreshed
    | Download    // GET the body

  /** The stored validators for `url`, or (None, None, None). */
  function StoredHeadOf(resources: map<string, ResourceRow>, url: string): (r: StoredHead)
    ensures url !in resources ==> r == StoredHead(None, None, None)
    ensures url in resources ==> r.etag == resources[url].etag && r.lastModified == resources[url].lastModified
                                 && r.contentLength == resources[url].contentLength
  {
    if url in resources then
      StoredHead(resources[url].etag, resources[url].lastModified, resources[url].contentLength)
    else StoredHead(None, None, None)
  }

  function DecideHead(head: Reply, url: string, stored: StoredHead): HeadDecision
  {
    if head.Raised? || head.status != 200 then Stop
    else if !LooksLikeImage(ContentType(head.headers), url) then Stop
    else if Truthy(head.headers.etag) && Truthy(head.headers.lastModified)
            && stored.etag == head.headers.etag && stored.lastModified == head.headers.lastModified
    then Unchanged
    else Download
  }

  /** No GET happens exactly when the HEAD failed, was not a 200 image, or both validators are
      present and equal to the stored ones. */
  lemma DecideHeadSpec(head: Reply, url: string, stored: StoredHead)
    ensures DecideHead(head, url, stored) == Stop <==>
              head.Raised? || head.status != 200 || !LooksLikeImage(ContentType(head.headers), url)
    ensures DecideHead(head, url, stored) == Unchanged <==>
              && head.Answered? && head.status == 200 && LooksLikeImage(ContentType(head.headers), url)
              && Truthy(head.headers.etag) && Truthy(head.headers.lastModified)
              && stored.etag == head.headers.etag && stored.lastModified == head.headers.lastModified
    ensures DecideHead(head, url, stored) == Unchanged ==> stored.etag.Some? && stored.lastModified.Some?
  {
  }

  /** `int(size) if size else None`, where `int` may raise. */
  datatype LengthField = NoLength | Length(n: int) | Unparsable

  function ParseLength(size: Option<string>): LengthField
  {
    if !Truthy(size) then NoLength
    else match ParseInt(size.value)
      case Some(n) => Length(n)
      case None => Unparsable
  }

  /** A `Content-Length` header holding the decimal text of a number is read as that number. */
  lemma ParseLengthReadsDecimal(n: int)
    ensures ParseLength(Some(IntToDecimal(n))) == Length(n)
  {
    DecimalRoundTrip(n);
  }

  /** What SQLite's INTEGER column can hold: NULL or a signed 64-bit integer. */
  predicate FitsInteger(length: Option<int>)
  {
    length.None? || -0x8000_0000_0000_0000 <= length.value < 0x8000_0000_0000_0000
  }

  /** Whether `record_resource_head(img_url, etag, last_mod, int(size) if size else None)` raises:
      `int` fails, or the length does not fit the column. */
  predicate RecordFails(h: Headers)
  {
    var l := ParseLength(h.contentLength);
    l.Unparsable? || (l.Length? && !FitsInteger(Some(l.n)))
  }

  /** That call as `save_image_url` makes it: when it raises, the exception is caught by
      `save_image_url` and nothing is recorded. */
  function RecordHeaders(resources: map<string, ResourceRow>, url: string, h: Headers, now: int): map<string, ResourceRow>
  {
    if RecordFails(h) then resources
    else match ParseLength(h.contentLength)
      case Length(n) => resources[url := ResourceRow(h.etag, h.lastModified, Some(n), now)]
      case _ => resources[url := ResourceRow(h.etag, h.lastModified, None, now)]
  }

  /** Recording a HEAD only ever touches the row of its own URL; when the call does not raise,
      `get_resource_head` afterwards returns the recorded validators, and otherwise nothing changes. */
  lemma RecordHeadersSpec(resources: map<string, ResourceRow>, url: string, h: Headers, now: int)
    ensures var r := RecordHeaders(resources, url, h, now);
      && (forall u :: u != url ==> (u in r <==> u in resources) && (u in r ==> r[u] == resources[u]))
      && (RecordFails(h) ==> r == resources)
      && (!RecordFails(h) ==>
            StoredHeadOf(r, url) == StoredHead(h.etag, h.lastModified,
              if ParseLength(h.contentLength).Length? then Some(ParseLength(h.contentLength).n) else None))
  {
  }

  /** A `Content-Length` of `n`, written in decimal, is recorded exactly when `n` fits a signed
      64-bit integer: `Content-Length: 99999999999999999999` leaves the resources table as it was. */
  lemma RecordHeadersLength(resources: map<string, ResourceRow>, url: string, h: Headers, now: int, n: int)
    requires h.contentLength == Some(IntToDecimal(n))
    ensures FitsInteger(Some(n)) ==>
              StoredHeadOf(RecordHeaders(resources, url, h, now), url) == StoredHead(h.etag, h.lastModified, Some(n))
    ensures !FitsInteger(Some(n)) ==> RecordHeaders(resources, url, h, now) == resources
  {
    ParseLengthReadsDecimal(n);
  }

  /** The name `save_image_url` suggests: the URL path's base name, else "download" plus the
      extension of the content type. */
  function SuggestedName(cfg: Config, url: string, ct: string): (r: string)
    ensures r != ""
  {
    var b := Basename(cfg.urlPath(url));
    if b != "" then b else "download" + DetectExtension(ct, cfg.guessExtension)
  }

  // ---------------------------------------------------------------------
  // The store

  class Store {
    const cfg: Config
    var seenUrls: map<string, SeenRow>
    var resources: map<string, ResourceRow>
    var images: map<string, ImageRow>
    /** The download directory: path -> bytes. */
    var files: map<string, Bytes>
    /** Every `save_image_url` call so far, in call order. */
    ghost var calls: seq<Save>

    ghost predicate Valid()
      reads this
    {
      ImagesIndexed(cfg, images, files)
    }

    /** The module's import: connect and CREATE TABLE IF NOT EXISTS, on a fresh database. */
    constructor Open(cfg: Config)
      ensures Valid() && this.cfg == cfg
      ensures seenUrls == map[] && resources == map[] && images == map[] && files == map[] && calls == []
    {
      this.cfg := cfg;
      seenUrls, resources, images, files := map[], map[], map[], map[];
      calls := [];
    }

    method IsNewUrl(url: string) returns (b: bool)
      ensures b <==> url !in seenUrls
    {
      b := url !in seenUrls;
    }

    /** INSERT OR REPLACE: one row per URL, the latest visit wins. */
    method MarkUrlSeen(url: string, now: int, status: int, error: Option<string>)
      requires Valid()
      modifies this
      ensures Valid()
      ensures seenUrls == old(seenUrls)[url := SeenRow(now, status, error)]
      ensures resources == old(resources) && images == old(images) && files == old(files) && calls == old(calls)
    {
      seenUrls := seenUrls[url := SeenRow(now, status, error)];
    }

    method ImageAlreadySaved(h: string) returns (b: bool)
      ensures b <==> h in images
    {
      b := h in images;
    }

    /** INSERT OR REPLACE into `resources`. A length the INTEGER column cannot hold makes
        `sqlite3` raise OverflowError before anything is written; `stored` is false then. */
    method RecordResourceHead(url: string, etag: Option<string>, lastModified: Option<string>,
                              length: Option<int>, now: int)
      returns (stored: bool)
      requires Valid()
      modifies this
      ensures Valid()
      ensures stored <==> FitsInteger(length)
      ensures stored ==> resources == old(resources)[url := ResourceRow(etag, lastModified, length, now)]
      ensures !stored ==> resources == old(resources)
      ensures seenUrls == old(seenUrls) && images == old(images) && files == old(files) && calls == old(calls)
    {
      if !FitsInteger(length) {
        return false;
      }
      resources := resources[url := ResourceRow(etag, lastModified, length, now)];
      return true;
    }

    method GetResourceHead(url: string) returns (head: StoredHead)
      ensures head == StoredHeadOf(resources, url)
      ensures url !in resources ==> head == StoredHead(None, None, None)
      ensures url in resources ==> head.etag == resources[url].etag && head.lastModified == resources[url].lastModified
                                   && head.contentLength == resources[url].contentLength
    {
      if url in resources {
        var row := resources[url];
        head := StoredHead(row.etag, row.lastModified, row.contentLength);
      } else {
        head := StoredHead(None, None, None);
      }
    }

    method SaveImageFromBytes(content: Bytes, imageUrl: string, referrer: string,
                              suggested: Option<string>, provider: Option<string>, now: int)
      returns (path: Option<string>)
      requires Valid()
      modifies this
      ensures Valid()
      ensures var r := SaveBytes(cfg, old(images), old(files), content, imageUrl, referrer, suggested, provider, now);
              images == r.images && files == r.files && path == r.path
      ensures seenUrls == old(seenUrls) && resources == old(resources) && calls == old(calls)
    {
      ghost var images0, files0 := images, files;
      if |content| == 0 || |content| < cfg.minImageBytes {
        return None;
      }
      var h := cfg.hash(content);
      var already := ImageAlreadySaved(h);
      if already {
        return None;
      }
      var base := BaseName(cfg, imageUrl, suggested);
      var fname := ImageFileName(h, base);
      var p := JoinPath(cfg.downloadDir, fname);
      files := files[p := content];
      var prov := ChosenProvider(provider, referrer, imageUrl);
      images := images[h := ImageRow(fname, imageUrl, referrer, prov, true, now)];
      path := Some(p);
      SaveBytesKeepsIndex(cfg, images0, files0, content, imageUrl, referrer, suggested, provider, now);
    }

    /** HEAD, then either stop, refresh the validators without a GET, or GET and save. */
    method SaveImageUrl(net: Network, url: string, referrer: string, now: int)
      requires Valid()
      modifies this, net
      ensures Valid()
      ensures calls == old(calls) + [Save(url, referrer)]
      ensures seenUrls == old(seenUrls)
      ensures RowsKept(old(images), images)
      ensures old(net.log) <= net.log
      ensures |net.log| > |old(net.log)| && net.log[|old(net.log)|] == Head(url)
      ensures forall i :: |old(net.log)| <= i < |net.log| ==> net.log[i].url == url
      ensures var head := net.server(Head(url), |old(net.log)|);
              var d := DecideHead(head, url, StoredHeadOf(old(resources), url));
              && (d != Download ==> net.log == old(net.log) + [Head(url)] && images == old(images) && files == old(files))
              && (d == Stop ==> resources == old(resources))
              && (d == Unchanged ==> resources == RecordHeaders(old(resources), url, head.headers, now))
              && (d == Download ==>
                    var get := net.server(Get(url), |old(net.log)| + 1);
                    && net.log == old(net.log) + [Head(url), Get(url)]
                    && (get.Raised? || get.status != 200 ==>
                          images == old(images) && files == old(files) && resources == old(resources))
                    && (get.Answered? && get.status == 200 ==>
                          var r := SaveBytes(cfg, old(images), old(files), get.content, url, referrer,
                                             Some(SuggestedName(cfg, url, ContentType(head.headers))), None, now);
                          && images == r.images && files == r.files
                          && resources == RecordHeaders(old(resources), url, head.headers, now)))
    {
      calls := calls + [Save(url, referrer)];
      var head := net.Send(Head(url));
      var stored := StoredHeadOf(resources, url);
      ghost var d := DecideHead(head, url, stored);
      if head.Raised? || head.status != 200 {
        return;
      }
      var ct := ContentType(head.headers);
      if !LooksLikeImage(ct, url) {
        return;
      }
      var prev := GetResourceHead(url);
      assert prev == stored;
      var etag, lastModified := head.headers.etag, head.headers.lastModified;
      if Truthy(etag) && Truthy(lastModified) && prev.etag == etag && prev.lastModified == lastModified {
        RecordHead(url, head.headers, now);
        return;
      }
      assert d == Download;
      FetchAndSave(net, url, referrer, head.headers, now);
    }

    /** `record_resource_head(url, etag, last_mod, int(size) if size else None)` as `save_image_url`
        calls it on the HEAD headers; when `int` raises, the call ends and nothing is recorded. */
    method RecordHead(url: string, h: Headers, now: int)
      requires Valid()
      modifies this
      ensures Valid()
      ensures resources == RecordHeaders(old(resources), url, h, now)
      ensures seenUrls == old(seenUrls) && images == old(images) && files == old(files) && calls == old(calls)
    {
      var length := ParseLength(h.contentLength);
      if length.Unparsable? {
        return;
      }
      var _ := RecordResourceHead(url, h.etag, h.lastModified, if length.Length? then Some(length.n) else None, now);
    }

    /** The GET branch of `save_image_url`: fetch the body; on a 200 save it under the suggested
        name, then record the HEAD validators. */
    method FetchAndSave(net: Network, url: string, referrer: string, h: Headers, now: int)
      requires Valid()
      modifies this, net
      ensures Valid()
      ensures seenUrls == old(seenUrls) && calls == old(calls)
      ensures RowsKept(old(images), images)
      ensures net.log == old(net.log) + [Get(url)]
      ensures var get := net.server(Get(url), |old(net.log)|);
              && (get.Raised? || get.status != 200 ==>
                    images == old(images) && files == old(files) && resources == old(resources))
              && (get.Answered? && get.status == 200 ==>
                    var r := SaveBytes(cfg, old(images), old(files), get.content, url, referrer,
                                       Some(SuggestedName(cfg, url, ContentType(h))), None, now);
                    && images == r.images && files == r.files
                    && resources == RecordHeaders(old(resources), url, h, now))
    {
      var get := net.Send(Get(url));
      if get.Raised? || get.status != 200 {
        return;
      }
      var suggested := SuggestedName(cfg, url, ContentType(h));
      var _ := SaveImageFromBytes(get.content, url, referrer, Some(suggested), None, now);
      RecordHead(url, h, now);
    }

    /** Saves every extracted image that is large enough and not yet stored, with provider "pdf";
        returns how many were saved. `tool` stands for running `pdfimages` on the bytes: None when
        the program is not installed. */
    method ExtractImagesFromPdf(pdf: Bytes, referrer: string, tool: Bytes -> Option<seq<Blob>>, now: int)
      returns (saved: nat)
      requires Valid()
      modifies this
      ensures Valid()
      ensures seenUrls == old(seenUrls) && resources == old(resources) && calls == old(calls)
      ensures var r := Extract(cfg, old(images), old(files), tool(pdf), referrer, now);
              images == r.images && files == r.files && saved == r.saved
    {
      saved := 0;
      var extracted := tool(pdf);
      if extracted.None? {
        return;
      }
      var blobs := extracted.value;
      for i := 0 to |blobs|
        invariant Valid()
        invariant seenUrls == old(seenUrls) && resources == old(resources) && calls == old(calls)
        invariant Extracted(images, files, saved) == ExtractAll(cfg, old(images), old(files), blobs[..i], referrer, now)
      {
        ExtractAllStep(cfg, old(images), old(files), blobs, i, referrer, now);
        var counted := SavePdfImage(blobs[i], referrer, now);
        if counted {
          saved := saved + 1;
        }
      }
      assert blobs[..|blobs|] == blobs;
    }

    /** One pass of the loop of `extract_images_from_pdf`: skip an image whose hash is already
        stored, otherwise save it with provider "pdf" and the referrer plus "#pdf" as its URL;
        `counted` says whether the count goes up. */
    method SavePdfImage(blob: Blob, referrer: string, now: int) returns (counted: bool)
      requires Valid()
      modifies this
      ensures Valid()
      ensures seenUrls == old(seenUrls) && resources == old(resources) && calls == old(calls)
      ensures var r := PdfSave(cfg, old(images), old(files), blob, referrer, now);
              images == r.images && files == r.files && counted == r.path.Some?
    {
      var content := blob.content;
      var prior := ImageAlreadySaved(cfg.hash(content));
      if prior {
        return false;
      }
      var res := SaveImageFromBytes(content, referrer + "#pdf", referrer, Some(blob.name), Some(PdfProvider), now);
      counted := res.Some? && res.value != "";
    }
  }
}
