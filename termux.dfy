/** The X/Twitter scraper of sandbox_WIP/Gazaimage/social_scrape_termux.py: read handles from
    `feeds_x.txt`, walk each user's latest tweets, and hand photo URLs to `save_image_url`
    under per-user caps on tweets examined and images saved. */
module Termux {
  import opened Basics
  import opened Text
  import opened Lines
  import opened Web
  import opened Ingest
  import Seqs

  /** The values of GAZA_MAX_TWEETS and GAZA_MAX_IMAGES when they are not set. */
  const DefaultMaxTweets: int := 40
  const DefaultMaxImages: int := 15

  /** `int(os.environ.get(name, default))`: None where `int` raises. */
  function EnvLimit(value: Option<string>, default: int): (r: Option<int>)
    ensures value.None? ==> r == Some(default)
  {
    if value.None? then Some(default) else ParseInt(value.value)
  }

  /** A variable holding the decimal text of a number sets the cap to that number. */
  lemma EnvLimitReadsDecimal(n: int, default: int)
    ensures EnvLimit(Some(IntToDecimal(n)), default) == Some(n)
  {
    DecimalRoundTrip(n);
  }

  // ---------------------------------------------------------------------
  // load_users

  /** `ln.lstrip("@")`. */
  function Unprefixed(ln: string): string
  {
    StripLeading(ln, '@')
  }

  /** The handles `load_users` returns for the lines of the file: the kept lines, unprefixed. */
  function Handles(lines: seq<string>): seq<string>
  {
    Seqs.Map(ContentLines(lines), Unprefixed)
  }

  /** One handle per kept line, in file order; none starts with '@'. */
  lemma HandlesSpec(lines: seq<string>)
    ensures |Handles(lines)| == |ContentLines(lines)| <= |lines|
    ensures forall k :: 0 <= k < |Handles(lines)| ==> Handles(lines)[k] == [] || Handles(lines)[k][0] != '@'
    ensures forall k :: 0 <= k < |Handles(lines)| ==>
              exists i :: 0 <= i < |lines| && StripLeading(Strip(lines[i]), '@') == Handles(lines)[k]
  {
    Seqs.FilterProperties(StrippedLines(lines), IsContentLine);
    forall k | 0 <= k < |Handles(lines)|
      ensures exists i :: 0 <= i < |lines| && StripLeading(Strip(lines[i]), '@') == Handles(lines)[k]
    {
      var kept := ContentLines(lines);
      assert kept[k] in kept;
      var i := ContentLinesShape(lines, kept[k]);
      assert StripLeading(Strip(lines[i]), '@') == Handles(lines)[k];
    }
  }

  /** `load_users`: nothing when the file is missing; otherwise the handles, appended line by line. */
  method LoadUsers(file: Option<seq<string>>) returns (users: seq<string>)
    ensures file.None? ==> users == []
    ensures file.Some? ==> users == Handles(file.value)
  {
    users := [];
    if file.None? {
      return;
    }
    var lines := file.value;
    for i := 0 to |lines|
      invariant users == Handles(lines[..i])
    {
      ContentLinesStep(lines, i);
      var ln := Strip(lines[i]);
      if ln == [] || StartsWith(ln, "#") {
        continue;
      }
      Seqs.MapAppend(ContentLines(lines[..i]), ln, Unprefixed);
      users := users + [Unprefixed(ln)];
    }
    assert lines[..|lines|] == lines;
  }

  // ---------------------------------------------------------------------
  // The per-user scan

  /** A media item of a tweet: a photo with its `fullUrl` and `url` attributes, or anything else
      (GIF, video). */
  datatype Media = Photo(fullUrl: Option<string>, url: Option<string>) | OtherMedia

  /** A tweet: its id and its `media` attribute (None when the tweet has none). */
  datatype Tweet = Tweet(id: int, media: Option<seq<Media>>)

  /** The URL saved for a media item: `fullUrl or url` of a photo, when non-empty. */
  function PhotoUrl(m: Media): (r: Option<string>)
    ensures r.Some? <==> m.Photo? && (Truthy(m.fullUrl) || Truthy(m.url))
    ensures r.Some? ==> r.value != "" && (r == m.fullUrl || (!Truthy(m.fullUrl) && r == m.url))
  {
    if m.OtherMedia? then None
    else if Truthy(m.fullUrl) then m.fullUrl
    else if Truthy(m.url) then m.url
    else None
  }

  /** The inner loop over a tweet's media: save each photo URL while fewer than `room` have been
      saved for this tweet. */
  function CapPhotos(media: seq<Media>, room: int): seq<string>
  {
    if media == [] then []
    else
      var p := CapPhotos(media[..|media| - 1], room);
      var u := PhotoUrl(media[|media| - 1]);
      if |p| < room && u.Some? then p + [u.value] else p
  }

  /** Every photo URL of the media, in order. */
  function PhotoUrls(media: seq<Media>): seq<string>
  {
    if media == [] then []
    else
      var u := PhotoUrl(media[|media| - 1]);
      PhotoUrls(media[..|media| - 1]) + (if u.Some? then [u.value] else [])
  }

  /** The inner loop saves the first `room` photo URLs of the tweet. */
  lemma {:induction false} CapPhotosIsTake(media: seq<Media>, room: nat)
    ensures CapPhotos(media, room) == Seqs.Take(PhotoUrls(media), room)
  {
    if media != [] {
      var init := media[..|media| - 1];
      CapPhotosIsTake(init, room);
      var all := PhotoUrls(init);
      var u := PhotoUrl(media[|media| - 1]);
      var ext := if u.Some? then [u.value] else [];
      assert PhotoUrls(media) == all + ext;
      if |all| >= room {
        assert (all + ext)[..room] == Seqs.Take(all, room);
      }
    }
  }

  /** Once `room` URLs are saved, later media add nothing: the inner `break`. */
  lemma {:induction false} CapPhotosFull(media: seq<Media>, j: nat, room: int)
    requires j <= |media| && |CapPhotos(media[..j], room)| >= room
    ensures CapPhotos(media, room) == CapPhotos(media[..j], room)
    decreases |media| - j
  {
    if j < |media| {
      assert media[..j + 1][..j] == media[..j];
      CapPhotosFull(media, j + 1, room);
    } else {
      assert media[..j] == media;
    }
  }

  /** Every URL the inner loop saves is the photo URL of one of the tweet's media items. */
  lemma {:induction false} CapPhotosSource(media: seq<Media>, room: int, u: string)
    requires u in CapPhotos(media, room)
    ensures exists k :: 0 <= k < |media| && PhotoUrl(media[k]) == Some(u)
  {
    var init := media[..|media| - 1];
    if u in CapPhotos(init, room) {
      CapPhotosSource(init, room, u);
      var k :| 0 <= k < |init| && PhotoUrl(init[k]) == Some(u);
      assert media[k] == init[k];
    }
  }

  /** `f"https://x.com/{user}/status/{tweet.id}"`. */
  function Permalink(user: string, id: int): string
  {
    "https://x.com/" + user + "/status/" + IntToDecimal(id)
  }

  /** Where the scan of one user stands after some tweets: the saves so far, how many tweets were
      examined, and whether the outer loop has broken off. */
  datatype ScanState = ScanState(saves: seq<Save>, examined: nat, stopped: bool)

  /** One pass of the outer loop's body: tweet `t`, at index `i`, after state `p`. */
  function ScanStep(user: string, p: ScanState, i: int, t: Tweet, maxTweets: int, maxImages: int): ScanState
  {
    if p.stopped then p
    else if i >= maxTweets || |p.saves| >= maxImages then ScanState(p.saves, p.examined, true)
    else if t.media.None? || t.media.value == [] then ScanState(p.saves, p.examined + 1, false)
    else
      var urls := CapPhotos(t.media.value, maxImages - |p.saves|);
      ScanState(p.saves + SavesOf(urls, Permalink(user, t.id)), p.examined + 1, false)
  }

  /** The outer loop over `enumerate(scraper.get_items())`, as a fold over the tweets received. */
  function Scan(user: string, tweets: seq<Tweet>, maxTweets: int, maxImages: int): ScanState
  {
    if tweets == [] then ScanState([], 0, false)
    else ScanStep(user, Scan(user, tweets[..|tweets| - 1], maxTweets, maxImages), |tweets| - 1, tweets[|tweets| - 1], maxTweets, maxImages)
  }

  function Max0(n: int): nat { if n < 0 then 0 else n }

  /** The caps: at most MAX_IMAGES_PER_USER saves and at most MAX_TWEETS_PER_USER tweets examined,
      and the scan runs to the end of the tweets unless it breaks off. */
  lemma {:induction false} ScanCaps(user: string, tweets: seq<Tweet>, maxTweets: int, maxImages: int)
    ensures var s := Scan(user, tweets, maxTweets, maxImages);
      && |s.saves| <= Max0(maxImages)
      && s.examined <= Max0(maxTweets) && s.examined <= |tweets|
      && (!s.stopped ==> s.examined == |tweets|)
  {
    if tweets != [] {
      var init := tweets[..|tweets| - 1];
      ScanCaps(user, init, maxTweets, maxImages);
      var p := Scan(user, init, maxTweets, maxImages);
      var t := tweets[|tweets| - 1];
      var s := Scan(user, tweets, maxTweets, maxImages);
      if p.stopped {
        assert s == p;
      } else if |init| >= maxTweets || |p.saves| >= maxImages {
        assert s == ScanState(p.saves, p.examined, true);
      } else if t.media.None? || t.media.value == [] {
        assert s == ScanState(p.saves, p.examined + 1, false);
      } else {
        var room := maxImages - |p.saves|;
        var urls := CapPhotos(t.media.value, room);
        CapPhotosIsTake(t.media.value, room);
        assert s == ScanState(p.saves + SavesOf(urls, Permalink(user, t.id)), p.examined + 1, false);
      }
    }
  }

  /** The save came from this tweet: it is the URL of one of the tweet's photos, with the tweet's
      permalink as referrer. */
  predicate FromTweet(user: string, t: Tweet, sv: Save)
  {
    t.media.Some? && sv.referrer == Permalink(user, t.id)
    && exists m :: m in t.media.value && PhotoUrl(m) == Some(sv.url)
  }

  /** The saves made for one tweet come from it. */
  lemma NewSaveSource(user: string, t: Tweet, room: int, k: nat)
    requires t.media.Some? && k < |CapPhotos(t.media.value, room)|
    ensures FromTweet(user, t, SavesOf(CapPhotos(t.media.value, room), Permalink(user, t.id))[k])
  {
    var media := t.media.value;
    var u := CapPhotos(media, room)[k];
    CapPhotosSource(media, room, u);
    var j :| 0 <= j < |media| && PhotoUrl(media[j]) == Some(u);
    assert media[j] in media;
  }

  /** A pass of the loop body keeps the earlier saves where they were and examines no fewer
      tweets. */
  lemma StepKeepsSave(user: string, p: ScanState, i: int, t: Tweet, maxTweets: int, maxImages: int, k: nat)
    requires k < |p.saves|
    ensures var s := ScanStep(user, p, i, t, maxTweets, maxImages);
      k < |s.saves| && s.saves[k] == p.saves[k] && p.examined <= s.examined
  {
  }

  /** A save that a pass of the loop body adds is one of the saves made for its tweet, which it
      examined. */
  lemma StepAddsSave(user: string, p: ScanState, i: int, t: Tweet, maxTweets: int, maxImages: int, k: nat)
    requires |p.saves| <= k < |ScanStep(user, p, i, t, maxTweets, maxImages).saves|
    ensures var s := ScanStep(user, p, i, t, maxTweets, maxImages);
      && !p.stopped && t.media.Some? && s.examined == p.examined + 1
      && k - |p.saves| < |CapPhotos(t.media.value, maxImages - |p.saves|)|
      && s.saves[k] == SavesOf(CapPhotos(t.media.value, maxImages - |p.saves|), Permalink(user, t.id))[k - |p.saves|]
  {
  }

  /** `sv` comes from one of the first `n` tweets. */
  predicate SavedFrom(user: string, tweets: seq<Tweet>, n: int, sv: Save)
  {
    exists i :: 0 <= i < |tweets| && i < n && FromTweet(user, tweets[i], sv)
  }

  /** Every save of `st` comes from one of the tweets it examined. */
  predicate Sourced(user: string, tweets: seq<Tweet>, st: ScanState)
  {
    forall k :: 0 <= k < |st.saves| ==> SavedFrom(user, tweets, st.examined, st.saves[k])
  }

  /** An earlier save stays sourced after a pass of the loop body over the next tweet. */
  lemma KeptSaveSourced(user: string, tweets: seq<Tweet>, p: ScanState, maxTweets: int, maxImages: int, k: nat)
    requires tweets != [] && k < |p.saves| && SavedFrom(user, tweets[..|tweets| - 1], p.examined, p.saves[k])
    ensures var s := ScanStep(user, p, |tweets| - 1, tweets[|tweets| - 1], maxTweets, maxImages);
      k < |s.saves| && SavedFrom(user, tweets, s.examined, s.saves[k])
  {
    var init := tweets[..|tweets| - 1];
    StepKeepsSave(user, p, |init|, tweets[|init|], maxTweets, maxImages, k);
    var i :| 0 <= i < |init| && i < p.examined && FromTweet(user, init[i], p.saves[k]);
    assert tweets[i] == init[i];
  }

  /** A save that a pass of the loop body adds comes from the tweet it examined. */
  lemma AddedSaveSourced(user: string, tweets: seq<Tweet>, p: ScanState, maxTweets: int, maxImages: int, k: nat)
    requires tweets != [] && (!p.stopped ==> p.examined == |tweets| - 1)
    requires |p.saves| <= k < |ScanStep(user, p, |tweets| - 1, tweets[|tweets| - 1], maxTweets, maxImages).saves|
    ensures var s := ScanStep(user, p, |tweets| - 1, tweets[|tweets| - 1], maxTweets, maxImages);
      SavedFrom(user, tweets, s.examined, s.saves[k])
  {
    var t := tweets[|tweets| - 1];
    StepAddsSave(user, p, |tweets| - 1, t, maxTweets, maxImages, k);
    NewSaveSource(user, t, maxImages - |p.saves|, k - |p.saves|);
  }

  /** A pass of the loop body over the next tweet keeps every save sourced. */
  lemma StepSourced(user: string, tweets: seq<Tweet>, p: ScanState, maxTweets: int, maxImages: int)
    requires tweets != [] && Sourced(user, tweets[..|tweets| - 1], p) && (!p.stopped ==> p.examined == |tweets| - 1)
    ensures Sourced(user, tweets, ScanStep(user, p, |tweets| - 1, tweets[|tweets| - 1], maxTweets, maxImages))
  {
    var s := ScanStep(user, p, |tweets| - 1, tweets[|tweets| - 1], maxTweets, maxImages);
    forall k | 0 <= k < |s.saves| ensures SavedFrom(user, tweets, s.examined, s.saves[k]) {
      if k < |p.saves| {
        KeptSaveSourced(user, tweets, p, maxTweets, maxImages, k);
      } else {
        AddedSaveSourced(user, tweets, p, maxTweets, maxImages, k);
      }
    }
  }

  /** Every save comes from one of the examined tweets. */
  lemma {:induction false} ScanSource(user: string, tweets: seq<Tweet>, maxTweets: int, maxImages: int)
    ensures Sourced(user, tweets, Scan(user, tweets, maxTweets, maxImages))
  {
    if tweets != [] {
      var init := tweets[..|tweets| - 1];
      ScanSource(user, init, maxTweets, maxImages);
      ScanCaps(user, init, maxTweets, maxImages);
      StepSourced(user, tweets, Scan(user, init, maxTweets, maxImages), maxTweets, maxImages);
    }
  }

  /** The scan of one more tweet is one more pass of the loop body. */
  lemma ScanPrefixStep(user: string, tweets: seq<Tweet>, i: nat, maxTweets: int, maxImages: int)
    requires i < |tweets|
    ensures Scan(user, tweets[..i + 1], maxTweets, maxImages)
         == ScanStep(user, Scan(user, tweets[..i], maxTweets, maxImages), i, tweets[i], maxTweets, maxImages)
  {
    assert tweets[..i + 1][..i] == tweets[..i];
  }

  /** Once the outer loop breaks off, later tweets change nothing. */
  lemma {:induction false} ScanStopped(user: string, tweets: seq<Tweet>, j: nat, maxTweets: int, maxImages: int)
    requires j <= |tweets| && Scan(user, tweets[..j], maxTweets, maxImages).stopped
    ensures Scan(user, tweets, maxTweets, maxImages) == Scan(user, tweets[..j], maxTweets, maxImages)
    decreases |tweets| - j
  {
    if j < |tweets| {
      assert tweets[..j + 1][..j] == tweets[..j];
      ScanStopped(user, tweets, j + 1, maxTweets, maxImages);
    } else {
      assert tweets[..j] == tweets;
    }
  }

  /** The `save_image_url` calls for one user. */
  function UserSaves(user: string, tweets: seq<Tweet>, maxTweets: int, maxImages: int): seq<Save>
  {
    Scan(user, tweets, maxTweets, maxImages).saves
  }

  /** What `main` saves for each handle, as a function of the handle. */
  function SavesPerUser(timeline: string -> seq<Tweet>, maxTweets: int, maxImages: int): string -> seq<Save>
  {
    u => UserSaves(u, timeline(u), maxTweets, maxImages)
  }

  /** The loop body of `main` for one user. `tweets` are the items the scraper yields before it
      ends or raises. */
  method ScanUser(store: Store, net: Network, user: string, tweets: seq<Tweet>, maxTweets: int, maxImages: int, now: int)
    returns (saves: seq<Save>)
    requires store.Valid()
    modifies store, net
    ensures store.Valid()
    ensures saves == UserSaves(user, tweets, maxTweets, maxImages)
    ensures store.calls == old(store.calls) + saves
    ensures store.seenUrls == old(store.seenUrls)
    ensures RowsKept(old(store.images), store.images)
  {
    saves := [];
    var imagesSeen := 0;
    var i := 0;
    while i < |tweets|
      invariant 0 <= i <= |tweets|
      invariant Scan(user, tweets[..i], maxTweets, maxImages) == ScanState(saves, i, false)
      invariant imagesSeen == |saves|
      invariant store.calls == old(store.calls) + saves
      invariant store.Valid()
      invariant store.seenUrls == old(store.seenUrls)
      invariant RowsKept(old(store.images), store.images)
    {
      ScanPrefixStep(user, tweets, i, maxTweets, maxImages);
      if i >= maxTweets || imagesSeen >= maxImages {
        ScanStopped(user, tweets, i + 1, maxTweets, maxImages);
        return;
      }
      ghost var images0, saves0 := store.images, saves;
      saves := ScanTweet(store, net, user, tweets[i], i, saves, maxTweets, maxImages, now);
      Seqs.AppendRest(old(store.calls), saves0, saves);
      RowsKeptTransitive(old(store.images), images0, store.images);
      imagesSeen := |saves|;
      i := i + 1;
    }
    assert tweets[..i] == tweets;
  }

  /** One pass of the outer loop's body for a tweet that is examined: save its photos, if any,
      within what is left of MAX_IMAGES_PER_USER. */
  method ScanTweet(store: Store, net: Network, user: string, tweet: Tweet, i: nat, saves: seq<Save>,
                   maxTweets: int, maxImages: int, now: int)
    returns (saves': seq<Save>)
    requires store.Valid() && i < maxTweets && |saves| < maxImages
    modifies store, net
    ensures store.Valid()
    ensures ScanState(saves', i + 1, false) == ScanStep(user, ScanState(saves, i, false), i, tweet, maxTweets, maxImages)
    ensures saves <= saves' && store.calls == old(store.calls) + saves'[|saves|..]
    ensures store.seenUrls == old(store.seenUrls)
    ensures RowsKept(old(store.images), store.images)
  {
    if tweet.media.None? || tweet.media.value == [] {
      assert saves[|saves|..] == [];
      return saves;
    }
    var ref := Permalink(user, tweet.id);
    var urls := SaveTweetPhotos(store, net, tweet.media.value, ref, maxImages - |saves|, now);
    saves' := saves + SavesOf(urls, ref);
    assert saves'[|saves|..] == SavesOf(urls, ref);
  }

  /** The inner loop of `main` over one tweet's media: save each photo URL, stopping once
      `room` have been saved (`images_seen >= MAX_IMAGES_PER_USER`). */
  method SaveTweetPhotos(store: Store, net: Network, media: seq<Media>, ref: string, room: int, now: int)
    returns (urls: seq<string>)
    requires store.Valid() && room > 0
    modifies store, net
    ensures store.Valid()
    ensures urls == CapPhotos(media, room)
    ensures store.calls == old(store.calls) + SavesOf(urls, ref)
    ensures store.seenUrls == old(store.seenUrls)
    ensures RowsKept(old(store.images), store.images)
  {
    urls := [];
    var j := 0;
    while j < |media|
      invariant 0 <= j <= |media|
      invariant urls == CapPhotos(media[..j], room)
      invariant |urls| < room
      invariant store.calls == old(store.calls) + SavesOf(urls, ref)
      invariant store.Valid()
      invariant store.seenUrls == old(store.seenUrls)
      invariant RowsKept(old(store.images), store.images)
    {
      assert media[..j + 1][..j] == media[..j];
      var url := PhotoUrl(media[j]);
      if url.Some? {
        ghost var images0 := store.images;
        store.SaveImageUrl(net, url.value, ref, now);
        RowsKeptTransitive(old(store.images), images0, store.images);
        SavesOfAppend(urls, url.value, ref);
        urls := urls + [url.value];
        if |urls| >= room {
          CapPhotosFull(media, j + 1, room);
          return;
        }
      }
      j := j + 1;
    }
    assert media[..j] == media;
  }

  /** One turn of `main`'s loop over the handles: scan `users[k]` and append what it saved. */
  method ScanNextUser(store: Store, net: Network, users: seq<string>, k: nat, saved: seq<seq<Save>>,
                      timeline: string -> seq<Tweet>, maxTweets: int, maxImages: int, now: int,
                      ghost base: seq<Save>)
    returns (saved': seq<seq<Save>>)
    requires k < |users|
    requires store.Valid()
    requires saved == Seqs.Map(users[..k], SavesPerUser(timeline, maxTweets, maxImages))
    requires store.calls == base + Seqs.Flatten(saved)
    modifies store, net
    ensures store.Valid()
    ensures saved' == Seqs.Map(users[..k + 1], SavesPerUser(timeline, maxTweets, maxImages))
    ensures store.calls == base + Seqs.Flatten(saved')
    ensures store.seenUrls == old(store.seenUrls)
    ensures RowsKept(old(store.images), store.images)
  {
    Seqs.MapStep(users, k, SavesPerUser(timeline, maxTweets, maxImages));
    var s := ScanUser(store, net, users[k], timeline(users[k]), maxTweets, maxImages, now);
    Seqs.FlattenAppend(base, saved, s);
    saved' := saved + [s];
  }

  /** `main`: load the handles and scan every user in file order; nothing when there are none.
      `timeline(user)` stands for what `TwitterUserScraper(user).get_items()` yields. */
  method Run(store: Store, net: Network, feedsFile: Option<seq<string>>, timeline: string -> seq<Tweet>,
              maxTweets: int, maxImages: int, now: int)
    returns (users: seq<string>, saved: seq<seq<Save>>)
    requires store.Valid()
    modifies store, net
    ensures store.Valid()
    ensures users == (if feedsFile.None? then [] else Handles(feedsFile.value))
    ensures |saved| == |users|
    ensures forall k :: 0 <= k < |users| ==> saved[k] == UserSaves(users[k], timeline(users[k]), maxTweets, maxImages)
    ensures store.calls == old(store.calls) + Seqs.Flatten(saved)
    ensures store.seenUrls == old(store.seenUrls)
    ensures RowsKept(old(store.images), store.images)
  {
    users := LoadUsers(feedsFile);
    saved := [];
    if users == [] {
      return;
    }
    ghost var perUser := SavesPerUser(timeline, maxTweets, maxImages);
    for k := 0 to |users|
      invariant saved == Seqs.Map(users[..k], perUser)
      invariant store.calls == old(store.calls) + Seqs.Flatten(saved)
      invariant store.Valid()
      invariant store.seenUrls == old(store.seenUrls)
      invariant RowsKept(old(store.images), store.images)
    {
      ghost var images0 := store.images;
      saved := ScanNextUser(store, net, users, k, saved, timeline, maxTweets, maxImages, now, old(store.calls));
      RowsKeptTransitive(old(store.images), images0, store.images);
    }
    assert users[..|users|] == users;
  }
}
