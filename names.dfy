/** The pure helpers of the ingestion module (sandbox_WIP/Gazaimage/utils_2.py):
    filename sanitising, provider attribution, content-type extensions and the path
    arithmetic of `os.path`. */
module Names {
  import opened Basics
  import opened Text
  import Seqs

  // ---------------------------------------------------------------------
  // sanitize_filename

  const MaxNameLength: nat := 200

  /** The punctuation `sanitize_filename` keeps: `._-()[]{}`. */
  const KeepChars: string := "._-()[]{}"

  predicate IsAlnum(c: char)
  {
    'a' <= c <= 'z' || 'A' <= c <= 'Z' || '0' <= c <= '9'
  }

  predicate IsSafe(c: char)
  {
    IsAlnum(c) || c in KeepChars
  }

  function SanitizeChar(c: char): char
  {
    if IsSafe(c) then c else '_'
  }

  /** The character-by-character filter of `sanitize_filename`, before truncation. */
  function SanitizeAll(name: string): (r: string)
    ensures |r| == |name|
    ensures forall i :: 0 <= i < |name| ==> r[i] == SanitizeChar(name[i])
  {
    if name == [] then [] else [SanitizeChar(name[0])] + SanitizeAll(name[1..])
  }

  function SanitizeFilename(name: string): string
  {
    Seqs.Take(SanitizeAll(name), MaxNameLength)
  }

  /** The sanitised name keeps the first 200 characters, each one safe: a safe input character
      is kept, any other one becomes `_`. */
  lemma SanitizeFilenameSpec(name: string)
    ensures |SanitizeFilename(name)| == if |name| <= MaxNameLength then |name| else MaxNameLength
    ensures SanitizeFilename(name) <= SanitizeAll(name)
    ensures forall i :: 0 <= i < |SanitizeFilename(name)| ==>
              IsSafe(SanitizeFilename(name)[i]) &&
              SanitizeFilename(name)[i] == (if IsSafe(name[i]) then name[i] else '_')
  {
  }

  /** Sanitising a sanitised name changes nothing. */
  lemma SanitizeIdempotent(name: string)
    ensures SanitizeFilename(SanitizeFilename(name)) == SanitizeFilename(name)
  {
    SanitizeFilenameSpec(name);
    var once := SanitizeFilename(name);
    SanitizeFilenameSpec(once);
    assert SanitizeFilename(once) == once;
  }

  // ---------------------------------------------------------------------
  // provider_from

  /** The tokens `provider_from` tries, in order, with the provider each one names. */
  const ProviderTokens: seq<(string, string)> := [
    ("maxar", "Maxar"),
    ("planet", "Planet"),
    ("skysat", "SkySat"),
    ("unosat", "UNOSAT"),
    ("forensic-architecture", "ForensicArchitecture"),
    ("amnesty", "Amnesty"),
    ("bellingcat", "Bellingcat"),
    ("aljazeera", "AlJazeera")
  ]

  const DefaultProvider: string := "web"

  /** The index of the first token from `k` on that occurs in `s`, or |ProviderTokens|. */
  function FirstHit(s: string, k: nat): (j: nat)
    requires k <= |ProviderTokens|
    ensures k <= j <= |ProviderTokens|
    ensures j < |ProviderTokens| ==> Contains(s, ProviderTokens[j].0)
    ensures forall i :: k <= i < j ==> !Contains(s, ProviderTokens[i].0)
    decreases |ProviderTokens| - k
  {
    if k == |ProviderTokens| then k
    else if Contains(s, ProviderTokens[k].0) then k
    else FirstHit(s, k + 1)
  }

  /** The text `provider_from` searches: f"{referrer} {img_url}".lower(). */
  function ProviderHaystack(referrer: string, imgUrl: string): string
  {
    Lower(referrer + " " + imgUrl)
  }

  function ProviderFrom(referrer: string, imgUrl: string): string
  {
    var j := FirstHit(ProviderHaystack(referrer, imgUrl), 0);
    if j < |ProviderTokens| then ProviderTokens[j].1 else DefaultProvider
  }

  /** `provider_from` names the provider of the first token, in the fixed order, found in the
      lower-cased "referrer img_url", and "web" exactly when no token is found. */
  lemma ProviderFromFirstMatch(referrer: string, imgUrl: string)
    ensures var s, r := ProviderHaystack(referrer, imgUrl), ProviderFrom(referrer, imgUrl);
      && (r == DefaultProvider <==> forall k :: 0 <= k < |ProviderTokens| ==> !Contains(s, ProviderTokens[k].0))
      && (r != DefaultProvider ==>
            exists k :: 0 <= k < |ProviderTokens| && r == ProviderTokens[k].1 && Contains(s, ProviderTokens[k].0)
                        && forall i :: 0 <= i < k ==> !Contains(s, ProviderTokens[i].0))
  {
  }

  /** A token is found in "referrer img_url" exactly when it is in the referrer or in the image URL
      (no token contains a space, so none is found across the two). */
  lemma ProviderSeesEitherUrl(referrer: string, imgUrl: string, k: nat)
    requires k < |ProviderTokens|
    ensures Contains(ProviderHaystack(referrer, imgUrl), ProviderTokens[k].0)
        <==> Contains(Lower(referrer), ProviderTokens[k].0) || Contains(Lower(imgUrl), ProviderTokens[k].0)
  {
    LowerAppend(referrer + " ", imgUrl);
    LowerAppend(referrer, " ");
    assert Lower(" ") == [' '];
    assert ProviderHaystack(referrer, imgUrl) == Lower(referrer) + [' '] + Lower(imgUrl);
    ContainsAcrossSeparator(Lower(referrer), ' ', Lower(imgUrl), ProviderTokens[k].0);
  }

  // ---------------------------------------------------------------------
  // detect_ext_from_content_type

  /** The part of a content type before the first ';', as `ct.split(";")[0]`. */
  function BeforeSemicolon(ct: string): (r: string)
    ensures r <= ct && ';' !in r
    ensures |r| < |ct| ==> ct[|r|] == ';'
  {
    if ct == [] || ct[0] == ';' then [] else [ct[0]] + BeforeSemicolon(ct[1..])
  }

  /** `detect_ext_from_content_type`: "" for an empty content type, otherwise the extension the
      `mimetypes` table gives for the media type, "" when it has none. `guess` stands for
      `mimetypes.guess_extension` with None written as "". */
  function DetectExtension(ct: string, guess: string -> string): (r: string)
    ensures ct == "" ==> r == ""
  {
    if ct == "" then "" else guess(Strip(BeforeSemicolon(ct)))
  }

  /** The parameters after the first ';' of a content type do not change its extension:
      "image/png; charset=binary" gives what "image/png" gives. */
  lemma DetectExtensionIgnoresParameters(mediaType: string, params: string, guess: string -> string)
    requires mediaType != "" && ';' !in mediaType
    ensures DetectExtension(mediaType + ";" + params, guess) == DetectExtension(mediaType, guess)
  {
    var ct := mediaType + ";" + params;
    var r := BeforeSemicolon(ct);
    assert ct[|mediaType|] == ';';
    assert r == ct[..|mediaType|] == mediaType;
    assert BeforeSemicolon(mediaType) == mediaType by {
      BeforeSemicolonWhole(mediaType);
    }
  }

  lemma {:induction false} BeforeSemicolonWhole(s: string)
    requires ';' !in s
    ensures BeforeSemicolon(s) == s
  {
    if s != [] {
      assert s[0] in s;
      assert forall c :: c in s[1..] ==> c in s;
      BeforeSemicolonWhole(s[1..]);
    }
  }

  // ---------------------------------------------------------------------
  // os.path.basename / os.path.join, for POSIX paths

  /** `os.path.basename(p)`: everything after the last '/'. */
  function Basename(p: string): (r: string)
    ensures '/' !in r
    ensures |r| <= |p| && r == p[|p| - |r|..]
    ensures |r| < |p| ==> p[|p| - |r| - 1] == '/'
  {
    if p == [] || p[|p| - 1] == '/' then [] else Basename(p[..|p| - 1]) + [p[|p| - 1]]
  }

  /** `os.path.join(dir, name)`. */
  function JoinPath(dir: string, name: string): (r: string)
    ensures |r| >= |name|
  {
    if StartsWith(name, "/") then name
    else if dir == "" || EndsWith(dir, "/") then dir + name
    else dir + "/" + name
  }

  /** `h[:8]`. */
  function HashPrefix(h: string): (r: string)
    ensures r <= h && |r| == if |h| < 8 then |h| else 8
  {
    if |h| < 8 then h else h[..8]
  }

  /** `f"{h[:8]}_{sanitize_filename(base)}"`. */
  function ImageFileName(h: string, base: string): string
  {
    HashPrefix(h) + "_" + SanitizeFilename(base)
  }

  /** The stored filename starts with the hash prefix and '_', and is at most 209 characters long. */
  lemma ImageFileNameShape(h: string, base: string)
    ensures HashPrefix(h) + "_" <= ImageFileName(h, base)
    ensures |ImageFileName(h, base)| <= 8 + 1 + MaxNameLength
    ensures forall i :: |HashPrefix(h)| < i < |ImageFileName(h, base)| ==> IsSafe(ImageFileName(h, base)[i])
  {
    SanitizeFilenameSpec(base);
    var f := ImageFileName(h, base);
    var n := |HashPrefix(h)| + 1;
    forall i | n <= i < |f| ensures IsSafe(f[i]) {
      assert f[i] == SanitizeFilename(base)[i - n];
    }
  }
}
