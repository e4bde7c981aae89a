/**
 * The catalog builder of the Vite site (src/utils/get-assets.ts). The bundler's glob
 * listings are inputs: `imageKeys`, `videoKeys` and `thumbnailKeys` are the keys of
 * `import.meta.glob` of the images, videos and (recursively) thumbnails
 * directories under /public; the text tributes are the glob keys of the
 * English (`_en.json`) and Chinese (`_ch.json`) files under /public/text, paired with the JSON each
 * module exports; `baseUrl` is `import.meta.env.BASE_URL`.
 */
module ViteCatalog {
  import opened Wrappers
  import opened Strings
  import Shuffle

  datatype Kind = Image | Video | Text

  /** A tribute: the default export of a text JSON file. */
  datatype Content = Content(author: string, description: string, text: seq<string>)

  datatype Asset = Asset(kind: Kind, path: string, thumbnailPath: Option<string>, content: Option<Content>)

  /** A text module found by the glob: its key and the content its import resolves to. */
  datatype TextModule = TextModule(key: string, content: Content)

  /** The public directory a media kind is served from. */
  function MediaDir(kind: Kind): string
    requires kind != Text
  {
    if kind == Image then "images" else "videos"
  }

  /** `getPublicPath(path)`: `baseUrl` without one trailing '/', a '/', then `path` without one leading '/'. */
  function GetPublicPath(baseUrl: string, path: string): (r: string)
    ensures |r| == |TrimTrailingSlash(baseUrl)| + 1 + |TrimLeadingSlash(path)|
    ensures r[|TrimTrailingSlash(baseUrl)|] == '/'
    ensures r[..|TrimTrailingSlash(baseUrl)|] == TrimTrailingSlash(baseUrl)
    ensures r[|TrimTrailingSlash(baseUrl)| + 1..] == TrimLeadingSlash(path)
  {
    TrimTrailingSlash(baseUrl) + "/" + TrimLeadingSlash(path)
  }

  /**
   * Base and path are joined by exactly one '/' whenever each brings at most one
   * '/' to the join.
   */
  lemma {:induction false} PublicPathJoinsWithOneSlash(base: string, baseSlash: bool, path: string, pathSlash: bool)
    requires base == [] || base[|base| - 1] != '/'
    requires path == [] || path[0] != '/'
    ensures GetPublicPath(base + (if baseSlash then "/" else ""), (if pathSlash then "/" else "") + path)
         == base + "/" + path
  {
    TrimmedBase(base, baseSlash);
    TrimmedPath(path, pathSlash);
  }

  lemma TrimmedBase(base: string, baseSlash: bool)
    requires base == [] || base[|base| - 1] != '/'
    ensures TrimTrailingSlash(base + (if baseSlash then "/" else "")) == base
  {
    var b := base + (if baseSlash then "/" else "");
    if baseSlash {
      assert b[..|b| - 1] == base;
    } else {
      assert b == base;
    }
  }

  lemma TrimmedPath(path: string, pathSlash: bool)
    requires path == [] || path[0] != '/'
    ensures TrimLeadingSlash((if pathSlash then "/" else "") + path) == path
  {
    var p := (if pathSlash then "/" else "") + path;
    if pathSlash {
      assert p[1..] == path;
    } else {
      assert p == path;
    }
  }

  /** Index of the first key that contains `needle` (the element `find` returns), or -1. */
  function FirstContaining(keys: seq<string>, needle: string): (r: int)
    ensures -1 <= r < |keys|
    ensures r >= 0 ==> Contains(keys[r], needle)
    ensures forall k :: 0 <= k < |keys| && (r == -1 || k < r) ==> !Contains(keys[k], needle)
  {
    if keys == [] then -1
    else if Contains(keys[0], needle) then 0
    else
      var r := FirstContaining(keys[1..], needle);
      assert forall k :: 1 <= k < |keys| ==> keys[k] == keys[1..][k - 1];
      if r < 0 then -1 else r + 1
  }

  /** The text a thumbnail key must contain to belong to `filename`: `thumbnails/<dir>/<stem>.jpg`. */
  function ThumbnailNeedle(kind: Kind, filename: string): string
    requires kind != Text
  {
    "thumbnails/" + MediaDir(kind) + "/" + ReplaceExtension(filename, ".jpg")
  }

  /** The thumbnail of `filename`: the first matching key with its first "/public" removed. */
  function FindThumbnail(kind: Kind, filename: string, thumbnailKeys: seq<string>): (r: Option<string>)
    requires kind != Text
    ensures r.None? <==> forall k :: 0 <= k < |thumbnailKeys| ==> !Contains(thumbnailKeys[k], ThumbnailNeedle(kind, filename))
    ensures r.Some? ==>
      exists k :: 0 <= k < |thumbnailKeys| && Contains(thumbnailKeys[k], ThumbnailNeedle(kind, filename)) &&
        r.value == RemoveFirst(thumbnailKeys[k], "/public") &&
        (forall m :: 0 <= m < k ==> !Contains(thumbnailKeys[m], ThumbnailNeedle(kind, filename)))
  {
    var i := FirstContaining(thumbnailKeys, ThumbnailNeedle(kind, filename));
    if i < 0 then None else Some(RemoveFirst(thumbnailKeys[i], "/public"))
  }

  /** The asset built for one image or video glob key (src/utils/get-assets.ts:43-65). */
  function MediaAsset(kind: Kind, key: string, thumbnailKeys: seq<string>): (a: Asset)
    requires kind != Text
    ensures a.kind == kind && a.content.None?
    ensures a.path == "/" + MediaDir(kind) + "/" + LastSegment(key)
    ensures a.thumbnailPath == FindThumbnail(kind, LastSegment(key), thumbnailKeys)
  {
    var filename := LastSegment(key);
    Asset(kind, "/" + MediaDir(kind) + "/" + filename, FindThumbnail(kind, filename, thumbnailKeys), None)
  }

  /** The asset's path names the file of its glob key. */
  lemma MediaPathNamesFile(kind: Kind, key: string, thumbnailKeys: seq<string>)
    requires kind != Text
    ensures LastSegment(MediaAsset(kind, key, thumbnailKeys).path) == LastSegment(key)
  {
    LastSegmentOfJoin("/" + MediaDir(kind), LastSegment(key));
    assert "/" + MediaDir(kind) + "/" + LastSegment(key) == ("/" + MediaDir(kind)) + "/" + LastSegment(key);
  }

  /** The thumbnail `stem.jpg` of a media kind, relative to the public directory. */
  function ThumbnailPath(kind: Kind, stem: string): string
    requires kind != Text
  {
    "thumbnails/" + MediaDir(kind) + "/" + stem + ".jpg"
  }

  /** Where the thumbnail `stem.jpg` of a media kind is served. */
  function ThumbnailUrl(kind: Kind, stem: string): string
    requires kind != Text
  {
    "/" + ThumbnailPath(kind, stem)
  }

  /** The glob key of the thumbnail `stem.jpg` of a media kind. */
  function ThumbnailKey(kind: Kind, stem: string): string
    requires kind != Text
  {
    "/public" + ThumbnailUrl(kind, stem)
  }

  lemma ThumbnailKeyMatches(kind: Kind, stem: string)
    requires kind != Text
    ensures Contains(ThumbnailKey(kind, stem), ThumbnailPath(kind, stem))
    ensures RemoveFirst(ThumbnailKey(kind, stem), "/public") == ThumbnailUrl(kind, stem)
  {
    var needle := ThumbnailPath(kind, stem);
    var t := ThumbnailKey(kind, stem);
    assert t[8..8 + |needle|] == needle;
    ContainsAt(t, needle, 8);
    RemoveFirstOfPrefix("/public", ThumbnailUrl(kind, stem));
  }

  /**
   * Thumbnail pairing: for a media file `stem.ext`, the thumbnail key
   * `/public/thumbnails/<dir>/stem.jpg`, when no earlier key matches, becomes the
   * asset's `thumbnailPath` `/thumbnails/<dir>/stem.jpg`, whatever the media's extension.
   */
  lemma ThumbnailPairedByStem(kind: Kind, key: string, stem: string, ext: string, thumbnailKeys: seq<string>, k: nat)
    requires kind != Text
    requires LastSegment(key) == stem + "." + ext && ext != [] && '.' !in ext
    requires k < |thumbnailKeys| && thumbnailKeys[k] == ThumbnailKey(kind, stem)
    requires forall m :: 0 <= m < k ==> !Contains(thumbnailKeys[m], ThumbnailNeedle(kind, LastSegment(key)))
    ensures MediaAsset(kind, key, thumbnailKeys).thumbnailPath == Some(ThumbnailUrl(kind, stem))
  {
    NeedleOfStem(kind, stem, ext);
    ThumbnailKeyMatches(kind, stem);
    FirstContainingAt(thumbnailKeys, ThumbnailPath(kind, stem), k);
  }

  /** The needle searched for `stem.ext` is the thumbnail path of `stem`. */
  lemma NeedleOfStem(kind: Kind, stem: string, ext: string)
    requires kind != Text && ext != [] && '.' !in ext
    ensures ThumbnailNeedle(kind, stem + "." + ext) == ThumbnailPath(kind, stem)
  {
    ReplaceExtensionOf(stem, ext, ".jpg");
  }

  /** A key that contains the needle, preceded by none that does, is the one found. */
  lemma FirstContainingAt(keys: seq<string>, needle: string, k: nat)
    requires k < |keys| && Contains(keys[k], needle)
    requires forall m :: 0 <= m < k ==> !Contains(keys[m], needle)
    ensures FirstContaining(keys, needle) == k
  {
    var r := FirstContaining(keys, needle);
    assert r != -1 && !(r < k) && !(r > k);
  }

  function MediaAssets(kind: Kind, keys: seq<string>, thumbnailKeys: seq<string>): (r: seq<Asset>)
    requires kind != Text
    ensures |r| == |keys|
    ensures forall k :: 0 <= k < |keys| ==> r[k] == MediaAsset(kind, keys[k], thumbnailKeys)
  {
    seq(|keys|, k requires 0 <= k < |keys| => MediaAsset(kind, keys[k], thumbnailKeys))
  }

  /** The asset built for one text module; `locale` is "english" or "chinese". */
  function TextAsset(baseUrl: string, locale: string, m: TextModule): (a: Asset)
    ensures a.kind == Text && a.thumbnailPath.None? && a.content == Some(m.content)
    ensures a.path == GetPublicPath(baseUrl, "text/" + locale + "/" + LastSegment(m.key))
  {
    Asset(Text, GetPublicPath(baseUrl, "text/" + locale + "/" + LastSegment(m.key)), None, Some(m.content))
  }

  function TextAssets(baseUrl: string, locale: string, modules: seq<TextModule>): (r: seq<Asset>)
    ensures |r| == |modules|
    ensures forall k :: 0 <= k < |modules| ==> r[k] == TextAsset(baseUrl, locale, modules[k])
  {
    seq(|modules|, k requires 0 <= k < |modules| => TextAsset(baseUrl, locale, modules[k]))
  }

  /** A text asset always carries its content; an image or video asset never does. */
  predicate ContentMatchesKind(a: Asset)
  {
    (a.kind == Text) == a.content.Some?
  }

  /** `[...images, ...videos, ...texts]` before shuffling. */
  function Unshuffled(baseUrl: string, locale: string, imageKeys: seq<string>, videoKeys: seq<string>,
                      thumbnailKeys: seq<string>, texts: seq<TextModule>): (r: seq<Asset>)
    ensures |r| == |imageKeys| + |videoKeys| + |texts|
    ensures forall a :: a in r ==> ContentMatchesKind(a)
    ensures forall a :: a in r && a.kind == Text <==> a in TextAssets(baseUrl, locale, texts)
  {
    MediaAssets(Image, imageKeys, thumbnailKeys) + MediaAssets(Video, videoKeys, thumbnailKeys)
      + TextAssets(baseUrl, locale, texts)
  }

  /** The images and videos of a catalog: everything that is not text. */
  function Media(s: seq<Asset>): (r: multiset<Asset>)
    ensures forall a :: a in r ==> a in s && a.kind != Text
    ensures forall a :: a in s && a.kind != Text ==> a in r
    ensures forall a: Asset :: a.kind != Text ==> r[a] == multiset(s)[a]
  {
    if s == [] then multiset{}
    else
      assert s == [s[0]] + s[1..];
      (if s[0].kind != Text then multiset{s[0]} else multiset{}) + Media(s[1..])
  }

  /** Two catalogs that are permutations of each other have the same media. */
  lemma MediaOfPermutation(s: seq<Asset>, t: seq<Asset>)
    requires multiset(s) == multiset(t)
    ensures Media(s) == Media(t)
  {
    forall a: Asset ensures Media(s)[a] == Media(t)[a] {
      if a.kind == Text {
        assert a !in Media(s) && a !in Media(t);
      }
    }
  }

  /** Appending text assets adds no media. */
  lemma MediaIgnoresTexts(media: seq<Asset>, texts: seq<Asset>)
    requires forall a :: a in texts ==> a.kind == Text
    ensures Media(media + texts) == Media(media)
  {
    forall a: Asset ensures Media(media + texts)[a] == Media(media)[a] {
      if a.kind == Text {
        assert a !in Media(media + texts) && a !in Media(media);
      } else {
        assert multiset(media + texts) == multiset(media) + multiset(texts);
        assert a !in multiset(texts);
      }
    }
  }

  /**
   * `getAssets()`: the English and Chinese catalogs, each the shuffled concatenation
   * of the images, the videos and that language's texts. `englishRandom` and
   * `chineseRandom` are what `Math.random` returns during the two shuffles.
   */
  method GetAssets(baseUrl: string, imageKeys: seq<string>, videoKeys: seq<string>, thumbnailKeys: seq<string>,
                   englishTexts: seq<TextModule>, chineseTexts: seq<TextModule>,
                   englishRandom: nat -> real, chineseRandom: nat -> real)
    returns (englishAssets: seq<Asset>, chineseAssets: seq<Asset>)
    requires Shuffle.IsRandomSource(englishRandom) && Shuffle.IsRandomSource(chineseRandom)
    ensures englishAssets == Shuffle.Shuffled(Unshuffled(baseUrl, "english", imageKeys, videoKeys, thumbnailKeys, englishTexts), englishRandom)
    ensures chineseAssets == Shuffle.Shuffled(Unshuffled(baseUrl, "chinese", imageKeys, videoKeys, thumbnailKeys, chineseTexts), chineseRandom)
    ensures multiset(englishAssets) == multiset(Unshuffled(baseUrl, "english", imageKeys, videoKeys, thumbnailKeys, englishTexts))
    ensures multiset(chineseAssets) == multiset(Unshuffled(baseUrl, "chinese", imageKeys, videoKeys, thumbnailKeys, chineseTexts))
    ensures forall a :: a in englishAssets ==> ContentMatchesKind(a)
    ensures forall a :: a in chineseAssets ==> ContentMatchesKind(a)
    ensures Media(englishAssets) == Media(chineseAssets)
  {
    var media := MediaAssets(Image, imageKeys, thumbnailKeys) + MediaAssets(Video, videoKeys, thumbnailKeys);
    var englishTextAssets := TextAssets(baseUrl, "english", englishTexts);
    var chineseTextAssets := TextAssets(baseUrl, "chinese", chineseTexts);
    var english := media + englishTextAssets;
    var chinese := media + chineseTextAssets;
    assert english == Unshuffled(baseUrl, "english", imageKeys, videoKeys, thumbnailKeys, englishTexts);
    assert chinese == Unshuffled(baseUrl, "chinese", imageKeys, videoKeys, thumbnailKeys, chineseTexts);
    englishAssets := Shuffle.ShuffleList(english, englishRandom);
    chineseAssets := Shuffle.ShuffleList(chinese, chineseRandom);
    PermutedCatalog(english, englishAssets);
    PermutedCatalog(chinese, chineseAssets);
    MediaIgnoresTexts(media, englishTextAssets);
    MediaIgnoresTexts(media, chineseTextAssets);
  }

  /** A permutation of a catalog keeps its media and the content rule of its assets. */
  lemma PermutedCatalog(s: seq<Asset>, t: seq<Asset>)
    requires multiset(s) == multiset(t)
    requires forall a :: a in s ==> ContentMatchesKind(a)
    ensures forall a :: a in t ==> ContentMatchesKind(a)
    ensures Media(s) == Media(t)
  {
    MediaOfPermutation(s, t);
    forall a | a in t ensures ContentMatchesKind(a) {
      assert a in multiset(t);
    }
  }
}
