/**
 * The catalog builder of the Next.js site (app/utils/get-assets.ts): every file
 * listed in public/images and public/videos becomes an asset, and the list is
 * shuffled. The two `readdirSync` calls are inputs; a listing that throws is a
 * `Failure`, which propagates out of `getAssets`.
 */
module ServerCatalog {
  import opened Wrappers
  import Shuffle

  /** `type: "image" | "video"`: no other kind of asset exists on this site. */
  datatype MediaKind = Image | Video

  datatype Asset = Asset(kind: MediaKind, path: string)

  function Prefix(kind: MediaKind): string
  {
    if kind == Image then "/images/" else "/videos/"
  }

  /** `files.map(file => ({ type, path: "/<dir>/" + file }))`. */
  function ToAssets(kind: MediaKind, files: seq<string>): (r: seq<Asset>)
    ensures |r| == |files|
    ensures forall k :: 0 <= k < |files| ==> r[k].kind == kind && r[k].path == Prefix(kind) + files[k]
  {
    seq(|files|, k requires 0 <= k < |files| => Asset(kind, Prefix(kind) + files[k]))
  }

  /** The file an asset was built from: its path without the directory prefix. */
  function FileName(a: Asset): (f: string)
  {
    var p := Prefix(a.kind);
    if |a.path| >= |p| && a.path[..|p|] == p then a.path[|p|..] else a.path
  }

  /** Building the assets and reading their file names back gives the listing again. */
  lemma {:induction false} FileNamesRoundTrip(kind: MediaKind, files: seq<string>)
    ensures var r := ToAssets(kind, files);
      |r| == |files| && forall k :: 0 <= k < |files| ==> r[k].kind == kind && FileName(r[k]) == files[k]
  {
    var r := ToAssets(kind, files);
    forall k | 0 <= k < |files| ensures FileName(r[k]) == files[k] {
      var p := Prefix(kind);
      assert r[k].path == p + files[k];
      assert r[k].path[..|p|] == p && r[k].path[|p|..] == files[k];
    }
  }

  /** Two different files of one kind give two different assets. */
  lemma ToAssetsInjective(kind: MediaKind, files: seq<string>, i: nat, j: nat)
    requires i < |files| && j < |files| && files[i] != files[j]
    ensures ToAssets(kind, files)[i] != ToAssets(kind, files)[j]
  {
    FileNamesRoundTrip(kind, files);
  }

  /** `[...images, ...videos]` before shuffling. */
  function Unshuffled(imageFiles: seq<string>, videoFiles: seq<string>): (r: seq<Asset>)
    ensures |r| == |imageFiles| + |videoFiles|
    ensures forall k :: 0 <= k < |imageFiles| ==> r[k] == Asset(Image, "/images/" + imageFiles[k])
    ensures forall k :: 0 <= k < |videoFiles| ==> r[|imageFiles| + k] == Asset(Video, "/videos/" + videoFiles[k])
  {
    ToAssets(Image, imageFiles) + ToAssets(Video, videoFiles)
  }

  /**
   * `getAssets()`: the shuffled images and videos, or the error of the first
   * `readdirSync` that throws (the images directory is read first).
   */
  method GetAssets(imageListing: Result<seq<string>>, videoListing: Result<seq<string>>, random: nat -> real)
    returns (r: Result<seq<Asset>>)
    requires Shuffle.IsRandomSource(random)
    ensures imageListing.Failure? ==> r == Failure(imageListing.error)
    ensures imageListing.Success? && videoListing.Failure? ==> r == Failure(videoListing.error)
    ensures imageListing.Success? && videoListing.Success? ==>
      r.Success? &&
      r.value == Shuffle.Shuffled(Unshuffled(imageListing.value, videoListing.value), random) &&
      multiset(r.value) == multiset(Unshuffled(imageListing.value, videoListing.value)) &&
      |r.value| == |imageListing.value| + |videoListing.value|
  {
    if imageListing.Failure? {
      return Failure(imageListing.error);
    }
    var images := ToAssets(Image, imageListing.value);
    if videoListing.Failure? {
      return Failure(videoListing.error);
    }
    var videos := ToAssets(Video, videoListing.value);
    var shuffled := Shuffle.ShuffleList(images + videos, random);
    Shuffle.ShuffledPermutes(images + videos, random);
    return Success(shuffled);
  }

  /** Every listed image and every listed video appears in the catalog exactly as often as it is listed. */
  lemma CatalogCountsListings(imageFiles: seq<string>, videoFiles: seq<string>, catalog: seq<Asset>, f: string)
    requires multiset(catalog) == multiset(Unshuffled(imageFiles, videoFiles))
    ensures multiset(catalog)[Asset(Image, "/images/" + f)] == multiset(imageFiles)[f]
    ensures multiset(catalog)[Asset(Video, "/videos/" + f)] == multiset(videoFiles)[f]
  {
    CountOfAssets(Image, imageFiles, f);
    CountOfAssets(Video, videoFiles, f);
    assert multiset(Unshuffled(imageFiles, videoFiles)) == multiset(ToAssets(Image, imageFiles)) + multiset(ToAssets(Video, videoFiles));
  }

  lemma ToAssetsCons(kind: MediaKind, files: seq<string>)
    requires files != []
    ensures ToAssets(kind, files) == [Asset(kind, Prefix(kind) + files[0])] + ToAssets(kind, files[1..])
  {
  }

  lemma PrefixCancels(p: string, x: string, y: string)
    ensures p + x == p + y <==> x == y
  {
    if p + x == p + y {
      assert (p + x)[|p|..] == x && (p + y)[|p|..] == y;
    }
  }

  /** The asset of `f` occurs in `ToAssets(kind, files)` as often as `f` in `files`, and no asset of another kind occurs. */
  lemma {:induction false} CountOfAssets(kind: MediaKind, files: seq<string>, f: string)
    ensures multiset(ToAssets(kind, files))[Asset(kind, Prefix(kind) + f)] == multiset(files)[f]
    ensures forall a :: a in multiset(ToAssets(kind, files)) ==> a.kind == kind
  {
    if files == [] {
      assert ToAssets(kind, files) == [];
    } else {
      var rest := files[1..];
      CountOfAssets(kind, rest, f);
      assert files == [files[0]] + rest;
      var head := Asset(kind, Prefix(kind) + files[0]);
      ToAssetsCons(kind, files);
      assert multiset(ToAssets(kind, files)) == multiset{head} + multiset(ToAssets(kind, rest));
      assert multiset(files) == multiset{files[0]} + multiset(rest);
      PrefixCancels(Prefix(kind), files[0], f);
    }
  }
}
