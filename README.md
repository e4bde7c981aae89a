# Memorial gallery: catalog, lightbox and thumbnail naming

This project is a Dafny model of the sequential logic of a small memorial gallery site.
It covers four pieces:

- **Vite catalog** (`src/utils/get-assets.ts`, module `ViteCatalog`). The glob keys of
  `/public/images`, `/public/videos` and `/public/thumbnails` become image and video assets.
  A media file's thumbnail is the first thumbnail key that contains
  `thumbnails/<dir>/<name with its last extension replaced by .jpg>`, with its first
  `/public` removed. The English and Chinese tribute texts become text assets whose path
  is built by `getPublicPath`. Each locale's catalog is images, then videos, then that
  locale's texts, shuffled.
- **Server catalog** (`app/utils/get-assets.ts`, module `ServerCatalog`). Every file listed
  in `public/images` and `public/videos` becomes an image or video asset, and the merged
  list is shuffled.
- **Shuffle** (module `Shuffle`). Both catalog files contain the same `shuffleArray`, so it
  is modelled once. It is a Fisher–Yates shuffle on a fresh copy of the array. `Math.random`
  is an oracle `random: nat -> real`: call number `t` answers `random(t)`, a value in
  `[0, 1)`. The method runs on an `array` with a `while` loop. It is proved to compute
  `Shuffled`, a recursive specification of the same steps, and `Shuffled` is proved to be a
  permutation.
- **Lightbox** (`components/client-content.tsx`, module `Lightbox`). The modal state
  `{isOpen, currentIndex}` is a class over a catalog that never changes (a `const` field).
  It has the click, close and navigate handlers, the wrap-around index arithmetic with
  JavaScript's truncating `%`, and the fallbacks for the modal's `src` and `type`.
- **Thumbnail script** (`scripts/generate-thumbnails.ts`, module `ThumbnailScript`). This is
  `main` with its two `for` loops. It covers which listed files get a thumbnail, what each
  thumbnail is called, and which errors stop the run. The `sharp` and `ffmpeg` calls are
  oracles `Job -> Option<string>` that give the error a call throws, if any.
- **Pairing** (module `ThumbnailPairing`). This connects the script's output names to the
  catalog's thumbnail lookup.

The module `Strings` states the JavaScript string operations the code relies on, each in
its own terms:

| JavaScript | Dafny function |
|---|---|
| `split('/').pop()` | `LastSegment` |
| `includes` | `Contains` |
| `replace('/public', '')` | `RemoveFirst` |
| `replace(/\.[^.]+$/, '.jpg')` | `ReplaceExtension` |
| `replace(/\/$/, '')` | `TrimTrailingSlash` |
| `replace(/^\//, '')` | `TrimLeadingSlash` |
| the `/i` flag | `LowerString` |
| `path.parse(name).name` | `ParseName` |

`Wrappers` holds `Option` and `Result`.

Directory listings, glob keys and imported JSON contents are inputs. A listing that throws
is a `Failure`.

## Model

| member | source | states |
|---|---|---|
| Strings.LastIndexOf | src/utils/get-assets.ts:44 | the result is -1 or an index holding the character, and no later index holds it |
| Strings.LastSegment | src/utils/get-assets.ts:44 | `split('/').pop()`: the result has no '/', is a suffix of the key, and is preceded by '/' when shorter than the key |
| Strings.LastSegmentOfJoin | src/utils/get-assets.ts:44 | the last segment of `prefix/name` is `name` when `name` has no '/' |
| Strings.IndexOfFrom | src/utils/get-assets.ts:46 | the first occurrence of the pattern at or after `from`, or -1 when there is none |
| Strings.IndexOf | src/utils/get-assets.ts:46 | `indexOf`: the first occurrence of the pattern, or -1 when it does not occur |
| Strings.Contains | src/utils/get-assets.ts:46 | definition, no contract: `includes` is the pattern occurring at some index; stated by ContainsAt and IndexOf |
| Strings.ContainsAt | src/utils/get-assets.ts:46 | an occurrence at any index makes `includes` true |
| Strings.RemoveFirst | src/utils/get-assets.ts:51 | `replace(pat, '')` removes exactly the first occurrence, and leaves a string without one unchanged |
| Strings.RemoveFirstOfPrefix | src/utils/get-assets.ts:51 | removing `/public` from `/public` + rest gives rest |
| Strings.TrimTrailingSlash | src/utils/get-assets.ts:26 | one trailing '/' is removed exactly when there is one |
| Strings.TrimLeadingSlash | src/utils/get-assets.ts:26 | one leading '/' is removed exactly when there is one |
| Strings.ReplaceExtension | src/utils/get-assets.ts:46 | where `/\.[^.]+$/` matches at p the result is `s[..p]` + replacement; with no match, `s` is unchanged |
| Strings.ReplaceExtensionOf | src/utils/get-assets.ts:46 | `stem.ext` with a dot-free, non-empty `ext` becomes `stem` + replacement |
| Strings.ExtensionAtIsLastDot | src/utils/get-assets.ts:46 | the dot where the extension pattern matches is the last dot of the name |
| Strings.EndsWithExtensionAt | scripts/generate-thumbnails.ts:68 | a name matching `\.ext$` with a dot-free `ext` has its last dot right before `ext`, and the extension pattern matches there |
| Strings.ToLower | scripts/generate-thumbnails.ts:68 | ASCII upper-case letters map to lower case, and every other character is unchanged |
| Strings.LowerString | scripts/generate-thumbnails.ts:68 | the string lowered character by character, with its length kept |
| Strings.LowerStringIdempotent | scripts/generate-thumbnails.ts:68 | lowering twice is lowering once |
| Strings.EndsWithExtensionIgnoresCase | scripts/generate-thumbnails.ts:68 | the `/i` extension test gives the same answer for a name and its lower-case form |
| Strings.ParseName | scripts/generate-thumbnails.ts:70 | `path.parse(name).name`: the whole name when no dot follows its first character and for ".."; otherwise the part before its last dot |
| Shuffle.Pick | src/utils/get-assets.ts:18 | `Math.floor(r * (i + 1))` for r in [0, 1) is a partner in [0, i] |
| Shuffle.ScaleBelow | src/utils/get-assets.ts:18 | r * (i + 1) lies in [0, i + 1) for r in [0, 1) |
| Shuffle.Swap | src/utils/get-assets.ts:19 | the destructuring swap exchanges positions i and j and leaves the others and the length unchanged |
| Shuffle.SwapPermutes | src/utils/get-assets.ts:19 | a swap keeps the multiset of elements |
| Shuffle.ShuffleStep | src/utils/get-assets.ts:17-19 | one loop step i is a swap of i with its picked partner, then steps i - 1 down to 1 |
| Shuffle.ShuffleFrom | src/utils/get-assets.ts:17-19 | definition, no contract: loop steps i down to 1, each a swap with the picked partner; stated by ShuffleStep and ShuffleFromPermutes |
| Shuffle.Shuffled | src/utils/get-assets.ts:15-22 | definition, no contract: the steps from the last index down to 1; stated by ShuffledPermutes and ShuffledSameMembers |
| Shuffle.ShuffleFromPermutes | src/utils/get-assets.ts:17-19 | the remaining steps keep the length and the multiset |
| Shuffle.ShuffledPermutes | src/utils/get-assets.ts:15-22 | the shuffle returns a permutation of its input: the same length and the same multiset |
| Shuffle.ShortIsUnchanged | src/utils/get-assets.ts:17 | arrays of length 0 or 1 come back unchanged |
| Shuffle.ShuffledSameMembers | src/utils/get-assets.ts:15-22 | an element is in the shuffled list exactly when it is in the input |
| Shuffle.CopyOf | src/utils/get-assets.ts:16 | `[...array]` is a fresh array with the same elements |
| Shuffle.SwapElements | src/utils/get-assets.ts:19 | the in-place swap leaves the array equal to `Swap` of its old contents |
| Shuffle.ShuffleIteration | src/utils/get-assets.ts:18-19 | one pass of the loop body swaps i with `Pick(random(t), i)` and leaves steps i - 1 down to 1 |
| Shuffle.ShuffleArray | src/utils/get-assets.ts:15-22 | the result is a fresh array equal to `Shuffled` of the input and a permutation of it; the argument is not modified |
| Shuffle.ShuffleList | app/utils/get-assets.ts:10-17 | shuffling a list built into an array gives `Shuffled` of that list, a permutation of it |
| ViteCatalog.GetPublicPath | src/utils/get-assets.ts:24-27 | the result is the base without one trailing '/', then a single '/', then the path without one leading '/' (stated by its length and its three parts) |
| ViteCatalog.PublicPathJoinsWithOneSlash | src/utils/get-assets.ts:24-27 | a base and a path with at most one slash each at the join are joined by exactly one slash |
| ViteCatalog.FirstContaining | src/utils/get-assets.ts:45-47 | `find`: the first key containing the needle, or -1 when no key contains it |
| ViteCatalog.FirstContainingAt | src/utils/get-assets.ts:45-47 | a key that contains the needle, preceded by none that does, is the one `find` returns |
| ViteCatalog.FindThumbnail | src/utils/get-assets.ts:45-51 | none exactly when no thumbnail key contains `thumbnails/<dir>/<name>.jpg`; otherwise the first such key with its first `/public` removed |
| ViteCatalog.ThumbnailNeedle | src/utils/get-assets.ts:46 | definition, no contract: `thumbnails/<dir>/` + the file name with its extension replaced by `.jpg`; stated by NeedleOfStem |
| ViteCatalog.NeedleOfStem | src/utils/get-assets.ts:46 | for `stem.ext` with a non-empty, dot-free `ext`, the needle is `thumbnails/<dir>/stem.jpg` |
| ViteCatalog.MediaAsset | src/utils/get-assets.ts:43-65 | an image or video asset has its kind, the path `/<dir>/` + last segment of its key, the thumbnail lookup's result and no content |
| ViteCatalog.MediaPathNamesFile | src/utils/get-assets.ts:50-62 | the asset path's last segment is the key's last segment |
| ViteCatalog.ThumbnailKeyMatches | src/utils/get-assets.ts:46-51 | the key `/public/thumbnails/<dir>/stem.jpg` contains the needle of `stem`, and removing `/public` gives `/thumbnails/<dir>/stem.jpg` |
| ViteCatalog.ThumbnailPairedByStem | src/utils/get-assets.ts:45-51 | a media file `stem.ext` whose first matching key is `/public/thumbnails/<dir>/stem.jpg` gets the thumbnail `/thumbnails/<dir>/stem.jpg`, whatever its extension |
| ViteCatalog.MediaAssets | src/utils/get-assets.ts:43-55 | one asset per glob key, in key order |
| ViteCatalog.TextAsset | src/utils/get-assets.ts:67-88 | a text asset has kind text, no thumbnail, the imported content and the path `getPublicPath("text/<locale>/" + last segment)` |
| ViteCatalog.TextAssets | src/utils/get-assets.ts:67-88 | one text asset per text module, in order |
| ViteCatalog.Unshuffled | src/utils/get-assets.ts:90-91 | images, videos, then texts; only text assets carry content, and the text members are exactly the locale's text assets |
| ViteCatalog.Media | src/utils/get-assets.ts:90-91 | the image and video members of a catalog, counted with their multiplicity |
| ViteCatalog.MediaOfPermutation | src/utils/get-assets.ts:90-91 | a permutation has the same image and video members |
| ViteCatalog.MediaIgnoresTexts | src/utils/get-assets.ts:90-91 | appending text assets adds no image or video member |
| ViteCatalog.PermutedCatalog | src/utils/get-assets.ts:90-91 | a permutation of a catalog keeps the content-only-on-texts rule |
| ViteCatalog.GetAssets | src/utils/get-assets.ts:29-94 | each locale's catalog is the shuffle of its images, videos and texts and a permutation of them; only texts carry content; both catalogs hold the same image and video entries |
| ServerCatalog.ToAssets | app/utils/get-assets.ts:23-34 | each listed file f becomes exactly an asset of the given kind with path `/<dir>/` + f, one per file, in order |
| ServerCatalog.FileNamesRoundTrip | app/utils/get-assets.ts:23-34 | reading the file name back from each asset gives the listing again |
| ServerCatalog.ToAssetsInjective | app/utils/get-assets.ts:23-34 | different files give different assets |
| ServerCatalog.Unshuffled | app/utils/get-assets.ts:36 | `[...images, ...videos]`: one asset per listed file, the images first in listing order and then the videos |
| ServerCatalog.GetAssets | app/utils/get-assets.ts:19-37 | a failing images listing, then a failing videos listing, is the error; otherwise the result is the shuffle of images ++ videos, a permutation of it, of length #images + #videos |
| ServerCatalog.CatalogCountsListings | app/utils/get-assets.ts:23-36 | a permuted catalog holds each listed image and each listed video exactly as often as it is listed |
| ServerCatalog.ToAssetsCons | app/utils/get-assets.ts:24-27 | the mapping of a non-empty listing is the head's asset followed by the mapping of the rest |
| ServerCatalog.PrefixCancels | app/utils/get-assets.ts:26-33 | two paths with the same directory prefix are equal exactly when their file names are |
| ServerCatalog.CountOfAssets | app/utils/get-assets.ts:24-34 | a file's asset occurs as often as the file is listed, and every asset has the listing's kind |
| Lightbox.JsRemainder | components/client-content.tsx:35-36 | JavaScript's `%` truncates toward zero: the result lies strictly between -n and n, is non-negative for a non-negative dividend and non-positive for a non-positive one, and differs from the dividend by a multiple of n |
| Lightbox.JsRemainderOfNonNegative | components/client-content.tsx:35-36 | on a non-negative dividend, JavaScript's `%` agrees with the mathematical remainder |
| Lightbox.JsRemainderOfNegation | components/client-content.tsx:35-36 | negating the dividend negates JavaScript's remainder |
| Lightbox.ModUnique | components/client-content.tsx:35-36 | `a = q * n + r` with 0 ≤ r < n fixes `a % n = r` |
| Lightbox.ModShift | components/client-content.tsx:35-36 | adding n does not change a remainder mod n |
| Lightbox.StepRemainders | components/client-content.tsx:35-36 | from a valid index, `(index + 1) % n` and `(index - 1 + n) % n` are the next index with wrap-around |
| Lightbox.NavigateIndex | components/client-content.tsx:33-38 | next moves to index + 1 and wraps from n - 1 to 0; prev moves to index - 1 and wraps from 0 to n - 1; the result stays in [0, n) |
| Lightbox.NavigateBackReturns | components/client-content.tsx:34-36 | next then prev, and prev then next, return to the starting index |
| Lightbox.NavigateAllInRange | components/client-content.tsx:34-36 | any sequence of navigations from a valid index stays in [0, n) |
| Lightbox.RepeatedNext | components/client-content.tsx:34-35 | k presses of next from index land on (index + k) mod n |
| Lightbox.NextCycleCloses | components/client-content.tsx:34-35 | n presses of next return to the starting index |
| Lightbox.ModalSrc | components/client-content.tsx:60 | the modal's `src` is the current asset's path, or "" when the index is out of range |
| Lightbox.ModalType | components/client-content.tsx:61 | the modal's `type` is the current asset's kind, or image when the index is out of range |
| Lightbox.ClientContent.constructor | components/client-content.tsx:11-16 | the initial state is closed at index 0 over the given assets, which never change afterwards |
| Lightbox.ClientContent.HandleItemClick | components/client-content.tsx:25-27 | clicking tile i opens the modal at i |
| Lightbox.ClientContent.HandleCloseModal | components/client-content.tsx:29-31 | closing sets `isOpen` to false and keeps the index |
| Lightbox.ClientContent.HandleNavigate | components/client-content.tsx:33-38 | the index becomes `NavigateIndex` of the old one, which stays in [0, N), and `isOpen` is unchanged |
| Lightbox.ValidStateShowsAsset | components/client-content.tsx:60-61 | in any reachable state over a non-empty catalog the modal shows the current asset, never the fallback |
| Lightbox.EmptyCatalogFallsBack | components/client-content.tsx:60-61 | over an empty catalog the modal gets `src = ""` and `type = "image"` |
| ThumbnailScript.SelectionIgnoresCase | scripts/generate-thumbnails.ts:68-84 | an image or a video is selected exactly when its lower-case name is |
| ThumbnailScript.IsImageToProcess | scripts/generate-thumbnails.ts:68 | definition, no contract: some extension of jpg, jpeg, png, webp ends the name after a dot, ignoring case |
| ThumbnailScript.IsVideoToProcess | scripts/generate-thumbnails.ts:79-84 | definition, no contract: the name is not ".DS_Store" and some extension of mp4, webm, mov ends it after a dot, ignoring case |
| ThumbnailScript.InputPath | scripts/generate-thumbnails.ts:69-85 | definition, no contract: `<dir>/` + the listed name; its meaning is stated by InputPathParts |
| ThumbnailScript.InputPathParts | scripts/generate-thumbnails.ts:69-85 | the input path is the seven characters `<dir>/` followed by the listed name, unchanged |
| ThumbnailScript.InputsDiffer | scripts/generate-thumbnails.ts:69-85 | no input path under images/ equals one under videos/ |
| ThumbnailScript.DirName | scripts/generate-thumbnails.ts:65-77 | a directory name has six letters and starts with 'i' for the images and 'v' for the videos, so the two never coincide |
| ThumbnailScript.OutputPath | scripts/generate-thumbnails.ts:70-86 | definition, no contract: `thumbnails/<dir>/` + `path.parse(file).name` + `.jpg`; its meaning is stated by OutputPathIsJpegOfStem |
| ThumbnailScript.OutputPathIsJpegOfStem | scripts/generate-thumbnails.ts:70-86 | the output always ends in `.jpg`; a name without a dot is kept whole, and a name whose extension starts at p > 0 gives `thumbnails/<dir>/` + name[..p] + `.jpg` |
| ThumbnailScript.Jobs | scripts/generate-thumbnails.ts:67-95 | the jobs of the selected files, in listing order, never more than the files |
| ThumbnailScript.JobsExactlySelected | scripts/generate-thumbnails.ts:68-84 | a file gets a thumbnail job exactly when it is listed and its name passes the directory's filter |
| ThumbnailScript.JobsInListingOrder | scripts/generate-thumbnails.ts:67-83 | the jobs of a concatenated listing are the concatenation of the jobs |
| ThumbnailScript.ImageLoop | scripts/generate-thumbnails.ts:67-74 | without an error every selected image is generated in order; an error ends the loop at the failing image, which is the last one attempted, and all before it are generated; every generated image had no error |
| ThumbnailScript.ImageLoopFollowsListing | scripts/generate-thumbnails.ts:67-74 | the images attempted are always the first jobs of the listing, in listing order |
| ThumbnailScript.ImageFailureStops | scripts/generate-thumbnails.ts:71 | once an image has failed, the later files change nothing |
| ThumbnailScript.VideoLoop | scripts/generate-thumbnails.ts:83-95 | every selected video is attempted, and a video is generated exactly when its transcoding succeeds |
| ThumbnailScript.GenerateImageThumbnails | scripts/generate-thumbnails.ts:67-74 | the image `for` loop computes `ImageLoop` and stops at the first failure |
| ThumbnailScript.GenerateVideoThumbnails | scripts/generate-thumbnails.ts:83-95 | the video `for` loop, with its per-video `try`, computes `VideoLoop` |
| ThumbnailScript.GenerateThumbnails | scripts/generate-thumbnails.ts:55-101 | `main()` computes `ExpectedRun`: images first, then videos in their own `try`, with the image errors reaching `main().catch` |
| ThumbnailScript.ExpectedRun | scripts/generate-thumbnails.ts:55-101 | definition, no contract: the images listing, then the image loop, then the videos listing and the video loop inside their `try`; stated by the lemmas below |
| ThumbnailScript.ImageListingFailureRejects | scripts/generate-thumbnails.ts:66-101 | a failed images listing reaches `main().catch`, and nothing is attempted |
| ThumbnailScript.ImageFailureRejects | scripts/generate-thumbnails.ts:67-101 | a failing image rejects `main()` with its error; the jobs attempted are a non-empty prefix of the listing's jobs ending at the failing one, so no video is attempted |
| ThumbnailScript.VideoListingFailureIsCaught | scripts/generate-thumbnails.ts:78-98 | a failed videos listing is caught: the run completes with all image thumbnails |
| ThumbnailScript.VideoFailuresAreIsolated | scripts/generate-thumbnails.ts:88-93 | after the images, every selected video is attempted whatever the others do, and it is generated exactly when its own transcoding succeeds |
| ThumbnailScript.VideoJobIsNoImageJob | scripts/generate-thumbnails.ts:67-86 | a video's job is never among the image jobs, so no image result stands in for it |
| ThumbnailScript.JobsReadFrom | scripts/generate-thumbnails.ts:67-86 | every job of a directory is the job of some listed name that the directory's filter selects |
| ThumbnailPairing.KindOf | src/utils/get-assets.ts:46-58 | the script's directory and the catalog's media kind name the same thumbnail directory |
| ThumbnailPairing.ExtensionsAreDotFree | scripts/generate-thumbnails.ts:68-84 | every accepted extension is at least three characters long and has no dot |
| ThumbnailPairing.SelectedHasExtension | scripts/generate-thumbnails.ts:68-84 | a selected file's last dot is followed by its extension, which the catalog's pattern matches |
| ThumbnailPairing.SplitAtExtension | src/utils/get-assets.ts:46 | a name splits at its extension dot into stem, '.' and a non-empty, dot-free extension |
| ThumbnailPairing.NamesAgreeExactlyWithStem | scripts/generate-thumbnails.ts:70-86 | for a selected file, the script's `<stem>.jpg` equals the catalog's looked-up name exactly when the last dot is not the first character |
| ThumbnailPairing.ExtensionOnlyNameDiverges | scripts/generate-thumbnails.ts:68-70 | ".png" is selected, but the script writes ".png.jpg" while the catalog looks for ".jpg" |
| ThumbnailPairing.PublicKeyOfThumbnail | src/utils/get-assets.ts:34 | a thumbnail written at `thumbnails/<dir>/stem.jpg` has the glob key `/public/thumbnails/<dir>/stem.jpg` |
| ThumbnailPairing.GeneratedThumbnailIsFound | src/utils/get-assets.ts:45-51 | a thumbnail the script wrote for a file with a stem, once it is the first matching glob key, becomes that file's `thumbnailPath` `/` + output |

## Left out

- Floating point: `Math.random() * (i + 1)` is computed on exact reals. The rounding of the double product is not modelled. The distribution of `Math.random` and the uniformity of the shuffle are not modelled either: the oracle is any sequence of values in [0, 1).
- Shuffle.ShuffleArray: the draws are `random(0)`, `random(1)`, … within one call. Two calls, such as the English and Chinese shuffles, take separate oracles rather than one shared stream.
- Image transcoding (`sharp`'s rotate, resize and jpeg encoding) and the `ffmpeg` screenshot are library calls. They are modelled only by whether they throw. `ensureDir`, whose errors would also reach `main().catch`, and all console logging are left out.
- File-system and bundler access (`fs.readdir`, `readdirSync`, `import.meta.glob`, the dynamic JSON imports) is given as input sequences. A failing dynamic import in `src/utils/get-assets.ts` is not modelled, since JSON parsing happens in the bundler. `process.cwd()` and absolute paths are left out; paths are relative to the public directory.
- ServerCatalog.GetAssets: a missing `public/images` or `public/videos` directory makes `readdirSync` throw, and `getAssets` does not catch it. The model propagates that error; it does not treat the directory as empty.
- Lightbox.ClientContent.HandleItemClick: requires a tile index in range, because only the grid's tiles call it, with their own indices.
- Lightbox.ClientContent.HandleNavigate: requires a non-empty catalog, because the navigation buttons exist only in the open modal, and the modal opens only from a tile. With no assets, `% 0` would give NaN, which the model does not represent.
- ThumbnailPairing.NamesAgreeExactlyWithStem: the script's output name and the catalog's lookup agree only when the name has a stem. For a name such as ".png", `path.parse` keeps the whole name and the script writes ".png.jpg", while the catalog looks for ".jpg" (ThumbnailPairing.ExtensionOnlyNameDiverges).
- Rendering is not part of this model: the grid, the modal component, animations, the modal's `direction` state and the video-visibility toggle (`showVideo`). Neither is the wiring in `src/App.tsx` and `app/page.tsx`.
- Prefetching of neighbouring items, text tiles in the grid or modal, and per-locale toggling do not occur in this code.
- Concurrency: the async functions run their awaits in sequence. The `Promise.all` over the text imports is modelled as a map in key order, which is the order `Promise.all` returns.
