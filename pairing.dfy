/**
 * How the thumbnails the offline script writes are found again by the catalog.
 * The script names a thumbnail after `path.parse(file).name`. The catalog looks
 * for the file name with its last extension replaced by ".jpg". The two agree
 * exactly when the name has a non-empty stem before its extension.
 */
module ThumbnailPairing {
  import opened Wrappers
  import opened Strings
  import ViteCatalog
  import opened ThumbnailScript

  /** The catalog's media kind for a directory the script reads. */
  function KindOf(dir: Dir): (k: ViteCatalog.Kind)
    ensures k != ViteCatalog.Text
    ensures ViteCatalog.MediaDir(k) == DirName(dir)
  {
    if dir == Images then ViteCatalog.Image else ViteCatalog.Video
  }

  lemma ExtensionsAreDotFree(dir: Dir, e: string)
    requires e in (if dir == Images then ImageExtensions else VideoExtensions)
    ensures |e| >= 3 && '.' !in e
  {
  }

  /** A selected file ends in a dot followed by a non-empty, dot-free extension. */
  lemma SelectedHasExtension(dir: Dir, file: string)
    requires Selected(dir, file)
    ensures |file| >= 4 && ExtensionAt(file, LastIndexOf(file, '.'))
  {
    var e: string :| e in (if dir == Images then ImageExtensions else VideoExtensions) && EndsWithExtension(file, e);
    ExtensionsAreDotFree(dir, e);
    EndsWithExtensionAt(file, e);
  }

  /**
   * The generated thumbnail's name is the one the catalog looks for exactly when
   * the last '.' of the file name is not its first character.
   */
  lemma NamesAgreeExactlyWithStem(dir: Dir, file: string)
    requires Selected(dir, file) && '/' !in file
    ensures ReplaceExtension(file, ".jpg") == ParseName(file) + ".jpg" <==> LastIndexOf(file, '.') > 0
  {
    SelectedHasExtension(dir, file);
    var p := LastIndexOf(file, '.');
    assert ReplaceExtension(file, ".jpg") == file[..p] + ".jpg";
    if p == 0 {
      assert |ParseName(file) + ".jpg"| == |file| + 4;
    } else {
      assert |file| != 2;
      assert ParseName(file) == file[..p];
    }
  }

  /**
   * A file named only by its extension, such as ".png", is selected, but the script
   * names its thumbnail ".png.jpg" while the catalog looks for ".jpg".
   */
  lemma ExtensionOnlyNameDiverges()
    ensures IsImageToProcess(".png")
    ensures ParseName(".png") + ".jpg" == ".png.jpg"
    ensures ReplaceExtension(".png", ".jpg") == ".jpg"
  {
    assert EndsWithExtension(".png", "png") by {
      assert ".png"[1..] == "png";
      assert LowerString("png") == "png";
    }
    assert ImageExtensions[2] == "png";
    assert LastIndexOf(".png", '.') == 0;
    assert ReplaceExtension(".png", ".jpg") == ".jpg" by {
      assert ExtensionAt(".png", 0);
    }
  }

  /** The glob key of a file written under the public directory at `path`. */
  function PublicKey(path: string): string
  {
    "/public" + "/" + path
  }

  lemma PublicKeyOfThumbnail(kind: ViteCatalog.Kind, stem: string)
    requires kind != ViteCatalog.Text
    ensures PublicKey(ViteCatalog.ThumbnailPath(kind, stem)) == ViteCatalog.ThumbnailKey(kind, stem)
  {
  }

  /** A name split at its extension dot. */
  lemma SplitAtExtension(file: string, p: int)
    requires ExtensionAt(file, p)
    ensures file == file[..p] + "." + file[p + 1..]
    ensures file[p + 1..] != [] && '.' !in file[p + 1..]
  {
    assert file == file[..p] + [file[p]] + file[p + 1..];
    var ext := file[p + 1..];
    forall q | 0 <= q < |ext| ensures ext[q] != '.' {
      assert ext[q] == file[p + 1 + q];
    }
  }

  /**
   * A thumbnail the script wrote for a file with a stem, once it is in the catalog's
   * thumbnail keys as `/public/<output>` and no earlier key matches, becomes that
   * file's `thumbnailPath` `/<output>`.
   */
  lemma GeneratedThumbnailIsFound(dir: Dir, file: string, key: string, thumbnailKeys: seq<string>, k: nat)
    requires Selected(dir, file) && '/' !in file && LastIndexOf(file, '.') > 0
    requires LastSegment(key) == file
    requires k < |thumbnailKeys| && thumbnailKeys[k] == PublicKey(JobFor(dir, file).output)
    requires forall m :: 0 <= m < k ==>
      !Contains(thumbnailKeys[m], ViteCatalog.ThumbnailNeedle(KindOf(dir), file))
    ensures ViteCatalog.MediaAsset(KindOf(dir), key, thumbnailKeys).thumbnailPath == Some("/" + JobFor(dir, file).output)
  {
    SelectedHasExtension(dir, file);
    var p := LastIndexOf(file, '.');
    var stem := file[..p];
    var ext := file[p + 1..];
    SplitAtExtension(file, p);
    assert |file| != 2;
    assert ParseName(file) == stem;
    assert JobFor(dir, file).output == ViteCatalog.ThumbnailPath(KindOf(dir), stem);
    PublicKeyOfThumbnail(KindOf(dir), stem);
    ViteCatalog.ThumbnailPairedByStem(KindOf(dir), key, stem, ext, thumbnailKeys, k);
  }
}
