/**
 * The wallpaper catalog: one pass over the entries of a single folder that
 * keeps the regular files whose extension is one of the four image
 * extensions, compared exactly (no case folding), and fails when nothing
 * was kept.
 *
 * The folder listing is an input sequence of entries in iteration order; the
 * path, the regular-file flag and the extension of each entry are what the
 * filesystem library reports for it.
 */
module WallpaperCatalog {

  /** One directory entry as the folder iterator yields it. */
  datatype DirEntry = DirEntry(path: string, isRegularFile: bool, extension: string)

  /** The error the scan raises when the folder holds no wallpaper. */
  datatype ScanError = NoWallpapersFound

  datatype Result<T> = Ok(value: T) | Err(error: ScanError)

  /** The four accepted extensions, compared character by character. */
  predicate IsImageExtension(ext: string)
  {
    ext == ".jpg" || ext == ".jpeg" || ext == ".png" || ext == ".bmp"
  }

  /** An entry the scan keeps. */
  predicate IsWallpaper(e: DirEntry)
  {
    e.isRegularFile && IsImageExtension(e.extension)
  }

  /** What one entry contributes to the catalog: its path, or nothing. */
  function Contribution(e: DirEntry): seq<string>
  {
    if IsWallpaper(e) then [e.path] else []
  }

  /** The catalog a scan of `entries` builds, in iteration order. */
  function KeptPaths(entries: seq<DirEntry>): seq<string>
  {
    if entries == [] then []
    else KeptPaths(entries[..|entries| - 1]) + Contribution(entries[|entries| - 1])
  }

  /** The positions, within `entries`, of the entries the scan keeps. */
  ghost function KeptIndices(entries: seq<DirEntry>): seq<nat>
  {
    if entries == [] then []
    else
      var last := |entries| - 1;
      KeptIndices(entries[..last]) + (if IsWallpaper(entries[last]) then [last] else [])
  }

  ghost predicate StrictlyIncreasing(idx: seq<nat>)
  {
    forall k, l :: 0 <= k < l < |idx| ==> idx[k] < idx[l]
  }

  /**
   * The catalog is the order-preserving subsequence of the entries that pass
   * the filter: its k-th path is the path of the k-th kept entry, the kept
   * positions increase, and a position is kept exactly when its entry is a
   * regular file with an image extension.
   */
  lemma {:induction false} KeptPathsIsFilteredSubsequence(entries: seq<DirEntry>)
    ensures |KeptIndices(entries)| == |KeptPaths(entries)|
    ensures StrictlyIncreasing(KeptIndices(entries))
    ensures forall k :: 0 <= k < |KeptIndices(entries)| ==>
              KeptIndices(entries)[k] < |entries| &&
              KeptPaths(entries)[k] == entries[KeptIndices(entries)[k]].path
    ensures forall i :: 0 <= i < |entries| ==>
              (i in KeptIndices(entries) <==> IsWallpaper(entries[i]))
  {
    if entries != [] {
      var last := |entries| - 1;
      var prefix := entries[..last];
      KeptPathsIsFilteredSubsequence(prefix);
      assert forall i :: 0 <= i < last ==> entries[i] == prefix[i];
    }
  }

  /** Some entry of the listing passes the filter. */
  ghost predicate HasWallpaper(entries: seq<DirEntry>)
  {
    exists i :: 0 <= i < |entries| && IsWallpaper(entries[i])
  }

  /** Some entry with path `p` passes the filter. */
  ghost predicate IsWallpaperPath(entries: seq<DirEntry>, p: string)
  {
    exists i :: 0 <= i < |entries| && IsWallpaper(entries[i]) && entries[i].path == p
  }

  /**
   * A path is in the catalog iff some entry with that path passes the filter:
   * every catalog path comes from a kept entry, and every kept entry's path is
   * in the catalog.
   */
  lemma {:induction false} KeptPathsMembership(entries: seq<DirEntry>)
    ensures forall k :: 0 <= k < |KeptPaths(entries)| ==> IsWallpaperPath(entries, KeptPaths(entries)[k])
    ensures forall i :: 0 <= i < |entries| && IsWallpaper(entries[i]) ==> entries[i].path in KeptPaths(entries)
  {
    KeptPathsIsFilteredSubsequence(entries);
    var idx := KeptIndices(entries);
    forall k | 0 <= k < |KeptPaths(entries)|
      ensures IsWallpaperPath(entries, KeptPaths(entries)[k])
    {
      var i := idx[k];
      assert i in idx;
      assert 0 <= i < |entries| && IsWallpaper(entries[i]) && entries[i].path == KeptPaths(entries)[k];
    }
    forall i | 0 <= i < |entries| && IsWallpaper(entries[i])
      ensures entries[i].path in KeptPaths(entries)
    {
      var k :| 0 <= k < |idx| && idx[k] == i;
      assert KeptPaths(entries)[k] == entries[i].path;
    }
  }

  /** One catalog path per kept entry, so never more paths than entries. */
  lemma {:induction false} KeptPathsLength(entries: seq<DirEntry>)
    ensures |KeptPaths(entries)| <= |entries|
  {
    if entries != [] {
      KeptPathsLength(entries[..|entries| - 1]);
    }
  }

  /** The catalog is empty exactly when no entry passes the filter. */
  lemma {:induction false} KeptPathsEmpty(entries: seq<DirEntry>)
    ensures KeptPaths(entries) == [] <==> forall i :: 0 <= i < |entries| ==> !IsWallpaper(entries[i])
  {
    if entries != [] {
      var last := |entries| - 1;
      var prefix := entries[..last];
      KeptPathsEmpty(prefix);
      assert KeptPaths(entries) == KeptPaths(prefix) + Contribution(entries[last]);
      assert Contribution(entries[last]) == [] <==> !IsWallpaper(entries[last]);
      assert forall i :: 0 <= i < last ==> entries[i] == prefix[i];
    }
  }

  /** Each entry is judged on its own: scanning two listings back to back is scanning their concatenation. */
  lemma {:induction false} KeptPathsAppend(a: seq<DirEntry>, b: seq<DirEntry>)
    ensures KeptPaths(a + b) == KeptPaths(a) + KeptPaths(b)
  {
    if b == [] {
      assert a + b == a;
    } else {
      var last := |b| - 1;
      KeptPathsAppend(a, b[..last]);
      assert (a + b)[..|a + b| - 1] == a + b[..last];
      assert (a + b)[|a + b| - 1] == b[last];
      assert KeptPaths(b) == KeptPaths(b[..last]) + Contribution(b[last]);
    }
  }

  /** The comparison is exact: upper- or mixed-case spellings of an image extension are rejected. */
  lemma ExtensionMatchIsCaseSensitive()
    ensures IsImageExtension(".jpg") && IsImageExtension(".jpeg")
    ensures IsImageExtension(".png") && IsImageExtension(".bmp")
    ensures !IsImageExtension(".JPG") && !IsImageExtension(".Jpeg")
    ensures !IsImageExtension(".PNG") && !IsImageExtension(".BMP")
  {
    assert ".JPG"[1] != ".jpg"[1];
    assert ".Jpeg"[1] != ".jpeg"[1];
    assert ".PNG"[1] != ".png"[1];
    assert ".BMP"[1] != ".bmp"[1];
  }

  /** Extending the listing by one entry extends the catalog by that entry's contribution. */
  lemma KeptPathsStep(entries: seq<DirEntry>, i: nat)
    requires i < |entries|
    ensures KeptPaths(entries[..i + 1]) == KeptPaths(entries[..i]) + Contribution(entries[i])
  {
    assert entries[..i + 1][..i] == entries[..i];
  }

  /**
   * A listing with an upper-case extension, a non-regular entry named like an
   * image and a text file keeps only the two lower-case image files, in
   * listing order.
   */
  lemma MixedFolderExample(a: string, b: string, c: string, d: string, e: string)
    ensures KeptPaths([DirEntry(a, true, ".jpg"), DirEntry(b, true, ".JPG"),
                       DirEntry(c, false, ".png"), DirEntry(d, true, ".txt"),
                       DirEntry(e, true, ".bmp")])
            == [a, e]
  {
    var listing := [DirEntry(a, true, ".jpg"), DirEntry(b, true, ".JPG"),
                    DirEntry(c, false, ".png"), DirEntry(d, true, ".txt"),
                    DirEntry(e, true, ".bmp")];
    assert Contribution(listing[1]) == [] by { ExtensionMatchIsCaseSensitive(); }
    assert Contribution(listing[3]) == [] by {
      assert ".txt"[1] != ".jpg"[1] && ".txt"[1] != ".jpeg"[1] && ".txt"[1] != ".bmp"[1];
      assert ".txt"[2] != ".png"[2];
    }
    assert listing[..0] == [];
    KeptPathsStep(listing, 0);
    KeptPathsStep(listing, 1);
    KeptPathsStep(listing, 2);
    KeptPathsStep(listing, 3);
    KeptPathsStep(listing, 4);
    assert listing[..5] == listing;
  }

  /**
   * Scans the folder listing `entries`: collects, in order, the path of every
   * regular file with an image extension, and fails with NoWallpapersFound
   * when there is none.
   */
  method GetFilesPathsFromFolder(entries: seq<DirEntry>) returns (r: Result<seq<string>>)
    ensures r.Ok? ==> r.value == KeptPaths(entries) && r.value != []
    ensures r.Err? ==> r.error == NoWallpapersFound
    ensures r.Ok? <==> HasWallpaper(entries)
  {
    var wallpapers: seq<string> := [];
    for i := 0 to |entries|
      invariant wallpapers == KeptPaths(entries[..i])
    {
      var entry := entries[i];
      if entry.isRegularFile {
        var ext := entry.extension;
        if ext == ".jpg" || ext == ".jpeg" || ext == ".png" || ext == ".bmp" {
          wallpapers := wallpapers + [entry.path];
        }
      }
      KeptPathsStep(entries, i);
    }
    assert entries[..|entries|] == entries;
    KeptPathsEmpty(entries);
    if wallpapers == [] {
      return Err(NoWallpapersFound);
    }
    return Ok(wallpapers);
  }
}
