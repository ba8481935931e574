# Random wallpaper picker — Dafny model

This project models the selection logic of `WallpRandomTest01.cpp`, a
Windows program that sets a random image from one folder as the wallpaper of
each connected monitor. The logic has two steps:

- **Catalog scan** (`GetFilesPathsFromFolder`). The program walks the entries
  of one folder, one level deep and in iteration order. It keeps the path of
  every regular file whose extension is exactly `.jpg`, `.jpeg`, `.png` or
  `.bmp`. It throws "No wallpapers found in folder." when nothing was kept.
- **Random selection** (`GetRandomWallpapers`). The program builds the
  catalog first, so an empty folder is an error even when `count` is 0. It
  then makes `count` independent draws of an index in `[0, size() - 1]` and
  appends the path at each drawn index. Draws may repeat.

Modelling choices:

- The folder listing is an input `seq<DirEntry>`. Each entry carries its path,
  whether it is a regular file, and its extension as the filesystem library
  reports it.
- The exception becomes `Result.Err(NoWallpapersFound)`.
  `GetRandomWallpapers` propagates it.
- The random generator is modelled only as "some index in `[0, maxIndex]`":
  each draw is an arbitrary choice (`:|`) in that range. The method returns
  the drawn indices as a ghost out-parameter `draws`. This lets its
  postcondition say the result is exactly `Picked(catalog, draws)`.
- `maxIndex = size() - 1` is computed in the 64-bit unsigned size type. The
  model writes out the wrap-around (`SizeMinusOne`). Each draw is in bounds
  only because the scan guarantees a non-empty catalog. The selection loop
  carries that guarantee as an invariant and asserts each drawn index is in
  bounds before using it.
- `count` is a `UINT`, modelled as the newtype `Uint32`.
- Sequences are values, so the selection loop cannot modify the catalog. It
  only reads from it.

Facts about the code that the model keeps:

- The extension comparison is exact. The comment at line 24 says "Convert to
  lowercase", but nothing is lowercased (line 25).
- The scan is one level deep (`directory_iterator`, line 19).
- Each draw is independent, so a path may be picked more than once
  (lines 49-58).

## Model

| member | source | states |
|---|---|---|
| `WallpaperCatalog.GetFilesPathsFromFolder` | WallpRandomTest01.cpp:15-36 | succeeds iff some entry is a regular file with an image extension; on success returns exactly the catalog `KeptPaths(entries)`, which is non-empty; otherwise fails with `NoWallpapersFound` |
| `WallpaperCatalog.KeptPathsIsFilteredSubsequence` | WallpRandomTest01.cpp:19-29 | the catalog is an order-preserving subsequence of the listing: the k-th path is the path of the entry at the k-th kept position, kept positions strictly increase, and a position is kept iff its entry is a regular file with an exact image extension |
| `WallpaperCatalog.KeptPathsMembership` | WallpRandomTest01.cpp:21-26 | both directions of membership: every catalog path is the path of some entry that is a regular file with extension `.jpg`, `.jpeg`, `.png` or `.bmp`, and every such entry's path is in the catalog |
| `WallpaperCatalog.KeptPathsLength` | WallpRandomTest01.cpp:19-29 | one output per kept entry at most, so the catalog is never longer than the listing |
| `WallpaperCatalog.KeptPathsStep` | WallpRandomTest01.cpp:19-29 | one loop iteration: extending the listing by one entry appends that entry's path to the catalog if it passes the filter, and nothing otherwise |
| `WallpaperCatalog.KeptPathsEmpty` | WallpRandomTest01.cpp:31-35 | the catalog is empty exactly when no entry passes the filter, the case in which the scan throws |
| `WallpaperCatalog.KeptPathsAppend` | WallpRandomTest01.cpp:19-29 | each entry is judged on its own: the catalog of a concatenated listing is the concatenation of the catalogs |
| `WallpaperCatalog.ExtensionMatchIsCaseSensitive` | WallpRandomTest01.cpp:23-25 | the four lower-case extensions match; `.JPG`, `.Jpeg`, `.PNG` and `.BMP` do not |
| `WallpaperCatalog.MixedFolderExample` | WallpRandomTest01.cpp:19-29 | for any five paths, a listing with a `.jpg` file, an upper-case `.JPG` file, a non-regular `.png` entry, a `.txt` file and a `.bmp` file keeps only the first and the last path, in order |
| `WallpaperSelection.GetRandomWallpapers` | WallpRandomTest01.cpp:41-61 | fails with `NoWallpapersFound` iff the catalog is empty, whatever `count` is; otherwise returns exactly `count` paths, namely the catalog paths at the drawn indices, each drawn index lies in `[0, maxIndex]` with `maxIndex` the wrapped `size() - 1` and also in `[0, size - 1]`, and every returned path is in the catalog |
| `WallpaperSelection.SizeMinusOne` | WallpRandomTest01.cpp:54 | `size() - 1` in the unsigned size type always yields a value below 2^64 |
| `WallpaperSelection.MaxIndexOfNonEmpty` | WallpRandomTest01.cpp:54 | for a non-empty catalog, `maxIndex` does not underflow: it equals `size - 1` and is a valid index |
| `WallpaperSelection.MaxIndexOfEmptyWraps` | WallpRandomTest01.cpp:54 | for an empty catalog, `size() - 1` would wrap to 2^64 - 1, so the empty-catalog guard is what keeps the draws in bounds |
| `WallpaperSelection.PickedAt` | WallpRandomTest01.cpp:48-59 | the selection has one path per draw, and the k-th path is the catalog entry at the k-th drawn index |
| `WallpaperSelection.PickedFromCatalog` | WallpRandomTest01.cpp:58 | every selected path is an element of the catalog |
| `WallpaperSelection.RepeatedDrawsRepeatPaths` | WallpRandomTest01.cpp:49-59 | two draws of the same index select the same path twice, so the result may contain duplicates |

## Left out

- `main` (COM initialisation, `IDesktopWallpaper`, monitor enumeration, `SetWallpaper`, console and error output) consists of operating-system calls and I/O.
- The directory iterator is replaced by an input sequence of entries. Filesystem errors, such as a missing or unreadable folder, are library behaviour and are not modelled.
- The extension is an input field of each entry. How the filesystem library derives it from the path (last dot, dot-files) is library behaviour.
- `std::random_device`, `std::mt19937` and `uniform_int_distribution` are modelled only as "some index in `[0, maxIndex]`". Uniformity, seeding and independence between draws are not modelled.
- The hard-coded folder path in `main` is configuration.
