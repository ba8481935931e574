/**
 * Random wallpaper selection: build the catalog, then make `count`
 * independent draws of an index in [0, size - 1] and collect the path at
 * each drawn index. Draws are independent, so a path may be picked more than
 * once.
 *
 * The random generator is modelled only as "some index in [0, maxIndex]":
 * each draw is an arbitrary choice within that range. The indices drawn are
 * returned as a ghost record so that the result can be stated exactly.
 */
module WallpaperSelection {
  import opened WallpaperCatalog

  /** The requested count is an unsigned 32-bit integer. */
  newtype Uint32 = x: int | 0 <= x < 0x1_0000_0000

  /** One more than the largest value of the 64-bit unsigned size type. */
  const SizeModulus: int := 0x1_0000_0000_0000_0000

  /** `size - 1` computed in the unsigned size type, which wraps below zero. */
  function SizeMinusOne(size: nat): (m: nat)
    ensures m < SizeModulus
  {
    (size - 1) % SizeModulus
  }

  /** On a non-empty vector the largest index does not wrap and is in bounds. */
  lemma MaxIndexOfNonEmpty(size: nat)
    requires 0 < size <= SizeModulus
    ensures SizeMinusOne(size) == size - 1
    ensures SizeMinusOne(size) < size
  {
  }

  /** On an empty vector it wraps to the largest size value: every drawn index would be out of bounds. */
  lemma MaxIndexOfEmptyWraps()
    ensures SizeMinusOne(0) == SizeModulus - 1
  {
  }

  /** Every drawn index addresses an element of the catalog. */
  ghost predicate DrawsInRange(draws: seq<nat>, size: nat)
  {
    forall k :: 0 <= k < |draws| ==> draws[k] < size
  }

  /** The paths that a sequence of drawn indices selects, in draw order. */
  function Picked(catalog: seq<string>, draws: seq<nat>): seq<string>
    requires DrawsInRange(draws, |catalog|)
  {
    if draws == [] then []
    else Picked(catalog, draws[..|draws| - 1]) + [catalog[draws[|draws| - 1]]]
  }

  /** One selected path per draw, the k-th being the catalog entry at the k-th drawn index. */
  lemma {:induction false} PickedAt(catalog: seq<string>, draws: seq<nat>)
    requires DrawsInRange(draws, |catalog|)
    ensures |Picked(catalog, draws)| == |draws|
    ensures forall k :: 0 <= k < |draws| ==> Picked(catalog, draws)[k] == catalog[draws[k]]
  {
    if draws != [] {
      PickedAt(catalog, draws[..|draws| - 1]);
    }
  }

  /** Every selected path is an element of the catalog. */
  lemma {:induction false} PickedFromCatalog(catalog: seq<string>, draws: seq<nat>)
    requires DrawsInRange(draws, |catalog|)
    ensures forall p :: p in Picked(catalog, draws) ==> p in catalog
  {
    PickedAt(catalog, draws);
  }

  /** Nothing prevents two draws from hitting the same index: repeats are possible. */
  lemma {:induction false} RepeatedDrawsRepeatPaths(catalog: seq<string>, index: nat)
    requires index < |catalog|
    ensures Picked(catalog, [index, index]) == [catalog[index], catalog[index]]
  {
    PickedAt(catalog, [index, index]);
  }

  /**
   * Scans `entries` and picks `count` wallpapers from the resulting catalog,
   * each at an index drawn from [0, size - 1]. An empty catalog is an error
   * whatever `count` is; otherwise the result has exactly `count` paths, all
   * from the catalog, and `draws` are the indices that were drawn.
   */
  method GetRandomWallpapers(entries: seq<DirEntry>, count: Uint32)
    returns (r: Result<seq<string>>, ghost draws: seq<nat>)
    ensures r.Err? <==> KeptPaths(entries) == []
    ensures r.Err? ==> r.error == NoWallpapersFound
    ensures r.Ok? ==> |draws| == count as int && DrawsInRange(draws, |KeptPaths(entries)|)
    ensures r.Ok? ==> forall k :: 0 <= k < |draws| ==> draws[k] <= SizeMinusOne(|KeptPaths(entries)|)
    ensures r.Ok? ==> r.value == Picked(KeptPaths(entries), draws)
    ensures r.Ok? ==> |r.value| == count as int
    ensures r.Ok? ==> forall k :: 0 <= k < |r.value| ==> r.value[k] in KeptPaths(entries)
  {
    var scanned := GetFilesPathsFromFolder(entries);
    if scanned.Err? {
      KeptPathsEmpty(entries);
      return Err(scanned.error), [];
    }
    var allWallpapers := scanned.value;

    var selectedWallpapers: seq<string> := [];
    draws := [];
    var i: Uint32 := 0;
    while i < count
      invariant allWallpapers != []
      invariant i <= count
      invariant |draws| == i as int
      invariant DrawsInRange(draws, |allWallpapers|)
      invariant forall k :: 0 <= k < |draws| ==> draws[k] <= SizeMinusOne(|allWallpapers|)
      invariant selectedWallpapers == Picked(allWallpapers, draws)
    {
      var maxIndex := SizeMinusOne(|allWallpapers|);
      var index: nat :| index <= maxIndex;
      // The catalog is non-empty, so `size - 1` did not wrap and the draw is a valid index.
      assert index < |allWallpapers|;
      selectedWallpapers := selectedWallpapers + [allWallpapers[index]];
      draws := draws + [index];
      assert draws[..|draws| - 1] == draws[..i];
      i := i + 1;
    }
    PickedAt(allWallpapers, draws);
    return Ok(selectedWallpapers), draws;
  }
}
