/**
 * The version normalisation shared by the three writers
 * (`packages/writer/src/index.ts`, `packages/writer/index.ts`,
 * `packages/writer/src/write.ts`): every frame is first encoded with the
 * QR library choosing the version, the largest chosen version is found by
 * `reduce` starting from 0, and every frame is rendered again at that one
 * version, so that all symbols of an animation have the same size.
 */
module Versions {

  /** `reduce((acc, v) => v.version > acc ? v.version : acc, acc)` over `vs`. */
  function MaxFrom(acc: int, vs: seq<int>): (r: int)
    ensures r >= acc
    ensures forall k :: 0 <= k < |vs| ==> vs[k] <= r
    ensures r == acc || exists k :: 0 <= k < |vs| && r == vs[k]
    decreases |vs|
  {
    if |vs| == 0 then acc
    else MaxFrom(if vs[0] > acc then vs[0] else acc, vs[1..])
  }

  /**
   * The highest first-pass version: no smaller than any of them and than 0,
   * and one of them unless it is 0.
   */
  function HighestVersion(vs: seq<int>): (r: int)
    ensures r >= 0
    ensures forall k :: 0 <= k < |vs| ==> vs[k] <= r
    ensures r == 0 || exists k :: 0 <= k < |vs| && r == vs[k]
  {
    MaxFrom(0, vs)
  }
}
