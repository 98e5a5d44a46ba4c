/** The records the renderers consume. Sizes are byte counts; `difference` is the
    signed change from the old to the new size. */
module Bundles {

  /** Per-file size result. */
  datatype FileResult = FileResult(filename: string, size: nat, gzip: nat, brotli: nat)

  datatype Status = Added | Removed | Updated

  /** Old and new value of one size metric of a bundle. */
  datatype SizeDelta = SizeDelta(oldSize: nat, newSize: nat, difference: int)

  datatype BundleDiff = BundleDiff(
    name: string,
    status: Status,
    oldFiles: seq<FileResult>,
    newFiles: seq<FileResult>,
    raw: SizeDelta,
    gzip: SizeDelta,
    brotli: SizeDelta)
}
