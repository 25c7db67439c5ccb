/** The settings of `app/config.py` that the core uses. */
module Config {

  /** An 8-bit unsigned value: a byte of a file, or one colour channel. */
  newtype byte = x: int | 0 <= x < 256

  const MAX_FILE_SIZE: nat := 5 * 1024 * 1024
  const MAX_DIMENSION: nat := 512
  const ALLOWED_CONTENT_TYPES: seq<string> := ["image/jpeg", "image/png"]
  const LUMINANCE_ALGORITHM: string := "rec709"

  /** Rec. 709 luma weights (ITU-R BT.709, Part 1, item 3.2). */
  const REC709_R: real := 0.2126
  const REC709_G: real := 0.7152
  const REC709_B: real := 0.0722

  const HISTOGRAM_BUCKETS: nat := 10
  const LUMINANCE_MAX: nat := 255
}
