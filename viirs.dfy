/**
 * Constants of the VIIRS resampler (viirsresam.h and the enum at the head of
 * resample.cc): swath geometry, the valid temperature range and the
 * deletion-zone sentinels.
 */
module Viirs {

  /** Number of pixels across track in one scan line. */
  const VIIRS_WIDTH: int := 3200

  /** Detector rows per scan. */
  const NDETECTORS: int := 16

  /** Valid physical range of a pixel, in Kelvin. */
  const MAX_TEMP: real := 350.0
  const MIN_TEMP: real := 0.0

  const INVALID_TEMP: real := -999.0

  /** Deletion-zone sentinel of the 16-bit quantised bands. */
  const DELETION_ZONE_INT: int := 65533

  /** Deletion-zone sentinel of the floating-point band M13. */
  const DELETION_ZONE_FLOAT: real := -999.0

  /** `isinvalid` of resample.cc: a sample outside the physical range [MIN_TEMP, MAX_TEMP]. */
  predicate IsInvalid(x: real)
  {
    x > MAX_TEMP || x < MIN_TEMP
  }
}
