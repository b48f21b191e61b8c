/** Shared constants and the one comparison every part of the detector uses. */
module Common {

  datatype Option<T> = None | Some(value: T)

  /** TEMP_THRESHOLD: a day counts as hot when its temperature is strictly above this (Celsius). */
  const TEMP_THRESHOLD: real := 35.0

  /** DURATION_DAYS: consecutive hot days that make a heatwave. */
  const DURATION_DAYS: nat := 3

  /** Days the single-location detector looks back over (`values[-30:]`). */
  const WINDOW_DAYS: nat := 30

  /** The comparison `temp > TEMP_THRESHOLD`; a value equal to the threshold is not hot. */
  predicate Above(t: real) {
    t > TEMP_THRESHOLD
  }

  function Max(a: int, b: int): (m: int)
    ensures m >= a && m >= b && (m == a || m == b)
  {
    if a < b then b else a
  }
}
