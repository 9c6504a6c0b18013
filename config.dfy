/** Board size, timing and debounce constants of the game (Globals.h, Grid.h),
    and the 32-bit unsigned arithmetic the firmware's timers use. */
module Config {
  const GRID_WIDTH: int := 16
  const GRID_HEIGHT: int := 24
  const NUM_BLOCKS: int := 7

  /** Default fall interval before the speed manager is initialised. */
  const FALL_INTERVAL_MS: int := 300
  /** Minimum time between two renders. */
  const RENDER_INTERVAL_MS: int := 16
  /** Minimum time between two accepted presses of one button. */
  const BUTTON_DEBOUNCE_MS: int := 50

  /** 2^32: the modulus of `uint32_t` arithmetic. */
  const U32: int := 0x1_0000_0000
  /** 2^8: the modulus of `uint8_t` arithmetic. */
  const U8: int := 0x100

  /** A value that may be absent (a NULL result, a failed search). */
  datatype Option<T> = None | Some(value: T)

  predicate IsU32(v: int) { 0 <= v < U32 }

  /** `a - b` computed in `uint32_t`: wraps around instead of going negative. */
  function SubU32(a: int, b: int): (d: int)
    requires IsU32(a) && IsU32(b)
    ensures IsU32(d)
    ensures a >= b ==> d == a - b
    ensures a < b ==> d == a - b + U32
  {
    (a - b) % U32
  }

  /** Conversion of a C `int` to `uint32_t` (reduction modulo 2^32). */
  function ToU32(v: int): (r: int)
    ensures IsU32(r)
    ensures IsU32(v) ==> r == v
  {
    v % U32
  }
}
