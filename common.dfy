/** Shared vocabulary of the elevator system: directions, commands and the
    32-bit integer range that every floor and score lives in. */
module Common {

  datatype Option<T> = None | Some(value: T)

  /** The sweep direction of an elevator, or the direction a caller asks for. */
  datatype Direction = Up | Down | Idle

  /** A message from the dispatcher to one elevator worker. `Status` only asks
      the worker to report its state and changes nothing. */
  datatype Command = AddStop(floor: int) | Status

  /** Floors and scores are `i32` values. */
  const I32_MIN: int := -0x8000_0000
  const I32_MAX: int := 0x7FFF_FFFF

  predicate IsI32(x: int) {
    I32_MIN <= x <= I32_MAX
  }

  function Abs(x: int): (r: nat)
    ensures r == x || r == -x
  {
    if x < 0 then -x else x
  }
}
