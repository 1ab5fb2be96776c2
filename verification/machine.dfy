/** The parts of the C machine that the modelled code depends on. */
module Machine {

  type byte = x: int | 0 <= x < 256

  datatype Option<+T> = None | Some(value: T) {
    function GetOr(default: T): T {
      if Some? then value else default
    }
  }

  const INT32_LIMIT := 0x8000_0000
  const WORD32 := 0x1_0000_0000
  const INT64_LIMIT := 0x8000_0000_0000_0000
  const WORD64 := 0x1_0000_0000_0000_0000

  /** What is left of x after it is stored in a 32-bit `int`. */
  function ToInt32(x: int): (r: int)
    ensures -INT32_LIMIT <= r < INT32_LIMIT
    ensures r == x <==> -INT32_LIMIT <= x < INT32_LIMIT
    ensures 0 <= x ==> r <= x
    ensures (x - r) % WORD32 == 0
  {
    var m := x % WORD32;
    if m < INT32_LIMIT then m else m - WORD32
  }
}
