/** The elapsed-seconds counter of the game: reset to 0 when a game starts and
    advanced by one on every tick of a one-second timer. The counter is a
    32-bit signed integer incremented without overflow checks. */
module Timer {

  newtype int32 = x: int | -0x8000_0000 <= x < 0x8000_0000

  const MaxValue: int32 := 0x7FFF_FFFF
  const MinValue: int32 := -0x8000_0000

  /** One tick: plus one, modulo 2^32 within the 32-bit range. */
  function Increment(t: int32): (r: int32)
    ensures (r as int - t as int - 1) % 0x1_0000_0000 == 0
  {
    if t == MaxValue then MinValue else t + 1
  }

  /** The counter after `ticks` ticks of a game that started at 0. */
  function Elapsed(ticks: nat): int32 {
    if ticks == 0 then 0 else Increment(Elapsed(ticks - 1))
  }

  /** Until it would overflow, the counter is the number of ticks. */
  lemma {:induction false} ElapsedCountsTicks(ticks: nat)
    requires ticks <= MaxValue as int
    ensures Elapsed(ticks) as int == ticks
  {
    if ticks > 0 {
      ElapsedCountsTicks(ticks - 1);
    }
  }
}
