/**
 * The drop-speed policy. The falling piece moves down one row every tick;
 * the tick interval starts at 800 ms, and every 60 s of play it shortens by
 * 75 ms, never below 150 ms. While soft drop is held the interval is 50 ms.
 */
module Speed {
  const BaseGameSpeed: int := 800
  const FastDropSpeed: int := 50
  /** Milliseconds of play between two speed increases (the timer itself is not modelled). */
  const SpeedIncreaseInterval: int := 60000
  const SpeedIncrement: int := 75
  const MinSpeed: int := 150

  function Max(a: int, b: int): int {
    if a >= b then a else b
  }

  /** One speed increase: the larger of the floor and the interval shortened by one step. */
  function NextSpeed(prev: int): (s: int)
    ensures s >= MinSpeed && s >= prev - SpeedIncrement
    ensures s == MinSpeed || s == prev - SpeedIncrement
  {
    Max(MinSpeed, prev - SpeedIncrement)
  }

  /** The base interval after n speed increases in one game. */
  function SpeedAfter(n: nat): int {
    if n == 0 then BaseGameSpeed else NextSpeed(SpeedAfter(n - 1))
  }

  /** After n increases the interval is 800 - 75 n ms, or the 150 ms floor once that is lower. */
  lemma {:induction false} SpeedSchedule(n: nat)
    ensures SpeedAfter(n) == Max(MinSpeed, BaseGameSpeed - n * SpeedIncrement)
  {
    if n > 0 {
      SpeedSchedule(n - 1);
    }
  }

  /** The floor is reached after nine increases, and the interval stays there. */
  lemma FloorAfterNine(n: nat)
    ensures n >= 9 <==> SpeedAfter(n) == MinSpeed
  {
    SpeedSchedule(n);
  }

  /** The interval the game loop waits between two ticks. */
  function TickInterval(isDropping: bool, baseSpeed: int): (ms: int)
    requires MinSpeed <= baseSpeed <= BaseGameSpeed
    ensures FastDropSpeed <= ms <= baseSpeed
    ensures isDropping <==> ms < MinSpeed
  {
    if isDropping then FastDropSpeed else baseSpeed
  }
}
