/** `struct timespec`, and msecs_to_timespec as both lock backends define it. */
module TimeSpecs {

  /** C division and remainder, which truncate towards zero. */
  function TruncDiv(a: int, b: nat): int
    requires b > 0
  {
    if a >= 0 then a / b else -((-a) / b)
  }

  function TruncMod(a: int, b: nat): int
    requires b > 0
  {
    a - b * TruncDiv(a, b)
  }

  datatype Timespec = Timespec(sec: int, nsec: int) {
    function Nanos(): int {
      sec * 1_000_000_000 + nsec
    }

    /** What nanosleep and semtimedop accept. */
    predicate Valid() {
      sec >= 0 && 0 <= nsec < 1_000_000_000
    }
  }

  /** The interval stands for the given milliseconds, and the system calls accept it exactly when they
      are not negative. */
  function MsecsToTimespec(msecs: int): (t: Timespec)
    ensures t.Nanos() == msecs * 1_000_000 == t.sec * 1_000_000_000 + t.nsec
    ensures t.Valid() <==> msecs >= 0
    ensures msecs >= 0 <==> t.sec >= 0 && 0 <= t.nsec < 1_000_000_000
  {
    Timespec(TruncDiv(msecs, 1000), TruncMod(msecs, 1000) * 1000 * 1000)
  }
}
