// Stock datatypes and the calendar shared by every component. Times are integer
// seconds since the epoch, in UTC.
module Prelude {
  datatype Option<+T> = None | Some(value: T)

  // UTC midnight at which day number d starts.
  function DayStart(d: int): int {
    86400 * d
  }

  // The UTC day holding instant t: its wall-clock value with the time of day cleared.
  function DayOf(t: int): int {
    t / 86400
  }

  lemma DayWindow(t: int, d: int)
    ensures DayOf(t) == d <==> DayStart(d) <= t < DayStart(d + 1)
  {
  }

  function Init<T>(s: seq<T>): seq<T>
    requires s != []
  {
    s[..|s| - 1]
  }

  function Last<T>(s: seq<T>): T
    requires s != []
  {
    s[|s| - 1]
  }
}
