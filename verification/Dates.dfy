/** Instants in milliseconds and the minute stamps of the series. */
module Dates {
  const MINUTE: int := 60000

  function FromMins(unixMins: int): int {
    MINUTE * unixMins
  }

  /** Math.round of the minutes: halves go up. */
  function ToMins(date: int): int {
    (date + MINUTE / 2) / MINUTE
  }

  lemma ToMinsNearest(date: int)
    ensures -30000 <= date - 60000 * ToMins(date) < 30000
    ensures date % 60000 == 0 ==> FromMins(ToMins(date)) == date
  {
  }

  lemma FromMinsAligned(m: int)
    ensures FromMins(m) % MINUTE == 0
  {
  }

  lemma ToMinsInverse(m: int)
    ensures ToMins(FromMins(m)) == m
  {
  }

  lemma ToMinsMonotone(a: int, b: int)
    requires a <= b
    ensures ToMins(a) <= ToMins(b)
  {
  }
}
