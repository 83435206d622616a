/** Small shared vocabulary: identifiers, optional values, outcomes, and the clock. */
module Common {

  /** An opaque identifier (a Guid in the application). Only equality is meaningful;
      the order on `nat` is used solely to list the keys of a map deterministically. */
  type Id = nat

  datatype Option<+T> = None | Some(value: T)

  /** The value held by `o`, or `default` when there is none. */
  function GetOr<T>(o: Option<T>, default: T): (r: T)
    ensures o.Some? ==> r == o.value
    ensures o.None? ==> r == default
  {
    match o
    case Some(v) => v
    case None => default
  }

  /** An operation that either succeeds with a value or is rejected with an error. */
  datatype Result<+T, +E> = Ok(value: T) | Err(error: E)

  /** An operation that either succeeds with no value or is rejected with an error. */
  datatype Outcome<+E> = Pass | Fail(error: E)

  /** .NET DateTime ticks per day (100 ns units). */
  const TicksPerDay: int := 864_000_000_000

  /** The calendar day of a point in time, that is `DateTime.Date` with the time of day dropped. */
  function Day(t: int): int {
    t / TicksPerDay
  }

  /** The instants a request is judged against. The application reads the system clock and
      shifts it with calendar arithmetic; here the results of that arithmetic are supplied. */
  datatype Clock = Clock(
    now: int,            // DateTime.UtcNow
    sixMonthsAgo: int,   // DateTime.UtcNow.AddMonths(-6)
    oneYearAgo: int,     // DateTime.UtcNow.AddYears(-1)
    fiveYearsAgo: int,   // DateTime.UtcNow.AddYears(-5)
    fiftyYearsAgo: int   // DateTime.UtcNow.AddYears(-50)
  ) {
    /** The thresholds lie in the past, in calendar order. */
    predicate Valid() {
      fiftyYearsAgo <= fiveYearsAgo <= oneYearAgo <= sixMonthsAgo <= now
    }
  }
}
