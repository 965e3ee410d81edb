/** Shared vocabulary: optional values, error results, and the time unit. */
module Common {

  datatype Option<+T> = None | Some(value: T) {
    function GetOr(default: T): T { if Some? then value else default }
  }

  datatype Result<+T, +E> = Ok(value: T) | Err(error: E)

  /** Instants and durations are integers counting microseconds, the resolution of both Python's datetime and
      PostgreSQL's timestamptz; instants count from the start of 1970, UTC. */
  type Time = int

  const SECOND: int := 1_000_000
  const MINUTE: int := 60 * SECOND
  const DAY: int := 86_400 * SECOND
}
