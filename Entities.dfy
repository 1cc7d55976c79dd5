/**
 * The domain records of the counters service and the values its two
 * managers hand back to callers: the Team and Counter rows, the transfer
 * objects built from them, and the typed failures the managers raise.
 */
module Entities {

  /** A row identifier. The service generates these as random GUIDs; only
      equality matters to the managers, and the model asks for a fresh one
      as a parameter wherever a row is created. */
  type Id = nat

  /** A point in time, as the `DateTime` values the service reads from the
      clock and compares for equality. */
  type Time = int

  datatype Option<+T> = None | Some(value: T)

  /** A team row: its unique name and the time it was last written. */
  datatype Team = Team(name: string, lastUpdated: Time)

  /** A counter row: the user it counts for, the steps made so far, the time
      it was last written (the optimistic-concurrency token), and the team it
      belongs to, which may be missing. */
  datatype Counter = Counter(userName: string, stepsMade: int, lastUpdated: Time, team: Option<Id>)

  /** What a counter is returned as by Create and GetCounters. */
  datatype CounterDto = CounterDto(id: Id, userName: string, steps: int)

  /** What a counter is returned as by Get. */
  datatype CounterDetailsDto = CounterDetailsDto(id: Id, userName: string, steps: int, timeStamp: Time)

  /** What a team is returned as by the team manager, with the sum of its
      counters' steps (zero when the transfer object is built on creation). */
  datatype TeamDto = TeamDto(id: Id, name: string, totalSteps: int)

  /** The entity a failure is about: the generic argument of the source's
      exception types. */
  datatype Kind = TeamEntry | CounterEntry

  /** The failures the managers raise: a missing row, a duplicate, and a
      stale concurrency token on Increment. */
  datatype Error =
    | NotFound(kind: Kind, id: Id)
    | AlreadyExists(kind: Kind)
    | ConcurrencyConflict

  /** The outcome of an operation that returns a value. */
  datatype Result<+T> = Ok(value: T) | Err(error: Error)

  /** The outcome of an operation that returns nothing. */
  datatype Outcome = Done | Failed(error: Error)
}
