# Team step counters: a Dafny model of the domain services

This project models the domain layer of a team leaderboard service. Teams own
per-user step counters. The counter service, `CounterManager`, creates,
deletes and increments counters and reads them back. The team service,
`TeamManager`, creates and deletes teams, reads one team with the sum of its
counters' steps, and builds the leaderboard. The leaderboard lists every team
with that sum, ordered by total descending.

Layout, one module per part of the program:

- `Entities.dfy` holds the Team and Counter rows, the transfer objects the
  managers return, and the typed failures. These are `NotFound(kind, id)`,
  `AlreadyExists(kind)` and `ConcurrencyConflict`. `Result` and `Outcome`
  replace the exceptions the managers throw.
- `Data.dfy` holds the database context. It is a `Store` class with a `teams`
  map and a `counters` map keyed by row id, updated in place. It also holds
  the two uniqueness rules behind `Store.Valid()`: team names are unique, and
  within one team no two counters share a user name.
- `CounterManager.dfy` models the counter service. `Create`, `Delete` and
  `Increment` are methods that modify the store. `GetCounters` and `Get` are
  functions over the tables.
- `TeamManager.dfy` models the team service. `Create` and `Delete` are
  methods. `Get` and `GetAll` are functions. A team's step total,
  `TeamSteps`, is a recursive walk of the Counters table. A lemma proves it
  equal to `SumSteps` over the counters listed for the team. The leaderboard
  is an insertion sort, proved sorted (`SortedDesc`) and a permutation of one
  entry per team.

These inputs are method parameters:

- A fresh id stands for `Guid.NewGuid()`.
- A time `now` stands for `DateTime.UtcNow`. This covers the `LastUpdated`
  set when a row is created and the new token an increment writes.

Ids are `nat`. Only equality between ids matters to the services. The order
of ids is used only to walk a table in a fixed order.

Two modelling choices follow the code closely:

- A counter's team is optional (`Option<Id>`). Only `UserName` is configured
  as required (Assignment.Counters.Infrastructure/Data/Configuration/CounterConfiguration.cs:13-15),
  and the tests store counters without a team
  (Assignment.Counters.Tests/CounterManagerTests.cs:92, :117).
- A successful increment stores whatever `DateTime.UtcNow` returns
  (Assignment.Counters.Infrastructure/Services/CounterManager.cs:93). The model
  claims no order between the old token and the new one.

## Model

| member | source | states |
|---|---|---|
| `Data.Store.constructor` | Assignment.Counters.Infrastructure/Data/AppDbContext.cs:11-13 | The context's two tables, Teams and Counters, start empty, and the uniqueness rules hold of them. |
| `Data.Store.Valid` | Assignment.Counters.Infrastructure/Data/AppDbContext.cs:11-13 | The two tables keep the rules the managers' Create operations enforce: no two teams share a name (TeamManager.cs:26-28), and no two counters of one team share a user name (CounterManager.cs:26-31). |
| `CounterManager.Create` | Assignment.Counters.Infrastructure/Services/CounterManager.cs:22-53 | If the team already has a counter for that exact user name: AlreadyExists(Counter), store unchanged. This check comes first. Otherwise, if the team is missing: NotFound(Team, teamId), store unchanged. Otherwise: exactly one new row under the fresh id, with that user, that team, 0 steps and stamp `now`, and the result (id, userName, 0). Teams are untouched. The new counter is on its team's list and `Get` reads it back. Per-team user-name uniqueness is preserved. |
| `CounterManager.Delete` | Assignment.Counters.Infrastructure/Services/CounterManager.cs:62-71 | On an absent id: NotFound(Counter, id) and nothing changes. On a present id: exactly that row is removed and nothing else changes; a later `Get` of the id is NotFound. Uniqueness is preserved. |
| `CounterManager.Incremented` | Assignment.Counters.Infrastructure/Services/CounterManager.cs:92-93 | The updated row keeps its user and team, gains exactly `steps`, and carries the new time as its token. |
| `CounterManager.Increment` | Assignment.Counters.Infrastructure/Services/CounterManager.cs:80-95 | Requires `steps > 0`. On an absent id: NotFound(Counter, id), store unchanged. On a stored token different from the caller's: ConcurrencyConflict, store unchanged. Otherwise: only that counter changes, with steps = old + steps, token = now, and the same user and team. Teams are untouched, steps strictly grow, `Get` returns the new values, and uniqueness is preserved. |
| `CounterManager.GetCounters` | Assignment.Counters.Infrastructure/Services/CounterManager.cs:104-118 | Every entry is an existing counter whose team is `teamId`, as (id, userName, steps). No counter is listed twice. The list is empty, not an error, when there are none. |
| `CounterManager.GetCountersComplete` | Assignment.Counters.Infrastructure/Services/CounterManager.cs:108-110 | Every counter whose team is `teamId` is on that team's list. With `GetCounters` this makes the list exactly the team's counters. |
| `CounterManager.Get` | Assignment.Counters.Infrastructure/Services/CounterManager.cs:127-141 | Ok exactly when the id is present. Ok carries the stored userName, StepsMade and LastUpdated under that id. Otherwise the result is NotFound(Counter, id). |
| `CounterManager.AddCounterKeepsNamesUnique` | Assignment.Counters.Infrastructure/Services/CounterManager.cs:26-31 | Adding a counter whose (team, user) pair no counter has yet keeps the pairs unique. |
| `CounterManager.ReplaceCounterKeepsNamesUnique` | Assignment.Counters.Infrastructure/Services/CounterManager.cs:92-93 | Rewriting a counter without changing its user or team keeps the pairs unique. |
| `CounterManager.HasUserCounter` | Assignment.Counters.Infrastructure/Services/CounterManager.cs:26-28 | The duplicate lookup: some counter of team `teamId` has exactly the user name `userName`. `Create` branches on it first. |
| `TeamManager.Create` | Assignment.Counters.Infrastructure/Services/TeamManager.cs:22-39 | If some team has exactly that name: AlreadyExists(Team), store unchanged. Otherwise: exactly one new team under the fresh id, with that name and stamp `now`, and the result (id, name, 0). Counters are untouched. `Get` of the new id returns the same value with total 0. Team-name uniqueness is preserved. |
| `TeamManager.Delete` | Assignment.Counters.Infrastructure/Services/TeamManager.cs:48-57 | On an absent id: NotFound(Team, id) and nothing changes. On a present id: exactly that team leaves the Teams table, and `Get` of it is then NotFound. No counter is added, and the counters of other teams are unchanged. |
| `TeamManager.HasTeamNamed` | Assignment.Counters.Infrastructure/Services/TeamManager.cs:26 | The name lookup: some team has exactly the name `name`. `Create` fails with AlreadyExists exactly when it holds. |
| `TeamManager.SumSteps` | Assignment.Counters.Infrastructure/Services/TeamManager.cs:72 | The total of the steps of a list of counters; it is not negative when no listed counter has negative steps. |
| `TeamManager.TeamSteps` | Assignment.Counters.Infrastructure/Services/TeamManager.cs:72 | `x.Counters.Sum(y => y.StepsMade)`, the total `Get` and `GetAll` report for a team, as a walk of the Counters table; it is not negative when no counter has negative steps. `TeamStepsIsListedSum` ties it to the listed counters. |
| `TeamManager.Summary` | Assignment.Counters.Infrastructure/Services/TeamManager.cs:95 | The projection of one existing team to (id, name, step total): it carries the team's own id and name, and a total that is not negative when no counter has negative steps. |
| `TeamManager.Get` | Assignment.Counters.Infrastructure/Services/TeamManager.cs:66-79 | Ok exactly when the team exists. Ok carries its id, its name and TotalSteps, the sum of steps over the team's counters; that sum is 0 when no counter belongs to the team. Otherwise the result is NotFound(Team, id). |
| `TeamManager.Entries` | Assignment.Counters.Infrastructure/Services/TeamManager.cs:92-95 | One entry per team of the given id set, which fixes the length. Each entry is that team's (id, name, step total). No team appears twice. |
| `TeamManager.EntriesCoverIds` | Assignment.Counters.Infrastructure/Services/TeamManager.cs:92-95 | Every team of the id set has its entry. |
| `TeamManager.Insert` | Assignment.Counters.Infrastructure/Services/TeamManager.cs:96 | Inserting into a list sorted by total descending keeps it sorted. The result is the old list plus exactly the new entry, as a multiset. |
| `TeamManager.SortByStepsDesc` | Assignment.Counters.Infrastructure/Services/TeamManager.cs:96 | The result is sorted by TotalSteps, non-increasing, and is a permutation of the input. No tie-break is promised. |
| `TeamManager.GetAll` | Assignment.Counters.Infrastructure/Services/TeamManager.cs:88-105 | Sorted by TotalSteps, non-increasing. Exactly one entry per existing team, with no duplicates and none missing. Each entry carries the team's name and step sum. The result is empty when there are no teams. |
| `TeamManager.GetAllAgreesWithGet` | Assignment.Counters.Infrastructure/Services/TeamManager.cs:92-95 | Every leaderboard entry equals what `Get` returns for that team. |
| `TeamManager.TeamStepsIsListedSum` | Assignment.Counters.Infrastructure/Services/TeamManager.cs:72 | The team total from walking the Counters table equals `SumSteps` over the counters `GetCounters` lists for the team. |
| `TeamManager.TeamStepsSplit` | Assignment.Counters.Infrastructure/Services/TeamManager.cs:72 | A team's total is any one counter's share plus the total over the rest. So the sum does not depend on the order in which the counters are walked. |
| `TeamManager.NoCountersNoSteps` | Assignment.Counters.Infrastructure/Services/TeamManager.cs:72 | A team that no counter belongs to has total 0. |
| `TeamManager.IncrementMovesOnlyItsTeam` | Assignment.Counters.Infrastructure/Services/CounterManager.cs:92-93 | A successful increment raises the counter's team total by exactly `steps` and leaves every other team's total unchanged. |
| `TeamManager.AddCounterAddsShare` | Assignment.Counters.Infrastructure/Services/TeamManager.cs:72 | Adding a counter adds its steps to its own team's total and to no other team's total. |
| `TeamManager.CreateKeepsTotals` | Assignment.Counters.Infrastructure/Services/CounterManager.cs:37-45 | A counter created with 0 steps changes no team's total. |
| `TeamManager.DeleteTakesOffItsSteps` | Assignment.Counters.Infrastructure/Services/CounterManager.cs:70 | Deleting a counter takes exactly its steps off its team's total and changes no other team's total. |
| `TeamManager.TwoCountersExample` | Assignment.Counters.Tests/TeamManagerTests.cs:84-99 | `Get` of a stored team "Team C" whose two counters have 10 and 20 steps returns its id, the name "Team C" and a total of 30. |

## Left out

- HTTP layer: controllers, routing, status results, startup, dependency wiring and API documentation are framework glue around the services.
- Mapping failures to status codes: the base controller and the global exception filter depend on .NET reflection over exception types. They are HTTP behaviour, not domain logic.
- Request validation: the FluentValidation rules are not modelled. The one exception is the increment's `Value > 0`, which is `CounterManager.Increment`'s `requires steps > 0`. Non-empty names and non-empty ids are not checked by the services.
- Persistence: the EF Core context, the entity configurations and the translation of queries into provider calls are replaced by two maps.
- `TeamManager.Delete`: states nothing about the deleted team's own counters. Whether they are removed or lose their team reference depends on EF delete rules that the source does not show. The body leaves the Counters table as it is, as the service code itself does. The contract promises only what holds under every rule.
- `CounterManager.Increment`: does not model the race between the read and the save of two overlapping increments. The concurrency check is modelled sequentially.
- `TeamManager.Get` and `TeamManager.GetAll`: team totals are unbounded integers. The source sums `long StepsMade` with LINQ `Sum`, which throws `OverflowException` once a team's total passes `long.MaxValue`; that error path is not modelled.
- `CounterManager.Increment`: does not model `long` overflow of `StepsMade += steps`. Steps are unbounded integers.
- `CounterManager.GetCounters`: does not state the order of the list. The source leaves it to the database; the model lists counters by ascending id.
- `TeamManager.Create` and `CounterManager.Create`: the fresh id is a parameter, required to be unused. For a team id this means no team has it and no counter refers to it, which is what a new GUID gives. The clock is a parameter too, and no claim is made that it moves forward.
- Logging and `async`/`Task`: logging has no behavioural effect, and each operation is modelled as a plain sequential method or function.
- Test-data seeding and configuration reads: these are random data and environment reads outside the services.
