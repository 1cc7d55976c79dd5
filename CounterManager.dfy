/**
 * The counter service: create, delete and increment per-user counters, list
 * a team's counters and read one counter.
 */
module CounterManager {
  import opened Entities
  import opened Data

  /** Whether some counter of team `teamId` already counts for `userName`
      (exact string equality): the duplicate lookup that Create runs first. */
  predicate HasUserCounter(counters: map<Id, Counter>, teamId: Id, userName: string)
  {
    exists k :: k in counters && counters[k].team == Some(teamId) && counters[k].userName == userName
  }

  /** Adds a counter for `userName` to team `teamId`. The duplicate check runs
      before the team lookup, so a duplicate wins over a missing team. The
      row gets the fresh id `newId` and the clock reading `now`. */
  method Create(db: Store, userName: string, teamId: Id, newId: Id, now: Time) returns (r: Result<CounterDto>)
    requires newId !in db.counters
    modifies db
    ensures db.teams == old(db.teams)
    ensures HasUserCounter(old(db.counters), teamId, userName) ==>
      r == Err(AlreadyExists(CounterEntry)) && db.counters == old(db.counters)
    ensures !HasUserCounter(old(db.counters), teamId, userName) && teamId !in old(db.teams) ==>
      r == Err(NotFound(TeamEntry, teamId)) && db.counters == old(db.counters)
    ensures !HasUserCounter(old(db.counters), teamId, userName) && teamId in old(db.teams) ==>
      r == Ok(CounterDto(newId, userName, 0)) &&
      db.counters == old(db.counters)[newId := Counter(userName, 0, now, Some(teamId))]
    ensures r.Ok? ==> r.value in GetCounters(db.counters, teamId)
    ensures r.Ok? ==> Get(db.counters, newId) == Ok(CounterDetailsDto(newId, userName, 0, now))
    ensures old(db.Valid()) ==> db.Valid()
  {
    if HasUserCounter(db.counters, teamId, userName) {
      return Err(AlreadyExists(CounterEntry));
    }
    if teamId !in db.teams {
      return Err(NotFound(TeamEntry, teamId));
    }
    var item := Counter(userName, 0, now, Some(teamId));
    if UserNamesUniquePerTeam(db.counters) {
      AddCounterKeepsNamesUnique(db.counters, newId, item);
    }
    db.counters := db.counters[newId := item];
    GetCountersComplete(db.counters, teamId, newId);
    r := Ok(CounterDto(newId, userName, 0));
  }

  /** Removes the counter `id`. */
  method Delete(db: Store, id: Id) returns (r: Outcome)
    modifies db
    ensures db.teams == old(db.teams)
    ensures id !in old(db.counters) ==>
      r == Failed(NotFound(CounterEntry, id)) && db.counters == old(db.counters)
    ensures id in old(db.counters) ==>
      r == Done && db.counters == old(db.counters) - {id}
    ensures r == Done ==> Get(db.counters, id) == Err(NotFound(CounterEntry, id))
    ensures old(db.Valid()) ==> db.Valid()
  {
    if id !in db.counters {
      return Failed(NotFound(CounterEntry, id));
    }
    db.counters := db.counters - {id};
    r := Done;
  }

  /** A counter after a successful increment by `steps` at time `now`:
      same user and team, more steps, a new concurrency token. */
  function Incremented(c: Counter, steps: int, now: Time): (c': Counter)
    ensures c'.userName == c.userName && c'.team == c.team
    ensures c'.stepsMade - c.stepsMade == steps
    ensures c'.lastUpdated == now
  {
    c.(stepsMade := c.stepsMade + steps, lastUpdated := now)
  }

  /** Adds `steps` to counter `id`, provided the caller's `lastUpdated` is the
      stored concurrency token; the token then becomes `now`. */
  method Increment(db: Store, id: Id, steps: int, lastUpdated: Time, now: Time) returns (r: Outcome)
    requires steps > 0
    modifies db
    ensures db.teams == old(db.teams)
    ensures id !in old(db.counters) ==>
      r == Failed(NotFound(CounterEntry, id)) && db.counters == old(db.counters)
    ensures id in old(db.counters) && old(db.counters[id].lastUpdated) != lastUpdated ==>
      r == Failed(ConcurrencyConflict) && db.counters == old(db.counters)
    ensures id in old(db.counters) && old(db.counters[id].lastUpdated) == lastUpdated ==>
      r == Done && db.counters == old(db.counters)[id := Incremented(old(db.counters[id]), steps, now)]
    ensures r == Done ==> db.counters[id].stepsMade > old(db.counters[id].stepsMade)
    ensures r == Done ==> (Get(db.counters, id) ==
      Ok(CounterDetailsDto(id, old(db.counters[id].userName), old(db.counters[id].stepsMade) + steps, now)))
    ensures old(db.Valid()) ==> db.Valid()
  {
    if id !in db.counters {
      return Failed(NotFound(CounterEntry, id));
    }
    var found := db.counters[id];
    if found.lastUpdated != lastUpdated {
      return Failed(ConcurrencyConflict);
    }
    var updated := Incremented(found, steps, now);
    if UserNamesUniquePerTeam(db.counters) {
      ReplaceCounterKeepsNamesUnique(db.counters, id, updated);
    }
    db.counters := db.counters[id := updated];
    r := Done;
  }

  /** The counters whose team is `teamId`, each as (id, user name, steps),
      every one exactly once; empty, not a failure, when there are none,
      whether or not the team exists. */
  function GetCounters(counters: map<Id, Counter>, teamId: Id): (r: seq<CounterDto>)
    ensures forall i :: 0 <= i < |r| ==>
      r[i].id in counters && counters[r[i].id].team == Some(teamId) &&
      r[i] == CounterDto(r[i].id, counters[r[i].id].userName, counters[r[i].id].stepsMade)
    ensures forall i, j :: 0 <= i < j < |r| ==> r[i].id != r[j].id
    decreases |counters|
  {
    if counters == map[] then []
    else
      var k := MinKey(counters.Keys);
      RemoveOneRow(counters, k);
      var rest := GetCounters(counters - {k}, teamId);
      if counters[k].team == Some(teamId) then
        var r := [CounterDto(k, counters[k].userName, counters[k].stepsMade)] + rest;
        assert forall j :: 0 <= j < |rest| ==> r[j + 1] == rest[j];
        r
      else
        rest
  }

  /** Every counter of team `teamId` is on that team's list. */
  lemma {:induction false} GetCountersComplete(counters: map<Id, Counter>, teamId: Id, k: Id)
    requires k in counters && counters[k].team == Some(teamId)
    ensures CounterDto(k, counters[k].userName, counters[k].stepsMade) in GetCounters(counters, teamId)
    decreases |counters|
  {
    var least := MinKey(counters.Keys);
    if k != least {
      RemoveOneRow(counters, least);
      GetCountersComplete(counters - {least}, teamId, k);
    }
  }

  /** The details of counter `id`, or NotFound when there is no such row. */
  function Get(counters: map<Id, Counter>, id: Id): (r: Result<CounterDetailsDto>)
    ensures r.Ok? <==> id in counters
    ensures r.Err? ==> r.error == NotFound(CounterEntry, id)
    ensures r.Ok? ==>
      r.value.id == id && r.value.userName == counters[id].userName &&
      r.value.steps == counters[id].stepsMade && r.value.timeStamp == counters[id].lastUpdated
  {
    if id !in counters then Err(NotFound(CounterEntry, id))
    else
      var found := counters[id];
      Ok(CounterDetailsDto(id, found.userName, found.stepsMade, found.lastUpdated))
  }

  /** A new counter whose (team, user) pair is not taken keeps the pairs
      unique. */
  lemma AddCounterKeepsNamesUnique(counters: map<Id, Counter>, newId: Id, c: Counter)
    requires UserNamesUniquePerTeam(counters)
    requires newId !in counters
    requires c.team.Some? ==> !HasUserCounter(counters, c.team.value, c.userName)
    ensures UserNamesUniquePerTeam(counters[newId := c])
  {
    var m := counters[newId := c];
    forall a, b | a in m && b in m && a != b && m[a].team.Some? && m[a].team == m[b].team
      ensures m[a].userName != m[b].userName
    {
      if a == newId {
        assert counters[b].team == Some(c.team.value);
      } else if b == newId {
        assert counters[a].team == Some(c.team.value);
      }
    }
  }

  /** Rewriting a counter without changing its user or team keeps the
      (team, user) pairs unique. */
  lemma ReplaceCounterKeepsNamesUnique(counters: map<Id, Counter>, id: Id, c: Counter)
    requires UserNamesUniquePerTeam(counters)
    requires id in counters
    requires c.userName == counters[id].userName && c.team == counters[id].team
    ensures UserNamesUniquePerTeam(counters[id := c])
  {
  }
}
