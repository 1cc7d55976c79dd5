/**
 * The team service: create and delete teams, read one team with the sum of
 * its counters' steps, and build the leaderboard of every team ordered by
 * that sum, largest first.
 */
module TeamManager {
  import opened Entities
  import opened Data
  import CounterManager

  /** The total of the steps in a list of counters. */
  function SumSteps(cs: seq<CounterDto>): (total: int)
    ensures (forall i :: 0 <= i < |cs| ==> cs[i].steps >= 0) ==> total >= 0
  {
    if cs == [] then 0 else cs[0].steps + SumSteps(cs[1..])
  }

  /** What counter `c` adds to the total of team `teamId`. */
  function Share(c: Counter, teamId: Id): (share: int)
  {
    if c.team == Some(teamId) then c.stepsMade else 0
  }

  /** The sum of StepsMade over the counters of team `teamId`, walking the
      Counters table in id order. */
  function TeamSteps(counters: map<Id, Counter>, teamId: Id): (total: int)
    ensures (forall k :: k in counters ==> counters[k].stepsMade >= 0) ==> total >= 0
    decreases |counters|
  {
    if counters == map[] then 0
    else
      var k := MinKey(counters.Keys);
      RemoveOneRow(counters, k);
      Share(counters[k], teamId) + TeamSteps(counters - {k}, teamId)
  }

  /** The transfer object for an existing team, with its step total. */
  function Summary(teams: map<Id, Team>, counters: map<Id, Counter>, id: Id): (dto: TeamDto)
    requires id in teams
    ensures dto.id == id && dto.name == teams[id].name
    ensures (forall k :: k in counters ==> counters[k].stepsMade >= 0) ==> dto.totalSteps >= 0
  {
    TeamDto(id, teams[id].name, TeamSteps(counters, id))
  }

  /** Whether some team already has exactly this name. */
  predicate HasTeamNamed(teams: map<Id, Team>, name: string)
  {
    exists k :: k in teams && teams[k].name == name
  }

  /** Adds a team called `name` under the fresh id `newId`, stamped `now`.
      The id is fresh in the sense of a new GUID: no team has it and no
      counter refers to it. */
  method Create(db: Store, name: string, newId: Id, now: Time) returns (r: Result<TeamDto>)
    requires newId !in db.teams
    requires forall k :: k in db.counters ==> db.counters[k].team != Some(newId)
    modifies db
    ensures db.counters == old(db.counters)
    ensures HasTeamNamed(old(db.teams), name) ==>
      r == Err(AlreadyExists(TeamEntry)) && db.teams == old(db.teams)
    ensures !HasTeamNamed(old(db.teams), name) ==>
      r == Ok(TeamDto(newId, name, 0)) && db.teams == old(db.teams)[newId := Team(name, now)]
    ensures r.Ok? ==> Get(db.teams, db.counters, newId) == r
    ensures old(db.Valid()) ==> db.Valid()
  {
    if HasTeamNamed(db.teams, name) {
      return Err(AlreadyExists(TeamEntry));
    }
    NoCountersNoSteps(db.counters, newId);
    db.teams := db.teams[newId := Team(name, now)];
    r := Ok(TeamDto(newId, name, 0));
  }

  /** Removes the team `id` from the Teams table. What becomes of that team's
      own counters is decided by the database's delete rule, which this model
      leaves open: the contract only promises that no counter appears and
      that the counters of other teams are untouched. */
  method Delete(db: Store, id: Id) returns (r: Outcome)
    modifies db
    ensures id !in old(db.teams) ==>
      r == Failed(NotFound(TeamEntry, id)) && db.teams == old(db.teams) && db.counters == old(db.counters)
    ensures id in old(db.teams) ==> r == Done && db.teams == old(db.teams) - {id}
    ensures db.counters.Keys <= old(db.counters).Keys
    ensures forall k :: k in old(db.counters) && old(db.counters)[k].team != Some(id) ==>
      k in db.counters && db.counters[k] == old(db.counters)[k]
    ensures r == Done ==> Get(db.teams, db.counters, id) == Err(NotFound(TeamEntry, id))
    ensures old(db.Valid()) ==> db.Valid()
  {
    if id !in db.teams {
      return Failed(NotFound(TeamEntry, id));
    }
    db.teams := db.teams - {id};
    r := Done;
  }

  /** Team `id` with the sum of its counters' steps, or NotFound when there
      is no such team. */
  function Get(teams: map<Id, Team>, counters: map<Id, Counter>, id: Id): (r: Result<TeamDto>)
    ensures r.Ok? <==> id in teams
    ensures r.Err? ==> r.error == NotFound(TeamEntry, id)
    ensures r.Ok? ==> r.value.id == id && r.value.name == teams[id].name
    ensures r.Ok? ==> r.value.totalSteps == SumSteps(CounterManager.GetCounters(counters, id))
    ensures r.Ok? && (forall k :: k in counters ==> counters[k].team != Some(id)) ==>
      r.value.totalSteps == 0
  {
    if id !in teams then Err(NotFound(TeamEntry, id))
    else
      NoCountersNoSteps(counters, id);
      TeamStepsIsListedSum(counters, id);
      Ok(Summary(teams, counters, id))
  }

  /** One entry for each team of `ids`, each with its step total, in
      ascending id order. */
  function Entries(teams: map<Id, Team>, counters: map<Id, Counter>, ids: set<Id>): (r: seq<TeamDto>)
    requires ids <= teams.Keys
    ensures |r| == |ids|
    ensures forall i :: 0 <= i < |r| ==> r[i].id in ids && r[i] == Summary(teams, counters, r[i].id)
    ensures DistinctIds(r)
    decreases ids
  {
    if ids == {} then []
    else
      var k := MinKey(ids);
      var rest := Entries(teams, counters, ids - {k});
      ConsDistinct(Summary(teams, counters, k), rest);
      var r := [Summary(teams, counters, k)] + rest;
      assert forall j :: 0 <= j < |rest| ==> r[j + 1] == rest[j];
      r
  }

  /** An entry for a team not yet in a list without repeated ids can go in
      front of it. */
  lemma ConsDistinct(h: TeamDto, t: seq<TeamDto>)
    requires DistinctIds(t)
    requires forall j :: 0 <= j < |t| ==> t[j].id != h.id
    ensures DistinctIds([h] + t)
  {
    var r := [h] + t;
    forall i, j | 0 <= i < j < |r| ensures r[i].id != r[j].id {
      assert r[j] == t[j - 1];
      if i > 0 {
        assert r[i] == t[i - 1];
      }
    }
  }

  /** Every team of `ids` has its entry. */
  lemma {:induction false} EntriesCoverIds(teams: map<Id, Team>, counters: map<Id, Counter>, ids: set<Id>, id: Id)
    requires ids <= teams.Keys
    requires id in ids
    ensures Summary(teams, counters, id) in Entries(teams, counters, ids)
    decreases ids
  {
    var k := MinKey(ids);
    if id != k {
      EntriesCoverIds(teams, counters, ids - {k}, id);
    }
  }

  /** No two entries are for the same team. */
  predicate DistinctIds(s: seq<TeamDto>)
  {
    forall i, j :: 0 <= i < j < |s| ==> s[i].id != s[j].id
  }

  /** Ordered by total steps, largest first. */
  predicate SortedDesc(s: seq<TeamDto>)
  {
    forall i, j :: 0 <= i < j < |s| ==> s[i].totalSteps >= s[j].totalSteps
  }

  /** `x` placed into a sorted list ahead of the first entry with fewer
      steps. */
  function Insert(x: TeamDto, s: seq<TeamDto>): (r: seq<TeamDto>)
    requires SortedDesc(s)
    ensures SortedDesc(r)
    ensures multiset(r) == multiset(s) + multiset{x}
    ensures |r| == |s| + 1
    ensures r[0] == x || (s != [] && r[0] == s[0])
  {
    if s == [] || x.totalSteps >= s[0].totalSteps then
      ConsSorted(x, s);
      [x] + s
    else
      var rest := Insert(x, s[1..]);
      assert s == [s[0]] + s[1..];
      ConsSorted(s[0], rest);
      [s[0]] + rest
  }

  /** An entry with at least as many steps as the head of a sorted list can
      go in front of it. */
  lemma ConsSorted(h: TeamDto, t: seq<TeamDto>)
    requires SortedDesc(t)
    requires t != [] ==> h.totalSteps >= t[0].totalSteps
    ensures SortedDesc([h] + t)
  {
    var r := [h] + t;
    forall i, j | 0 <= i < j < |r| ensures r[i].totalSteps >= r[j].totalSteps {
      if i == 0 && j > 1 {
        assert r[j] == t[j - 1] && t[0].totalSteps >= t[j - 1].totalSteps;
      }
    }
  }

  /** The entries reordered by total steps, largest first (an insertion
      sort). */
  function SortByStepsDesc(s: seq<TeamDto>): (r: seq<TeamDto>)
    ensures SortedDesc(r)
    ensures multiset(r) == multiset(s)
  {
    if s == [] then []
    else
      assert s == [s[0]] + s[1..];
      Insert(s[0], SortByStepsDesc(s[1..]))
  }

  /** The leaderboard: every team exactly once with its step total, ordered
      by that total, largest first. Ties come in no promised order. */
  function GetAll(teams: map<Id, Team>, counters: map<Id, Counter>): (r: seq<TeamDto>)
    ensures SortedDesc(r)
    ensures |r| == |teams|
    ensures forall i :: 0 <= i < |r| ==> r[i].id in teams && r[i] == Summary(teams, counters, r[i].id)
    ensures forall id :: id in teams ==> Summary(teams, counters, id) in r
    ensures DistinctIds(r)
  {
    var entries := Entries(teams, counters, teams.Keys);
    var r := SortByStepsDesc(entries);
    assert |r| == |multiset(r)| == |multiset(entries)| == |entries|;
    forall i | 0 <= i < |r| ensures r[i].id in teams && r[i] == Summary(teams, counters, r[i].id) {
      SameElements(entries, r, r[i]);
    }
    forall id | id in teams ensures Summary(teams, counters, id) in r {
      EntriesCoverIds(teams, counters, teams.Keys, id);
      SameElements(entries, r, Summary(teams, counters, id));
    }
    PermutationKeepsDistinctIds(entries, r);
    r
  }

  /** A reordering has the same elements. */
  lemma SameElements(s: seq<TeamDto>, r: seq<TeamDto>, e: TeamDto)
    requires multiset(r) == multiset(s)
    ensures e in r <==> e in s
  {
    assert e in r <==> e in multiset(r);
    assert e in s <==> e in multiset(s);
  }

  /** A reordering of a list without repeated ids has no repeated ids. */
  lemma PermutationKeepsDistinctIds(s: seq<TeamDto>, r: seq<TeamDto>)
    requires multiset(r) == multiset(s)
    requires DistinctIds(s)
    ensures DistinctIds(r)
  {
    forall i, j | 0 <= i < j < |r| ensures r[i].id != r[j].id {
      if r[i].id == r[j].id {
        SameElements(s, r, r[i]);
        SameElements(s, r, r[j]);
        var p :| 0 <= p < |s| && s[p] == r[i];
        var q :| 0 <= q < |s| && s[q] == r[j];
        assert p == q;
        TwoPlacesCountTwice(r, i, j);
        DistinctCountOnce(s, r[i]);
      }
    }
  }

  /** A value at two places of a list occurs in it at least twice. */
  lemma TwoPlacesCountTwice(s: seq<TeamDto>, i: nat, j: nat)
    requires i < j < |s| && s[i] == s[j]
    ensures multiset(s)[s[i]] >= 2
  {
    assert s == s[..j] + s[j..];
    assert s[i] in s[..j];
    assert s[j] in s[j..];
  }

  /** In a list without repeated ids a value occurs at most once. */
  lemma {:induction false} DistinctCountOnce(s: seq<TeamDto>, e: TeamDto)
    requires DistinctIds(s)
    ensures multiset(s)[e] <= 1
  {
    if s != [] {
      assert s == [s[0]] + s[1..];
      DistinctCountOnce(s[1..], e);
      if s[0] == e {
        assert e !in s[1..];
      }
    }
  }

  /** A team's step total is any one counter's share plus the total over the
      remaining counters, whichever counter is taken out. */
  lemma {:induction false} TeamStepsSplit(counters: map<Id, Counter>, k: Id, teamId: Id)
    requires k in counters
    ensures TeamSteps(counters, teamId) == Share(counters[k], teamId) + TeamSteps(counters - {k}, teamId)
    decreases |counters|
  {
    var least := MinKey(counters.Keys);
    if k != least {
      RemoveOneRow(counters, least);
      TeamStepsSplit(counters - {least}, k, teamId);
      assert (counters - {least}) - {k} == (counters - {k}) - {least};
      RemoveOneRow(counters, k);
      var least' := MinKey((counters - {k}).Keys);
      assert least in (counters - {k}).Keys;
      assert least' in counters.Keys;
    }
  }

  /** The table walk and the sum over the team's listed counters agree: the
      total is the sum of the steps `GetCounters` lists for the team. */
  lemma {:induction false} TeamStepsIsListedSum(counters: map<Id, Counter>, teamId: Id)
    ensures TeamSteps(counters, teamId) == SumSteps(CounterManager.GetCounters(counters, teamId))
    decreases |counters|
  {
    if counters != map[] {
      var k := MinKey(counters.Keys);
      RemoveOneRow(counters, k);
      TeamStepsIsListedSum(counters - {k}, teamId);
      var rest := CounterManager.GetCounters(counters - {k}, teamId);
      if counters[k].team == Some(teamId) {
        var head := [CounterDto(k, counters[k].userName, counters[k].stepsMade)];
        assert CounterManager.GetCounters(counters, teamId) == head + rest;
        assert (head + rest)[1..] == rest;
      }
    }
  }

  /** A team no counter belongs to has a step total of zero. */
  lemma {:induction false} NoCountersNoSteps(counters: map<Id, Counter>, teamId: Id)
    ensures (forall k :: k in counters ==> counters[k].team != Some(teamId)) ==>
      TeamSteps(counters, teamId) == 0
    decreases |counters|
  {
    if counters != map[] {
      var k := MinKey(counters.Keys);
      RemoveOneRow(counters, k);
      NoCountersNoSteps(counters - {k}, teamId);
    }
  }

  /** A successful increment of counter `id` by `steps` raises its team's
      total by exactly `steps` and leaves every other team's total alone. */
  lemma IncrementMovesOnlyItsTeam(counters: map<Id, Counter>, id: Id, steps: int, now: Time, teamId: Id)
    requires id in counters
    ensures TeamSteps(counters[id := CounterManager.Incremented(counters[id], steps, now)], teamId) ==
      TeamSteps(counters, teamId) + (if counters[id].team == Some(teamId) then steps else 0)
  {
    var updated := counters[id := CounterManager.Incremented(counters[id], steps, now)];
    TeamStepsSplit(counters, id, teamId);
    TeamStepsSplit(updated, id, teamId);
    assert updated - {id} == counters - {id};
  }

  /** Adding a counter adds its share to its team's total and changes no
      other team's total. */
  lemma AddCounterAddsShare(counters: map<Id, Counter>, newId: Id, c: Counter, teamId: Id)
    requires newId !in counters
    ensures TeamSteps(counters[newId := c], teamId) == TeamSteps(counters, teamId) + Share(c, teamId)
  {
    TeamStepsSplit(counters[newId := c], newId, teamId);
    assert counters[newId := c] - {newId} == counters;
  }

  /** A new counter starts at zero steps, so creating one changes no team's
      total. */
  lemma CreateKeepsTotals(counters: map<Id, Counter>, newId: Id, userName: string, now: Time, owner: Id, teamId: Id)
    requires newId !in counters
    ensures TeamSteps(counters[newId := Counter(userName, 0, now, Some(owner))], teamId) == TeamSteps(counters, teamId)
  {
    AddCounterAddsShare(counters, newId, Counter(userName, 0, now, Some(owner)), teamId);
  }

  /** Deleting a counter takes exactly its steps off its team's total and
      changes no other team's total. */
  lemma DeleteTakesOffItsSteps(counters: map<Id, Counter>, id: Id, teamId: Id)
    requires id in counters
    ensures TeamSteps(counters - {id}, teamId) ==
      TeamSteps(counters, teamId) - (if counters[id].team == Some(teamId) then counters[id].stepsMade else 0)
  {
    TeamStepsSplit(counters, id, teamId);
  }

  /** The leaderboard and the single-team read agree on every team. */
  lemma GetAllAgreesWithGet(teams: map<Id, Team>, counters: map<Id, Counter>)
    ensures var board := GetAll(teams, counters);
      forall i :: 0 <= i < |board| ==> Get(teams, counters, board[i].id) == Ok(board[i])
  {
  }

  /** A stored team with two counters of 10 and 20 steps reads back with a
      total of 30. */
  lemma TwoCountersExample(teamId: Id, c1: Id, c2: Id)
    requires c1 != c2
    ensures Get(map[teamId := Team("Team C", 0)],
                map[c1 := Counter("user-1", 10, 0, Some(teamId)), c2 := Counter("user-2", 20, 0, Some(teamId))],
                teamId)
      == Ok(TeamDto(teamId, "Team C", 30))
  {
    var empty: map<Id, Counter> := map[];
    NoCountersNoSteps(empty, teamId);
    var one := empty[c2 := Counter("user-2", 20, 0, Some(teamId))];
    AddCounterAddsShare(empty, c2, Counter("user-2", 20, 0, Some(teamId)), teamId);
    AddCounterAddsShare(one, c1, Counter("user-1", 10, 0, Some(teamId)), teamId);
    assert one[c1 := Counter("user-1", 10, 0, Some(teamId))] ==
      map[c1 := Counter("user-1", 10, 0, Some(teamId)), c2 := Counter("user-2", 20, 0, Some(teamId))];
  }
}
