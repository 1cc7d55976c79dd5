/**
 * The two tables both managers share, and the uniqueness rules the managers
 * keep on them: team names are unique, and within one team no two counters
 * count for the same user.
 */
module Data {
  import opened Entities

  /** `k` is the least id of `s`. */
  predicate IsLeast(k: Id, s: set<Id>)
  {
    k in s && forall j :: j in s ==> k <= j
  }

  /** Every non-empty set of ids has a least element. */
  lemma {:induction false} LeastExists(s: set<Id>)
    requires s != {}
    ensures exists k :: IsLeast(k, s)
    decreases |s|
  {
    var x :| x in s;
    var rest := s - {x};
    if rest == {} {
      assert forall j :: j in s ==> j in rest || j == x;
      assert IsLeast(x, s);
    } else {
      LeastExists(rest);
      var m :| IsLeast(m, rest);
      var least := if x <= m then x else m;
      assert forall j :: j in s ==> j == x || j in rest;
      assert IsLeast(least, s);
    }
  }

  /** The least id of a non-empty set: the order in which
      `CounterManager.GetCounters`, `TeamManager.TeamSteps` and
      `TeamManager.Entries` walk a table, so that a walk is a function of the
      table alone. */
  function MinKey(s: set<Id>): (k: Id)
    requires s != {}
    ensures k in s
    ensures forall j :: j in s ==> k <= j
  {
    LeastExists(s);
    var k :| IsLeast(k, s);
    k
  }

  /** Taking one present row out of a table leaves one row fewer. */
  lemma RemoveOneRow<V>(m: map<Id, V>, k: Id)
    requires k in m
    ensures |m - {k}| == |m| - 1
  {
    assert (m - {k}).Keys == m.Keys - {k};
  }

  /** No two teams share a name. */
  predicate TeamNamesUnique(teams: map<Id, Team>)
  {
    forall a, b :: a in teams && b in teams && a != b ==> teams[a].name != teams[b].name
  }

  /** No two counters of the same team count for the same user. Counters
      without a team are not constrained. */
  predicate UserNamesUniquePerTeam(counters: map<Id, Counter>)
  {
    forall a, b ::
      a in counters && b in counters && a != b &&
      counters[a].team.Some? && counters[a].team == counters[b].team
      ==> counters[a].userName != counters[b].userName
  }

  /** The database context: the Teams table and the Counters table, keyed by
      row id. A counter's team is a reference by id into the Teams table. */
  class Store {
    var teams: map<Id, Team>
    var counters: map<Id, Counter>

    /** The uniqueness rules the managers' Create operations enforce. */
    predicate Valid()
      reads this
    {
      TeamNamesUnique(teams) && UserNamesUniquePerTeam(counters)
    }

    /** An empty database. */
    constructor ()
      ensures Valid()
      ensures teams == map[] && counters == map[]
    {
      teams := map[];
      counters := map[];
    }
  }
}
