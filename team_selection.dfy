/**
 * The team-selection rule shared by the scheduled matching (src/matching.ts) and the
 * `/uc-match` command (src/commands/match.ts): which teams take part, which count as
 * least priority, which one is dropped on an odd count, and how teams are paired.
 */
module TeamSelection {
  import opened Text
  import opened Discord
  import opened Seqs
  import opened OldConfig

  /** Some member of the team holds a role named exactly `timeRoleName`. */
  predicate Participates(gs: GuildState, team: Role, timeRoleName: string)
  {
    exists m :: m in RoleMembers(gs.members, team) && HoldsRoleNamed(gs.roles, m, timeRoleName)
  }

  /**
   * `members.every(m => m.roles.cache.some(r => leastRoleName.includes(r.name)))`: every
   * member holds a role whose name occurs inside the least-priority role name.
   */
  predicate IsLeastTeam(gs: GuildState, team: Role)
  {
    forall m :: m in RoleMembers(gs.members, team) ==>
      exists r :: r in MemberRoles(gs.roles, m) && Includes(LeastRoleName, r.name)
  }

  /** `every` holds vacuously: a team without members is a least-priority team. */
  lemma MemberlessTeamIsLeast(gs: GuildState, team: Role)
    requires forall m :: m in gs.members ==> team.id !in m.roleIds
    ensures IsLeastTeam(gs, team)
  {
  }

  /**
   * The substring test is looser than the exact name: a team whose every member holds a
   * role named "試合" counts as least priority.
   */
  lemma LeastTestAcceptsSubstrings(gs: GuildState, team: Role, r: Role)
    requires r in gs.roles && r.name == "試合"
    requires forall m :: m in gs.members && team.id in m.roleIds ==> r.id in m.roleIds
    ensures IsLeastTeam(gs, team)
  {
    assert r.name <= LeastRoleName[0..];
    forall m | m in RoleMembers(gs.members, team)
      ensures exists r' :: r' in MemberRoles(gs.roles, m) && Includes(LeastRoleName, r'.name)
    {
      assert r in MemberRoles(gs.roles, m);
    }
  }

  /** The participation test as a filter predicate. */
  function ParticipatesTest(gs: GuildState, timeRoleName: string): Role -> bool
  {
    team => Participates(gs, team, timeRoleName)
  }

  /** The least-priority test as a filter predicate. */
  function LeastTest(gs: GuildState): Role -> bool
  {
    team => IsLeastTeam(gs, team)
  }

  /** Its negation. */
  function NormalTest(gs: GuildState): Role -> bool
  {
    team => !IsLeastTeam(gs, team)
  }

  /** The pool teams that take part: `participatingTeams`. */
  function ParticipatingTeams(gs: GuildState, pool: seq<Role>, timeRoleName: string): seq<Role>
  {
    Filter(pool, ParticipatesTest(gs, timeRoleName))
  }

  /** The pool teams counted as least priority: `leastRoleTeams`. */
  function LeastTeams(gs: GuildState, pool: seq<Role>): seq<Role>
  {
    Filter(pool, LeastTest(gs))
  }

  /** The other pool teams: `normalRoleTeams`. */
  function NormalTeams(gs: GuildState, pool: seq<Role>): seq<Role>
  {
    Filter(pool, NormalTest(gs))
  }

  /** Least and normal split the pool: nothing is lost, nothing is in both. */
  lemma PartitionSplitsPool(gs: GuildState, pool: seq<Role>)
    ensures multiset(LeastTeams(gs, pool)) + multiset(NormalTeams(gs, pool)) == multiset(pool)
    ensures forall r :: r in LeastTeams(gs, pool) ==> r !in NormalTeams(gs, pool)
  {
    FilterSplits(pool, LeastTest(gs), NormalTest(gs));
  }

  /** The loop over the pool filling `leastRoleTeams` and `normalRoleTeams`. */
  method SplitByLeast(gs: GuildState, teams: seq<Role>) returns (least: seq<Role>, normal: seq<Role>)
    ensures least == LeastTeams(gs, teams) && normal == NormalTeams(gs, teams)
  {
    least, normal := SplitBy(teams, LeastTest(gs), NormalTest(gs));
  }

  /** One pass pushing each team to the first list when it passes `p`, to the second otherwise. */
  method SplitBy(teams: seq<Role>, p: Role -> bool, q: Role -> bool) returns (yes: seq<Role>, no: seq<Role>)
    requires forall team :: q(team) == !p(team)
    ensures yes == Filter(teams, p) && no == Filter(teams, q)
  {
    yes, no := [], [];
    for i := 0 to |teams|
      invariant yes == Filter(teams[..i], p) && no == Filter(teams[..i], q)
    {
      SplitStep(teams, i, p, q);
      if p(teams[i]) {
        yes := yes + [teams[i]];
      } else {
        no := no + [teams[i]];
      }
    }
    assert teams[..|teams|] == teams;
  }

  lemma SplitStep(teams: seq<Role>, i: nat, p: Role -> bool, q: Role -> bool)
    requires i < |teams|
    ensures Filter(teams[..i + 1], p) == Filter(teams[..i], p) + (if p(teams[i]) then [teams[i]] else [])
    ensures Filter(teams[..i + 1], q) == Filter(teams[..i], q) + (if q(teams[i]) then [teams[i]] else [])
  {
    assert teams[..i + 1] == teams[..i] + [teams[i]];
    FilterSnoc(teams[..i], teams[i], p);
    FilterSnoc(teams[..i], teams[i], q);
  }

  predicate SortedByCreated(s: seq<Role>)
  {
    forall i, j :: 0 <= i < j < |s| ==> s[i].createdTimestamp <= s[j].createdTimestamp
  }

  /** Inserts r after every element created no later than it (what a stable sort does). */
  function InsertByCreated(r: Role, sorted: seq<Role>): (s: seq<Role>)
    ensures multiset(s) == multiset(sorted) + multiset{r}
    ensures |s| == |sorted| + 1
  {
    if sorted == [] then [r]
    else if r.createdTimestamp < sorted[0].createdTimestamp then [r] + sorted
    else
      assert sorted == [sorted[0]] + sorted[1..];
      [sorted[0]] + InsertByCreated(r, sorted[1..])
  }

  lemma {:induction false} InsertKeepsSorted(r: Role, sorted: seq<Role>)
    requires SortedByCreated(sorted)
    ensures SortedByCreated(InsertByCreated(r, sorted))
  {
    if sorted != [] {
      HeadIsEarliest(sorted);
      if r.createdTimestamp >= sorted[0].createdTimestamp {
        var tail := sorted[1..];
        assert forall x :: x in tail ==> x in sorted;
        InsertKeepsSorted(r, tail);
        InsertKeepsBound(r, tail, sorted[0].createdTimestamp);
        ConsKeepsSorted(sorted[0], InsertByCreated(r, tail));
      } else {
        ConsKeepsSorted(r, sorted);
      }
    }
  }

  /** The first element of a sorted list is created no later than any other. */
  lemma HeadIsEarliest(sorted: seq<Role>)
    requires sorted != [] && SortedByCreated(sorted)
    ensures forall x :: x in sorted ==> sorted[0].createdTimestamp <= x.createdTimestamp
  {
    forall x | x in sorted
      ensures sorted[0].createdTimestamp <= x.createdTimestamp
    {
      var k :| 0 <= k < |sorted| && sorted[k] == x;
      if k > 0 {
        assert sorted[0].createdTimestamp <= sorted[k].createdTimestamp;
      }
    }
  }

  /** The last element of a sorted list is created no earlier than any other. */
  lemma LastIsLatest(sorted: seq<Role>)
    requires sorted != [] && SortedByCreated(sorted)
    ensures forall x :: x in sorted ==> x.createdTimestamp <= sorted[|sorted| - 1].createdTimestamp
  {
    var n := |sorted|;
    forall x | x in sorted
      ensures x.createdTimestamp <= sorted[n - 1].createdTimestamp
    {
      var k :| 0 <= k < n && sorted[k] == x;
      if k < n - 1 {
        assert sorted[k].createdTimestamp <= sorted[n - 1].createdTimestamp;
      }
    }
  }

  /** Inserting an element created at or after `lo` into a list whose elements all are keeps that bound. */
  lemma {:induction false} InsertKeepsBound(r: Role, sorted: seq<Role>, lo: int)
    requires lo <= r.createdTimestamp
    requires forall x :: x in sorted ==> lo <= x.createdTimestamp
    ensures forall x :: x in InsertByCreated(r, sorted) ==> lo <= x.createdTimestamp
  {
    if sorted != [] && r.createdTimestamp >= sorted[0].createdTimestamp {
      assert forall x :: x in sorted[1..] ==> x in sorted;
      InsertKeepsBound(r, sorted[1..], lo);
    }
  }

  /** Putting an element no later than all of a sorted list in front keeps it sorted. */
  lemma ConsKeepsSorted(h: Role, rest: seq<Role>)
    requires SortedByCreated(rest)
    requires forall x :: x in rest ==> h.createdTimestamp <= x.createdTimestamp
    ensures SortedByCreated([h] + rest)
  {
    var s := [h] + rest;
    forall i, j | 0 <= i < j < |s|
      ensures s[i].createdTimestamp <= s[j].createdTimestamp
    {
      assert s[j] == rest[j - 1];
      if i == 0 {
        assert rest[j - 1] in rest;
      } else {
        assert s[i] == rest[i - 1];
      }
    }
  }

  /** `sort((a, b) => a.createdTimestamp - b.createdTimestamp)`: ascending creation time, stable. */
  function SortByCreated(s: seq<Role>): (sorted: seq<Role>)
    ensures multiset(sorted) == multiset(s)
    ensures |sorted| == |s|
    ensures SortedByCreated(sorted)
  {
    if s == [] then []
    else
      assert s == s[..|s| - 1] + [s[|s| - 1]];
      InsertKeepsSorted(s[|s| - 1], SortByCreated(s[..|s| - 1]));
      InsertByCreated(s[|s| - 1], SortByCreated(s[..|s| - 1]))
  }

  /** Sort ascending by creation time, then `pop()`: the rest and the popped team. */
  function PopLatest(teams: seq<Role>): (p: (seq<Role>, Role))
    requires teams != []
    ensures p.1 in teams
    ensures |p.0| + 1 == |teams|
  {
    var sorted := SortByCreated(teams);
    assert sorted == sorted[..|sorted| - 1] + [sorted[|sorted| - 1]];
    assert sorted[|sorted| - 1] in multiset(teams);
    (sorted[..|sorted| - 1], sorted[|sorted| - 1])
  }

  /** The popped team is one of the most recently created, and nothing else is lost. */
  lemma PopLatestIsLatest(teams: seq<Role>)
    requires teams != []
    ensures PopLatest(teams).1 in teams
    ensures forall r :: r in teams ==> r.createdTimestamp <= PopLatest(teams).1.createdTimestamp
    ensures multiset(PopLatest(teams).0) + multiset{PopLatest(teams).1} == multiset(teams)
  {
    var sorted := SortByCreated(teams);
    var n := |sorted|;
    var init, last := sorted[..n - 1], sorted[n - 1];
    assert PopLatest(teams).0 == init && PopLatest(teams).1 == last;
    assert sorted == init + [last];
    assert multiset(init) + multiset{last} == multiset(teams);
    LastIsLatest(sorted);
    SameElements(teams, sorted);
  }

  /** Lists with the same multiset have the same elements. */
  lemma SameElements(a: seq<Role>, b: seq<Role>)
    requires multiset(a) == multiset(b)
    ensures forall x :: x in a <==> x in b
  {
    forall x
      ensures x in a <==> x in b
    {
      assert x in a <==> x in multiset(a);
      assert x in b <==> x in multiset(b);
    }
  }

  /** Consecutive positions paired off: `(s[0], s[1]), (s[2], s[3]), ...`. */
  function PairUp(s: seq<Role>): (pairs: seq<(Role, Role)>)
    requires |s| % 2 == 0
    ensures |pairs| * 2 == |s|
  {
    if s == [] then [] else PairUp(s[..|s| - 2]) + [(s[|s| - 2], s[|s| - 1])]
  }

  /** The teams of a list of pairs, in order. */
  function Flatten(pairs: seq<(Role, Role)>): (s: seq<Role>)
    ensures |s| == 2 * |pairs|
  {
    if pairs == [] then [] else Flatten(pairs[..|pairs| - 1]) + [pairs[|pairs| - 1].0, pairs[|pairs| - 1].1]
  }

  /** Pairing loses, adds and reorders nothing. */
  lemma {:induction false} PairUpFlattens(s: seq<Role>)
    requires |s| % 2 == 0
    ensures Flatten(PairUp(s)) == s
  {
    if s != [] {
      var pairs := PairUp(s);
      PairUpFlattens(s[..|s| - 2]);
      assert pairs[..|pairs| - 1] == PairUp(s[..|s| - 2]);
      assert s == s[..|s| - 2] + [s[|s| - 2], s[|s| - 1]];
    }
  }

  lemma TwiceLessOneIsOdd(k: int)
    ensures (2 * k - 1) % 2 == 1
  {
  }

  /** A shuffle: it returns a rearrangement of whatever it is given. */
  ghost predicate Permutes(shuffle: seq<Role> -> seq<Role>)
  {
    forall s :: multiset(shuffle(s)) == multiset(s)
  }
}
