/**
 * The scheduled matching of the older generation (src/matching.ts): at match time the
 * teams whose members raised a hand are paired off at random, dropping one team when
 * their number is odd, and the pairing is posted with a mention of the time role.
 */
module Matching {
  import opened Wrappers
  import opened Text
  import opened Primitives
  import opened Discord
  import opened Seqs
  import opened OldConfig
  import opened OldUtils
  import opened TeamSelection

  /** A posted pairing: the pairs, the team left out (if any) and the message text. */
  datatype Matched = Matched(pairs: seq<(Role, Role)>, excluded: Option<Role>, message: string)

  // ---------------------------------------------------------------------------------
  // Specification

  /** The `teamRoles` Set: for each name in turn, the first guild role so named, if any, once. */
  function PoolOf(roles: seq<Role>, names: seq<string>): (pool: seq<Role>)
    ensures forall r :: r in pool <==> r.name in names && FindByName(roles, r.name) == Some(r)
    ensures forall i, j :: 0 <= i < j < |pool| ==> pool[i] != pool[j]
  {
    if names == [] then []
    else
      var init := names[..|names| - 1];
      var last := names[|names| - 1];
      assert forall n :: n in names <==> n in init || n == last;
      var pool := PoolOf(roles, init);
      match FindByName(roles, last)
      case None => pool
      case Some(role) => if role in pool then pool else pool + [role]
  }

  function TeamPool(roles: seq<Role>): seq<Role>
  {
    PoolOf(roles, AcceptRolls)
  }

  /**
   * `finalTeams` and `excludedTeam`: on an even count the participating teams; on an odd
   * count the least pool (or, if it is empty, the normal pool) sorted by creation time
   * with its last team popped, followed by the normal pool.
   */
  function SelectFinal(participating: seq<Role>, least: seq<Role>, normal: seq<Role>): (r: (seq<Role>, Option<Role>))
    ensures r.1.Some? <==> |participating| % 2 == 1 && (|least| > 0 || |normal| > 0)
    ensures |participating| % 2 == 1 && |least| > 0 ==> r.1.Some? && r.1.value in least
    ensures r.1.Some? ==> r.1.value in least + normal
  {
    if |participating| % 2 == 0 then (participating, None)
    else if |least| > 0 then (PopLatest(least).0 + normal, Some(PopLatest(least).1))
    else if |normal| > 0 then (PopLatest(normal).0 + normal, Some(PopLatest(normal).1))
    else ([], None)
  }

  /** `returnRoleNameWithLeastTag(team)` for a team that is present. */
  function DisplayName(gs: GuildState, team: Role): string
  {
    ReturnRoleNameWithLeastTag(gs, Some(team)).value
  }

  function Header(time: int): string
  {
    "## 試合 (時間:" + DecimalString(time) + "時) の組み合わせ:\n"
  }

  function PairLine(gs: GuildState, pair: (Role, Role)): string
  {
    "- **" + DisplayName(gs, pair.0) + "** vs **" + DisplayName(gs, pair.1) + "**\n"
  }

  function PairLines(gs: GuildState, pairs: seq<(Role, Role)>): string
  {
    if pairs == [] then "" else PairLines(gs, pairs[..|pairs| - 1]) + PairLine(gs, pairs[|pairs| - 1])
  }

  function ExcludedLine(gs: GuildState, excluded: Option<Role>): string
  {
    match excluded
    case None => ""
    case Some(team) => "**" + DisplayName(gs, team) + "** はチーム数が奇数のため、マッチングしませんでした\n"
  }

  /** `<@&id>`: a mention of the time role. */
  function Mention(role: Role): string
  {
    "<@&" + NatString(role.id) + ">"
  }

  /**
   * What `matching` posts. The guild fetch is an Option (None: no guild); `shuffle` is the
   * random reordering.
   */
  function MatchingSpec(c: Crypto, guild: Option<GuildState>, time: int, shuffle: seq<Role> -> seq<Role>): Outcome<Matched>
  {
    if time !in OldConfig.StartOclocks then Rejected(NotStartOclock)
    else if GetTimeRoleName(c, time).None? then Rejected(InvalidTimeRole)
    else if guild.None? then Rejected(NoGuild)
    else
      match FindByName(guild.value.roles, GetTimeRoleName(c, time).value)
      case None => Rejected(NoTimeRole)
      case Some(timeRole) => PairingSpec(guild.value, TeamPool(guild.value.roles), time, timeRole, shuffle)
  }

  /**
   * The part inside the `try`, once the time role is found. A final list of odd length
   * makes the pairing loop call `returnRoleNameWithLeastTag(undefined)`, which throws:
   * the error embed (Failed).
   */
  function PairingSpec(gs: GuildState, pool: seq<Role>, time: int, timeRole: Role, shuffle: seq<Role> -> seq<Role>)
    : (out: Outcome<Matched>)
    ensures out.Rejected? ==> out.reason == NotEnoughTeams || out.reason == Failed
  {
    var participating := ParticipatingTeams(gs, pool, timeRole.name);
    if |participating| < 2 then Rejected(NotEnoughTeams)
    else
      var (final, excluded) := SelectFinal(participating, LeastTeams(gs, pool), NormalTeams(gs, pool));
      var shuffled := shuffle(final);
      if |shuffled| % 2 != 0 then Rejected(Failed)
      else
        var pairs := PairUp(shuffled);
        Done(Matched(pairs, excluded,
                     Header(time) + PairLines(gs, pairs) + ExcludedLine(gs, excluded) + Mention(timeRole)))
  }

  // ---------------------------------------------------------------------------------
  // The handler and its loops

  /** The loop over the accepted names filling the `teamRoles` Set. */
  method CollectTeamRoles(roles: seq<Role>) returns (teams: seq<Role>)
    ensures teams == TeamPool(roles)
  {
    teams := [];
    for i := 0 to |AcceptRolls|
      invariant teams == PoolOf(roles, AcceptRolls[..i])
    {
      assert AcceptRolls[..i + 1][..i] == AcceptRolls[..i];
      var role := FindByName(roles, AcceptRolls[i]);
      if role.None? {
        continue;
      }
      if role.value !in teams {
        teams := teams + [role.value];
      }
    }
    assert AcceptRolls[..|AcceptRolls|] == AcceptRolls;
  }

  /** The `forEach` filling `participatingTeams`. */
  method CollectParticipating(gs: GuildState, teams: seq<Role>, timeRoleName: string) returns (participating: seq<Role>)
    ensures participating == ParticipatingTeams(gs, teams, timeRoleName)
  {
    participating := [];
    for i := 0 to |teams|
      invariant participating == ParticipatingTeams(gs, teams[..i], timeRoleName)
    {
      assert teams[..i + 1] == teams[..i] + [teams[i]];
      FilterSnoc(teams[..i], teams[i], ParticipatesTest(gs, timeRoleName));
      if Participates(gs, teams[i], timeRoleName) {
        participating := participating + [teams[i]];
      }
    }
    assert teams[..|teams|] == teams;
  }

  /**
   * The `i += 2` loop appending one line per pair; None when it reaches a team without a
   * partner (the call on `undefined` throws).
   */
  method PairTeams(gs: GuildState, shuffled: seq<Role>) returns (result: Option<(seq<(Role, Role)>, string)>)
    ensures result.Some? <==> |shuffled| % 2 == 0
    ensures result.Some? ==> result.value.0 == PairUp(shuffled) && result.value.1 == PairLines(gs, PairUp(shuffled))
  {
    var pairs: seq<(Role, Role)> := [];
    var lines := "";
    var i := 0;
    while i < |shuffled|
      invariant 0 <= i <= |shuffled| && i % 2 == 0
      invariant pairs == PairUp(shuffled[..i]) && lines == PairLines(gs, pairs)
    {
      if i + 1 >= |shuffled| {
        return None;
      }
      assert shuffled[..i + 2][..i] == shuffled[..i];
      pairs := pairs + [(shuffled[i], shuffled[i + 1])];
      lines := lines + PairLine(gs, (shuffled[i], shuffled[i + 1]));
      i := i + 2;
    }
    assert shuffled[..i] == shuffled;
    return Some((pairs, lines));
  }

  /** The sort-and-pop step choosing `finalTeams` and `excludedTeam`. */
  method ChooseFinal(participating: seq<Role>, least: seq<Role>, normal: seq<Role>)
    returns (final: seq<Role>, excluded: Option<Role>)
    ensures (final, excluded) == SelectFinal(participating, least, normal)
  {
    excluded := None;
    if |participating| % 2 != 0 {
      if |least| > 0 {
        var sorted := SortByCreated(least);
        final, excluded := sorted[..|sorted| - 1], Some(sorted[|sorted| - 1]);
        assert PopLatest(least) == (final, excluded.value);
      } else if |normal| > 0 {
        var sorted := SortByCreated(normal);
        final, excluded := sorted[..|sorted| - 1], Some(sorted[|sorted| - 1]);
        assert PopLatest(normal) == (final, excluded.value);
      } else {
        final := [];
        assert final + normal == [];
      }
      final := final + normal;
    } else {
      final := participating;
    }
  }

  /** The `try` block: pool, participants, partition, selection, shuffle and pairing. */
  method MatchTeams(gs: GuildState, time: int, timeRole: Role, shuffle: seq<Role> -> seq<Role>)
    returns (out: Outcome<Matched>)
    ensures out == PairingSpec(gs, TeamPool(gs.roles), time, timeRole, shuffle)
  {
    var teams := CollectTeamRoles(gs.roles);
    var participating := CollectParticipating(gs, teams, timeRole.name);
    if |participating| < 2 {
      return Rejected(NotEnoughTeams);
    }
    var least, normal := SplitByLeast(gs, teams);
    var final, excluded := ChooseFinal(participating, least, normal);
    var shuffled := shuffle(final);
    var paired := PairTeams(gs, shuffled);
    if paired.None? {
      return Rejected(Failed);
    }
    var message := Header(time) + paired.value.1 + ExcludedLine(gs, excluded) + Mention(timeRole);
    return Done(Matched(paired.value.0, excluded, message));
  }

  /** `matching({client, channelId, guildId, time})`. */
  method Matching(c: Crypto, guild: Option<GuildState>, time: int, shuffle: seq<Role> -> seq<Role>)
    returns (out: Outcome<Matched>)
    ensures out == MatchingSpec(c, guild, time, shuffle)
  {
    var timeRoleName := GetTimeRoleName(c, time);
    if time !in OldConfig.StartOclocks {
      return Rejected(NotStartOclock);
    }
    if timeRoleName.None? {
      return Rejected(InvalidTimeRole);
    }
    if guild.None? {
      return Rejected(NoGuild);
    }
    var timeRole := FindByName(guild.value.roles, timeRoleName.value);
    if timeRole.None? {
      return Rejected(NoTimeRole);
    }
    out := MatchTeams(guild.value, time, timeRole.value, shuffle);
  }

  // ---------------------------------------------------------------------------------
  // Properties

  /** The pool holds, once each, the first guild role carrying each accepted team name. */
  lemma TeamPoolIsFirstOfEachName(roles: seq<Role>, r: Role)
    ensures r in TeamPool(roles) <==> r.name in AcceptRolls && FindByName(roles, r.name) == Some(r)
  {
  }

  /** The guard order: each rejection happens exactly when the earlier checks pass and its own fails. */
  lemma MatchingGuards(c: Crypto, guild: Option<GuildState>, time: int, shuffle: seq<Role> -> seq<Role>)
    ensures time !in OldConfig.StartOclocks <==> MatchingSpec(c, guild, time, shuffle) == Rejected(NotStartOclock)
    ensures MatchingSpec(c, guild, time, shuffle) != Rejected(InvalidTimeRole)
    ensures time in OldConfig.StartOclocks && guild.None? <==> MatchingSpec(c, guild, time, shuffle) == Rejected(NoGuild)
  {
    if time in OldConfig.StartOclocks {
      assert GetTimeRoleName(c, time) == Some(ParseTimeRoleName(c, time));
    }
  }

  /** A guild without the hour's time role is turned down as such, and only then. */
  lemma MissingTimeRoleIsRejected(c: Crypto, guild: Option<GuildState>, time: int, shuffle: seq<Role> -> seq<Role>)
    ensures MatchingSpec(c, guild, time, shuffle) == Rejected(NoTimeRole) <==>
      time in OldConfig.StartOclocks && guild.Some? && FindByName(guild.value.roles, ParseTimeRoleName(c, time)).None?
  {
  }

  /** Fewer than two participating teams: no pairing. */
  lemma TooFewTeamsAreRejected(c: Crypto, gs: GuildState, time: int, shuffle: seq<Role> -> seq<Role>)
    requires time in OldConfig.StartOclocks && FindByName(gs.roles, ParseTimeRoleName(c, time)).Some?
    requires |ParticipatingTeams(gs, TeamPool(gs.roles), ParseTimeRoleName(c, time))| < 2
    ensures MatchingSpec(c, Some(gs), time, shuffle) == Rejected(NotEnoughTeams)
  {
  }

  /** An even number of participating teams are all paired, each once, and nobody is left out. */
  lemma EvenCountPairsParticipants(c: Crypto, gs: GuildState, time: int, shuffle: seq<Role> -> seq<Role>)
    requires Permutes(shuffle)
    requires time in OldConfig.StartOclocks && FindByName(gs.roles, ParseTimeRoleName(c, time)).Some?
    requires var p := ParticipatingTeams(gs, TeamPool(gs.roles), ParseTimeRoleName(c, time)); |p| >= 2 && |p| % 2 == 0
    ensures MatchingSpec(c, Some(gs), time, shuffle).Done?
    ensures MatchingSpec(c, Some(gs), time, shuffle).value.excluded.None?
    ensures multiset(Flatten(MatchingSpec(c, Some(gs), time, shuffle).value.pairs)) ==
            multiset(ParticipatingTeams(gs, TeamPool(gs.roles), ParseTimeRoleName(c, time)))
  {
    var p := ParticipatingTeams(gs, TeamPool(gs.roles), ParseTimeRoleName(c, time));
    assert |multiset(shuffle(p))| == |multiset(p)|;
    PairUpFlattens(shuffle(p));
  }

  /**
   * An odd count with a non-empty least pool: the least team created last is left out,
   * and (when the pairing goes through) the other least teams and every normal team are
   * paired, participating or not.
   */
  lemma OddCountDropsLatestLeastTeam(c: Crypto, gs: GuildState, time: int, shuffle: seq<Role> -> seq<Role>)
    requires Permutes(shuffle)
    requires time in OldConfig.StartOclocks && FindByName(gs.roles, ParseTimeRoleName(c, time)).Some?
    requires var p := ParticipatingTeams(gs, TeamPool(gs.roles), ParseTimeRoleName(c, time)); |p| >= 2 && |p| % 2 == 1
    requires LeastTeams(gs, TeamPool(gs.roles)) != []
    ensures var out := MatchingSpec(c, Some(gs), time, shuffle);
      out.Done? ==>
        && out.value.excluded.Some?
        && IsLeastTeam(gs, out.value.excluded.value)
        && out.value.excluded.value in TeamPool(gs.roles)
        && (forall r :: r in LeastTeams(gs, TeamPool(gs.roles)) ==>
              r.createdTimestamp <= out.value.excluded.value.createdTimestamp)
        && multiset(Flatten(out.value.pairs)) + multiset{out.value.excluded.value} == multiset(TeamPool(gs.roles))
  {
    var pool := TeamPool(gs.roles);
    var p := ParticipatingTeams(gs, pool, ParseTimeRoleName(c, time));
    var least, normal := LeastTeams(gs, pool), NormalTeams(gs, pool);
    PartitionSplitsPool(gs, pool);
    OddLeastSelection(p, least, normal, shuffle);
    MatchingOutcome(c, gs, time, shuffle);
  }

  /** Once the guards pass with two or more teams, the reply pairs the shuffled final list and reports its excluded team. */
  lemma MatchingOutcome(c: Crypto, gs: GuildState, time: int, shuffle: seq<Role> -> seq<Role>)
    requires time in OldConfig.StartOclocks && FindByName(gs.roles, ParseTimeRoleName(c, time)).Some?
    requires |ParticipatingTeams(gs, TeamPool(gs.roles), ParseTimeRoleName(c, time))| >= 2
    ensures var pool := TeamPool(gs.roles);
      var sel := SelectFinal(ParticipatingTeams(gs, pool, ParseTimeRoleName(c, time)), LeastTeams(gs, pool), NormalTeams(gs, pool));
      var out := MatchingSpec(c, Some(gs), time, shuffle);
      out.Done? ==> |shuffle(sel.0)| % 2 == 0 && out.value.pairs == PairUp(shuffle(sel.0)) && out.value.excluded == sel.1
  {
  }

  /**
   * On an odd count with least teams, the latest least team is excluded and the pairs of
   * the rest cover both pools.
   */
  lemma OddLeastSelection(participating: seq<Role>, least: seq<Role>, normal: seq<Role>, shuffle: seq<Role> -> seq<Role>)
    requires Permutes(shuffle)
    requires |participating| % 2 == 1 && least != []
    ensures var (final, excluded) := SelectFinal(participating, least, normal);
      && excluded.Some? && excluded.value in least
      && (forall r :: r in least ==> r.createdTimestamp <= excluded.value.createdTimestamp)
      && (|shuffle(final)| % 2 == 0 ==>
            multiset(Flatten(PairUp(shuffle(final)))) + multiset{excluded.value} == multiset(least) + multiset(normal))
  {
    var rest, latest := PopLatest(least).0, PopLatest(least).1;
    assert SelectFinal(participating, least, normal) == (rest + normal, Some(latest));
    PopLatestIsLatest(least);
    var shuffled := shuffle(rest + normal);
    if |shuffled| % 2 == 0 {
      PairUpFlattens(shuffled);
      calc {
        multiset(Flatten(PairUp(shuffled))) + multiset{latest};
        multiset(shuffled) + multiset{latest};
        multiset(rest + normal) + multiset{latest};
        multiset(rest) + multiset{latest} + multiset(normal);
        multiset(least) + multiset(normal);
      }
    }
  }

  /** With no least team, the odd-count final list (normal pool minus one, then the normal pool) has odd length. */
  lemma {:induction false} SelectWithoutLeastIsOdd(participating: seq<Role>, normal: seq<Role>)
    requires |participating| % 2 == 1 && normal != []
    ensures |SelectFinal(participating, [], normal).0| == 2 * |normal| - 1
    ensures |SelectFinal(participating, [], normal).0| % 2 == 1
  {
    TwiceLessOneIsOdd(|normal|);
  }

  /**
   * An odd count with an empty least pool: the final list is the normal pool minus its
   * latest team followed by the whole normal pool again, which has odd length, so the
   * pairing loop reaches a missing partner and the run ends in the error reply.
   */
  lemma OddCountWithoutLeastTeamsFails(c: Crypto, gs: GuildState, time: int, shuffle: seq<Role> -> seq<Role>)
    requires Permutes(shuffle)
    requires time in OldConfig.StartOclocks && FindByName(gs.roles, ParseTimeRoleName(c, time)).Some?
    requires var p := ParticipatingTeams(gs, TeamPool(gs.roles), ParseTimeRoleName(c, time)); |p| >= 2 && |p| % 2 == 1
    requires LeastTeams(gs, TeamPool(gs.roles)) == []
    ensures MatchingSpec(c, Some(gs), time, shuffle) == Rejected(Failed)
  {
    var timeRole := FindByName(gs.roles, ParseTimeRoleName(c, time)).value;
    assert MatchingSpec(c, Some(gs), time, shuffle) == PairingSpec(gs, TeamPool(gs.roles), time, timeRole, shuffle);
    PairingWithoutLeastFails(gs, TeamPool(gs.roles), time, timeRole, shuffle);
  }

  lemma PairingWithoutLeastFails(gs: GuildState, pool: seq<Role>, time: int, timeRole: Role, shuffle: seq<Role> -> seq<Role>)
    requires Permutes(shuffle)
    requires var p := ParticipatingTeams(gs, pool, timeRole.name); |p| >= 2 && |p| % 2 == 1
    requires LeastTeams(gs, pool) == []
    ensures PairingSpec(gs, pool, time, timeRole, shuffle) == Rejected(Failed)
  {
    var p := ParticipatingTeams(gs, pool, timeRole.name);
    var normal := NormalTeams(gs, pool);
    FilterNoneLeavesAll(pool, LeastTest(gs), NormalTest(gs));
    assert normal == pool;
    assert p[0] in pool;
    SelectWithoutLeastIsOdd(p, normal);
    var final := SelectFinal(p, LeastTeams(gs, pool), normal).0;
    var shuffled := shuffle(final);
    assert |shuffled| == |final| by {
      assert |multiset(shuffled)| == |multiset(final)|;
    }
  }
}
