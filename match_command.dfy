/**
 * The `/uc-match` command (src/commands/match.ts): the on-demand variant of the matching,
 * built on the older helpers. Its pool is every guild role with a team name, and on an
 * odd count every pool team but the dropped one is paired, participating or not.
 */
module MatchCommand {
  import opened Wrappers
  import opened Text
  import opened Primitives
  import opened Discord
  import opened Seqs
  import opened OldConfig
  import opened OldUtils
  import opened TeamSelection

  /** The reply: the pairs, the team left out (if any) and the message text. */
  datatype Reply = Reply(pairs: seq<(Role, Role)>, excluded: Option<Role>, message: string)

  // ---------------------------------------------------------------------------------
  // Specification

  /** `guild.roles.cache.filter((role) => acceptRolls.includes(role.name))`, in cache order. */
  function CommandPool(roles: seq<Role>): (pool: seq<Role>)
    ensures forall r :: r in pool <==> r in roles && r.name in AcceptRolls
  {
    Filter(roles, (role: Role) => role.name in AcceptRolls)
  }

  /**
   * `finalTeams` and `excludedTeam`: on an even count the participating teams; on an odd
   * count the least pool (or, if empty, the normal pool) loses its latest team in place,
   * and the final list is what is left of the least pool followed by the normal pool.
   */
  function CommandSelect(participating: seq<Role>, least: seq<Role>, normal: seq<Role>): (r: (seq<Role>, Option<Role>))
    ensures r.1.Some? <==> |participating| % 2 == 1 && (|least| > 0 || |normal| > 0)
    ensures |participating| % 2 == 1 && |least| > 0 ==> r.1.Some? && r.1.value in least
    ensures r.1.Some? ==> r.1.value in least + normal
  {
    if |participating| % 2 == 0 then (participating, None)
    else if |least| > 0 then (PopLatest(least).0 + normal, Some(PopLatest(least).1))
    else if |normal| > 0 then (least + PopLatest(normal).0, Some(PopLatest(normal).1))
    else (least + normal, None)
  }

  function Header(time: int): string
  {
    "## 試合 (時間:" + DecimalString(time) + "時) の組み合わせ:\n"
  }

  function PairLine(pair: (Role, Role)): string
  {
    "- **" + pair.0.name + "** vs **" + pair.1.name + "**\n"
  }

  function PairLines(pairs: seq<(Role, Role)>): string
  {
    if pairs == [] then "" else PairLines(pairs[..|pairs| - 1]) + PairLine(pairs[|pairs| - 1])
  }

  function ExcludedLine(excluded: Option<Role>): string
  {
    match excluded
    case None => ""
    case Some(team) => "**" + team.name + "** はチーム数が奇数のため、マッチングしませんでした\n"
  }

  function Mention(role: Role): string
  {
    "<@&" + NatString(role.id) + ">"
  }

  /**
   * What `execute` replies. `guild` is None when the interaction has no guild, `caller` is
   * the invoking member and `shuffle` the random reordering.
   */
  function MatchSpec(c: Crypto, guild: Option<GuildState>, caller: Member, time: int,
                     shuffle: seq<Role> -> seq<Role>): Outcome<Reply>
  {
    if time !in OldConfig.StartOclocks then Rejected(NotStartOclock)
    else if GetTimeRoleName(c, time).None? then Rejected(InvalidTimeRole)
    else if guild.None? then Rejected(NoGuild)
    else
      match FindByName(guild.value.roles, GetTimeRoleName(c, time).value)
      case None => Rejected(NoTimeRole)
      case Some(timeRole) =>
        if !caller.isAdmin && !CheckHasAcceptRole(guild.value.roles, caller) then Rejected(NoAcceptRole)
        else CommandPairing(guild.value, CommandPool(guild.value.roles), time, timeRole, shuffle)
  }

  /**
   * The `try` block once the guards pass. A final list of odd length makes the pairing
   * loop read `.name` of `undefined`, which throws: the error reply (Failed).
   */
  function CommandPairing(gs: GuildState, pool: seq<Role>, time: int, timeRole: Role,
                          shuffle: seq<Role> -> seq<Role>): (out: Outcome<Reply>)
    ensures out.Rejected? ==> out.reason == NotEnoughTeams || out.reason == Failed
  {
    var participating := ParticipatingTeams(gs, pool, timeRole.name);
    if |participating| < 2 then Rejected(NotEnoughTeams)
    else
      var (final, excluded) := CommandSelect(participating, LeastTeams(gs, pool), NormalTeams(gs, pool));
      var shuffled := shuffle(final);
      if |shuffled| % 2 != 0 then Rejected(Failed)
      else
        var pairs := PairUp(shuffled);
        Done(Reply(pairs, excluded, Header(time) + PairLines(pairs) + ExcludedLine(excluded) + Mention(timeRole)))
  }

  // ---------------------------------------------------------------------------------
  // The handler and its loops

  /** The `i += 2` loop; None when it reaches a team without a partner. */
  method PairNames(shuffled: seq<Role>) returns (result: Option<(seq<(Role, Role)>, string)>)
    ensures result.Some? <==> |shuffled| % 2 == 0
    ensures result.Some? ==> result.value.0 == PairUp(shuffled) && result.value.1 == PairLines(PairUp(shuffled))
  {
    var pairs: seq<(Role, Role)> := [];
    var lines := "";
    var i := 0;
    while i < |shuffled|
      invariant 0 <= i <= |shuffled| && i % 2 == 0
      invariant pairs == PairUp(shuffled[..i]) && lines == PairLines(pairs)
    {
      if i + 1 >= |shuffled| {
        return None;
      }
      assert shuffled[..i + 2][..i] == shuffled[..i];
      pairs := pairs + [(shuffled[i], shuffled[i + 1])];
      lines := lines + PairLine((shuffled[i], shuffled[i + 1]));
      i := i + 2;
    }
    assert shuffled[..i] == shuffled;
    return Some((pairs, lines));
  }

  /** The sort-and-pop on the least or the normal array, and the concatenation. */
  method ChooseFinal(participating: seq<Role>, least: seq<Role>, normal: seq<Role>)
    returns (final: seq<Role>, excluded: Option<Role>)
    ensures (final, excluded) == CommandSelect(participating, least, normal)
  {
    excluded := None;
    final := participating;
    if |participating| % 2 != 0 {
      var leastTeams, normalTeams := least, normal;
      if |leastTeams| > 0 {
        leastTeams := SortByCreated(leastTeams);
        excluded := Some(leastTeams[|leastTeams| - 1]);
        leastTeams := leastTeams[..|leastTeams| - 1];
        assert PopLatest(least) == (leastTeams, excluded.value);
      } else if |normalTeams| > 0 {
        normalTeams := SortByCreated(normalTeams);
        excluded := Some(normalTeams[|normalTeams| - 1]);
        normalTeams := normalTeams[..|normalTeams| - 1];
        assert PopLatest(normal) == (normalTeams, excluded.value);
      }
      final := leastTeams + normalTeams;
    }
  }

  /** The `try` block. */
  method PairPool(gs: GuildState, time: int, timeRole: Role, shuffle: seq<Role> -> seq<Role>)
    returns (out: Outcome<Reply>)
    ensures out == CommandPairing(gs, CommandPool(gs.roles), time, timeRole, shuffle)
  {
    var teams := CommandPool(gs.roles);
    var participating := ParticipatingTeams(gs, teams, timeRole.name);
    if |participating| < 2 {
      return Rejected(NotEnoughTeams);
    }
    var least, normal := SplitByLeast(gs, teams);
    var final, excluded := ChooseFinal(participating, least, normal);
    var shuffled := shuffle(final);
    var paired := PairNames(shuffled);
    if paired.None? {
      return Rejected(Failed);
    }
    var message := Header(time) + paired.value.1 + ExcludedLine(excluded) + Mention(timeRole);
    return Done(Reply(paired.value.0, excluded, message));
  }

  /** `execute(interaction)` of `/uc-match`. */
  method Execute(c: Crypto, guild: Option<GuildState>, caller: Member, time: int, shuffle: seq<Role> -> seq<Role>)
    returns (out: Outcome<Reply>)
    ensures out == MatchSpec(c, guild, caller, time, shuffle)
  {
    var timeRoleName := GetTimeRoleName(c, time);
    if time !in OldConfig.StartOclocks {
      return Rejected(NotStartOclock);
    }
    if timeRoleName.None? {
      return Rejected(InvalidTimeRole);
    }
    if guild.None? {
      return Rejected(NoGuild);
    }
    var timeRole := FindByName(guild.value.roles, timeRoleName.value);
    if timeRole.None? {
      return Rejected(NoTimeRole);
    }
    if !caller.isAdmin && !CheckHasAcceptRole(guild.value.roles, caller) {
      return Rejected(NoAcceptRole);
    }
    out := PairPool(guild.value, time, timeRole.value, shuffle);
  }

  // ---------------------------------------------------------------------------------
  // Properties

  /** The guard order: the hour is checked before anything else, the caller last. */
  lemma MatchGuards(c: Crypto, guild: Option<GuildState>, caller: Member, time: int, shuffle: seq<Role> -> seq<Role>)
    ensures time !in OldConfig.StartOclocks <==> MatchSpec(c, guild, caller, time, shuffle) == Rejected(NotStartOclock)
    ensures MatchSpec(c, guild, caller, time, shuffle) != Rejected(InvalidTimeRole)
    ensures time in OldConfig.StartOclocks && guild.None? <==> MatchSpec(c, guild, caller, time, shuffle) == Rejected(NoGuild)
    ensures MatchSpec(c, guild, caller, time, shuffle) == Rejected(NoAcceptRole) <==>
      && time in OldConfig.StartOclocks && guild.Some?
      && FindByName(guild.value.roles, ParseTimeRoleName(c, time)).Some?
      && !caller.isAdmin && !CheckHasAcceptRole(guild.value.roles, caller)
  {
  }

  /** The pool is every guild role carrying an accepted team name, duplicates included. */
  lemma CommandPoolIsAcceptedRoles(roles: seq<Role>, r: Role)
    ensures r in CommandPool(roles) <==> r in roles && r.name in AcceptRolls
  {
  }

  /** Once the guards pass, fewer than two participating teams: no pairing. */
  lemma TooFewTeamsAreRejected(c: Crypto, gs: GuildState, caller: Member, time: int, shuffle: seq<Role> -> seq<Role>)
    requires time in OldConfig.StartOclocks && FindByName(gs.roles, ParseTimeRoleName(c, time)).Some?
    requires caller.isAdmin || CheckHasAcceptRole(gs.roles, caller)
    requires |ParticipatingTeams(gs, CommandPool(gs.roles), ParseTimeRoleName(c, time))| < 2
    ensures MatchSpec(c, Some(gs), caller, time, shuffle) == Rejected(NotEnoughTeams)
  {
  }

  /** An even number of participating teams are all paired, each once, and nobody is left out. */
  lemma EvenCountPairsParticipants(gs: GuildState, pool: seq<Role>, time: int, timeRole: Role,
                                   shuffle: seq<Role> -> seq<Role>)
    requires Permutes(shuffle)
    requires var p := ParticipatingTeams(gs, pool, timeRole.name); |p| >= 2 && |p| % 2 == 0
    ensures CommandPairing(gs, pool, time, timeRole, shuffle).Done?
    ensures CommandPairing(gs, pool, time, timeRole, shuffle).value.excluded.None?
    ensures multiset(Flatten(CommandPairing(gs, pool, time, timeRole, shuffle).value.pairs)) ==
            multiset(ParticipatingTeams(gs, pool, timeRole.name))
  {
    var p := ParticipatingTeams(gs, pool, timeRole.name);
    assert |multiset(shuffle(p))| == |multiset(p)|;
    PairUpFlattens(shuffle(p));
  }

  /** On an odd count the dropped team is a latest-created team of the least pool, or of the normal pool when that is empty. */
  lemma OddCountDropsLatestTeam(participating: seq<Role>, least: seq<Role>, normal: seq<Role>)
    requires |participating| % 2 == 1 && least + normal != []
    ensures var (final, excluded) := CommandSelect(participating, least, normal);
      && excluded.Some?
      && (least != [] ==>
            && excluded.value in least
            && forall r :: r in least ==> r.createdTimestamp <= excluded.value.createdTimestamp)
      && (least == [] ==>
            && excluded.value in normal
            && forall r :: r in normal ==> r.createdTimestamp <= excluded.value.createdTimestamp)
      && multiset(final) + multiset{excluded.value} == multiset(least) + multiset(normal)
  {
    if least != [] {
      PopLatestIsLatest(least);
    } else {
      assert normal != [];
      PopLatestIsLatest(normal);
      assert least + PopLatest(normal).0 == PopLatest(normal).0;
    }
  }

  lemma SuccessorParity(n: int)
    ensures (n + 1) % 2 == 0 <==> n % 2 == 1
  {
  }

  /** The odd-count selection on plain lists: whatever is not dropped is shuffled and paired. */
  lemma OddSelectionCoversPool(participating: seq<Role>, least: seq<Role>, normal: seq<Role>, pool: seq<Role>,
                               shuffle: seq<Role> -> seq<Role>)
    requires Permutes(shuffle)
    requires |participating| % 2 == 1 && pool != []
    requires multiset(least) + multiset(normal) == multiset(pool)
    ensures var (final, excluded) := CommandSelect(participating, least, normal);
      && excluded.Some?
      && |shuffle(final)| + 1 == |pool|
      && (|shuffle(final)| % 2 == 0 ==>
            multiset(Flatten(PairUp(shuffle(final)))) + multiset{excluded.value} == multiset(pool))
  {
    assert least + normal != [] by {
      assert |multiset(least)| + |multiset(normal)| == |multiset(pool)|;
    }
    OddCountDropsLatestTeam(participating, least, normal);
    var final := CommandSelect(participating, least, normal).0;
    var shuffled := shuffle(final);
    assert |final| + 1 == |pool| by {
      assert |multiset(final)| + 1 == |multiset(pool)|;
    }
    assert |shuffled| == |final| by {
      assert |multiset(shuffled)| == |multiset(final)|;
    }
    if |shuffled| % 2 == 0 {
      PairUpFlattens(shuffled);
    }
  }

  /**
   * On an odd count the whole pool but the dropped team goes into the final list,
   * participating or not; the reply is the error exactly when the pool size is even.
   */
  lemma OddCountPairsWholePool(gs: GuildState, pool: seq<Role>, time: int, timeRole: Role,
                               shuffle: seq<Role> -> seq<Role>)
    requires Permutes(shuffle)
    requires var p := ParticipatingTeams(gs, pool, timeRole.name); |p| >= 2 && |p| % 2 == 1
    ensures var out := CommandPairing(gs, pool, time, timeRole, shuffle);
      && (out == Rejected(Failed) <==> |pool| % 2 == 0)
      && (out.Done? ==>
            && out.value.excluded.Some?
            && multiset(Flatten(out.value.pairs)) + multiset{out.value.excluded.value} == multiset(pool))
  {
    var sel := CommandSelect(ParticipatingTeams(gs, pool, timeRole.name), LeastTeams(gs, pool), NormalTeams(gs, pool));
    var shuffled := shuffle(sel.0);
    var out := CommandPairing(gs, pool, time, timeRole, shuffle);
    OddCountSelection(gs, pool, timeRole, shuffle);
    PairingOutcome(gs, pool, time, timeRole, shuffle);
    var n := |shuffled|;
    assert n + 1 == |pool|;
    SuccessorParity(n);
    assert out == Rejected(Failed) <==> n % 2 != 0;
  }

  /** On an odd count, the final list is the pool less one team, and its pairs with that team cover the pool. */
  lemma OddCountSelection(gs: GuildState, pool: seq<Role>, timeRole: Role, shuffle: seq<Role> -> seq<Role>)
    requires Permutes(shuffle)
    requires var p := ParticipatingTeams(gs, pool, timeRole.name); |p| >= 2 && |p| % 2 == 1
    ensures var sel := CommandSelect(ParticipatingTeams(gs, pool, timeRole.name), LeastTeams(gs, pool), NormalTeams(gs, pool));
      var shuffled := shuffle(sel.0);
      && sel.1.Some? && |shuffled| + 1 == |pool|
      && (|shuffled| % 2 == 0 ==> multiset(Flatten(PairUp(shuffled))) + multiset{sel.1.value} == multiset(pool))
  {
    var p := ParticipatingTeams(gs, pool, timeRole.name);
    PartitionSplitsPool(gs, pool);
    assert p[0] in pool;
    OddSelectionCoversPool(p, LeastTeams(gs, pool), NormalTeams(gs, pool), pool, shuffle);
  }

  /** The reply of the pairing step in terms of the selection: the error on an odd list, the pairs otherwise. */
  lemma PairingOutcome(gs: GuildState, pool: seq<Role>, time: int, timeRole: Role, shuffle: seq<Role> -> seq<Role>)
    requires |ParticipatingTeams(gs, pool, timeRole.name)| >= 2
    ensures var sel := CommandSelect(ParticipatingTeams(gs, pool, timeRole.name), LeastTeams(gs, pool), NormalTeams(gs, pool));
      var out := CommandPairing(gs, pool, time, timeRole, shuffle);
      && (out == Rejected(Failed) <==> |shuffle(sel.0)| % 2 != 0)
      && (out.Done? ==> out.value.pairs == PairUp(shuffle(sel.0)) && out.value.excluded == sel.1)
  {
  }
}
