/**
 * The `/uc-handup-list` command (src/commands/handup-list.ts): for an administrator, the
 * hands currently raised, grouped by hour. A team role is listed when one of its members
 * holds any bot-created hand-raise; under each configured hour come the listed teams whose
 * members hold hand-raises for that hour, with the names of those roles.
 */
module HandupList {
  import opened Wrappers
  import opened Text
  import opened Primitives
  import opened Discord
  import opened Seqs
  import opened HelperConfig
  import opened RoleNameHelper
  import opened HelperUtils
  import opened HandRegistry

  /** `[roleNames.join(", "), teamRole]`: one team under one hour. */
  datatype Entry = Entry(names: string, team: Role)

  /** `[time, timeRoleNameAndTeamRole]`: one hour and its teams. */
  datatype Section = Section(time: int, entries: seq<Entry>)

  /**
   * The team roles, in cache order, that line 74 of handup-list.ts evidently means to keep:
   * the roles whose name is a member of `acceptRolls`. As written, that line calls
   * `includes`, which the `Set` `acceptRolls` does not have (see `Execute`).
   */
  function TeamRolesOf(roles: seq<Role>): (teams: seq<Role>)
    ensures forall r :: r in teams <==> r in roles && r.name in AcceptRolls
  {
    Filter(roles, (role: Role) => role.name in AcceptRolls)
  }

  /** The member holds some bot-created hand-raise, for whatever hour. */
  predicate HoldsCreatedRole(c: Crypto, roles: seq<Role>, m: Member)
  {
    exists r :: r in MemberRoles(roles, m) && IsCreatedRole(c, r.name)
  }

  /** The filter test for `participatingTeams`: some member of the team holds a hand-raise. */
  function Listed(c: Crypto, gs: GuildState): Role -> bool
  {
    (team: Role) => exists m :: m in RoleMembers(gs.members, team) && HoldsCreatedRole(c, gs.roles, m)
  }

  /** `participatingTeams`: the team roles, in cache order, with a member holding a hand-raise. */
  function ListedTeams(c: Crypto, gs: GuildState): seq<Role>
  {
    Filter(TeamRolesOf(gs.roles), Listed(c, gs))
  }

  /** The names pushed while scanning one member's roles `held`. */
  function NamesOf(held: seq<Role>, isHand: string -> bool): seq<string>
  {
    if held == [] then []
    else
      var last := held[|held| - 1];
      NamesOf(held[..|held| - 1], isHand) + (if isHand(last.name) then [last.name] else [])
  }

  /** `roleNames` after the loops over `holders`: member by member, so a shared role is pushed once per holder. */
  function HourNames(roles: seq<Role>, holders: seq<Member>, isHand: string -> bool): seq<string>
  {
    if holders == [] then []
    else HourNames(roles, holders[..|holders| - 1], isHand) + NamesOf(MemberRoles(roles, holders[|holders| - 1]), isHand)
  }

  /** `timeRoleNameAndTeamRole` after the loop over `teams`: the teams with at least one name. */
  function Entries(gs: GuildState, teams: seq<Role>, isHand: string -> bool): seq<Entry>
  {
    if teams == [] then []
    else
      var team := teams[|teams| - 1];
      var names := HourNames(gs.roles, RoleMembers(gs.members, team), isHand);
      Entries(gs, teams[..|teams| - 1], isHand) + (if |names| > 0 then [Entry(Join(names, ", "), team)] else [])
  }

  /** `timeTeamRoleTuple` after the `forEach` over `hours`: the hours with at least one team. */
  function Sections(c: Crypto, gs: GuildState, teams: seq<Role>, hours: seq<int>): seq<Section>
  {
    if hours == [] then []
    else
      var t := hours[|hours| - 1];
      var entries := Entries(gs, teams, HourTest(c, t));
      Sections(c, gs, teams, hours[..|hours| - 1]) + (if |entries| > 0 then [Section(t, entries)] else [])
  }

  // ---------------------------------------------------------------------------------
  // The message

  const ListTitle: string := "# 現在の挙手リスト\n"

  function SectionHeader(time: int): string
  {
    "## " + DecimalString(time) + "時の挙手リスト"
  }

  function EntryLine(gs: GuildState, e: Entry): string
  {
    "- **チーム:" + TaggedName(gs, e.team) + "**\n  - ロール(" + e.names + ")"
  }

  function EntryLines(gs: GuildState, entries: seq<Entry>): (lines: seq<string>)
    ensures |lines| == |entries|
  {
    if entries == [] then [] else [EntryLine(gs, entries[0])] + EntryLines(gs, entries[1..])
  }

  function SectionText(gs: GuildState, s: Section): string
  {
    Join([SectionHeader(s.time)] + EntryLines(gs, s.entries), "\n")
  }

  function SectionTexts(gs: GuildState, sections: seq<Section>): (texts: seq<string>)
    ensures |texts| == |sections|
  {
    if sections == [] then [] else [SectionText(gs, sections[0])] + SectionTexts(gs, sections[1..])
  }

  /** The reply: the title, then the sections joined by newlines. */
  function ListMessage(gs: GuildState, sections: seq<Section>): string
  {
    ListTitle + Join(SectionTexts(gs, sections), "\n")
  }

  // ---------------------------------------------------------------------------------
  // The loops

  /** The two inner loops: the names of the holders' roles passing the hour test. */
  method CollectNames(roles: seq<Role>, holders: seq<Member>, isHand: string -> bool) returns (names: seq<string>)
    ensures names == HourNames(roles, holders, isHand)
  {
    names := [];
    for i := 0 to |holders|
      invariant names == HourNames(roles, holders[..i], isHand)
    {
      HourNamesStep(roles, holders, i, isHand);
      var own := HeldNames(MemberRoles(roles, holders[i]), isHand);
      names := names + own;
    }
    assert holders[..|holders|] == holders;
  }

  lemma HourNamesStep(roles: seq<Role>, holders: seq<Member>, i: nat, isHand: string -> bool)
    requires i < |holders|
    ensures HourNames(roles, holders[..i + 1], isHand) ==
      HourNames(roles, holders[..i], isHand) + NamesOf(MemberRoles(roles, holders[i]), isHand)
  {
    assert holders[..i + 1][..i] == holders[..i];
  }

  /** The innermost loop: the names of one holder's roles passing the hour test. */
  method HeldNames(held: seq<Role>, isHand: string -> bool) returns (names: seq<string>)
    ensures names == NamesOf(held, isHand)
  {
    names := [];
    for j := 0 to |held|
      invariant names == NamesOf(held[..j], isHand)
    {
      NamesOfStep(held, j, isHand);
      if isHand(held[j].name) {
        names := names + [held[j].name];
      }
    }
    assert held[..|held|] == held;
  }

  lemma NamesOfStep(held: seq<Role>, j: nat, isHand: string -> bool)
    requires j < |held|
    ensures NamesOf(held[..j + 1], isHand) == NamesOf(held[..j], isHand) + (if isHand(held[j].name) then [held[j].name] else [])
  {
    assert held[..j + 1][..j] == held[..j];
  }

  /** The loop over the listed teams for one hour. */
  method TeamEntries(gs: GuildState, teams: seq<Role>, isHand: string -> bool) returns (entries: seq<Entry>)
    ensures entries == Entries(gs, teams, isHand)
  {
    entries := [];
    for i := 0 to |teams|
      invariant entries == Entries(gs, teams[..i], isHand)
    {
      assert teams[..i + 1][..i] == teams[..i];
      var roleNames := CollectNames(gs.roles, RoleMembers(gs.members, teams[i]), isHand);
      if |roleNames| > 0 {
        entries := entries + [Entry(Join(roleNames, ", "), teams[i])];
      }
    }
    assert teams[..|teams|] == teams;
  }

  /** The `forEach` over the hours (the configured ones, in the command). */
  method BuildSections(c: Crypto, gs: GuildState, teams: seq<Role>, hours: seq<int>) returns (sections: seq<Section>)
    ensures sections == Sections(c, gs, teams, hours)
  {
    sections := [];
    for k := 0 to |hours|
      invariant sections == Sections(c, gs, teams, hours[..k])
    {
      SectionsStep(c, gs, teams, hours, k);
      var time := hours[k];
      var entries := TeamEntries(gs, teams, HourTest(c, time));
      if |entries| > 0 {
        sections := sections + [Section(time, entries)];
      }
    }
    assert hours[..|hours|] == hours;
  }

  lemma SectionsStep(c: Crypto, gs: GuildState, teams: seq<Role>, hours: seq<int>, k: nat)
    requires k < |hours|
    ensures Sections(c, gs, teams, hours[..k + 1]) ==
      Sections(c, gs, teams, hours[..k]) +
      (if |Entries(gs, teams, HourTest(c, hours[k]))| > 0 then [Section(hours[k], Entries(gs, teams, HourTest(c, hours[k])))] else [])
  {
    assert hours[..k + 1][..k] == hours[..k];
  }

  /** The reply listing the hands raised in teams `teamRoles`, over the configured hours. */
  function ListReply(c: Crypto, gs: GuildState, teamRoles: seq<Role>): string
  {
    ListMessage(gs, Sections(c, gs, Filter(teamRoles, Listed(c, gs)), StartOclocks))
  }

  /**
   * `execute(interaction)` as written. The guards come first; then the filter at line 74
   * of handup-list.ts calls `acceptRolls.includes`, and `acceptRolls` is a `Set`, which has
   * no `includes`: the first cached role it is applied to throws a TypeError, which the
   * catch turns into the error reply. Only a guild with no cached role gets past it.
   */
  function ListingSpec(c: Crypto, gs: Option<GuildState>, caller: Option<Member>): Outcome<string>
  {
    if gs.None? then Rejected(NoGuild)
    else if caller.None? then Rejected(NotGuildMember)
    else if !caller.value.isAdmin then Rejected(NotAdmin)
    else if |gs.value.roles| > 0 then Rejected(Failed)
    else Done(ListReply(c, gs.value, []))
  }

  /** `execute(interaction)` with the filter at line 74 testing membership of `acceptRolls`. */
  function IntendedListingSpec(c: Crypto, gs: Option<GuildState>, caller: Option<Member>): Outcome<string>
  {
    if gs.None? then Rejected(NoGuild)
    else if caller.None? then Rejected(NotGuildMember)
    else if !caller.value.isAdmin then Rejected(NotAdmin)
    else Done(ListReply(c, gs.value, TeamRolesOf(gs.value.roles)))
  }

  /** Everything after the guards, from the team roles to the reply text. */
  method Listing(c: Crypto, gs: GuildState, teamRoles: seq<Role>) returns (message: string)
    ensures message == ListReply(c, gs, teamRoles)
  {
    var participatingTeams := Filter(teamRoles, Listed(c, gs));
    var sections := BuildSections(c, gs, participatingTeams, StartOclocks);
    var resultMessages := RenderSections(gs, sections);
    message := ListTitle + Join(resultMessages, "\n");
  }

  /**
   * `execute(interaction)`, as written. `gs` is None when the interaction has no guild,
   * `caller` is None when the member is not a resolved guild member. Nothing in the guild changes.
   */
  method Execute(c: Crypto, gs: Option<GuildState>, caller: Option<Member>) returns (out: Outcome<string>)
    ensures out == ListingSpec(c, gs, caller)
  {
    if gs.None? {
      return Rejected(NoGuild);
    }
    if caller.None? {
      return Rejected(NotGuildMember);
    }
    if !caller.value.isAdmin {
      return Rejected(NotAdmin);
    }
    if |gs.value.roles| > 0 {
      // `acceptRolls.includes` is not a function: the filter throws on the first role
      return Rejected(Failed);
    }
    // filtering an empty cache never calls the callback
    var message := Listing(c, gs.value, []);
    return Done(message);
  }

  /** `execute(interaction)` with the team roles filtered by membership of `acceptRolls`. */
  method ExecuteIntended(c: Crypto, gs: Option<GuildState>, caller: Option<Member>) returns (out: Outcome<string>)
    ensures out == IntendedListingSpec(c, gs, caller)
  {
    if gs.None? {
      return Rejected(NoGuild);
    }
    if caller.None? {
      return Rejected(NotGuildMember);
    }
    if !caller.value.isAdmin {
      return Rejected(NotAdmin);
    }
    var message := Listing(c, gs.value, TeamRolesOf(gs.value.roles));
    return Done(message);
  }

  /** The loop pushing one text per section into `resultMessages`. */
  method RenderSections(gs: GuildState, sections: seq<Section>) returns (texts: seq<string>)
    ensures texts == SectionTexts(gs, sections)
  {
    texts := [];
    for k := 0 to |sections|
      invariant texts == SectionTexts(gs, sections[..k])
    {
      assert sections[..k + 1] == sections[..k] + [sections[k]];
      SectionTextsSnoc(gs, sections[..k], sections[k]);
      texts := texts + [SectionText(gs, sections[k])];
    }
    assert sections[..|sections|] == sections;
  }

  lemma {:induction false} SectionTextsSnoc(gs: GuildState, sections: seq<Section>, s: Section)
    ensures SectionTexts(gs, sections + [s]) == SectionTexts(gs, sections) + [SectionText(gs, s)]
  {
    if sections != [] {
      SectionTextsSnoc(gs, sections[1..], s);
      assert (sections + [s])[1..] == sections[1..] + [s];
    } else {
      assert [] + [s] == [s];
    }
  }

  // ---------------------------------------------------------------------------------
  // Properties

  /** A team is listed exactly when it is a team role of the guild with a member holding some hand-raise. */
  lemma ListedTeamsExactly(c: Crypto, gs: GuildState, team: Role)
    ensures team in ListedTeams(c, gs) <==>
      && team in gs.roles && team.name in AcceptRolls
      && exists m :: m in gs.members && team.id in m.roleIds && HoldsCreatedRole(c, gs.roles, m)
  {
    if exists m :: m in gs.members && team.id in m.roleIds && HoldsCreatedRole(c, gs.roles, m) {
      var m :| m in gs.members && team.id in m.roleIds && HoldsCreatedRole(c, gs.roles, m);
      assert m in RoleMembers(gs.members, team);
    }
  }

  /** Some role of member m passing the test has this name. */
  predicate NamesHand(roles: seq<Role>, m: Member, isHand: string -> bool, name: string)
  {
    exists r :: r in MemberRoles(roles, m) && isHand(r.name) && r.name == name
  }

  lemma {:induction false} NamesOfExactly(held: seq<Role>, isHand: string -> bool)
    ensures forall name :: name in NamesOf(held, isHand) <==> exists r :: r in held && isHand(r.name) && r.name == name
  {
    if held != [] {
      NamesOfExactly(held[..|held| - 1], isHand);
      assert forall x :: x in held <==> x in held[..|held| - 1] || x == held[|held| - 1];
    }
  }

  /** The names gathered for a team are exactly the names of hour roles some holder has. */
  lemma {:induction false} HourNamesExactly(roles: seq<Role>, holders: seq<Member>, isHand: string -> bool)
    ensures forall name :: name in HourNames(roles, holders, isHand) <==>
      exists m :: m in holders && NamesHand(roles, m, isHand, name)
  {
    if holders != [] {
      var front := holders[..|holders| - 1];
      var last := holders[|holders| - 1];
      HourNamesExactly(roles, front, isHand);
      NamesOfExactly(MemberRoles(roles, last), isHand);
      forall name
        ensures name in HourNames(roles, holders, isHand) <==> exists m :: m in holders && NamesHand(roles, m, isHand, name)
      {
        assert name in NamesOf(MemberRoles(roles, last), isHand) <==> NamesHand(roles, last, isHand, name);
        if exists m :: m in holders && NamesHand(roles, m, isHand, name) {
          var m :| m in holders && NamesHand(roles, m, isHand, name);
          assert m in front || m == last;
        }
        if name in HourNames(roles, front, isHand) {
          var m :| m in front && NamesHand(roles, m, isHand, name);
          assert m in holders;
        }
        if name in NamesOf(MemberRoles(roles, last), isHand) {
          assert last in holders;
        }
      }
    }
  }

  /**
   * A hand-raise held by several members of a team is named once per holder: with every
   * one of k holders holding it, its name occurs at least k times.
   */
  lemma {:induction false} SharedRoleListedPerHolder(roles: seq<Role>, holders: seq<Member>, isHand: string -> bool,
                                                     r: Role)
    requires r in roles && isHand(r.name)
    requires forall m :: m in holders ==> r.id in m.roleIds
    ensures multiset(HourNames(roles, holders, isHand))[r.name] >= |holders|
  {
    if holders != [] {
      var front := holders[..|holders| - 1];
      var last := holders[|holders| - 1];
      assert forall m :: m in front ==> m in holders;
      SharedRoleListedPerHolder(roles, front, isHand, r);
      assert last in holders;
      NamesOfExactly(MemberRoles(roles, last), isHand);
      assert r.name in NamesOf(MemberRoles(roles, last), isHand);
    }
  }

  /** The names the entry for a team carries, when it has one. */
  function TeamNames(gs: GuildState, team: Role, isHand: string -> bool): seq<string>
  {
    HourNames(gs.roles, RoleMembers(gs.members, team), isHand)
  }

  /** Every team shown under an hour is one of the given teams, with its gathered names joined. */
  lemma {:induction false} EntriesAreTeams(gs: GuildState, teams: seq<Role>, isHand: string -> bool)
    ensures forall e :: e in Entries(gs, teams, isHand) ==>
      e.team in teams && |TeamNames(gs, e.team, isHand)| > 0 && e.names == Join(TeamNames(gs, e.team, isHand), ", ")
  {
    if teams != [] {
      var front := teams[..|teams| - 1];
      EntriesAreTeams(gs, front, isHand);
      assert forall x :: x in front ==> x in teams;
    }
  }

  /** Every given team with a gathered name is shown under the hour. */
  lemma {:induction false} TeamsAreEntries(gs: GuildState, teams: seq<Role>, isHand: string -> bool)
    ensures forall team :: team in teams && |TeamNames(gs, team, isHand)| > 0 ==>
      exists e :: e in Entries(gs, teams, isHand) && e.team == team
  {
    if teams != [] {
      var front := teams[..|teams| - 1];
      var last := teams[|teams| - 1];
      TeamsAreEntries(gs, front, isHand);
      forall team | team in teams && |TeamNames(gs, team, isHand)| > 0
        ensures exists e :: e in Entries(gs, teams, isHand) && e.team == team
      {
        if team == last {
          assert Entry(Join(TeamNames(gs, team, isHand), ", "), team) in Entries(gs, teams, isHand);
        } else {
          assert team in front;
          var e :| e in Entries(gs, front, isHand) && e.team == team;
          assert e in Entries(gs, teams, isHand);
        }
      }
    }
  }

  /** The sections are exactly the given hours with a team listed, each with that hour's teams. */
  lemma {:induction false} SectionsExactly(c: Crypto, gs: GuildState, teams: seq<Role>, hours: seq<int>)
    ensures forall s :: s in Sections(c, gs, teams, hours) ==>
      s.time in hours && s.entries == Entries(gs, teams, HourTest(c, s.time)) && |s.entries| > 0
    ensures forall t :: t in hours && |Entries(gs, teams, HourTest(c, t))| > 0 ==>
      exists s :: s in Sections(c, gs, teams, hours) && s.time == t
  {
    if hours != [] {
      SectionsExactly(c, gs, teams, hours[..|hours| - 1]);
      assert forall x :: x in hours <==> x in hours[..|hours| - 1] || x == hours[|hours| - 1];
    }
  }

  /** The hours strictly increase. */
  predicate HoursIncrease(hours: seq<int>)
  {
    forall i, j :: 0 <= i < j < |hours| ==> hours[i] < hours[j]
  }

  /** The sections' hours strictly increase. */
  predicate SectionsIncrease(ss: seq<Section>)
  {
    forall i, j :: 0 <= i < j < |ss| ==> ss[i].time < ss[j].time
  }

  /** The sections follow the order of the hours: increasing hours give increasing sections. */
  lemma {:induction false} SectionsFollowHours(c: Crypto, gs: GuildState, teams: seq<Role>, hours: seq<int>)
    requires HoursIncrease(hours)
    ensures SectionsIncrease(Sections(c, gs, teams, hours))
  {
    if hours != [] {
      var front, t := hours[..|hours| - 1], hours[|hours| - 1];
      assert HoursIncrease(front) by {
        forall i, j | 0 <= i < j < |front|
          ensures front[i] < front[j]
        {
          assert front[i] == hours[i] && front[j] == hours[j];
        }
      }
      var pre := Sections(c, gs, teams, front);
      SectionsFollowHours(c, gs, teams, front);
      SectionsExactly(c, gs, teams, front);
      forall k | 0 <= k < |pre|
        ensures pre[k].time < t
      {
        assert pre[k] in pre;
        var x :| 0 <= x < |front| && front[x] == pre[k].time;
        assert hours[x] == front[x];
      }
      var entries := Entries(gs, teams, HourTest(c, t));
      if |entries| > 0 {
        var ss := pre + [Section(t, entries)];
        assert Sections(c, gs, teams, hours) == ss;
        forall i, j | 0 <= i < j < |ss|
          ensures ss[i].time < ss[j].time
        {
          if j < |pre| {
            assert ss[i] == pre[i] && ss[j] == pre[j];
          } else {
            assert ss[i] == pre[i];
          }
        }
      } else {
        assert Sections(c, gs, teams, hours) == pre;
      }
    }
  }

  /** Some member of the team holds a role passing the test. */
  predicate TeamHolds(gs: GuildState, team: Role, isHand: string -> bool)
  {
    exists m, r :: m in RoleMembers(gs.members, team) && r in MemberRoles(gs.roles, m) && isHand(r.name)
  }

  /** A team gathers some name exactly when one of its members holds a role passing the test. */
  lemma TeamNamesNonEmpty(gs: GuildState, team: Role, isHand: string -> bool)
    ensures |TeamNames(gs, team, isHand)| > 0 <==> TeamHolds(gs, team, isHand)
  {
    var holders := RoleMembers(gs.members, team);
    var names := HourNames(gs.roles, holders, isHand);
    HourNamesExactly(gs.roles, holders, isHand);
    if |names| > 0 {
      assert names[0] in names;
      var m :| m in holders && NamesHand(gs.roles, m, isHand, names[0]);
      var r :| r in MemberRoles(gs.roles, m) && isHand(r.name) && r.name == names[0];
      assert TeamHolds(gs, team, isHand);
    }
    if TeamHolds(gs, team, isHand) {
      var m, r :| m in holders && r in MemberRoles(gs.roles, m) && isHand(r.name);
      assert NamesHand(gs.roles, m, isHand, r.name);
      assert r.name in names;
    }
  }

  /** A team is shown under an hour exactly when it is listed and one of its members holds a hand-raise for that hour. */
  lemma TeamShownUnderHour(c: Crypto, gs: GuildState, t: int, team: Role)
    ensures (exists e :: e in Entries(gs, ListedTeams(c, gs), HourTest(c, t)) && e.team == team) <==>
      team in ListedTeams(c, gs) && TeamHolds(gs, team, HourTest(c, t))
  {
    EntriesAreTeams(gs, ListedTeams(c, gs), HourTest(c, t));
    TeamsAreEntries(gs, ListedTeams(c, gs), HourTest(c, t));
    TeamNamesNonEmpty(gs, team, HourTest(c, t));
  }

  /** A section for a given hour appears exactly when that hour has some team. */
  lemma SectionIffEntries(c: Crypto, gs: GuildState, teams: seq<Role>, hours: seq<int>, t: int)
    requires t in hours
    ensures (exists s :: s in Sections(c, gs, teams, hours) && s.time == t) <==>
      |Entries(gs, teams, HourTest(c, t))| > 0
  {
    SectionsExactly(c, gs, teams, hours);
  }

  /** An hour has some team exactly when one of the teams has a member holding a role passing the test. */
  lemma EntriesIffTeamHolds(gs: GuildState, teams: seq<Role>, isHand: string -> bool)
    ensures |Entries(gs, teams, isHand)| > 0 <==> exists team :: team in teams && TeamHolds(gs, team, isHand)
  {
    var entries := Entries(gs, teams, isHand);
    if |entries| > 0 {
      EntriesAreTeams(gs, teams, isHand);
      assert entries[0] in entries;
      TeamNamesNonEmpty(gs, entries[0].team, isHand);
    }
    if exists team :: team in teams && TeamHolds(gs, team, isHand) {
      var team :| team in teams && TeamHolds(gs, team, isHand);
      TeamNamesNonEmpty(gs, team, isHand);
      TeamsAreEntries(gs, teams, isHand);
      var e :| e in entries && e.team == team;
    }
  }

  /** A section for a configured hour appears exactly when a listed team has a member holding a hand-raise for it. */
  lemma SectionForHourExactly(c: Crypto, gs: GuildState, t: int)
    requires t in StartOclocks
    ensures (exists s :: s in Sections(c, gs, ListedTeams(c, gs), StartOclocks) && s.time == t) <==>
      exists team :: team in ListedTeams(c, gs) && TeamHolds(gs, team, HourTest(c, t))
  {
    SectionIffEntries(c, gs, ListedTeams(c, gs), StartOclocks, t);
    EntriesIffTeamHolds(gs, ListedTeams(c, gs), HourTest(c, t));
  }

  lemma JoinStartsWithFirst(parts: seq<string>, sep: string)
    requires |parts| > 0
    ensures parts[0] <= Join(parts, sep)
  {
  }

  /** The reply opens with the title, and each section with its hour's header; with no hands it is the title alone. */
  lemma ListMessageShape(gs: GuildState, sections: seq<Section>)
    ensures ListTitle <= ListMessage(gs, sections)
    ensures forall s: Section :: SectionHeader(s.time) <= SectionText(gs, s)
    ensures sections == [] ==> ListMessage(gs, sections) == ListTitle
  {
    forall s: Section ensures SectionHeader(s.time) <= SectionText(gs, s) {
      JoinStartsWithFirst([SectionHeader(s.time)] + EntryLines(gs, s.entries), "\n");
    }
  }

  /** With no teams to go through, no hour gets a section. */
  lemma {:induction false} NoTeamsNoSections(c: Crypto, gs: GuildState, hours: seq<int>)
    ensures Sections(c, gs, [], hours) == []
  {
    if hours != [] {
      NoTeamsNoSections(c, gs, hours[..|hours| - 1]);
    }
  }

  /**
   * The command as written: missing guild, missing member and non-admin are rejected in
   * that order; an admin gets the error reply whenever the guild has a cached role, and
   * otherwise the title alone.
   */
  lemma ListingOutcomes(c: Crypto, gs: Option<GuildState>, caller: Option<Member>)
    ensures gs.None? ==> ListingSpec(c, gs, caller) == Rejected(NoGuild)
    ensures gs.Some? && caller.None? ==> ListingSpec(c, gs, caller) == Rejected(NotGuildMember)
    ensures gs.Some? && caller.Some? && !caller.value.isAdmin ==> ListingSpec(c, gs, caller) == Rejected(NotAdmin)
    ensures gs.Some? && caller.Some? && caller.value.isAdmin && |gs.value.roles| > 0 ==>
      ListingSpec(c, gs, caller) == Rejected(Failed)
    ensures ListingSpec(c, gs, caller).Done? <==>
      gs.Some? && caller.Some? && caller.value.isAdmin && gs.value.roles == []
    ensures ListingSpec(c, gs, caller).Done? ==> ListingSpec(c, gs, caller).value == ListTitle
  {
    if gs.Some? && gs.value.roles == [] {
      NoTeamsNoSections(c, gs.value, StartOclocks);
      ListMessageShape(gs.value, []);
    }
  }

  /**
   * The command as intended: the same guards, and an admin always gets the listing of the
   * listed teams over the configured hours.
   */
  lemma IntendedListingOutcomes(c: Crypto, gs: Option<GuildState>, caller: Option<Member>)
    ensures gs.None? ==> IntendedListingSpec(c, gs, caller) == Rejected(NoGuild)
    ensures gs.Some? && caller.None? ==> IntendedListingSpec(c, gs, caller) == Rejected(NotGuildMember)
    ensures gs.Some? && caller.Some? && !caller.value.isAdmin ==> IntendedListingSpec(c, gs, caller) == Rejected(NotAdmin)
    ensures IntendedListingSpec(c, gs, caller).Done? <==> gs.Some? && caller.Some? && caller.value.isAdmin
    ensures IntendedListingSpec(c, gs, caller).Done? ==>
      IntendedListingSpec(c, gs, caller).value ==
      ListMessage(gs.value, Sections(c, gs.value, ListedTeams(c, gs.value), StartOclocks))
  {
  }

  /**
   * Every guild carries the @everyone role, so as written no admin ever sees the listing:
   * here an admin in a guild whose only role is @everyone gets the error reply, where the
   * intended command answers with the title.
   */
  lemma EveryoneRoleBreaksListing(c: Crypto, admin: Member)
    requires admin.isAdmin
    ensures var gs := GuildState([Role(0, "@everyone", 0)], [admin]);
      && ListingSpec(c, Some(gs), Some(admin)) == Rejected(Failed)
      && IntendedListingSpec(c, Some(gs), Some(admin)) == Done(ListTitle)
  {
    var gs := GuildState([Role(0, "@everyone", 0)], [admin]);
    assert "@everyone" !in AcceptRolls;
    assert TeamRolesOf(gs.roles) == [];
    NoTeamsNoSections(c, gs, StartOclocks);
    ListMessageShape(gs, []);
  }
}
