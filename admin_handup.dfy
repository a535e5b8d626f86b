/**
 * The `/uc-admin-handup` command (src/commands/adminHandup.ts): an administrator raises a
 * hand for a chosen team. Unless some member of the team already holds a hand-raise for
 * the hour, a freshly named hand-raise role is given to the team's first member.
 */
module AdminHandup {
  import opened Wrappers
  import opened Text
  import opened Primitives
  import opened Discord
  import opened HelperConfig
  import opened RoleNameHelper
  import opened HelperUtils
  import opened HandRegistry

  /** The reply on success: the role given, the member who received it, and the text. */
  datatype Raised = Raised(role: Role, holder: Member, message: string)

  /** `role.members.size > 0`, the test the first loop keeps a role by. */
  function HasMembers(members: seq<Member>): Role -> bool
  {
    (r: Role) => |RoleMembers(members, r)| > 0
  }

  /** The set after scanning `held` from `acc`: each kept role is added once, in first-seen order. */
  function GatherRoles(held: seq<Role>, keep: Role -> bool, acc: seq<Role>): seq<Role>
  {
    if held == [] then acc
    else
      var prev := GatherRoles(held[..|held| - 1], keep, acc);
      var last := held[|held| - 1];
      if keep(last) && last !in prev then prev + [last] else prev
  }

  /** `allSelectedRoleHasRoles` after the loops over `holders`: their kept roles, member by member. */
  function Gather(roles: seq<Role>, holders: seq<Member>, keep: Role -> bool): seq<Role>
  {
    if holders == [] then []
    else GatherRoles(MemberRoles(roles, holders[|holders| - 1]), keep, Gather(roles, holders[..|holders| - 1], keep))
  }

  /** Role r is held by one of `holders` and kept. */
  predicate HeldBySome(roles: seq<Role>, holders: seq<Member>, keep: Role -> bool, r: Role)
  {
    exists m :: m in holders && r in MemberRoles(roles, m) && keep(r)
  }

  /** Some member holding the team role holds a role passing the hour test. */
  predicate TeamRaised(gs: GuildState, team: Role, isHand: string -> bool)
  {
    exists m, r :: m in gs.members && team.id in m.roleIds && r in MemberRoles(gs.roles, m) && isHand(r.name)
  }

  /**
   * The guards after the guild check, in source order: a resolved caller with the
   * Administrator permission, a configured hour, a team role with members, and no member
   * of the team with a hand-raise for the hour. On success, the hour.
   */
  function AdminHandupCheck(c: Crypto, gs: GuildState, caller: Option<Member>, time: int, selected: Role): (r: Outcome<int>)
    ensures r.Done? ==> caller.Some? && caller.value.isAdmin && r.value == time && time in StartOclocks
    ensures r.Done? ==> selected.name in AcceptRolls && exists m :: m in gs.members && selected.id in m.roleIds
  {
    if caller.None? then Rejected(NotGuildMember)
    else if !caller.value.isAdmin then Rejected(NotAdmin)
    else if time !in StartOclocks then Rejected(NotStartOclock)
    else if selected.name !in AcceptRolls then Rejected(NotTeamRole)
    else if |RoleMembers(gs.members, selected)| == 0 then Rejected(NoMembers)
    else if TeamRaised(gs, selected, HourTest(c, time)) then Rejected(AlreadyRaised)
    else
      assert RoleMembers(gs.members, selected)[0] in RoleMembers(gs.members, selected);
      Done(time)
  }

  /** `selectedRole.members.values().next().value`: the position of the role's first member. */
  function FirstHolder(members: seq<Member>, role: Role): (i: nat)
    requires |RoleMembers(members, role)| > 0
    ensures i < |members| && role.id in members[i].roleIds
    ensures forall k :: 0 <= k < i ==> role.id !in members[k].roleIds
  {
    if role.id in members[0].roleIds then 0
    else 1 + FirstHolder(members[1..], role)
  }

  /** The success text, naming the team, the hour and the role. */
  function AdminHandupMessage(teamName: string, time: int, roleName: string): string
  {
    "## " + teamName + "に" + DecimalString(time) + "時の挙手をさせました\n時間ロール \"" + roleName + "\" を付与しました。"
  }

  // ---------------------------------------------------------------------------------
  // The loops

  /** The nested loop collecting `allSelectedRoleHasRoles` over the team's members `holders`. */
  method CollectTeamRoles(roles: seq<Role>, holders: seq<Member>, keep: Role -> bool) returns (all: seq<Role>)
    ensures all == Gather(roles, holders, keep)
  {
    all := [];
    for i := 0 to |holders|
      invariant all == Gather(roles, holders[..i], keep)
    {
      var held := MemberRoles(roles, holders[i]);
      GatherStep(roles, holders, i, keep);
      ghost var before := all;
      for j := 0 to |held|
        invariant all == GatherRoles(held[..j], keep, before)
      {
        GatherRolesStep(held, j, keep, before);
        if keep(held[j]) && held[j] !in all {
          all := all + [held[j]];
        }
      }
      assert held[..|held|] == held;
    }
    assert holders[..|holders|] == holders;
  }

  lemma GatherStep(roles: seq<Role>, holders: seq<Member>, i: nat, keep: Role -> bool)
    requires i < |holders|
    ensures Gather(roles, holders[..i + 1], keep) ==
      GatherRoles(MemberRoles(roles, holders[i]), keep, Gather(roles, holders[..i], keep))
  {
    assert holders[..i + 1][..i] == holders[..i];
  }

  lemma GatherRolesStep(held: seq<Role>, j: nat, keep: Role -> bool, acc: seq<Role>)
    requires j < |held|
    ensures GatherRoles(held[..j + 1], keep, acc) ==
      (var prev := GatherRoles(held[..j], keep, acc);
       if keep(held[j]) && held[j] !in prev then prev + [held[j]] else prev)
  {
    assert held[..j + 1][..j] == held[..j];
  }

  /** The loop collecting `nowTimeRoles`: the collected roles passing the hour test. */
  method HourRolesAmong(all: seq<Role>, isHand: string -> bool) returns (now: seq<Role>)
    ensures now == Collect(all, isHand, [])
  {
    now := [];
    for k := 0 to |all|
      invariant now == Collect(all[..k], isHand, [])
    {
      assert all[..k + 1][..k] == all[..k];
      if isHand(all[k].name) && all[k] !in now {
        now := now + [all[k]];
      }
    }
    assert all[..|all|] == all;
  }

  /**
   * `allSelectedRoleHasRoles` and `nowTimeRoles`: the roles of the team's members, then
   * those passing the hour test; a hand is up when that list is not empty.
   */
  method TeamHasRaised(gs: GuildState, team: Role, isHand: string -> bool) returns (raised: bool)
    ensures raised <==> TeamRaised(gs, team, isHand)
  {
    var all := CollectTeamRoles(gs.roles, RoleMembers(gs.members, team), HasMembers(gs.members));
    var nowTimeRoles := HourRolesAmong(all, isHand);
    TeamRaisedIsFoundByLoops(gs, team, isHand);
    raised := |nowTimeRoles| > 0;
  }

  /**
   * `execute(interaction)`. `g` is null when the interaction has no guild, `caller` is None
   * when the member is not a resolved guild member; `now`, `createdAt`, `createFails` and
   * `addFails` are as for `/uc-handup`.
   */
  method Execute(c: Crypto, g: Guild?, caller: Option<Member>, time: int, selected: Role, now: nat, createdAt: int,
                 createFails: bool, addFails: bool)
    returns (out: Outcome<Raised>)
    requires g != null ==> g.Valid()
    modifies g
    ensures g == null ==> out == Rejected(NoGuild)
    ensures g != null ==> g.Valid() && |g.members| == |old(g.members)|
    ensures g != null && AdminHandupCheck(c, old(g.State()), caller, time, selected).Rejected? ==>
      && out == Rejected(AdminHandupCheck(c, old(g.State()), caller, time, selected).reason)
      && g.roles == old(g.roles) && g.members == old(g.members)
    ensures g != null && AdminHandupCheck(c, old(g.State()), caller, time, selected).Done? ==>
      var name := CreateRoleNow(c, now, time);
      var existing := old(FindByName(g.roles, name));
      var fi := FirstHolder(old(g.members), selected);
      if existing.None? && createFails then
        out == Rejected(Failed) && g.roles == old(g.roles) && g.members == old(g.members)
      else
        exists role: Role ::
          && GrantedRole(old(g.roles), g.roles, name, createdAt, role)
          && g.members == (if addFails then old(g.members)
                           else old(g.members)[fi := old(g.members)[fi].(roleIds := old(g.members)[fi].roleIds + {role.id})])
          && out == (if addFails then Rejected(Failed)
                     else Done(Raised(role, old(g.members)[fi], AdminHandupMessage(selected.name, time, name))))
  {
    if g == null {
      return Rejected(NoGuild);
    }
    if caller.None? {
      return Rejected(NotGuildMember);
    }
    if !caller.value.isAdmin {
      return Rejected(NotAdmin);
    }
    if time !in StartOclocks {
      return Rejected(NotStartOclock);
    }
    if selected.name !in AcceptRolls {
      return Rejected(NotTeamRole);
    }
    if |RoleMembers(g.members, selected)| == 0 {
      return Rejected(NoMembers);
    }
    var fi := FirstHolder(g.members, selected);
    var roleOneMember := g.members[fi];
    var raised := TeamHasRaised(g.State(), selected, HourTest(c, time));
    if raised {
      return Rejected(AlreadyRaised);
    }
    var timeRoleName := CreateRoleNow(c, now, time);
    var granted := GrantHourRole(g, fi, timeRoleName, createdAt, createFails, addFails);
    if granted.None? {
      return Rejected(Failed);
    }
    assert GrantedRole(old(g.roles), g.roles, timeRoleName, createdAt, granted.value);
    if addFails {
      return Rejected(Failed);
    }
    return Done(Raised(granted.value, roleOneMember, AdminHandupMessage(selected.name, time, timeRoleName)));
  }

  // ---------------------------------------------------------------------------------
  // Properties

  lemma {:induction false} GatherRolesExactly(held: seq<Role>, keep: Role -> bool, acc: seq<Role>)
    requires Distinct(acc)
    ensures Distinct(GatherRoles(held, keep, acc))
    ensures forall r :: r in GatherRoles(held, keep, acc) <==> r in acc || (r in held && keep(r))
  {
    if held != [] {
      GatherRolesExactly(held[..|held| - 1], keep, acc);
      assert forall x :: x in held <==> x in held[..|held| - 1] || x == held[|held| - 1];
    }
  }

  /** The collected roles are exactly the kept roles some holder has, each once. */
  lemma {:induction false} GatherExactly(roles: seq<Role>, holders: seq<Member>, keep: Role -> bool)
    ensures Distinct(Gather(roles, holders, keep))
    ensures forall r :: r in Gather(roles, holders, keep) <==> HeldBySome(roles, holders, keep, r)
  {
    if holders != [] {
      var front := holders[..|holders| - 1];
      var m := holders[|holders| - 1];
      GatherExactly(roles, front, keep);
      GatherRolesExactly(MemberRoles(roles, m), keep, Gather(roles, front, keep));
      forall r
        ensures HeldBySome(roles, holders, keep, r) <==>
          HeldBySome(roles, front, keep, r) || (r in MemberRoles(roles, m) && keep(r))
      {
        if HeldBySome(roles, holders, keep, r) {
          var x :| x in holders && r in MemberRoles(roles, x) && keep(r);
          assert x in front || x == m;
        }
        if HeldBySome(roles, front, keep, r) {
          var x :| x in front && r in MemberRoles(roles, x) && keep(r);
          assert x in holders;
        }
      }
    }
  }

  /**
   * The member-count test of the first loop never drops a role: every role a member holds
   * has that member. The loops find a hand-raise exactly when some team member holds one.
   */
  lemma TeamRaisedIsFoundByLoops(gs: GuildState, team: Role, isHand: string -> bool)
    ensures |Collect(Gather(gs.roles, RoleMembers(gs.members, team), HasMembers(gs.members)), isHand, [])| > 0 <==>
      TeamRaised(gs, team, isHand)
  {
    var holders := RoleMembers(gs.members, team);
    var all := Gather(gs.roles, holders, HasMembers(gs.members));
    var now := Collect(all, isHand, []);
    GatherExactly(gs.roles, holders, HasMembers(gs.members));
    CollectExactly(all, isHand, []);
    if |now| > 0 {
      assert now[0] in now;
      var m :| m in holders && now[0] in MemberRoles(gs.roles, m) && HasMembers(gs.members)(now[0]);
    }
    if TeamRaised(gs, team, isHand) {
      var m, r :| m in gs.members && team.id in m.roleIds && r in MemberRoles(gs.roles, m) && isHand(r.name);
      assert m in RoleMembers(gs.members, r);
      assert HeldBySome(gs.roles, holders, HasMembers(gs.members), r);
      assert r in now;
    }
  }

  /**
   * The guards: a caller without the Administrator permission is always turned down;
   * otherwise the request goes ahead exactly for a configured hour and a team role with
   * members none of whom holds a hand-raise for that hour, whatever the time of day.
   */
  lemma AdminHandupGuards(c: Crypto, gs: GuildState, caller: Option<Member>, time: int, selected: Role)
    ensures caller.Some? && !caller.value.isAdmin ==>
      AdminHandupCheck(c, gs, caller, time, selected) == Rejected(NotAdmin)
    ensures AdminHandupCheck(c, gs, caller, time, selected).Done? <==>
      && caller.Some? && caller.value.isAdmin
      && time in StartOclocks && selected.name in AcceptRolls
      && (exists m :: m in gs.members && selected.id in m.roleIds)
      && !TeamRaised(gs, selected, HourTest(c, time))
  {
    if exists m :: m in gs.members && selected.id in m.roleIds {
      var m :| m in gs.members && selected.id in m.roleIds;
      assert m in RoleMembers(gs.members, selected);
    }
    if |RoleMembers(gs.members, selected)| > 0 {
      assert RoleMembers(gs.members, selected)[0] in RoleMembers(gs.members, selected);
    }
  }

  /** A member of the team who holds a role passing the test makes the team count as raised. */
  lemma HolderRaisesTeam(gs: GuildState, team: Role, isHand: string -> bool, m: Member, role: Role)
    requires m in gs.members && team.id in m.roleIds
    requires role in gs.roles && role.id in m.roleIds && isHand(role.name)
    ensures TeamRaised(gs, team, isHand)
  {
    assert role in MemberRoles(gs.roles, m);
  }

  /**
   * After a successful grant the team counts as raised for the hour, so the same request
   * again is turned down, whether the role was found or created.
   */
  lemma SecondAdminHandupIsRejected(c: Crypto, gs: GuildState, caller: Option<Member>, time: int, selected: Role,
                                    now: nat, role: Role, roles: seq<Role>)
    requires Sound(c)
    requires AdminHandupCheck(c, gs, caller, time, selected).Done?
    requires role.name == CreateRoleNow(c, now, time)
    requires role in roles && forall r :: r in gs.roles ==> r in roles
    ensures
      var fi := FirstHolder(gs.members, selected);
      var m := gs.members[fi];
      AdminHandupCheck(c, GuildState(roles, gs.members[fi := m.(roleIds := m.roleIds + {role.id})]), caller, time, selected)
        == Rejected(AlreadyRaised)
  {
    var fi := FirstHolder(gs.members, selected);
    var m := gs.members[fi];
    var m' := m.(roleIds := m.roleIds + {role.id});
    var gs' := GuildState(roles, gs.members[fi := m']);
    assert gs'.members[fi] == m';
    assert m' in RoleMembers(gs'.members, selected);
    CreatedRoleIsAtItsHour(c, now, time);
    HolderRaisesTeam(gs', selected, HourTest(c, time), m', role);
  }
}
