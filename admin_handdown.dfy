/**
 * The `/uc-admin-handdown` command (src/commands/adminHanddown.ts): an administrator
 * cancels a chosen team's hand for an hour. No acceptance window applies; the hour only
 * has to be a configured one.
 */
module AdminHanddown {
  import opened Wrappers
  import opened Primitives
  import opened Discord
  import opened HelperConfig
  import opened RoleNameHelper
  import opened HandRegistry

  /**
   * The guards after the guild check, in source order: the caller must be a resolved
   * member with the Administrator permission, both options must be present, the hour must
   * be configured, the role must carry a team name and have members.
   */
  function AdminHanddownCheck(gs: GuildState, caller: Option<Member>, time: Option<int>, selected: Option<Role>)
    : (r: Outcome<(Role, int)>)
    ensures r.Done? ==> caller.Some? && caller.value.isAdmin && selected == Some(r.value.0) && time == Some(r.value.1)
    ensures r.Done? ==> r.value.1 in StartOclocks && r.value.0.name in AcceptRolls
    ensures r.Done? ==> exists m :: m in gs.members && r.value.0.id in m.roleIds
  {
    if caller.None? then Rejected(NotGuildMember)
    else if !caller.value.isAdmin then Rejected(NotAdmin)
    else if time.None? || selected.None? then Rejected(MissingOption)
    else if time.value !in StartOclocks then Rejected(NotStartOclock)
    else if selected.value.name !in AcceptRolls then Rejected(NotTeamRole)
    else if |RoleMembers(gs.members, selected.value)| == 0 then Rejected(NoMembers)
    else
      assert RoleMembers(gs.members, selected.value)[0] in RoleMembers(gs.members, selected.value);
      Done((selected.value, time.value))
  }

  /**
   * `execute(interaction)`. `g` is null when the interaction has no guild, `caller` is None
   * when the member is not a resolved guild member, and `failing` holds the ids of roles
   * whose removal the API refuses.
   */
  method Execute(c: Crypto, g: Guild?, caller: Option<Member>, time: Option<int>, selected: Option<Role>,
                 failing: set<nat>)
    returns (out: Outcome<Lowering>)
    requires g != null ==> g.Valid()
    modifies g
    ensures g == null ==> out == Rejected(NoGuild)
    ensures g != null ==> g.Valid() && g.roles == old(g.roles) && |g.members| == |old(g.members)|
    ensures g != null && AdminHanddownCheck(old(g.State()), caller, time, selected).Rejected? ==>
      out == Rejected(AdminHanddownCheck(old(g.State()), caller, time, selected).reason) && g.members == old(g.members)
    ensures g != null && AdminHanddownCheck(old(g.State()), caller, time, selected).Done? ==>
      var (team, hour) := AdminHanddownCheck(old(g.State()), caller, time, selected).value;
      var deleted := CollectAll(old(g.roles), old(g.members), team, HourTest(c, hour));
      && (forall k :: 0 <= k < |g.members| ==>
            g.members[k] == LowerMember(old(g.roles), team, HourTest(c, hour), failing, old(g.members)[k]))
      && out == (if AnyRefusedAll(old(g.roles), old(g.members), team, HourTest(c, hour), failing) then Rejected(Failed)
                 else Done(Lowering(team, deleted, LoweredMessage(team.name, hour, deleted))))
  {
    if g == null {
      return Rejected(NoGuild);
    }
    if caller.None? {
      return Rejected(NotGuildMember);
    }
    if !caller.value.isAdmin {
      return Rejected(NotAdmin);
    }
    if time.None? || selected.None? {
      return Rejected(MissingOption);
    }
    var selectedTime, selectedRole := time.value, selected.value;
    if selectedTime !in StartOclocks {
      return Rejected(NotStartOclock);
    }
    if selectedRole.name !in AcceptRolls {
      return Rejected(NotTeamRole);
    }
    if |RoleMembers(g.members, selectedRole)| == 0 {
      return Rejected(NoMembers);
    }
    var deleted, failed := LowerHands(g, selectedRole, HourTest(c, selectedTime), failing);
    if failed {
      return Rejected(Failed);
    }
    return Done(Lowering(selectedRole, deleted, LoweredMessage(selectedRole.name, selectedTime, deleted)));
  }

  /**
   * The guards: a caller without the Administrator permission is always turned down, and
   * the request goes ahead exactly for an administrator naming a configured hour and a
   * team role with members, whatever the time of day.
   */
  lemma AdminHanddownGuards(gs: GuildState, caller: Option<Member>, time: Option<int>, selected: Option<Role>)
    ensures caller.Some? && !caller.value.isAdmin ==>
      AdminHanddownCheck(gs, caller, time, selected) == Rejected(NotAdmin)
    ensures AdminHanddownCheck(gs, caller, time, selected).Done? <==>
      && caller.Some? && caller.value.isAdmin
      && time.Some? && time.value in StartOclocks
      && selected.Some? && selected.value.name in AcceptRolls
      && (exists m :: m in gs.members && selected.value.id in m.roleIds)
  {
    if selected.Some? && (exists m :: m in gs.members && selected.value.id in m.roleIds) {
      var m :| m in gs.members && selected.value.id in m.roleIds;
      assert m in RoleMembers(gs.members, selected.value);
    }
    if selected.Some? && |RoleMembers(gs.members, selected.value)| > 0 {
      assert RoleMembers(gs.members, selected.value)[0] in RoleMembers(gs.members, selected.value);
    }
  }

  /**
   * Every member of the chosen team loses every hand-raise for the hour whose removal is
   * not refused, and keeps every other role.
   */
  lemma TeamMembersLoseHourRoles(c: Crypto, roles: seq<Role>, team: Role, time: int, failing: set<nat>,
                                 m: Member, r: Role)
    requires UniqueIds(roles) && r in roles && r.id in m.roleIds && team.id in m.roleIds
    ensures r.id !in LowerMember(roles, team, HourTest(c, time), failing, m).roleIds <==>
      IsCreatedAndIsAtTimeRole(c, r.name, time) && r.id !in failing
  {
    LoweringRemovesExactlyHourRoles(roles, team, HourTest(c, time), failing, m, r);
  }
}
