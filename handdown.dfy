/**
 * The `/uc-handdown` command (src/commands/handdown.ts): a team member cancels the team's
 * hand for an hour. The caller must hold exactly one team role; every member of that team
 * then loses every hand-raise role for the hour.
 */
module Handdown {
  import opened Wrappers
  import opened Primitives
  import opened Discord
  import opened Seqs
  import opened HelperConfig
  import opened Sha126Utils
  import opened RoleNameHelper
  import opened HelperUtils
  import opened HandRegistry

  /** `caller.roles.cache.filter((r) => acceptRolls.has(r.name))`: the caller's team roles. */
  function CallerTeamRoles(roles: seq<Role>, caller: Member): seq<Role>
  {
    Filter(MemberRoles(roles, caller), (r: Role) => r.name in AcceptRolls)
  }

  /**
   * The guards after the guild check, in source order, on the guild as it is before the
   * command: the selected team, or why the request is turned down. `hour` and `minute`
   * are the JST clock.
   */
  function HanddownCheck(gs: GuildState, ci: nat, time: int, hour: int, minute: int): (r: Outcome<Role>)
    requires ci < |gs.members|
    ensures r.Done? ==> time in StartOclocks
    ensures r.Done? ==> r.value in gs.roles && r.value.id in gs.members[ci].roleIds && r.value.name in AcceptRolls
  {
    if !IsAcceptTime(time, hour, minute) then Rejected(NotAcceptTime)
    else if !HoldsTeamRole(gs.roles, gs.members[ci]) then Rejected(NoAcceptRole)
    else
      var teams := CallerTeamRoles(gs.roles, gs.members[ci]);
      if |teams| == 0 then Rejected(NoAcceptRole)
      else if |teams| > 1 then Rejected(MultipleTeamRoles)
      else Done(teams[0])
  }

  /**
   * `execute(interaction)`. `g` is null when the interaction has no guild; the caller is the
   * member at position `ci`; `failing` holds the ids of roles whose removal the API refuses.
   */
  method Execute(c: Crypto, g: Guild?, ci: nat, time: int, hour: int, minute: int, failing: set<nat>)
    returns (out: Outcome<Lowering>)
    requires g != null ==> g.Valid() && ci < |g.members|
    modifies g
    ensures g == null ==> out == Rejected(NoGuild)
    ensures g != null ==> g.Valid() && g.roles == old(g.roles) && |g.members| == |old(g.members)|
    ensures g != null && HanddownCheck(old(g.State()), ci, time, hour, minute).Rejected? ==>
      out == Rejected(HanddownCheck(old(g.State()), ci, time, hour, minute).reason) && g.members == old(g.members)
    ensures g != null && HanddownCheck(old(g.State()), ci, time, hour, minute).Done? ==>
      var team := HanddownCheck(old(g.State()), ci, time, hour, minute).value;
      var deleted := CollectAll(old(g.roles), old(g.members), team, HourTest(c, time));
      && (forall k :: 0 <= k < |g.members| ==>
            g.members[k] == LowerMember(old(g.roles), team, HourTest(c, time), failing, old(g.members)[k]))
      && out == (if AnyRefusedAll(old(g.roles), old(g.members), team, HourTest(c, time), failing) then Rejected(Failed)
                 else Done(Lowering(team, deleted, LoweredMessage(team.name, time, deleted))))
  {
    if g == null {
      return Rejected(NoGuild);
    }
    if !IsAcceptTime(time, hour, minute) {
      return Rejected(NotAcceptTime);
    }
    var caller := g.members[ci];
    var hasTeam := CheckHasAcceptRole(g.roles, caller);
    if !hasTeam {
      return Rejected(NoAcceptRole);
    }
    var callerTeamRoles := CallerTeamRoles(g.roles, caller);
    if |callerTeamRoles| == 0 {
      return Rejected(NoAcceptRole);
    }
    if |callerTeamRoles| > 1 {
      return Rejected(MultipleTeamRoles);
    }
    var selectedRole := callerTeamRoles[0];
    var deleted, failed := LowerHands(g, selectedRole, HourTest(c, time), failing);
    if failed {
      return Rejected(Failed);
    }
    return Done(Lowering(selectedRole, deleted, LoweredMessage(selectedRole.name, time, deleted)));
  }

  // ---------------------------------------------------------------------------------
  // Properties

  /** The second "no team role" guard can never fire: holding a team role is having one in the filtered list. */
  lemma TeamRoleGuardsAgree(roles: seq<Role>, caller: Member)
    ensures HoldsTeamRole(roles, caller) <==> |CallerTeamRoles(roles, caller)| > 0
  {
    var teams := CallerTeamRoles(roles, caller);
    if HoldsTeamRole(roles, caller) {
      var r :| r in MemberRoles(roles, caller) && r.name in AcceptRolls;
      assert r in teams;
    }
    if |teams| > 0 {
      assert teams[0] in teams;
    }
  }

  /**
   * The guards: a closed window is turned down first; otherwise the request goes ahead
   * exactly when the caller holds one team role, and that role is the team lowered.
   */
  lemma HanddownGuards(gs: GuildState, ci: nat, time: int, hour: int, minute: int)
    requires ci < |gs.members|
    ensures !IsAcceptTime(time, hour, minute) ==> HanddownCheck(gs, ci, time, hour, minute) == Rejected(NotAcceptTime)
    ensures HanddownCheck(gs, ci, time, hour, minute) == Rejected(NoAcceptRole) <==>
      IsAcceptTime(time, hour, minute) && !HoldsTeamRole(gs.roles, gs.members[ci])
    ensures HanddownCheck(gs, ci, time, hour, minute).Done? <==>
      IsAcceptTime(time, hour, minute) && |CallerTeamRoles(gs.roles, gs.members[ci])| == 1
    ensures HanddownCheck(gs, ci, time, hour, minute).Done? ==>
      var team := HanddownCheck(gs, ci, time, hour, minute).value;
      team.name in AcceptRolls && team in MemberRoles(gs.roles, gs.members[ci])
  {
    var teams := CallerTeamRoles(gs.roles, gs.members[ci]);
    TeamRoleGuardsAgree(gs.roles, gs.members[ci]);
    if |teams| == 1 {
      assert teams[0] in teams;
    }
  }

  /**
   * Roles that are not hand-raises for the hour survive the lowering; in particular a
   * hand-raise for another configured hour does, when the digest tells the hours apart.
   */
  lemma OtherHoursSurvive(c: Crypto, roles: seq<Role>, team: Role, time: int, other: int, failing: set<nat>,
                          m: Member, r: Role)
    requires UniqueIds(roles) && r in roles && r.id in m.roleIds
    requires HourFingerprintsDistinct(c) && time in StartOclocks && other in StartOclocks && other != time
    requires IsCreatedAndIsAtTimeRole(c, r.name, other)
    ensures r.id in LowerMember(roles, team, HourTest(c, time), failing, m).roleIds
  {
    if IsCreatedAndIsAtTimeRole(c, r.name, time) {
      AtTimeRoleHourIsUnique(c, r.name, time, other);
    }
    LoweringRemovesExactlyHourRoles(roles, team, HourTest(c, time), failing, m, r);
  }
}
