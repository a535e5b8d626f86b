/**
 * The `/uc-handup` command (src/commands/handup.ts): a team member raises a hand for an
 * hour. Inside the acceptance window, a caller holding a team role and no hand-raise for
 * that hour receives a freshly named hand-raise role.
 */
module Handup {
  import opened Wrappers
  import opened Text
  import opened Primitives
  import opened Discord
  import opened HelperConfig
  import opened RoleNameHelper
  import opened HelperUtils
  import opened HandRegistry

  /** The reply on success: the role given and the text. */
  datatype Raised = Raised(role: Role, message: string)

  /** The caller already holds a role that passes the hour test. */
  predicate RaisedAt(roles: seq<Role>, m: Member, isHand: string -> bool)
  {
    exists r :: r in MemberRoles(roles, m) && isHand(r.name)
  }

  /**
   * The guards, in source order: the acceptance window, then the guild, then the team
   * role, then an earlier hand-raise for the same hour. On success, the hour.
   */
  function HandupCheck(c: Crypto, gs: Option<GuildState>, ci: nat, time: int, hour: int, minute: int): (r: Outcome<int>)
    requires gs.Some? ==> ci < |gs.value.members|
    ensures r.Done? ==> r.value == time && time in StartOclocks && gs.Some?
    ensures r.Done? ==> exists team :: team in gs.value.roles && team.id in gs.value.members[ci].roleIds && team.name in AcceptRolls
  {
    if !IsAcceptTime(time, hour, minute) then Rejected(NotAcceptTime)
    else if gs.None? then Rejected(NoGuild)
    else if !HoldsTeamRole(gs.value.roles, gs.value.members[ci]) then Rejected(NoAcceptRole)
    else if RaisedAt(gs.value.roles, gs.value.members[ci], HourTest(c, time)) then Rejected(AlreadyRaised)
    else Done(time)
  }

  /** The success text, naming the hour and the role. */
  function HandupMessage(time: int, roleName: string): string
  {
    "### " + DecimalString(time) + "時の挙手を受け付けました\n時間ロール \"" + roleName + "\" を付与しました。"
  }

  /** The loop over the caller's roles that stops at the first one passing the hour test. */
  method HasRaised(roles: seq<Role>, m: Member, isHand: string -> bool) returns (already: bool)
    ensures already <==> RaisedAt(roles, m, isHand)
  {
    var held := MemberRoles(roles, m);
    already := false;
    var i := 0;
    while i < |held|
      invariant 0 <= i <= |held|
      invariant forall k :: 0 <= k < i ==> !isHand(held[k].name)
    {
      if isHand(held[i].name) {
        already := true;
        break;
      }
      i := i + 1;
    }
  }

  /** The guild-free state of `g`, or None when there is no guild. */
  function StateOf(g: Guild?): Option<GuildState>
    reads g
  {
    if g == null then None else Some(g.State())
  }

  /**
   * `execute(interaction)`. The JST clock is `hour`:`minute`, the Unix time `now` goes into
   * the role name and `createdAt` is the creation timestamp Discord would give a new role.
   * `createFails` and `addFails` say whether the API refuses to create the role (when it
   * does not exist yet) and to give it to the caller.
   */
  method Execute(c: Crypto, g: Guild?, ci: nat, time: int, hour: int, minute: int, now: nat, createdAt: int,
                 createFails: bool, addFails: bool)
    returns (out: Outcome<Raised>)
    requires g != null ==> g.Valid() && ci < |g.members|
    modifies g
    ensures g != null ==> g.Valid() && |g.members| == |old(g.members)|
    ensures HandupCheck(c, old(StateOf(g)), ci, time, hour, minute).Rejected? ==>
      && out == Rejected(HandupCheck(c, old(StateOf(g)), ci, time, hour, minute).reason)
      && (g != null ==> g.roles == old(g.roles) && g.members == old(g.members))
    ensures HandupCheck(c, old(StateOf(g)), ci, time, hour, minute).Done? ==>
      var name := CreateRoleNow(c, now, time);
      var existing := old(FindByName(g.roles, name));
      if existing.None? && createFails then
        out == Rejected(Failed) && g.roles == old(g.roles) && g.members == old(g.members)
      else
        exists role: Role ::
          && GrantedRole(old(g.roles), g.roles, name, createdAt, role)
          && g.members == (if addFails then old(g.members)
                           else old(g.members)[ci := old(g.members)[ci].(roleIds := old(g.members)[ci].roleIds + {role.id})])
          && out == (if addFails then Rejected(Failed) else Done(Raised(role, HandupMessage(time, name))))
  {
    if !IsAcceptTime(time, hour, minute) {
      return Rejected(NotAcceptTime);
    }
    if g == null {
      return Rejected(NoGuild);
    }
    var caller := g.members[ci];
    var hasTeam := CheckHasAcceptRole(g.roles, caller);
    if !hasTeam {
      return Rejected(NoAcceptRole);
    }
    var already := HasRaised(g.roles, caller, HourTest(c, time));
    if already {
      return Rejected(AlreadyRaised);
    }
    var timeRoleName := CreateRoleNow(c, now, time);
    var granted := GrantHourRole(g, ci, timeRoleName, createdAt, createFails, addFails);
    if granted.None? {
      return Rejected(Failed);
    }
    assert GrantedRole(old(g.roles), g.roles, timeRoleName, createdAt, granted.value);
    if addFails {
      return Rejected(Failed);
    }
    return Done(Raised(granted.value, HandupMessage(time, timeRoleName)));
  }

  // ---------------------------------------------------------------------------------
  // Properties

  /**
   * The guards: outside the window the request is turned down first; otherwise it goes
   * ahead exactly for a caller in a guild, holding a team role and no hand-raise for the hour.
   */
  lemma HandupGuards(c: Crypto, gs: Option<GuildState>, ci: nat, time: int, hour: int, minute: int)
    requires gs.Some? ==> ci < |gs.value.members|
    ensures !IsAcceptTime(time, hour, minute) ==> HandupCheck(c, gs, ci, time, hour, minute) == Rejected(NotAcceptTime)
    ensures HandupCheck(c, gs, ci, time, hour, minute).Done? <==>
      && IsAcceptTime(time, hour, minute) && gs.Some?
      && HoldsTeamRole(gs.value.roles, gs.value.members[ci])
      && !(exists r :: r in gs.value.roles && r.id in gs.value.members[ci].roleIds && IsCreatedAndIsAtTimeRole(c, r.name, time))
    ensures HandupCheck(c, gs, ci, time, hour, minute).Done? ==> time in StartOclocks
  {
  }

  /**
   * The role handed out is a hand-raise for the requested hour: a caller who receives it
   * counts as having raised a hand for that hour from then on.
   */
  lemma GrantedRoleRaisesHand(c: Crypto, roles: seq<Role>, m: Member, role: Role, now: nat, time: int)
    requires Sound(c) && time in StartOclocks
    requires role in roles && role.name == CreateRoleNow(c, now, time)
    ensures RaisedAt(roles, m.(roleIds := m.roleIds + {role.id}), HourTest(c, time))
  {
    CreatedRoleIsAtItsHour(c, now, time);
    assert role in MemberRoles(roles, m.(roleIds := m.roleIds + {role.id}));
  }

  /**
   * A second `/uc-handup` for the same hour, after a successful one, is turned down as
   * already raised, whether the role was found or created.
   */
  lemma SecondHandupIsRejected(c: Crypto, gs: GuildState, ci: nat, time: int, hour: int, minute: int,
                               now: nat, role: Role, roles: seq<Role>)
    requires Sound(c) && ci < |gs.members|
    requires HandupCheck(c, Some(gs), ci, time, hour, minute).Done?
    requires role.name == CreateRoleNow(c, now, time)
    requires role in roles && forall r :: r in gs.roles ==> r in roles
    ensures
      var m := gs.members[ci];
      HandupCheck(c, Some(GuildState(roles, gs.members[ci := m.(roleIds := m.roleIds + {role.id})])), ci, time, hour, minute)
        == Rejected(AlreadyRaised)
  {
    var m := gs.members[ci];
    var m' := m.(roleIds := m.roleIds + {role.id});
    var team :| team in MemberRoles(gs.roles, m) && team.name in AcceptRolls;
    assert team in MemberRoles(roles, m');
    GrantedRoleRaisesHand(c, roles, m, role, now, time);
  }

  /** The success text names the role given. */
  lemma HandupMessageNamesRole(time: int, roleName: string)
    ensures Includes(HandupMessage(time, roleName), roleName)
  {
    var prefix := "### " + DecimalString(time) + "時の挙手を受け付けました\n時間ロール \"";
    var rest := "\" を付与しました。";
    assert HandupMessage(time, roleName) == prefix + roleName + rest;
    assert roleName <= (prefix + roleName + rest)[|prefix|..];
  }
}
