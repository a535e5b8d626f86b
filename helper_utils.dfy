/**
 * The shared helpers of the newer generation (src/helper/utils.ts): the acceptance window,
 * role lookups, the least-priority tag, the team-role check and the per-hour listing of
 * hand-raise roles.
 */
module HelperUtils {
  import opened Wrappers
  import opened Primitives
  import opened Discord
  import opened HelperConfig
  import opened Sha126Utils
  import opened RoleNameHelper

  /**
   * `isAcceptTime(wantTime)`, with the JST clock's hour and minute passed in (they are
   * read from the system clock in the source).
   */
  predicate IsAcceptTime(wantTime: int, hour: int, minute: int)
    ensures IsAcceptTime(wantTime, hour, minute) ==> wantTime in StartOclocks && StartRecruitment <= hour
  {
    if wantTime !in StartOclocks then false
    else if hour < StartRecruitment then false
    else if JsRem(60 - StartBeforeLimitMinutes, 60) > minute && JsRem(wantTime - 1, 24) == hour then true
    else if JsRem(wantTime - 1, 24) > hour then true
    else false
  }

  /**
   * The acceptance window: hands for hour w are taken from the recruitment hour until
   * ten minutes before w (that is, until (w-1):49 inclusive), and only for configured hours.
   */
  lemma AcceptWindow(w: int, hour: int, minute: int)
    requires 0 <= hour < 24 && 0 <= minute < 60
    ensures IsAcceptTime(w, hour, minute) <==>
      w in StartOclocks && StartRecruitment <= hour &&
      hour * 60 + minute < (w - 1) * 60 + (60 - StartBeforeLimitMinutes)
  {
    if w in StartOclocks {
      assert JsRem(w - 1, 24) == w - 1;
    }
  }

  /** The noon match takes hands only during 11:00-11:49, however early the day starts. */
  lemma NoonWindow(hour: int, minute: int)
    requires 0 <= hour < 24 && 0 <= minute < 60
    ensures IsAcceptTime(12, hour, minute) <==> hour == 11 && minute < 50
  {
    AcceptWindow(12, hour, minute);
  }

  /** `getRoleByName(roleName, guild)`: the first role in cache order with that name. */
  method GetRoleByName(roles: seq<Role>, roleName: string) returns (found: Option<Role>)
    ensures found == FindByName(roles, roleName)
  {
    for i := 0 to |roles|
      invariant FindByName(roles, roleName) == FindByName(roles[i..], roleName)
    {
      assert roles[i..][1..] == roles[i + 1..];
      if roles[i].name == roleName {
        return Some(roles[i]);
      }
    }
    return None;
  }

  /**
   * `getOrCreateRole(guild, roleName)`: the first role with that name, or else a role of
   * that name created in the guild at time `createdAt`.
   */
  method GetOrCreateRole(g: Guild, roleName: string, createdAt: int) returns (role: Role)
    requires g.Valid()
    modifies g
    ensures g.Valid()
    ensures role.name == roleName && role in g.roles
    ensures old(FindByName(g.roles, roleName)).Some? ==>
      role == old(FindByName(g.roles, roleName)).value && g.roles == old(g.roles) && g.members == old(g.members)
    ensures old(FindByName(g.roles, roleName)).None? ==>
      g.roles == old(g.roles) + [role] && g.members == old(g.members) && role.createdTimestamp == createdAt &&
      forall r :: r in old(g.roles) ==> r.id != role.id
  {
    var existing := FindByName(g.roles, roleName);
    if existing.Some? {
      assert existing.value in g.roles;
      role := existing.value;
    } else {
      role := g.CreateRole(roleName, createdAt);
    }
  }

  /**
   * `role` is what `getOrCreateRole` gives for `roleName` on `roles0`, leaving `roles`: the
   * first role of that name, or a new role with an unused id appended at time `createdAt`.
   */
  ghost predicate GrantedRole(roles0: seq<Role>, roles: seq<Role>, roleName: string, createdAt: int, role: Role)
  {
    var existing := FindByName(roles0, roleName);
    && role.name == roleName
    && (existing.Some? ==> role == existing.value && roles == roles0)
    && (existing.None? ==>
          && roles == roles0 + [role] && role.createdTimestamp == createdAt
          && (forall r :: r in roles0 ==> r.id != role.id))
  }

  /**
   * `getOrCreateRole` followed by `roles.add` for the member at position i. `createFails`
   * and `addFails` say whether the API refuses to create the role (when it does not exist
   * yet) and to give it; the role is None only when its creation is refused.
   */
  method GrantHourRole(g: Guild, i: nat, roleName: string, createdAt: int, createFails: bool, addFails: bool)
    returns (role: Option<Role>)
    requires g.Valid() && i < |g.members|
    modifies g
    ensures g.Valid() && |g.members| == |old(g.members)|
    ensures role.None? <==> old(FindByName(g.roles, roleName)).None? && createFails
    ensures role.None? ==> g.roles == old(g.roles)
    ensures role.Some? ==> GrantedRole(old(g.roles), g.roles, roleName, createdAt, role.value)
    ensures g.members == (if role.None? || addFails then old(g.members)
                          else old(g.members)[i := old(g.members)[i].(roleIds := old(g.members)[i].roleIds + {role.value.id})])
  {
    if FindByName(g.roles, roleName).None? && createFails {
      return None;
    }
    var r := GetOrCreateRole(g, roleName, createdAt);
    if !addFails {
      g.AddMemberRole(i, r);
    }
    return Some(r);
  }

  /** Some member of the team holds the least-priority role. */
  predicate HoldsLeastRole(gs: GuildState, team: Role)
  {
    exists m :: m in RoleMembers(gs.members, team) && HoldsRoleNamed(gs.roles, m, LeastRoleName)
  }

  /** `hasLeastRoleName(role)`: the flag loop over the team's members and their roles. */
  method HasLeastRoleName(gs: GuildState, team: Role) returns (flag: bool)
    ensures flag <==> HoldsLeastRole(gs, team)
  {
    var members := RoleMembers(gs.members, team);
    flag := false;
    for i := 0 to |members|
      invariant flag <==> exists k :: 0 <= k < i && HoldsRoleNamed(gs.roles, members[k], LeastRoleName)
    {
      var found := HoldsNamed(MemberRoles(gs.roles, members[i]), LeastRoleName);
      flag := flag || found;
    }
  }

  /** The inner loop: over one member's roles, setting the flag on a role with the name. */
  method HoldsNamed(held: seq<Role>, name: string) returns (found: bool)
    ensures found <==> exists r :: r in held && r.name == name
  {
    found := false;
    for j := 0 to |held|
      invariant found <==> exists l :: 0 <= l < j && held[l].name == name
    {
      if held[j].name == name {
        found := true;
      }
    }
  }

  /** The team's display name: its name, followed by the least-priority tag when it applies. */
  function TaggedName(gs: GuildState, team: Role): string
  {
    team.name + (if HoldsLeastRole(gs, team) then " (" + LeastRoleName + ")" else "")
  }

  /** `returnRoleNameWithLeastTag(role)`. */
  method ReturnRoleNameWithLeastTag(gs: GuildState, team: Role) returns (name: string)
    ensures name == TaggedName(gs, team)
  {
    var hasLeastRole := HasLeastRoleName(gs, team);
    name := team.name + (if hasLeastRole then " (" + LeastRoleName + ")" else "");
  }

  /** The tag only ever extends the team's name, and it is there exactly for least-priority teams. */
  lemma TaggedNameExtendsName(gs: GuildState, team: Role)
    ensures team.name <= TaggedName(gs, team)
    ensures TaggedName(gs, team) == team.name <==> !HoldsLeastRole(gs, team)
    ensures HoldsLeastRole(gs, team) ==> TaggedName(gs, team)[|team.name|..] == " (試合数5)"
  {
    var t := TaggedName(gs, team);
    assert t[..|team.name|] == team.name;
  }

  /** The member holds a team role (one whose name is among the accepted team names). */
  predicate HoldsTeamRole(roles: seq<Role>, m: Member)
  {
    exists r :: r in MemberRoles(roles, m) && r.name in AcceptRolls
  }

  /** `checkHasAcceptRole(member)`: the flag loop over the member's roles. */
  method CheckHasAcceptRole(roles: seq<Role>, m: Member) returns (flag: bool)
    ensures flag <==> HoldsTeamRole(roles, m)
  {
    var held := MemberRoles(roles, m);
    flag := false;
    for i := 0 to |held|
      invariant flag <==> exists k :: 0 <= k < i && held[k].name in AcceptRolls
    {
      if held[i].name in AcceptRolls {
        flag := true;
      }
    }
  }

  /**
   * `getAllRoleByTargetTime(targetTime, guild)`: nothing for an unconfigured hour, otherwise
   * every guild role that is a hand-raise for that hour, each once.
   */
  method GetAllRoleByTargetTime(c: Crypto, roles: seq<Role>, targetTime: int) returns (hourRoles: seq<Role>)
    ensures targetTime !in StartOclocks ==> hourRoles == []
    ensures targetTime in StartOclocks ==>
      forall r :: r in hourRoles <==> r in roles && IsCreatedAndIsAtTimeRole(c, r.name, targetTime)
    ensures forall i, j :: 0 <= i < j < |hourRoles| ==> hourRoles[i] != hourRoles[j]
  {
    if targetTime !in StartOclocks {
      return [];
    }
    hourRoles := [];
    for i := 0 to |roles|
      invariant forall r :: r in hourRoles <==> r in roles[..i] && IsCreatedAndIsAtTimeRole(c, r.name, targetTime)
      invariant forall p, q :: 0 <= p < q < |hourRoles| ==> hourRoles[p] != hourRoles[q]
    {
      assert roles[..i + 1] == roles[..i] + [roles[i]];
      if IsCreatedAndIsAtTimeRole(c, roles[i].name, targetTime) && roles[i] !in hourRoles {
        hourRoles := hourRoles + [roles[i]];
      }
    }
    assert roles[..|roles|] == roles;
  }

  /**
   * `getTimeRolesTuple(guild)`: for each configured hour, in order, its hand-raise roles.
   * When the digest tells the hours apart, no role is listed under two hours.
   */
  method GetTimeRolesTuple(c: Crypto, roles: seq<Role>) returns (tuples: seq<(int, seq<Role>)>)
    ensures |tuples| == |StartOclocks|
    ensures forall i :: 0 <= i < |tuples| ==>
      && tuples[i].0 == StartOclocks[i]
      && forall r :: r in tuples[i].1 <==> r in roles && IsCreatedAndIsAtTimeRole(c, r.name, StartOclocks[i])
    ensures HourFingerprintsDistinct(c) ==>
      forall i, j, r :: 0 <= i < j < |tuples| && r in tuples[i].1 ==> r !in tuples[j].1
  {
    tuples := [];
    for i := 0 to |StartOclocks|
      invariant |tuples| == i
      invariant forall k :: 0 <= k < i ==>
        && tuples[k].0 == StartOclocks[k]
        && forall r :: r in tuples[k].1 <==> r in roles && IsCreatedAndIsAtTimeRole(c, r.name, StartOclocks[k])
    {
      var hourRoles := GetAllRoleByTargetTime(c, roles, StartOclocks[i]);
      tuples := tuples + [(StartOclocks[i], hourRoles)];
    }
    if HourFingerprintsDistinct(c) {
      forall i, j, r | 0 <= i < j < |tuples| && r in tuples[i].1
        ensures r !in tuples[j].1
      {
        if r in tuples[j].1 {
          AtTimeRoleHourIsUnique(c, r.name, StartOclocks[i], StartOclocks[j]);
        }
      }
    }
  }
}
