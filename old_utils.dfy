/**
 * The helpers of the older generation (src/utils.ts): time-slot roles are named
 * `"time:" + sha256hex(decimal hour)`, and the lookups are `find`/`some` expressions.
 */
module OldUtils {
  import opened Wrappers
  import opened Text
  import opened Primitives
  import opened Discord
  import opened OldConfig

  /** `isAcceptTime(wantTime)`, with the JST clock's hour and minute passed in. */
  predicate IsAcceptTime(wantTime: int, hour: int, minute: int)
    ensures IsAcceptTime(wantTime, hour, minute) ==> wantTime in StartOclocks && StartRecruitment <= hour
  {
    if wantTime !in StartOclocks then false
    else if hour < StartRecruitment then false
    else if JsRem(60 - StartBeforeLimitMinutes, 60) > minute && JsRem(wantTime - 1, 24) == hour then true
    else if JsRem(wantTime - 1, 24) > hour then true
    else false
  }

  /**
   * The acceptance window: hands for hour w are taken from 12:00 until thirteen minutes
   * before w (that is, until (w-1):46 inclusive), and only for configured hours.
   */
  lemma AcceptWindow(w: int, hour: int, minute: int)
    requires 0 <= hour < 24 && 0 <= minute < 60
    ensures IsAcceptTime(w, hour, minute) <==>
      w in StartOclocks && StartRecruitment <= hour &&
      hour * 60 + minute < (w - 1) * 60 + (60 - StartBeforeLimitMinutes)
  {
    if w in StartOclocks {
      assert JsRem(w - 1, 24) == w - 1;
    }
  }

  /** `parseTimeRoleName(time)`: the prefix followed by the full hex digest of the decimal hour. */
  function ParseTimeRoleName(c: Crypto, time: int): (name: string)
    ensures TimeRolePrefix <= name
    ensures name[|TimeRolePrefix|..] == c.sha256Hex(DecimalString(time))
  {
    TimeRolePrefix + c.sha256Hex(DecimalString(time))
  }

  /** With a sound digest a time-role name is 69 characters long and contains no "-". */
  lemma TimeRoleNameShape(c: Crypto, time: int)
    requires Sound(c)
    ensures |ParseTimeRoleName(c, time)| == |TimeRolePrefix| + 64
    ensures '-' !in ParseTimeRoleName(c, time)
  {
    var name := ParseTimeRoleName(c, time);
    var h := c.sha256Hex(DecimalString(time));
    assert name == TimeRolePrefix + h;
    forall i | 0 <= i < |name|
      ensures name[i] != '-'
    {
      if i >= |TimeRolePrefix| {
        assert name[i] == h[i - |TimeRolePrefix|];
        assert IsHexDigit(h[i - |TimeRolePrefix|]);
      }
    }
  }

  /** `getTimeRoleName(time)`: null for an unconfigured hour, otherwise its time-role name. */
  function GetTimeRoleName(c: Crypto, time: int): (name: Option<string>)
    ensures name.None? <==> time !in StartOclocks
    ensures name.Some? ==> name.value == ParseTimeRoleName(c, time)
  {
    if time !in StartOclocks then None else Some(ParseTimeRoleName(c, time))
  }

  /** `getTimeRoleTuples()`: each configured hour with its time-role name, in Set order. */
  method GetTimeRoleTuples(c: Crypto) returns (tuples: seq<(int, string)>)
    ensures |tuples| == |StartOclocks|
    ensures forall i :: 0 <= i < |tuples| ==>
      tuples[i].0 == StartOclocks[i] && Some(tuples[i].1) == GetTimeRoleName(c, tuples[i].0)
  {
    tuples := [];
    for i := 0 to |StartOclocks|
      invariant |tuples| == i
      invariant forall k :: 0 <= k < i ==>
        tuples[k].0 == StartOclocks[k] && tuples[k].1 == ParseTimeRoleName(c, StartOclocks[k])
    {
      tuples := tuples + [(StartOclocks[i], ParseTimeRoleName(c, StartOclocks[i]))];
    }
  }

  /** `getAllTimeRoleNames()`: the time-role name of each configured hour, in Set order. */
  method GetAllTimeRoleNames(c: Crypto) returns (names: seq<string>)
    ensures |names| == |StartOclocks|
    ensures forall i :: 0 <= i < |names| ==> Some(names[i]) == GetTimeRoleName(c, StartOclocks[i])
  {
    names := [];
    for i := 0 to |StartOclocks|
      invariant |names| == i
      invariant forall k :: 0 <= k < i ==> names[k] == ParseTimeRoleName(c, StartOclocks[k])
    {
      names := names + [ParseTimeRoleName(c, StartOclocks[i])];
    }
  }

  /**
   * `hasLeastRoleName(role)`: some member of the team holds a role named exactly like
   * the least-priority role.
   */
  predicate HasLeastRoleName(gs: GuildState, team: Role)
    ensures HasLeastRoleName(gs, team) ==> exists r :: r in gs.roles && r.name == LeastRoleName
  {
    exists m :: m in RoleMembers(gs.members, team) && HoldsRoleNamed(gs.roles, m, LeastRoleName)
  }

  /** The same condition spelled out on ids: a member holding the team and a role so named. */
  lemma HasLeastRoleNameOnIds(gs: GuildState, team: Role)
    ensures HasLeastRoleName(gs, team) <==>
      exists m, r :: m in gs.members && r in gs.roles && team.id in m.roleIds && r.id in m.roleIds &&
                     r.name == LeastRoleName
  {
    if HasLeastRoleName(gs, team) {
      var m :| m in RoleMembers(gs.members, team) && HoldsRoleNamed(gs.roles, m, LeastRoleName);
      var r :| r in MemberRoles(gs.roles, m) && r.name == LeastRoleName;
      assert m in gs.members && r in gs.roles && team.id in m.roleIds && r.id in m.roleIds;
    }
    if exists m, r :: m in gs.members && r in gs.roles && team.id in m.roleIds && r.id in m.roleIds &&
                      r.name == LeastRoleName {
      var m, r :| m in gs.members && r in gs.roles && team.id in m.roleIds && r.id in m.roleIds &&
                  r.name == LeastRoleName;
      assert r in MemberRoles(gs.roles, m);
      assert m in RoleMembers(gs.members, team);
    }
  }

  /**
   * `returnRoleNameWithLeastTag(role)`: `role?.name || fallback + tag`. The `||` binds
   * looser than `+`, so a named team gets its bare name; only the fallback text can carry
   * the tag. On an undefined role the fallback evaluates `hasLeastRoleName(undefined)`,
   * which throws (None).
   */
  function ReturnRoleNameWithLeastTag(gs: GuildState, team: Option<Role>): (name: Option<string>)
    ensures team.None? <==> name.None?
    ensures team.Some? && team.value.name != "" ==> name == Some(team.value.name)
    ensures team.Some? && team.value.name == "" ==> "名前がありません" <= name.value
  {
    match team
    case None => None
    case Some(role) =>
      if role.name != "" then Some(role.name)
      else Some("名前がありません" + (if HasLeastRoleName(gs, role) then " (" + LeastRoleName + ")" else ""))
  }

  /** A team named after an accepted team name never shows the least-priority tag. */
  lemma TeamNameIsUntagged(gs: GuildState, team: Role)
    requires team.name in AcceptRolls
    ensures ReturnRoleNameWithLeastTag(gs, Some(team)) == Some(team.name)
  {
  }

  /** `checkHasAcceptRole(member)`: some role of the member has an accepted team name. */
  predicate CheckHasAcceptRole(roles: seq<Role>, m: Member)
    ensures CheckHasAcceptRole(roles, m) ==> exists r :: r in roles && r.name in AcceptRolls
  {
    exists r :: r in MemberRoles(roles, m) && r.name in AcceptRolls
  }

  /** The same condition spelled out on ids: the member holds the id of a guild role with an accepted name. */
  lemma CheckHasAcceptRoleOnIds(roles: seq<Role>, m: Member)
    ensures CheckHasAcceptRole(roles, m) <==>
      exists r :: r in roles && r.id in m.roleIds && r.name in AcceptRolls
  {
    if exists r :: r in roles && r.id in m.roleIds && r.name in AcceptRolls {
      var r :| r in roles && r.id in m.roleIds && r.name in AcceptRolls;
      assert r in MemberRoles(roles, m);
    }
  }
}
