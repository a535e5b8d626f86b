/**
 * The part of the Discord data model the bot touches: roles, guild members holding roles,
 * and the guild's role and member caches. A member stores the ids of its roles; its
 * `roles.cache` is the guild's roles filtered by those ids (so it follows the guild's role
 * order), and a role's `members` are the guild members holding its id, in member order.
 */
module Discord {
  import opened Wrappers

  datatype Role = Role(id: nat, name: string, createdTimestamp: int)

  datatype Member = Member(id: nat, roleIds: set<nat>, isAdmin: bool)

  /** A read-only view of a guild: `guild.roles.cache` and `guild.members.cache`. */
  datatype GuildState = GuildState(roles: seq<Role>, members: seq<Member>)

  /** Why a command handler turned a request down (each is one reply embed in the source). */
  datatype Reason =
    | NoGuild            // interaction.guild is missing
    | NotGuildMember     // interaction.member is not a resolved GuildMember
    | NotAdmin           // caller lacks the Administrator permission
    | MissingOption      // a non-required option was not supplied
    | NotAcceptTime      // isAcceptTime(time) is false
    | NotStartOclock     // time is not a configured recruitment hour
    | InvalidTimeRole    // no time-role name could be built for the time
    | NoTimeRole         // the time role does not exist in the guild
    | NoAcceptRole       // the caller holds no team role
    | MultipleTeamRoles  // the caller holds more than one team role
    | NotTeamRole        // the selected role is not a team role
    | NoMembers          // the selected role has no members
    | AlreadyRaised      // a hand is already raised for that hour
    | NotEnoughTeams     // fewer than two teams take part
    | Failed             // an exception was caught and an error embed sent

  /** What a command handler replies: a rejection, or the result of the work it did. */
  datatype Outcome<T> = Rejected(reason: Reason) | Done(value: T)

  /** `member.roles.cache`: the guild's roles whose id the member holds, in guild order. */
  function MemberRoles(roles: seq<Role>, m: Member): (held: seq<Role>)
    ensures forall r :: r in held <==> r in roles && r.id in m.roleIds
    ensures |held| <= |roles|
  {
    if roles == [] then []
    else
      assert forall r :: r in roles <==> r == roles[0] || r in roles[1..];
      (if roles[0].id in m.roleIds then [roles[0]] else []) + MemberRoles(roles[1..], m)
  }

  /** `role.members`: the guild's members holding the role, in member order. */
  function RoleMembers(members: seq<Member>, role: Role): (holders: seq<Member>)
    ensures forall m :: m in holders <==> m in members && role.id in m.roleIds
    ensures |holders| <= |members|
  {
    if members == [] then []
    else
      assert forall m :: m in members <==> m == members[0] || m in members[1..];
      (if role.id in members[0].roleIds then [members[0]] else []) + RoleMembers(members[1..], role)
  }

  /**
   * `roles.find((r) => r.name === name)`: the first role with that name, in cache order,
   * or undefined when there is none.
   */
  function FindByName(roles: seq<Role>, name: string): (found: Option<Role>)
    ensures found.None? <==> forall r :: r in roles ==> r.name != name
    ensures found.Some? ==> exists i :: 0 <= i < |roles| && roles[i] == found.value && found.value.name == name &&
                                        forall k :: 0 <= k < i ==> roles[k].name != name
  {
    if roles == [] then None
    else if roles[0].name == name then Some(roles[0])
    else
      var rest := FindByName(roles[1..], name);
      assert forall r :: r in roles <==> r == roles[0] || r in roles[1..];
      if rest.Some? then
        var i :| 0 <= i < |roles[1..]| && roles[1..][i] == rest.value && rest.value.name == name &&
                 forall k :: 0 <= k < i ==> roles[1..][k].name != name;
        assert roles[i + 1] == rest.value && forall k :: 0 <= k < i + 1 ==> roles[k].name != name;
        rest
      else rest
  }

  /** The member holds some role with exactly the given name. */
  predicate HoldsRoleNamed(roles: seq<Role>, m: Member, name: string)
  {
    exists r :: r in MemberRoles(roles, m) && r.name == name
  }

  /** No two roles of the guild share an id. */
  ghost predicate UniqueIds(roles: seq<Role>)
  {
    forall i, j :: 0 <= i < j < |roles| ==> roles[i].id != roles[j].id
  }

  /** An id no role of the guild uses yet (Discord hands out a new snowflake). */
  function FreshId(roles: seq<Role>): (id: nat)
    ensures forall r :: r in roles ==> r.id < id
  {
    if roles == [] then 0
    else
      var rest := FreshId(roles[1..]);
      assert forall r :: r in roles ==> r == roles[0] || r in roles[1..];
      if roles[0].id < rest then rest else roles[0].id + 1
  }

  /** The guild's roles after the role with the given id is deleted. */
  function WithoutRole(roles: seq<Role>, id: nat): (rest: seq<Role>)
    ensures forall r :: r in rest <==> r in roles && r.id != id
    ensures UniqueIds(roles) ==> UniqueIds(rest)
  {
    if roles == [] then []
    else
      var tail := WithoutRole(roles[1..], id);
      assert forall r :: r in roles <==> r == roles[0] || r in roles[1..];
      assert UniqueIds(roles) ==> UniqueIds(roles[1..]) && forall r :: r in tail ==> r.id != roles[0].id;
      if roles[0].id == id then tail else [roles[0]] + tail
  }

  /**
   * A guild as the bot sees it through discord.js: its role cache and member cache, which
   * the commands change through the API calls below.
   */
  class Guild {
    var roles: seq<Role>
    var members: seq<Member>

    ghost predicate Valid()
      reads this
    {
      UniqueIds(roles)
    }

    function State(): GuildState
      reads this
    {
      GuildState(roles, members)
    }

    /** `member.roles.add(role)` for the member at position i. */
    method AddMemberRole(i: nat, role: Role)
      requires i < |members|
      modifies this
      ensures roles == old(roles)
      ensures members == old(members)[i := old(members)[i].(roleIds := old(members)[i].roleIds + {role.id})]
    {
      members := members[i := members[i].(roleIds := members[i].roleIds + {role.id})];
    }

    /** `member.roles.remove(role)` for the member at position i. */
    method RemoveMemberRole(i: nat, role: Role)
      requires i < |members|
      modifies this
      ensures roles == old(roles)
      ensures members == old(members)[i := old(members)[i].(roleIds := old(members)[i].roleIds - {role.id})]
    {
      members := members[i := members[i].(roleIds := members[i].roleIds - {role.id})];
    }

    /** `guild.roles.create({ name })`: a new role with a fresh id, appended to the cache. */
    method CreateRole(name: string, createdAt: int) returns (role: Role)
      requires Valid()
      modifies this
      ensures Valid()
      ensures role.name == name && role.createdTimestamp == createdAt
      ensures forall r :: r in old(roles) ==> r.id != role.id
      ensures roles == old(roles) + [role] && members == old(members)
    {
      role := Role(FreshId(roles), name, createdAt);
      roles := roles + [role];
    }

    /** `role.delete()`: the role leaves the guild and every member that held it. */
    method DeleteRole(role: Role)
      requires Valid()
      modifies this
      ensures Valid()
      ensures roles == WithoutRole(old(roles), role.id)
      ensures |members| == |old(members)|
      ensures forall i :: 0 <= i < |members| ==>
        members[i] == old(members)[i].(roleIds := old(members)[i].roleIds - {role.id})
    {
      roles := WithoutRole(roles, role.id);
      members := seq(|members|, i requires 0 <= i < |members| reads this =>
        members[i].(roleIds := members[i].roleIds - {role.id}));
    }
  }
}
