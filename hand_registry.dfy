/**
 * Lowering the hands of a team for one hour: the nested loop shared by `/uc-handdown`
 * (src/commands/handdown.ts) and `/uc-admin-handdown` (src/commands/adminHanddown.ts).
 * Every member holding the team role loses every role that is a hand-raise for that
 * hour; the roles met are collected, each once, for the reply.
 */
module HandRegistry {
  import opened Text
  import opened Primitives
  import opened Discord
  import opened RoleNameHelper

  /** The role test both commands lower by: `isCreatedAndIsAtTimeRole(role.name, time)`. */
  function HourTest(c: Crypto, time: int): string -> bool
  {
    (name: string) => IsCreatedAndIsAtTimeRole(c, name, time)
  }

  /**
   * The ids a member whose roles are `held` loses: the roles passing the test, except
   * those whose removal the API refuses (`failing`).
   */
  function RemovedIds(held: seq<Role>, isHand: string -> bool, failing: set<nat>): set<nat>
  {
    if held == [] then {}
    else
      var last := held[|held| - 1];
      RemovedIds(held[..|held| - 1], isHand, failing) +
      (if isHand(last.name) && last.id !in failing then {last.id} else {})
  }

  /** The removed ids are exactly those of the held hand-raises for the hour whose removal is not refused. */
  lemma {:induction false} RemovedIdsExactly(held: seq<Role>, isHand: string -> bool, failing: set<nat>)
    ensures forall x :: x in held && isHand(x.name) && x.id !in failing ==>
      x.id in RemovedIds(held, isHand, failing)
    ensures forall id :: id in RemovedIds(held, isHand, failing) ==>
      exists x :: x in held && isHand(x.name) && x.id !in failing && x.id == id
  {
    if held != [] {
      RemovedIdsExactly(held[..|held| - 1], isHand, failing);
      assert forall x :: x in held <==> x in held[..|held| - 1] || x == held[|held| - 1];
    }
  }

  /**
   * A member after the lowering: a team member loses its hand-raises for the hour, except
   * those whose removal the API refuses; anyone else is left alone.
   */
  function LowerMember(roles: seq<Role>, team: Role, isHand: string -> bool, failing: set<nat>, m: Member): Member
  {
    if team.id in m.roleIds then m.(roleIds := m.roleIds - RemovedIds(MemberRoles(roles, m), isHand, failing)) else m
  }

  /** Role r is met by the loop: some team member among `members` holds it, and it is a hand-raise for the hour. */
  predicate LowersRole(roles: seq<Role>, members: seq<Member>, team: Role, isHand: string -> bool, r: Role)
  {
    exists m :: m in members && team.id in m.roleIds && r in MemberRoles(roles, m) && isHand(r.name)
  }

  predicate Distinct(s: seq<Role>)
  {
    forall i, j :: 0 <= i < j < |s| ==> s[i] != s[j]
  }

  /** `deletedRoleSet` after scanning `held` from `acc`: each hand-raise for the hour is added once, in first-seen order. */
  function Collect(held: seq<Role>, isHand: string -> bool, acc: seq<Role>): seq<Role>
  {
    if held == [] then acc
    else
      var prev := Collect(held[..|held| - 1], isHand, acc);
      var last := held[|held| - 1];
      if isHand(last.name) && last !in prev then prev + [last] else prev
  }

  /** Some hand-raise for the hour among `held` has a refused removal. */
  predicate AnyRefused(held: seq<Role>, isHand: string -> bool, failing: set<nat>)
  {
    held != [] &&
    (AnyRefused(held[..|held| - 1], isHand, failing) ||
     (isHand(held[|held| - 1].name) && held[|held| - 1].id in failing))
  }

  /** `deletedRoleSet` after the loops over the first members: the team members' roles, member by member. */
  function CollectAll(roles: seq<Role>, members: seq<Member>, team: Role, isHand: string -> bool): seq<Role>
  {
    if members == [] then []
    else
      var prev := CollectAll(roles, members[..|members| - 1], team, isHand);
      var m := members[|members| - 1];
      if team.id in m.roleIds then Collect(MemberRoles(roles, m), isHand, prev) else prev
  }

  /** Some removal attempted by the loops over `members` is refused. */
  predicate AnyRefusedAll(roles: seq<Role>, members: seq<Member>, team: Role, isHand: string -> bool, failing: set<nat>)
  {
    members != [] &&
    (AnyRefusedAll(roles, members[..|members| - 1], team, isHand, failing) ||
     (team.id in members[|members| - 1].roleIds &&
      AnyRefused(MemberRoles(roles, members[|members| - 1]), isHand, failing)))
  }

  lemma {:induction false} CollectExactly(held: seq<Role>, isHand: string -> bool, acc: seq<Role>)
    requires Distinct(acc)
    ensures Distinct(Collect(held, isHand, acc))
    ensures forall r :: r in Collect(held, isHand, acc) <==>
      r in acc || (r in held && isHand(r.name))
  {
    if held != [] {
      CollectExactly(held[..|held| - 1], isHand, acc);
      assert forall x :: x in held <==> x in held[..|held| - 1] || x == held[|held| - 1];
    }
  }

  lemma {:induction false} AnyRefusedExactly(held: seq<Role>, isHand: string -> bool, failing: set<nat>)
    ensures AnyRefused(held, isHand, failing) <==>
      exists r :: r in held && isHand(r.name) && r.id in failing
  {
    if held != [] {
      AnyRefusedExactly(held[..|held| - 1], isHand, failing);
      assert forall x :: x in held <==> x in held[..|held| - 1] || x == held[|held| - 1];
    }
  }

  /** The reported roles are exactly the roles met, each once. */
  lemma {:induction false} CollectAllExactly(roles: seq<Role>, members: seq<Member>, team: Role, isHand: string -> bool)
    ensures Distinct(CollectAll(roles, members, team, isHand))
    ensures forall r :: r in CollectAll(roles, members, team, isHand) <==> LowersRole(roles, members, team, isHand, r)
  {
    if members != [] {
      var front := members[..|members| - 1];
      var m := members[|members| - 1];
      CollectAllExactly(roles, front, team, isHand);
      var prev := CollectAll(roles, front, team, isHand);
      if team.id in m.roleIds {
        CollectExactly(MemberRoles(roles, m), isHand, prev);
      }
      assert members == front + [m];
      forall r
        ensures LowersRole(roles, members, team, isHand, r) <==>
          LowersRole(roles, front, team, isHand, r) ||
          (team.id in m.roleIds && r in MemberRoles(roles, m) && isHand(r.name))
      {
        LowersRoleSnoc(roles, front, m, team, isHand, r);
      }
    }
  }

  /** The reply is the error exactly when some reported role had its removal refused. */
  lemma {:induction false} AnyRefusedAllExactly(roles: seq<Role>, members: seq<Member>, team: Role,
                                                isHand: string -> bool, failing: set<nat>)
    ensures AnyRefusedAll(roles, members, team, isHand, failing) <==>
      exists r :: r in CollectAll(roles, members, team, isHand) && r.id in failing
  {
    if members != [] {
      var front := members[..|members| - 1];
      var m := members[|members| - 1];
      AnyRefusedAllExactly(roles, front, team, isHand, failing);
      CollectAllExactly(roles, front, team, isHand);
      var prev := CollectAll(roles, front, team, isHand);
      if team.id in m.roleIds {
        CollectExactly(MemberRoles(roles, m), isHand, prev);
        AnyRefusedExactly(MemberRoles(roles, m), isHand, failing);
      }
    }
  }

  /** One more member scanned: the roles met are those met before plus this member's, if it is in the team. */
  lemma LowersRoleSnoc(roles: seq<Role>, members: seq<Member>, m: Member, team: Role, isHand: string -> bool, r: Role)
    ensures LowersRole(roles, members + [m], team, isHand, r) <==>
      LowersRole(roles, members, team, isHand, r) ||
      (team.id in m.roleIds && r in MemberRoles(roles, m) && isHand(r.name))
  {
    if LowersRole(roles, members + [m], team, isHand, r) {
      var w :| w in members + [m] && team.id in w.roleIds && r in MemberRoles(roles, w) &&
               isHand(r.name);
      if w != m {
        assert w in members;
      }
    }
    if LowersRole(roles, members, team, isHand, r) {
      var w :| w in members && team.id in w.roleIds && r in MemberRoles(roles, w) &&
               isHand(r.name);
      assert w in members + [m];
    }
    if team.id in m.roleIds && r in MemberRoles(roles, m) && isHand(r.name) {
      assert m in members + [m];
    }
  }

  /**
   * The inner loop over the roles of the member at position i: each hand-raise for the hour
   * is collected (once) and its removal from the member attempted.
   */
  method LowerOneMember(g: Guild, i: nat, isHand: string -> bool, failing: set<nat>,
                        deleted0: seq<Role>, failed0: bool)
    returns (deleted: seq<Role>, failed: bool)
    requires i < |g.members|
    modifies g
    ensures g.roles == old(g.roles)
    ensures g.members == old(g.members)[i := old(g.members)[i].(roleIds := old(g.members)[i].roleIds -
      RemovedIds(MemberRoles(old(g.roles), old(g.members)[i]), isHand, failing))]
    ensures deleted == Collect(MemberRoles(old(g.roles), old(g.members)[i]), isHand, deleted0)
    ensures failed == (failed0 || AnyRefused(MemberRoles(old(g.roles), old(g.members)[i]), isHand, failing))
  {
    var m := g.members[i];
    var held := MemberRoles(g.roles, m);
    ghost var members0 := g.members;
    deleted, failed := deleted0, failed0;
    assert m.roleIds - {} == m.roleIds;
    assert members0[i := m] == members0;
    for j := 0 to |held|
      invariant g.roles == old(g.roles)
      invariant g.members == members0[i := m.(roleIds := m.roleIds - RemovedIds(held[..j], isHand, failing))]
      invariant deleted == Collect(held[..j], isHand, deleted0)
      invariant failed == (failed0 || AnyRefused(held[..j], isHand, failing))
    {
      var role := held[j];
      ghost var removed := RemovedIds(held[..j], isHand, failing);
      LowerStep(held, j, isHand, failing, deleted0);
      if isHand(role.name) {
        if role !in deleted {
          deleted := deleted + [role];
        }
        if role.id in failing {
          failed := true;
          assert RemovedIds(held[..j + 1], isHand, failing) == removed;
        } else {
          RemoveHeldRole(g, i, m, removed, role);
        }
      } else {
        assert RemovedIds(held[..j + 1], isHand, failing) == removed;
      }
    }
    assert held[..|held|] == held;
  }

  /** `member.roles.remove(role)` on a member that has already lost the ids `removed`. */
  method RemoveHeldRole(g: Guild, i: nat, ghost m: Member, ghost removed: set<nat>, role: Role)
    requires i < |g.members| && g.members[i] == m.(roleIds := m.roleIds - removed)
    modifies g
    ensures g.roles == old(g.roles)
    ensures g.members == old(g.members)[i := m.(roleIds := m.roleIds - (removed + {role.id}))]
  {
    ghost var members0 := g.members;
    ghost var after := m.(roleIds := m.roleIds - (removed + {role.id}));
    assert members0[i].(roleIds := members0[i].roleIds - {role.id}) == after;
    g.RemoveMemberRole(i, role);
  }

  /** One step of the loop over a member's roles, for each of the three things it builds. */
  lemma LowerStep(held: seq<Role>, j: nat, isHand: string -> bool, failing: set<nat>, acc: seq<Role>)
    requires j < |held|
    ensures RemovedIds(held[..j + 1], isHand, failing) ==
      RemovedIds(held[..j], isHand, failing) + (if isHand(held[j].name) && held[j].id !in failing then {held[j].id} else {})
    ensures Collect(held[..j + 1], isHand, acc) ==
      (var prev := Collect(held[..j], isHand, acc);
       if isHand(held[j].name) && held[j] !in prev then prev + [held[j]] else prev)
    ensures AnyRefused(held[..j + 1], isHand, failing) ==
      (AnyRefused(held[..j], isHand, failing) || (isHand(held[j].name) && held[j].id in failing))
  {
    assert held[..j + 1][..j] == held[..j];
  }

  /**
   * The two loops over `selectedRole.members` and each member's `roles.cache`, adding to
   * `deletedRoleSet` and removing the role from the member. `failed` tells whether some
   * removal was refused, which makes `Promise.all` reject.
   */
  method LowerHands(g: Guild, team: Role, isHand: string -> bool, failing: set<nat>)
    returns (deleted: seq<Role>, failed: bool)
    modifies g
    ensures g.roles == old(g.roles)
    ensures |g.members| == |old(g.members)|
    ensures forall i :: 0 <= i < |g.members| ==>
      g.members[i] == LowerMember(old(g.roles), team, isHand, failing, old(g.members)[i])
    ensures deleted == CollectAll(old(g.roles), old(g.members), team, isHand)
    ensures failed == AnyRefusedAll(old(g.roles), old(g.members), team, isHand, failing)
  {
    deleted, failed := [], false;
    var i := 0;
    while i < |g.members|
      invariant 0 <= i <= |g.members| == |old(g.members)| && g.roles == old(g.roles)
      invariant forall k :: 0 <= k < i ==>
        g.members[k] == LowerMember(old(g.roles), team, isHand, failing, old(g.members)[k])
      invariant forall k :: i <= k < |g.members| ==> g.members[k] == old(g.members)[k]
      invariant deleted == CollectAll(old(g.roles), old(g.members)[..i], team, isHand)
      invariant failed == AnyRefusedAll(old(g.roles), old(g.members)[..i], team, isHand, failing)
    {
      assert old(g.members)[..i + 1][..i] == old(g.members)[..i];
      if team.id in g.members[i].roleIds {
        deleted, failed := LowerOneMember(g, i, isHand, failing, deleted, failed);
      }
      i := i + 1;
    }
    assert old(g.members)[..i] == old(g.members);
  }

  // ---------------------------------------------------------------------------------
  // The reply

  /** `- name` for each collected role, in collection order. */
  function Bullets(deleted: seq<Role>): (lines: seq<string>)
    ensures |lines| == |deleted|
    ensures forall i :: 0 <= i < |deleted| ==> lines[i] == "- " + deleted[i].name
  {
    if deleted == [] then [] else ["- " + deleted[0].name] + Bullets(deleted[1..])
  }

  /** The reply of `/uc-handdown` and `/uc-admin-handdown` on success: the team, the roles collected for the report, and the text. */
  datatype Lowering = Lowering(team: Role, deleted: seq<Role>, message: string)

  /** The success text: the header, then either the bulleted role names or the no-target line. */
  function LoweredMessage(teamName: string, time: int, deleted: seq<Role>): (text: string)
    ensures "## " + teamName <= text
  {
    "## " + teamName + "の、" + DecimalString(time) + "時のすべてのロールを解除しました" +
    (if |deleted| > 0 then "\n" + Join(Bullets(deleted), "\n") else "\n対象のロールがありませんでした")
  }

  const NoTargetLine: string := "\n対象のロールがありませんでした"

  lemma {:induction false} JoinIncludesPart(parts: seq<string>, sep: string, k: nat)
    requires k < |parts|
    ensures Includes(Join(parts, sep), parts[k])
  {
    if |parts| == 1 {
      assert parts[k] <= Join(parts, sep)[0..];
    } else if k == 0 {
      assert parts[0] <= Join(parts, sep)[0..];
    } else {
      JoinIncludesPart(parts[1..], sep, k - 1);
      var rest := Join(parts[1..], sep);
      var i :| 0 <= i <= |rest| && parts[k] <= rest[i..];
      var pre := parts[0] + sep;
      assert Join(parts, sep) == pre + rest;
      assert (pre + rest)[|pre| + i..] == rest[i..];
    }
  }

  lemma IncludesInSuffix(a: string, b: string, x: string)
    requires Includes(b, x)
    ensures Includes(a + b, x)
  {
    var i :| 0 <= i <= |b| && x <= b[i..];
    assert (a + b)[|a| + i..] == b[i..];
  }

  /** With nothing collected the reply says so; otherwise it lists every collected role's name. */
  lemma LoweredMessageListsRoles(teamName: string, time: int, deleted: seq<Role>)
    ensures deleted == [] ==>
      LoweredMessage(teamName, time, deleted) ==
      "## " + teamName + "の、" + DecimalString(time) + "時のすべてのロールを解除しました" + NoTargetLine
    ensures forall r :: r in deleted ==> Includes(LoweredMessage(teamName, time, deleted), "- " + r.name)
  {
    forall r | r in deleted
      ensures Includes(LoweredMessage(teamName, time, deleted), "- " + r.name)
    {
      var k :| 0 <= k < |deleted| && deleted[k] == r;
      var lines := Bullets(deleted);
      JoinIncludesPart(lines, "\n", k);
      IncludesInSuffix("\n", Join(lines, "\n"), "- " + r.name);
      var head := "## " + teamName + "の、" + DecimalString(time) + "時のすべてのロールを解除しました";
      IncludesInSuffix(head, "\n" + Join(lines, "\n"), "- " + r.name);
    }
  }

  // ---------------------------------------------------------------------------------
  // Properties of the lowering

  /**
   * What a lowering does to one member (role ids being unique): a team member keeps exactly
   * its roles that are not hand-raises for the hour, plus those whose removal was refused;
   * a member outside the team keeps everything.
   */
  lemma LoweringRemovesExactlyHourRoles(roles: seq<Role>, team: Role, isHand: string -> bool, failing: set<nat>,
                                        m: Member, r: Role)
    requires UniqueIds(roles) && r in roles
    ensures LowerMember(roles, team, isHand, failing, m).roleIds <= m.roleIds
    ensures LowerMember(roles, team, isHand, failing, m).id == m.id
    ensures team.id !in m.roleIds ==> LowerMember(roles, team, isHand, failing, m) == m
    ensures r.id in LowerMember(roles, team, isHand, failing, m).roleIds <==>
      r.id in m.roleIds &&
      !(team.id in m.roleIds && isHand(r.name) && r.id !in failing)
  {
    RemovedIdsExactly(MemberRoles(roles, m), isHand, failing);
    if team.id in m.roleIds && r.id in m.roleIds && r.id in RemovedIds(MemberRoles(roles, m), isHand, failing) {
      var x :| x in MemberRoles(roles, m) && isHand(x.name) && x.id !in failing && x.id == r.id;
      var i :| 0 <= i < |roles| && roles[i] == x;
      var j :| 0 <= j < |roles| && roles[j] == r;
      assert i == j;
    }
  }

  /** Lowering twice is lowering once, when no removal is refused. */
  lemma LoweringIsIdempotent(roles: seq<Role>, team: Role, isHand: string -> bool, m: Member)
    ensures var once := LowerMember(roles, team, isHand, {}, m);
      LowerMember(roles, team, isHand, {}, once) == once
  {
    var once := LowerMember(roles, team, isHand, {}, m);
    if team.id in once.roleIds {
      var again := RemovedIds(MemberRoles(roles, once), isHand, {});
      RemovedIdsExactly(MemberRoles(roles, once), isHand, {});
      RemovedIdsExactly(MemberRoles(roles, m), isHand, {});
      assert forall x :: x in MemberRoles(roles, once) ==> x in MemberRoles(roles, m);
      assert forall id :: id !in again;
      assert once.roleIds - again == once.roleIds;
    }
  }

  /** After a lowering without refusals, a second one meets no role at all: nothing is left to report. */
  lemma SecondLoweringMeetsNothing(roles: seq<Role>, members: seq<Member>, lowered: seq<Member>,
                                   team: Role, isHand: string -> bool, r: Role)
    requires |lowered| == |members|
    requires forall i :: 0 <= i < |members| ==> lowered[i] == LowerMember(roles, team, isHand, {}, members[i])
    ensures !LowersRole(roles, lowered, team, isHand, r)
  {
    forall w | w in lowered && team.id in w.roleIds && isHand(r.name)
      ensures r !in MemberRoles(roles, w)
    {
      var i :| 0 <= i < |lowered| && lowered[i] == w;
      RemovedIdsExactly(MemberRoles(roles, members[i]), isHand, {});
      if r in MemberRoles(roles, members[i]) {
        assert r.id in RemovedIds(MemberRoles(roles, members[i]), isHand, {});
      }
    }
  }

  /** ... so a second run reports an empty list (the "no target" reply). */
  lemma SecondLoweringReportsNothing(roles: seq<Role>, members: seq<Member>, lowered: seq<Member>,
                                     team: Role, isHand: string -> bool)
    requires |lowered| == |members|
    requires forall i :: 0 <= i < |members| ==> lowered[i] == LowerMember(roles, team, isHand, {}, members[i])
    ensures CollectAll(roles, lowered, team, isHand) == []
    ensures !AnyRefusedAll(roles, lowered, team, isHand, {})
  {
    CollectAllExactly(roles, lowered, team, isHand);
    AnyRefusedAllExactly(roles, lowered, team, isHand, {});
    var again := CollectAll(roles, lowered, team, isHand);
    if again != [] {
      assert again[0] in again;
      SecondLoweringMeetsNothing(roles, members, lowered, team, isHand, again[0]);
    }
  }
}
