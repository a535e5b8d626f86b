/**
 * The role sweeps: `rmTimeRole` in src/helper/rmTimeRole.ts deletes every role of the
 * guild whose name is a bot-created hand-raise, and `rmTimeRole` in src/rmTimeRole.ts
 * deletes every role whose name is in a given list. Both start every deletion at once
 * (`Promise.all`), fail as a whole when any deletion fails, and return the targeted roles.
 */
module RoleSweep {
  import opened Primitives
  import opened Discord
  import opened Seqs
  import opened RoleNameHelper

  /** The filter test on a role: its name passes `isTarget`. */
  function NameTest(isTarget: string -> bool): Role -> bool
  {
    (r: Role) => isTarget(r.name)
  }

  /** `guild.roles.cache.filter(...)`: the targeted roles, in cache order. */
  function Targets(roles: seq<Role>, isTarget: string -> bool): seq<Role>
  {
    Filter(roles, NameTest(isTarget))
  }

  /** The test of src/helper/rmTimeRole.ts: the name is a bot-created hand-raise. */
  function CreatedTest(c: Crypto): string -> bool
  {
    (name: string) => IsCreatedRole(c, name)
  }

  /** The test of src/rmTimeRole.ts: the name is one of `rollNames`. */
  function ListedTest(rollNames: seq<string>): string -> bool
  {
    (name: string) => name in rollNames
  }

  /** The ids actually deleted: those of the targets whose deletion the API does not refuse. */
  function DeletedIds(targets: seq<Role>, failing: set<nat>): set<nat>
  {
    set t | t in targets && t.id !in failing :: t.id
  }

  /** The guild's roles after the roles with the given ids are deleted, in cache order. */
  function Remaining(roles: seq<Role>, ids: set<nat>): (rest: seq<Role>)
    ensures forall r :: r in rest <==> r in roles && r.id !in ids
  {
    if roles == [] then []
    else
      assert forall r :: r in roles <==> r == roles[0] || r in roles[1..];
      (if roles[0].id in ids then [] else [roles[0]]) + Remaining(roles[1..], ids)
  }

  /** Deleting one more id from what remains is removing it with the others. */
  lemma {:induction false} RemainingStep(roles: seq<Role>, ids: set<nat>, id: nat)
    ensures WithoutRole(Remaining(roles, ids), id) == Remaining(roles, ids + {id})
  {
    if roles != [] {
      var r0 := roles[0];
      RemainingStep(roles[1..], ids, id);
      var rest := Remaining(roles[1..], ids);
      var after := Remaining(roles[1..], ids + {id});
      if r0.id in ids {
        assert Remaining(roles, ids) == rest;
        assert Remaining(roles, ids + {id}) == after;
      } else {
        assert Remaining(roles, ids) == [r0] + rest;
        assert ([r0] + rest)[1..] == rest;
        if r0.id == id {
          assert WithoutRole([r0] + rest, id) == WithoutRole(rest, id);
          assert Remaining(roles, ids + {id}) == after;
        } else {
          assert WithoutRole([r0] + rest, id) == [r0] + WithoutRole(rest, id);
          assert Remaining(roles, ids + {id}) == [r0] + after;
        }
      }
    }
  }

  /** Deleting nothing leaves every role. */
  lemma {:induction false} RemainingNone(roles: seq<Role>)
    ensures Remaining(roles, {}) == roles
  {
    if roles != [] {
      RemainingNone(roles[1..]);
    }
  }

  /**
   * The `Promise.all` over the targets: each deletion not refused takes the role out of the
   * guild and off every member; `failed` says whether any was refused.
   */
  method DeleteTargets(g: Guild, targets: seq<Role>, failing: set<nat>) returns (failed: bool)
    requires g.Valid()
    modifies g
    ensures g.Valid()
    ensures g.roles == Remaining(old(g.roles), DeletedIds(targets, failing))
    ensures |g.members| == |old(g.members)|
    ensures forall i :: 0 <= i < |g.members| ==>
      g.members[i] == old(g.members)[i].(roleIds := old(g.members)[i].roleIds - DeletedIds(targets, failing))
    ensures failed <==> exists t :: t in targets && t.id in failing
  {
    failed := false;
    RemainingNone(g.roles);
    assert DeletedIds(targets[..0], failing) == {};
    StrippedNone(g.members);
    for k := 0 to |targets|
      invariant g.Valid()
      invariant g.roles == Remaining(old(g.roles), DeletedIds(targets[..k], failing))
      invariant Stripped(g.members, old(g.members), DeletedIds(targets[..k], failing))
      invariant failed <==> exists t :: t in targets[..k] && t.id in failing
    {
      var t := targets[k];
      ghost var before := DeletedIds(targets[..k], failing);
      DeleteStep(targets, k, failing);
      if t.id in failing {
        failed := true;
        assert DeletedIds(targets[..k + 1], failing) == before;
      } else {
        ghost var mid := g.members;
        g.DeleteRole(t);
        RemainingStep(old(g.roles), before, t.id);
        StrippedStep(old(g.members), mid, g.members, before, t.id);
        assert DeletedIds(targets[..k + 1], failing) == before + {t.id};
      }
    }
    assert targets[..|targets|] == targets;
  }

  /** Every member of `after` is the one at the same position of `before` without the ids. */
  ghost predicate Stripped(after: seq<Member>, before: seq<Member>, ids: set<nat>)
  {
    && |after| == |before|
    && forall i :: 0 <= i < |before| ==> after[i] == before[i].(roleIds := before[i].roleIds - ids)
  }

  lemma StrippedNone(members: seq<Member>)
    ensures Stripped(members, members, {})
  {
    forall i | 0 <= i < |members|
      ensures members[i] == members[i].(roleIds := members[i].roleIds - {})
    {
      assert members[i].roleIds - {} == members[i].roleIds;
    }
  }

  lemma StrippedStep(m0: seq<Member>, mid: seq<Member>, after: seq<Member>, ids: set<nat>, id: nat)
    requires Stripped(mid, m0, ids)
    requires |after| == |mid|
    requires forall i :: 0 <= i < |after| ==> after[i] == mid[i].(roleIds := mid[i].roleIds - {id})
    ensures Stripped(after, m0, ids + {id})
  {
    forall i | 0 <= i < |m0|
      ensures after[i] == m0[i].(roleIds := m0[i].roleIds - (ids + {id}))
    {
      assert m0[i].roleIds - ids - {id} == m0[i].roleIds - (ids + {id});
    }
  }

  lemma DeleteStep(targets: seq<Role>, k: nat, failing: set<nat>)
    requires k < |targets|
    ensures DeletedIds(targets[..k + 1], failing) ==
      DeletedIds(targets[..k], failing) + (if targets[k].id in failing then {} else {targets[k].id})
    ensures (exists t :: t in targets[..k + 1] && t.id in failing) <==>
      (exists t :: t in targets[..k] && t.id in failing) || targets[k].id in failing
  {
    assert targets[..k + 1] == targets[..k] + [targets[k]];
  }

  /** The common body: collect the targets, delete them all, fail if any deletion failed. */
  method Sweep(g: Guild, isTarget: string -> bool, failing: set<nat>) returns (out: Outcome<seq<Role>>)
    requires g.Valid()
    modifies g
    ensures g.Valid()
    ensures var targets := Targets(old(g.roles), isTarget);
      && g.roles == Remaining(old(g.roles), DeletedIds(targets, failing))
      && |g.members| == |old(g.members)|
      && (forall i :: 0 <= i < |g.members| ==>
            g.members[i] == old(g.members)[i].(roleIds := old(g.members)[i].roleIds - DeletedIds(targets, failing)))
      && out == (if exists t :: t in targets && t.id in failing then Rejected(Failed) else Done(targets))
  {
    var roles := Targets(g.roles, isTarget);
    var failed := DeleteTargets(g, roles, failing);
    if failed {
      return Rejected(Failed);
    }
    return Done(roles);
  }

  /** `rmTimeRole({ guild })` of src/helper/rmTimeRole.ts. */
  method RemoveCreatedRoles(c: Crypto, g: Guild, failing: set<nat>) returns (out: Outcome<seq<Role>>)
    requires g.Valid()
    modifies g
    ensures g.Valid()
    ensures var targets := Targets(old(g.roles), CreatedTest(c));
      && g.roles == Remaining(old(g.roles), DeletedIds(targets, failing))
      && |g.members| == |old(g.members)|
      && (forall i :: 0 <= i < |g.members| ==>
            g.members[i] == old(g.members)[i].(roleIds := old(g.members)[i].roleIds - DeletedIds(targets, failing)))
      && out == (if exists t :: t in targets && t.id in failing then Rejected(Failed) else Done(targets))
  {
    out := Sweep(g, CreatedTest(c), failing);
  }

  /** `rmTimeRole({ guild, rollNames })` of src/rmTimeRole.ts. */
  method RemoveNamedRoles(g: Guild, rollNames: seq<string>, failing: set<nat>) returns (out: Outcome<seq<Role>>)
    requires g.Valid()
    modifies g
    ensures g.Valid()
    ensures var targets := Targets(old(g.roles), ListedTest(rollNames));
      && g.roles == Remaining(old(g.roles), DeletedIds(targets, failing))
      && |g.members| == |old(g.members)|
      && (forall i :: 0 <= i < |g.members| ==>
            g.members[i] == old(g.members)[i].(roleIds := old(g.members)[i].roleIds - DeletedIds(targets, failing)))
      && out == (if exists t :: t in targets && t.id in failing then Rejected(Failed) else Done(targets))
  {
    out := Sweep(g, ListedTest(rollNames), failing);
  }

  // ---------------------------------------------------------------------------------
  // Properties

  /**
   * After a sweep a role remains exactly when it was not targeted or its deletion was
   * refused; in particular, when nothing is refused, no targeted role remains and every
   * other role does.
   */
  lemma SweepLeavesExactly(roles: seq<Role>, isTarget: string -> bool, failing: set<nat>, r: Role)
    requires UniqueIds(roles)
    ensures r in Remaining(roles, DeletedIds(Targets(roles, isTarget), failing)) <==>
      r in roles && (!isTarget(r.name) || r.id in failing)
  {
    var targets := Targets(roles, isTarget);
    if r in roles && r.id in DeletedIds(targets, failing) {
      var t :| t in targets && t.id !in failing && t.id == r.id;
      SameIdSameRole(roles, r, t);
    }
  }

  lemma SameIdSameRole(roles: seq<Role>, r: Role, t: Role)
    requires UniqueIds(roles) && r in roles && t in roles && r.id == t.id
    ensures r == t
  {
    var i :| 0 <= i < |roles| && roles[i] == r;
    var j :| 0 <= j < |roles| && roles[j] == t;
  }

  /** A guild without targeted roles has no targets. */
  lemma {:induction false} NoTargets(roles: seq<Role>, isTarget: string -> bool)
    requires forall r :: r in roles ==> !isTarget(r.name)
    ensures Targets(roles, isTarget) == []
  {
    if roles != [] {
      assert forall r :: r in roles[1..] ==> r in roles;
      NoTargets(roles[1..], isTarget);
    }
  }

  /** A member loses exactly the swept ids: those of targeted roles whose deletion was not refused. */
  lemma SweepStripsMembers(roles: seq<Role>, isTarget: string -> bool, failing: set<nat>, id: nat)
    ensures id in DeletedIds(Targets(roles, isTarget), failing) <==>
      exists r :: r in roles && isTarget(r.name) && r.id !in failing && r.id == id
  {
    if exists r :: r in roles && isTarget(r.name) && r.id !in failing && r.id == id {
      var r :| r in roles && isTarget(r.name) && r.id !in failing && r.id == id;
      assert r in Targets(roles, isTarget);
    }
  }

  /** With no targeted role in the guild, the sweep deletes nothing and returns nothing. */
  lemma NothingToSweep(roles: seq<Role>, isTarget: string -> bool, failing: set<nat>)
    requires forall r :: r in roles ==> !isTarget(r.name)
    ensures Targets(roles, isTarget) == []
    ensures Remaining(roles, DeletedIds(Targets(roles, isTarget), failing)) == roles
  {
    var targets := Targets(roles, isTarget);
    NoTargets(roles, isTarget);
    assert DeletedIds(targets, failing) == {};
    RemainingNone(roles);
  }

  /** An empty name list targets nothing. */
  lemma EmptyNameListSweepsNothing(roles: seq<Role>, failing: set<nat>)
    ensures Targets(roles, ListedTest([])) == []
    ensures Remaining(roles, DeletedIds(Targets(roles, ListedTest([])), failing)) == roles
  {
    NothingToSweep(roles, ListedTest([]), failing);
  }

  /** Only hand-raise roles are swept by the helper: a team role survives it. */
  lemma CreatedSweepSparesOtherNames(c: Crypto, roles: seq<Role>, failing: set<nat>, r: Role)
    requires UniqueIds(roles) && r in roles && !IsCreatedRole(c, r.name)
    ensures r in Remaining(roles, DeletedIds(Targets(roles, CreatedTest(c)), failing))
  {
    SweepLeavesExactly(roles, CreatedTest(c), failing, r);
  }
}
