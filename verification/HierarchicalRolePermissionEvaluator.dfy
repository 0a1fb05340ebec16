/**
 HierarchicalRolePermissionEvaluator.ts: role inheritance over an arbitrary, possibly cyclic graph of
 roles. The depth-first traversal with a visited set is proved to compute what the graph declares:
 the union of the permissions of all registered roles that are reachable from the given ones.
 */
module RoleHierarchy {

  datatype Role = Role(inheritsFrom: seq<string>, permissions: seq<string>)

  type Roles = map<string, Role>

  // ---------- what the role graph declares ----------

  /** The roles that `r` inherits from directly; an unregistered role inherits from none. */
  function Parents(roles: Roles, r: string): set<string> {
    if r in roles then (set p | p in roles[r].inheritsFrom) else {}
  }

  /** `path` leads from one of `from` to `r`, each role inheriting from the next. */
  ghost predicate IsPath(roles: Roles, from: set<string>, path: seq<string>, r: string) {
    && path != [] && path[0] in from && path[|path| - 1] == r
    && forall i | 0 <= i < |path| - 1 :: path[i + 1] in Parents(roles, path[i])
  }

  ghost predicate Reachable(roles: Roles, from: set<string>, r: string) {
    exists path :: IsPath(roles, from, path, r)
  }

  /** Permission `p` is held through a registered role that is reachable. */
  ghost predicate Grants(roles: Roles, from: set<string>, p: string) {
    exists r :: Reachable(roles, from, r) && r in roles && p in roles[r].permissions
  }

  lemma ReachStart(roles: Roles, from: set<string>, r: string)
    requires r in from
    ensures Reachable(roles, from, r)
  {
    assert IsPath(roles, from, [r], r);
  }

  lemma ReachStep(roles: Roles, from: set<string>, r: string, p: string)
    requires Reachable(roles, from, r) && p in Parents(roles, r)
    ensures Reachable(roles, from, p)
  {
    var path :| IsPath(roles, from, path, r);
    assert IsPath(roles, from, path + [p], p);
  }

  /** Whatever contains the start and is closed under inheritance contains all that is reachable. */
  lemma ClosedContainsReachable(roles: Roles, from: set<string>, s: set<string>, r: string)
    requires from <= s && forall x | x in s :: Parents(roles, x) <= s
    requires Reachable(roles, from, r)
    ensures r in s
  {
    var path :| IsPath(roles, from, path, r);
    PathStaysInside(roles, from, s, path, |path| - 1);
  }

  lemma {:induction false} PathStaysInside(roles: Roles, from: set<string>, s: set<string>, path: seq<string>, i: nat)
    requires from <= s && forall x | x in s :: Parents(roles, x) <= s
    requires i < |path| && path[0] in from
    requires forall i | 0 <= i < |path| - 1 :: path[i + 1] in Parents(roles, path[i])
    ensures path[i] in s
    decreases i
  {
    if i > 0 {
      PathStaysInside(roles, from, s, path, i - 1);
      assert path[i - 1 + 1] in Parents(roles, path[i - 1]);
    }
  }

  // ---------- the traversal ----------

  /** The permissions of the registered roles in `visited`. */
  ghost predicate HeldBy(roles: Roles, visited: set<string>, p: string) {
    exists r :: r in visited && r in roles && p in roles[r].permissions
  }

  /** The variables that the recursive closure `traverseRole` updates. */
  class Traversal {
    const roles: Roles
    var permissions: set<string>
    var visitedRoles: set<string>

    /** Every visited role that is not being visited has its parents visited; permissions are those of visited roles. */
    ghost predicate Consistent(active: set<string>)
      reads this
    {
      && active <= visitedRoles
      && (forall x | x in visitedRoles - active :: Parents(roles, x) <= visitedRoles)
      && (forall p :: p in permissions <==> HeldBy(roles, visitedRoles, p))
    }

    constructor (roles: Roles)
      ensures this.roles == roles && visitedRoles == {} && Consistent({})
    {
      this.roles := roles;
      permissions, visitedRoles := {}, {};
    }

    method TraverseRole(rId: string, ghost active: set<string>, ghost from: set<string>)
      requires Consistent(active) && Reachable(roles, from, rId)
      requires forall x | x in visitedRoles :: Reachable(roles, from, x)
      modifies this
      ensures Consistent(active) && rId in visitedRoles
      ensures old(visitedRoles) <= visitedRoles
      ensures forall x | x in visitedRoles :: Reachable(roles, from, x)
      decreases roles.Keys - visitedRoles, 1
    {
      if rId in visitedRoles {
        return;
      }
      visitedRoles := visitedRoles + {rId};
      if rId !in roles {
        return;
      }
      var role := roles[rId];
      permissions := permissions + (set p | p in role.permissions);
      forall p | p in role.inheritsFrom ensures Reachable(roles, from, p) {
        ReachStep(roles, from, rId, p);
      }
      TraverseAll(role.inheritsFrom, active + {rId}, from);
    }

    /** The loop `forEach(parentRoleId => traverseRole(parentRoleId))`. */
    method TraverseAll(roleIds: seq<string>, ghost active: set<string>, ghost from: set<string>)
      requires Consistent(active)
      requires forall r | r in roleIds :: Reachable(roles, from, r)
      requires forall x | x in visitedRoles :: Reachable(roles, from, x)
      modifies this
      ensures Consistent(active) && forall r | r in roleIds :: r in visitedRoles
      ensures old(visitedRoles) <= visitedRoles
      ensures forall x | x in visitedRoles :: Reachable(roles, from, x)
      decreases roles.Keys - visitedRoles, 2
    {
      for i := 0 to |roleIds|
        invariant Consistent(active) && old(visitedRoles) <= visitedRoles
        invariant forall j | 0 <= j < i :: roleIds[j] in visitedRoles
        invariant forall x | x in visitedRoles :: Reachable(roles, from, x)
      {
        TraverseRole(roleIds[i], active, from);
      }
    }
  }

  // ---------- the evaluator ----------

  datatype AccessContext = AccessContext(
    userRoles: seq<string>,
    tenantId: string,
    targetResource: string,
    targetAction: string,
    resourceTenantId: string,
    isOwner: bool)

  function SetOf(roleIds: seq<string>): set<string> {
    set r | r in roleIds
  }

  /** The decision that the role graph declares for a request. */
  ghost predicate Allowed(roles: Roles, ctx: AccessContext) {
    var from := SetOf(ctx.userRoles);
    && (ctx.tenantId == ctx.resourceTenantId || "SUPER_ADMIN" in from)
    && (|| Grants(roles, from, "*")
        || Grants(roles, from, ctx.targetResource + ":" + ctx.targetAction)
        || Grants(roles, from, ctx.targetResource + ":*")
        || (ctx.isOwner && (ctx.targetAction == "read" || ctx.targetAction == "update")))
  }

  const OPERATIONS_MANAGER := Role(["DISPATCHER", "INVENTORY_MANAGER"],
                                   ["order:create", "order:read", "order:update", "order:cancel",
                                    "inventory:read", "inventory:adjust", "inventory:reserve",
                                    "logistics:dispatch", "logistics:track", "logistics:assign_carrier",
                                    "reports:view", "reports:export"])
  const DISPATCHER := Role([], ["logistics:dispatch", "logistics:track", "logistics:update_waypoint", "logistics:pod_sign"])
  const INVENTORY_MANAGER := Role([], ["inventory:read", "inventory:adjust", "inventory:bin_allocate", "inventory:cycle_count"])
  const FINANCE_OFFICER := Role([], ["billing:invoice_create", "billing:ledger_post", "billing:reconcile", "reports:financial_export"])
  const DRIVER := Role([], ["logistics:read_assigned", "logistics:telemetry_ping", "logistics:pod_upload"])

  const STANDARD_ROLES: Roles := map[
    "SUPER_ADMIN" := Role([], ["*"]),
    "OPERATIONS_MANAGER" := OPERATIONS_MANAGER,
    "DISPATCHER" := DISPATCHER,
    "INVENTORY_MANAGER" := INVENTORY_MANAGER,
    "FINANCE_OFFICER" := FINANCE_OFFICER,
    "DRIVER" := DRIVER]

  class HierarchicalRolePermissionEvaluator {
    var roles: Roles

    constructor ()
      ensures roles == STANDARD_ROLES
    {
      roles := STANDARD_ROLES;
    }

    method RegisterRole(roleId: string, role: Role)
      modifies this
      ensures roles == old(roles)[roleId := role]
    {
      roles := roles[roleId := role];
    }

    method GetEffectivePermissions(roleIds: seq<string>) returns (permissions: set<string>)
      ensures forall p :: p in permissions <==> Grants(roles, SetOf(roleIds), p)
    {
      ghost var from := SetOf(roleIds);
      var traversal := new Traversal(roles);
      forall r | r in roleIds ensures Reachable(roles, from, r) {
        ReachStart(roles, from, r);
      }
      traversal.TraverseAll(roleIds, {}, from);
      permissions := traversal.permissions;
      ghost var visited := traversal.visitedRoles;
      forall r ensures r in visited <==> Reachable(roles, from, r) {
        if Reachable(roles, from, r) {
          ClosedContainsReachable(roles, from, visited, r);
        }
      }
    }

    method EvaluateAccess(ctx: AccessContext) returns (allowed: bool)
      ensures allowed == Allowed(roles, ctx)
    {
      if ctx.tenantId != ctx.resourceTenantId && "SUPER_ADMIN" !in ctx.userRoles {
        return false;
      }
      var effectivePermissions := GetEffectivePermissions(ctx.userRoles);
      if "*" in effectivePermissions {
        return true;
      }
      var requiredPermission := ctx.targetResource + ":" + ctx.targetAction;
      if requiredPermission in effectivePermissions || ctx.targetResource + ":*" in effectivePermissions {
        return true;
      }
      if ctx.isOwner && (ctx.targetAction == "read" || ctx.targetAction == "update") {
        return true;
      }
      allowed := false;
    }
  }

  // ---------- consequences ----------

  /** A path from more roles, or in a graph that has grown, is still a path. */
  lemma GrantsGrow(roles: Roles, roles': Roles, from: set<string>, from': set<string>, p: string)
    requires from <= from' && roles.Keys <= roles'.Keys
    requires forall r | r in roles ::
               && Parents(roles, r) <= Parents(roles', r)
               && forall q | q in roles[r].permissions :: q in roles'[r].permissions
    ensures Grants(roles, from, p) ==> Grants(roles', from', p)
  {
    if Grants(roles, from, p) {
      var r :| Reachable(roles, from, r) && r in roles && p in roles[r].permissions;
      var path :| IsPath(roles, from, path, r);
      assert IsPath(roles', from', path, r);
    }
  }

  /** Across tenants nobody has access but who is given the role of a super administrator, and then as within one. */
  lemma TenantsAreIsolated(roles: Roles, ctx: AccessContext)
    requires ctx.tenantId != ctx.resourceTenantId
    ensures Allowed(roles, ctx) <==>
              "SUPER_ADMIN" in ctx.userRoles && Allowed(roles, ctx.(resourceTenantId := ctx.tenantId))
  {
  }

  /** The permission covers the action on the resource. */
  predicate Covers(p: string, resource: string, action: string) {
    p == "*" || p == resource + ":*" || p == resource + ":" + action
  }

  /** Within a tenant, who does not own the resource has access exactly through a role that leads to a covering permission. */
  lemma AccessIffCovered(roles: Roles, ctx: AccessContext)
    requires ctx.tenantId == ctx.resourceTenantId && !ctx.isOwner
    ensures Allowed(roles, ctx) <==>
              exists r, p :: && Reachable(roles, SetOf(ctx.userRoles), r) && r in roles && p in roles[r].permissions
                             && Covers(p, ctx.targetResource, ctx.targetAction)
  {
    var from := SetOf(ctx.userRoles);
    assert Allowed(roles, ctx) <==> exists p :: Covers(p, ctx.targetResource, ctx.targetAction) && Grants(roles, from, p) by {
      assert Covers("*", ctx.targetResource, ctx.targetAction);
      assert Covers(ctx.targetResource + ":*", ctx.targetResource, ctx.targetAction);
      assert Covers(ctx.targetResource + ":" + ctx.targetAction, ctx.targetResource, ctx.targetAction);
    }
  }

  /** Owning the resource adds reading and updating, and nothing else. */
  lemma OwnersReadAndUpdate(roles: Roles, ctx: AccessContext)
    requires ctx.tenantId == ctx.resourceTenantId
    ensures Allowed(roles, ctx.(isOwner := true)) <==>
              Allowed(roles, ctx.(isOwner := false)) || ctx.targetAction == "read" || ctx.targetAction == "update"
  {
  }

  /** With the standard roles a super administrator may do everything, in every tenant. */
  lemma SuperAdminMayDoAll(ctx: AccessContext)
    requires "SUPER_ADMIN" in ctx.userRoles
    ensures Allowed(STANDARD_ROLES, ctx)
  {
    ReachStart(STANDARD_ROLES, SetOf(ctx.userRoles), "SUPER_ADMIN");
    assert "*" in STANDARD_ROLES["SUPER_ADMIN"].permissions;
  }

  /** More roles, in whatever order and however often repeated, never lose an access. */
  lemma AccessIsMonotone(roles: Roles, ctx: AccessContext, userRoles: seq<string>)
    requires forall r | r in ctx.userRoles :: r in userRoles
    ensures Allowed(roles, ctx) ==> Allowed(roles, ctx.(userRoles := userRoles))
  {
    forall p ensures Grants(roles, SetOf(ctx.userRoles), p) ==> Grants(roles, SetOf(userRoles), p) {
      GrantsGrow(roles, roles, SetOf(ctx.userRoles), SetOf(userRoles), p);
    }
  }

  /** Extending the definition of a role, cycles included, never loses an access. */
  lemma RegisteringMoreIsMonotone(roles: Roles, roleId: string, role: Role, ctx: AccessContext)
    requires roleId in roles ==>
               && (forall q | q in roles[roleId].inheritsFrom :: q in role.inheritsFrom)
               && (forall q | q in roles[roleId].permissions :: q in role.permissions)
    ensures Allowed(roles, ctx) ==> Allowed(roles[roleId := role], ctx)
  {
    var from := SetOf(ctx.userRoles);
    forall p ensures Grants(roles, from, p) ==> Grants(roles[roleId := role], from, p) {
      GrantsGrow(roles, roles[roleId := role], from, from, p);
    }
  }

  /** A role that is inherited anyway adds nothing when it is also given directly. */
  lemma InheritedRolesAddNothing(roles: Roles, from: set<string>, r: string, p: string)
    requires Reachable(roles, from, r)
    ensures Grants(roles, from + {r}, p) <==> Grants(roles, from, p)
  {
    GrantsGrow(roles, roles, from, from + {r}, p);
    if Grants(roles, from + {r}, p) {
      var x :| Reachable(roles, from + {r}, x) && x in roles && p in roles[x].permissions;
      var tail :| IsPath(roles, from + {r}, tail, x);
      if tail[0] in from {
        assert IsPath(roles, from, tail, x);
      } else {
        var head :| IsPath(roles, from, head, r);
        assert IsPath(roles, from, head + tail[1..], x);
      }
    }
  }

  /** Of the standard roles the operations manager holds exactly three roles' permissions. */
  lemma StandardOperationsManager(p: string)
    ensures Grants(STANDARD_ROLES, {"OPERATIONS_MANAGER"}, p) <==>
              p in OPERATIONS_MANAGER.permissions || p in DISPATCHER.permissions || p in INVENTORY_MANAGER.permissions
  {
    var from, s := {"OPERATIONS_MANAGER"}, {"OPERATIONS_MANAGER", "DISPATCHER", "INVENTORY_MANAGER"};
    ReachStart(STANDARD_ROLES, from, "OPERATIONS_MANAGER");
    ReachStep(STANDARD_ROLES, from, "OPERATIONS_MANAGER", OPERATIONS_MANAGER.inheritsFrom[0]);
    ReachStep(STANDARD_ROLES, from, "OPERATIONS_MANAGER", OPERATIONS_MANAGER.inheritsFrom[1]);
    if Grants(STANDARD_ROLES, from, p) {
      var r :| Reachable(STANDARD_ROLES, from, r) && r in STANDARD_ROLES && p in STANDARD_ROLES[r].permissions;
      ClosedContainsReachable(STANDARD_ROLES, from, s, r);
    }
  }
}
