/** The sub-admin permission check of src/middleware/handle-permissions.ts. */
module Permissions {

  datatype ApiMethod = GET | POST | PUT | PATCH | DELETE | OTHER

  datatype Permission = Permission(moduleId: nat, all: bool, view: bool, index: bool, add: bool, edit: bool,
                                   delete: bool)

  /** A map from module ids to base routes; its keys are enumerated in ascending order. */
  type RouteMap = map<nat, seq<string>>

  datatype Request = Request(baseUrl: string, verb: ApiMethod, hasQuery: bool)

  // ----- The module search

  ghost predicate Lists(routes: RouteMap, id: nat, baseUrl: string) {
    id in routes && baseUrl in routes[id]
  }

  ghost predicate IsAscending(keys: seq<nat>, routes: RouteMap) {
    && (forall id :: id in keys <==> id in routes)
    && forall i, j :: 0 <= i < j < |keys| ==> keys[i] < keys[j]
  }

  /** The least module that lists the route, or 0 for none; module 0 itself counts as none. */
  ghost predicate IsModuleOf(routes: RouteMap, baseUrl: string, moduleId: nat) {
    if exists id :: Lists(routes, id, baseUrl)
    then Lists(routes, moduleId, baseUrl) && forall id :: Lists(routes, id, baseUrl) ==> moduleId <= id
    else moduleId == 0
  }

  method FindModule(routes: RouteMap, keys: seq<nat>, baseUrl: string) returns (moduleId: nat)
    requires IsAscending(keys, routes)
    ensures IsModuleOf(routes, baseUrl, moduleId)
  {
    moduleId := 0;
    for n := 0 to |keys|
      invariant moduleId == 0 && forall k :: 0 <= k < n ==> baseUrl !in routes[keys[k]]
    {
      assert keys[n] in routes;
      if baseUrl in routes[keys[n]] {
        moduleId := keys[n];
        assert Lists(routes, moduleId, baseUrl);
        break;
      }
    }
  }

  // ----- The decision

  function FindPermission(permissions: seq<Permission>, moduleId: nat): (r: seq<Permission>)
    ensures |r| <= 1
  {
    if permissions == [] then []
    else if permissions[0].moduleId == moduleId then [permissions[0]]
    else FindPermission(permissions[1..], moduleId)
  }

  predicate Covers(p: Permission, r: Request) {
    p.all ||
    match r.verb
    case GET => if r.hasQuery then p.view else p.index
    case POST => p.add
    case PUT => p.edit
    case PATCH => p.edit
    case DELETE => p.delete
    case OTHER => true
  }

  predicate Allows(known: set<string>, moduleId: nat, permissions: seq<Permission>, r: Request) {
    && r.baseUrl in known
    && permissions != []
    && (moduleId != 0 ==>
          var found := FindPermission(permissions, moduleId);
          found != [] && Covers(found[0], r))
  }

  /** `handelPermission`. */
  method HandlePermission(known: set<string>, routes: RouteMap, keys: seq<nat>, permissions: seq<Permission>,
                          r: Request)
    returns (isAllow: bool)
    requires IsAscending(keys, routes)
    ensures forall moduleId :: IsModuleOf(routes, r.baseUrl, moduleId) ==>
              isAllow == Allows(known, moduleId, permissions, r)
    ensures r.baseUrl in known && permissions != [] && (forall id :: id in routes ==> r.baseUrl !in routes[id]) ==>
              isAllow
  {
    if r.baseUrl !in known {
      return false;
    }
    if permissions == [] {
      return false;
    }
    var moduleId := FindModule(routes, keys, r.baseUrl);
    assert (exists id :: Lists(routes, id, r.baseUrl)) || moduleId == 0;
    if moduleId == 0 {
      return true;
    }
    var found := FindPermission(permissions, moduleId);
    if found == [] {
      return false;
    }
    var permission := found[0];
    isAllow := true;
    if !permission.all {
      match r.verb {
        case GET =>
          if r.hasQuery && !permission.view {
            isAllow := false;
          } else if !r.hasQuery && !permission.index {
            isAllow := false;
          }
        case POST =>
          if !permission.add { isAllow := false; }
        case PUT =>
          if !permission.edit { isAllow := false; }
        case PATCH =>
          if !permission.edit { isAllow := false; }
        case DELETE =>
          if !permission.delete { isAllow := false; }
        case OTHER =>
      }
    }
  }

  // ----- What the decision promises

  predicate Grants(p: Permission, q: Permission) {
    && p.moduleId == q.moduleId
    && (p.all ==> q.all) && (p.view ==> q.view) && (p.index ==> q.index)
    && (p.add ==> q.add) && (p.edit ==> q.edit) && (p.delete ==> q.delete)
  }

  /** The second list has the entries of the first, each with at least its flags, and maybe more after. */
  predicate Extends(permissions: seq<Permission>, more: seq<Permission>) {
    |permissions| <= |more| && forall i :: 0 <= i < |permissions| ==> Grants(permissions[i], more[i])
  }

  lemma {:induction false} FoundIsExtended(permissions: seq<Permission>, more: seq<Permission>, moduleId: nat)
    requires Extends(permissions, more) && FindPermission(permissions, moduleId) != []
    ensures FindPermission(more, moduleId) != []
    ensures Grants(FindPermission(permissions, moduleId)[0], FindPermission(more, moduleId)[0])
  {
    assert Grants(permissions[0], more[0]);
    if permissions[0].moduleId == moduleId {
    } else {
      FoundIsExtended(permissions[1..], more[1..], moduleId);
    }
  }

  /** Setting a flag or appending an entry never turns an allow into a deny. */
  lemma DecisionIsMonotone(known: set<string>, moduleId: nat, permissions: seq<Permission>, more: seq<Permission>,
                           r: Request)
    requires Extends(permissions, more) && Allows(known, moduleId, permissions, r)
    ensures Allows(known, moduleId, more, r)
  {
    if moduleId != 0 {
      FoundIsExtended(permissions, more, moduleId);
    }
  }

  lemma {:induction false} FoundIsFirst(permissions: seq<Permission>, moduleId: nat, i: nat)
    requires i < |permissions| && permissions[i].moduleId == moduleId
    requires forall j :: 0 <= j < i ==> permissions[j].moduleId != moduleId
    ensures FindPermission(permissions, moduleId) == [permissions[i]]
  {
    if i == 0 {
    } else {
      FoundIsFirst(permissions[1..], moduleId, i - 1);
    }
  }

  /** Entries for a module that is not the least one listing the route have no say. */
  lemma {:induction false} OtherModulesHaveNoSay(permissions: seq<Permission>, moduleId: nat, i: nat, p: Permission)
    requires i < |permissions| && permissions[i].moduleId != moduleId && p.moduleId != moduleId
    ensures FindPermission(permissions[i := p], moduleId) == FindPermission(permissions, moduleId)
  {
    if i == 0 {
      assert permissions[0 := p][1..] == permissions[1..];
    } else {
      assert permissions[i := p][1..] == permissions[1..][i - 1 := p];
      OtherModulesHaveNoSay(permissions[1..], moduleId, i - 1, p);
    }
  }

  /** Entry i is the first one for the module. */
  predicate IsFirstFor(permissions: seq<Permission>, moduleId: nat, i: nat) {
    && i < |permissions| && permissions[i].moduleId == moduleId
    && forall j :: 0 <= j < i ==> permissions[j].moduleId != moduleId
  }

  lemma {:induction false} NoneIsFound(permissions: seq<Permission>, moduleId: nat)
    requires forall i :: 0 <= i < |permissions| ==> permissions[i].moduleId != moduleId
    ensures FindPermission(permissions, moduleId) == []
  {
    if permissions == [] {
    } else {
      NoneIsFound(permissions[1..], moduleId);
    }
  }

  /** Without `all`, the first entry for the module decides by one flag: `view` or `index` for reading with or without
      a query, `add` for POST, `edit` for PUT and PATCH, `delete` for DELETE, and none for other verbs. */
  lemma EachVerbHasItsFlag(known: set<string>, moduleId: nat, permissions: seq<Permission>, r: Request, i: nat)
    requires r.baseUrl in known && moduleId != 0 && IsFirstFor(permissions, moduleId, i)
    ensures var p, allowed := permissions[i], Allows(known, moduleId, permissions, r);
            if p.all then allowed
            else
              && (r.verb == GET && r.hasQuery ==> allowed == p.view)
              && (r.verb == GET && !r.hasQuery ==> allowed == p.index)
              && (r.verb == POST ==> allowed == p.add)
              && (r.verb == PUT ==> allowed == p.edit)
              && (r.verb == PATCH ==> allowed == p.edit)
              && (r.verb == DELETE ==> allowed == p.delete)
              && (r.verb == OTHER ==> allowed)
  {
    FoundIsFirst(permissions, moduleId, i);
  }

  /** Without an entry that decides: an unknown route, a sub-admin without entries and one without an entry for the
      module are refused, and a known route of no module is open to any other sub-admin. */
  lemma WithoutEntry(known: set<string>, moduleId: nat, permissions: seq<Permission>, r: Request)
    ensures r.baseUrl !in known ==> !Allows(known, moduleId, permissions, r)
    ensures permissions == [] ==> !Allows(known, moduleId, permissions, r)
    ensures r.baseUrl in known && permissions != [] && moduleId == 0 ==> Allows(known, moduleId, permissions, r)
    ensures moduleId != 0 && (forall i :: 0 <= i < |permissions| ==> permissions[i].moduleId != moduleId) ==>
              !Allows(known, moduleId, permissions, r)
  {
    if forall i :: 0 <= i < |permissions| ==> permissions[i].moduleId != moduleId {
      NoneIsFound(permissions, moduleId);
    }
  }
}
