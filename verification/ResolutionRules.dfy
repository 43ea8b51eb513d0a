/** What the capability resolver grants and refuses (app/capabilities/resolver.py), in terms of the
    registered definitions and the caller's roles. */
module ResolutionRules {
  import opened Capabilities
  import opened CapabilityResolver
  import opened Options
  import opened Strings

  ghost predicate ShareARole(allowed: set<string>, roles: set<string>) {
    exists role :: role in allowed && role in roles
  }

  ghost predicate Registers(catalog: seq<Definition>, id: string, d: Definition) { d in catalog && d.id == id }

  ghost predicate IsRegistered(catalog: seq<Definition>, id: string) {
    exists d :: Registers(catalog, id, d)
  }

  lemma LookupExactly(catalog: seq<Definition>, id: string, d: Definition)
    requires DistinctIds(catalog)
    ensures Lookup(catalog, id) == Some(d) <==> Registers(catalog, id, d)
    ensures Lookup(catalog, id).None? <==> !IsRegistered(catalog, id)
  {
    if Registers(catalog, id, d) {
      LookupIsUnique(catalog, d);
    }
    if Lookup(catalog, id).Some? {
      assert Registers(catalog, id, Lookup(catalog, id).value);
    }
  }

  // ----- Tools of a worker

  /** The tool is one of the agent's, owned by it, and allowed to one of the roles. */
  ghost predicate MayUse(roles: set<string>, agent: Agent, d: Definition) {
    d.kind == ToolKind && d.id in agent.toolIds && agent.id in d.allowedAgentIds && ShareARole(d.allowedRoles, roles)
  }

  /** What resolving one tool reports. */
  ghost predicate ToolOutcome(catalog: seq<Definition>, roles: set<string>, agent: Agent, id: string,
                              r: Result<Definition, ResolveError>)
  {
    match r
    case Ok(d) => Registers(catalog, id, d) && MayUse(roles, agent, d) && d.status == Available
    case Err(CapabilityNotFound) => !IsRegistered(catalog, id)
    case Err(CapabilityNotAllowed) => exists d :: Registers(catalog, id, d) && !MayUse(roles, agent, d)
    case Err(CapabilityUnavailable) =>
      exists d :: Registers(catalog, id, d) && MayUse(roles, agent, d) && d.status == Declared
    case Err(_) => false
  }

  lemma ToolForExactly(resolver: Resolver, roles: set<string>, agent: Agent, id: string)
    requires DistinctIds(resolver.catalog)
    ensures ToolOutcome(resolver.catalog, roles, agent, id, ToolFor(resolver, roles, agent, id))
  {
    var found := Lookup(resolver.catalog, id);
    if found.Some? {
      var d := found.value;
      LookupExactly(resolver.catalog, id, d);
      RolesMeet(d.allowedRoles, roles);
      assert Registers(resolver.catalog, id, d);
    } else {
      LookupExactly(resolver.catalog, id, Definition(id, ToolKind, Available, {}, {}, ""));
    }
  }

  lemma RolesMeet(allowed: set<string>, roles: set<string>)
    ensures allowed * roles != {} <==> ShareARole(allowed, roles)
  {
    if role :| role in allowed && role in roles {
      assert role in allowed * roles;
    }
  }

  /** The views of the definitions that are selected by identifier, ascending. */
  ghost predicate Shows(catalog: seq<Definition>, ids: seq<string>, views: seq<Resolved>) {
    && |views| == |ids|
    && (forall i, j :: 0 <= i < j < |views| ==> Before(views[i].id, views[j].id))
    && (forall v :: v in views ==> v.id in ids && exists d :: Registers(catalog, v.id, d) && IsViewOf(v, d))
    && (forall id :: id in ids ==> exists v :: v in views && v.id == id)
  }

  ghost predicate IsViewOf(view: Resolved, d: Definition) {
    view.id == d.id && view.kind == d.kind && view.publicView == d.publicView
  }

  lemma ResolvedShows(catalog: seq<Definition>, agentId: Option<string>, ids: seq<string>, definitions: seq<Definition>)
    requires DistinctIds(catalog) && Distinct(ids) && |ids| <= MAX_RESOLVED_CAPABILITIES && |definitions| == |ids|
    requires forall i :: 0 <= i < |ids| ==> Registers(catalog, ids[i], definitions[i])
    ensures var r := Resolve(agentId, definitions);
            r.Ok? && r.value.requestingAgentId == agentId && Shows(catalog, ids, r.value.capabilities)
  {
    hide SortById, Before, Resolve, Registers;
    forall i, j | 0 <= i < j < |definitions|
      ensures definitions[i].id != definitions[j].id
    {
      IdsOfRegistered(catalog, ids[i], definitions[i]);
      IdsOfRegistered(catalog, ids[j], definitions[j]);
    }
    AscendingIsValid(agentId, definitions);
    SortKeepsElements(definitions);
    SortIsAscending(definitions);
    var sorted := SortById(definitions);
    var views := ViewsOf(sorted);
    forall v | v in views
      ensures v.id in ids && exists d :: Registers(catalog, v.id, d) && IsViewOf(v, d)
    {
      var k :| 0 <= k < |views| && views[k] == v;
      assert sorted[k] in sorted;
      var i :| 0 <= i < |definitions| && definitions[i] == sorted[k];
      IdsOfRegistered(catalog, ids[i], definitions[i]);
      assert Registers(catalog, v.id, sorted[k]) && IsViewOf(v, sorted[k]);
    }
    forall id | id in ids
      ensures exists v :: v in views && v.id == id
    {
      var i :| 0 <= i < |ids| && ids[i] == id;
      IdsOfRegistered(catalog, ids[i], definitions[i]);
      assert definitions[i] in definitions;
      var k :| 0 <= k < |sorted| && sorted[k] == definitions[i];
      assert views[k] in views && views[k].id == id;
    }
  }

  lemma IdsOfRegistered(catalog: seq<Definition>, id: string, d: Definition)
    requires Registers(catalog, id, d)
    ensures d.id == id
  {
  }

  /** The tool resolves. */
  ghost predicate Usable(resolver: Resolver, roles: set<string>, agent: Agent, id: string) {
    exists d :: Registers(resolver.catalog, id, d) && MayUse(roles, agent, d) && d.status == Available
  }

  lemma UsableExactly(resolver: Resolver, roles: set<string>, agent: Agent, id: string)
    requires DistinctIds(resolver.catalog)
    ensures ToolFor(resolver, roles, agent, id).Ok? <==> Usable(resolver, roles, agent, id)
  {
    hide ToolFor, MayUse;
    ToolForExactly(resolver, roles, agent, id);
    if Usable(resolver, roles, agent, id) {
      var d :| Registers(resolver.catalog, id, d) && MayUse(roles, agent, d) && d.status == Available;
      LookupIsUnique(resolver.catalog, d);
      forall e | Registers(resolver.catalog, id, e)
        ensures e == d
      {
        LookupIsUnique(resolver.catalog, e);
      }
    }
  }

  /** The selection, or all of the worker's tools without one. */
  ghost function Asked(agent: Agent, selection: seq<string>): seq<string> {
    if selection == [] then agent.toolIds else selection
  }

  /** What the worker is granted, in ascending order. */
  ghost predicate Grants(resolver: Resolver, roles: set<string>, agent: Agent, ids: seq<string>,
                         r: Result<Resolution, ResolveError>)
  {
    && r != Err(AgentNotFound)
    && (r.Ok? <==> forall i :: 0 <= i < |ids| ==> Usable(resolver, roles, agent, ids[i]))
    && (r.Ok? ==> r.value.requestingAgentId == Some(agent.id) && Shows(resolver.catalog, ids, r.value.capabilities))
  }

  /** Main result: a worker's tools resolve exactly when the worker is known and may use each of them. */
  lemma WorkerResolvesExactly(resolver: Resolver, roles: set<string>, agentId: string, selection: seq<string>)
    requires DistinctIds(resolver.catalog) && ValidSelection(selection)
             && (forall a :: a in resolver.agents ==> ValidAgent(a))
    requires DistinctAgents(resolver.agents)
    ensures var r := ForAgent(resolver, roles, agentId, selection);
            && (r == Err(AgentNotFound) <==> forall a :: a in resolver.agents ==> a.id != agentId)
            && forall a :: a in resolver.agents && a.id == agentId ==>
                 Grants(resolver, roles, a, Asked(a, selection), r)
  {
    hide ToolFor, Usable, Shows, Resolve, DistinctIds, ToolOutcome, Grants;
    var r := ForAgent(resolver, roles, agentId, selection);
    var found := AgentFor(resolver.agents, agentId);
    if found.Some? {
      WorkerResolves(resolver, roles, found.value, selection);
      GrantsIsNoMiss(resolver, roles, found.value, Asked(found.value, selection), r);
    }
    forall a | a in resolver.agents && a.id == agentId
      ensures Grants(resolver, roles, a, Asked(a, selection), r)
    {
      AgentIsFound(resolver.agents, a);
    }
  }

  lemma GrantsIsNoMiss(resolver: Resolver, roles: set<string>, agent: Agent, ids: seq<string>,
                       r: Result<Resolution, ResolveError>)
    requires Grants(resolver, roles, agent, ids, r)
    ensures r != Err(AgentNotFound)
  {
  }

  lemma WorkerResolves(resolver: Resolver, roles: set<string>, agent: Agent, selection: seq<string>)
    requires DistinctIds(resolver.catalog) && ValidSelection(selection) && ValidAgent(agent)
    requires AgentFor(resolver.agents, agent.id) == Some(agent)
    ensures Grants(resolver, roles, agent, Asked(agent, selection), ForAgent(resolver, roles, agent.id, selection))
  {
    hide ToolFor, Usable, Shows, Resolve, DistinctIds, ToolOutcome, Registers;
    var ids := Asked(agent, selection);
    ToolsForExactly(resolver, roles, agent, ids);
    forall i | 0 <= i < |ids|
      ensures ToolFor(resolver, roles, agent, ids[i]).Ok? <==> Usable(resolver, roles, agent, ids[i])
      ensures ToolFor(resolver, roles, agent, ids[i]).Ok? ==>
                Registers(resolver.catalog, ids[i], ToolFor(resolver, roles, agent, ids[i]).value)
      ensures ToolFor(resolver, roles, agent, ids[i]) != Err(AgentNotFound)
    {
      UsableExactly(resolver, roles, agent, ids[i]);
      ToolForExactly(resolver, roles, agent, ids[i]);
      OutcomeFacts(resolver, roles, agent, ids[i]);
    }
    ToolsFail(resolver, roles, agent, ids);
    var definitions := ToolsFor(resolver, roles, agent, ids);
    if definitions.Ok? {
      ResolvedShows(resolver.catalog, Some(agent.id), ids, definitions.value);
    }
  }

  lemma OutcomeFacts(resolver: Resolver, roles: set<string>, agent: Agent, id: string)
    requires ToolOutcome(resolver.catalog, roles, agent, id, ToolFor(resolver, roles, agent, id))
    ensures ToolFor(resolver, roles, agent, id).Ok? ==>
              Registers(resolver.catalog, id, ToolFor(resolver, roles, agent, id).value)
    ensures ToolFor(resolver, roles, agent, id) != Err(AgentNotFound)
  {
  }

  lemma {:induction false} ToolsFail(resolver: Resolver, roles: set<string>, agent: Agent, ids: seq<string>)
    requires forall i :: 0 <= i < |ids| ==> ToolFor(resolver, roles, agent, ids[i]) != Err(AgentNotFound)
    ensures ToolsFor(resolver, roles, agent, ids) != Err(AgentNotFound)
  {
    hide ToolFor;
    if ids != [] {
      ToolsFail(resolver, roles, agent, ids[..|ids| - 1]);
    }
  }

  /** Main result: a selection fails with the reason of the first tool that does not resolve. */
  lemma FirstToolDecides(resolver: Resolver, roles: set<string>, agent: Agent, selection: seq<string>, i: nat)
    requires DistinctIds(resolver.catalog) && AgentFor(resolver.agents, agent.id) == Some(agent) && i < |selection|
    requires forall j :: 0 <= j < i ==> Usable(resolver, roles, agent, selection[j])
    requires !Usable(resolver, roles, agent, selection[i])
    ensures var r := ForAgent(resolver, roles, agent.id, selection);
            && r.Err?
            && (r.error == CapabilityNotFound <==> !IsRegistered(resolver.catalog, selection[i]))
            && (r.error == CapabilityNotAllowed <==>
                  exists d :: Registers(resolver.catalog, selection[i], d) && !MayUse(roles, agent, d))
            && (r.error == CapabilityUnavailable <==>
                  exists d :: Registers(resolver.catalog, selection[i], d) && MayUse(roles, agent, d)
                              && d.status == Declared)
  {
    hide ToolFor, MayUse, Resolve, Registers, Usable, DistinctIds;
    var ids := selection[..i];
    forall j | 0 <= j < i
      ensures ToolFor(resolver, roles, agent, ids[j]).Ok?
    {
      UsableExactly(resolver, roles, agent, selection[j]);
    }
    ToolsForExactly(resolver, roles, agent, ids);
    UsableExactly(resolver, roles, agent, selection[i]);
    var upTo := selection[..i + 1];
    assert upTo[..|upTo| - 1] == ids;
    ToolErrorStays(resolver, roles, agent, selection, i + 1);
    ToolForExactly(resolver, roles, agent, selection[i]);
    OneRegistered(resolver.catalog, selection[i]);
  }

  lemma OneRegistered(catalog: seq<Definition>, id: string)
    requires DistinctIds(catalog)
    ensures forall d, e :: Registers(catalog, id, d) && Registers(catalog, id, e) ==> d == e
    ensures forall d :: Registers(catalog, id, d) ==> IsRegistered(catalog, id)
  {
  }

  // ----- Explicit delegation targets

  /** A worker that the roles may delegate to. */
  ghost predicate Delegable(resolver: Resolver, roles: set<string>, id: string) {
    exists d :: Registers(resolver.catalog, id, d) && d.kind == AgentKind && d.status == Available
                && ShareARole(d.allowedRoles, roles)
  }

  /** What resolving one selected target reports: first whether there is such a worker, then whether it
      is available, then whether it is allowed. */
  ghost predicate TargetOutcome(catalog: seq<Definition>, roles: set<string>, id: string,
                                r: Result<Option<Definition>, ResolveError>)
  {
    match r
    case Ok(None) => false
    case Ok(Some(d)) =>
      Registers(catalog, id, d) && d.kind == AgentKind && d.status == Available && ShareARole(d.allowedRoles, roles)
    case Err(CapabilityNotFound) => !IsRegistered(catalog, id)
    case Err(CapabilityUnavailable) =>
      exists d :: Registers(catalog, id, d) && d.kind == AgentKind && d.status == Declared
    case Err(CapabilityNotAllowed) =>
      exists d :: Registers(catalog, id, d)
                  && (d.kind != AgentKind || (d.status == Available && !ShareARole(d.allowedRoles, roles)))
    case Err(_) => false
  }

  lemma TargetForExactly(resolver: Resolver, roles: set<string>, id: string)
    requires DistinctIds(resolver.catalog)
    ensures TargetOutcome(resolver.catalog, roles, id, TargetFor(resolver, roles, true, id))
    ensures (TargetFor(resolver, roles, true, id).Ok? && TargetFor(resolver, roles, true, id).value.Some?) <==>
              Delegable(resolver, roles, id)
  {
    var found := Lookup(resolver.catalog, id);
    if found.Some? {
      var d := found.value;
      LookupExactly(resolver.catalog, id, d);
      RolesMeet(d.allowedRoles, roles);
      OneRegistered(resolver.catalog, id);
      assert Registers(resolver.catalog, id, d);
    } else {
      LookupExactly(resolver.catalog, id, Definition(id, ToolKind, Available, {}, {}, ""));
    }
  }

  lemma {:induction false} TargetsForExactly(resolver: Resolver, roles: set<string>, ids: seq<string>)
    requires DistinctIds(resolver.catalog)
    ensures var r := TargetsFor(resolver, roles, true, ids);
            && (r.Ok? <==> forall i :: 0 <= i < |ids| ==> Delegable(resolver, roles, ids[i]))
            && (r.Ok? ==> |r.value| == |ids| &&
                          forall i :: 0 <= i < |ids| ==> Registers(resolver.catalog, ids[i], r.value[i]))
  {
    hide TargetFor, Delegable, DistinctIds, Registers;
    if ids != [] {
      var n := |ids| - 1;
      TargetsForExactly(resolver, roles, ids[..n]);
      TargetForExactly(resolver, roles, ids[n]);
      assert forall i :: 0 <= i < n ==> ids[..n][i] == ids[i];
    }
  }

  /** Main result: selected targets resolve exactly when each of them is a worker that the roles may
      delegate to, and are then shown in ascending order. */
  lemma SelectedTargetsExactly(resolver: Resolver, roles: set<string>, selection: seq<string>)
    requires DistinctIds(resolver.catalog) && ValidSelection(selection) && selection != []
    ensures var r := Targets(resolver, roles, selection);
            && (r.Ok? <==> forall i :: 0 <= i < |selection| ==> Delegable(resolver, roles, selection[i]))
            && (r.Ok? ==> r.value.requestingAgentId == None && Shows(resolver.catalog, selection, r.value.capabilities))
  {
    hide TargetsFor, Delegable, DistinctIds, Registers, Resolve, Shows;
    TargetsForExactly(resolver, roles, selection);
    if TargetsFor(resolver, roles, true, selection).Ok? {
      ResolvedShows(resolver.catalog, None, selection, TargetsFor(resolver, roles, true, selection).value);
    }
  }

  /** Main result: and they fail with the reason of the first one that does not. */
  lemma FirstTargetDecides(resolver: Resolver, roles: set<string>, selection: seq<string>, i: nat)
    requires DistinctIds(resolver.catalog) && i < |selection|
    requires forall j :: 0 <= j < i ==> Delegable(resolver, roles, selection[j])
    requires !Delegable(resolver, roles, selection[i])
    ensures var r := Targets(resolver, roles, selection);
            && r.Err?
            && (r.error == CapabilityNotFound <==> !IsRegistered(resolver.catalog, selection[i]))
            && (r.error == CapabilityUnavailable <==>
                  exists d :: Registers(resolver.catalog, selection[i], d) && d.kind == AgentKind
                              && d.status == Declared)
            && (r.error == CapabilityNotFound || r.error == CapabilityUnavailable || r.error == CapabilityNotAllowed)
  {
    hide TargetFor, Delegable, DistinctIds, Registers, Resolve;
    var ids := selection[..i];
    TargetsForExactly(resolver, roles, ids);
    TargetForExactly(resolver, roles, selection[i]);
    var upTo := selection[..i + 1];
    assert upTo[..|upTo| - 1] == ids;
    TargetErrorStays(resolver, roles, true, selection, i + 1);
    OneRegistered(resolver.catalog, selection[i]);
  }

  // ----- Default targets and construction

  ghost function DelegableAmong(catalog: seq<Definition>, roles: set<string>): set<Definition> {
    set d | d in catalog && d.kind == AgentKind && d.status == Available && ShareARole(d.allowedRoles, roles)
  }

  lemma OfferedCount(catalog: seq<Definition>, roles: set<string>, offered: seq<Definition>)
    requires Ascending(offered) && forall d :: d in offered <==> d in catalog && Offered(roles, d)
    ensures |DelegableAmong(catalog, roles)| == |offered|
  {
    AscendingAreDistinct(offered);
    DistinctCard(offered);
    forall d
      ensures d in DelegableAmong(catalog, roles) <==> d in offered
    {
      RolesMeet(d.allowedRoles, roles);
    }
    assert DelegableAmong(catalog, roles) == set d | d in offered;
  }

  /** Main result: without a selection every worker that the roles may delegate to is shown, and no
      other; there are too many of them exactly above twelve. */
  lemma DefaultTargetsShow(resolver: Resolver, roles: set<string>)
    requires DistinctIds(resolver.catalog)
    ensures var r := Targets(resolver, roles, []);
            && (r.Err? <==> |DelegableAmong(resolver.catalog, roles)| > 12)
            && (r.Err? ==> r.error == InvalidResolution)
            && (r.Ok? ==>
                  && r.value.requestingAgentId == None
                  && (forall v :: v in r.value.capabilities ==>
                        && Delegable(resolver, roles, v.id)
                        && exists d :: Registers(resolver.catalog, v.id, d) && IsViewOf(v, d))
                  && (forall id :: Delegable(resolver, roles, id) ==>
                        exists v :: v in r.value.capabilities && v.id == id)
                  && (forall i, j :: 0 <= i < j < |r.value.capabilities| ==>
                        Before(r.value.capabilities[i].id, r.value.capabilities[j].id)))
  {
    hide OfferedWorkers, Targets, Before, DistinctIds;
    DefaultTargetsExactly(resolver, roles);
    var offered := OfferedWorkers(resolver, roles);
    OfferedCount(resolver.catalog, roles, offered);
    if |offered| <= MAX_RESOLVED_CAPABILITIES {
      var views := ViewsOf(offered);
      forall v | v in views
        ensures Delegable(resolver, roles, v.id) && exists d :: Registers(resolver.catalog, v.id, d) && IsViewOf(v, d)
      {
        var k :| 0 <= k < |views| && views[k] == v;
        assert offered[k] in offered;
        RolesMeet(offered[k].allowedRoles, roles);
        assert Registers(resolver.catalog, v.id, offered[k]) && IsViewOf(v, offered[k]);
      }
      forall id | Delegable(resolver, roles, id)
        ensures exists v :: v in views && v.id == id
      {
        var d :| Registers(resolver.catalog, id, d) && d.kind == AgentKind && d.status == Available
                 && ShareARole(d.allowedRoles, roles);
        RolesMeet(d.allowedRoles, roles);
        var k :| 0 <= k < |offered| && offered[k] == d;
        assert views[k] in views;
      }
    }
  }

  /** Main result: a resolver is built exactly for agents with different identifiers, each tool of
      which is registered, is a tool, and names the agent among its owners. */
  lemma ResolverExactly(catalog: seq<Definition>, definitions: seq<Agent>)
    requires DistinctIds(catalog)
    ensures Fault(catalog, definitions).None? <==>
              && (forall i, j :: 0 <= i < j < |definitions| ==> definitions[i].id != definitions[j].id)
              && (forall i, k :: 0 <= i < |definitions| && 0 <= k < |definitions[i].toolIds| ==>
                    Owns(catalog, definitions[i].id, definitions[i].toolIds[k]))
  {
    hide Fault, ToolError, DistinctIds;
    NoFaultExactly(catalog, definitions);
    forall i, k | 0 <= i < |definitions| && 0 <= k < |definitions[i].toolIds|
      ensures ToolError(catalog, definitions[i], definitions[i].toolIds[k]).None? <==>
                Owns(catalog, definitions[i].id, definitions[i].toolIds[k])
    {
      OwnsExactly(catalog, definitions[i], definitions[i].toolIds[k]);
    }
  }

  ghost predicate Owns(catalog: seq<Definition>, agentId: string, id: string) {
    exists d :: Registers(catalog, id, d) && d.kind == ToolKind && agentId in d.allowedAgentIds
  }

  lemma OwnsExactly(catalog: seq<Definition>, agent: Agent, id: string)
    requires DistinctIds(catalog)
    ensures ToolError(catalog, agent, id).None? <==> Owns(catalog, agent.id, id)
    ensures ToolError(catalog, agent, id) == Some(NotRegistered) <==> !IsRegistered(catalog, id)
    ensures ToolError(catalog, agent, id) == Some(NotATool) <==>
              exists d :: Registers(catalog, id, d) && d.kind != ToolKind
  {
    var found := Lookup(catalog, id);
    if found.Some? {
      LookupExactly(catalog, id, found.value);
      OneRegistered(catalog, id);
      assert Registers(catalog, id, found.value);
    } else {
      LookupExactly(catalog, id, Definition(id, ToolKind, Available, {}, {}, ""));
    }
  }

  // ----- Profiles

  lemma {:induction false} ProfilesPair(resolver: Resolver, roles: set<string>, workers: seq<Resolved>)
    ensures var r := ProfilesFor(resolver, roles, workers);
            r.Ok? ==> && |r.value| == |workers|
                      && forall i :: 0 <= i < |workers| ==>
                           && r.value[i].worker == workers[i] && ValidProfile(r.value[i])
                           && ForAgent(resolver, roles, workers[i].id, []) == Ok(r.value[i].capabilities)
  {
    hide ForAgent, ValidProfile;
    if workers != [] {
      ProfilesPair(resolver, roles, workers[..|workers| - 1]);
    }
  }

  /** The profile of a worker with that identifier: what is registered of it, and all its tools, each
      of which the roles may use. */
  ghost predicate Profiles(resolver: Resolver, roles: set<string>, p: Profile, agent: Agent) {
    && agent in resolver.agents && agent.id == p.worker.id && Delegable(resolver, roles, agent.id)
    && (exists d :: Registers(resolver.catalog, agent.id, d) && IsViewOf(p.worker, d))
    && p.capabilities.requestingAgentId == Some(agent.id)
    && Shows(resolver.catalog, agent.toolIds, p.capabilities.capabilities)
    && forall i :: 0 <= i < |agent.toolIds| ==> Usable(resolver, roles, agent, agent.toolIds[i])
  }

  /** Main result: the Supervisor is given one profile for each worker that the roles may delegate to,
      ascending, with that worker's own tools, all of which the roles may use. */
  lemma ProfilesShow(resolver: Resolver, roles: set<string>)
    requires DistinctIds(resolver.catalog) && DistinctAgents(resolver.agents)
             && (forall a :: a in resolver.agents ==> ValidAgent(a)) && WorkerProfiles(resolver, roles).Ok?
    ensures var profiles := WorkerProfiles(resolver, roles).value;
            && (forall p :: p in profiles ==> exists agent :: Profiles(resolver, roles, p, agent))
            && (forall id :: Delegable(resolver, roles, id) ==> exists p :: p in profiles && p.worker.id == id)
            && (forall i, j :: 0 <= i < j < |profiles| ==> Before(profiles[i].worker.id, profiles[j].worker.id))
  {
    hide Targets, ForAgent, ValidProfile, Before, DistinctIds, DistinctAgents, Delegable, Registers, IsViewOf, Shows,
         Usable;
    var profiles := WorkerProfiles(resolver, roles).value;
    var workers := Targets(resolver, roles, []).value.capabilities;
    DefaultTargetsShow(resolver, roles);
    ProfilesPair(resolver, roles, workers);
    forall p | p in profiles
      ensures exists agent :: Profiles(resolver, roles, p, agent)
    {
      var i :| 0 <= i < |profiles| && profiles[i] == p;
      assert workers[i] in workers;
      var agent := ProfiledAgent(resolver, roles, p);
    }
    forall id | Delegable(resolver, roles, id)
      ensures exists p :: p in profiles && p.worker.id == id
    {
      var i :| 0 <= i < |workers| && workers[i].id == id;
      assert profiles[i] in profiles;
    }
  }

  lemma ProfiledAgent(resolver: Resolver, roles: set<string>, p: Profile) returns (agent: Agent)
    requires DistinctIds(resolver.catalog) && DistinctAgents(resolver.agents)
             && (forall a :: a in resolver.agents ==> ValidAgent(a))
    requires Delegable(resolver, roles, p.worker.id)
             && exists d :: Registers(resolver.catalog, p.worker.id, d) && IsViewOf(p.worker, d)
    requires ForAgent(resolver, roles, p.worker.id, []) == Ok(p.capabilities)
    ensures Profiles(resolver, roles, p, agent)
  {
    hide ForAgent, DistinctIds, Delegable, Registers, IsViewOf, Shows, Usable;
    WorkerResolvesExactly(resolver, roles, p.worker.id, []);
    agent :| agent in resolver.agents && agent.id == p.worker.id;
    assert Grants(resolver, roles, agent, Asked(agent, []), Ok(p.capabilities));
  }
}
