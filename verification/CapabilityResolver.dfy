/** `CapabilityResolver` (app/capabilities/resolver.py), the worker profiles that the
    gateway builds (app/agents/gateway.py) and the checks they must pass
    (app/llm/agent_schemas.py, app/agents/supervisor.py). */
module CapabilityResolver {
  import opened Capabilities
  import opened Options
  import opened Strings

  const MAX_RESOLVED_CAPABILITIES: nat := 12
  const MAX_PROVIDER_WORKERS: nat := 8

  /** `ResolvedCapability`, which is always available. */
  datatype Resolved = Resolved(id: string, kind: Kind, publicView: string)

  /** `CapabilityResolution`. */
  datatype Resolution = Resolution(requestingAgentId: Option<string>, capabilities: seq<Resolved>)

  datatype ResolveError =
    | AgentNotFound | CapabilityNotFound | CapabilityNotAllowed | CapabilityUnavailable
    | InvalidResolution | InvalidProfile

  datatype SetupError = DuplicateAgent | NotRegistered | NotATool | WrongOwner

  /** The resolver's fields, fixed once it is constructed. */
  datatype Resolver = Resolver(catalog: seq<Definition>, agents: seq<Agent>)

  /** `CapabilitySelection`. */
  predicate ValidSelection(ids: seq<string>) { |ids| <= MAX_RESOLVED_CAPABILITIES && Distinct(ids) }

  // ----- Construction

  function ToolError(catalog: seq<Definition>, agent: Agent, id: string): Option<SetupError> {
    match Lookup(catalog, id)
    case None => Some(NotRegistered)
    case Some(d) => if !d.kind.ToolKind? then Some(NotATool)
      else if agent.id !in d.allowedAgentIds then Some(WrongOwner) else None
  }

  /** Every tool of the agent is a registered tool that the agent owns. */
  predicate Agrees(catalog: seq<Definition>, agent: Agent) {
    forall i :: 0 <= i < |agent.toolIds| ==> ToolError(catalog, agent, agent.toolIds[i]).None?
  }

  predicate DistinctAgents(agents: seq<Agent>) {
    forall i, j :: 0 <= i < j < |agents| ==> agents[i].id != agents[j].id
  }

  predicate Accepted(catalog: seq<Definition>, agents: seq<Agent>) {
    DistinctAgents(agents) && forall i :: 0 <= i < |agents| ==> Agrees(catalog, agents[i])
  }

  function AgentFor(agents: seq<Agent>, id: string): (found: Option<Agent>)
    ensures found.Some? ==> found.value in agents && found.value.id == id
    ensures found.None? ==> forall a :: a in agents ==> a.id != id
  {
    if agents == [] then None
    else if agents[0].id == id then Some(agents[0])
    else AgentFor(agents[1..], id)
  }

  /** The first fault among the tools of one agent. */
  function ToolsFault(catalog: seq<Definition>, agent: Agent, ids: seq<string>): Option<SetupError> {
    if ids == [] then None
    else if ToolsFault(catalog, agent, ids[..|ids| - 1]).Some? then ToolsFault(catalog, agent, ids[..|ids| - 1])
    else ToolError(catalog, agent, ids[|ids| - 1])
  }

  /** The first fault of the definitions. */
  function Fault(catalog: seq<Definition>, definitions: seq<Agent>): Option<SetupError> {
    if definitions == [] then None
    else
      var front, agent := definitions[..|definitions| - 1], definitions[|definitions| - 1];
      if Fault(catalog, front).Some? then Fault(catalog, front)
      else if AgentFor(front, agent.id).Some? then Some(DuplicateAgent)
      else ToolsFault(catalog, agent, agent.toolIds)
  }

  lemma {:induction false} ToolsFaultStays(catalog: seq<Definition>, agent: Agent, ids: seq<string>, k: nat)
    requires k <= |ids| && ToolsFault(catalog, agent, ids[..k]).Some?
    ensures ToolsFault(catalog, agent, ids) == ToolsFault(catalog, agent, ids[..k])
    decreases |ids|
  {
    if k == |ids| {
      assert ids[..k] == ids;
    } else {
      assert ids[..|ids| - 1][..k] == ids[..k];
      ToolsFaultStays(catalog, agent, ids[..|ids| - 1], k);
    }
  }

  lemma {:induction false} FaultStays(catalog: seq<Definition>, definitions: seq<Agent>, k: nat)
    requires k <= |definitions| && Fault(catalog, definitions[..k]).Some?
    ensures Fault(catalog, definitions) == Fault(catalog, definitions[..k])
    decreases |definitions|
  {
    hide ToolsFault, AgentFor;
    if k == |definitions| {
      assert definitions[..k] == definitions;
    } else {
      assert definitions[..|definitions| - 1][..k] == definitions[..k];
      FaultStays(catalog, definitions[..|definitions| - 1], k);
    }
  }

  lemma {:induction false} ToolsFaultExactly(catalog: seq<Definition>, agent: Agent, ids: seq<string>)
    ensures ToolsFault(catalog, agent, ids).None? <==>
              forall i :: 0 <= i < |ids| ==> ToolError(catalog, agent, ids[i]).None?
  {
    hide ToolError;
    if ids != [] {
      ToolsFaultExactly(catalog, agent, ids[..|ids| - 1]);
    }
  }

  /** Main result: construction succeeds exactly on different agents whose tools are all
      registered, are tools and are theirs. */
  lemma {:induction false} NoFaultExactly(catalog: seq<Definition>, definitions: seq<Agent>)
    ensures Fault(catalog, definitions).None? <==> Accepted(catalog, definitions)
  {
    hide ToolsFault, ToolError;
    if definitions != [] {
      var front, agent := definitions[..|definitions| - 1], definitions[|definitions| - 1];
      NoFaultExactly(catalog, front);
      ToolsFaultExactly(catalog, agent, agent.toolIds);
      if AgentFor(front, agent.id).Some? {
        var i :| 0 <= i < |front| && front[i] == AgentFor(front, agent.id).value;
        assert definitions[i].id == definitions[|front|].id;
      } else {
        forall i | 0 <= i < |front|
          ensures definitions[i].id != agent.id
        {
          assert front[i] in front;
        }
      }
    }
  }

  /** `CapabilityResolver.__init__`: the first fault, or the resolver. */
  method CreateResolver(catalog: seq<Definition>, definitions: seq<Agent>)
    returns (resolver: Result<Resolver, SetupError>)
    ensures resolver == match Fault(catalog, definitions)
                        case None => Ok(Resolver(catalog, definitions))
                        case Some(fault) => Err(fault)
  {
    hide Lookup, ToolError, AgentFor;
    var agents: seq<Agent> := [];
    for i := 0 to |definitions|
      invariant agents == definitions[..i] && Fault(catalog, agents).None?
    {
      var agent := definitions[i];
      assert definitions[..i + 1][..i] == agents;
      if AgentFor(agents, agent.id).Some? {
        FaultStays(catalog, definitions, i + 1);
        return Err(DuplicateAgent);
      }
      for k := 0 to |agent.toolIds|
        invariant ToolsFault(catalog, agent, agent.toolIds[..k]).None?
      {
        assert agent.toolIds[..k + 1][..k] == agent.toolIds[..k];
        var error := ToolError(catalog, agent, agent.toolIds[k]);
        if error.Some? {
          ToolsFaultStays(catalog, agent, agent.toolIds, k + 1);
          FaultStays(catalog, definitions, i + 1);
          return Err(error.value);
        }
      }
      assert agent.toolIds[..|agent.toolIds|] == agent.toolIds;
      agents := agents + [agent];
      assert agents == definitions[..i + 1];
    }
    assert definitions[..|definitions|] == definitions;
    return Ok(Resolver(catalog, agents));
  }

  // ----- Resolution

  function ViewsOf(definitions: seq<Definition>): seq<Resolved> {
    seq(|definitions|, i requires 0 <= i < |definitions| =>
        Resolved(definitions[i].id, definitions[i].kind, definitions[i].publicView))
  }

  /** Sorted and without repetition: `validate_unique_capabilities`. */
  predicate AscendingViews(views: seq<Resolved>) {
    forall i, j :: 0 <= i < j < |views| ==> Before(views[i].id, views[j].id)
  }

  predicate ValidResolution(r: Resolution) {
    |r.capabilities| <= MAX_RESOLVED_CAPABILITIES && AscendingViews(r.capabilities)
  }

  /** `_resolution`. */
  function Resolve(agentId: Option<string>, definitions: seq<Definition>): Result<Resolution, ResolveError> {
    var r := Resolution(agentId, ViewsOf(SortById(definitions)));
    if ValidResolution(r) then Ok(r) else Err(InvalidResolution)
  }

  /** The checks of one selected tool. */
  function ToolFor(resolver: Resolver, roles: set<string>, agent: Agent,
                   id: string): (d: Result<Definition, ResolveError>)
    ensures d.Ok? ==> d.value in resolver.catalog && d.value.id == id
  {
    match Lookup(resolver.catalog, id)
    case None => Err(CapabilityNotFound)
    case Some(d) =>
      if id !in agent.toolIds || !d.kind.ToolKind? || agent.id !in d.allowedAgentIds
        || d.allowedRoles * roles == {} then
        Err(CapabilityNotAllowed)
      else if !d.status.Available? then Err(CapabilityUnavailable)
      else Ok(d)
  }

  function ToolsFor(resolver: Resolver, roles: set<string>, agent: Agent,
                    ids: seq<string>): Result<seq<Definition>, ResolveError> {
    if ids == [] then Ok([])
    else
      match ToolsFor(resolver, roles, agent, ids[..|ids| - 1])
      case Err(e) => Err(e)
      case Ok(front) =>
        match ToolFor(resolver, roles, agent, ids[|ids| - 1])
        case Err(e) => Err(e)
        case Ok(d) => Ok(front + [d])
  }

  function ForAgent(resolver: Resolver, roles: set<string>, agentId: string,
                    selection: seq<string>): Result<Resolution, ResolveError> {
    match AgentFor(resolver.agents, agentId)
    case None => Err(AgentNotFound)
    case Some(agent) =>
      match ToolsFor(resolver, roles, agent, if selection != [] then selection else agent.toolIds)
      case Err(e) => Err(e)
      case Ok(definitions) => Resolve(Some(agent.id), definitions)
  }

  /** An error at a selected tool is the error of the whole selection. */
  lemma {:induction false} ToolErrorStays(resolver: Resolver, roles: set<string>, agent: Agent, ids: seq<string>,
                                          i: nat)
    requires i <= |ids| && ToolsFor(resolver, roles, agent, ids[..i]).Err?
    ensures ToolsFor(resolver, roles, agent, ids) == ToolsFor(resolver, roles, agent, ids[..i])
    decreases |ids|
  {
    hide ToolFor;
    if i == |ids| {
      assert ids[..i] == ids;
    } else {
      var n := |ids| - 1;
      assert ids[..n][..i] == ids[..i];
      ToolErrorStays(resolver, roles, agent, ids[..n], i);
    }
  }

  /** `resolve_for_agent`. */
  method ResolveForAgent(resolver: Resolver, roles: set<string>, agentId: string, selection: seq<string>)
    returns (r: Result<Resolution, ResolveError>)
    ensures r == ForAgent(resolver, roles, agentId, selection)
  {
    hide ToolFor, Lookup, Resolve;
    var found := AgentFor(resolver.agents, agentId);
    if found.None? {
      return Err(AgentNotFound);
    }
    var agent := found.value;
    var ids := if selection != [] then selection else agent.toolIds;
    var definitions: seq<Definition> := [];
    for i := 0 to |ids|
      invariant ToolsFor(resolver, roles, agent, ids[..i]) == Ok(definitions)
    {
      assert ids[..i + 1][..i] == ids[..i];
      var d := ToolFor(resolver, roles, agent, ids[i]);
      if d.Err? {
        ToolErrorStays(resolver, roles, agent, ids, i + 1);
        return Err(d.error);
      }
      definitions := definitions + [d.value];
    }
    assert ids[..|ids|] == ids;
    return Resolve(Some(agent.id), definitions);
  }

  /** The checks of one delegation target: it may be left out of a default selection. */
  function TargetFor(resolver: Resolver, roles: set<string>, explicit: bool,
                     id: string): Result<Option<Definition>, ResolveError> {
    match Lookup(resolver.catalog, id)
    case None => Err(CapabilityNotFound)
    case Some(d) =>
      if !d.kind.AgentKind? then Err(CapabilityNotAllowed)
      else if !d.status.Available? then if explicit then Err(CapabilityUnavailable) else Ok(None)
      else if d.allowedRoles * roles == {} then if explicit then Err(CapabilityNotAllowed) else Ok(None)
      else Ok(Some(d))
  }

  function TargetsFor(resolver: Resolver, roles: set<string>, explicit: bool,
                      ids: seq<string>): Result<seq<Definition>, ResolveError> {
    if ids == [] then Ok([])
    else
      match TargetsFor(resolver, roles, explicit, ids[..|ids| - 1])
      case Err(e) => Err(e)
      case Ok(front) =>
        match TargetFor(resolver, roles, explicit, ids[|ids| - 1])
        case Err(e) => Err(e)
        case Ok(None) => Ok(front)
        case Ok(Some(d)) => Ok(front + [d])
  }

  lemma {:induction false} TargetErrorStays(resolver: Resolver, roles: set<string>, explicit: bool, ids: seq<string>,
                                            i: nat)
    requires i <= |ids| && TargetsFor(resolver, roles, explicit, ids[..i]).Err?
    ensures TargetsFor(resolver, roles, explicit, ids) == TargetsFor(resolver, roles, explicit, ids[..i])
    decreases |ids|
  {
    hide TargetFor;
    if i == |ids| {
      assert ids[..i] == ids;
    } else {
      var n := |ids| - 1;
      assert ids[..n][..i] == ids[..i];
      TargetErrorStays(resolver, roles, explicit, ids[..n], i);
    }
  }

  /** The identifiers of all agents of the catalog, sorted. */
  function AgentIds(definitions: seq<Definition>): seq<string> {
    if definitions == [] then []
    else
      AgentIds(definitions[..|definitions| - 1]) +
      (if definitions[|definitions| - 1].kind.AgentKind? then [definitions[|definitions| - 1].id] else [])
  }

  function DefaultTargets(resolver: Resolver): seq<string> { AgentIds(SortById(resolver.catalog)) }

  function Targets(resolver: Resolver, roles: set<string>, selection: seq<string>): Result<Resolution, ResolveError> {
    match TargetsFor(resolver, roles, selection != [], if selection != [] then selection else DefaultTargets(resolver))
    case Err(e) => Err(e)
    case Ok(definitions) => Resolve(None, definitions)
  }

  /** `resolve_delegation_targets`. */
  method ResolveDelegationTargets(resolver: Resolver, roles: set<string>, selection: seq<string>)
    returns (r: Result<Resolution, ResolveError>)
    ensures r == Targets(resolver, roles, selection)
  {
    hide TargetFor, Lookup, Resolve, DefaultTargets;
    var explicit := selection != [];
    var ids := if selection != [] then selection else DefaultTargets(resolver);
    var definitions: seq<Definition> := [];
    for i := 0 to |ids|
      invariant TargetsFor(resolver, roles, explicit, ids[..i]) == Ok(definitions)
    {
      assert ids[..i + 1][..i] == ids[..i];
      var d := TargetFor(resolver, roles, explicit, ids[i]);
      if d.Err? {
        TargetErrorStays(resolver, roles, explicit, ids, i + 1);
        return Err(d.error);
      }
      if d.value.None? {
        continue;
      }
      definitions := definitions + [d.value.value];
    }
    assert ids[..|ids|] == ids;
    return Resolve(None, definitions);
  }

  // ----- When a tool selection resolves

  lemma AscendingIsValid(agentId: Option<string>, definitions: seq<Definition>)
    requires DistinctIds(definitions)
    ensures Resolve(agentId, definitions) ==
              if |definitions| <= MAX_RESOLVED_CAPABILITIES then Ok(Resolution(agentId, ViewsOf(SortById(definitions))))
              else Err(InvalidResolution)
  {
    hide SortById, Before;
    SortKeepsElements(definitions);
    SortIsAscending(definitions);
  }

  /** The definitions of the selected tools, in the selected order. */
  lemma {:induction false} ToolsForExactly(resolver: Resolver, roles: set<string>, agent: Agent, ids: seq<string>)
    ensures var r := ToolsFor(resolver, roles, agent, ids);
            && (r.Ok? <==> forall i :: 0 <= i < |ids| ==> ToolFor(resolver, roles, agent, ids[i]).Ok?)
            && (r.Ok? ==>
                  && |r.value| == |ids|
                  && forall i :: 0 <= i < |ids| ==>
                       r.value[i].id == ids[i] && ToolFor(resolver, roles, agent, ids[i]) == Ok(r.value[i]))
  {
    hide ToolFor;
    if ids != [] {
      var n := |ids| - 1;
      ToolsForExactly(resolver, roles, agent, ids[..n]);
      assert forall i :: 0 <= i < n ==> ids[..n][i] == ids[i];
    }
  }

  /** Main result: a selection of tools resolves exactly when each tool passes its checks, and
      then to those tools, ascending; the bound on a resolution never adds a failure. */
  lemma ForAgentExactly(resolver: Resolver, roles: set<string>, agent: Agent, selection: seq<string>)
    requires AgentFor(resolver.agents, agent.id) == Some(agent) && ValidAgent(agent) && ValidSelection(selection)
    ensures var ids := if selection != [] then selection else agent.toolIds;
            var r := ForAgent(resolver, roles, agent.id, selection);
            && (r.Ok? <==> forall i :: 0 <= i < |ids| ==> ToolFor(resolver, roles, agent, ids[i]).Ok?)
            && (r.Ok? ==> r.value.requestingAgentId == Some(agent.id) && ValidResolution(r.value)
                          && |r.value.capabilities| == |ids|
                          && (forall view :: view in r.value.capabilities ==> view.id in ids && view.kind.ToolKind?))
  {
    hide ToolFor, Lookup, SortById, Before, Resolve;
    var ids := if selection != [] then selection else agent.toolIds;
    ToolsForExactly(resolver, roles, agent, ids);
    var definitions := ToolsFor(resolver, roles, agent, ids);
    if definitions.Ok? {
      var ds := definitions.value;
      assert DistinctIds(ds);
      AscendingIsValid(Some(agent.id), ds);
      SortKeepsElements(ds);
      SortIsAscending(ds);
      var views := ViewsOf(SortById(ds));
      forall view | view in views
        ensures view.id in ids && view.kind.ToolKind?
      {
        var k :| 0 <= k < |views| && views[k] == view;
        assert SortById(ds)[k] in ds;
        var i :| 0 <= i < |ds| && ds[i] == SortById(ds)[k];
        OkIsATool(resolver, roles, agent, ids[i]);
      }
      assert ValidResolution(Resolution(Some(agent.id), views));
    }
  }

  lemma OkIsATool(resolver: Resolver, roles: set<string>, agent: Agent, id: string)
    ensures ToolFor(resolver, roles, agent, id).Ok? ==> ToolFor(resolver, roles, agent, id).value.kind.ToolKind?
  {
  }

  // ----- Default delegation targets

  /** An available worker that one of the roles may use. */
  predicate Offered(roles: set<string>, d: Definition) {
    d.kind.AgentKind? && d.status.Available? && d.allowedRoles * roles != {}
  }

  function OfferedAmong(definitions: seq<Definition>, roles: set<string>): seq<Definition> {
    if definitions == [] then []
    else
      OfferedAmong(definitions[..|definitions| - 1], roles) +
      (if Offered(roles, definitions[|definitions| - 1]) then [definitions[|definitions| - 1]] else [])
  }

  lemma {:induction false} DefaultSelectionFilters(resolver: Resolver, roles: set<string>, definitions: seq<Definition>)
    requires DistinctIds(resolver.catalog) && forall d :: d in definitions ==> d in resolver.catalog
    ensures TargetsFor(resolver, roles, false, AgentIds(definitions)) == Ok(OfferedAmong(definitions, roles))
  {
    hide Lookup;
    if definitions != [] {
      var n := |definitions| - 1;
      var d, ids := definitions[n], AgentIds(definitions[..n]);
      assert d in definitions;
      DefaultSelectionFilters(resolver, roles, definitions[..n]);
      LookupIsUnique(resolver.catalog, d);
      var front := OfferedAmong(definitions[..n], roles);
      assert front + [] == front;
      if d.kind.AgentKind? {
        assert (ids + [d.id])[..|ids + [d.id]| - 1] == ids;
      } else {
        assert ids + [] == ids;
      }
    }
  }

  lemma {:induction false} OfferedAreAmong(definitions: seq<Definition>, roles: set<string>)
    requires Ascending(definitions)
    ensures forall d :: d in OfferedAmong(definitions, roles) <==> d in definitions && Offered(roles, d)
    ensures Ascending(OfferedAmong(definitions, roles))
  {
    hide Before, Offered;
    if definitions != [] {
      var n := |definitions| - 1;
      OfferedAreAmong(definitions[..n], roles);
      assert definitions == definitions[..n] + [definitions[n]];
      var front := OfferedAmong(definitions[..n], roles);
      forall i | 0 <= i < |front|
        ensures Before(front[i].id, definitions[n].id)
      {
        assert front[i] in front;
      }
    }
  }

  lemma {:induction false} SortOfAscending(definitions: seq<Definition>)
    requires Ascending(definitions)
    ensures SortById(definitions) == definitions
  {
    hide Before;
    if definitions != [] {
      var n := |definitions| - 1;
      SortOfAscending(definitions[..n]);
      InsertLast(definitions[n], definitions[..n]);
      assert definitions == definitions[..n] + [definitions[n]];
    }
  }

  lemma {:induction false} InsertLast(d: Definition, sorted: seq<Definition>)
    requires forall i :: 0 <= i < |sorted| ==> Before(sorted[i].id, d.id)
    ensures Insert(d, sorted) == sorted + [d]
  {
    hide Before;
    if sorted != [] {
      BeforeIsTotal(sorted[0].id, d.id);
      InsertLast(d, sorted[1..]);
      assert sorted == [sorted[0]] + sorted[1..];
    }
  }

  lemma AscendingAreDistinct(definitions: seq<Definition>)
    requires Ascending(definitions)
    ensures DistinctIds(definitions)
  {
    hide Before;
    forall i, j | 0 <= i < j < |definitions|
      ensures definitions[i].id != definitions[j].id
    {
      BeforeIsTotal(definitions[i].id, definitions[j].id);
    }
  }

  function OfferedWorkers(resolver: Resolver, roles: set<string>): seq<Definition> {
    OfferedAmong(SortById(resolver.catalog), roles)
  }

  /** Main result: the default targets are exactly the available workers that one of the
      roles may use, ascending; resolving them raises exactly when there are more than twelve. */
  lemma DefaultTargetsExactly(resolver: Resolver, roles: set<string>)
    requires DistinctIds(resolver.catalog)
    ensures var offered := OfferedWorkers(resolver, roles);
            && Ascending(offered) && (forall d :: d in offered <==> d in resolver.catalog && Offered(roles, d))
            && Targets(resolver, roles, []) ==
                 if |offered| <= MAX_RESOLVED_CAPABILITIES then Ok(Resolution(None, ViewsOf(offered)))
                 else Err(InvalidResolution)
  {
    hide SortById, Before, Resolve, TargetsFor, Offered;
    SortKeepsElements(resolver.catalog);
    SortIsAscending(resolver.catalog);
    var sorted := SortById(resolver.catalog);
    DefaultSelectionFilters(resolver, roles, sorted);
    OfferedAreAmong(sorted, roles);
    var offered := OfferedAmong(sorted, roles);
    AscendingAreDistinct(offered);
    AscendingIsValid(None, offered);
    SortOfAscending(offered);
  }

  lemma MoreRolesOfferMore(resolver: Resolver, roles: set<string>, more: set<string>, d: Definition)
    requires DistinctIds(resolver.catalog) && roles <= more && d in OfferedWorkers(resolver, roles)
    ensures d in OfferedWorkers(resolver, more)
  {
    hide OfferedWorkers;
    DefaultTargetsExactly(resolver, roles);
    DefaultTargetsExactly(resolver, more);
    var role :| role in d.allowedRoles * roles;
    assert role in d.allowedRoles * more;
  }

  /** The target is resolved for the roles. */
  predicate IsTarget(resolver: Resolver, roles: set<string>, view: Resolved) {
    var r := Targets(resolver, roles, []);
    r.Ok? && view in r.value.capabilities
  }

  /** Main result: adding roles keeps every resolved default target if and only if there was none,
      or the added roles do not take the number of offered workers above twelve. */
  lemma MoreRolesKeepTargets(resolver: Resolver, roles: set<string>, more: set<string>)
    requires DistinctIds(resolver.catalog) && roles <= more && Targets(resolver, roles, []).Ok?
    ensures (forall view :: IsTarget(resolver, roles, view) ==> IsTarget(resolver, more, view)) <==>
              OfferedWorkers(resolver, roles) == [] || |OfferedWorkers(resolver, more)| <= MAX_RESOLVED_CAPABILITIES
  {
    hide OfferedWorkers, Targets, Before, Ascending;
    DefaultTargetsExactly(resolver, roles);
    DefaultTargetsExactly(resolver, more);
    var offered, after := OfferedWorkers(resolver, roles), OfferedWorkers(resolver, more);
    if |after| <= MAX_RESOLVED_CAPABILITIES {
      forall view | IsTarget(resolver, roles, view)
        ensures IsTarget(resolver, more, view)
      {
        var i :| 0 <= i < |offered| && ViewsOf(offered)[i] == view;
        assert offered[i] in offered;
        MoreRolesOfferMore(resolver, roles, more, offered[i]);
        var j :| 0 <= j < |after| && after[j] == offered[i];
        assert ViewsOf(after)[j] == view;
      }
    } else if offered != [] {
      assert IsTarget(resolver, roles, ViewsOf(offered)[0]);
      assert !IsTarget(resolver, more, ViewsOf(offered)[0]);
    }
  }

  // ----- Offered workers can resolve their tools

  /** All tools of a registry are available (`_tool_capability`). */
  predicate ToolRegistry(tools: seq<Definition>) {
    forall d :: d in tools ==> d.kind.ToolKind? && d.status.Available? && ValidDefinition(d)
  }

  lemma OfferedIsAnAgent(tools: seq<Definition>, agents: seq<Agent>, roles: set<string>, d: Definition)
    returns (agent: Agent)
    requires ToolRegistry(tools) && M2Catalog(tools, agents).Ok? && d in M2Catalog(tools, agents).value
             && Offered(roles, d)
    ensures agent in agents && agent.id == d.id && AgentCapability(agent, tools) == Ok(d)
  {
    hide AgentCapability, DistinctIds;
    var workers := AgentCapabilities(agents, tools).value;
    assert d !in tools;
    var i :| 0 <= i < |workers| && workers[i] == d;
    agent := agents[i];
    assert AgentCapability(agents[i], tools) == Ok(workers[i]);
    CapabilityKeepsId(agent, tools);
  }

  /** A role that may use the worker may use each of its tools. */
  lemma WorkerRoleMayUseTool(tools: seq<Definition>, agent: Agent, d: Definition, roles: set<string>, i: nat)
    requires AgentCapability(agent, tools) == Ok(d) && d.allowedRoles * roles != {} && i < |agent.toolIds|
    ensures var tool := Lookup(tools, agent.toolIds[i]);
            tool.Some? && tool.value.allowedRoles * roles != {}
  {
  }

  lemma LookupInCatalog(tools: seq<Definition>, workers: seq<Definition>, id: string)
    requires DistinctIds(tools + workers) && Lookup(tools, id).Some?
    ensures Lookup(tools + workers, id) == Lookup(tools, id)
  {
    hide Lookup;
    LookupIsUnique(tools + workers, Lookup(tools, id).value);
  }

  lemma AgentIsFound(agents: seq<Agent>, agent: Agent)
    requires DistinctAgents(agents) && agent in agents
    ensures AgentFor(agents, agent.id) == Some(agent)
  {
  }

  /** Main result, across the catalog and the resolver: whoever is offered a worker by default
      can resolve all of that worker's tools, without any error. */
  lemma OfferedWorkerResolves(tools: seq<Definition>, agents: seq<Agent>, roles: set<string>, d: Definition)
    requires ToolRegistry(tools) && (forall a :: a in agents ==> ValidAgent(a))
    requires M2Catalog(tools, agents).Ok? && Accepted(M2Catalog(tools, agents).value, agents)
    requires d in OfferedWorkers(Resolver(M2Catalog(tools, agents).value, agents), roles)
    ensures var r := ForAgent(Resolver(M2Catalog(tools, agents).value, agents), roles, d.id, []);
            && r.Ok? && r.value.requestingAgentId == Some(d.id) && ValidResolution(r.value)
            && 1 <= |r.value.capabilities| <= 5
            && forall view :: view in r.value.capabilities ==> view.kind.ToolKind?
  {
    hide M2Catalog, OfferedWorkers, ForAgent, Lookup, AgentCapability, ToolRegistry, ValidDefinition, AgentFor;
    var catalog := M2Catalog(tools, agents).value;
    var resolver := Resolver(catalog, agents);
    CatalogIsDistinct(tools, agents);
    DefaultTargetsExactly(resolver, roles);
    var agent := OfferedIsAnAgent(tools, agents, roles, d);
    AgentIsFound(agents, agent);
    var k :| 0 <= k < |agents| && agents[k] == agent;
    assert Agrees(catalog, agents[k]);
    forall i | 0 <= i < |agent.toolIds|
      ensures ToolFor(resolver, roles, agent, agent.toolIds[i]).Ok?
    {
      assert ToolError(catalog, agent, agent.toolIds[i]).None?;
      WorkerRoleMayUseTool(tools, agent, d, roles, i);
      ToolIsAvailable(tools, agents, agent.toolIds[i]);
    }
    ForAgentExactly(resolver, roles, agent, []);
  }

  lemma CatalogIsDistinct(tools: seq<Definition>, agents: seq<Agent>)
    requires M2Catalog(tools, agents).Ok?
    ensures DistinctIds(M2Catalog(tools, agents).value)
  {
  }

  lemma ToolIsAvailable(tools: seq<Definition>, agents: seq<Agent>, id: string)
    requires ToolRegistry(tools) && M2Catalog(tools, agents).Ok? && Lookup(tools, id).Some?
    ensures Lookup(M2Catalog(tools, agents).value, id) == Lookup(tools, id)
    ensures Lookup(tools, id).value.status.Available?
  {
    hide Lookup, ValidDefinition, AgentCapability;
    LookupInCatalog(tools, AgentCapabilities(agents, tools).value, id);
  }

  // ----- Worker profiles

  /** `WorkerCapabilityProfile`. */
  datatype Profile = Profile(worker: Resolved, capabilities: Resolution)

  /** `validate_worker_mapping`. */
  predicate ValidProfile(p: Profile) {
    && p.worker.kind.AgentKind?
    && p.capabilities.requestingAgentId == Some(p.worker.id)
    && 1 <= |p.capabilities.capabilities| <= 5
    && forall view :: view in p.capabilities.capabilities ==> !view.kind.AgentKind?
  }

  /** `SupervisorRequest.validate_worker_order` with the bound of the field. */
  predicate SupervisorAccepts(profiles: seq<Profile>) {
    && |profiles| <= MAX_PROVIDER_WORKERS
    && forall i, j :: 0 <= i < j < |profiles| ==> Before(profiles[i].worker.id, profiles[j].worker.id)
  }

  function ProfilesFor(resolver: Resolver, roles: set<string>,
                       workers: seq<Resolved>): Result<seq<Profile>, ResolveError> {
    if workers == [] then Ok([])
    else
      var n := |workers| - 1;
      match ProfilesFor(resolver, roles, workers[..n])
      case Err(e) => Err(e)
      case Ok(front) =>
        match ForAgent(resolver, roles, workers[n].id, [])
        case Err(e) => Err(e)
        case Ok(resolution) =>
          var p := Profile(workers[n], resolution);
          if ValidProfile(p) then Ok(front + [p]) else Err(InvalidProfile)
  }

  /** `_worker_profiles`. */
  function WorkerProfiles(resolver: Resolver, roles: set<string>): Result<seq<Profile>, ResolveError> {
    match Targets(resolver, roles, [])
    case Err(e) => Err(e)
    case Ok(targets) => ProfilesFor(resolver, roles, targets.capabilities)
  }

  lemma {:induction false} ProfilesOfOffered(resolver: Resolver, roles: set<string>, workers: seq<Resolved>)
    requires forall i :: 0 <= i < |workers| ==>
               workers[i].kind.AgentKind? && ForAgent(resolver, roles, workers[i].id, []).Ok? &&
               ValidProfile(Profile(workers[i], ForAgent(resolver, roles, workers[i].id, []).value))
    ensures var r := ProfilesFor(resolver, roles, workers);
            && r.Ok? && |r.value| == |workers|
            && forall i :: 0 <= i < |workers| ==> r.value[i].worker == workers[i] && ValidProfile(r.value[i])
  {
    hide ForAgent, ValidProfile;
    if workers != [] {
      ProfilesOfOffered(resolver, roles, workers[..|workers| - 1]);
    }
  }

  /** Main result: building the profiles raises exactly when more than twelve workers are offered;
      every profile is valid, and the Supervisor accepts them exactly when there are at most eight. */
  lemma ProfilesExactly(tools: seq<Definition>, agents: seq<Agent>, roles: set<string>)
    requires ToolRegistry(tools) && (forall a :: a in agents ==> ValidAgent(a))
    requires M2Catalog(tools, agents).Ok? && Accepted(M2Catalog(tools, agents).value, agents)
    ensures var resolver := Resolver(M2Catalog(tools, agents).value, agents);
            var offered, r := OfferedWorkers(resolver, roles), WorkerProfiles(resolver, roles);
            && (r.Ok? <==> |offered| <= MAX_RESOLVED_CAPABILITIES)
            && (r.Ok? ==>
                  && |r.value| == |offered|
                  && (forall i :: 0 <= i < |offered| ==>
                      r.value[i].worker.id == offered[i].id && ValidProfile(r.value[i]))
                  && (SupervisorAccepts(r.value) <==> |offered| <= MAX_PROVIDER_WORKERS))
  {
    hide M2Catalog, OfferedWorkers, ForAgent, Accepted, Targets, Before, ToolRegistry, ValidAgent, ProfilesFor,
         ValidResolution;
    var resolver := Resolver(M2Catalog(tools, agents).value, agents);
    var offered := OfferedWorkers(resolver, roles);
    CatalogIsDistinct(tools, agents);
    DefaultTargetsExactly(resolver, roles);
    if |offered| <= MAX_RESOLVED_CAPABILITIES {
      var workers := ViewsOf(offered);
      forall i | 0 <= i < |workers|
        ensures workers[i].kind.AgentKind? && ForAgent(resolver, roles, workers[i].id, []).Ok?
        ensures ValidProfile(Profile(workers[i], ForAgent(resolver, roles, workers[i].id, []).value))
      {
        assert offered[i] in offered;
        OfferedWorkerResolves(tools, agents, roles, offered[i]);
      }
      ProfilesOfOffered(resolver, roles, workers);
    }
  }
}
