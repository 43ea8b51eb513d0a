/** Capability definitions and their validators (app/capabilities/contracts.py), the
    catalog (app/capabilities/catalog.py) and its sorting by identifier. */
module Capabilities {
  import opened Options
  import opened Strings

  datatype Kind = ToolKind | SkillKind | AgentKind | RuntimeKind
  datatype Status = Declared | Available

  /** `CapabilityDefinition`; `publicView` stands for the version, description, parameters
      and flags that are only passed on. */
  datatype Definition = Definition(
    id: string, kind: Kind, status: Status, allowedRoles: set<string>, allowedAgentIds: set<string>, publicView: string)

  /** `AgentDefinition`. */
  datatype Agent = Agent(id: string, toolIds: seq<string>, status: Status, publicView: string)

  /** `validate_definition_shape` with the bounds of the fields. */
  predicate ValidDefinition(d: Definition) {
    && 1 <= |d.allowedRoles| <= 3 && |d.allowedAgentIds| <= 8
    && (d.kind.ToolKind? ==> d.allowedAgentIds != {})
    && (d.kind.AgentKind? ==> d.allowedAgentIds == {})
  }

  /** `AgentDefinition.validate_unique_lists` with the bounds of the fields. */
  predicate ValidAgent(a: Agent) { 1 <= |a.toolIds| <= 5 && Distinct(a.toolIds) }

  // ----- The order of identifiers

  lemma {:induction false} BeforeIsTotal(a: string, b: string)
    ensures a != b <==> Before(a, b) || Before(b, a)
    ensures !(Before(a, b) && Before(b, a))
    decreases |a|
  {
    if a != "" && b != "" {
      BeforeIsTotal(a[1..], b[1..]);
      if a[1..] == b[1..] && a[0] == b[0] {
        assert a == [a[0]] + a[1..] && b == [b[0]] + b[1..];
      }
    }
  }

  lemma {:induction false} BeforeIsTransitive(a: string, b: string, c: string)
    requires Before(a, b) && Before(b, c)
    ensures Before(a, c)
    decreases |a|
  {
    if a != "" && a[0] == b[0] == c[0] {
      BeforeIsTransitive(a[1..], b[1..], c[1..]);
    }
  }

  predicate DistinctIds(definitions: seq<Definition>) {
    forall i, j :: 0 <= i < j < |definitions| ==> definitions[i].id != definitions[j].id
  }

  /** Ascending without repetition. */
  predicate Ascending(definitions: seq<Definition>) {
    forall i, j :: 0 <= i < j < |definitions| ==> Before(definitions[i].id, definitions[j].id)
  }

  function Insert(d: Definition, sorted: seq<Definition>): seq<Definition> {
    if sorted == [] then [d]
    else if Before(d.id, sorted[0].id) then [d] + sorted
    else [sorted[0]] + Insert(d, sorted[1..])
  }

  /** `sorted` with the identifier as key: stable, ascending. */
  function SortById(definitions: seq<Definition>): seq<Definition> {
    if definitions == [] then []
    else Insert(definitions[|definitions| - 1], SortById(definitions[..|definitions| - 1]))
  }

  lemma {:induction false} InsertKeepsElements(d: Definition, sorted: seq<Definition>)
    ensures multiset(Insert(d, sorted)) == multiset(sorted) + multiset{d}
  {
    if sorted != [] && !Before(d.id, sorted[0].id) {
      InsertKeepsElements(d, sorted[1..]);
      assert sorted == [sorted[0]] + sorted[1..];
    }
  }

  lemma {:induction false} InsertKeepsAscending(d: Definition, sorted: seq<Definition>)
    requires Ascending(sorted) && forall i :: 0 <= i < |sorted| ==> sorted[i].id != d.id
    ensures Ascending(Insert(d, sorted))
  {
    hide Before;
    if sorted != [] {
      var first := sorted[0];
      if Before(d.id, first.id) {
        forall j | 0 <= j < |sorted|
          ensures Before(d.id, sorted[j].id)
        {
          if j > 0 {
            BeforeIsTransitive(d.id, first.id, sorted[j].id);
          }
        }
      } else {
        BeforeIsTotal(d.id, first.id);
        InsertKeepsAscending(d, sorted[1..]);
        InsertKeepsElements(d, sorted[1..]);
        var rest := Insert(d, sorted[1..]);
        forall j | 0 <= j < |rest|
          ensures Before(first.id, rest[j].id)
        {
          assert rest[j] in multiset(rest);
          assert rest[j] == d || rest[j] in sorted[1..];
        }
      }
    }
  }

  lemma {:induction false} SortKeepsElements(definitions: seq<Definition>)
    ensures multiset(SortById(definitions)) == multiset(definitions)
    ensures |SortById(definitions)| == |definitions|
    ensures forall d :: d in SortById(definitions) <==> d in definitions
  {
    hide Insert;
    if definitions != [] {
      var n := |definitions| - 1;
      SortKeepsElements(definitions[..n]);
      InsertKeepsElements(definitions[n], SortById(definitions[..n]));
      assert definitions == definitions[..n] + [definitions[n]];
    }
    assert |multiset(SortById(definitions))| == |SortById(definitions)| && |multiset(definitions)| == |definitions|;
    forall d
      ensures d in SortById(definitions) <==> d in definitions
    {
      assert d in SortById(definitions) <==> d in multiset(SortById(definitions));
    }
  }

  lemma {:induction false} SortIsAscending(definitions: seq<Definition>)
    requires DistinctIds(definitions)
    ensures Ascending(SortById(definitions))
  {
    hide Insert, Before;
    if definitions != [] {
      var n := |definitions| - 1;
      SortIsAscending(definitions[..n]);
      SortKeepsElements(definitions[..n]);
      var sorted := SortById(definitions[..n]);
      forall i | 0 <= i < |sorted|
        ensures sorted[i].id != definitions[n].id
      {
        assert sorted[i] in definitions[..n];
      }
      InsertKeepsAscending(definitions[n], sorted);
    }
  }

  // ----- The catalog

  datatype CatalogError = DuplicateRegistration | UnknownTool | InvalidDefinition

  /** `CapabilityCatalog.__init__`: the snapshot keeps the definitions in their order. */
  method CreateCatalog(definitions: seq<Definition>) returns (catalog: Result<seq<Definition>, CatalogError>)
    ensures catalog == if DistinctIds(definitions) then Ok(definitions) else Err(DuplicateRegistration)
  {
    var byId: seq<Definition> := [];
    for i := 0 to |definitions|
      invariant byId == definitions[..i] && DistinctIds(byId)
    {
      if Lookup(byId, definitions[i].id).Some? {
        var first := Lookup(byId, definitions[i].id).value;
        assert exists j :: 0 <= j < i && definitions[j] == first;
        return Err(DuplicateRegistration);
      }
      forall j | 0 <= j < i
        ensures definitions[j].id != definitions[i].id
      {
        assert definitions[j] in byId;
      }
      byId := byId + [definitions[i]];
    }
    assert definitions[..|definitions|] == definitions;
    return Ok(byId);
  }

  /** `CapabilityCatalog.get`. */
  function Lookup(catalog: seq<Definition>, id: string): (found: Option<Definition>)
    ensures found.Some? ==> found.value in catalog && found.value.id == id
    ensures found.None? ==> forall d :: d in catalog ==> d.id != id
  {
    if catalog == [] then None
    else if catalog[0].id == id then Some(catalog[0])
    else Lookup(catalog[1..], id)
  }

  lemma LookupIsUnique(catalog: seq<Definition>, d: Definition)
    requires DistinctIds(catalog) && d in catalog
    ensures Lookup(catalog, d.id) == Some(d)
  {
  }

  /** The role sets of the tools, intersected. */
  function CommonRoles(roleSets: seq<set<string>>): (common: set<string>)
    requires roleSets != []
    ensures forall role :: role in common <==> forall i :: 0 <= i < |roleSets| ==> role in roleSets[i]
  {
    if |roleSets| == 1 then roleSets[0] else roleSets[0] * CommonRoles(roleSets[1..])
  }

  /** The roles of each tool of the agent; None on a `KeyError`. */
  function ToolRoles(tools: seq<Definition>, ids: seq<string>): (roleSets: Option<seq<set<string>>>)
    ensures roleSets.Some? ==>
              && |roleSets.value| == |ids|
              && forall i :: 0 <= i < |ids| ==>
                   Lookup(tools, ids[i]).Some? && roleSets.value[i] == Lookup(tools, ids[i]).value.allowedRoles
    ensures roleSets.None? ==> exists i :: 0 <= i < |ids| && Lookup(tools, ids[i]).None?
  {
    if ids == [] then Some([])
    else
      match Lookup(tools, ids[0])
      case None => None
      case Some(tool) =>
        match ToolRoles(tools, ids[1..])
        case None => None
        case Some(rest) => Some([tool.allowedRoles] + rest)
  }

  /** `_agent_capability`: a worker is allowed the roles that all its tools allow. */
  function AgentCapability(agent: Agent, tools: seq<Definition>): Result<Definition, CatalogError> {
    match ToolRoles(tools, agent.toolIds)
    case None => Err(UnknownTool)
    case Some(roleSets) =>
      if roleSets == [] then Err(InvalidDefinition)
      else
        var d := Definition(agent.id, AgentKind, agent.status, CommonRoles(roleSets), {}, agent.publicView);
        if ValidDefinition(d) then Ok(d) else Err(InvalidDefinition)
  }

  function AgentCapabilities(agents: seq<Agent>,
                             tools: seq<Definition>): (capabilities: Result<seq<Definition>, CatalogError>)
    ensures capabilities.Ok? ==>
              && |capabilities.value| == |agents|
              && forall i :: 0 <= i < |agents| ==> AgentCapability(agents[i], tools) == Ok(capabilities.value[i])
  {
    if agents == [] then Ok([])
    else
      match AgentCapability(agents[0], tools)
      case Err(e) => Err(e)
      case Ok(d) =>
        match AgentCapabilities(agents[1..], tools)
        case Err(e) => Err(e)
        case Ok(rest) => Ok([d] + rest)
  }

  ghost predicate Known(tools: seq<Definition>, id: string) {
    exists d :: d in tools && d.id == id
  }

  /** Every tool of the agent is one of `tools`. */
  ghost predicate Equipped(tools: seq<Definition>, agent: Agent) {
    forall i :: 0 <= i < |agent.toolIds| ==> Known(tools, agent.toolIds[i])
  }

  /** The roles that every tool of the agent allows. */
  ghost predicate SharedRole(tools: seq<Definition>, agent: Agent, role: string) {
    forall d :: d in tools && d.id in agent.toolIds ==> role in d.allowedRoles
  }

  /** `d` is the capability of the agent: allowed the one to three roles that all its tools allow. */
  ghost predicate WorkerOf(tools: seq<Definition>, agent: Agent, d: Definition) {
    && d.id == agent.id && d.kind.AgentKind? && d.status == agent.status && d.publicView == agent.publicView
    && d.allowedAgentIds == {} && 1 <= |d.allowedRoles| <= 3
    && forall role :: role in d.allowedRoles <==> SharedRole(tools, agent, role)
  }

  /** The agent owns a tool, has only known ones, and they share between one and three roles. */
  ghost predicate CanServe(tools: seq<Definition>, agent: Agent) {
    agent.toolIds != [] && Equipped(tools, agent) && exists d :: WorkerOf(tools, agent, d)
  }

  lemma SharedRolesAreCommon(tools: seq<Definition>, agent: Agent, role: string)
    requires DistinctIds(tools) && agent.toolIds != [] && ToolRoles(tools, agent.toolIds).Some?
    ensures role in CommonRoles(ToolRoles(tools, agent.toolIds).value) <==> SharedRole(tools, agent, role)
  {
    hide ToolRoles, CommonRoles, Lookup, DistinctIds;
    var roleSets := ToolRoles(tools, agent.toolIds).value;
    if role in CommonRoles(roleSets) {
      forall d | d in tools && d.id in agent.toolIds
        ensures role in d.allowedRoles
      {
        LookupIsUnique(tools, d);
      }
    }
  }

  lemma EquippedExactly(tools: seq<Definition>, agent: Agent)
    ensures ToolRoles(tools, agent.toolIds).Some? <==> Equipped(tools, agent)
  {
    hide ToolRoles, Known;
    forall i | 0 <= i < |agent.toolIds|
      ensures Lookup(tools, agent.toolIds[i]).Some? <==> Known(tools, agent.toolIds[i])
    {
      KnownExactly(tools, agent.toolIds[i]);
    }
  }

  lemma KnownExactly(tools: seq<Definition>, id: string)
    ensures Lookup(tools, id).Some? <==> Known(tools, id)
  {
  }

  /** Which agents have a capability, and which one it is. */
  lemma WorkerExactly(tools: seq<Definition>, agent: Agent, d: Definition)
    requires DistinctIds(tools)
    ensures AgentCapability(agent, tools) == Ok(d) <==>
              agent.toolIds != [] && Equipped(tools, agent) && WorkerOf(tools, agent, d)
  {
    hide ToolRoles, CommonRoles, Lookup, DistinctIds, Equipped, SharedRole;
    EquippedExactly(tools, agent);
    if agent.toolIds != [] && Equipped(tools, agent) {
      var common := CommonRoles(ToolRoles(tools, agent.toolIds).value);
      forall role
        ensures role in common <==> SharedRole(tools, agent, role)
      {
        SharedRolesAreCommon(tools, agent, role);
      }
      if WorkerOf(tools, agent, d) {
        assert d.allowedRoles == common;
      }
    }
  }

  lemma {:induction false} WorkersExactly(tools: seq<Definition>, agents: seq<Agent>)
    requires DistinctIds(tools)
    ensures AgentCapabilities(agents, tools).Ok? <==> forall i :: 0 <= i < |agents| ==> CanServe(tools, agents[i])
  {
    hide AgentCapability, Equipped, WorkerOf, DistinctIds;
    if agents != [] {
      WorkersExactly(tools, agents[1..]);
      if AgentCapability(agents[0], tools).Ok? {
        WorkerExactly(tools, agents[0], AgentCapability(agents[0], tools).value);
      } else if CanServe(tools, agents[0]) {
        var d :| WorkerOf(tools, agents[0], d);
        WorkerExactly(tools, agents[0], d);
      }
    }
  }

  /** No identifier is registered twice, by a tool or by an agent. */
  ghost predicate Unambiguous(tools: seq<Definition>, agents: seq<Agent>) {
    && DistinctIds(tools)
    && (forall i, j :: 0 <= i < j < |agents| ==> agents[i].id != agents[j].id)
    && forall d, a :: d in tools && a in agents ==> d.id != a.id
  }

  /** The catalog lists the tools and then one worker for each agent. */
  ghost predicate ListsWorkers(tools: seq<Definition>, agents: seq<Agent>, catalog: seq<Definition>) {
    && |catalog| == |tools| + |agents| && catalog[..|tools|] == tools
    && forall i :: 0 <= i < |agents| ==> WorkerOf(tools, agents[i], catalog[|tools| + i])
  }

  lemma UnambiguousExactly(tools: seq<Definition>, agents: seq<Agent>, workers: seq<Definition>)
    requires |workers| == |agents| && forall i :: 0 <= i < |agents| ==> workers[i].id == agents[i].id
    ensures DistinctIds(tools + workers) <==> Unambiguous(tools, agents)
  {
    var all := tools + workers;
    if DistinctIds(all) {
      assert forall i :: 0 <= i < |tools| ==> tools[i] == all[i];
      assert forall i :: 0 <= i < |agents| ==> agents[i].id == all[|tools| + i].id;
    }
    if Unambiguous(tools, agents) {
      forall i, j | 0 <= i < j < |all|
        ensures all[i].id != all[j].id
      {
        if i < |tools| <= j {
          assert tools[i] in tools && agents[j - |tools|] in agents;
        }
      }
    }
  }

  /** Main result: the catalog exists exactly when no identifier is registered twice and every
      agent has tools, all known, that share between one and three roles; and what it lists. */
  lemma M2CatalogExactly(tools: seq<Definition>, agents: seq<Agent>)
    ensures M2Catalog(tools, agents).Ok? <==>
              Unambiguous(tools, agents) && forall i :: 0 <= i < |agents| ==> CanServe(tools, agents[i])
    ensures M2Catalog(tools, agents).Ok? ==> ListsWorkers(tools, agents, M2Catalog(tools, agents).value)
  {
    hide AgentCapability, Equipped, WorkerOf, CanServe;
    var capabilities := AgentCapabilities(agents, tools);
    if capabilities.Ok? {
      forall i | 0 <= i < |agents|
        ensures capabilities.value[i].id == agents[i].id
      {
        CapabilityKeepsId(agents[i], tools);
      }
      UnambiguousExactly(tools, agents, capabilities.value);
    }
    if DistinctIds(tools) {
      WorkersExactly(tools, agents);
      if capabilities.Ok? {
        forall i | 0 <= i < |agents|
          ensures WorkerOf(tools, agents[i], capabilities.value[i])
        {
          WorkerExactly(tools, agents[i], capabilities.value[i]);
        }
      }
    }
  }

  lemma CapabilityKeepsId(agent: Agent, tools: seq<Definition>)
    ensures AgentCapability(agent, tools).Ok? ==> AgentCapability(agent, tools).value.id == agent.id
  {
  }

  /** What `create_m2_capability_catalog` does with any tools and agents. */
  method CreateM2Catalog(tools: seq<Definition>, agents: seq<Agent>)
    returns (catalog: Result<seq<Definition>, CatalogError>)
    ensures catalog == M2Catalog(tools, agents)
    ensures catalog.Ok? <==> Unambiguous(tools, agents) && forall i :: 0 <= i < |agents| ==> CanServe(tools, agents[i])
    ensures catalog.Ok? ==> ListsWorkers(tools, agents, catalog.value)
  {
    var capabilities := AgentCapabilities(agents, tools);
    match capabilities {
      case Err(e) => catalog := Err(e);
      case Ok(workers) => catalog := CreateCatalog(tools + workers);
    }
    M2CatalogExactly(tools, agents);
  }

  function M2Catalog(tools: seq<Definition>, agents: seq<Agent>): Result<seq<Definition>, CatalogError> {
    match AgentCapabilities(agents, tools)
    case Err(e) => Err(e)
    case Ok(workers) => if DistinctIds(tools + workers) then Ok(tools + workers) else Err(DuplicateRegistration)
  }
}
