/** Registries with one tool per worker, at the limits on resolved capabilities
    (app/capabilities/contracts.py) and on workers (app/agents/supervisor.py). */
module WorkerLimits {
  import opened Capabilities
  import opened CapabilityResolver
  import opened Options
  import opened Strings

  const SCOUT := "product_scout"
  const OPERATOR := "amazon_operator"

  function WorkerId(i: nat): string
    requires i < 26
  {
    [('a' as int + i) as char]
  }

  /** The tool that only worker `i` owns; the first twelve are for scouts, the others for operators. */
  function Tool(i: nat): Definition
    requires i < 26
  {
    Definition("t-" + WorkerId(i), ToolKind, Available, {if i < 12 then SCOUT else OPERATOR}, {WorkerId(i)}, "")
  }

  function Worker(i: nat): Agent
    requires i < 26
  {
    Agent(WorkerId(i), [Tool(i).id], Available, "")
  }

  /** What `_agent_capability` makes of the worker. */
  function Capability(i: nat): Definition
    requires i < 26
  {
    Definition(WorkerId(i), AgentKind, Available, Tool(i).allowedRoles, {}, "")
  }

  function Tools(n: nat): seq<Definition>
    requires n <= 26
  {
    seq(n, i requires 0 <= i < n => Tool(i))
  }

  function Workers(n: nat): seq<Agent>
    requires n <= 26
  {
    seq(n, i requires 0 <= i < n => Worker(i))
  }

  function WorkerCapabilities(n: nat): seq<Definition>
    requires n <= 26
  {
    seq(n, i requires 0 <= i < n => Capability(i))
  }

  function Catalog(n: nat): seq<Definition>
    requires n <= 26
  {
    Tools(n) + WorkerCapabilities(n)
  }

  lemma IdsDiffer(i: nat, j: nat)
    requires i < 26 && j < 26
    ensures WorkerId(i) == WorkerId(j) <==> i == j
    ensures Tool(i).id == Tool(j).id <==> i == j
    ensures Tool(i).id != WorkerId(j)
  {
    assert WorkerId(i)[0] as int - 'a' as int == i && WorkerId(j)[0] as int - 'a' as int == j;
    assert Tool(i).id[2] == WorkerId(i)[0] && Tool(j).id[2] == WorkerId(j)[0];
    assert |Tool(i).id| == 3 && |WorkerId(j)| == 1;
  }

  lemma CatalogIdAt(n: nat, i: nat)
    requires n <= 26 && i < 2 * n
    ensures |Catalog(n)| == 2 * n && Catalog(n)[i].id == if i < n then Tool(i).id else WorkerId(i - n)
  {
  }

  lemma CatalogIsDistinctHere(n: nat)
    requires n <= 26
    ensures DistinctIds(Catalog(n)) && DistinctIds(Tools(n))
  {
    hide WorkerId, Tool;
    forall i, j | 0 <= i < j < 2 * n
      ensures Catalog(n)[i].id != Catalog(n)[j].id
    {
      hide Catalog;
      CatalogIdAt(n, i);
      CatalogIdAt(n, j);
      IdsDiffer(if i < n then i else i - n, if j < n then j else j - n);
    }
    ToolsAreDistinct(n);
  }

  lemma ToolsAreDistinct(n: nat)
    requires n <= 26 && DistinctIds(Catalog(n))
    ensures DistinctIds(Tools(n))
  {
    hide Tool, WorkerId;
    assert forall i :: 0 <= i < n ==> Tools(n)[i] == Catalog(n)[i];
  }

  lemma CapabilityOfWorker(n: nat, i: nat)
    requires n <= 26 && i < n
    ensures AgentCapability(Worker(i), Tools(n)) == Ok(Capability(i))
  {
    hide WorkerId, AgentCapability, DistinctIds;
    CatalogIsDistinctHere(n);
    assert Tools(n)[i] == Tool(i);
    assert Known(Tools(n), Tool(i).id);
    forall d | d in Tools(n) && d.id in Worker(i).toolIds
      ensures d == Tool(i)
    {
      var j :| 0 <= j < n && Tools(n)[j] == d;
      IdsDiffer(i, j);
    }
    forall role
      ensures role in Capability(i).allowedRoles <==> SharedRole(Tools(n), Worker(i), role)
    {
      assert Tool(i) in Tools(n) && Tool(i).id in Worker(i).toolIds;
    }
    WorkerExactly(Tools(n), Worker(i), Capability(i));
  }

  lemma {:induction false} CapabilitiesOfWorkers(tools: seq<Definition>, agents: seq<Agent>, expected: seq<Definition>)
    requires |agents| == |expected|
    requires forall i :: 0 <= i < |agents| ==> AgentCapability(agents[i], tools) == Ok(expected[i])
    ensures AgentCapabilities(agents, tools) == Ok(expected)
  {
    hide AgentCapability;
    if agents != [] {
      CapabilitiesOfWorkers(tools, agents[1..], expected[1..]);
      assert expected == [expected[0]] + expected[1..];
    }
  }

  lemma CatalogOfRegistry(n: nat)
    requires n <= 26
    ensures M2Catalog(Tools(n), Workers(n)) == Ok(Catalog(n))
  {
    hide WorkerId, Tool, Worker, Capability, AgentCapability, DistinctIds;
    CatalogIsDistinctHere(n);
    forall i | 0 <= i < n
      ensures AgentCapability(Workers(n)[i], Tools(n)) == Ok(WorkerCapabilities(n)[i])
    {
      CapabilityOfWorker(n, i);
    }
    CapabilitiesOfWorkers(Tools(n), Workers(n), WorkerCapabilities(n));
  }

  lemma WorkerAgrees(n: nat, i: nat)
    requires n <= 26 && i < n
    ensures Agrees(Catalog(n), Worker(i))
  {
    hide WorkerId, Lookup, DistinctIds;
    CatalogIsDistinctHere(n);
    assert Catalog(n)[i] == Tool(i);
    LookupIsUnique(Catalog(n), Tool(i));
  }

  /** The registry is one that the catalog and the resolver accept. */
  lemma RegistryIsAccepted(n: nat)
    requires n <= 26
    ensures M2Catalog(Tools(n), Workers(n)) == Ok(Catalog(n)) && Accepted(Catalog(n), Workers(n))
    ensures ToolRegistry(Tools(n)) && forall a :: a in Workers(n) ==> ValidAgent(a)
  {
    hide WorkerId, Agrees, M2Catalog, Catalog;
    CatalogOfRegistry(n);
    forall i | 0 <= i < n
      ensures Agrees(Catalog(n), Workers(n)[i])
    {
      WorkerAgrees(n, i);
    }
    forall i, j | 0 <= i < j < n
      ensures Workers(n)[i].id != Workers(n)[j].id
    {
      IdsDiffer(i, j);
    }
  }

  /** A scout is offered the first twelve workers, a scout who is an operator too all of them. */
  predicate OfferedAs(n: nat, m: nat, roles: set<string>) {
    || (roles == {SCOUT} && m == (if n < 12 then n else 12))
    || (roles == {SCOUT, OPERATOR} && m == n)
  }

  /** How many workers are offered to scouts, and to scouts who are operators too. */
  lemma OfferedNumber(n: nat, m: nat, roles: set<string>)
    requires m <= n <= 26 && OfferedAs(n, m, roles)
    ensures |OfferedWorkers(Resolver(Catalog(n), Workers(n)), roles)| == m
  {
    hide WorkerId, OfferedWorkers, DistinctIds;
    var resolver := Resolver(Catalog(n), Workers(n));
    CatalogIsDistinctHere(n);
    DefaultTargetsExactly(resolver, roles);
    var offered, expected := OfferedWorkers(resolver, roles), WorkerCapabilities(n)[..m];
    AscendingAreDistinct(offered);
    ScoutIsNoOperator();
    forall d
      ensures d in offered <==> d in expected
    {
      OfferedHere(n, m, roles, d);
    }
    forall i, j | 0 <= i < j < m
      ensures expected[i] != expected[j]
    {
      IdsDiffer(i, j);
    }
    DistinctIdsDiffer(offered);
    DistinctFit(offered, expected);
    DistinctFit(expected, offered);
  }

  lemma ScoutIsNoOperator()
    ensures SCOUT != OPERATOR
  {
    assert SCOUT[0] != OPERATOR[0];
  }

  lemma DistinctIdsDiffer(definitions: seq<Definition>)
    requires DistinctIds(definitions)
    ensures Distinct(definitions)
  {
  }

  lemma OneIsOffered(n: nat, m: nat, roles: set<string>, i: nat)
    requires m <= n <= 26 && OfferedAs(n, m, roles) && i < n
    ensures Offered(roles, Capability(i)) <==> i < m
    ensures !Offered(roles, Tool(i))
  {
    hide WorkerId;
    ScoutIsNoOperator();
    var role := if i < 12 then SCOUT else OPERATOR;
    assert Capability(i).allowedRoles == {role};
    if i < m {
      assert role in Capability(i).allowedRoles * roles;
    }
  }

  lemma OfferedHere(n: nat, m: nat, roles: set<string>, d: Definition)
    requires m <= n <= 26 && OfferedAs(n, m, roles)
    ensures d in Catalog(n) && Offered(roles, d) <==> d in WorkerCapabilities(n)[..m]
  {
    hide Offered, OfferedAs, Capability, Tool;
    if d in Catalog(n) && Offered(roles, d) {
      var i :| 0 <= i < 2 * n && Catalog(n)[i] == d;
      OneIsOffered(n, m, roles, if i < n then i else i - n);
      assert WorkerCapabilities(n)[..m][i - n] == d;
    }
    if d in WorkerCapabilities(n)[..m] {
      var i :| 0 <= i < m && WorkerCapabilities(n)[i] == d;
      OneIsOffered(n, m, roles, i);
      assert Catalog(n)[n + i] == d;
    }
  }

  /** Twelve workers are resolved for scouts; a scout who becomes an operator as well is offered a
      thirteenth, and resolving raises. */
  lemma AddedRoleCanLoseAllTargets()
    ensures var resolver := Resolver(Catalog(13), Workers(13));
            && Targets(resolver, {SCOUT}, []).Ok? && |Targets(resolver, {SCOUT}, []).value.capabilities| == 12
            && Targets(resolver, {SCOUT, OPERATOR}, []) == Err(InvalidResolution)
  {
    hide Targets, OfferedWorkers, Catalog, Workers;
    CatalogIsDistinctHere(13);
    OfferedNumber(13, 12, {SCOUT});
    OfferedNumber(13, 13, {SCOUT, OPERATOR});
    DefaultTargetsExactly(Resolver(Catalog(13), Workers(13)), {SCOUT});
    DefaultTargetsExactly(Resolver(Catalog(13), Workers(13)), {SCOUT, OPERATOR});
  }

  /** With thirteen workers the profiles cannot be built; with nine they can, and the Supervisor refuses them. */
  lemma LimitsCanBeExceeded()
    ensures WorkerProfiles(Resolver(Catalog(13), Workers(13)), {SCOUT, OPERATOR}).Err?
    ensures var r := WorkerProfiles(Resolver(Catalog(9), Workers(9)), {SCOUT});
            r.Ok? && !SupervisorAccepts(r.value)
  {
    hide WorkerProfiles, OfferedWorkers, Catalog, Workers, Tools, M2Catalog, Accepted, ToolRegistry, SupervisorAccepts;
    RegistryIsAccepted(13);
    OfferedNumber(13, 13, {SCOUT, OPERATOR});
    ProfilesExactly(Tools(13), Workers(13), {SCOUT, OPERATOR});
    RegistryIsAccepted(9);
    OfferedNumber(9, 9, {SCOUT});
    ProfilesExactly(Tools(9), Workers(9), {SCOUT});
  }
}
