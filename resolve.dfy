/**
 * The resolveConfigurationGroups task's computation: the worklist walk over a
 * configuration's resolution result, and the loop that feeds every module it
 * finds into a DependencyGroups object. Gradle's resolution result is an
 * abstract finite graph here: edges (dependency results) point at components.
 */
module Resolution {
  import opened Exceptions
  import opened Ordered
  import opened Sources
  import opened Coordinates
  import opened GroupStore
  import opened GroupMerge
  import opened Groups

  /** A dependency result: resolved to a component, or unresolved (with its toString()). */
  datatype Edge = Resolved(selected: nat) | Unresolved(description: string)

  /**
   * A resolved component: whether its id is a ModuleComponentIdentifier, its
   * module version, and its outgoing dependency results in iteration order.
   */
  datatype Component = Component(isModule: bool, moduleVersion: ModuleVersion, dependencies: seq<nat>)

  /** A resolution result: components and edges by identity. */
  datatype Graph = Graph(components: map<nat, Component>, edges: map<nat, Edge>)

  /** Every edge a component lists exists, and every resolved edge selects an existing component. */
  ghost predicate ValidGraph(g: Graph)
  {
    && (forall c | c in g.components :: forall e | e in g.components[c].dependencies :: e in g.edges)
    && (forall e | e in g.edges && g.edges[e].Resolved? :: g.edges[e].selected in g.components)
  }

  /** The dependency results of the component a resolved edge selects. */
  function Next(g: Graph, e: nat): (r: seq<nat>)
    requires ValidGraph(g) && e in g.edges && g.edges[e].Resolved?
    ensures forall d | d in r :: d in g.edges
  {
    g.components[g.edges[e].selected].dependencies
  }

  /** The message of the exception thrown for an unresolved dependency. */
  function UnresolvedMessage(description: string): string
  {
    "Unresolved dependency, can't apply forbidden APIs: " + description
  }

  /**
   * A set of edges closed under the walk from roots: it holds the roots, and
   * with every resolved edge it holds the dependencies of the selected component.
   */
  ghost predicate Closed(g: Graph, roots: seq<nat>, s: set<nat>)
    requires ValidGraph(g)
  {
    && (forall e | e in roots :: e in s)
    && (forall e | e in s && e in g.edges && g.edges[e].Resolved? :: forall d | d in Next(g, e) :: d in s)
  }

  /** Reachable from roots through resolved edges: in every closed set. */
  ghost predicate Reachable(g: Graph, roots: seq<nat>, e: nat)
    requires ValidGraph(g)
  {
    forall s: set<nat> | Closed(g, roots, s) :: e in s
  }

  /**
   * The worklist loop as a function: queue is the ArrayDeque, visited the
   * HashSet of resolved edges. An edge is expanded only the first time it is
   * added, which bounds the walk even on a cyclic graph.
   */
  function Walk(g: Graph, queue: seq<nat>, visited: set<nat>): (r: Result<set<nat>>)
    requires ValidGraph(g)
    requires (forall e | e in queue :: e in g.edges) && visited <= g.edges.Keys
    ensures r.Success? ==> visited <= r.value <= g.edges.Keys
    decreases g.edges.Keys - visited, |queue|
  {
    if queue == [] then Success(visited)
    else
      var dep := queue[0];
      match g.edges[dep]
      case Unresolved(description) => Failure(GradleException(UnresolvedMessage(description)))
      case Resolved(_) =>
        if dep in visited then Walk(g, queue[1..], visited)
        else Walk(g, queue[1..] + Next(g, dep), visited + {dep})
  }

  /**
   * What the worklist keeps true: everything queued or visited is reachable,
   * every root is queued or visited, and every visited edge is resolved with its
   * dependencies queued or visited.
   */
  ghost predicate Frontier(g: Graph, roots: seq<nat>, queue: seq<nat>, visited: set<nat>)
    requires ValidGraph(g) && visited <= g.edges.Keys
  {
    && (forall e | e in visited :: Reachable(g, roots, e))
    && (forall e | e in queue :: Reachable(g, roots, e))
    && (forall e | e in roots :: e in visited || e in queue)
    && (forall e | e in visited :: g.edges[e].Resolved? && forall d | d in Next(g, e) :: d in visited || d in queue)
  }

  /** A dependency of a reachable resolved edge is reachable. */
  lemma ReachableStep(g: Graph, roots: seq<nat>, e: nat, d: nat)
    requires ValidGraph(g) && e in g.edges && g.edges[e].Resolved? && Reachable(g, roots, e) && d in Next(g, e)
    ensures Reachable(g, roots, d)
  {
    forall s: set<nat> | Closed(g, roots, s)
      ensures d in s
    {
      assert e in s;
    }
  }

  /** When the queue is empty, the visited set is closed, so it holds every reachable edge. */
  lemma FrontierDrained(g: Graph, roots: seq<nat>, visited: set<nat>)
    requires ValidGraph(g) && visited <= g.edges.Keys && Frontier(g, roots, [], visited)
    ensures forall e :: e in visited <==> Reachable(g, roots, e)
  {
    assert Closed(g, roots, visited);
  }

  /**
   * From a state the loop can be in, the walk succeeds with exactly the
   * reachable edges, all resolved, or fails naming a reachable unresolved edge.
   */
  lemma WalkMeaning(g: Graph, roots: seq<nat>, queue: seq<nat>, visited: set<nat>)
    requires ValidGraph(g) && (forall e | e in queue :: e in g.edges) && visited <= g.edges.Keys
    requires Frontier(g, roots, queue, visited)
    ensures var r := Walk(g, queue, visited);
      r.Success? ==> (forall e :: e in r.value <==> Reachable(g, roots, e))
                     && forall e | e in r.value :: g.edges[e].Resolved?
    ensures var r := Walk(g, queue, visited);
      r.Failure? ==> exists e | e in g.edges && Reachable(g, roots, e) && g.edges[e].Unresolved? ::
                       r.error == GradleException(UnresolvedMessage(g.edges[e].description))
    decreases g.edges.Keys - visited, |queue|
  {
    if queue == [] {
      FrontierDrained(g, roots, visited);
    } else {
      var dep := queue[0];
      assert forall e | e in queue :: e == dep || e in queue[1..];
      if g.edges[dep].Resolved? {
        if dep in visited {
          WalkMeaning(g, roots, queue[1..], visited);
        } else {
          var queue', visited' := queue[1..] + Next(g, dep), visited + {dep};
          forall d | d in Next(g, dep)
            ensures Reachable(g, roots, d)
          {
            ReachableStep(g, roots, dep, d);
          }
          assert Frontier(g, roots, queue', visited');
          WalkMeaning(g, roots, queue', visited');
        }
      }
    }
  }

  /** The roots of the walk: the dependency results of the root component. */
  function Roots(g: Graph, root: nat): (r: seq<nat>)
    requires ValidGraph(g) && root in g.components
    ensures forall e | e in r :: e in g.edges
  {
    g.components[root].dependencies
  }

  /** An edge whose selected component has a ModuleComponentIdentifier. */
  predicate IsModuleEdge(g: Graph, e: nat)
  {
    e in g.edges && g.edges[e].Resolved? && g.edges[e].selected in g.components
    && g.components[g.edges[e].selected].isModule
  }

  /** getSelected().getModuleVersion() of a module edge. */
  function ModuleOf(g: Graph, e: nat): ModuleVersion
    requires IsModuleEdge(g, e)
  {
    g.components[g.edges[e].selected].moduleVersion
  }

  /** The module versions the filter and map steps produce from a set of edges. */
  ghost function ModulesOf(g: Graph, edges: set<nat>): set<ModuleVersion>
  {
    set e | e in edges && IsModuleEdge(g, e) :: ModuleOf(g, e)
  }

  /** The TreeSet comparator: group, then name, then version. */
  function VersionKey(m: ModuleVersion): seq<string>
  {
    [m.group, m.name, m.version]
  }

  /** The comparator treats two module versions as equal only when they are equal. */
  lemma VersionKeyInjective(a: ModuleVersion, b: ModuleVersion)
    requires VersionKey(a) == VersionKey(b)
    ensures a == b
  {
    assert VersionKey(a)[0] == VersionKey(b)[0];
    assert VersionKey(a)[1] == VersionKey(b)[1];
    assert VersionKey(a)[2] == VersionKey(b)[2];
  }

  /** A set of module versions as a TreeSet: ascending in comparator order. */
  ghost function SortedModules(m: set<ModuleVersion>): (r: seq<ModuleVersion>)
    ensures SortedBy(r, VersionKey)
    ensures forall x :: x in r <==> x in m
    decreases m
  {
    if m == {} then []
    else
      var x :| x in m;
      var rest := SortedModules(m - {x});
      assert !HasKey(rest, x, VersionKey);
      Add(rest, x, VersionKey)
  }

  /**
   * collectAllResolved(graphRoot): the walk from the root's dependencies, then
   * the module versions of the module components it reached, sorted.
   */
  ghost function CollectAllResolved(g: Graph, root: nat): Result<seq<ModuleVersion>>
    requires ValidGraph(g) && root in g.components
  {
    match Walk(g, Roots(g, root), {})
    case Failure(e) => Failure(e)
    case Success(all) => Success(SortedModules(ModulesOf(g, all)))
  }

  /**
   * collectAllResolved fails exactly when an unresolved edge is reachable from
   * the root, and then names one; otherwise it returns, ascending and without
   * repeats, the module versions of exactly the module components reachable
   * through resolved edges.
   */
  lemma CollectAllResolvedMeaning(g: Graph, root: nat)
    requires ValidGraph(g) && root in g.components
    ensures var r := CollectAllResolved(g, root);
      r.Failure? <==> exists e | e in g.edges :: Reachable(g, Roots(g, root), e) && g.edges[e].Unresolved?
    ensures var r := CollectAllResolved(g, root);
      r.Failure? ==> exists e | e in g.edges && Reachable(g, Roots(g, root), e) && g.edges[e].Unresolved? ::
                       r.error == GradleException(UnresolvedMessage(g.edges[e].description))
    ensures var r := CollectAllResolved(g, root);
      r.Success? ==> SortedBy(r.value, VersionKey)
                     && forall m :: m in r.value <==>
                          exists e | IsModuleEdge(g, e) :: Reachable(g, Roots(g, root), e) && ModuleOf(g, e) == m
  {
    var roots := Roots(g, root);
    forall e | e in roots
      ensures Reachable(g, roots, e)
    {
    }
    WalkMeaning(g, roots, roots, {});
  }

  /**
   * collectAllResolved: the ArrayDeque worklist with the HashSet of resolved
   * edges, then the stream of the module edges' versions into a TreeSet.
   */
  method CollectAllResolvedOf(g: Graph, root: nat) returns (r: Result<seq<ModuleVersion>>)
    requires ValidGraph(g) && root in g.components
    ensures r == CollectAllResolved(g, root)
  {
    var queue := g.components[root].dependencies;
    var allResolved: set<nat> := {};
    while queue != []
      invariant (forall e | e in queue :: e in g.edges) && allResolved <= g.edges.Keys
      invariant Walk(g, queue, allResolved) == Walk(g, Roots(g, root), {})
      decreases g.edges.Keys - allResolved, |queue|
    {
      var dep := queue[0];
      match g.edges[dep]
      case Unresolved(description) =>
        return Failure(GradleException(UnresolvedMessage(description)));
      case Resolved(selected) =>
        queue := queue[1..];
        if dep !in allResolved {
          allResolved := allResolved + {dep};
          queue := queue + g.components[selected].dependencies;
        }
    }
    var result := CollectModules(g, allResolved);
    r := Success(result);
  }

  /** allResolved.stream().filter(module).map(getModuleVersion).collect(TreeSet). */
  method CollectModules(g: Graph, allResolved: set<nat>) returns (result: seq<ModuleVersion>)
    ensures result == SortedModules(ModulesOf(g, allResolved))
  {
    result := [];
    var rest := allResolved;
    while rest != {}
      invariant rest <= allResolved && SortedBy(result, VersionKey)
      invariant forall m :: m in result <==> m in ModulesOf(g, allResolved - rest)
      decreases rest
    {
      var e :| e in rest;
      if IsModuleEdge(g, e) {
        var m := ModuleOf(g, e);
        if HasKey(result, m, VersionKey) {
          var i :| 0 <= i < |result| && VersionKey(result[i]) == VersionKey(m);
          VersionKeyInjective(result[i], m);
        }
        result := Add(result, m, VersionKey);
      }
      rest := rest - {e};
    }
    SortedUnique(result, SortedModules(ModulesOf(g, allResolved)), VersionKey);
  }

  /** A configuration group: its name and the names of the configurations it includes. */
  datatype ConfigurationGroup = ConfigurationGroup(name: string, includedConfigurations: set<string>)

  /** A configuration of the project: its name and its resolution result from the root component. */
  datatype Configuration = Configuration(name: string, graph: Graph, root: nat)

  /** What Gradle guarantees of a resolution result. */
  ghost predicate Resolvable(conf: Configuration)
  {
    ValidGraph(conf.graph) && conf.root in conf.graph.components
  }

  /** The records a configuration's modules become: new DependencyInfo(id, List.of(source)), in order. */
  function ModuleItems(groupName: string, modules: seq<ModuleVersion>, source: DependencySource): Items
  {
    seq(|modules|, i requires 0 <= i < |modules| => (groupName, FromModuleVersion(modules[i], [source])))
  }

  /**
   * The forEach over the configurations container for one configuration group:
   * each included configuration's modules are added to the group, one
   * addOrMerge each, with the single source (configuration name, project path).
   */
  ghost function AddConfigurations(st: Store, group: ConfigurationGroup, confs: seq<Configuration>, projectPath: string): (r: Result<Store>)
    requires Wellformed(st) && forall c | c in confs :: Resolvable(c)
    ensures r.Success? ==> Wellformed(r.value)
    decreases |confs|
  {
    if confs == [] then Success(st)
    else if confs[0].name !in group.includedConfigurations then AddConfigurations(st, group, confs[1..], projectPath)
    else
      assert confs[0] in confs && Resolvable(confs[0]);
      match CollectAllResolved(confs[0].graph, confs[0].root)
      case Failure(e) => Failure(e)
      case Success(modules) =>
        match AddAll(st, ModuleItems(group.name, modules, DependencySource(confs[0].name, projectPath)))
        case Failure(e) => Failure(e)
        case Success(next) => AddConfigurations(next, group, confs[1..], projectPath)
  }

  /** The loop over the configuration groups. */
  ghost function AddGroups(st: Store, groups: seq<ConfigurationGroup>, confs: seq<Configuration>, projectPath: string): (r: Result<Store>)
    requires Wellformed(st) && forall c | c in confs :: Resolvable(c)
    ensures r.Success? ==> Wellformed(r.value)
    decreases |groups|
  {
    if groups == [] then Success(st)
    else
      match AddConfigurations(st, groups[0], confs, projectPath)
      case Failure(e) => Failure(e)
      case Success(next) => AddGroups(next, groups[1..], confs, projectPath)
  }

  /** computeDependencyGroups(configurationGroups), from a new DependencyGroups. */
  ghost function ComputeDependencyGroups(groups: seq<ConfigurationGroup>, confs: seq<Configuration>, projectPath: string): (r: Result<Store>)
    requires forall c | c in confs :: Resolvable(c)
    ensures r.Success? ==> Wellformed(r.value)
  {
    AddGroups(Empty, groups, confs, projectPath)
  }

  /** The record under key lists source s. */
  ghost predicate Recorded(st: Store, key: string, s: DependencySource)
  {
    key in st.index && s in st.index[key].sources
  }

  /** addOrMerge adds d's sources under d's key and changes no other record's sources. */
  lemma AddOrMergeRecorded(st: Store, groupName: string, d: DependencyInfo)
    requires Wellformed(st) && AddOrMerge(st, groupName, d).Success?
    ensures forall k, s :: Recorded(AddOrMerge(st, groupName, d).value, k, s) <==>
      Recorded(st, k, s) || (k == LookupKey(groupName, d.Id()) && s in d.sources)
  {
  }

  /** Some item lists source s and has lookup key key. */
  ghost predicate ItemRecords(items: Items, key: string, s: DependencySource)
  {
    exists i | 0 <= i < |items| :: key == LookupKey(items[i].0, items[i].1.Id()) && s in items[i].1.sources
  }

  lemma ItemRecordsCons(items: Items, key: string, s: DependencySource)
    requires items != []
    ensures ItemRecords(items, key, s) <==>
      (key == LookupKey(items[0].0, items[0].1.Id()) && s in items[0].1.sources) || ItemRecords(items[1..], key, s)
  {
    if ItemRecords(items[1..], key, s) {
      var i :| 0 <= i < |items[1..]| && key == LookupKey(items[1..][i].0, items[1..][i].1.Id()) && s in items[1..][i].1.sources;
      assert items[1..][i] == items[i + 1];
    }
    if ItemRecords(items, key, s) {
      var i :| 0 <= i < |items| && key == LookupKey(items[i].0, items[i].1.Id()) && s in items[i].1.sources;
      if i > 0 {
        assert items[1..][i - 1] == items[i];
      }
    }
  }

  /** A run of addOrMerge calls that does not throw records exactly the old sources and the items'. */
  lemma {:induction false} AddAllRecorded(st: Store, items: Items)
    requires Wellformed(st) && AddAll(st, items).Success?
    ensures forall k, s :: Recorded(AddAll(st, items).value, k, s) <==> Recorded(st, k, s) || ItemRecords(items, k, s)
    decreases |items|
  {
    if items != [] {
      AddOrMergeRecorded(st, items[0].0, items[0].1);
      var next := AddOrMerge(st, items[0].0, items[0].1).value;
      AddAllRecorded(next, items[1..]);
      forall k, s
        ensures ItemRecords(items, k, s) <==>
          (k == LookupKey(items[0].0, items[0].1.Id()) && s in items[0].1.sources) || ItemRecords(items[1..], k, s)
      {
        ItemRecordsCons(items, k, s);
      }
    }
  }

  /** The lookup key of a module version's record in a group. */
  function ModuleKey(groupName: string, m: ModuleVersion): string
  {
    LookupKey(groupName, FromModuleVersion(m, []).Id())
  }

  /** The module records of one configuration list its source, under the modules' keys. */
  lemma ModuleItemsRecord(groupName: string, modules: seq<ModuleVersion>, source: DependencySource, key: string, s: DependencySource)
    ensures ItemRecords(ModuleItems(groupName, modules, source), key, s) <==>
      s == source && exists m | m in modules :: key == ModuleKey(groupName, m)
  {
    var items := ModuleItems(groupName, modules, source);
    if s == source && exists m | m in modules :: key == ModuleKey(groupName, m) {
      var m :| m in modules && key == ModuleKey(groupName, m);
      var i :| 0 <= i < |modules| && modules[i] == m;
      assert key == LookupKey(items[i].0, items[i].1.Id()) && s in items[i].1.sources;
    }
    if ItemRecords(items, key, s) {
      var i :| 0 <= i < |items| && key == LookupKey(items[i].0, items[i].1.Id()) && s in items[i].1.sources;
      assert key == ModuleKey(groupName, modules[i]);
    }
  }

  /** Configuration conf gives the records of group the source s under key. */
  ghost predicate Contributed(group: ConfigurationGroup, conf: Configuration, projectPath: string, key: string, s: DependencySource)
  {
    && Resolvable(conf)
    && conf.name in group.includedConfigurations
    && CollectAllResolved(conf.graph, conf.root).Success?
    && s == DependencySource(conf.name, projectPath)
    && exists m | m in CollectAllResolved(conf.graph, conf.root).value :: key == ModuleKey(group.name, m)
  }

  /**
   * One configuration group's pass records exactly the old sources and the
   * included configurations' contributions.
   */
  lemma {:induction false} AddConfigurationsRecorded(st: Store, group: ConfigurationGroup, confs: seq<Configuration>, projectPath: string)
    requires Wellformed(st) && (forall c | c in confs :: Resolvable(c))
    requires AddConfigurations(st, group, confs, projectPath).Success?
    ensures forall k, s :: Recorded(AddConfigurations(st, group, confs, projectPath).value, k, s) <==>
      Recorded(st, k, s) || exists c | c in confs :: Contributed(group, c, projectPath, k, s)
    decreases |confs|
  {
    if confs != [] {
      var conf := confs[0];
      assert conf in confs && Resolvable(conf);
      assert forall c :: c in confs <==> c == conf || c in confs[1..];
      if conf.name !in group.includedConfigurations {
        AddConfigurationsRecorded(st, group, confs[1..], projectPath);
      } else {
        var modules := CollectAllResolved(conf.graph, conf.root).value;
        var source := DependencySource(conf.name, projectPath);
        var items := ModuleItems(group.name, modules, source);
        AddAllRecorded(st, items);
        var next := AddAll(st, items).value;
        AddConfigurationsRecorded(next, group, confs[1..], projectPath);
        forall k, s
          ensures ItemRecords(items, k, s) <==> Contributed(group, conf, projectPath, k, s)
        {
          ModuleItemsRecord(group.name, modules, source, k, s);
        }
      }
    }
  }

  /** The pass over the configuration groups records exactly the old sources and every group's contributions. */
  lemma {:induction false} AddGroupsRecorded(st: Store, groups: seq<ConfigurationGroup>, confs: seq<Configuration>, projectPath: string)
    requires Wellformed(st) && (forall c | c in confs :: Resolvable(c))
    requires AddGroups(st, groups, confs, projectPath).Success?
    ensures forall k, s :: Recorded(AddGroups(st, groups, confs, projectPath).value, k, s) <==>
      Recorded(st, k, s) || exists group, c | group in groups && c in confs :: Contributed(group, c, projectPath, k, s)
    decreases |groups|
  {
    if groups != [] {
      assert forall group :: group in groups <==> group == groups[0] || group in groups[1..];
      AddConfigurationsRecorded(st, groups[0], confs, projectPath);
      var next := AddConfigurations(st, groups[0], confs, projectPath).value;
      AddGroupsRecorded(next, groups[1..], confs, projectPath);
    }
  }

  /**
   * What computeDependencyGroups records: under a group's key for a module,
   * source (configuration, project path) is listed exactly when that
   * configuration is included in the group and its resolution reaches the module.
   */
  lemma ComputeDependencyGroupsRecords(groups: seq<ConfigurationGroup>, confs: seq<Configuration>, projectPath: string)
    requires forall c | c in confs :: Resolvable(c)
    requires ComputeDependencyGroups(groups, confs, projectPath).Success?
    ensures forall k, s :: Recorded(ComputeDependencyGroups(groups, confs, projectPath).value, k, s) <==>
      exists group, c | group in groups && c in confs :: Contributed(group, c, projectPath, k, s)
  {
    AddGroupsRecorded(Empty, groups, confs, projectPath);
  }

  /** A configuration group that includes a configuration with an unresolved reachable edge makes its pass throw. */
  lemma {:induction false} AddConfigurationsFails(st: Store, group: ConfigurationGroup, confs: seq<Configuration>, projectPath: string, bad: Configuration)
    requires Wellformed(st) && (forall c | c in confs :: Resolvable(c))
    requires bad in confs && Resolvable(bad) && bad.name in group.includedConfigurations
    requires CollectAllResolved(bad.graph, bad.root).Failure?
    ensures AddConfigurations(st, group, confs, projectPath).Failure?
    decreases |confs|
  {
    var conf := confs[0];
    assert conf in confs && Resolvable(conf);
    if conf != bad {
      assert bad in confs[1..];
      if conf.name !in group.includedConfigurations {
        AddConfigurationsFails(st, group, confs[1..], projectPath, bad);
      } else if CollectAllResolved(conf.graph, conf.root).Success? {
        var items := ModuleItems(group.name, CollectAllResolved(conf.graph, conf.root).value, DependencySource(conf.name, projectPath));
        if AddAll(st, items).Success? {
          AddConfigurationsFails(AddAll(st, items).value, group, confs[1..], projectPath, bad);
        }
      }
    }
  }

  /** The configuration groups' pass throws once any group includes such a configuration. */
  lemma {:induction false} AddGroupsFails(st: Store, groups: seq<ConfigurationGroup>, confs: seq<Configuration>, projectPath: string, group: ConfigurationGroup, bad: Configuration)
    requires Wellformed(st) && (forall c | c in confs :: Resolvable(c))
    requires group in groups && bad in confs && Resolvable(bad) && bad.name in group.includedConfigurations
    requires CollectAllResolved(bad.graph, bad.root).Failure?
    ensures AddGroups(st, groups, confs, projectPath).Failure?
    decreases |groups|
  {
    if groups[0] == group {
      AddConfigurationsFails(st, group, confs, projectPath, bad);
    } else {
      assert group in groups[1..];
      var r := AddConfigurations(st, groups[0], confs, projectPath);
      if r.Success? {
        AddGroupsFails(r.value, groups[1..], confs, projectPath, group, bad);
      }
    }
  }

  /**
   * computeDependencyGroups throws when a configuration group includes a
   * configuration from whose root an unresolved dependency is reachable.
   */
  lemma ComputeDependencyGroupsFails(groups: seq<ConfigurationGroup>, confs: seq<Configuration>, projectPath: string, group: ConfigurationGroup, bad: Configuration, e: nat)
    requires forall c | c in confs :: Resolvable(c)
    requires group in groups && bad in confs && Resolvable(bad) && bad.name in group.includedConfigurations
    requires e in bad.graph.edges && bad.graph.edges[e].Unresolved? && Reachable(bad.graph, Roots(bad.graph, bad.root), e)
    ensures ComputeDependencyGroups(groups, confs, projectPath).Failure?
  {
    CollectAllResolvedMeaning(bad.graph, bad.root);
    AddGroupsFails(Empty, groups, confs, projectPath, group, bad);
  }

  /** entries.forEach(depInfo -> groups.addOrMerge(groupName, depInfo)), stopping at the first exception. */
  method AddItemsTo(target: DependencyGroups, items: Items) returns (outcome: Outcome)
    requires target.Valid()
    modifies target
    ensures target.Valid()
    ensures outcome.Pass? ==> AddAll(old(target.State()), items) == Success(target.State())
    ensures outcome.Fail? ==> AddAll(old(target.State()), items) == Failure(outcome.error)
  {
    assert items[0..] == items;
    var i := 0;
    while i < |items|
      invariant 0 <= i <= |items| && target.Valid()
      invariant AddAll(old(target.State()), items) == AddAll(target.State(), items[i..])
    {
      assert items[i..][0] == items[i] && items[i..][1..] == items[i + 1..];
      outcome := target.AddOrMerge(items[i].0, items[i].1);
      if outcome.Fail? {
        return;
      }
      i := i + 1;
    }
    assert items[i..] == [];
    outcome := Pass;
  }

  /** configurationsContainer.matching(included).forEach(...) for one configuration group. */
  method AddConfigurationsTo(target: DependencyGroups, group: ConfigurationGroup, confs: seq<Configuration>, projectPath: string)
    returns (outcome: Outcome)
    requires target.Valid() && forall c | c in confs :: Resolvable(c)
    modifies target
    ensures target.Valid()
    ensures outcome.Pass? ==> AddConfigurations(old(target.State()), group, confs, projectPath) == Success(target.State())
    ensures outcome.Fail? ==> AddConfigurations(old(target.State()), group, confs, projectPath) == Failure(outcome.error)
  {
    assert confs[0..] == confs;
    var j := 0;
    while j < |confs|
      invariant 0 <= j <= |confs| && target.Valid()
      invariant AddConfigurations(old(target.State()), group, confs, projectPath)
             == AddConfigurations(target.State(), group, confs[j..], projectPath)
    {
      var conf := confs[j];
      assert confs[j..][0] == conf && confs[j..][1..] == confs[j + 1..];
      assert conf in confs;
      if conf.name in group.includedConfigurations {
        var collected := CollectAllResolvedOf(conf.graph, conf.root);
        if collected.Failure? {
          return Fail(collected.error);
        }
        outcome := AddItemsTo(target, ModuleItems(group.name, collected.value, DependencySource(conf.name, projectPath)));
        if outcome.Fail? {
          return;
        }
      }
      j := j + 1;
    }
    assert confs[j..] == [];
    outcome := Pass;
  }

  /**
   * computeDependencyGroups(configurationGroups): a new DependencyGroups filled
   * group by group, or the first exception thrown.
   */
  method ComputeDependencyGroupsOf(groups: seq<ConfigurationGroup>, confs: seq<Configuration>, projectPath: string)
    returns (r: Result<DependencyGroups>)
    requires forall c | c in confs :: Resolvable(c)
    ensures r.Success? ==> fresh(r.value) && r.value.Valid()
    ensures r.Success? ==> ComputeDependencyGroups(groups, confs, projectPath) == Success(r.value.State())
    ensures r.Failure? ==> ComputeDependencyGroups(groups, confs, projectPath) == Failure(r.error)
  {
    var dependencyGroups := new DependencyGroups();
    assert groups[0..] == groups;
    var i := 0;
    while i < |groups|
      invariant 0 <= i <= |groups| && dependencyGroups.Valid() && fresh(dependencyGroups)
      invariant ComputeDependencyGroups(groups, confs, projectPath)
             == AddGroups(dependencyGroups.State(), groups[i..], confs, projectPath)
    {
      assert groups[i..][0] == groups[i] && groups[i..][1..] == groups[i + 1..];
      var outcome := AddConfigurationsTo(dependencyGroups, groups[i], confs, projectPath);
      if outcome.Fail? {
        return Failure(outcome.error);
      }
      i := i + 1;
    }
    assert groups[i..] == [];
    r := Success(dependencyGroups);
  }
}
