/**
 * The lock-file tasks' shared steps: merging the resolved configuration
 * groups read from several files, and the check that no configuration group
 * uses two versions of the same group:module.
 */
module Consistency {
  import opened JavaText
  import opened Exceptions
  import opened Ordered
  import opened Sources
  import opened Coordinates
  import opened LockFiles
  import opened GroupStore
  import opened GroupMerge
  import opened GroupCodec
  import opened Groups

  // ------------------------------------------------ grouping by artifact

  /** The records whose idWithoutVersion() is artifact, in encounter order. */
  function WithArtifact(rs: seq<DependencyInfo>, artifact: string): (r: seq<DependencyInfo>)
    ensures |r| <= |rs|
    ensures forall i | 0 <= i < |r| :: r[i] in rs && r[i].IdWithoutVersion() == artifact
    ensures forall d | d in rs && d.IdWithoutVersion() == artifact :: d in r
  {
    if rs == [] then []
    else
      var rest := WithArtifact(rs[1..], artifact);
      assert forall d | d in rs[1..] :: d in rs;
      if rs[0].IdWithoutVersion() == artifact then [rs[0]] + rest else rest
  }

  /** The records of any other artifact, in encounter order. */
  function WithoutArtifact(rs: seq<DependencyInfo>, artifact: string): (r: seq<DependencyInfo>)
    ensures |r| <= |rs|
    ensures rs != [] && rs[0].IdWithoutVersion() == artifact ==> |r| < |rs|
    ensures forall d | d in r :: d in rs && d.IdWithoutVersion() != artifact
    ensures forall d | d in rs && d.IdWithoutVersion() != artifact :: d in r
  {
    if rs == [] then []
    else
      var rest := WithoutArtifact(rs[1..], artifact);
      if rs[0].IdWithoutVersion() == artifact then rest else [rs[0]] + rest
  }

  /**
   * Collectors.groupingBy(DependencyInfo::idWithoutVersion), as the list of
   * its value lists: one list per artifact, each in encounter order. The lists
   * come in the order their artifacts are first met.
   */
  function GroupByArtifact(rs: seq<DependencyInfo>): seq<seq<DependencyInfo>>
    decreases |rs|
  {
    if rs == [] then []
    else
      var artifact := rs[0].IdWithoutVersion();
      [WithArtifact(rs, artifact)] + GroupByArtifact(WithoutArtifact(rs, artifact))
  }

  /** filter(list -> list.size() > 1): the artifacts present in more than one version. */
  function MoreThanOne(lists: seq<seq<DependencyInfo>>): (r: seq<seq<DependencyInfo>>)
    ensures forall l | l in r :: l in lists && |l| > 1
    ensures forall l | l in lists && |l| > 1 :: l in r
  {
    if lists == [] then []
    else if |lists[0]| > 1 then [lists[0]] + MoreThanOne(lists[1..])
    else MoreThanOne(lists[1..])
  }

  /** The inconsistent artifacts of one configuration group. */
  function Inconsistencies(rs: seq<DependencyInfo>): seq<seq<DependencyInfo>>
  {
    MoreThanOne(GroupByArtifact(rs))
  }

  /** No two records share group:module. */
  predicate NoRepeatedArtifact(rs: seq<DependencyInfo>)
  {
    forall i, j | 0 <= i < j < |rs| :: rs[i].IdWithoutVersion() != rs[j].IdWithoutVersion()
  }

  /** Filtering out another artifact keeps the records of this one. */
  lemma {:induction false} WithArtifactOfWithout(rs: seq<DependencyInfo>, other: string, artifact: string)
    requires other != artifact
    ensures WithArtifact(WithoutArtifact(rs, other), artifact) == WithArtifact(rs, artifact)
  {
    if rs != [] {
      WithArtifactOfWithout(rs[1..], other, artifact);
    }
  }

  /** Every list groupingBy makes is non-empty and holds all the records of its artifact. */
  lemma {:induction false} GroupedLists(rs: seq<DependencyInfo>)
    ensures forall l: seq<DependencyInfo> | l in GroupByArtifact(rs) ::
      l != [] && l == WithArtifact(rs, l[0].IdWithoutVersion())
    decreases |rs|
  {
    if rs != [] {
      var artifact := rs[0].IdWithoutVersion();
      var rest := WithoutArtifact(rs, artifact);
      GroupedLists(rest);
      forall l: seq<DependencyInfo> | l in GroupByArtifact(rs) ensures l != [] && l == WithArtifact(rs, l[0].IdWithoutVersion()) {
        if l == WithArtifact(rs, artifact) {
          assert rs[0] in rs;
          assert l[0] in l;
        } else {
          assert l in GroupByArtifact(rest);
          assert l[0] in l;
          WithArtifactOfWithout(rs, artifact, l[0].IdWithoutVersion());
        }
      }
    }
  }

  /** Every artifact present has its list among groupingBy's values. */
  lemma {:induction false} EveryArtifactGrouped(rs: seq<DependencyInfo>, d: DependencyInfo)
    requires d in rs
    ensures WithArtifact(rs, d.IdWithoutVersion()) in GroupByArtifact(rs)
    decreases |rs|
  {
    var artifact := rs[0].IdWithoutVersion();
    if d.IdWithoutVersion() != artifact {
      var rest := WithoutArtifact(rs, artifact);
      EveryArtifactGrouped(rest, d);
      WithArtifactOfWithout(rs, artifact, d.IdWithoutVersion());
    }
  }

  /** Two records of one artifact at positions i < j put two records in its list. */
  lemma {:induction false} RepeatMakesLongList(rs: seq<DependencyInfo>, i: nat, j: nat)
    requires i < j < |rs| && rs[i].IdWithoutVersion() == rs[j].IdWithoutVersion()
    ensures |WithArtifact(rs, rs[i].IdWithoutVersion())| > 1
  {
    var artifact := rs[i].IdWithoutVersion();
    if i == 0 {
      assert rs[j] in rs[1..];
      assert rs[j] in WithArtifact(rs[1..], artifact);
    } else {
      RepeatMakesLongList(rs[1..], i - 1, j - 1);
    }
  }

  /** An artifact with a list of two or more records occurs at two positions. */
  lemma {:induction false} LongListHasRepeat(rs: seq<DependencyInfo>, artifact: string)
    requires |WithArtifact(rs, artifact)| > 1
    ensures !NoRepeatedArtifact(rs)
  {
    var rest := WithArtifact(rs[1..], artifact);
    if rs[0].IdWithoutVersion() == artifact {
      assert rest != [] && rest[0] in rest;
      var j :| 0 <= j < |rs[1..]| && rs[1..][j] == rest[0];
      assert rs[0].IdWithoutVersion() == rs[j + 1].IdWithoutVersion();
    } else {
      LongListHasRepeat(rs[1..], artifact);
      var i, j :| 0 <= i < j < |rs[1..]| && rs[1..][i].IdWithoutVersion() == rs[1..][j].IdWithoutVersion();
      assert rs[i + 1].IdWithoutVersion() == rs[j + 1].IdWithoutVersion();
    }
  }

  /** A configuration group yields no inconsistency exactly when no two of its records share group:module. */
  lemma InconsistenciesIff(rs: seq<DependencyInfo>)
    ensures Inconsistencies(rs) == [] <==> NoRepeatedArtifact(rs)
  {
    GroupedLists(rs);
    if Inconsistencies(rs) != [] {
      var l := Inconsistencies(rs)[0];
      assert l in Inconsistencies(rs);
      LongListHasRepeat(rs, l[0].IdWithoutVersion());
    }
    if !NoRepeatedArtifact(rs) {
      var i, j :| 0 <= i < j < |rs| && rs[i].IdWithoutVersion() == rs[j].IdWithoutVersion();
      RepeatMakesLongList(rs, i, j);
      EveryArtifactGrouped(rs, rs[i]);
      var l := WithArtifact(rs, rs[i].IdWithoutVersion());
      assert l in Inconsistencies(rs);
    }
  }

  /**
   * Each inconsistency holds every record of one artifact, at least two of
   * them, and every artifact with two or more records has its inconsistency.
   */
  lemma InconsistenciesExact(rs: seq<DependencyInfo>)
    ensures forall l: seq<DependencyInfo> | l in Inconsistencies(rs) ::
      |l| > 1 && l == WithArtifact(rs, l[0].IdWithoutVersion())
    ensures forall d | d in rs && |WithArtifact(rs, d.IdWithoutVersion())| > 1 ::
      WithArtifact(rs, d.IdWithoutVersion()) in Inconsistencies(rs)
  {
    GroupedLists(rs);
    forall d | d in rs && |WithArtifact(rs, d.IdWithoutVersion())| > 1
      ensures WithArtifact(rs, d.IdWithoutVersion()) in Inconsistencies(rs)
    {
      EveryArtifactGrouped(rs, d);
    }
  }

  // ------------------------------------------------ the report

  /** One version of an inconsistent artifact: "version V used by:" and its sources. */
  datatype VersionUse = VersionUse(version: string, sources: seq<DependencySource>)

  /** One dependencyInsight hint: the project task, the artifact and the configuration. */
  datatype Insight = Insight(task: string, artifact: string, configuration: string)

  /** One numbered entry of the message: the artifact, its versions and the hints. */
  datatype Conflict = Conflict(number: nat, artifact: string, versions: seq<VersionUse>, insights: seq<Insight>)

  /** The outcome of checkConsistentVersions: passes, or the GradleException's report. */
  datatype Validation =
    | VersionsConsistent
    | MultipleVersions(groupName: string, conflicts: seq<Conflict>)

  const InsightTask: string := "dependencyInsight"

  /** The "version V used by:" lines of an artifact's records. */
  function VersionUses(list: seq<DependencyInfo>): (r: seq<VersionUse>)
    ensures |r| == |list|
    ensures forall i | 0 <= i < |list| :: r[i] == VersionUse(list[i].version, list[i].sources)
  {
    if list == [] then [] else [VersionUse(list[0].version, list[0].sources)] + VersionUses(list[1..])
  }

  /** The hints for the sources of one record. */
  function SourceInsights(sources: seq<DependencySource>, artifact: string): (r: seq<Insight>)
    ensures |r| == |sources|
    ensures forall i | 0 <= i < |sources| ::
      r[i] == Insight(sources[i].ProjectTask(InsightTask), artifact, sources[i].configuration)
  {
    if sources == [] then []
    else [Insight(sources[0].ProjectTask(InsightTask), artifact, sources[0].configuration)]
         + SourceInsights(sources[1..], artifact)
  }

  /** The hints for every source of every version, record by record. */
  function Insights(list: seq<DependencyInfo>, artifact: string): seq<Insight>
  {
    if list == [] then [] else SourceInsights(list[0].sources, artifact) + Insights(list[1..], artifact)
  }

  /** The number of sources over all the records. */
  function SourceCount(list: seq<DependencyInfo>): nat
  {
    if list == [] then 0 else |list[0].sources| + SourceCount(list[1..])
  }

  /**
   * Every source of every record gives one hint, in order: one hint per
   * source, each with that source's projectTask and configuration.
   */
  lemma {:induction false} InsightsPerSource(list: seq<DependencyInfo>, artifact: string)
    ensures |Insights(list, artifact)| == SourceCount(list)
    ensures forall d, s | d in list && s in d.sources ::
      Insight(s.ProjectTask(InsightTask), artifact, s.configuration) in Insights(list, artifact)
    ensures forall h | h in Insights(list, artifact) ::
      h.artifact == artifact && exists d, s :: d in list && s in d.sources && h.task == s.ProjectTask(InsightTask) && h.configuration == s.configuration
  {
    if list != [] {
      InsightsPerSource(list[1..], artifact);
      var head := SourceInsights(list[0].sources, artifact);
      var all := Insights(list, artifact);
      assert all == head + Insights(list[1..], artifact);
      forall d, s | d in list && s in d.sources
        ensures Insight(s.ProjectTask(InsightTask), artifact, s.configuration) in all
      {
        if d == list[0] {
          var k :| 0 <= k < |d.sources| && d.sources[k] == s;
          assert head[k] == Insight(s.ProjectTask(InsightTask), artifact, s.configuration);
        } else {
          assert d in list[1..];
        }
      }
      forall h | h in all
        ensures h.artifact == artifact && exists d, s :: d in list && s in d.sources && h.task == s.ProjectTask(InsightTask) && h.configuration == s.configuration
      {
        if h in head {
          var k :| 0 <= k < |head| && head[k] == h;
          assert list[0] in list && list[0].sources[k] in list[0].sources;
        } else {
          assert h in Insights(list[1..], artifact);
          var d, s :| d in list[1..] && s in d.sources && h.task == s.ProjectTask(InsightTask) && h.configuration == s.configuration;
          assert d in list;
        }
      }
    }
  }

  /** The entry numbered `number` for one inconsistent artifact. */
  function ConflictOf(number: nat, list: seq<DependencyInfo>): Conflict
    requires list != []
  {
    var artifact := list[0].IdWithoutVersion();
    Conflict(number, artifact, VersionUses(list), Insights(list, artifact))
  }

  /** The entries of the message, numbered from 1 in the order of the inconsistencies. */
  ghost predicate ReportOf(lists: seq<seq<DependencyInfo>>, conflicts: seq<Conflict>)
  {
    && |conflicts| == |lists|
    && forall i | 0 <= i < |lists| :: lists[i] != [] && conflicts[i] == ConflictOf(i + 1, lists[i])
  }

  predicate AllNonEmpty(lists: seq<seq<DependencyInfo>>)
  {
    forall i | 0 <= i < |lists| :: lists[i] != []
  }

  /** What groupingBy makes is never an empty list, so neither is an inconsistency. */
  lemma InconsistenciesNonEmpty(rs: seq<DependencyInfo>)
    ensures AllNonEmpty(Inconsistencies(rs))
  {
    GroupedLists(rs);
    var lists := Inconsistencies(rs);
    forall i | 0 <= i < |lists| ensures lists[i] != [] {
      assert lists[i] in lists;
    }
  }

  /** The report for a list of non-empty inconsistencies. */
  function Report(lists: seq<seq<DependencyInfo>>, first: nat): (r: seq<Conflict>)
    requires AllNonEmpty(lists)
    ensures |r| == |lists|
    ensures forall i | 0 <= i < |lists| :: r[i] == ConflictOf(first + i, lists[i])
  {
    if lists == [] then [] else [ConflictOf(first, lists[0])] + Report(lists[1..], first + 1)
  }

  /**
   * The StringBuilder loop of checkConsistentVersions, over structured lines:
   * for the index-th inconsistency its number index + 1 and artifact, a line
   * per version with its sources, then a hint per source of each version.
   */
  method BuildReport(inconsistent: seq<seq<DependencyInfo>>) returns (conflicts: seq<Conflict>)
    requires AllNonEmpty(inconsistent)
    ensures conflicts == Report(inconsistent, 1)
  {
    conflicts := [];
    for index := 0 to |inconsistent|
      invariant conflicts == Report(inconsistent[..index], 1)
    {
      var list := inconsistent[index];
      var artifactCoords := list[0].IdWithoutVersion();
      var versions := VersionLines(list);
      var insights := InsightLines(list, artifactCoords);
      ReportSnoc(inconsistent[..index], list, 1);
      assert inconsistent[..index] + [list] == inconsistent[..index + 1];
      conflicts := conflicts + [Conflict(index + 1, artifactCoords, versions, insights)];
    }
    assert inconsistent[..|inconsistent|] == inconsistent;
  }

  /** The "version V used by:" lines, one per record. */
  method VersionLines(list: seq<DependencyInfo>) returns (versions: seq<VersionUse>)
    ensures versions == VersionUses(list)
  {
    versions := [];
    for k := 0 to |list|
      invariant versions == VersionUses(list[..k])
    {
      assert list[..k + 1][..k] == list[..k];
      versions := versions + [VersionUse(list[k].version, list[k].sources)];
    }
    assert list[..|list|] == list;
  }

  /** The dependencyInsight hints, one per source of each record. */
  method InsightLines(list: seq<DependencyInfo>, artifactCoords: string) returns (insights: seq<Insight>)
    ensures insights == Insights(list, artifactCoords)
  {
    insights := [];
    for k := 0 to |list|
      invariant insights == Insights(list[..k], artifactCoords)
    {
      InsightsSnoc(list[..k], list[k], artifactCoords);
      assert list[..k] + [list[k]] == list[..k + 1];
      var hints := HintLines(list[k].sources, artifactCoords);
      insights := insights + hints;
    }
    assert list[..|list|] == list;
  }

  /** The hints for the sources of one record. */
  method HintLines(sources: seq<DependencySource>, artifactCoords: string) returns (hints: seq<Insight>)
    ensures hints == SourceInsights(sources, artifactCoords)
  {
    hints := [];
    for m := 0 to |sources|
      invariant hints == SourceInsights(sources[..m], artifactCoords)
    {
      SourceInsightsSnoc(sources[..m], sources[m], artifactCoords);
      assert sources[..m] + [sources[m]] == sources[..m + 1];
      hints := hints + [Insight(sources[m].ProjectTask(InsightTask), artifactCoords, sources[m].configuration)];
    }
    assert sources[..|sources|] == sources;
  }

  lemma SourceInsightsSnoc(sources: seq<DependencySource>, s: DependencySource, artifact: string)
    ensures SourceInsights(sources + [s], artifact)
         == SourceInsights(sources, artifact) + [Insight(s.ProjectTask(InsightTask), artifact, s.configuration)]
  {
  }

  lemma {:induction false} InsightsSnoc(list: seq<DependencyInfo>, d: DependencyInfo, artifact: string)
    ensures Insights(list + [d], artifact) == Insights(list, artifact) + SourceInsights(d.sources, artifact)
  {
    if list == [] {
      assert [] + [d] == [d];
      assert Insights([d], artifact) == SourceInsights(d.sources, artifact) + Insights([], artifact);
    } else {
      assert (list + [d])[0] == list[0] && (list + [d])[1..] == list[1..] + [d];
      InsightsSnoc(list[1..], d, artifact);
    }
  }

  lemma ReportSnoc(lists: seq<seq<DependencyInfo>>, l: seq<DependencyInfo>, first: nat)
    requires AllNonEmpty(lists) && l != []
    ensures AllNonEmpty(lists + [l])
    ensures Report(lists + [l], first) == Report(lists, first) + [ConflictOf(first + |lists|, l)]
  {
  }

  // ------------------------------------------------ checking every group

  /** Every member key of every group is indexed: the part of Wellformed the check needs. */
  ghost predicate Indexed(st: Store)
  {
    forall g, k | g in st.dependencies && k in st.dependencies[g] :: k in st.index
  }

  /** The records stored under a sequence of keys. */
  function Records(index: map<string, DependencyInfo>, keys: seq<string>): (r: seq<DependencyInfo>)
    requires forall k | k in keys :: k in index
    ensures |r| == |keys|
    ensures forall i | 0 <= i < |keys| :: r[i] == index[keys[i]]
  {
    if keys == [] then [] else [index[keys[0]]] + Records(index, keys[1..])
  }

  /** The records of a group's TreeSet, in comparator order. */
  function GroupRecords(st: Store, groupName: string): (r: seq<DependencyInfo>)
    requires Indexed(st) && groupName in st.dependencies
  {
    Records(st.index, st.dependencies[groupName])
  }

  /** A group none of whose artifacts comes in two versions. */
  ghost predicate GroupOk(st: Store, groupName: string)
  {
    Indexed(st) && groupName in st.dependencies && NoRepeatedArtifact(GroupRecords(st, groupName))
  }

  /** The report of one group's inconsistencies. */
  function ConflictsOf(st: Store, groupName: string): seq<Conflict>
    requires Indexed(st) && groupName in st.dependencies
  {
    var rs := GroupRecords(st, groupName);
    InconsistenciesNonEmpty(rs);
    Report(Inconsistencies(rs), 1)
  }

  /** Groups in iteration order: the first with an inconsistency is reported, and no later one. */
  function CheckGroups(st: Store, names: seq<string>): Validation
    requires Indexed(st) && GroupNames(st, names)
  {
    if names == [] then VersionsConsistent
    else
      GroupNamesTail(st, names);
      var inconsistent := Inconsistencies(GroupRecords(st, names[0]));
      if inconsistent != [] then MultipleVersions(names[0], ConflictsOf(st, names[0]))
      else CheckGroups(st, names[1..])
  }

  /** checkConsistentVersions(mergedGroups), as the outcome it ends with. */
  function CheckConsistentVersions(st: Store): Validation
    requires Wellformed(st)
  {
    CheckGroups(st, st.groupOrder)
  }

  /** A group yields no inconsistency exactly when it is consistent. */
  lemma GroupOkIff(st: Store, groupName: string)
    requires Indexed(st) && groupName in st.dependencies
    ensures GroupOk(st, groupName) <==> Inconsistencies(GroupRecords(st, groupName)) == []
  {
    InconsistenciesIff(GroupRecords(st, groupName));
  }

  lemma {:induction false} CheckGroupsPass(st: Store, names: seq<string>)
    requires Indexed(st) && GroupNames(st, names)
    requires forall g | g in names :: GroupOk(st, g)
    ensures CheckGroups(st, names).VersionsConsistent?
  {
    if names != [] {
      GroupNamesTail(st, names);
      assert names[0] in names;
      GroupOkIff(st, names[0]);
      assert forall g | g in names[1..] :: g in names;
      CheckGroupsPass(st, names[1..]);
    }
  }

  lemma {:induction false} CheckGroupsPassOnlyIf(st: Store, names: seq<string>)
    requires Indexed(st) && GroupNames(st, names)
    requires CheckGroups(st, names).VersionsConsistent?
    ensures forall g | g in names :: GroupOk(st, g)
  {
    if names != [] {
      GroupNamesTail(st, names);
      GroupOkIff(st, names[0]);
      CheckGroupsPassOnlyIf(st, names[1..]);
      assert forall g | g in names :: g == names[0] || g in names[1..];
    }
  }

  /** The fold over the groups passes exactly when every group is consistent. */
  lemma CheckGroupsIff(st: Store, names: seq<string>)
    requires Indexed(st) && GroupNames(st, names)
    ensures CheckGroups(st, names).VersionsConsistent? <==> forall g | g in names :: GroupOk(st, g)
  {
    if CheckGroups(st, names).VersionsConsistent? {
      CheckGroupsPassOnlyIf(st, names);
    } else if forall g | g in names :: GroupOk(st, g) {
      CheckGroupsPass(st, names);
    }
  }

  /** The check passes exactly when no configuration group holds two versions of one group:module. */
  lemma CheckPassesIff(st: Store)
    requires Wellformed(st)
    ensures CheckConsistentVersions(st).VersionsConsistent? <==>
      forall g | g in st.dependencies :: NoRepeatedArtifact(GroupRecords(st, g))
  {
    CheckGroupsIff(st, st.groupOrder);
  }

  /** Where the fold over the groups stopped: the first group with an inconsistency. */
  ghost predicate StoppedAt(st: Store, names: seq<string>, r: Validation)
  {
    r.MultipleVersions? ==>
      exists k :: 0 <= k < |names| && names[k] == r.groupName && !GroupOk(st, r.groupName)
        && forall j | 0 <= j < k :: GroupOk(st, names[j])
  }

  lemma StoppedAtCons(st: Store, names: seq<string>, r: Validation)
    requires names != [] && GroupOk(st, names[0]) && StoppedAt(st, names[1..], r)
    ensures StoppedAt(st, names, r)
  {
    if r.MultipleVersions? {
      var k :| 0 <= k < |names[1..]| && names[1..][k] == r.groupName && !GroupOk(st, r.groupName)
        && forall j | 0 <= j < k :: GroupOk(st, names[1..][j]);
      assert names[k + 1] == r.groupName;
      forall j | 0 <= j < k + 1 ensures GroupOk(st, names[j]) {
        if j > 0 { assert names[j] == names[1..][j - 1]; }
      }
    }
  }

  lemma {:induction false} CheckGroupsFirst(st: Store, names: seq<string>)
    requires Indexed(st) && GroupNames(st, names)
    ensures StoppedAt(st, names, CheckGroups(st, names))
    ensures var r := CheckGroups(st, names);
      r.MultipleVersions? ==> r.groupName in st.dependencies && r.conflicts == ConflictsOf(st, r.groupName)
  {
    if names != [] {
      GroupNamesTail(st, names);
      GroupOkIff(st, names[0]);
      if Inconsistencies(GroupRecords(st, names[0])) == [] {
        CheckGroupsFirst(st, names[1..]);
        StoppedAtCons(st, names, CheckGroups(st, names));
      } else {
        var r := CheckGroups(st, names);
        assert r == MultipleVersions(names[0], ConflictsOf(st, names[0]));
        assert 0 < |names| && names[0] == r.groupName && !GroupOk(st, r.groupName);
      }
    }
  }

  /** In TreeMap order, a group whose name is smaller is met earlier. */
  lemma SmallerNameEarlier(names: seq<string>, j: nat, k: nat)
    requires SortedBy(names, NameKey) && j < |names| && k < |names| && StrLess(names[j], names[k])
    ensures j < k
  {
    KeyLessIsStrictTotalOrder();
    assert KeyLess(NameKey(names[j]), NameKey(names[k])) by {
      assert NameKey(names[j])[1..] == [] && NameKey(names[k])[1..] == [];
    }
  }

  /** Every group before position k of the sorted names is consistent, so is every group named before names[k]. */
  lemma EarlierGroupsOk(st: Store, names: seq<string>, k: nat)
    requires SortedBy(names, NameKey) && k < |names|
    requires forall j | 0 <= j < k :: GroupOk(st, names[j])
    ensures forall g | g in names && StrLess(g, names[k]) :: GroupOk(st, g)
  {
    forall g | g in names && StrLess(g, names[k]) ensures GroupOk(st, g) {
      var j :| 0 <= j < |names| && names[j] == g;
      SmallerNameEarlier(names, j, k);
    }
  }

  /**
   * A failing check names a group with two versions of one group:module and
   * reports its inconsistencies; every group whose name comes first is
   * consistent: checking stopped at the first offending group.
   */
  lemma CheckReportsFirstGroup(st: Store)
    requires Wellformed(st)
    ensures var r := CheckConsistentVersions(st);
      r.MultipleVersions? ==>
        && r.groupName in st.dependencies
        && !GroupOk(st, r.groupName)
        && r.conflicts == ConflictsOf(st, r.groupName)
        && forall g | g in st.dependencies && StrLess(g, r.groupName) :: GroupOk(st, g)
  {
    var r := CheckConsistentVersions(st);
    var names := st.groupOrder;
    CheckGroupsFirst(st, names);
    if r.MultipleVersions? {
      var k :| 0 <= k < |names| && names[k] == r.groupName && !GroupOk(st, r.groupName)
        && forall j | 0 <= j < k :: GroupOk(st, names[j]);
      EarlierGroupsOk(st, names, k);
    }
  }

  /**
   * Entry i of a failure report is numbered i + 1 and names one artifact with
   * all its versions, at least two, and one hint per source of those versions.
   */
  lemma ReportEntry(rs: seq<DependencyInfo>, i: nat)
    requires i < |Inconsistencies(rs)|
    ensures AllNonEmpty(Inconsistencies(rs))
    ensures var c := Report(Inconsistencies(rs), 1)[i];
      var list := WithArtifact(rs, c.artifact);
      && c.number == i + 1
      && |list| > 1
      && c.versions == VersionUses(list)
      && |c.insights| == SourceCount(list)
  {
    InconsistenciesExact(rs);
    InconsistenciesNonEmpty(rs);
    var lists: seq<seq<DependencyInfo>> := Inconsistencies(rs);
    var list := lists[i];
    assert list in lists;
    InsightsPerSource(list, list[0].IdWithoutVersion());
  }

  /** An artifact with two or more records has its inconsistency. */
  lemma InconsistencyOf(rs: seq<DependencyInfo>, d: DependencyInfo)
    requires d in rs && |WithArtifact(rs, d.IdWithoutVersion())| > 1
    ensures WithArtifact(rs, d.IdWithoutVersion()) in Inconsistencies(rs)
  {
    InconsistenciesExact(rs);
  }

  /** Every artifact of the group that comes in two or more versions has its entry in the report. */
  lemma ReportCoversArtifact(rs: seq<DependencyInfo>, d: DependencyInfo)
    requires d in rs && |WithArtifact(rs, d.IdWithoutVersion())| > 1
    ensures AllNonEmpty(Inconsistencies(rs))
    ensures var conflicts := Report(Inconsistencies(rs), 1);
      exists i :: 0 <= i < |conflicts| && conflicts[i].artifact == d.IdWithoutVersion()
  {
    InconsistenciesNonEmpty(rs);
    InconsistencyOf(rs, d);
    var lists: seq<seq<DependencyInfo>> := Inconsistencies(rs);
    var l := WithArtifact(rs, d.IdWithoutVersion());
    var i :| 0 <= i < |lists| && lists[i] == l;
    assert l[0].IdWithoutVersion() == d.IdWithoutVersion();
    assert Report(lists, 1)[i] == ConflictOf(1 + i, l);
  }

  /**
   * checkConsistentVersions over the object: groups in TreeMap order, each
   * grouped by artifact; the first group with an inconsistency ends the check
   * with its report. Nothing is modified.
   */
  method CheckConsistentVersionsOf(mergedGroups: DependencyGroups) returns (r: Validation)
    requires mergedGroups.Valid()
    ensures r == CheckConsistentVersions(mergedGroups.State())
  {
    var st := mergedGroups.State();
    var names := mergedGroups.groupOrder;
    assert names[0..] == names;
    var gi := 0;
    while gi < |names|
      invariant 0 <= gi <= |names| && GroupNames(st, names)
      invariant CheckGroups(st, names[gi..]) == CheckConsistentVersions(st)
    {
      var groupName := names[gi];
      assert names[gi..][0] == groupName && names[gi..][1..] == names[gi + 1..];
      assert groupName in names;
      var inconsistentGroups := Inconsistencies(GroupRecords(st, groupName));
      if inconsistentGroups != [] {
        InconsistenciesNonEmpty(GroupRecords(st, groupName));
        var conflicts := BuildReport(inconsistentGroups);
        return MultipleVersions(groupName, conflicts);
      }
      gi := gi + 1;
    }
    r := VersionsConsistent;
  }

  /** runValidationChecks: exactly the consistency check. */
  method RunValidationChecks(mergedGroups: DependencyGroups) returns (r: Validation)
    requires mergedGroups.Valid()
    ensures r == CheckConsistentVersions(mergedGroups.State())
  {
    r := CheckConsistentVersionsOf(mergedGroups);
  }

  // ------------------------------------------------ merging the inputs

  /** One resolved configuration group file: what Jackson binds it to, and its name. */
  type InputFile = (LockFileInput, string)

  /** The fold of getMergedDependencyGroups from a given set onwards. */
  function MergeFiles(acc: Store, files: seq<InputFile>): (r: Result<Store>)
    requires Wellformed(acc)
    ensures r.Success? ==> Wellformed(r.value)
    decreases |files|
  {
    if files == [] then Success(acc)
    else
      match ReadFrom(files[0].0, files[0].1)
      case Failure(e) => Failure(e)
      case Success(read) =>
        match Merge(acc, read)
        case Failure(e) => Failure(e)
        case Success(next) => MergeFiles(next, files[1..])
  }

  /** getMergedDependencyGroups: a new set, merged with readFrom of every file in order. */
  function MergedDependencyGroups(files: seq<InputFile>): (r: Result<Store>)
    ensures r.Success? ==> Wellformed(r.value)
  {
    MergeFiles(Empty, files)
  }

  /**
   * The fold fails exactly when some file cannot be read, with the first
   * such file's exception; otherwise it keeps the index invariant.
   */
  lemma {:induction false} MergeFilesOutcome(acc: Store, files: seq<InputFile>)
    requires Wellformed(acc) && Consistent(acc)
    ensures var r := MergeFiles(acc, files);
      && (r.Success? ==> Consistent(r.value))
      && (r.Failure? <==> exists i :: 0 <= i < |files| && ReadFrom(files[i].0, files[i].1).Failure?)
      && (r.Failure? ==> exists i :: 0 <= i < |files| && ReadFrom(files[i].0, files[i].1) == Failure(r.error)
                          && forall j | 0 <= j < i :: ReadFrom(files[j].0, files[j].1).Success?)
    decreases |files|
  {
    if files != [] {
      var read := ReadFrom(files[0].0, files[0].1);
      if read.Success? {
        ReadFromConsistent(files[0].0, files[0].1);
        MergeIndex(acc, read.value);
        var next := Merge(acc, read.value).value;
        MergeFilesOutcome(next, files[1..]);
        var r := MergeFiles(acc, files);
        assert r == MergeFiles(next, files[1..]);
        if r.Failure? {
          var i :| 0 <= i < |files[1..]| && ReadFrom(files[1..][i].0, files[1..][i].1) == Failure(r.error)
                    && forall j | 0 <= j < i :: ReadFrom(files[1..][j].0, files[1..][j].1).Success?;
          assert files[i + 1] == files[1..][i];
          forall j | 0 <= j < i + 1 ensures ReadFrom(files[j].0, files[j].1).Success? {
            if j > 0 { assert files[j] == files[1..][j - 1]; }
          }
        } else {
          forall i | 0 <= i < |files| ensures ReadFrom(files[i].0, files[i].1).Success? {
            if i > 0 { assert files[i] == files[1..][i - 1]; }
          }
        }
      }
    }
  }

  /**
   * getMergedDependencyGroups fails exactly when some file cannot be read,
   * with the first such file's exception, and otherwise yields a set that
   * keeps the index invariant.
   */
  lemma MergedOutcome(files: seq<InputFile>)
    ensures var r := MergedDependencyGroups(files);
      && (r.Success? ==> Consistent(r.value))
      && (r.Failure? <==> exists i :: 0 <= i < |files| && ReadFrom(files[i].0, files[i].1).Failure?)
  {
    MergeFilesOutcome(Empty, files);
  }

  /** Merging a single file gives exactly what readFrom gives for it. */
  lemma MergedSingleFile(file: InputFile)
    ensures MergedDependencyGroups([file]) == ReadFrom(file.0, file.1)
  {
    var read := ReadFrom(file.0, file.1);
    if read.Success? {
      ReadFromConsistent(file.0, file.1);
      MergeIntoEmpty(read.value);
      assert MergedDependencyGroups([file]) == MergeFiles(read.value, [file][1..]);
      assert [file][1..] == [];
    }
  }

  /**
   * getMergedDependencyGroups over the object model: readFrom of each file,
   * merged into a fresh set in order; the first read failure propagates.
   */
  method GetMergedDependencyGroups(files: seq<InputFile>) returns (r: Result<DependencyGroups>)
    ensures r.Success? ==> fresh(r.value) && r.value.Valid()
    ensures r.Success? ==> MergedDependencyGroups(files) == Success(r.value.State())
    ensures r.Failure? ==> MergedDependencyGroups(files) == Failure(r.error)
  {
    var merged := new DependencyGroups();
    assert files[0..] == files;
    for i := 0 to |files|
      invariant fresh(merged) && merged.Valid()
      invariant MergeFiles(merged.State(), files[i..]) == MergedDependencyGroups(files)
    {
      assert files[i..][0] == files[i] && files[i..][1..] == files[i + 1..];
      var group := DependencyGroups.ReadFrom(files[i].0, files[i].1);
      if group.Failure? {
        return Failure(group.error);
      }
      merged.Merge(group.value);
    }
    assert files[|files|..] == [];
    r := Success(merged);
  }

  /**
   * writeLocks: merge the inputs, validate, then write. A read failure or an
   * inconsistency ends the task before anything is written; the comment is
   * "" when none is configured.
   */
  datatype WriteResult = Written(doc: LockFile) | WriteFailed(error: Thrown) | WriteInconsistent(report: Validation)

  method WriteLocks(files: seq<InputFile>, comment: Option<string>) returns (r: WriteResult)
    ensures var merged := MergedDependencyGroups(files);
      && (merged.Failure? ==> r == WriteFailed(merged.error))
      && (merged.Success? && CheckConsistentVersions(merged.value).MultipleVersions? ==>
            r == WriteInconsistent(CheckConsistentVersions(merged.value)))
      && (merged.Success? && CheckConsistentVersions(merged.value).VersionsConsistent? ==>
            r.Written? && WriteDoc(merged.value, if comment.Some? then comment.value else "") == Success(r.doc))
  {
    var mergedGroups := GetMergedDependencyGroups(files);
    if mergedGroups.Failure? {
      return WriteFailed(mergedGroups.error);
    }
    var validation := RunValidationChecks(mergedGroups.value);
    if validation.MultipleVersions? {
      return WriteInconsistent(validation);
    }
    var text := if comment.Some? then comment.value else "";
    WriteDocShape(mergedGroups.value.State(), text);
    var doc := mergedGroups.value.WriteTo(text);
    r := Written(doc.value);
  }
}
