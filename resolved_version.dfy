/**
 * The getResolvedVersion closure the plugin installs as an extra property:
 * the version a configuration resolved for a group and module name, found by
 * filtering the configuration's resolved components.
 */
module ResolvedVersion {
  import opened JavaText
  import opened Exceptions
  import opened Coordinates

  /** A configuration as the closure reads it: its name and the module versions of all its components. */
  datatype ResolvedConfiguration = ResolvedConfiguration(name: string, components: seq<ModuleVersion>)

  /** A ModuleIdentifier: group and name. */
  datatype ModuleIdentifier = ModuleIdentifier(group: string, name: string)

  /** A ModuleVersionSelector: group, name and the requested version. */
  datatype ModuleVersionSelector = ModuleVersionSelector(group: string, name: string, version: string)
  {
    /** getModule(): the selector's group and name. */
    function Module(): ModuleIdentifier
    {
      ModuleIdentifier(group, name)
    }
  }

  function NotationMessage(groupModulePair: string): string
  {
    "Expected 'group:name' notation: " + groupModulePair
  }

  function MissingMessage(configuration: string, group: string, moduleName: string): string
  {
    "Configuration " + configuration + " does not contain any reference to " + group + ":" + moduleName
  }

  function AmbiguousMessage(configuration: string, group: string, moduleName: string): string
  {
    "Configuration " + configuration + " contains multiple modules matching " + group + ":" + moduleName
  }

  /** The filter: a component's group and name both equal the requested ones. */
  predicate Matches(m: ModuleVersion, group: string, moduleName: string)
  {
    m.group == group && m.name == moduleName
  }

  /** The filtered list, in the order of the components. */
  function Matching(components: seq<ModuleVersion>, group: string, moduleName: string): (r: seq<ModuleVersion>)
    ensures |r| <= |components|
    ensures forall m :: m in r <==> m in components && Matches(m, group, moduleName)
  {
    if components == [] then []
    else if Matches(components[0], group, moduleName) then [components[0]] + Matching(components[1..], group, moduleName)
    else Matching(components[1..], group, moduleName)
  }

  /** Some component matches. */
  ghost predicate MatchesOnce(components: seq<ModuleVersion>, group: string, moduleName: string)
  {
    exists i | 0 <= i < |components| :: Matches(components[i], group, moduleName)
  }

  /** Two different components match. */
  ghost predicate MatchesTwice(components: seq<ModuleVersion>, group: string, moduleName: string)
  {
    exists i, j | 0 <= i < j < |components| :: Matches(components[i], group, moduleName) && Matches(components[j], group, moduleName)
  }

  lemma MatchingNonEmpty(components: seq<ModuleVersion>, group: string, moduleName: string)
    ensures |Matching(components, group, moduleName)| >= 1 <==> MatchesOnce(components, group, moduleName)
  {
    var r := Matching(components, group, moduleName);
    if |r| >= 1 {
      assert r[0] in r;
    }
    if MatchesOnce(components, group, moduleName) {
      var i :| 0 <= i < |components| && Matches(components[i], group, moduleName);
      assert components[i] in r;
    }
  }

  lemma MatchesTwiceCons(components: seq<ModuleVersion>, group: string, moduleName: string)
    requires components != []
    ensures MatchesTwice(components, group, moduleName) <==>
      (Matches(components[0], group, moduleName) && MatchesOnce(components[1..], group, moduleName))
      || MatchesTwice(components[1..], group, moduleName)
  {
    var tail := components[1..];
    if MatchesTwice(components, group, moduleName) {
      var i, j :| 0 <= i < j < |components| && Matches(components[i], group, moduleName) && Matches(components[j], group, moduleName);
      assert tail[j - 1] == components[j];
      if i > 0 {
        assert tail[i - 1] == components[i];
      }
    }
    if MatchesTwice(tail, group, moduleName) {
      var i, j :| 0 <= i < j < |tail| && Matches(tail[i], group, moduleName) && Matches(tail[j], group, moduleName);
      assert components[i + 1] == tail[i] && components[j + 1] == tail[j];
    }
    if Matches(components[0], group, moduleName) && MatchesOnce(tail, group, moduleName) {
      var j :| 0 <= j < |tail| && Matches(tail[j], group, moduleName);
      assert components[j + 1] == tail[j];
    }
  }

  /** The filtered list has two or more elements exactly when two different components match. */
  lemma {:induction false} MatchingTwice(components: seq<ModuleVersion>, group: string, moduleName: string)
    ensures |Matching(components, group, moduleName)| >= 2 <==> MatchesTwice(components, group, moduleName)
  {
    if components != [] {
      MatchingTwice(components[1..], group, moduleName);
      MatchingNonEmpty(components[1..], group, moduleName);
      MatchesTwiceCons(components, group, moduleName);
    }
  }

  /** doCall(group, moduleName, configuration): the single matching component's version, or an exception. */
  function ResolvedVersionOf(group: string, moduleName: string, configuration: ResolvedConfiguration): Result<string>
  {
    var matches := Matching(configuration.components, group, moduleName);
    if |matches| == 0 then Failure(GradleException(MissingMessage(configuration.name, group, moduleName)))
    else if |matches| == 1 then Success(matches[0].version)
    else Failure(GradleException(AmbiguousMessage(configuration.name, group, moduleName)))
  }

  /** doCall(groupModulePair, configuration): the pair must split on ':' into exactly two parts. */
  function ResolvedVersionOfPair(groupModulePair: string, configuration: ResolvedConfiguration): Result<string>
  {
    var splits := Split(groupModulePair, ':');
    if |splits| != 2 then Failure(GradleException(NotationMessage(groupModulePair)))
    else ResolvedVersionOf(splits[0], splits[1], configuration)
  }

  /** doCall(ModuleIdentifier, configuration). */
  function ResolvedVersionOfIdentifier(id: ModuleIdentifier, configuration: ResolvedConfiguration): Result<string>
  {
    ResolvedVersionOf(id.group, id.name, configuration)
  }

  /** doCall(ModuleVersionSelector, configuration): the requested version plays no part. */
  function ResolvedVersionOfSelector(selector: ModuleVersionSelector, configuration: ResolvedConfiguration): Result<string>
  {
    ResolvedVersionOfIdentifier(selector.Module(), configuration)
  }

  /**
   * The selection rule: no matching component throws the "does not contain"
   * exception, exactly one returns its version, two or more throw the
   * "multiple modules" exception; a version is only ever returned from the
   * unique matching component.
   */
  lemma ResolvedVersionRule(group: string, moduleName: string, configuration: ResolvedConfiguration)
    ensures var cs := configuration.components;
      (forall i | 0 <= i < |cs| :: !Matches(cs[i], group, moduleName)) ==>
        ResolvedVersionOf(group, moduleName, configuration) ==
          Failure(GradleException(MissingMessage(configuration.name, group, moduleName)))
    ensures var cs := configuration.components;
      forall i | 0 <= i < |cs| && Matches(cs[i], group, moduleName) ::
        (forall j | 0 <= j < |cs| && Matches(cs[j], group, moduleName) :: j == i) ==>
          ResolvedVersionOf(group, moduleName, configuration) == Success(cs[i].version)
    ensures var cs := configuration.components;
      MatchesTwice(cs, group, moduleName) ==>
        ResolvedVersionOf(group, moduleName, configuration) ==
          Failure(GradleException(AmbiguousMessage(configuration.name, group, moduleName)))
    ensures var r := ResolvedVersionOf(group, moduleName, configuration);
      r.Success? ==> exists m | m in configuration.components :: Matches(m, group, moduleName) && m.version == r.value
  {
    var cs := configuration.components;
    var matches := Matching(cs, group, moduleName);
    MatchingTwice(cs, group, moduleName);
    if |matches| > 0 {
      assert matches[0] in matches;
    }
    forall i | 0 <= i < |cs| && Matches(cs[i], group, moduleName)
      ensures (forall j | 0 <= j < |cs| && Matches(cs[j], group, moduleName) :: j == i) ==>
        ResolvedVersionOf(group, moduleName, configuration) == Success(cs[i].version)
    {
      assert cs[i] in matches;
      if |matches| == 1 {
        var k :| 0 <= k < |cs| && cs[k] == matches[0];
        if (forall j | 0 <= j < |cs| && Matches(cs[j], group, moduleName) :: j == i) {
          assert k == i;
        }
      }
    }
  }

  /**
   * The overloads agree: a selector and an identifier reduce to their group and
   * name, and so does the "group:name" string built from a colon-free group and
   * a colon-free, non-empty name.
   */
  lemma OverloadsAgree(selector: ModuleVersionSelector, configuration: ResolvedConfiguration)
    ensures ResolvedVersionOfSelector(selector, configuration) == ResolvedVersionOf(selector.group, selector.name, configuration)
    ensures ResolvedVersionOfIdentifier(selector.Module(), configuration) == ResolvedVersionOf(selector.group, selector.name, configuration)
    ensures ':' !in selector.group && ':' !in selector.name && selector.name != "" ==>
      ResolvedVersionOfPair(selector.group + ":" + selector.name, configuration) ==
        ResolvedVersionOf(selector.group, selector.name, configuration)
  {
    if ':' !in selector.group && ':' !in selector.name && selector.name != "" {
      SplitTwo(selector.group, selector.name, ':');
    }
  }

  /**
   * A pair that does not split into exactly two parts throws the notation
   * exception; a pair without ':' is one of them.
   */
  lemma PairNotation(groupModulePair: string, configuration: ResolvedConfiguration)
    ensures |Split(groupModulePair, ':')| != 2 ==>
      ResolvedVersionOfPair(groupModulePair, configuration) == Failure(GradleException(NotationMessage(groupModulePair)))
    ensures ':' !in groupModulePair ==>
      ResolvedVersionOfPair(groupModulePair, configuration) == Failure(GradleException(NotationMessage(groupModulePair)))
  {
  }

  /** "group:" splits into fewer than two parts (String.split drops the empty trailing name), so it throws. */
  lemma EmptyNameNotation(group: string, configuration: ResolvedConfiguration)
    requires ':' !in group
    ensures ResolvedVersionOfPair(group + ":", configuration) == Failure(GradleException(NotationMessage(group + ":")))
  {
    RawSplitCons(group, "", ':');
    assert group + ":" == group + [':'] + "";
    assert RawSplit("", ':') == [""];
    assert |Split(group + ":", ':')| < 2;
  }
}
