/**
 * A dependency source: the configuration and the project path through which
 * a dependency entered a configuration group.
 */
module Sources {
  import opened JavaText

  /**
   * The two final fields are the datatype's fields, so the accessors
   * configuration() and projectPath() return exactly the constructor's arguments.
   */
  datatype DependencySource = DependencySource(configuration: string, projectPath: string)
  {
    /** The path Gradle gives the root project. */
    static const RootPath: string := ":"

    /** How a source is rendered in messages. */
    function ToString(): (r: string)
      ensures var lead := "Configuration " + configuration + " in ";
        |r| >= |lead| && r[..|lead|] == lead
      ensures projectPath != RootPath ==> |r| >= |projectPath| && r[|r| - |projectPath|..] == projectPath
      ensures projectPath == RootPath ==> |r| >= |"root project"| && r[|r| - |"root project"|..] == "root project"
      ensures |r| == |"Configuration " + configuration + " in "| + |if projectPath == RootPath then "root project" else projectPath|
    {
      var lead := "Configuration " + configuration + " in ";
      var place := if projectPath == RootPath then "root project" else projectPath;
      assert (lead + place)[..|lead|] == lead && (lead + place)[|lead|..] == place;
      lead + place
    }

    /**
     * The path of a task of this source's project, as given on a gradlew command
     * line: the task name after a single ':', preceded by the project path unless
     * the project is the root.
     */
    function ProjectTask(taskName: string): (r: string)
      ensures |r| > |taskName| && r[|r| - |taskName| - 1] == ':' && r[|r| - |taskName|..] == taskName
      ensures projectPath == RootPath ==> |r| == |taskName| + 1
      ensures projectPath != RootPath ==> |r| == |projectPath| + 1 + |taskName| && r[..|projectPath|] == projectPath
    {
      var prefix := if projectPath == RootPath then "" else projectPath;
      var r := prefix + ":" + taskName;
      assert r[|prefix|] == ':' && r[|prefix| + 1..] == taskName;
      r
    }

    /** equals(): field-by-field comparison. */
    predicate Equals(other: DependencySource)
    {
      configuration == other.configuration && projectPath == other.projectPath
    }

    /** hashCode(): h(configuration) * 31 + h(projectPath) in 32-bit arithmetic. */
    function HashCode(): (h: int)
      ensures 0 <= h < TWO32
    {
      (StringHash(configuration) * 31 + StringHash(projectPath)) % TWO32
    }
  }

  /** Two sources are equal exactly when they are the same pair. */
  lemma EqualsIsStructural(a: DependencySource, b: DependencySource)
    ensures a.Equals(b) <==> a == b
  {
  }

  /** Sources that are equal have equal hash codes. */
  lemma EqualSourcesHashEqually(a: DependencySource, b: DependencySource)
    requires a.Equals(b)
    ensures a.HashCode() == b.HashCode()
  {
  }

  /**
   * Two Gradle project paths (both start with ':') of one configuration render
   * differently: the message names the project the source came from.
   */
  lemma ToStringNamesProject(a: DependencySource, b: DependencySource)
    requires a.configuration == b.configuration
    requires |a.projectPath| > 0 && a.projectPath[0] == ':' && |b.projectPath| > 0 && b.projectPath[0] == ':'
    requires a.ToString() == b.ToString()
    ensures a == b
  {
    var lead := "Configuration " + a.configuration + " in ";
    var ra, rb := a.ToString()[|lead|..], b.ToString()[|lead|..];
    assert ra == (if a.projectPath == DependencySource.RootPath then "root project" else a.projectPath);
    assert rb == (if b.projectPath == DependencySource.RootPath then "root project" else b.projectPath);
    assert "root project"[0] != ':';
  }

  /**
   * List.hashCode() of a list of sources: h = 1, then h = 31 * h + e.hashCode()
   * for each element in order, in 32-bit arithmetic.
   */
  function ListHash(l: seq<DependencySource>): (h: int)
    ensures 0 <= h < TWO32
  {
    if l == [] then 1 else (31 * ListHash(l[..|l| - 1]) + l[|l| - 1].HashCode()) % TWO32
  }
}
