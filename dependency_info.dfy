/**
 * A module dependency: group, module and version coordinates and the list of
 * sources through which it was included.
 */
module Coordinates {
  import opened JavaText
  import opened Exceptions
  import opened Ordered
  import opened Sources

  /** Gradle's ModuleVersionIdentifier: the coordinates of a resolved module. */
  datatype ModuleVersion = ModuleVersion(group: string, name: string, version: string)

  /**
   * A dependency record. The sources are a list: duplicates are kept and order matters.
   * As a value, the record never shares its list with the caller, which is what the
   * copy both Java constructors make achieves.
   */
  datatype DependencyInfo = DependencyInfo(group: string, moduleName: string, version: string, sources: seq<DependencySource>)
  {
    /** group:module */
    function IdWithoutVersion(): (r: string)
      ensures |r| == |group| + 1 + |moduleName|
      ensures r[..|group|] == group && r[|group|] == ':' && r[|group| + 1..] == moduleName
    {
      group + ":" + moduleName
    }

    /** group:module:version */
    function GetDependency(): (r: string)
      ensures r == IdWithoutVersion() + ":" + version
    {
      group + ":" + moduleName + ":" + version
    }

    /** id() is the full coordinate string, version included. */
    function Id(): (r: string)
      ensures r == GetDependency() && r == IdWithoutVersion() + ":" + version
    {
      GetDependency()
    }

    function GetVersion(): (r: string)
      ensures r == version
    {
      version
    }

    /**
     * What COMPARE_BY_GROUP_MODULE_THEN_ID compares: idWithoutVersion() first,
     * then the version.
     */
    function SortKey(): (k: seq<string>)
      ensures |k| == 2 && k[0] == IdWithoutVersion() && k[1] == version
    {
      [IdWithoutVersion(), version]
    }
  }

  /** The record a resolved module contributes, with a copy of the given sources. */
  function FromModuleVersion(id: ModuleVersion, sources: seq<DependencySource>): (d: DependencyInfo)
    ensures d.group == id.group && d.moduleName == id.name && d.version == id.version
    ensures d.sources == sources
  {
    DependencyInfo(id.group, id.name, id.version, sources)
  }

  /**
   * For a module version whose parts hold no ':' and whose version is not empty,
   * the identifier constructor and the String constructor given
   * "group:name:version" build the same record, a canonical one.
   */
  lemma FromModuleVersionAsParsed(id: ModuleVersion, sources: seq<DependencySource>)
    requires ':' !in id.group && ':' !in id.name && ':' !in id.version && id.version != ""
    ensures Canonical(FromModuleVersion(id, sources))
    ensures Parse(id.group + ":" + id.name + ":" + id.version, sources) == Success(FromModuleVersion(id, sources))
  {
    ParseGetDependency(FromModuleVersion(id, sources), sources);
  }

  /** The message of the exception thrown for a coordinate string that is not group:module:version. */
  function BadCoordinatesMessage(dependency: string): string
  {
    "Something is not right with this dependency coords: " + dependency
  }

  /**
   * The String constructor: split the coordinates on ':' (trailing empty pieces
   * dropped) and insist on exactly three pieces.
   */
  function Parse(dependency: string, sources: seq<DependencySource>): (r: Result<DependencyInfo>)
    ensures r.Failure? <==> |Split(dependency, ':')| != 3
    ensures r.Failure? ==> r.error == RuntimeException(BadCoordinatesMessage(dependency))
    ensures r.Success? ==> r.value.sources == sources && Canonical(r.value)
    ensures r.Success? ==> Split(dependency, ':') == [r.value.group, r.value.moduleName, r.value.version]
  {
    var coords := Split(dependency, ':');
    if |coords| != 3 then Failure(RuntimeException(BadCoordinatesMessage(dependency)))
    else
      assert coords[2] != "" by {
        assert ':' in dependency;
        assert coords == DropTrailingEmpty(RawSplit(dependency, ':'));
      }
      Success(DependencyInfo(coords[0], coords[1], coords[2], sources))
  }

  /**
   * The records the String constructor can produce: no ':' inside a coordinate
   * and a non-empty version.
   */
  predicate Canonical(d: DependencyInfo)
  {
    ':' !in d.group && ':' !in d.moduleName && ':' !in d.version && d.version != ""
  }

  /** The id() of a canonical record splits on ':' into its three coordinates. */
  lemma IdSplits(d: DependencyInfo)
    requires Canonical(d)
    ensures Split(d.Id(), ':') == [d.group, d.moduleName, d.version]
  {
    SplitThree(d.group, d.moduleName, d.version, ':');
  }

  /**
   * getVersion() is what id() holds after idWithoutVersion() and ':'; for a
   * canonical record it is the last, non-empty coordinate of id().
   */
  lemma VersionEndsId(d: DependencyInfo)
    ensures d.GetVersion() == d.Id()[|d.IdWithoutVersion()| + 1..]
    ensures Canonical(d) ==> |Split(d.Id(), ':')| == 3 && d.GetVersion() == Split(d.Id(), ':')[2] && d.GetVersion() != ""
  {
    assert d.Id() == d.IdWithoutVersion() + [':'] + d.version;
    if Canonical(d) {
      IdSplits(d);
    }
  }

  /** Canonical records with the same id() agree on group, module and version. */
  lemma IdInjective(a: DependencyInfo, b: DependencyInfo)
    requires Canonical(a) && Canonical(b) && a.Id() == b.Id()
    ensures a.group == b.group && a.moduleName == b.moduleName && a.version == b.version
  {
    assert a.Id() == a.group + [':'] + a.moduleName + [':'] + a.version;
    assert b.Id() == b.group + [':'] + b.moduleName + [':'] + b.version;
    SplitThree(a.group, a.moduleName, a.version, ':');
    SplitThree(b.group, b.moduleName, b.version, ':');
  }

  /** Parsing the coordinates of a canonical record gives the record back. */
  lemma ParseGetDependency(d: DependencyInfo, sources: seq<DependencySource>)
    requires Canonical(d)
    ensures Parse(d.GetDependency(), sources) == Success(d.(sources := sources))
  {
    SplitThree(d.group, d.moduleName, d.version, ':');
  }

  lemma RawSplitTrailingSeparator(g: string, m: string)
    requires ':' !in g && ':' !in m
    ensures RawSplit(g + ":" + m + ":", ':') == [g, m, ""]
  {
    var s := g + ":" + m + ":";
    assert s == g + [':'] + (m + [':'] + "");
    RawSplitCons(g, m + [':'] + "", ':');
    RawSplitCons(m, "", ':');
  }

  /** A trailing empty version is dropped by the split, so "g:m:" is rejected. */
  lemma ParseRejectsEmptyVersion(g: string, m: string, sources: seq<DependencySource>)
    requires ':' !in g && ':' !in m
    ensures Parse(g + ":" + m + ":", sources).Failure?
  {
    var s := g + ":" + m + ":";
    RawSplitTrailingSeparator(g, m);
    assert s[|s| - 1] == ':';
    var raw := [g, m, ""];
    assert raw[|raw| - 1] == "" && raw[..|raw| - 1] == [g, m];
    assert |DropTrailingEmpty(raw)| <= 2;
  }

  /** An empty module is kept, so "g::v" is accepted with module "". */
  lemma ParseAcceptsEmptyModule(g: string, v: string, sources: seq<DependencySource>)
    requires ':' !in g && ':' !in v && v != ""
    ensures Parse(g + "::" + v, sources) == Success(DependencyInfo(g, "", v, sources))
  {
    assert g + "::" + v == g + ":" + "" + ":" + v;
    ParseGetDependency(DependencyInfo(g, "", v, sources), sources);
  }

  /**
   * COMPARE_BY_GROUP_MODULE_THEN_ID, as the sign it returns: zero exactly when
   * both keys agree, negative when idWithoutVersion() is smaller or equal with
   * a smaller version.
   */
  function CompareByGroupModuleThenId(a: DependencyInfo, b: DependencyInfo): (r: int)
    ensures r == 0 <==> a.IdWithoutVersion() == b.IdWithoutVersion() && a.version == b.version
    ensures r < 0 <==> StrLess(a.IdWithoutVersion(), b.IdWithoutVersion())
                       || (a.IdWithoutVersion() == b.IdWithoutVersion() && StrLess(a.version, b.version))
    ensures r > 0 <==> StrLess(b.IdWithoutVersion(), a.IdWithoutVersion())
                       || (a.IdWithoutVersion() == b.IdWithoutVersion() && StrLess(b.version, a.version))
  {
    var c := StrCompare(a.IdWithoutVersion(), b.IdWithoutVersion());
    if c != 0 then c else StrCompare(a.version, b.version)
  }

  /** The comparator and the sort keys order records the same way. */
  lemma CompareAgreesWithSortKey(a: DependencyInfo, b: DependencyInfo)
    ensures CompareByGroupModuleThenId(a, b) == 0 <==> KeyCompare(a.SortKey(), b.SortKey()) == 0
    ensures CompareByGroupModuleThenId(a, b) < 0 <==> KeyCompare(a.SortKey(), b.SortKey()) < 0
  {
    var ka, kb := a.SortKey(), b.SortKey();
    assert ka[1..] == [a.version] && kb[1..] == [b.version];
    assert [a.version][1..] == [] && [b.version][1..] == [];
    assert !KeyLess([], []);
    assert KeyLess(ka[1..], kb[1..]) <==> StrLess(a.version, b.version);
    assert KeyLess(ka, kb) <==> StrLess(ka[0], kb[0]) || (ka[0] == kb[0] && KeyLess(ka[1..], kb[1..]));
    StrLessIsStrictTotalOrder();
  }

  /** Records the comparator treats as equal have the same id(). */
  lemma SameSortKeySameId(a: DependencyInfo, b: DependencyInfo)
    requires a.SortKey() == b.SortKey()
    ensures a.Id() == b.Id()
  {
    assert a.IdWithoutVersion() == a.SortKey()[0] && a.version == a.SortKey()[1];
  }
}
