/**
 * The DependencyGroups object: the HashMap index, the TreeMap of TreeSets, and
 * the methods that change them in place or read them.
 */
module Groups {
  import opened JavaText
  import opened Exceptions
  import opened Ordered
  import opened Sources
  import opened Coordinates
  import opened LockFiles
  import opened GroupStore
  import opened GroupMerge
  import opened GroupCodec

  class DependencyGroups {
    /** dependencyByGroupAndId: records by lookup key. */
    var index: map<string, DependencyInfo>
    /** The TreeMap: for each group, the keys of its TreeSet's records in comparator order. */
    var dependencies: map<string, seq<string>>
    /** The TreeMap's key set in ascending order. */
    var groupOrder: seq<string>

    /** The object's state as a value. */
    function State(): Store
      reads this
    {
      Store(index, dependencies, groupOrder)
    }

    ghost predicate Valid()
      reads this
    {
      Wellformed(State())
    }

    /** new DependencyGroups(): no groups and no records. */
    constructor ()
      ensures Valid() && State() == Empty
    {
      index := map[];
      dependencies := map[];
      groupOrder := [];
    }

    /**
     * addOrMerge(groupName, dependencyInfo). On an exception nothing has
     * changed yet; otherwise the new state is the value model's.
     */
    method AddOrMerge(groupName: string, d: DependencyInfo) returns (outcome: Outcome)
      requires Valid()
      modifies this
      ensures Valid()
      ensures var r := GroupStore.AddOrMerge(old(State()), groupName, d);
        && (r.Success? ==> outcome == Pass && State() == r.value)
        && (r.Failure? ==> outcome == Fail(r.error) && State() == old(State()))
    {
      var lookupKey := LookupKey(groupName, d.Id());
      if lookupKey in index {
        AppendTo(lookupKey, d.sources);
        return Pass;
      }
      var created := Parse(d.GetDependency(), d.sources);
      if created.Failure? {
        return Fail(created.error);
      }
      Insert(groupName, lookupKey, created.value);
      outcome := Pass;
    }

    /** owned.sources.addAll(extra) on the record indexed under key. */
    method AppendTo(key: string, extra: seq<DependencySource>)
      requires Valid() && key in index
      modifies this
      ensures Valid() && State() == AppendSources(old(State()), key, extra)
    {
      ghost var target := AppendSources(State(), key, extra);
      var owned := index[key];
      index := index[key := owned.(sources := owned.sources + extra)];
      assert index == target.index;
    }

    /**
     * A new record goes into the index and into its group's TreeSet, which
     * computeIfAbsent creates when the group is new.
     */
    method Insert(groupName: string, key: string, owned: DependencyInfo)
      requires Valid() && key !in index && Canonical(owned)
      modifies this
      ensures Valid() && State() == InsertRecord(old(State()), groupName, key, owned)
    {
      ghost var target := InsertRecord(State(), groupName, key, owned);
      var members := if groupName in dependencies then dependencies[groupName] else [];
      assert members == Members(State(), groupName);
      MembersStaySorted(State(), groupName, key, owned);
      index := index[key := owned];
      dependencies := dependencies[groupName := Add(members, key, RecordKey(index))];
      groupOrder := Add(groupOrder, groupName, NameKey);
      assert State() == target;
    }

    /**
     * merge(other): addOrMerge of every record of every group of other, in
     * iteration order. The records are taken as other holds them when the
     * call starts.
     */
    method Merge(other: DependencyGroups)
      requires Valid() && other.Valid()
      modifies this
      ensures Valid()
      ensures GroupMerge.Merge(old(State()), old(other.State())).Success?
      ensures State() == GroupMerge.Merge(old(State()), old(other.State())).value
    {
      var source := other.State();
      MergeSucceeds(State(), source);
      ghost var target := GroupMerge.Merge(State(), source);
      var names := source.groupOrder;
      assert names[0..] == names;
      var gi := 0;
      while gi < |names|
        invariant 0 <= gi <= |names| && Valid()
        invariant GroupNames(source, names)
        invariant AddAll(State(), EntriesOf(source, names[gi..])) == target
      {
        var g := names[gi];
        assert names[gi..][0] == g && names[gi..][1..] == names[gi + 1..];
        assert g in names;
        var entries := GroupItems(source.index, g, source.dependencies[g]);
        GroupItemsCanonical(source, g);
        AddAllConcat(State(), entries, EntriesOf(source, names[gi + 1..]));
        AddEach(entries);
        gi := gi + 1;
      }
      assert names[gi..] == [];
    }

    /** entries.forEach(entry -> addOrMerge(groupName, entry)) over records that cannot throw. */
    method AddEach(entries: Items)
      requires Valid() && AllCanonical(entries)
      modifies this
      ensures Valid() && AddAll(old(State()), entries) == Success(State())
    {
      assert entries[0..] == entries;
      var i := 0;
      while i < |entries|
        invariant 0 <= i <= |entries| && Valid()
        invariant AddAll(old(State()), entries) == AddAll(State(), entries[i..])
      {
        assert entries[i..][0] == entries[i] && entries[i..][1..] == entries[i + 1..];
        AddOrMergeIndex(State(), entries[i].0, entries[i].1);
        var outcome := AddOrMerge(entries[i].0, entries[i].1);
        i := i + 1;
      }
      assert entries[i..] == [];
    }

    /** getIfExists(groupName, other): a read-only lookup by group and id(). */
    function GetIfExists(groupName: string, other: DependencyInfo): Option<DependencyInfo>
      reads this
    {
      GroupStore.GetIfExists(State(), groupName, other)
    }

    /**
     * writeTo(comment, writer), as the document handed to the JSON writer: the
     * dictionary pass with its probe loop, then the toMap of every group.
     */
    method WriteTo(comment: string) returns (r: Result<LockFile>)
      requires Valid()
      ensures r == WriteDoc(State(), comment)
    {
      var dict := CollectSources();
      var groups := CollectGroups(dict.sourceToKey);
      if groups.Failure? {
        return Failure(groups.error);
      }
      r := Success(LockFile(comment, dict.keyToSource, groups.value));
    }

    /** The forEach over every record's source list, interning each in the two dictionaries. */
    method CollectSources() returns (dict: Dict)
      requires Valid()
      ensures dict == BuildDict(EmptyDict, Entries(State()))
    {
      var st := State();
      var names := groupOrder;
      ghost var dictTarget := BuildDict(EmptyDict, Entries(st));
      dict := EmptyDict;
      assert names[0..] == names;
      var gi := 0;
      while gi < |names|
        invariant 0 <= gi <= |names| && GroupNames(st, names)
        invariant BuildDict(dict, EntriesOf(st, names[gi..])) == dictTarget
      {
        var g := names[gi];
        assert names[gi..][0] == g && names[gi..][1..] == names[gi + 1..];
        assert g in names;
        var items := GroupItems(index, g, dependencies[g]);
        BuildDictConcat(dict, items, EntriesOf(st, names[gi + 1..]));
        dict := InternEach(dict, items);
        gi := gi + 1;
      }
      assert names[gi..] == [];
    }

    /** The forEach over the groups, putting each group's toMap into configurationGroups. */
    method CollectGroups(sourceToKey: map<seq<DependencySource>, string>) returns (r: Result<seq<(string, GroupEntries)>>)
      requires Valid()
      ensures r == WriteGroups([], State(), groupOrder, sourceToKey)
    {
      var st := State();
      var names := groupOrder;
      ghost var groupsTarget := WriteGroups([], st, names, sourceToKey);
      var groups: seq<(string, GroupEntries)> := [];
      assert names[0..] == names;
      var gi := 0;
      while gi < |names|
        invariant 0 <= gi <= |names| && GroupNames(st, names) && GroupNames(st, names[gi..])
        invariant WriteGroups(groups, st, names[gi..], sourceToKey) == groupsTarget
      {
        var g := names[gi];
        WriteGroupsFrom(groups, st, names, gi, sourceToKey);
        var value := CollectEntries(GroupItems(index, g, dependencies[g]), sourceToKey);
        if value.Failure? {
          return Failure(value.error);
        }
        var next := groups + [(g, value.value)];
        assert WriteGroups(next, st, names[gi + 1..], sourceToKey) == groupsTarget;
        groups := next;
        gi := gi + 1;
      }
      assert names[gi..] == [];
      r := Success(groups);
    }

    /**
     * The dictionary pass over the records of one group: a list not seen
     * before gets the first free key from its hash, probing with 'P'.
     */
    static method InternEach(dict: Dict, items: Items) returns (r: Dict)
      ensures r == BuildDict(dict, items)
    {
      var keyToSource, sourceToKey := dict.keyToSource, dict.sourceToKey;
      assert items[0..] == items;
      var j := 0;
      while j < |items|
        invariant 0 <= j <= |items|
        invariant BuildDict(Dict(keyToSource, sourceToKey), items[j..]) == BuildDict(dict, items)
      {
        var sources := items[j].1.sources;
        assert items[j..][0] == items[j] && items[j..][1..] == items[j + 1..];
        if sources !in sourceToKey {
          var key := BaseKey(sources);
          while key in keyToSource
            invariant Probe(keyToSource.Keys, key) == Probe(keyToSource.Keys, BaseKey(sources))
            decreases set k | k in keyToSource && |k| >= |key|
          {
            ghost var before := set k | k in keyToSource && |k| >= |key|;
            ghost var after := set k | k in keyToSource && |k| >= |key| + 1;
            assert key in before && key !in after && after <= before;
            key := key + "P";
          }
          keyToSource := keyToSource[key := sources];
          sourceToKey := sourceToKey[sources := key];
        }
        j := j + 1;
      }
      assert items[j..] == [];
      r := Dict(keyToSource, sourceToKey);
    }

    /**
     * Collectors.toMap of one group into a LinkedHashMap: id() to
     * "key,refs=N", throwing when an id() repeats.
     */
    static method CollectEntries(items: Items, sourceToKey: map<seq<DependencySource>, string>)
      returns (r: Result<GroupEntries>)
      ensures r == CollectInto([], items, sourceToKey)
    {
      var value: GroupEntries := [];
      assert items[0..] == items;
      var j := 0;
      while j < |items|
        invariant 0 <= j <= |items|
        invariant CollectInto(value, items[j..], sourceToKey) == CollectInto([], items, sourceToKey)
      {
        var d := items[j].1;
        assert items[j..][0] == items[j] && items[j..][1..] == items[j + 1..];
        var dependency := d.GetDependency();
        if HasEntryKey(value, dependency) {
          return Failure(RuntimeException(""));
        }
        value := value + [(dependency, RefsValue(sourceToKey, d.sources))];
        j := j + 1;
      }
      assert items[j..] == [];
      r := Success(value);
    }

    /**
     * readFrom(file): a fresh object filled with addOrMerge from every entry
     * of the document, or the exception the first bad entry throws.
     */
    static method ReadFrom(input: LockFileInput, file: string) returns (r: Result<DependencyGroups>)
      ensures r.Success? ==> fresh(r.value) && r.value.Valid()
      ensures r.Success? ==> GroupCodec.ReadFrom(input, file) == Success(r.value.State())
      ensures r.Failure? ==> GroupCodec.ReadFrom(input, file) == Failure(r.error)
    {
      if input.MismatchedInput? {
        return Failure(GradleException(ReadFailureMessage + file));
      }
      var doc := input.doc;
      var keyToSource := doc.keyToSource;
      var groups := doc.configurationGroups;
      var depGroups := new DependencyGroups();
      ghost var target := ReadGroups(Empty, groups, keyToSource);
      var gi := 0;
      while gi < |groups|
        invariant 0 <= gi <= |groups| && fresh(depGroups) && depGroups.Valid()
        invariant ReadGroups(depGroups.State(), groups[gi..], keyToSource) == target
      {
        var name := groups[gi].0;
        var entries := groups[gi].1;
        assert entries[0..] == entries;
        assert groups[gi..][0] == groups[gi] && groups[gi..][1..] == groups[gi + 1..];
        var j := 0;
        while j < |entries|
          invariant 0 <= j <= |entries| && fresh(depGroups) && depGroups.Valid()
          invariant AndThen(ReadEntries(depGroups.State(), name, entries[j..], keyToSource), groups[gi + 1..], keyToSource) == target
        {
          assert entries[j..][0] == entries[j] && entries[j..][1..] == entries[j + 1..];
          var dependency := entries[j].0;
          var source := entries[j].1;
          var comma := IndexOf(source, ',');
          if comma < 0 {
            return Failure(StringIndexOutOfBoundsException);
          }
          var sourceKey := source[..comma];
          var sources := if sourceKey in keyToSource then keyToSource[sourceKey] else [];
          var created := Parse(dependency, sources);
          if created.Failure? {
            return Failure(created.error);
          }
          if sourceKey !in keyToSource {
            return Failure(NullPointerException);
          }
          var outcome := depGroups.AddOrMerge(name, created.value);
          if outcome.Fail? {
            return Failure(outcome.error);
          }
          j := j + 1;
        }
        assert entries[j..] == [];
        gi := gi + 1;
      }
      assert groups[gi..] == [];
      return Success(depGroups);
    }
  }

  /** The rest of readFrom once a group has been read: the remaining groups, unless it threw. */
  function AndThen(r: Result<Store>, groups: seq<(string, GroupEntries)>,
                   keyToSource: map<string, seq<DependencySource>>): Result<Store>
    requires r.Success? ==> Wellformed(r.value)
  {
    match r
    case Failure(e) => Failure(e)
    case Success(st) => ReadGroups(st, groups, keyToSource)
  }
}
