/**
 * checkLocks: the dependencies resolved now, merged from every configuration
 * group file, compared record by record with those of the lock file.
 */
module LockCheck {
  import opened JavaText
  import opened Exceptions
  import opened Sources
  import opened Coordinates
  import opened LockFiles
  import opened GroupStore
  import opened GroupMerge
  import opened GroupCodec
  import opened Groups
  import opened Consistency

  /** The lock file the task points at: its absolute path, whether it is a regular file, and its content. */
  datatype LockFileRef = LockFileRef(absolutePath: string, isFile: bool, content: LockFileInput)

  /** The name of the task that writes the lock file. */
  const WriteLocksTask: string := "writeLocks"

  /** The GradleException message when the lock file is not a regular file. */
  function MissingLockFileMessage(absolutePath: string): string
  {
    "Lockfile does not exist: " + absolutePath + ", create it using the '" + WriteLocksTask + "' task"
  }

  /** One error line of a configuration group, before it is formatted. */
  datatype Finding =
    | NewDependency(id: string)
    | OnlyInLockfile(id: string)
    | VersionMismatch(artifact: string, lockVersion: string, currentVersion: string)
    | SourcesDifferent(id: string, removed: seq<DependencySource>, added: seq<DependencySource>)

  /** How the task ends. */
  datatype CheckOutcome =
    | LocksMatch
    | Failed(error: Thrown)
    | VersionsInconsistent(report: Validation)
    | Mismatches(groupErrors: seq<(string, seq<Finding>)>)

  // ------------------------------------------------ the source lists

  /** ArrayList.retainAll: the elements of xs that ys contains, in order, duplicates kept. */
  function RetainAll(xs: seq<DependencySource>, ys: seq<DependencySource>): (r: seq<DependencySource>)
    ensures |r| <= |xs|
    ensures forall s :: s in r <==> s in xs && s in ys
  {
    if xs == [] then []
    else (if xs[0] in ys then [xs[0]] else []) + RetainAll(xs[1..], ys)
  }

  /** ArrayList.removeAll: the elements of xs that ys does not contain, in order. */
  function RemoveAll(xs: seq<DependencySource>, ys: seq<DependencySource>): (r: seq<DependencySource>)
    ensures |r| <= |xs|
    ensures forall s :: s in r <==> s in xs && s !in ys
    ensures (forall s | s in xs :: s in ys) ==> r == []
  {
    if xs == [] then []
    else (if xs[0] in ys then [] else [xs[0]]) + RemoveAll(xs[1..], ys)
  }

  /** removeAll depends only on which elements of xs the argument contains. */
  lemma {:induction false} RemoveAllSameMembers(xs: seq<DependencySource>, a: seq<DependencySource>, b: seq<DependencySource>)
    requires forall s | s in xs :: s in a <==> s in b
    ensures RemoveAll(xs, a) == RemoveAll(xs, b)
  {
    if xs != [] {
      assert xs[0] in xs;
      assert forall s | s in xs[1..] :: s in xs;
      RemoveAllSameMembers(xs[1..], a, b);
    }
  }

  /**
   * Removing the shared sources leaves, on the lock-file side, exactly the
   * sources the current record lacks (in lock-file order) and, on the
   * current side, exactly the sources the lock file lacks.
   */
  lemma RemovedAndAdded(lockSources: seq<DependencySource>, currentSources: seq<DependencySource>)
    ensures RemoveAll(lockSources, RetainAll(lockSources, currentSources)) == RemoveAll(lockSources, currentSources)
    ensures RemoveAll(currentSources, RetainAll(lockSources, currentSources)) == RemoveAll(currentSources, lockSources)
  {
    var shared := RetainAll(lockSources, currentSources);
    RemoveAllSameMembers(lockSources, shared, currentSources);
    RemoveAllSameMembers(currentSources, shared, lockSources);
  }

  /**
   * List.equals is order-sensitive: two lists with the same members in
   * another order, or with a repeated member, differ, and yet neither a
   * removed nor a new source is listed for them.
   */
  lemma SameMembersNothingListed(lockSources: seq<DependencySource>, currentSources: seq<DependencySource>)
    requires forall s :: s in lockSources <==> s in currentSources
    ensures RemoveAll(lockSources, RetainAll(lockSources, currentSources)) == []
    ensures RemoveAll(currentSources, RetainAll(lockSources, currentSources)) == []
  {
    RemovedAndAdded(lockSources, currentSources);
  }

  /** Two sources in swapped order make such a pair. */
  lemma SwappedSourcesDiffer()
    ensures var a, b := DependencySource("compileClasspath", ":"), DependencySource("runtimeClasspath", ":");
      [a, b] != [b, a]
      && RemoveAll([a, b], RetainAll([a, b], [b, a])) == []
      && RemoveAll([b, a], RetainAll([a, b], [b, a])) == []
  {
    var a, b := DependencySource("compileClasspath", ":"), DependencySource("runtimeClasspath", ":");
    assert [a, b][0] != [b, a][0];
    SameMembersNothingListed([a, b], [b, a]);
  }

  // ------------------------------------------------ one record

  /** The error, if any, for one record of the combined set, found in the lock file and the current set by group and id(). */
  function Classify(lock: Store, current: Store, groupName: string, dep: DependencyInfo): Option<Finding>
  {
    match GetIfExists(lock, groupName, dep)
    case None => Some(NewDependency(dep.Id()))
    case Some(inLockFile) =>
      match GetIfExists(current, groupName, dep)
      case None => Some(OnlyInLockfile(dep.Id()))
      case Some(inCurrent) =>
        if inLockFile.GetVersion() != inCurrent.GetVersion() then
          Some(VersionMismatch(dep.IdWithoutVersion(), inLockFile.GetVersion(), inCurrent.GetVersion()))
        else if inLockFile.sources != inCurrent.sources then
          var shared := RetainAll(inLockFile.sources, inCurrent.sources);
          Some(SourcesDifferent(dep.Id(), RemoveAll(inLockFile.sources, shared), RemoveAll(inCurrent.sources, shared)))
        else None
  }

  /** A store whose index keys cannot collide across groups and which keeps the index invariant. */
  ghost predicate Sound(st: Store)
  {
    Wellformed(st) && Consistent(st) && SafeNames(st)
  }

  /** Records under the same key of two sound stores have the same id(). */
  lemma SameKeySameId(a: Store, b: Store, k: string)
    requires Sound(a) && Sound(b) && k in a.index && k in b.index
    ensures a.index[k].Id() == b.index[k].Id()
  {
    var ga :| ga in a.dependencies && k in a.dependencies[ga];
    var gb :| gb in b.dependencies && k in b.dependencies[gb];
    LookupKeyInjective(ga, a.index[k].Id(), gb, b.index[k].Id());
  }

  /** Records under the same key of two consistent stores have the same version, whatever the group names. */
  lemma SameKeySameVersion(a: Store, b: Store, k: string)
    requires Wellformed(a) && Consistent(a) && Wellformed(b) && Consistent(b)
    requires k in a.index && k in b.index
    ensures a.index[k].version == b.index[k].version
  {
    var ga := OwnedKey(a, k);
    var gb := OwnedKey(b, k);
    LookupKeySameVersion(ga, a.index[k], gb, b.index[k]);
  }

  /**
   * Between two consistent sets the version-mismatch branch is never taken:
   * a record found under one key in both has the version that key ends with.
   */
  lemma VersionMismatchUnreachable(lock: Store, current: Store, groupName: string, dep: DependencyInfo)
    requires Wellformed(lock) && Consistent(lock) && Wellformed(current) && Consistent(current)
    ensures var f := Classify(lock, current, groupName, dep);
      !(f.Some? && f.value.VersionMismatch?)
  {
    var k := LookupKey(groupName, dep.Id());
    if k in lock.index && k in current.index {
      SameKeySameVersion(lock, current, k);
    }
  }

  /**
   * A record is looked up under the key of its group and id(): it is new
   * exactly when the lock file lacks that key, only in the lock file exactly
   * when the lock file has it and the current set does not, and fine exactly
   * when both have it with the same version and the same source list.
   */
  lemma ClassifyByKey(lock: Store, current: Store, groupName: string, dep: DependencyInfo)
    ensures var f := Classify(lock, current, groupName, dep);
      var k := LookupKey(groupName, dep.Id());
      && (f == Some(NewDependency(dep.Id())) <==> k !in lock.index)
      && (f == Some(OnlyInLockfile(dep.Id())) <==> k in lock.index && k !in current.index)
      && (f.None? <==>
            k in lock.index && k in current.index
            && lock.index[k].version == current.index[k].version && lock.index[k].sources == current.index[k].sources)
  {
  }

  /** Under one key, two sound sets hold the same record exactly when version and sources agree. */
  lemma SameRecordIff(lock: Store, current: Store, k: string)
    requires Sound(lock) && Sound(current) && k in lock.index && k in current.index
    ensures lock.index[k] == current.index[k] <==>
      lock.index[k].version == current.index[k].version && lock.index[k].sources == current.index[k].sources
  {
    SameKeySameId(lock, current, k);
    IdInjective(lock.index[k], current.index[k]);
  }

  /**
   * For a record of the combined set, under key k of its group: it is new
   * exactly when the lock file lacks k, only in the lock file exactly when
   * the lock file has k and the current set lacks it, and fine exactly when
   * both sets hold the same record under k.
   */
  lemma ClassifyMeaning(lock: Store, current: Store, groupName: string, dep: DependencyInfo, k: string)
    requires Sound(lock) && Sound(current) && k == LookupKey(groupName, dep.Id())
    ensures var f := Classify(lock, current, groupName, dep);
      && (f == Some(NewDependency(dep.Id())) <==> k !in lock.index)
      && (f == Some(OnlyInLockfile(dep.Id())) <==> k in lock.index && k !in current.index)
      && (f.None? <==> k in lock.index && k in current.index && lock.index[k] == current.index[k])
  {
    ClassifyByKey(lock, current, groupName, dep);
    if k in lock.index && k in current.index {
      SameRecordIff(lock, current, k);
    }
  }

  // ------------------------------------------------ every group

  /** The errors of one group: each record of its TreeSet in order, classified. */
  function GroupFindings(lock: Store, current: Store, groupName: string, deps: seq<DependencyInfo>): seq<Finding>
  {
    if deps == [] then []
    else
      var f := Classify(lock, current, groupName, deps[0]);
      (if f.Some? then [f.value] else []) + GroupFindings(lock, current, groupName, deps[1..])
  }

  /** The groups of the combined set in TreeMap order, each kept only when it has errors. */
  function DiffGroups(combined: Store, names: seq<string>, lock: Store, current: Store): seq<(string, seq<Finding>)>
    requires Indexed(combined) && GroupNames(combined, names)
  {
    if names == [] then []
    else
      GroupNamesTail(combined, names);
      var errors := GroupFindings(lock, current, names[0], GroupRecords(combined, names[0]));
      (if errors != [] then [(names[0], errors)] else []) + DiffGroups(combined, names[1..], lock, current)
  }

  /** new DependencyGroups(), merged with the current set and then with the lock file's. */
  function Combined(current: Store, lock: Store): (r: Store)
    requires Wellformed(current) && Wellformed(lock)
    ensures Wellformed(r)
  {
    MergeSucceeds(Empty, current);
    var first := Merge(Empty, current).value;
    MergeSucceeds(first, lock);
    Merge(first, lock).value
  }

  /** The comparison of the two sets: no error in any group, or the groups with errors. */
  function Compare(current: Store, lock: Store): CheckOutcome
    requires Wellformed(current) && Wellformed(lock)
  {
    var combined := Combined(current, lock);
    var groupErrors := DiffGroups(combined, combined.groupOrder, lock, current);
    if groupErrors == [] then LocksMatch else Mismatches(groupErrors)
  }

  /**
   * action(): merge and validate the current set, require the lock file,
   * read and validate it, then compare.
   */
  function CheckLocksOutcome(files: seq<InputFile>, lockFile: LockFileRef): CheckOutcome
  {
    match MergedDependencyGroups(files)
    case Failure(e) => Failed(e)
    case Success(current) =>
      var validation := CheckConsistentVersions(current);
      if validation.MultipleVersions? then VersionsInconsistent(validation)
      else if !lockFile.isFile then Failed(GradleException(MissingLockFileMessage(lockFile.absolutePath)))
      else
        match ReadFrom(lockFile.content, lockFile.absolutePath)
        case Failure(e) => Failed(e)
        case Success(fromLockFile) =>
          var lockValidation := CheckConsistentVersions(fromLockFile);
          if lockValidation.MultipleVersions? then VersionsInconsistent(lockValidation)
          else Compare(current, fromLockFile)
  }

  // ------------------------------------------------ what the comparison establishes

  /** The combined set holds the records of both sets under their keys, each key once. */
  lemma CombinedFacts(current: Store, lock: Store)
    requires Wellformed(current) && Consistent(current) && Wellformed(lock) && Consistent(lock)
    ensures Consistent(Combined(current, lock))
    ensures CombinedIndex(current.index, lock.index, Combined(current, lock).index)
  {
    MergeIntoEmpty(current);
    MergeIndex(current, lock);
  }

  /**
   * Walking the combined set visits every key of either set exactly once:
   * the keys of its groups, in iteration order, are distinct and are the
   * keys of the current set and of the lock file together.
   */
  lemma DiffVisitsEachKeyOnce(current: Store, lock: Store)
    requires Wellformed(current) && Consistent(current) && Wellformed(lock) && Consistent(lock)
    ensures var combined := Combined(current, lock);
      && Distinct(ItemKeys(Entries(combined)))
      && forall k :: k in ItemKeys(Entries(combined)) <==> k in current.index || k in lock.index
  {
    CombinedFacts(current, lock);
    EntriesCoverIndex(Combined(current, lock));
  }

  /** Every reported group is one of the names, with its errors, which are not empty. */
  lemma {:induction false} DiffGroupsReported(combined: Store, names: seq<string>, lock: Store, current: Store)
    requires Indexed(combined) && GroupNames(combined, names)
    ensures forall e | e in DiffGroups(combined, names, lock, current) ::
      e.0 in names && e.0 in combined.dependencies && e.1 != []
      && e.1 == GroupFindings(lock, current, e.0, GroupRecords(combined, e.0))
  {
    if names != [] {
      GroupNamesTail(combined, names);
      DiffGroupsReported(combined, names[1..], lock, current);
      assert forall g | g in names[1..] :: g in names;
    }
  }

  /** Every named group with at least one error is reported, with those errors. */
  lemma {:induction false} DiffGroupsComplete(combined: Store, names: seq<string>, lock: Store, current: Store, g: string)
    requires Indexed(combined) && GroupNames(combined, names)
    requires g in names && GroupFindings(lock, current, g, GroupRecords(combined, g)) != []
    ensures (g, GroupFindings(lock, current, g, GroupRecords(combined, g))) in DiffGroups(combined, names, lock, current)
  {
    GroupNamesTail(combined, names);
    if names[0] != g {
      DiffGroupsComplete(combined, names[1..], lock, current, g);
    }
  }

  /** Names in ascending order. */
  predicate Ascending(names: seq<string>)
  {
    forall i, j | 0 <= i < j < |names| :: StrLess(names[i], names[j])
  }

  /** The names of the reported groups. */
  function ReportedNames(groupErrors: seq<(string, seq<Finding>)>): (r: seq<string>)
    ensures |r| == |groupErrors| && forall i | 0 <= i < |r| :: r[i] == groupErrors[i].0
  {
    if groupErrors == [] then [] else [groupErrors[0].0] + ReportedNames(groupErrors[1..])
  }

  lemma AscendingCons(g: string, names: seq<string>)
    requires Ascending(names) && forall h | h in names :: StrLess(g, h)
    ensures Ascending([g] + names)
  {
    var all := [g] + names;
    forall i, j | 0 <= i < j < |all| ensures StrLess(all[i], all[j]) {
      if i == 0 { assert all[j] == names[j - 1] && names[j - 1] in names; }
      else { assert all[i] == names[i - 1] && all[j] == names[j - 1]; }
    }
  }

  /** Groups reported from the names after the first come after it. */
  lemma LaterNamesFollow(names: seq<string>, rest: seq<(string, seq<Finding>)>)
    requires Ascending(names) && names != []
    requires forall e | e in rest :: e.0 in names[1..]
    ensures forall h | h in ReportedNames(rest) :: StrLess(names[0], h)
  {
    forall h | h in ReportedNames(rest) ensures StrLess(names[0], h) {
      var i :| 0 <= i < |ReportedNames(rest)| && ReportedNames(rest)[i] == h;
      assert rest[i] in rest;
      var j :| 0 <= j < |names[1..]| && names[1..][j] == h;
      assert names[j + 1] == h;
    }
  }

  /** The groups are reported in the order of the names, so in ascending order for sorted names, as the TreeMap holds them. */
  lemma {:induction false} DiffGroupsOrdered(combined: Store, names: seq<string>, lock: Store, current: Store)
    requires Indexed(combined) && GroupNames(combined, names) && Ascending(names)
    ensures Ascending(ReportedNames(DiffGroups(combined, names, lock, current)))
  {
    if names != [] {
      GroupNamesTail(combined, names);
      var rest := DiffGroups(combined, names[1..], lock, current);
      assert Ascending(names[1..]) by {
        assert forall i | 0 <= i < |names| - 1 :: names[1..][i] == names[i + 1];
      }
      DiffGroupsOrdered(combined, names[1..], lock, current);
      DiffGroupsReported(combined, names[1..], lock, current);
      var r := DiffGroups(combined, names, lock, current);
      if r != rest {
        LaterNamesFollow(names, rest);
        AscendingCons(names[0], ReportedNames(rest));
        assert ReportedNames(r) == [names[0]] + ReportedNames(rest);
      }
    }
  }

  /** The errors of a group are empty exactly when no record of it has an error. */
  lemma {:induction false} GroupFindingsEmpty(lock: Store, current: Store, groupName: string, deps: seq<DependencyInfo>)
    ensures GroupFindings(lock, current, groupName, deps) == [] <==>
      forall i | 0 <= i < |deps| :: Classify(lock, current, groupName, deps[i]).None?
  {
    if deps != [] {
      GroupFindingsEmpty(lock, current, groupName, deps[1..]);
      assert forall i | 1 <= i < |deps| :: deps[i] == deps[1..][i - 1];
    }
  }

  /** No record of any of the named groups has an error. */
  ghost predicate GroupsClean(combined: Store, names: seq<string>, lock: Store, current: Store)
    requires Indexed(combined) && GroupNames(combined, names)
  {
    forall g | g in names :: GroupFindings(lock, current, g, GroupRecords(combined, g)) == []
  }

  lemma {:induction false} DiffGroupsEmptyIfClean(combined: Store, names: seq<string>, lock: Store, current: Store)
    requires Indexed(combined) && GroupNames(combined, names) && GroupsClean(combined, names, lock, current)
    ensures DiffGroups(combined, names, lock, current) == []
  {
    if names != [] {
      GroupNamesTail(combined, names);
      assert names[0] in names;
      assert forall g | g in names[1..] :: g in names;
      DiffGroupsEmptyIfClean(combined, names[1..], lock, current);
    }
  }

  lemma {:induction false} CleanIfDiffGroupsEmpty(combined: Store, names: seq<string>, lock: Store, current: Store)
    requires Indexed(combined) && GroupNames(combined, names) && DiffGroups(combined, names, lock, current) == []
    ensures GroupsClean(combined, names, lock, current)
  {
    if names != [] {
      GroupNamesTail(combined, names);
      CleanIfDiffGroupsEmpty(combined, names[1..], lock, current);
      assert forall g | g in names :: g == names[0] || g in names[1..];
    }
  }

  /** A group's errors are empty exactly when every record of it is fine. */
  lemma GroupCleanIff(combined: Store, lock: Store, current: Store, g: string)
    requires Indexed(combined) && g in combined.dependencies
    ensures GroupFindings(lock, current, g, GroupRecords(combined, g)) == [] <==>
      forall k | k in combined.dependencies[g] :: Classify(lock, current, g, combined.index[k]).None?
  {
    var keys := combined.dependencies[g];
    var rs := GroupRecords(combined, g);
    GroupFindingsEmpty(lock, current, g, rs);
    if forall i | 0 <= i < |rs| :: Classify(lock, current, g, rs[i]).None? {
      forall k | k in keys ensures Classify(lock, current, g, combined.index[k]).None? {
        var i :| 0 <= i < |keys| && keys[i] == k;
        assert rs[i] == combined.index[k];
      }
    } else {
      var i :| 0 <= i < |rs| && !Classify(lock, current, g, rs[i]).None?;
      assert keys[i] in keys && rs[i] == combined.index[keys[i]];
    }
  }

  /** The groups are listed by the names and every member key is indexed. */
  ghost predicate Listed(st: Store)
  {
    Indexed(st) && forall g :: g in st.groupOrder <==> g in st.dependencies
  }

  /** No record of the combined set has an error. */
  ghost predicate AllClean(combined: Store, lock: Store, current: Store)
    requires Indexed(combined)
  {
    forall g, k | g in combined.dependencies && k in combined.dependencies[g] ::
      Classify(lock, current, g, combined.index[k]).None?
  }

  /** The comparison finds nothing exactly when no record of the combined set has an error. */
  lemma DiffEmptyIffAllClean(combined: Store, lock: Store, current: Store)
    requires Listed(combined)
    ensures DiffGroups(combined, combined.groupOrder, lock, current) == [] <==> AllClean(combined, lock, current)
  {
    var names := combined.groupOrder;
    if DiffGroups(combined, names, lock, current) == [] {
      CleanIfDiffGroupsEmpty(combined, names, lock, current);
      forall g | g in combined.dependencies
        ensures forall k | k in combined.dependencies[g] :: Classify(lock, current, g, combined.index[k]).None?
      {
        GroupCleanIff(combined, lock, current, g);
      }
    } else if AllClean(combined, lock, current) {
      forall g | g in names ensures GroupFindings(lock, current, g, GroupRecords(combined, g)) == [] {
        GroupCleanIff(combined, lock, current, g);
      }
      DiffGroupsEmptyIfClean(combined, names, lock, current);
    }
  }

  /** A key of the combined set belongs to a group under which it is the record's lookup key. */
  lemma OwnedKey(combined: Store, k: string) returns (g: string)
    requires Wellformed(combined) && Consistent(combined) && k in combined.index
    ensures g in combined.dependencies && k in combined.dependencies[g]
    ensures k == LookupKey(g, combined.index[k].Id()) && ':' !in combined.index[k].version
  {
    g :| g in combined.dependencies && k in combined.dependencies[g];
  }

  /** When every record of the combined set is fine, each of its keys holds the same record in both sets. */
  lemma CleanKeyAgrees(current: Store, lock: Store, combined: Store, k: string)
    requires Sound(current) && Sound(lock) && Wellformed(combined) && Consistent(combined)
    requires AllClean(combined, lock, current) && k in combined.index
    ensures k in lock.index && k in current.index && lock.index[k] == current.index[k]
  {
    var g := OwnedKey(combined, k);
    ClassifyMeaning(lock, current, g, combined.index[k], k);
  }

  /** When both sets hold the same records, each record of the combined set is fine. */
  lemma SameIndexKeyClean(current: Store, lock: Store, dep: DependencyInfo, g: string, k: string)
    requires current.index == lock.index && k in current.index && k == LookupKey(g, dep.Id())
    ensures Classify(lock, current, g, dep).None?
  {
    ClassifyByKey(lock, current, g, dep);
  }

  /** Every record of a set holding the keys of both is fine exactly when the two sets have equal indexes. */
  lemma AllCleanIffSameIndexOf(current: Store, lock: Store, combined: Store)
    requires Sound(current) && Sound(lock) && Wellformed(combined) && Consistent(combined)
    requires combined.index.Keys == current.index.Keys + lock.index.Keys
    ensures AllClean(combined, lock, current) <==> current.index == lock.index
  {
    if AllClean(combined, lock, current) {
      CleanMeansSameIndex(current, lock, combined);
    } else if current.index == lock.index {
      SameIndexMeansClean(current, lock, combined);
    }
  }

  lemma CleanMeansSameIndex(current: Store, lock: Store, combined: Store)
    requires Sound(current) && Sound(lock) && Wellformed(combined) && Consistent(combined)
    requires combined.index.Keys == current.index.Keys + lock.index.Keys
    requires AllClean(combined, lock, current)
    ensures current.index == lock.index
  {
    CleanKeysAgree(current, lock, combined);
    KeysAgreeSameIndex(current.index, lock.index, combined.index);
  }

  lemma CleanKeysAgree(current: Store, lock: Store, combined: Store)
    requires Sound(current) && Sound(lock) && Wellformed(combined) && Consistent(combined)
    requires AllClean(combined, lock, current)
    ensures forall k | k in combined.index :: k in lock.index && k in current.index && lock.index[k] == current.index[k]
  {
    forall k | k in combined.index ensures k in lock.index && k in current.index && lock.index[k] == current.index[k] {
      CleanKeyAgrees(current, lock, combined, k);
    }
  }

  lemma KeysAgreeSameIndex(a: map<string, DependencyInfo>, b: map<string, DependencyInfo>, both: map<string, DependencyInfo>)
    requires both.Keys == a.Keys + b.Keys
    requires forall k | k in both :: k in a && k in b && a[k] == b[k]
    ensures a == b
  {
  }

  lemma SameIndexMeansClean(current: Store, lock: Store, combined: Store)
    requires Wellformed(combined) && Consistent(combined)
    requires combined.index.Keys == current.index.Keys + lock.index.Keys
    requires current.index == lock.index
    ensures AllClean(combined, lock, current)
  {
    forall g, k | g in combined.dependencies && k in combined.dependencies[g]
      ensures Classify(lock, current, g, combined.index[k]).None?
    {
      SameIndexKeyClean(current, lock, combined.index[k], g, k);
    }
  }

  /** Every record of the combined set is fine exactly when the two sets have equal indexes. */
  lemma AllCleanIffSameIndex(current: Store, lock: Store)
    requires Sound(current) && Sound(lock)
    ensures AllClean(Combined(current, lock), lock, current) <==> current.index == lock.index
  {
    CombinedFacts(current, lock);
    AllCleanIffSameIndexOf(current, lock, Combined(current, lock));
  }

  /** A consistent set compared with itself passes, whatever its group names. */
  lemma EqualSetsMatch(st: Store)
    requires Wellformed(st) && Consistent(st)
    ensures Compare(st, st) == LocksMatch
  {
    var combined := Combined(st, st);
    CombinedFacts(st, st);
    SameIndexMeansClean(st, st, combined);
    DiffEmptyIffAllClean(combined, st, st);
  }

  /**
   * The comparison reports nothing when the lock file holds the current set,
   * for any group names; for group names without '>' it reports nothing only
   * then: the same groups, the same records in each, with the same versions
   * and the same source lists.
   */
  lemma CompareMatchesIffEqual(current: Store, lock: Store)
    requires Wellformed(current) && Consistent(current) && Wellformed(lock) && Consistent(lock)
    ensures current == lock ==> Compare(current, lock) == LocksMatch
    ensures SafeNames(current) && SafeNames(lock) ==> (Compare(current, lock).LocksMatch? <==> current == lock)
    ensures Compare(current, lock).LocksMatch? || Compare(current, lock).Mismatches?
  {
    if current == lock {
      EqualSetsMatch(current);
    } else if SafeNames(current) && SafeNames(lock) {
      var combined := Combined(current, lock);
      DiffEmptyIffAllClean(combined, lock, current);
      AllCleanIffSameIndex(current, lock);
      if current.index == lock.index {
        SameIndexSameStore(current, lock);
      }
    }
  }

  /**
   * The lock file is looked at only after the current set was merged and
   * found consistent; when it is not a regular file its content plays no
   * part, and the task fails with the message naming its path.
   */
  lemma MissingLockFileFails(files: seq<InputFile>, lockFile: LockFileRef)
    requires !lockFile.isFile
    ensures forall content: LockFileInput ::
      CheckLocksOutcome(files, lockFile.(content := content)) == CheckLocksOutcome(files, lockFile)
    ensures var merged := MergedDependencyGroups(files);
      merged.Success? && CheckConsistentVersions(merged.value).VersionsConsistent? ==>
        CheckLocksOutcome(files, lockFile) == Failed(GradleException(MissingLockFileMessage(lockFile.absolutePath)))
    ensures var merged := MergedDependencyGroups(files);
      merged.Failure? ==> CheckLocksOutcome(files, lockFile) == Failed(merged.error)
  {
  }

  /**
   * checkLocks passes only when every file is read, the current set is
   * consistent, and the lock file exists, is read and is consistent. Then it
   * passes when the lock file holds exactly the current set and, for group
   * names without '>', only then.
   */
  lemma CheckLocksPassesIff(files: seq<InputFile>, lockFile: LockFileRef)
    ensures var merged := MergedDependencyGroups(files);
      var read := ReadFrom(lockFile.content, lockFile.absolutePath);
      CheckLocksOutcome(files, lockFile) == LocksMatch ==>
        merged.Success? && lockFile.isFile && read.Success?
        && CheckConsistentVersions(merged.value).VersionsConsistent?
        && CheckConsistentVersions(read.value).VersionsConsistent?
    ensures var merged := MergedDependencyGroups(files);
      var read := ReadFrom(lockFile.content, lockFile.absolutePath);
      merged.Success? && lockFile.isFile && read.Success?
      && CheckConsistentVersions(merged.value).VersionsConsistent?
      && CheckConsistentVersions(read.value).VersionsConsistent?
      && merged.value == read.value ==>
        CheckLocksOutcome(files, lockFile) == LocksMatch
    ensures var merged := MergedDependencyGroups(files);
      var read := ReadFrom(lockFile.content, lockFile.absolutePath);
      merged.Success? && lockFile.isFile && read.Success?
      && CheckConsistentVersions(merged.value).VersionsConsistent?
      && CheckConsistentVersions(read.value).VersionsConsistent?
      && SafeNames(merged.value) && SafeNames(read.value) ==>
        (CheckLocksOutcome(files, lockFile) == LocksMatch <==> merged.value == read.value)
  {
    var merged := MergedDependencyGroups(files);
    var read := ReadFrom(lockFile.content, lockFile.absolutePath);
    MergedOutcome(files);
    ReadFromConsistent(lockFile.content, lockFile.absolutePath);
    if merged.Success? && read.Success? {
      CompareMatchesIffEqual(merged.value, read.value);
    }
  }

  /**
   * The document writeLocks writes for the current set makes checkLocks pass
   * at once, for any group names and any comment.
   */
  lemma WrittenLocksPass(files: seq<InputFile>, comment: string, path: string)
    requires MergedDependencyGroups(files).Success?
    requires CheckConsistentVersions(MergedDependencyGroups(files).value).VersionsConsistent?
    ensures WriteDoc(MergedDependencyGroups(files).value, comment).Success?
    ensures var doc := WriteDoc(MergedDependencyGroups(files).value, comment).value;
      CheckLocksOutcome(files, LockFileRef(path, true, Bound(doc))) == LocksMatch
  {
    var st := MergedDependencyGroups(files).value;
    MergedOutcome(files);
    RoundTrip(st, comment, path);
    EqualSetsMatch(st);
  }

  // ------------------------------------------------ the task over the object model

  /** The first of the named groups, then the rest. */
  lemma DiffGroupsCons(combined: Store, names: seq<string>, lock: Store, current: Store)
    requires Indexed(combined) && GroupNames(combined, names) && names != []
    ensures names[0] in combined.dependencies && GroupNames(combined, names[1..])
    ensures var errors := GroupFindings(lock, current, names[0], GroupRecords(combined, names[0]));
      DiffGroups(combined, names, lock, current)
      == (if errors != [] then [(names[0], errors)] else []) + DiffGroups(combined, names[1..], lock, current)
  {
    GroupNamesTail(combined, names);
  }

  /** The errors of a record followed by those of the rest of its group. */
  lemma GroupFindingsCons(lock: Store, current: Store, groupName: string, index: map<string, DependencyInfo>, keys: seq<string>)
    requires keys != [] && forall k | k in keys :: k in index
    ensures var f := Classify(lock, current, groupName, index[keys[0]]);
      GroupFindings(lock, current, groupName, Records(index, keys))
      == (if f.Some? then [f.value] else []) + GroupFindings(lock, current, groupName, Records(index, keys[1..]))
  {
    assert Records(index, keys)[1..] == Records(index, keys[1..]);
  }

  /** The errors from position i of a group onwards: those of record i, then those after it. */
  lemma GroupFindingsFrom(lock: Store, current: Store, groupName: string, index: map<string, DependencyInfo>, keys: seq<string>, i: nat)
    requires i < |keys| && forall k | k in keys :: k in index
    ensures var f := Classify(lock, current, groupName, index[keys[i]]);
      GroupFindings(lock, current, groupName, Records(index, keys[i..]))
      == (if f.Some? then [f.value] else []) + GroupFindings(lock, current, groupName, Records(index, keys[i + 1..]))
  {
    assert keys[i..][0] == keys[i] && keys[i..][1..] == keys[i + 1..];
    GroupFindingsCons(lock, current, groupName, index, keys[i..]);
  }

  /** The body of deps.forEach: the error, if any, of one record of the combined set. */
  method Examine(fromLockFile: DependencyGroups, current: DependencyGroups, groupName: string, dep: DependencyInfo)
    returns (error: Option<Finding>)
    ensures error == Classify(fromLockFile.State(), current.State(), groupName, dep)
  {
    var inLockFile := fromLockFile.GetIfExists(groupName, dep);
    var inCurrent := current.GetIfExists(groupName, dep);
    if inLockFile.None? {
      error := Some(NewDependency(dep.Id()));
    } else if inCurrent.None? {
      error := Some(OnlyInLockfile(dep.Id()));
    } else if inLockFile.value.GetVersion() != inCurrent.value.GetVersion() {
      error := Some(VersionMismatch(dep.IdWithoutVersion(), inLockFile.value.GetVersion(), inCurrent.value.GetVersion()));
    } else if inLockFile.value.sources != inCurrent.value.sources {
      var shared := RetainAll(inLockFile.value.sources, inCurrent.value.sources);
      var inLockFileBecause := RemoveAll(inLockFile.value.sources, shared);
      var inCurrentBecause := RemoveAll(inCurrent.value.sources, shared);
      error := Some(SourcesDifferent(dep.Id(), inLockFileBecause, inCurrentBecause));
    } else {
      error := None;
    }
  }

  /** deps.forEach over the records stored under keys, collecting their errors in order. */
  method ErrorsOf(fromLockFile: DependencyGroups, current: DependencyGroups, groupName: string,
                  index: map<string, DependencyInfo>, keys: seq<string>)
    returns (errors: seq<Finding>)
    requires forall k | k in keys :: k in index
    ensures errors == GroupFindings(fromLockFile.State(), current.State(), groupName, Records(index, keys))
  {
    ghost var lock, now := fromLockFile.State(), current.State();
    ghost var target := GroupFindings(lock, now, groupName, Records(index, keys));
    errors := [];
    assert keys[0..] == keys;
    for i := 0 to |keys|
      invariant errors + GroupFindings(lock, now, groupName, Records(index, keys[i..])) == target
    {
      GroupFindingsFrom(lock, now, groupName, index, keys, i);
      ghost var rest := GroupFindings(lock, now, groupName, Records(index, keys[i + 1..]));
      var error := Examine(fromLockFile, current, groupName, index[keys[i]]);
      if error.Some? {
        assert (errors + [error.value]) + rest == errors + ([error.value] + rest);
        errors := errors + [error.value];
      }
    }
    assert keys[|keys|..] == [];
  }

  /** The errors of one group of the combined set: each record of its TreeSet, in order. */
  method GroupErrors(combined: DependencyGroups, fromLockFile: DependencyGroups, current: DependencyGroups, groupName: string)
    returns (errors: seq<Finding>)
    requires Indexed(combined.State()) && groupName in combined.dependencies
    ensures errors == GroupFindings(fromLockFile.State(), current.State(), groupName, GroupRecords(combined.State(), groupName))
  {
    errors := ErrorsOf(fromLockFile, current, groupName, combined.index, combined.dependencies[groupName]);
  }

  /** groupErrors: the groups of the combined set in TreeMap order, those with errors. */
  method CollectGroupErrors(combined: DependencyGroups, fromLockFile: DependencyGroups, current: DependencyGroups)
    returns (groupErrors: seq<(string, seq<Finding>)>)
    requires Listed(combined.State())
    ensures groupErrors == DiffGroups(combined.State(), combined.groupOrder, fromLockFile.State(), current.State())
  {
    ghost var st := combined.State();
    ghost var lock, now := fromLockFile.State(), current.State();
    var names := combined.groupOrder;
    ghost var target := DiffGroups(st, names, lock, now);
    groupErrors := [];
    assert names[0..] == names;
    for gi := 0 to |names|
      invariant GroupNames(st, names[gi..])
      invariant groupErrors + DiffGroups(st, names[gi..], lock, now) == target
    {
      DiffGroupsFrom(st, names, gi, lock, now);
      groupErrors := ReportGroup(combined, fromLockFile, current, names, gi, groupErrors);
    }
    assert names[|names|..] == [];
  }

  /** One turn of the groupErrors loop: group i's errors are appended when it has any. */
  method ReportGroup(combined: DependencyGroups, fromLockFile: DependencyGroups, current: DependencyGroups,
                     names: seq<string>, i: nat, groupErrors: seq<(string, seq<Finding>)>)
    returns (r: seq<(string, seq<Finding>)>)
    requires Listed(combined.State()) && i < |names|
    requires GroupNames(combined.State(), names[i..]) && GroupNames(combined.State(), names[i + 1..])
    ensures r + DiffGroups(combined.State(), names[i + 1..], fromLockFile.State(), current.State())
            == groupErrors + DiffGroups(combined.State(), names[i..], fromLockFile.State(), current.State())
  {
    ghost var st := combined.State();
    ghost var lock, now := fromLockFile.State(), current.State();
    assert names[i..][0] == names[i] && names[i..][1..] == names[i + 1..];
    DiffGroupsCons(st, names[i..], lock, now);
    ghost var rest := DiffGroups(st, names[i + 1..], lock, now);
    var errors := GroupErrors(combined, fromLockFile, current, names[i]);
    if errors != [] {
      assert (groupErrors + [(names[i], errors)]) + rest == groupErrors + ([(names[i], errors)] + rest);
      r := groupErrors + [(names[i], errors)];
    } else {
      r := groupErrors;
    }
  }

  /** The groups from position i onwards: group i's report, if any, then those after it. */
  lemma DiffGroupsFrom(combined: Store, names: seq<string>, i: nat, lock: Store, current: Store)
    requires Indexed(combined) && GroupNames(combined, names) && i < |names|
    ensures names[i] in combined.dependencies && GroupNames(combined, names[i..]) && GroupNames(combined, names[i + 1..])
    ensures var errors := GroupFindings(lock, current, names[i], GroupRecords(combined, names[i]));
      DiffGroups(combined, names[i..], lock, current)
      == (if errors != [] then [(names[i], errors)] else []) + DiffGroups(combined, names[i + 1..], lock, current)
  {
    assert names[i..][0] == names[i] && names[i..][1..] == names[i + 1..];
    assert forall g | g in names[i..] :: g in names;
    DiffGroupsCons(combined, names[i..], lock, current);
  }

  /** The comparison over the object model: a new set merged with both, then walked group by group. */
  method CompareSets(current: DependencyGroups, fromLockFile: DependencyGroups) returns (r: CheckOutcome)
    requires current.Valid() && fromLockFile.Valid()
    ensures r == Compare(current.State(), fromLockFile.State())
  {
    var combined := new DependencyGroups();
    combined.Merge(current);
    combined.Merge(fromLockFile);
    var groupErrors := CollectGroupErrors(combined, fromLockFile, current);
    if groupErrors == [] {
      return LocksMatch;
    }
    return Mismatches(groupErrors);
  }

  /** action() over the object model. */
  method Action(files: seq<InputFile>, lockFile: LockFileRef) returns (r: CheckOutcome)
    ensures r == CheckLocksOutcome(files, lockFile)
  {
    var merged := GetMergedDependencyGroups(files);
    if merged.Failure? {
      return Failed(merged.error);
    }
    var current := merged.value;
    var validation := RunValidationChecks(current);
    if validation.MultipleVersions? {
      return VersionsInconsistent(validation);
    }
    if !lockFile.isFile {
      return Failed(GradleException(MissingLockFileMessage(lockFile.absolutePath)));
    }
    var read := DependencyGroups.ReadFrom(lockFile.content, lockFile.absolutePath);
    if read.Failure? {
      return Failed(read.error);
    }
    var fromLockFile := read.value;
    var lockValidation := RunValidationChecks(fromLockFile);
    if lockValidation.MultipleVersions? {
      return VersionsInconsistent(lockValidation);
    }
    r := CompareSets(current, fromLockFile);
  }
}
