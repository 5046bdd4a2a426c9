# Dependency lock checks — a Dafny model

This project models the core of a Gradle plugin that records the third-party
dependencies a multi-project build resolves and compares them with a
committed lock file.

- **Configuration groups.** Named sets of Gradle configurations. For each
  included configuration, the plugin walks the resolution graph
  (`collectAllResolved`). It adds every module version reached to a
  `DependencyGroups` object, with the source `(configuration, project path)`
  (`computeDependencyGroups`).
- **`DependencyGroups`.** A `TreeMap` from group name to a `TreeSet` of
  `DependencyInfo` records, ordered by `group:module` and then version. A
  `HashMap` index keyed by `group + " -> " + id()` sits beside it.
  `addOrMerge` is the only mutator: it appends the sources of a known record
  or inserts a new one. `merge` calls it for every record of another set.
- **The lock-file document.** `writeTo` interns each distinct source list
  once, under an eight-hex-digit hash key padded with `P` on collision. It
  writes every record as `id() -> "key,refs=N"`. `readFrom` rebuilds the
  groups from such a document.
- **`writeLocks` and `checkLocks`.** Both merge the per-project files
  (`getMergedDependencyGroups`). Both reject a group holding two versions of
  one `group:module` (`checkConsistentVersions`). `writeLocks` then produces
  the document. `checkLocks` reads the lock file, merges both sets into one,
  and classifies every record as new, only in the lock file, or with
  different sources.
- **`getResolvedVersion`.** The build-script helper returns the version of
  the unique module of a configuration that matches a group and name.

Files and modules:

| file | module | models |
|---|---|---|
| `exceptions.dfy` | `Exceptions` | thrown exceptions, `Result`, `Outcome`, `Option` |
| `java_text.dfy` | `JavaText` | `String.hashCode`, `compareTo` (UTF-16 order), `split` (trailing empty strings dropped), `indexOf`, `%08x` |
| `ordered.dfy` | `Ordered` | sorted sequences under a key, insertion into them (the `TreeMap`/`TreeSet` order) |
| `dependency_source.dfy` | `Sources` | `DependencySource` |
| `dependency_info.dfy` | `Coordinates` | `DependencyInfo`, its two constructors and its comparator |
| `lock_file.dfy` | `LockFiles` | the `LockFile` document |
| `groups_store.dfy` | `GroupStore` | the state of `DependencyGroups` as a value, `addOrMerge`, `getIfExists`, the index invariant |
| `groups_merge.dfy` | `GroupMerge` | `merge`/`mergeInternal` as a fold of `addOrMerge` |
| `groups_codec.dfy` | `GroupCodec` | `writeTo` (down to the document) and `readFrom` (from it), and the round trip |
| `dependency_groups.dfy` | `Groups` | the `DependencyGroups` class, whose methods update its fields and are proved against the value model |
| `consistency.dfy` | `Consistency` | `AbstractLockFileTask` and `WriteLockFile.action` |
| `check_locks.dfy` | `LockCheck` | `CheckLocks.action` |
| `resolve.dfy` | `Resolution` | `collectAllResolved` and `computeDependencyGroups` over an abstract resolution graph |
| `resolved_version.dfy` | `ResolvedVersion` | the `doCall` overloads of the `getResolvedVersion` closure |

### Representation

- **The `DependencyGroups` state.** It is a value of type `Store`:
  - the index (a `map` from lookup key to record);
  - one sorted sequence of index keys per group (the `TreeSet`);
  - the ascending sequence of group names (the `TreeMap` order).

  A `TreeSet` holds the same objects as the index. Each record is put under
  exactly one key and never re-keyed, so the key stands for the object's
  identity. Appending sources to an indexed record therefore changes the
  record the `TreeSet` holds, too. The class `Groups.DependencyGroups` keeps
  these three parts as fields. Its methods are proved to leave exactly the
  state the value functions compute.
- **The source's exceptions.** They are values of `Exceptions.Thrown`, and
  every operation that can throw returns a `Result` or an `Outcome`.
- **Java `int` arithmetic.** Hash codes are computed modulo 2^32.
- **The resolution graph.** Numbered dependency edges, each either
  `Resolved` (naming the selected component) or `Unresolved`, plus numbered
  components that list their outgoing edges. Edge numbers stand for the
  identity of Gradle's `ResolvedDependencyResult` objects in the `HashSet`.

### Behaviour of the code worth knowing

The model follows the code in each of these cases:

- **`addOrMerge` appends sources.** The incoming source list is concatenated
  to the existing one, with duplicates and order kept (`DependencyGroups.java:134`).
  It is not a set union: merging the same set twice lists its sources twice
  (`GroupMerge.MergeTwiceRepeatsSources`). Lists are also compared with
  order-sensitive `List.equals`. So `checkLocks` reports a sources difference for two lists holding the same
  members in another order, yet lists neither removed nor new sources for it
  (`LockCheck.SameMembersNothingListed`, `LockCheck.SwappedSourcesDiffer`).
- **`addOrMerge` can throw.** It rebuilds the record from `getDependency()`
  with the String constructor. Coordinates that do not split into three
  pieces throw (`GroupStore.AddOrMergeFails`). Records built from parsed
  coordinates never throw (`GroupStore.AddOrMergeConsistent`).
- **Empty coordinate parts.** The coordinate check counts the pieces of
  `String.split`, which drops trailing empty strings. So `"g:m:"` is rejected
  and `"g::v"` is accepted with an empty module.
- **Versions are never compared.** A record is looked up by its full `id()`,
  version included, so the version-mismatch branch of `checkLocks` is
  unreachable (`LockCheck.VersionMismatchUnreachable`). A version bump shows
  up as one "new dependency" and one "only in lockfile" finding.
- **Corrupt lock-file entries.**
  - An entry value without a comma throws `StringIndexOutOfBoundsException`.
  - A dictionary key that is missing throws `NullPointerException` once the
    coordinates have parsed.
  - A document without `configurationGroups` is read as having no groups.

  None of these is a dedicated "corrupt lock file" error. Only a document
  Jackson cannot bind gets the "recreate it using writeLocks" message.
- **The consistency check stops at the first group.** It reports only the
  first group, in name order, that holds two versions of one artifact. Later
  groups are not examined (`Consistency.CheckReportsFirstGroup`).

## Model

| member | source | states |
|---|---|---|
| `Sources.DependencySource.ToString` | src/main/java/com/carrotsearch/gradle/buildinfra/dependencychecks/DependencySource.java:26-33 | exactly "Configuration c in " followed by "root project" for the path ":", else by the project path: the prefix, the suffix and the length are each stated |
| `Sources.ToStringNamesProject` | src/main/java/com/carrotsearch/gradle/buildinfra/dependencychecks/DependencySource.java:26-33 | for one configuration and paths starting with ':', equal descriptions mean equal sources |
| `Sources.DependencySource.ProjectTask` | src/main/java/com/carrotsearch/gradle/buildinfra/dependencychecks/DependencySource.java:35-37 | always ':' then the task name at the end; exactly that for the root project; otherwise the project path in front of it |
| `Sources.DependencySource.HashCode` | src/main/java/com/carrotsearch/gradle/buildinfra/dependencychecks/DependencySource.java:58-61 | the hash is a 32-bit value |
| `Sources.EqualsIsStructural` | src/main/java/com/carrotsearch/gradle/buildinfra/dependencychecks/DependencySource.java:50-56 | two sources are equal exactly when configuration and project path both are |
| `Sources.EqualSourcesHashEqually` | src/main/java/com/carrotsearch/gradle/buildinfra/dependencychecks/DependencySource.java:50-61 | equal sources have equal hash codes |
| `Sources.ListHash` | src/main/java/com/carrotsearch/gradle/buildinfra/dependencychecks/DependencyGroups.java:68 | `List.hashCode()` of a source list is a 32-bit value |
| `Coordinates.DependencyInfo.IdWithoutVersion` | src/main/java/com/carrotsearch/gradle/buildinfra/dependencychecks/DependencyInfo.java:43-45 | group, then ':', then module, at those positions |
| `Coordinates.IdSplits` | src/main/java/com/carrotsearch/gradle/buildinfra/dependencychecks/DependencyInfo.java:47-49 | id() of a record without ':' in its parts splits on ':' into group, module and version |
| `Coordinates.VersionEndsId` | src/main/java/com/carrotsearch/gradle/buildinfra/dependencychecks/DependencyInfo.java:51-53 | getVersion() is what follows idWithoutVersion() and ':' in id(); for such records it is the third piece of the split, and not empty |
| `Coordinates.FromModuleVersionAsParsed` | src/main/java/com/carrotsearch/gradle/buildinfra/dependencychecks/DependencyInfo.java:24-41 | the identifier constructor gives the record the String constructor parses from "group:name:version" |
| `Coordinates.Parse` | src/main/java/com/carrotsearch/gradle/buildinfra/dependencychecks/DependencyInfo.java:31-41 | fails with the "not right with this dependency coords" exception exactly when the split does not give three pieces; otherwise the three pieces, the given sources, and a record without ':' in any part and with a non-empty version |
| `Coordinates.IdInjective` | src/main/java/com/carrotsearch/gradle/buildinfra/dependencychecks/DependencyInfo.java:47-57 | parsed records with the same id() have the same group, module and version |
| `Coordinates.ParseGetDependency` | src/main/java/com/carrotsearch/gradle/buildinfra/dependencychecks/DependencyInfo.java:31-41 | parsing getDependency() of a parsed record gives it back with the new sources |
| `Coordinates.ParseRejectsEmptyVersion` | src/main/java/com/carrotsearch/gradle/buildinfra/dependencychecks/DependencyInfo.java:32-36 | "g:m:" is rejected (trailing empty piece dropped) |
| `Coordinates.ParseAcceptsEmptyModule` | src/main/java/com/carrotsearch/gradle/buildinfra/dependencychecks/DependencyInfo.java:32-41 | "g::v" is accepted with an empty module |
| `Coordinates.CompareByGroupModuleThenId` | src/main/java/com/carrotsearch/gradle/buildinfra/dependencychecks/DependencyInfo.java:14-15 | zero exactly when idWithoutVersion() and version agree; negative/positive exactly by idWithoutVersion() order, then version order |
| `Coordinates.CompareAgreesWithSortKey` | src/main/java/com/carrotsearch/gradle/buildinfra/dependencychecks/DependencyInfo.java:14-15 | the comparator and the lexicographic order of the sort keys agree |
| `Coordinates.SameSortKeySameId` | src/main/java/com/carrotsearch/gradle/buildinfra/dependencychecks/DependencyInfo.java:14-15 | records the comparator treats as equal have the same id() |
| `GroupCodec.ReadNewLockFile` | src/main/java/com/carrotsearch/gradle/buildinfra/dependencychecks/LockFile.java:10-18 | a new document, with no dictionary entries and no groups, reads back as the empty set |
| `GroupStore.LookupKeyGroup` | src/main/java/com/carrotsearch/gradle/buildinfra/dependencychecks/DependencyGroups.java:131 | two lookup keys for the same id come from the same group |
| `GroupStore.LookupKeyInjective` | src/main/java/com/carrotsearch/gradle/buildinfra/dependencychecks/DependencyGroups.java:131 | for group names without '>', the key determines group and id |
| `GroupStore.LookupKeyCollision` | src/main/java/com/carrotsearch/gradle/buildinfra/dependencychecks/DependencyGroups.java:131 | group "a -> b" with id "c:d:e" and group "a" with id "b -> c:d:e" share a key |
| `GroupStore.LookupKeySameVersion` | src/main/java/com/carrotsearch/gradle/buildinfra/dependencychecks/DependencyGroups.java:131 | equal keys built from versions without ':' carry the same version, whatever the group names |
| `GroupStore.AppendSources` | src/main/java/com/carrotsearch/gradle/buildinfra/dependencychecks/DependencyGroups.java:133-134 | the known record's sources become old + extra; groups and other records unchanged |
| `GroupStore.InsertRecord` | src/main/java/com/carrotsearch/gradle/buildinfra/dependencychecks/DependencyGroups.java:136-143 | the new record is indexed and added in comparator order to its group's set, which is created if absent; no other group changes |
| `GroupStore.AddOrMerge` | src/main/java/com/carrotsearch/gradle/buildinfra/dependencychecks/DependencyGroups.java:130-145 | on success the state stays well formed (groups ascending, sets in comparator order, members indexed) |
| `GroupStore.AddOrMergeFails` | src/main/java/com/carrotsearch/gradle/buildinfra/dependencychecks/DependencyGroups.java:130-145 | throws exactly for an unknown key whose coordinates do not split into three, with the constructor's exception |
| `GroupStore.Upsert` | src/main/java/com/carrotsearch/gradle/buildinfra/dependencychecks/DependencyGroups.java:130-145 | the key is added; a known record gets the sources appended, a new one is stored; other keys unchanged |
| `GroupStore.AddOrMergeIndex` | src/main/java/com/carrotsearch/gradle/buildinfra/dependencychecks/DependencyGroups.java:130-145 | addOrMerge of a parsed record never throws and leaves exactly the upserted index |
| `GroupStore.AddOrMergeConsistent` | src/main/java/com/carrotsearch/gradle/buildinfra/dependencychecks/DependencyGroups.java:130-145 | addOrMerge of a parsed record keeps the index invariant (each set member indexed under group + " -> " + id(), each indexed record in some set); a new record joins only its own group |
| `GroupStore.AddOrMergeGroupEffect` | src/main/java/com/carrotsearch/gradle/buildinfra/dependencychecks/DependencyGroups.java:130-145 | with '>'-free group names the record is in its group's set afterwards, which gains at most that key; every other group is unchanged |
| `GroupStore.NoComparatorTwin` | src/main/java/com/carrotsearch/gradle/buildinfra/dependencychecks/DependencyGroups.java:140-143 | a record with an unindexed key has no comparator-equal record in its group's set, so TreeSet.add really adds it |
| `GroupStore.InsertConsistent` | src/main/java/com/carrotsearch/gradle/buildinfra/dependencychecks/DependencyGroups.java:136-143 | inserting a parsed record under its own key keeps the index invariant |
| `GroupStore.GetIfExistsFinds` | src/main/java/com/carrotsearch/gradle/buildinfra/dependencychecks/DependencyGroups.java:166-169 | a found record belongs to some set and has the version asked for; for group names without '>', finds a record exactly when the group's set holds one with that id(), and returns a record with that id() |
| `GroupMerge.AddAll` | src/main/java/com/carrotsearch/gradle/buildinfra/dependencychecks/DependencyGroups.java:156-164 | the fold of addOrMerge leaves a well-formed state |
| `GroupMerge.AddAllConcat` | src/main/java/com/carrotsearch/gradle/buildinfra/dependencychecks/DependencyGroups.java:157-163 | folding over a + b is folding over a then b, and stops at a's exception |
| `GroupMerge.AddAllConsistent` | src/main/java/com/carrotsearch/gradle/buildinfra/dependencychecks/DependencyGroups.java:157-163 | a fold over parsed records never throws and keeps the index invariant |
| `GroupMerge.AddAllIndex` | src/main/java/com/carrotsearch/gradle/buildinfra/dependencychecks/DependencyGroups.java:157-163 | a fold over parsed records upserts each record in turn |
| `GroupMerge.EntriesCoverIndex` | src/main/java/com/carrotsearch/gradle/buildinfra/dependencychecks/DependencyGroups.java:156-164 | merge visits every indexed record exactly once, under its own key |
| `GroupMerge.Merge` | src/main/java/com/carrotsearch/gradle/buildinfra/dependencychecks/DependencyGroups.java:152-164 | merge leaves a well-formed state |
| `GroupMerge.MergeSucceeds` | src/main/java/com/carrotsearch/gradle/buildinfra/dependencychecks/DependencyGroups.java:152-164 | merge of a well-formed set never throws |
| `GroupMerge.MergeIndex` | src/main/java/com/carrotsearch/gradle/buildinfra/dependencychecks/DependencyGroups.java:152-164 | merge keeps the index invariant and leaves both sets' keys, shared records with both source lists appended in order |
| `GroupMerge.MergeTwiceRepeatsSources` | src/main/java/com/carrotsearch/gradle/buildinfra/dependencychecks/DependencyGroups.java:130-164 | merging the same set again appends each non-empty source list of it a second time, so merge is not idempotent |
| `GroupMerge.SameIndexSameStore` | src/main/java/com/carrotsearch/gradle/buildinfra/dependencychecks/DependencyGroups.java:31-32 | with the index invariant, the index determines the groups and their sets |
| `GroupMerge.MergeIntoEmpty` | src/main/java/com/carrotsearch/gradle/buildinfra/dependencychecks/DependencyGroups.java:44-46 | merging a set into a new one gives a copy: same groups, records and source lists |
| `GroupCodec.Probe` | src/main/java/com/carrotsearch/gradle/buildinfra/dependencychecks/DependencyGroups.java:70-72 | the key is free, is the start key followed by 'P's, and every shorter padding was taken |
| `GroupCodec.BaseKey` | src/main/java/com/carrotsearch/gradle/buildinfra/dependencychecks/DependencyGroups.java:68 | eight lowercase hex digits |
| `GroupCodec.Intern` | src/main/java/com/carrotsearch/gradle/buildinfra/dependencychecks/DependencyGroups.java:65-76 | a known list keeps its key; a new list gets a free padded key of its hash, entered in both maps |
| `GroupCodec.InternOk` | src/main/java/com/carrotsearch/gradle/buildinfra/dependencychecks/DependencyGroups.java:65-76 | interning keeps the two dictionaries inverse to each other with padded-hash keys |
| `GroupCodec.BuildDictOk` | src/main/java/com/carrotsearch/gradle/buildinfra/dependencychecks/DependencyGroups.java:59-77 | the dictionary pass keeps the two dictionaries inverse |
| `GroupCodec.BuildDictKeeps` | src/main/java/com/carrotsearch/gradle/buildinfra/dependencychecks/DependencyGroups.java:61-77 | a list's key never changes once given |
| `GroupCodec.BuildDictCovers` | src/main/java/com/carrotsearch/gradle/buildinfra/dependencychecks/DependencyGroups.java:61-77 | every record's list gets a key |
| `GroupCodec.BuildDictOnlyRecords` | src/main/java/com/carrotsearch/gradle/buildinfra/dependencychecks/DependencyGroups.java:61-77 | only records' lists get keys |
| `GroupCodec.DistinctListsDistinctKeys` | src/main/java/com/carrotsearch/gradle/buildinfra/dependencychecks/DependencyGroups.java:65-76 | two distinct lists never share a key |
| `GroupCodec.EntriesFor` | src/main/java/com/carrotsearch/gradle/buildinfra/dependencychecks/DependencyGroups.java:84-93 | one entry per record, in order: getDependency() to key + ",refs=" + list size |
| `GroupCodec.CollectIntoEntries` | src/main/java/com/carrotsearch/gradle/buildinfra/dependencychecks/DependencyGroups.java:84-93 | toMap succeeds exactly when no id repeats, then with every entry in order; otherwise the merge function's RuntimeException |
| `GroupCodec.GroupIdsDistinct` | src/main/java/com/carrotsearch/gradle/buildinfra/dependencychecks/DependencyGroups.java:84-93 | within one set no two records share an id, so toMap never throws |
| `GroupCodec.WriteGroupsDocs` | src/main/java/com/carrotsearch/gradle/buildinfra/dependencychecks/DependencyGroups.java:79-96 | the configuration-groups pass never throws and yields one entry map per group |
| `GroupCodec.WriteDocShape` | src/main/java/com/carrotsearch/gradle/buildinfra/dependencychecks/DependencyGroups.java:54-99 | writeTo never throws; the document has the comment, the dictionary and one entry map per group in name order |
| `GroupCodec.DictOfCovers` | src/main/java/com/carrotsearch/gradle/buildinfra/dependencychecks/DependencyGroups.java:58-77 | the dictionary holds exactly the records' source lists |
| `GroupCodec.DictionaryKeys` | src/main/java/com/carrotsearch/gradle/buildinfra/dependencychecks/DependencyGroups.java:59-77 | every "because" key is its list's hash in hex plus 'P's, without a comma; distinct keys hold distinct lists |
| `GroupCodec.ReadEntry` | src/main/java/com/carrotsearch/gradle/buildinfra/dependencychecks/DependencyGroups.java:113-117 | a successful entry leaves a well-formed state |
| `GroupCodec.ReadEntryFails` | src/main/java/com/carrotsearch/gradle/buildinfra/dependencychecks/DependencyGroups.java:113-117 | no comma: StringIndexOutOfBounds; bad coordinates: the constructor's exception; unknown key: NullPointerException, in that order |
| `GroupCodec.ReadEntryIgnoresRefs` | src/main/java/com/carrotsearch/gradle/buildinfra/dependencychecks/DependencyGroups.java:115 | only the text before the first comma matters |
| `GroupCodec.ReadEntryOfRecord` | src/main/java/com/carrotsearch/gradle/buildinfra/dependencychecks/DependencyGroups.java:113-117 | the entry written for a record reads back as addOrMerge of that record |
| `GroupCodec.ReadGroupsOfDocs` | src/main/java/com/carrotsearch/gradle/buildinfra/dependencychecks/DependencyGroups.java:110-119 | reading the written groups is addOrMerge of their records in merge order |
| `GroupCodec.ReadFrom` | src/main/java/com/carrotsearch/gradle/buildinfra/dependencychecks/DependencyGroups.java:101-122 | an unbindable document gives "Existing lock file cannot be read, recreate it using writeLocks: " + file; a result is well formed |
| `GroupCodec.RoundTrip` | src/main/java/com/carrotsearch/gradle/buildinfra/dependencychecks/DependencyGroups.java:54-122 | readFrom of writeTo's document gives back the same groups, records and source lists |
| `GroupCodec.ReadFromConsistent` | src/main/java/com/carrotsearch/gradle/buildinfra/dependencychecks/DependencyGroups.java:101-122 | whatever the document, a set read keeps the index invariant |
| `Groups.DependencyGroups.constructor` | src/main/java/com/carrotsearch/gradle/buildinfra/dependencychecks/DependencyGroups.java:40-46 | a new object is valid and empty |
| `Groups.DependencyGroups.AddOrMerge` | src/main/java/com/carrotsearch/gradle/buildinfra/dependencychecks/DependencyGroups.java:130-145 | the fields become the value model's addOrMerge result; on an exception nothing changes |
| `Groups.DependencyGroups.AppendTo` | src/main/java/com/carrotsearch/gradle/buildinfra/dependencychecks/DependencyGroups.java:133-134 | the owned record's sources are appended in place |
| `Groups.DependencyGroups.Insert` | src/main/java/com/carrotsearch/gradle/buildinfra/dependencychecks/DependencyGroups.java:136-143 | index put and TreeSet add, creating the group if absent |
| `Groups.DependencyGroups.Merge` | src/main/java/com/carrotsearch/gradle/buildinfra/dependencychecks/DependencyGroups.java:152-164 | merge never throws and leaves the value model's merge of the old states |
| `Groups.DependencyGroups.AddEach` | src/main/java/com/carrotsearch/gradle/buildinfra/dependencychecks/DependencyGroups.java:157-163 | addOrMerge of each record of one group, as the fold |
| `Groups.DependencyGroups.WriteTo` | src/main/java/com/carrotsearch/gradle/buildinfra/dependencychecks/DependencyGroups.java:54-99 | the document is the value model's writeTo document |
| `Groups.DependencyGroups.CollectSources` | src/main/java/com/carrotsearch/gradle/buildinfra/dependencychecks/DependencyGroups.java:58-77 | the pass over every record's sources gives the value model's dictionary |
| `Groups.DependencyGroups.CollectGroups` | src/main/java/com/carrotsearch/gradle/buildinfra/dependencychecks/DependencyGroups.java:79-96 | the forEach over the groups gives the value model's entry maps, or the merge function's exception |
| `Groups.DependencyGroups.InternEach` | src/main/java/com/carrotsearch/gradle/buildinfra/dependencychecks/DependencyGroups.java:61-77 | the computeIfAbsent loop with its probe builds the dictionary pass's result |
| `Groups.DependencyGroups.CollectEntries` | src/main/java/com/carrotsearch/gradle/buildinfra/dependencychecks/DependencyGroups.java:84-93 | the toMap loop gives toMap's entries or its exception |
| `Groups.DependencyGroups.ReadFrom` | src/main/java/com/carrotsearch/gradle/buildinfra/dependencychecks/DependencyGroups.java:101-122 | a fresh valid object holding readFrom's result, or readFrom's exception |
| `Consistency.WithArtifact` | src/main/java/com/carrotsearch/gradle/buildinfra/dependencychecks/AbstractLockFileTask.java:45-48 | exactly the records of one artifact, in encounter order |
| `Consistency.WithoutArtifact` | src/main/java/com/carrotsearch/gradle/buildinfra/dependencychecks/AbstractLockFileTask.java:45-48 | exactly the records of the other artifacts, and fewer when the first is removed |
| `Consistency.MoreThanOne` | src/main/java/com/carrotsearch/gradle/buildinfra/dependencychecks/AbstractLockFileTask.java:49-51 | exactly the lists of two or more records |
| `Consistency.GroupedLists` | src/main/java/com/carrotsearch/gradle/buildinfra/dependencychecks/AbstractLockFileTask.java:45-48 | each groupingBy value is non-empty and holds every record of its artifact |
| `Consistency.EveryArtifactGrouped` | src/main/java/com/carrotsearch/gradle/buildinfra/dependencychecks/AbstractLockFileTask.java:45-48 | every artifact present has its list among the values |
| `Consistency.InconsistenciesIff` | src/main/java/com/carrotsearch/gradle/buildinfra/dependencychecks/AbstractLockFileTask.java:45-53 | a group yields no inconsistency exactly when no two records share group:module |
| `Consistency.InconsistenciesExact` | src/main/java/com/carrotsearch/gradle/buildinfra/dependencychecks/AbstractLockFileTask.java:45-51 | each inconsistency is all records of one artifact, two or more; every such artifact has one |
| `Consistency.VersionUses` | src/main/java/com/carrotsearch/gradle/buildinfra/dependencychecks/AbstractLockFileTask.java:65-74 | one "version V used by" entry per record, with its sources |
| `Consistency.SourceInsights` | src/main/java/com/carrotsearch/gradle/buildinfra/dependencychecks/AbstractLockFileTask.java:79-87 | one hint per source: projectTask("dependencyInsight"), the artifact, the configuration |
| `Consistency.InsightsPerSource` | src/main/java/com/carrotsearch/gradle/buildinfra/dependencychecks/AbstractLockFileTask.java:78-88 | one hint per source of every version, each built from a source of the artifact |
| `Consistency.Report` | src/main/java/com/carrotsearch/gradle/buildinfra/dependencychecks/AbstractLockFileTask.java:60-90 | one entry per inconsistency, numbered consecutively |
| `Consistency.BuildReport` | src/main/java/com/carrotsearch/gradle/buildinfra/dependencychecks/AbstractLockFileTask.java:60-90 | the indexed loop builds the report numbered from 1 |
| `Consistency.VersionLines` | src/main/java/com/carrotsearch/gradle/buildinfra/dependencychecks/AbstractLockFileTask.java:65-74 | the version loop gives VersionUses |
| `Consistency.InsightLines` | src/main/java/com/carrotsearch/gradle/buildinfra/dependencychecks/AbstractLockFileTask.java:78-88 | the hint loop gives one hint per source of every record |
| `Consistency.HintLines` | src/main/java/com/carrotsearch/gradle/buildinfra/dependencychecks/AbstractLockFileTask.java:79-87 | the forEach over one record's sources gives SourceInsights |
| `Consistency.GroupOkIff` | src/main/java/com/carrotsearch/gradle/buildinfra/dependencychecks/AbstractLockFileTask.java:45-53 | a group is consistent exactly when it yields no inconsistency |
| `Consistency.CheckGroupsIff` | src/main/java/com/carrotsearch/gradle/buildinfra/dependencychecks/AbstractLockFileTask.java:41-53 | the fold over groups passes exactly when every group is consistent |
| `Consistency.CheckPassesIff` | src/main/java/com/carrotsearch/gradle/buildinfra/dependencychecks/AbstractLockFileTask.java:40-53 | the check passes exactly when no group holds two records with the same group:module |
| `Consistency.CheckReportsFirstGroup` | src/main/java/com/carrotsearch/gradle/buildinfra/dependencychecks/AbstractLockFileTask.java:41-94 | a failure names an inconsistent group with its report, and every group named before it is consistent |
| `Consistency.ReportEntry` | src/main/java/com/carrotsearch/gradle/buildinfra/dependencychecks/AbstractLockFileTask.java:60-90 | entry i is numbered i + 1, names an artifact with two or more versions, lists them all, and has one hint per source |
| `Consistency.ReportCoversArtifact` | src/main/java/com/carrotsearch/gradle/buildinfra/dependencychecks/AbstractLockFileTask.java:53-90 | every artifact with two or more versions has an entry |
| `Consistency.CheckConsistentVersionsOf` | src/main/java/com/carrotsearch/gradle/buildinfra/dependencychecks/AbstractLockFileTask.java:40-95 | the loop over the object's groups ends as the value check, modifying nothing |
| `Consistency.RunValidationChecks` | src/main/java/com/carrotsearch/gradle/buildinfra/dependencychecks/AbstractLockFileTask.java:32-34 | validation is exactly the consistency check |
| `Consistency.MergeFiles` | src/main/java/com/carrotsearch/gradle/buildinfra/dependencychecks/AbstractLockFileTask.java:26-28 | the fold of merge(readFrom(f)) leaves a well-formed set |
| `Consistency.MergedDependencyGroups` | src/main/java/com/carrotsearch/gradle/buildinfra/dependencychecks/AbstractLockFileTask.java:24-30 | the merged set is well formed |
| `Consistency.MergeFilesOutcome` | src/main/java/com/carrotsearch/gradle/buildinfra/dependencychecks/AbstractLockFileTask.java:24-30 | fails exactly when some file cannot be read, with the first such file's exception; otherwise keeps the index invariant |
| `Consistency.MergedOutcome` | src/main/java/com/carrotsearch/gradle/buildinfra/dependencychecks/AbstractLockFileTask.java:24-30 | the same, from a new set |
| `Consistency.MergedSingleFile` | src/main/java/com/carrotsearch/gradle/buildinfra/dependencychecks/AbstractLockFileTask.java:24-30 | merging one file gives exactly readFrom of it |
| `Consistency.GetMergedDependencyGroups` | src/main/java/com/carrotsearch/gradle/buildinfra/dependencychecks/AbstractLockFileTask.java:24-30 | the for loop over the object gives a fresh valid set equal to the fold, or its exception |
| `Consistency.WriteLocks` | src/main/java/com/carrotsearch/gradle/buildinfra/dependencychecks/WriteLockFile.java:21-26 | merge, validate, then the writeTo document with the comment or ""; each failure stops it |
| `LockCheck.RetainAll` | src/main/java/com/carrotsearch/gradle/buildinfra/dependencychecks/CheckLocks.java:69-70 | exactly the elements in both lists |
| `LockCheck.RemoveAll` | src/main/java/com/carrotsearch/gradle/buildinfra/dependencychecks/CheckLocks.java:71-72 | exactly the elements of the first list not in the second |
| `LockCheck.RemovedAndAdded` | src/main/java/com/carrotsearch/gradle/buildinfra/dependencychecks/CheckLocks.java:67-72 | removed = lock sources not current; new = current sources not in the lock file |
| `LockCheck.SameMembersNothingListed` | src/main/java/com/carrotsearch/gradle/buildinfra/dependencychecks/CheckLocks.java:66-88 | lists with the same members list neither removed nor new sources |
| `LockCheck.SwappedSourcesDiffer` | src/main/java/com/carrotsearch/gradle/buildinfra/dependencychecks/CheckLocks.java:66-88 | two sources in swapped order differ as lists yet list nothing |
| `LockCheck.SameKeySameId` | src/main/java/com/carrotsearch/gradle/buildinfra/dependencychecks/CheckLocks.java:52-53 | for group names without '>', records under one key of two sets share id() |
| `LockCheck.SameKeySameVersion` | src/main/java/com/carrotsearch/gradle/buildinfra/dependencychecks/CheckLocks.java:52-59 | records under one key of two sets share the version, whatever the group names |
| `LockCheck.VersionMismatchUnreachable` | src/main/java/com/carrotsearch/gradle/buildinfra/dependencychecks/CheckLocks.java:59-65 | the version-mismatch branch is never taken, whatever the group names |
| `LockCheck.ClassifyByKey` | src/main/java/com/carrotsearch/gradle/buildinfra/dependencychecks/CheckLocks.java:52-89 | new exactly when the lock file lacks the key; only in lockfile exactly when current lacks it; fine exactly when version and sources agree |
| `LockCheck.SameRecordIff` | src/main/java/com/carrotsearch/gradle/buildinfra/dependencychecks/CheckLocks.java:59-66 | for group names without '>', records under one key are equal exactly when version and sources agree |
| `LockCheck.ClassifyMeaning` | src/main/java/com/carrotsearch/gradle/buildinfra/dependencychecks/CheckLocks.java:52-89 | for group names without '>', the three outcomes by key, "fine" meaning the same record in both sets |
| `LockCheck.Combined` | src/main/java/com/carrotsearch/gradle/buildinfra/dependencychecks/CheckLocks.java:39-41 | the combined set is well formed |
| `LockCheck.CombinedFacts` | src/main/java/com/carrotsearch/gradle/buildinfra/dependencychecks/CheckLocks.java:39-41 | the combined set keeps the index invariant and holds both sets' keys |
| `LockCheck.DiffVisitsEachKeyOnce` | src/main/java/com/carrotsearch/gradle/buildinfra/dependencychecks/CheckLocks.java:43-51 | walking the combined set visits each key of either set exactly once |
| `LockCheck.DiffGroupsReported` | src/main/java/com/carrotsearch/gradle/buildinfra/dependencychecks/CheckLocks.java:92-94 | a reported group is a group of the combined set, with its findings, which are non-empty |
| `LockCheck.DiffGroupsComplete` | src/main/java/com/carrotsearch/gradle/buildinfra/dependencychecks/CheckLocks.java:92-94 | every group with a finding is reported with its findings |
| `LockCheck.DiffGroupsOrdered` | src/main/java/com/carrotsearch/gradle/buildinfra/dependencychecks/CheckLocks.java:43-95 | reported groups come in ascending name order |
| `LockCheck.GroupFindingsEmpty` | src/main/java/com/carrotsearch/gradle/buildinfra/dependencychecks/CheckLocks.java:48-92 | a group has no finding exactly when every record classifies as fine |
| `LockCheck.GroupCleanIff` | src/main/java/com/carrotsearch/gradle/buildinfra/dependencychecks/CheckLocks.java:48-92 | the same, over the members of the group's set |
| `LockCheck.DiffEmptyIffAllClean` | src/main/java/com/carrotsearch/gradle/buildinfra/dependencychecks/CheckLocks.java:43-97 | nothing is reported exactly when every record of the combined set is fine |
| `LockCheck.AllCleanIffSameIndex` | src/main/java/com/carrotsearch/gradle/buildinfra/dependencychecks/CheckLocks.java:39-97 | for group names without '>', every record is fine exactly when both sets have equal indexes |
| `LockCheck.EqualSetsMatch` | src/main/java/com/carrotsearch/gradle/buildinfra/dependencychecks/CheckLocks.java:39-97 | comparing a set with itself reports nothing, whatever the group names |
| `LockCheck.CompareMatchesIffEqual` | src/main/java/com/carrotsearch/gradle/buildinfra/dependencychecks/CheckLocks.java:39-119 | the comparison passes when the lock file holds the current set; for group names without '>', only then; it either passes or reports mismatches |
| `LockCheck.MissingLockFileFails` | src/main/java/com/carrotsearch/gradle/buildinfra/dependencychecks/CheckLocks.java:22-34 | a missing lock file fails with "Lockfile does not exist: path, create it using the 'writeLocks' task" once the current set passed; its content plays no part |
| `LockCheck.CheckLocksPassesIff` | src/main/java/com/carrotsearch/gradle/buildinfra/dependencychecks/CheckLocks.java:22-119 | passing needs every file read, both sets consistent and the lock file present; with those, equal sets pass; for group names without '>', it passes only when both sets are equal |
| `LockCheck.WrittenLocksPass` | src/main/java/com/carrotsearch/gradle/buildinfra/dependencychecks/WriteLockFile.java:21-26 | the document writeLocks writes for some files makes checkLocks pass on the same files |
| `LockCheck.Examine` | src/main/java/com/carrotsearch/gradle/buildinfra/dependencychecks/CheckLocks.java:50-89 | the per-record body gives its classification |
| `LockCheck.ErrorsOf` | src/main/java/com/carrotsearch/gradle/buildinfra/dependencychecks/CheckLocks.java:48-90 | the deps.forEach loop: one finding per record of the given keys that the lock file and the current groups disagree on, in key order |
| `LockCheck.GroupErrors` | src/main/java/com/carrotsearch/gradle/buildinfra/dependencychecks/CheckLocks.java:48-90 | the errors list of one group, record by record |
| `LockCheck.CollectGroupErrors` | src/main/java/com/carrotsearch/gradle/buildinfra/dependencychecks/CheckLocks.java:43-95 | groupErrors: the groups with errors, in name order |
| `LockCheck.ReportGroup` | src/main/java/com/carrotsearch/gradle/buildinfra/dependencychecks/CheckLocks.java:44-94 | one step of the groups loop: the groups reported so far, then the rest, is the report of the groups from this one on |
| `LockCheck.CompareSets` | src/main/java/com/carrotsearch/gradle/buildinfra/dependencychecks/CheckLocks.java:39-97 | the object comparison gives the value comparison |
| `LockCheck.Action` | src/main/java/com/carrotsearch/gradle/buildinfra/dependencychecks/CheckLocks.java:21-120 | action() over objects ends as the value model of action() |
| `Resolution.Next` | src/main/java/com/carrotsearch/gradle/buildinfra/dependencychecks/ResolveConfigurationGroups.java:117 | the selected component's dependencies are edges of the graph |
| `Resolution.Walk` | src/main/java/com/carrotsearch/gradle/buildinfra/dependencychecks/ResolveConfigurationGroups.java:110-122 | the worklist terminates (each edge expanded once); a result contains the visited set |
| `Resolution.ReachableStep` | src/main/java/com/carrotsearch/gradle/buildinfra/dependencychecks/ResolveConfigurationGroups.java:116-117 | dependencies of a reachable resolved edge are reachable |
| `Resolution.FrontierDrained` | src/main/java/com/carrotsearch/gradle/buildinfra/dependencychecks/ResolveConfigurationGroups.java:113-122 | once the queue is empty, the visited set is exactly the reachable edges |
| `Resolution.WalkMeaning` | src/main/java/com/carrotsearch/gradle/buildinfra/dependencychecks/ResolveConfigurationGroups.java:109-122 | success: exactly the reachable edges, all resolved; failure: "Unresolved dependency, can't apply forbidden APIs: " for a reachable unresolved edge |
| `Resolution.Roots` | src/main/java/com/carrotsearch/gradle/buildinfra/dependencychecks/ResolveConfigurationGroups.java:111 | the root's dependencies are edges of the graph |
| `Resolution.VersionKeyInjective` | src/main/java/com/carrotsearch/gradle/buildinfra/dependencychecks/ResolveConfigurationGroups.java:124-127 | the comparator treats only equal module versions as equal |
| `Resolution.SortedModules` | src/main/java/com/carrotsearch/gradle/buildinfra/dependencychecks/ResolveConfigurationGroups.java:124-138 | the TreeSet: ascending by group, name, version, with exactly the given members |
| `Resolution.CollectAllResolvedMeaning` | src/main/java/com/carrotsearch/gradle/buildinfra/dependencychecks/ResolveConfigurationGroups.java:109-139 | fails exactly when an unresolved edge is reachable; otherwise exactly the module versions of reachable module components, sorted |
| `Resolution.CollectAllResolvedOf` | src/main/java/com/carrotsearch/gradle/buildinfra/dependencychecks/ResolveConfigurationGroups.java:109-139 | the while loop and stream give collectAllResolved |
| `Resolution.CollectModules` | src/main/java/com/carrotsearch/gradle/buildinfra/dependencychecks/ResolveConfigurationGroups.java:129-138 | filter, map and collect give the sorted module versions of the module edges |
| `Resolution.AddConfigurations` | src/main/java/com/carrotsearch/gradle/buildinfra/dependencychecks/ResolveConfigurationGroups.java:87-103 | one group's pass leaves a well-formed set |
| `Resolution.AddGroups` | src/main/java/com/carrotsearch/gradle/buildinfra/dependencychecks/ResolveConfigurationGroups.java:86-104 | the pass over groups leaves a well-formed set |
| `Resolution.ComputeDependencyGroups` | src/main/java/com/carrotsearch/gradle/buildinfra/dependencychecks/ResolveConfigurationGroups.java:79-107 | the result is well formed |
| `Resolution.AddOrMergeRecorded` | src/main/java/com/carrotsearch/gradle/buildinfra/dependencychecks/DependencyGroups.java:130-145 | addOrMerge adds exactly d's sources under d's key |
| `Resolution.AddAllRecorded` | src/main/java/com/carrotsearch/gradle/buildinfra/dependencychecks/ResolveConfigurationGroups.java:95-102 | a run of addOrMerge records exactly the old and the items' sources |
| `Resolution.ModuleItemsRecord` | src/main/java/com/carrotsearch/gradle/buildinfra/dependencychecks/ResolveConfigurationGroups.java:95-102 | each module gets exactly the one source (configuration, project path) |
| `Resolution.AddConfigurationsRecorded` | src/main/java/com/carrotsearch/gradle/buildinfra/dependencychecks/ResolveConfigurationGroups.java:87-103 | a group's pass records exactly the included configurations' contributions |
| `Resolution.AddGroupsRecorded` | src/main/java/com/carrotsearch/gradle/buildinfra/dependencychecks/ResolveConfigurationGroups.java:86-104 | the pass over groups records exactly every group's contributions |
| `Resolution.ComputeDependencyGroupsRecords` | src/main/java/com/carrotsearch/gradle/buildinfra/dependencychecks/ResolveConfigurationGroups.java:79-107 | a source is listed under a module's key exactly when its configuration is included in the group and reaches the module |
| `Resolution.AddConfigurationsFails` | src/main/java/com/carrotsearch/gradle/buildinfra/dependencychecks/ResolveConfigurationGroups.java:88-103 | an included configuration whose walk fails makes the pass fail |
| `Resolution.AddGroupsFails` | src/main/java/com/carrotsearch/gradle/buildinfra/dependencychecks/ResolveConfigurationGroups.java:86-104 | the same for the pass over groups |
| `Resolution.ComputeDependencyGroupsFails` | src/main/java/com/carrotsearch/gradle/buildinfra/dependencychecks/ResolveConfigurationGroups.java:79-122 | an included configuration reaching an unresolved edge makes the computation fail |
| `Resolution.AddItemsTo` | src/main/java/com/carrotsearch/gradle/buildinfra/dependencychecks/ResolveConfigurationGroups.java:95-102 | the forEach of addOrMerge over the object gives the fold or its exception |
| `Resolution.AddConfigurationsTo` | src/main/java/com/carrotsearch/gradle/buildinfra/dependencychecks/ResolveConfigurationGroups.java:87-103 | the loop over the configurations gives one group's pass |
| `Resolution.ComputeDependencyGroupsOf` | src/main/java/com/carrotsearch/gradle/buildinfra/dependencychecks/ResolveConfigurationGroups.java:79-107 | a fresh valid object holding the computation, or its exception |
| `ResolvedVersion.Matching` | src/main/java/com/carrotsearch/gradle/dependencychecks/DependencyChecksPlugin.java:56-63 | exactly the components with that group and name |
| `ResolvedVersion.MatchingTwice` | src/main/java/com/carrotsearch/gradle/dependencychecks/DependencyChecksPlugin.java:65-85 | two or more candidates exactly when two distinct components match |
| `ResolvedVersion.ResolvedVersionRule` | src/main/java/com/carrotsearch/gradle/dependencychecks/DependencyChecksPlugin.java:55-87 | none: "does not contain any reference"; one: its version; two: "contains multiple modules matching"; a result is a matching version |
| `ResolvedVersion.OverloadsAgree` | src/main/java/com/carrotsearch/gradle/dependencychecks/DependencyChecksPlugin.java:89-96 | selector, identifier and well-formed "group:name" forms agree with the (group, name) form |
| `ResolvedVersion.PairNotation` | src/main/java/com/carrotsearch/gradle/dependencychecks/DependencyChecksPlugin.java:45-53 | a pair not splitting in two fails with "Expected 'group:name' notation" |
| `ResolvedVersion.EmptyNameNotation` | src/main/java/com/carrotsearch/gradle/dependencychecks/DependencyChecksPlugin.java:45-53 | "group:" fails with the notation error |

## Left out

- **The JSON text.** Jackson serialisation, pretty-printing, the
  `ObjectMapper` set-up and `writeTo(File)` are not modelled. The model
  stops at the `LockFile` document. The order of the "because" keys in the
  text and the order of the top-level properties are therefore not modelled.
  Jackson binding appears only as its outcome: a bound document, or a
  `MismatchedInputException`.
- **Message text.** Message layout (indentation, `%n` line separators, the
  closing hints of `checkLocks`) is not modelled. Failure reports are
  structured values: `Consistency.Conflict` and `LockCheck.Finding`. Exact
  strings are kept for the single-line messages.
- **File system access.** File existence is a field of the lock-file
  reference. Reading a file is its bound content or a binding failure.
- **Gradle.**
  - Not modelled: task registration, providers, the plugin's `apply`, both
    extension classes and the `include` methods of `ConfigurationGroup`.
  - `ResolveConfigurationGroups.action` and its file output are not modelled.
  - The configuration container is a sequence in iteration order.
  - `getResolvedConfiguration` is not modelled; it is `writeTo` of the computed groups.
- **Resolution results.**
  - The graph is abstract. Gradle's consistency guarantees for it are the
    premise `Resolution.Resolvable`.
  - `getModuleVersion()` of a module component is never null.
  - The `toString()` of an unresolved result is its `description` field.
- **The older `com.carrotsearch.gradle.dependencychecks` package.** Only the
  `getResolvedVersion` closure of `DependencyChecksPlugin.java` is modelled.
  The rest of that package is a superseded copy of the same logic and is not
  part of this model. Neither is the TestKit test, which runs a real build.
- **Null handling.** `Objects.hashCode(null)` and null fields do not arise:
  all strings are present. A lock file whose JSON holds `null` for the
  dictionary, the `configurationGroups` map, a group's entry map or a source
  list makes the Java code throw `NullPointerException`. Documents here
  always carry a value for each, so that failure is not modelled.
- **Malformed JSON.** Text that is not JSON makes Jackson throw a parse
  exception, which `readFrom` does not catch. The model has no input for
  it: `LockFileInput.MismatchedInput` stands only for a document that parses
  but does not bind, which gets the "recreate it using writeLocks" message.
- **Aliasing of source lists.** The constructors' defensive copies are
  implicit, because records are values.
- `Groups.DependencyGroups.Merge`: a merge of an object into itself reads
  the other side's records as they were when the call started. Java's
  `merge(this)` reads the live source lists, which `addAll` may already have
  grown. The two agree while every record sits under its own key, the index
  invariant `GroupStore.Consistent`, because then each record is visited
  once. `Valid()` does not require that invariant, and a record whose
  coordinates re-parse to another id can break it. An example is
  `("b -> c", "d", "e:")`, which is stored under its old key but has the id
  `"b -> c:d:e"`. Then two records can share one source list's growth, and
  the results differ: for example `[t, s, t]` in the model against
  `[t, s, t, s]` in Java. The task code never merges an object into itself;
  it always merges into a fresh object.
- `Consistency.BuildReport`: the order of the artifacts in a report is the
  order in which they are first met in the group. Java's `groupingBy`
  collects into a `HashMap`, whose iteration order is unspecified. The
  properties proved (`Consistency.InconsistenciesExact`,
  `Consistency.ReportCoversArtifact`) do not depend on that order.
- `Sources.DependencySource.HashCode` and `Sources.ListHash`: the contracts
  state only the 32-bit range. The exact formula is the body. The property
  the source relies on is `Sources.EqualSourcesHashEqually`. Key
  distinctness in `writeTo` does not depend on the hash.
- `LockCheck.CheckLocksPassesIff`: the "passes only when the sets are
  equal" direction requires group names without `'>'`. Equal sets pass for
  any group names. With `" -> "` inside a group name, lookup keys of two
  groups can coincide (`GroupStore.LookupKeyCollision`): two records with
  different ids can then sit under one key and be reported as fine.
- `LockCheck.CompareMatchesIffEqual`: the same. Equal sets pass for any
  group names (`LockCheck.EqualSetsMatch`); the converse needs group names
  without `'>'`.
- `GroupStore.GetIfExistsFinds`: "finds exactly the record with that id()"
  needs group names without `'>'`. Under a colliding key the record found
  can have another id(); it still has the version asked for.
- `LockCheck.SameKeySameId`: it needs group names without `'>'`, for the
  same collision. `LockCheck.SameKeySameVersion` holds without it.
- `LockCheck.SameRecordIff`: it needs group names without `'>'`. Under a
  colliding key, version and sources can agree on two records with
  different ids.
- `LockCheck.ClassifyMeaning`: the "fine means the same record" reading
  needs group names without `'>'`, for the same reason.
- `LockCheck.AllCleanIffSameIndex`: it needs group names without `'>'`, for
  the same reason.
- Lock-file entry maps (`LockFiles.GroupEntries`) and the list of groups
  are sequences of pairs. They can hold a repeated key, which binding a
  `LinkedHashMap` never produces. Reading such a document adds each pair in
  turn. In the documents `writeTo` produces, the ids of a group are
  distinct (`GroupCodec.GroupIdsDistinct`).
- `GroupStore.AddOrMergeGroupEffect`: it requires the same condition on
  group names.
- `ResolvedVersion.PairNotation`: it states only that a bad split fails. For
  a well-formed pair, delegation to the (group, name) form is
  `ResolvedVersion.OverloadsAgree`.
