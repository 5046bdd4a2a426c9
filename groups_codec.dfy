/**
 * writeTo and readFrom of DependencyGroups, down to and up from the lock-file
 * document.
 *
 * writeTo gives every distinct list of sources a short key: the list's hash
 * code as eight hexadecimal digits, with 'P' appended while the key is taken.
 * The "because" dictionary maps each key to its list; each configuration group
 * maps a record's id() to "key,refs=N", N being the length of the list.
 * readFrom adds every entry back with addOrMerge, looking its list up by the
 * text before the first comma.
 */
module GroupCodec {
  import opened JavaText
  import opened Exceptions
  import opened Sources
  import opened Coordinates
  import opened LockFiles
  import opened GroupStore
  import opened GroupMerge

  /** The document's TreeMap from key to list, and the LinkedHashMap from list back to key. */
  datatype Dict = Dict(
    keyToSource: map<string, seq<DependencySource>>,
    sourceToKey: map<seq<DependencySource>, string>)

  const EmptyDict: Dict := Dict(map[], map[])

  /** key is base followed by zero or more 'P'. */
  predicate Padded(key: string, base: string)
  {
    |base| <= |key| && key[..|base|] == base && forall i | |base| <= i < |key| :: key[i] == 'P'
  }

  /** The probe loop: the first of key, key + "P", key + "PP", ... that is not taken. */
  function Probe(keys: set<string>, key: string): (r: string)
    ensures r !in keys && Padded(r, key)
    ensures forall j | |key| <= j < |r| :: r[..j] in keys
    decreases set k | k in keys && |k| >= |key|
  {
    if key in keys then
      var longer := key + "P";
      ghost var before := set k | k in keys && |k| >= |key|;
      ghost var after := set k | k in keys && |k| >= |longer|;
      assert key in before && key !in after && after <= before;
      var r := Probe(keys, longer);
      assert r[..|key|] == r[..|longer|][..|key|];
      assert r[..|key|] == key;
      r
    else key
  }

  /** The key writeTo starts probing from: String.format("%08x", sources.hashCode()). */
  function BaseKey(sources: seq<DependencySource>): (k: string)
    ensures |k| == 8 && forall i | 0 <= i < 8 :: k[i] in HexDigits
  {
    Hex8(ListHash(sources))
  }

  /**
   * What writeTo keeps true of the two dictionaries: they are inverse to each
   * other, and every key is its list's base key followed by padding.
   */
  ghost predicate DictOk(dict: Dict)
  {
    && (forall l | l in dict.sourceToKey ::
          dict.sourceToKey[l] in dict.keyToSource && dict.keyToSource[dict.sourceToKey[l]] == l)
    && (forall k | k in dict.keyToSource ::
          dict.keyToSource[k] in dict.sourceToKey && dict.sourceToKey[dict.keyToSource[k]] == k)
    && (forall k | k in dict.keyToSource :: Padded(k, BaseKey(dict.keyToSource[k])))
  }

  /**
   * sourceToKey.computeIfAbsent(sources, ...): a list already seen keeps its
   * key; a new one gets the first free padded key and goes into both maps.
   */
  function Intern(dict: Dict, sources: seq<DependencySource>): (r: Dict)
    ensures sources in r.sourceToKey
    ensures sources in dict.sourceToKey ==> r == dict
    ensures sources !in dict.sourceToKey ==>
      && r.sourceToKey == dict.sourceToKey[sources := r.sourceToKey[sources]]
      && r.sourceToKey[sources] !in dict.keyToSource
      && r.keyToSource == dict.keyToSource[r.sourceToKey[sources] := sources]
      && Padded(r.sourceToKey[sources], BaseKey(sources))
  {
    if sources in dict.sourceToKey then dict
    else
      var key := Probe(dict.keyToSource.Keys, BaseKey(sources));
      Dict(dict.keyToSource[key := sources], dict.sourceToKey[sources := key])
  }

  lemma InternOk(dict: Dict, sources: seq<DependencySource>)
    requires DictOk(dict)
    ensures DictOk(Intern(dict, sources))
  {
  }

  /** The dictionary pass of writeTo: intern the list of every record, in iteration order. */
  function BuildDict(dict: Dict, items: Items): (r: Dict)
    decreases |items|
  {
    if items == [] then dict else BuildDict(Intern(dict, items[0].1.sources), items[1..])
  }

  /** The dictionary pass over a + b is the pass over a, then over b. */
  lemma {:induction false} BuildDictConcat(dict: Dict, a: Items, b: Items)
    ensures BuildDict(dict, a + b) == BuildDict(BuildDict(dict, a), b)
    decreases |a|
  {
    if a != [] {
      assert (a + b)[0] == a[0] && (a + b)[1..] == a[1..] + b;
      BuildDictConcat(Intern(dict, a[0].1.sources), a[1..], b);
    } else {
      assert a + b == b;
    }
  }

  /** The dictionary pass keeps both maps inverse to each other. */
  lemma {:induction false} BuildDictOk(dict: Dict, items: Items)
    requires DictOk(dict)
    ensures DictOk(BuildDict(dict, items))
    decreases |items|
  {
    if items != [] {
      InternOk(dict, items[0].1.sources);
      BuildDictOk(Intern(dict, items[0].1.sources), items[1..]);
    }
  }

  /** The dictionary pass never changes a key once given. */
  lemma {:induction false} BuildDictKeeps(dict: Dict, items: Items)
    ensures var r := BuildDict(dict, items);
      forall l | l in dict.sourceToKey :: l in r.sourceToKey && r.sourceToKey[l] == dict.sourceToKey[l]
    decreases |items|
  {
    if items != [] {
      BuildDictKeeps(Intern(dict, items[0].1.sources), items[1..]);
    }
  }

  /** The dictionary pass gives a key to the list of every record. */
  lemma {:induction false} BuildDictCovers(dict: Dict, items: Items)
    ensures var r := BuildDict(dict, items);
      forall i | 0 <= i < |items| :: items[i].1.sources in r.sourceToKey
    decreases |items|
  {
    if items != [] {
      var next := Intern(dict, items[0].1.sources);
      BuildDictCovers(next, items[1..]);
      BuildDictKeeps(next, items[1..]);
      var r := BuildDict(dict, items);
      assert r == BuildDict(next, items[1..]);
      forall i | 0 <= i < |items| ensures items[i].1.sources in r.sourceToKey {
        if i > 0 { assert items[i] == items[1..][i - 1]; }
      }
    }
  }

  /** The dictionary pass adds no list that is not the list of some record. */
  lemma {:induction false} BuildDictOnlyRecords(dict: Dict, items: Items)
    ensures var r := BuildDict(dict, items);
      forall l | l in r.sourceToKey :: l in dict.sourceToKey || exists i :: 0 <= i < |items| && items[i].1.sources == l
    decreases |items|
  {
    if items != [] {
      var next := Intern(dict, items[0].1.sources);
      BuildDictOnlyRecords(next, items[1..]);
      var r := BuildDict(dict, items);
      forall l | l in r.sourceToKey && l !in dict.sourceToKey
        ensures exists i :: 0 <= i < |items| && items[i].1.sources == l
      {
        if l in next.sourceToKey {
          assert l == items[0].1.sources;
        } else {
          var i :| 0 <= i < |items[1..]| && items[1..][i].1.sources == l;
          assert items[i + 1].1.sources == l;
        }
      }
    }
  }

  /** Distinct lists never share a key. */
  lemma DistinctListsDistinctKeys(dict: Dict, a: seq<DependencySource>, b: seq<DependencySource>)
    requires DictOk(dict) && a in dict.sourceToKey && b in dict.sourceToKey && a != b
    ensures dict.sourceToKey[a] != dict.sourceToKey[b]
  {
  }

  /** A padded hexadecimal key has no comma in it. */
  lemma PaddedKeyHasNoComma(key: string, sources: seq<DependencySource>)
    requires Padded(key, BaseKey(sources))
    ensures ',' !in key
  {
    var base := BaseKey(sources);
    forall i | 0 <= i < |key| ensures key[i] != ',' {
      if i < |base| {
        assert key[i] == key[..|base|][i] == base[i];
      }
    }
  }

  /** The value of a record's entry: its key (Java's "null" if none), ",refs=" and the list length. */
  function RefsValue(sourceToKey: map<seq<DependencySource>, string>, sources: seq<DependencySource>): string
  {
    (if sources in sourceToKey then sourceToKey[sources] else "null") + ",refs=" + DecimalString(|sources|)
  }

  /** The entries of a group: id() to RefsValue, record by record. */
  function EntriesFor(items: Items, sourceToKey: map<seq<DependencySource>, string>): (r: GroupEntries)
    ensures |r| == |items|
    ensures forall i | 0 <= i < |items| ::
      r[i] == (items[i].1.GetDependency(), RefsValue(sourceToKey, items[i].1.sources))
  {
    if items == [] then [] else [(items[0].1.GetDependency(), RefsValue(sourceToKey, items[0].1.sources))] + EntriesFor(items[1..], sourceToKey)
  }

  /**
   * Collectors.toMap into a LinkedHashMap: entries in iteration order; an id
   * met a second time calls the merge function, which throws. Its
   * new RuntimeException() has no message (null in Java); the model writes
   * RuntimeException(""), as exceptions carry a string here.
   */
  function CollectInto(acc: GroupEntries, items: Items, sourceToKey: map<seq<DependencySource>, string>): Result<GroupEntries>
    decreases |items|
  {
    if items == [] then Success(acc)
    else
      var dependency := items[0].1.GetDependency();
      if HasEntryKey(acc, dependency) then Failure(RuntimeException(""))
      else CollectInto(acc + [(dependency, RefsValue(sourceToKey, items[0].1.sources))], items[1..], sourceToKey)
  }

  /** An entry whose key is already present breaks distinctness, whatever follows. */
  lemma RepeatedEntryKey(acc: GroupEntries, entry: (string, string), rest: GroupEntries)
    requires HasEntryKey(acc, entry.0)
    ensures !DistinctEntryKeys(acc + [entry] + rest)
  {
    var i :| 0 <= i < |acc| && acc[i].0 == entry.0;
    var all := acc + [entry] + rest;
    assert all[i] == acc[i] && all[|acc|] == entry;
  }

  /** An entry with a new key keeps distinctness. */
  lemma FreshEntryKey(acc: GroupEntries, entry: (string, string))
    requires DistinctEntryKeys(acc) && !HasEntryKey(acc, entry.0)
    ensures DistinctEntryKeys(acc + [entry])
  {
    var all := acc + [entry];
    forall i, j | 0 <= i < j < |all| ensures all[i].0 != all[j].0 {
      if j == |acc| {
        assert all[i] == acc[i];
      } else {
        assert all[i] == acc[i] && all[j] == acc[j];
      }
    }
  }

  /**
   * toMap succeeds exactly when no id repeats, and then holds the entries of
   * every record in order; otherwise it throws the merge function's exception.
   */
  lemma {:induction false} CollectIntoEntries(acc: GroupEntries, items: Items, sourceToKey: map<seq<DependencySource>, string>)
    requires DistinctEntryKeys(acc)
    ensures var r := CollectInto(acc, items, sourceToKey);
      r.Success? <==> DistinctEntryKeys(acc + EntriesFor(items, sourceToKey))
    ensures var r := CollectInto(acc, items, sourceToKey);
      r.Success? ==> r.value == acc + EntriesFor(items, sourceToKey)
    ensures var r := CollectInto(acc, items, sourceToKey);
      r.Failure? ==> r.error == RuntimeException("")
    decreases |items|
  {
    if items != [] {
      var dependency := items[0].1.GetDependency();
      var entry := (dependency, RefsValue(sourceToKey, items[0].1.sources));
      var tail := EntriesFor(items[1..], sourceToKey);
      assert EntriesFor(items, sourceToKey) == [entry] + tail;
      assert acc + EntriesFor(items, sourceToKey) == acc + [entry] + tail;
      if HasEntryKey(acc, dependency) {
        assert CollectInto(acc, items, sourceToKey) == Failure(RuntimeException(""));
        RepeatedEntryKey(acc, entry, tail);
      } else {
        assert CollectInto(acc, items, sourceToKey) == CollectInto(acc + [entry], items[1..], sourceToKey);
        FreshEntryKey(acc, entry);
        CollectIntoEntries(acc + [entry], items[1..], sourceToKey);
      }
    } else {
      assert acc + EntriesFor(items, sourceToKey) == acc;
    }
  }

  /**
   * The configuration-groups pass of writeTo: for every group, in name order,
   * the entries of its TreeSet.
   */
  function WriteGroups(acc: seq<(string, GroupEntries)>, st: Store, names: seq<string>,
                       sourceToKey: map<seq<DependencySource>, string>): Result<seq<(string, GroupEntries)>>
    requires Wellformed(st) && forall g | g in names :: g in st.dependencies
    decreases |names|
  {
    if names == [] then Success(acc)
    else
      match CollectInto([], GroupItems(st.index, names[0], st.dependencies[names[0]]), sourceToKey)
      case Failure(e) => Failure(e)
      case Success(value) => WriteGroups(acc + [(names[0], value)], st, names[1..], sourceToKey)
  }

  /** The groups pass from position i: group i's toMap, then the groups after it. */
  lemma WriteGroupsFrom(acc: seq<(string, GroupEntries)>, st: Store, names: seq<string>, i: nat,
                        sourceToKey: map<seq<DependencySource>, string>)
    requires Wellformed(st) && GroupNames(st, names) && i < |names|
    ensures names[i] in st.dependencies && GroupNames(st, names[i..]) && GroupNames(st, names[i + 1..])
    ensures var c := CollectInto([], GroupItems(st.index, names[i], st.dependencies[names[i]]), sourceToKey);
      c.Failure? ==> WriteGroups(acc, st, names[i..], sourceToKey) == Failure(c.error)
    ensures var c := CollectInto([], GroupItems(st.index, names[i], st.dependencies[names[i]]), sourceToKey);
      c.Success? ==>
        WriteGroups(acc, st, names[i..], sourceToKey) == WriteGroups(acc + [(names[i], c.value)], st, names[i + 1..], sourceToKey)
  {
    assert names[i..][0] == names[i] && names[i..][1..] == names[i + 1..];
    assert names[i] in names;
    assert forall g | g in names[i..] :: g in names;
  }

  /** writeTo(comment, writer), as the document it hands to the JSON writer. */
  function WriteDoc(st: Store, comment: string): Result<LockFile>
    requires Wellformed(st)
  {
    var dict := BuildDict(EmptyDict, Entries(st));
    match WriteGroups([], st, st.groupOrder, dict.sourceToKey)
    case Failure(e) => Failure(e)
    case Success(groups) => Success(LockFile(comment, dict.keyToSource, groups))
  }

  /** The groups of the document writeTo produces, one per group of the store. */
  function GroupDocs(st: Store, names: seq<string>, sourceToKey: map<seq<DependencySource>, string>): (r: seq<(string, GroupEntries)>)
    requires Wellformed(st) && forall g | g in names :: g in st.dependencies
    ensures |r| == |names|
  {
    if names == [] then []
    else [(names[0], EntriesFor(GroupItems(st.index, names[0], st.dependencies[names[0]]), sourceToKey))]
         + GroupDocs(st, names[1..], sourceToKey)
  }

  /** Canonical records with the same coordinates compare equal. */
  lemma SameDependencySameSortKey(a: DependencyInfo, b: DependencyInfo)
    requires Canonical(a) && Canonical(b) && a.GetDependency() == b.GetDependency()
    ensures a.SortKey() == b.SortKey()
  {
    ParseGetDependency(a, []);
    ParseGetDependency(b, []);
  }

  /** Within one TreeSet no two records have the same id(), so toMap never throws. */
  lemma GroupIdsDistinct(st: Store, g: string, sourceToKey: map<seq<DependencySource>, string>)
    requires Wellformed(st) && g in st.dependencies
    ensures DistinctEntryKeys(EntriesFor(GroupItems(st.index, g, st.dependencies[g]), sourceToKey))
  {
    var ks := st.dependencies[g];
    var items := GroupItems(st.index, g, ks);
    var es := EntriesFor(items, sourceToKey);
    forall i, j | 0 <= i < j < |es| ensures es[i].0 != es[j].0 {
      var a, b := st.index[ks[i]], st.index[ks[j]];
      assert ks[i] in ks && ks[j] in ks;
      assert Ordered.KeyLess(a.SortKey(), b.SortKey()) by {
        assert RecordKey(st.index)(ks[i]) == a.SortKey();
        assert RecordKey(st.index)(ks[j]) == b.SortKey();
      }
      Ordered.KeyLessIrreflexive(a.SortKey());
      if a.GetDependency() == b.GetDependency() {
        SameDependencySameSortKey(a, b);
      }
    }
  }

  /** The group names of a store, and what remains after the first. */
  ghost predicate GroupNames(st: Store, names: seq<string>)
  {
    forall g | g in names :: g in st.dependencies
  }

  lemma GroupNamesTail(st: Store, names: seq<string>)
    requires names != [] && GroupNames(st, names)
    ensures names[0] in st.dependencies && GroupNames(st, names[1..])
  {
    assert names[0] in names;
    assert forall g | g in names[1..] :: g in names;
  }

  /** toMap over one group of a well-formed store gives that group's entries. */
  lemma CollectGroup(st: Store, g: string, sourceToKey: map<seq<DependencySource>, string>)
    requires Wellformed(st) && g in st.dependencies
    ensures CollectInto([], GroupItems(st.index, g, st.dependencies[g]), sourceToKey)
         == Success(EntriesFor(GroupItems(st.index, g, st.dependencies[g]), sourceToKey))
  {
    var items := GroupItems(st.index, g, st.dependencies[g]);
    GroupIdsDistinct(st, g, sourceToKey);
    CollectIntoEntries([], items, sourceToKey);
    assert [] + EntriesFor(items, sourceToKey) == EntriesFor(items, sourceToKey);
  }

  /** The configuration-groups pass never throws on a well-formed store. */
  lemma {:induction false} WriteGroupsDocs(acc: seq<(string, GroupEntries)>, st: Store, names: seq<string>,
                                           sourceToKey: map<seq<DependencySource>, string>)
    requires Wellformed(st) && GroupNames(st, names)
    ensures WriteGroups(acc, st, names, sourceToKey) == Success(acc + GroupDocs(st, names, sourceToKey))
    decreases |names|
  {
    if names != [] {
      GroupNamesTail(st, names);
      var g := names[0];
      var group := (g, EntriesFor(GroupItems(st.index, g, st.dependencies[g]), sourceToKey));
      CollectGroup(st, g, sourceToKey);
      WriteGroupsDocs(acc + [group], st, names[1..], sourceToKey);
      assert GroupDocs(st, names, sourceToKey) == [group] + GroupDocs(st, names[1..], sourceToKey);
      assert acc + [group] + GroupDocs(st, names[1..], sourceToKey) == acc + GroupDocs(st, names, sourceToKey);
    } else {
      assert acc + GroupDocs(st, names, sourceToKey) == acc;
    }
  }

  /** The dictionary writeTo builds for a store. */
  function DictOf(st: Store): Dict
    requires Wellformed(st)
  {
    BuildDict(EmptyDict, Entries(st))
  }

  /**
   * writeTo never throws on a well-formed store. The document carries the
   * comment, the dictionary, and one entry map per group in name order.
   */
  lemma WriteDocShape(st: Store, comment: string)
    requires Wellformed(st)
    ensures WriteDoc(st, comment).Success?
    ensures var doc := WriteDoc(st, comment).value;
      && doc.comment == comment
      && doc.keyToSource == DictOf(st).keyToSource
      && doc.configurationGroups == GroupDocs(st, st.groupOrder, DictOf(st).sourceToKey)
  {
    WriteGroupsDocs([], st, st.groupOrder, DictOf(st).sourceToKey);
    assert [] + GroupDocs(st, st.groupOrder, DictOf(st).sourceToKey) == GroupDocs(st, st.groupOrder, DictOf(st).sourceToKey);
  }

  /** Every record's list has a key in the dictionary, and the dictionary holds only those lists. */
  lemma DictOfCovers(st: Store)
    requires Wellformed(st)
    ensures DictOk(DictOf(st))
    ensures forall i | 0 <= i < |Entries(st)| :: Entries(st)[i].1.sources in DictOf(st).sourceToKey
    ensures forall l | l in DictOf(st).sourceToKey :: exists i :: 0 <= i < |Entries(st)| && Entries(st)[i].1.sources == l
  {
    BuildDictOk(EmptyDict, Entries(st));
    BuildDictCovers(EmptyDict, Entries(st));
    BuildDictOnlyRecords(EmptyDict, Entries(st));
  }

  /**
   * The "because" dictionary of the document: every key is a padded hash
   * prefix, and two distinct lists have distinct keys.
   */
  lemma DictionaryKeys(st: Store, comment: string)
    requires Wellformed(st)
    ensures WriteDoc(st, comment).Success?
    ensures var dict := WriteDoc(st, comment).value.keyToSource;
      forall k | k in dict :: Padded(k, BaseKey(dict[k])) && ',' !in k
    ensures var dict := WriteDoc(st, comment).value.keyToSource;
      forall k1, k2 | k1 in dict && k2 in dict && k1 != k2 :: dict[k1] != dict[k2]
  {
    WriteDocShape(st, comment);
    DictOfCovers(st);
    var dict := DictOf(st).keyToSource;
    forall k | k in dict ensures ',' !in k {
      PaddedKeyHasNoComma(k, dict[k]);
    }
  }

  // ---------------------------------------------------------------- reading

  const ReadFailureMessage: string := "Existing lock file cannot be read, recreate it using writeLocks: "

  /**
   * One entry of a configuration group: the key is the text before the first
   * comma (substring(0, -1) throws when there is none); the String constructor
   * splits the coordinates before it copies the looked-up list, so bad
   * coordinates throw before a missing key is noticed; then addOrMerge.
   */
  function ReadEntry(st: Store, groupName: string, entry: (string, string),
                     keyToSource: map<string, seq<DependencySource>>): (r: Result<Store>)
    requires Wellformed(st)
    ensures r.Success? ==> Wellformed(r.value)
  {
    var dependency := entry.0;
    var source := entry.1;
    var comma := IndexOf(source, ',');
    if comma < 0 then Failure(StringIndexOutOfBoundsException)
    else
      var sourceKey := source[..comma];
      if sourceKey in keyToSource then
        match Parse(dependency, keyToSource[sourceKey])
        case Failure(e) => Failure(e)
        case Success(d) => AddOrMerge(st, groupName, d)
      else
        match Parse(dependency, [])
        case Failure(e) => Failure(e)
        case Success(_) => Failure(NullPointerException)
  }

  /** The error cases of one entry, in the order the source meets them. */
  lemma ReadEntryFails(st: Store, groupName: string, entry: (string, string),
                       keyToSource: map<string, seq<DependencySource>>)
    requires Wellformed(st)
    ensures ',' !in entry.1 ==> ReadEntry(st, groupName, entry, keyToSource) == Failure(StringIndexOutOfBoundsException)
    ensures ',' in entry.1 && |Split(entry.0, ':')| != 3 ==>
      ReadEntry(st, groupName, entry, keyToSource) == Failure(RuntimeException(BadCoordinatesMessage(entry.0)))
    ensures ',' in entry.1 && |Split(entry.0, ':')| == 3 && entry.1[..IndexOf(entry.1, ',')] !in keyToSource ==>
      ReadEntry(st, groupName, entry, keyToSource) == Failure(NullPointerException)
  {
  }

  /** Only the text before the first comma matters: ",refs=N" is ignored. */
  lemma ReadEntryIgnoresRefs(st: Store, groupName: string, dependency: string, key: string, rest: string,
                             keyToSource: map<string, seq<DependencySource>>)
    requires Wellformed(st) && ',' !in key
    ensures ReadEntry(st, groupName, (dependency, key + "," + rest), keyToSource)
         == ReadEntry(st, groupName, (dependency, key + ","), keyToSource)
  {
    assert key + "," + rest == key + ("," + rest);
    KeyBeforeComma(key, "," + rest);
    KeyBeforeComma(key, ",");
  }

  function ReadEntries(st: Store, groupName: string, entries: GroupEntries,
                       keyToSource: map<string, seq<DependencySource>>): (r: Result<Store>)
    requires Wellformed(st)
    ensures r.Success? ==> Wellformed(r.value)
    decreases |entries|
  {
    if entries == [] then Success(st)
    else
      match ReadEntry(st, groupName, entries[0], keyToSource)
      case Failure(e) => Failure(e)
      case Success(next) => ReadEntries(next, groupName, entries[1..], keyToSource)
  }

  function ReadGroups(st: Store, groups: seq<(string, GroupEntries)>,
                      keyToSource: map<string, seq<DependencySource>>): (r: Result<Store>)
    requires Wellformed(st)
    ensures r.Success? ==> Wellformed(r.value)
    decreases |groups|
  {
    if groups == [] then Success(st)
    else
      match ReadEntries(st, groups[0].0, groups[0].1, keyToSource)
      case Failure(e) => Failure(e)
      case Success(next) => ReadGroups(next, groups[1..], keyToSource)
  }

  /**
   * readFrom(file): a document Jackson cannot bind is reported with a
   * GradleException naming the file; otherwise every entry of every group is
   * added, in document order, to a new DependencyGroups.
   */
  function ReadFrom(input: LockFileInput, file: string): (r: Result<Store>)
    ensures r.Success? ==> Wellformed(r.value)
    ensures input.MismatchedInput? ==> r == Failure(GradleException(ReadFailureMessage + file))
  {
    match input
    case MismatchedInput => Failure(GradleException(ReadFailureMessage + file))
    case Bound(doc) => ReadGroups(Empty, doc.configurationGroups, doc.keyToSource)
  }

  /**
   * A document whose dictionary and groups keep the values new LockFile() gives
   * them, as when the JSON text has neither property, reads as an empty set.
   */
  lemma ReadNewLockFile(comment: string, file: string)
    ensures ReadFrom(Bound(NewLockFile(comment)), file) == Success(Empty)
  {
  }

  /**
   * The records of one group, as written: all canonical, all of that group,
   * and each with its list in the dictionary.
   */
  ghost predicate ReadableGroup(items: Items, groupName: string, dict: Dict)
  {
    forall i | 0 <= i < |items| ::
      items[i].0 == groupName && Canonical(items[i].1) && items[i].1.sources in dict.sourceToKey
  }

  lemma ReadableGroupTail(items: Items, groupName: string, dict: Dict)
    requires items != [] && ReadableGroup(items, groupName, dict)
    ensures items[0].0 == groupName && Canonical(items[0].1) && items[0].1.sources in dict.sourceToKey
    ensures ReadableGroup(items[1..], groupName, dict)
  {
    assert forall i | 0 <= i < |items| - 1 :: items[1..][i] == items[i + 1];
  }

  lemma EntriesForCons(items: Items, sourceToKey: map<seq<DependencySource>, string>)
    requires items != []
    ensures EntriesFor(items, sourceToKey)
         == [(items[0].1.GetDependency(), RefsValue(sourceToKey, items[0].1.sources))] + EntriesFor(items[1..], sourceToKey)
  {
  }

  /** An entry whose key is found and whose coordinates parse is addOrMerge of the parsed record. */
  lemma ReadEntryFound(st: Store, groupName: string, entry: (string, string),
                       keyToSource: map<string, seq<DependencySource>>, key: string, d: DependencyInfo)
    requires Wellformed(st)
    requires IndexOf(entry.1, ',') == |key| && entry.1[..|key|] == key && key in keyToSource
    requires Parse(entry.0, keyToSource[key]) == Success(d)
    ensures ReadEntry(st, groupName, entry, keyToSource) == AddOrMerge(st, groupName, d)
  {
  }

  /** The text of an entry value up to its first comma is the key it starts with. */
  lemma KeyBeforeComma(key: string, rest: string)
    requires ',' !in key && rest != [] && rest[0] == ','
    ensures IndexOf(key + rest, ',') == |key| && (key + rest)[..|key|] == key
  {
    IndexOfAfterPrefix(key, rest, ',');
  }

  /** The entry written for a record reads back as addOrMerge of that record. */
  lemma ReadEntryOfRecord(st: Store, groupName: string, d: DependencyInfo, dict: Dict)
    requires Wellformed(st) && Canonical(d) && DictOk(dict) && d.sources in dict.sourceToKey
    ensures ReadEntry(st, groupName, (d.GetDependency(), RefsValue(dict.sourceToKey, d.sources)), dict.keyToSource)
         == AddOrMerge(st, groupName, d)
  {
    var key := dict.sourceToKey[d.sources];
    var rest := ",refs=" + DecimalString(|d.sources|);
    assert RefsValue(dict.sourceToKey, d.sources) == key + rest;
    PaddedKeyHasNoComma(key, d.sources);
    KeyBeforeComma(key, rest);
    ParseGetDependency(d, d.sources);
    assert d.(sources := d.sources) == d;
    ReadEntryFound(st, groupName, (d.GetDependency(), key + rest), dict.keyToSource, key, d);
  }

  /** Reading back the entries of a group's records is addOrMerge of those records, in order. */
  lemma {:induction false} ReadEntriesOfItems(st: Store, groupName: string, items: Items, dict: Dict)
    requires Wellformed(st) && DictOk(dict) && ReadableGroup(items, groupName, dict)
    ensures ReadEntries(st, groupName, EntriesFor(items, dict.sourceToKey), dict.keyToSource) == AddAll(st, items)
    decreases |items|
  {
    if items != [] {
      ReadableGroupTail(items, groupName, dict);
      ReadEntryOfRecord(st, groupName, items[0].1, dict);
      EntriesForCons(items, dict.sourceToKey);
      var step := AddOrMerge(st, groupName, items[0].1);
      if step.Success? {
        ReadEntriesOfItems(step.value, groupName, items[1..], dict);
      }
    }
  }

  /** Every record's list has a key in the dictionary. */
  ghost predicate Covered(items: Items, dict: Dict)
  {
    forall i | 0 <= i < |items| :: items[i].1.sources in dict.sourceToKey
  }

  lemma CoveredConcat(a: Items, b: Items, dict: Dict)
    requires Covered(a + b, dict)
    ensures Covered(a, dict) && Covered(b, dict)
  {
    assert forall i | 0 <= i < |a| :: (a + b)[i] == a[i];
    assert forall i | 0 <= i < |b| :: (a + b)[|a| + i] == b[i];
  }

  /** The records of a group of a well-formed store, once their lists are in the dictionary, can be read back. */
  lemma GroupReadable(st: Store, g: string, dict: Dict)
    requires Wellformed(st) && g in st.dependencies
    requires Covered(GroupItems(st.index, g, st.dependencies[g]), dict)
    ensures ReadableGroup(GroupItems(st.index, g, st.dependencies[g]), g, dict)
  {
    var ks := st.dependencies[g];
    forall i | 0 <= i < |ks| ensures Canonical(st.index[ks[i]]) {
      assert ks[i] in ks;
    }
  }

  /**
   * Reading back the groups writeTo wrote is the fold of addOrMerge over the
   * records of those groups, in the order merge visits them.
   */
  lemma {:induction false} ReadGroupsOfDocs(start: Store, st: Store, names: seq<string>, dict: Dict)
    requires Wellformed(start) && Wellformed(st) && GroupNames(st, names) && DictOk(dict)
    requires Covered(EntriesOf(st, names), dict)
    ensures ReadGroups(start, GroupDocs(st, names, dict.sourceToKey), dict.keyToSource) == AddAll(start, EntriesOf(st, names))
    decreases |names|
  {
    if names != [] {
      GroupNamesTail(st, names);
      var g := names[0];
      var items := GroupItems(st.index, g, st.dependencies[g]);
      var rest := EntriesOf(st, names[1..]);
      assert EntriesOf(st, names) == items + rest;
      CoveredConcat(items, rest, dict);
      GroupReadable(st, g, dict);
      ReadEntriesOfItems(start, g, items, dict);
      AddAllConcat(start, items, rest);
      var docs := GroupDocs(st, names, dict.sourceToKey);
      assert docs[0] == (g, EntriesFor(items, dict.sourceToKey));
      assert docs[1..] == GroupDocs(st, names[1..], dict.sourceToKey);
      var step := AddAll(start, items);
      if step.Success? {
        ReadGroupsOfDocs(step.value, st, names[1..], dict);
      }
    }
  }

  /**
   * The round trip: reading the document writeTo produced for a consistent
   * store gives back the same groups, records and lists of sources, whatever
   * the comment and the file name.
   */
  lemma RoundTrip(st: Store, comment: string, file: string)
    requires Wellformed(st) && Consistent(st)
    ensures WriteDoc(st, comment).Success?
    ensures ReadFrom(Bound(WriteDoc(st, comment).value), file) == Success(st)
  {
    WriteDocShape(st, comment);
    DictOfCovers(st);
    ReadGroupsOfDocs(Empty, st, st.groupOrder, DictOf(st));
    MergeIntoEmpty(st);
  }
  /** Every entry readFrom accepts goes through addOrMerge with a parsed record, so the index invariant holds. */
  lemma ReadEntryConsistent(st: Store, groupName: string, entry: (string, string),
                            keyToSource: map<string, seq<DependencySource>>)
    requires Wellformed(st) && Consistent(st)
    ensures var r := ReadEntry(st, groupName, entry, keyToSource);
      r.Success? ==> Consistent(r.value)
  {
    var source := entry.1;
    var comma := IndexOf(source, ',');
    if comma >= 0 && source[..comma] in keyToSource {
      var parsed := Parse(entry.0, keyToSource[source[..comma]]);
      if parsed.Success? {
        AddOrMergeConsistent(st, groupName, parsed.value);
      }
    }
  }

  lemma {:induction false} ReadEntriesConsistent(st: Store, groupName: string, entries: GroupEntries,
                                                 keyToSource: map<string, seq<DependencySource>>)
    requires Wellformed(st) && Consistent(st)
    ensures var r := ReadEntries(st, groupName, entries, keyToSource);
      r.Success? ==> Consistent(r.value)
    decreases |entries|
  {
    if entries != [] {
      ReadEntryConsistent(st, groupName, entries[0], keyToSource);
      var step := ReadEntry(st, groupName, entries[0], keyToSource);
      if step.Success? {
        ReadEntriesConsistent(step.value, groupName, entries[1..], keyToSource);
      }
    }
  }

  lemma {:induction false} ReadGroupsConsistent(st: Store, groups: seq<(string, GroupEntries)>,
                                                keyToSource: map<string, seq<DependencySource>>)
    requires Wellformed(st) && Consistent(st)
    ensures var r := ReadGroups(st, groups, keyToSource);
      r.Success? ==> Consistent(r.value)
    decreases |groups|
  {
    if groups != [] {
      ReadEntriesConsistent(st, groups[0].0, groups[0].1, keyToSource);
      var step := ReadEntries(st, groups[0].0, groups[0].1, keyToSource);
      if step.Success? {
        ReadGroupsConsistent(step.value, groups[1..], keyToSource);
      }
    }
  }

  /** Whatever document it is given, readFrom returns a set that keeps the index invariant. */
  lemma ReadFromConsistent(input: LockFileInput, file: string)
    ensures var r := ReadFrom(input, file);
      r.Success? ==> Consistent(r.value)
  {
    if input.Bound? {
      ReadGroupsConsistent(Empty, input.doc.configurationGroups, input.doc.keyToSource);
    }
  }
}
