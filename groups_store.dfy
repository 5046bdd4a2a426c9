/**
 * The state of a DependencyGroups object, as a value, and what addOrMerge,
 * merge and getIfExists do to it.
 *
 * The object owns one record per lookup key `group + " -> " + id()`. The
 * HashMap dependencyByGroupAndId maps each lookup key to its record; the
 * TreeMap `dependencies` maps each group name to a TreeSet holding the very
 * same record objects. A record is stored once, under the key it was created
 * for, and never moves, so the model names each record by that key: `index`
 * is the HashMap, a TreeSet is the sorted sequence of the keys of its records,
 * and `groupOrder` is the ascending key set of the TreeMap. Appending to a
 * record's sources through the HashMap is then seen through the TreeSet too,
 * as in the source.
 */
module GroupStore {
  import opened JavaText
  import opened Exceptions
  import opened Ordered
  import opened Sources
  import opened Coordinates

  datatype Store = Store(
    index: map<string, DependencyInfo>,
    dependencies: map<string, seq<string>>,
    groupOrder: seq<string>)

  /** The state of `new DependencyGroups()`. */
  const Empty: Store := Store(map[], map[], [])

  /** The HashMap key of a record of a group. */
  function LookupKey(groupName: string, id: string): string
  {
    groupName + " -> " + id
  }

  /** TreeMap order on group names: String.compareTo. */
  function NameKey(name: string): seq<string>
  {
    [name]
  }

  /** TreeSet order on the records of a group, reached through their keys. */
  function RecordKey(index: map<string, DependencyInfo>): string -> seq<string>
  {
    k => if k in index then index[k].SortKey() else []
  }

  /**
   * What every reachable state satisfies: groups iterate in ascending name
   * order, every group present has a non-empty TreeSet in comparator order
   * whose records are all in the index, and every record came out of the
   * String constructor.
   */
  ghost predicate Wellformed(st: Store)
  {
    && SortedBy(st.groupOrder, NameKey)
    && (forall g :: g in st.groupOrder <==> g in st.dependencies)
    && (forall g | g in st.dependencies ::
          st.dependencies[g] != [] && SortedBy(st.dependencies[g], RecordKey(st.index)))
    && (forall g, k | g in st.dependencies && k in st.dependencies[g] :: k in st.index)
    && (forall k | k in st.index :: Canonical(st.index[k]))
  }

  /**
   * The index invariant: each record of group g is indexed under
   * g + " -> " + its id(), and every indexed record belongs to some group.
   */
  ghost predicate Consistent(st: Store)
    requires Wellformed(st)
  {
    && (forall g, k | g in st.dependencies && k in st.dependencies[g] :: k == LookupKey(g, st.index[k].Id()))
    && (forall k | k in st.index :: exists g :: g in st.dependencies && k in st.dependencies[g])
  }

  /** Group names without '>', for which lookup keys of different groups cannot coincide. */
  predicate SafeGroupName(groupName: string)
  {
    '>' !in groupName
  }

  ghost predicate SafeNames(st: Store)
  {
    forall g | g in st.dependencies :: SafeGroupName(g)
  }

  /** Two keys made for the same id come from the same group. */
  lemma LookupKeyGroup(g1: string, g2: string, id: string)
    requires LookupKey(g1, id) == LookupKey(g2, id)
    ensures g1 == g2
  {
    var a, b := LookupKey(g1, id), LookupKey(g2, id);
    assert |g1| == |g2|;
    assert g1 == a[..|g1|] && g2 == b[..|g2|];
  }

  /** In the key of a group name without '>', the first '>' is the arrow's, and the key splits around it. */
  lemma KeyArrowAt(groupName: string, id: string)
    requires SafeGroupName(groupName)
    ensures var s := LookupKey(groupName, id);
      IndexOf(s, '>') == |groupName| + 2 && s[..|groupName|] == groupName && s[|groupName| + 4..] == id
  {
    var s := LookupKey(groupName, id);
    assert s == (groupName + " -") + ("> " + id);
    assert '>' !in groupName + " -";
    IndexOfAfterPrefix(groupName + " -", "> " + id, '>');
  }

  /** For group names without '>', a lookup key determines both the group and the id. */
  lemma LookupKeyInjective(g1: string, id1: string, g2: string, id2: string)
    requires SafeGroupName(g1) && SafeGroupName(g2)
    requires LookupKey(g1, id1) == LookupKey(g2, id2)
    ensures g1 == g2 && id1 == id2
  {
    KeyArrowAt(g1, id1);
    KeyArrowAt(g2, id2);
  }

  /**
   * Whatever the group names, records filed under equal keys have the same
   * version: a key ends with ':' and the version, and a version holds no ':'.
   */
  lemma LookupKeySameVersion(g1: string, d1: DependencyInfo, g2: string, d2: DependencyInfo)
    requires ':' !in d1.version && ':' !in d2.version
    requires LookupKey(g1, d1.Id()) == LookupKey(g2, d2.Id())
    ensures d1.version == d2.version
  {
    assert LookupKey(g1, d1.Id()) == (g1 + " -> " + d1.IdWithoutVersion()) + [':'] + d1.version;
    assert LookupKey(g2, d2.Id()) == (g2 + " -> " + d2.IdWithoutVersion()) + [':'] + d2.version;
    SameTailAfterLast(g1 + " -> " + d1.IdWithoutVersion(), d1.version, g2 + " -> " + d2.IdWithoutVersion(), d2.version, ':');
  }

  /** With a " -> " inside a group name, two different (group, id) pairs share a key. */
  lemma LookupKeyCollision()
    ensures LookupKey("a -> b", "c:d:e") == LookupKey("a", "b -> c:d:e")
  {
  }

  /** Sort keys of the records already present do not change. */
  ghost predicate KeepsSortKeys(old_index: map<string, DependencyInfo>, new_index: map<string, DependencyInfo>)
  {
    forall k | k in old_index :: k in new_index && new_index[k].SortKey() == old_index[k].SortKey()
  }

  lemma KeepsOrder(st: Store, index': map<string, DependencyInfo>)
    requires Wellformed(st) && KeepsSortKeys(st.index, index')
    ensures forall g | g in st.dependencies :: SortedBy(st.dependencies[g], RecordKey(index'))
  {
    forall g | g in st.dependencies ensures SortedBy(st.dependencies[g], RecordKey(index')) {
      var ks := st.dependencies[g];
      forall i | 0 <= i < |ks| ensures RecordKey(st.index)(ks[i]) == RecordKey(index')(ks[i]) {
        assert ks[i] in st.index;
      }
      SortedByAgree(ks, RecordKey(st.index), RecordKey(index'));
    }
  }

  /** A known record gets more sources appended to its list; nothing else changes. */
  function AppendSources(st: Store, key: string, extra: seq<DependencySource>): (r: Store)
    requires Wellformed(st) && key in st.index
    ensures Wellformed(r)
    ensures r.dependencies == st.dependencies && r.groupOrder == st.groupOrder
    ensures r.index == st.index[key := st.index[key].(sources := st.index[key].sources + extra)]
  {
    var owned := st.index[key];
    var index' := st.index[key := owned.(sources := owned.sources + extra)];
    KeepsOrder(st, index');
    st.(index := index')
  }

  /** The keys of a group's TreeSet, or none for a group not yet present. */
  function Members(st: Store, groupName: string): seq<string>
  {
    if groupName in st.dependencies then st.dependencies[groupName] else []
  }

  /** Adding a name to the TreeMap's key set adds exactly that name. */
  lemma AddNameMembers(names: seq<string>, name: string)
    requires SortedBy(names, NameKey)
    ensures forall g :: g in Add(names, name, NameKey) <==> g in names || g == name
  {
    if HasKey(names, name, NameKey) {
      var i :| 0 <= i < |names| && NameKey(names[i]) == NameKey(name);
      assert names[i] == NameKey(names[i])[0];
    }
  }

  /** The TreeSet a new key is added to is non-empty afterwards and holds only indexed keys. */
  lemma AddMemberIndexed(members: seq<string>, key: string, index': map<string, DependencyInfo>)
    requires SortedBy(members, RecordKey(index'))
    requires key in index' && forall k | k in members :: k in index'
    ensures var members' := Add(members, key, RecordKey(index'));
      members' != [] && forall k | k in members' :: k in index'
  {
    if HasKey(members, key, RecordKey(index')) {
      HeadIn(members);
    }
  }

  /**
   * A new record is indexed under its key and added to its group's TreeSet,
   * which computeIfAbsent creates when the group is new.
   */
  function InsertRecord(st: Store, groupName: string, key: string, owned: DependencyInfo): (r: Store)
    requires Wellformed(st) && key !in st.index && Canonical(owned)
    ensures Wellformed(r)
    ensures r.index == st.index[key := owned]
    ensures r.dependencies == st.dependencies[groupName := Add(Members(st, groupName), key, RecordKey(r.index))]
    ensures forall g :: g in r.groupOrder <==> g in st.groupOrder || g == groupName
  {
    var index' := st.index[key := owned];
    KeepsOrder(st, index');
    var members' := Add(Members(st, groupName), key, RecordKey(index'));
    InsertWellformed(st, groupName, key, owned);
    Store(index', st.dependencies[groupName := members'], Add(st.groupOrder, groupName, NameKey))
  }

  /** A group's members stay sorted once a new record joins the index. */
  lemma MembersStaySorted(st: Store, groupName: string, key: string, owned: DependencyInfo)
    requires Wellformed(st) && key !in st.index
    ensures SortedBy(Members(st, groupName), RecordKey(st.index[key := owned]))
  {
    KeepsOrder(st, st.index[key := owned]);
  }

  /** The store InsertRecord builds keeps the invariant, and its names are the old ones and the group. */
  lemma InsertWellformed(st: Store, groupName: string, key: string, owned: DependencyInfo)
    requires Wellformed(st) && key !in st.index && Canonical(owned)
    ensures var index' := st.index[key := owned];
      && SortedBy(Members(st, groupName), RecordKey(index'))
      && var r := Store(index', st.dependencies[groupName := Add(Members(st, groupName), key, RecordKey(index'))],
                        Add(st.groupOrder, groupName, NameKey));
      && Wellformed(r)
      && forall g :: g in r.groupOrder <==> g in st.groupOrder || g == groupName
  {
    var index' := st.index[key := owned];
    KeepsOrder(st, index');
    var members := Members(st, groupName);
    var members' := Add(members, key, RecordKey(index'));
    AddMemberIndexed(members, key, index');
    AddNameMembers(st.groupOrder, groupName);
    var r := Store(index', st.dependencies[groupName := members'], Add(st.groupOrder, groupName, NameKey));
    forall g | g in r.dependencies
      ensures r.dependencies[g] != [] && SortedBy(r.dependencies[g], RecordKey(index'))
      ensures forall k | k in r.dependencies[g] :: k in index'
    {
      if g != groupName {
        assert r.dependencies[g] == st.dependencies[g];
        assert forall k | k in st.dependencies[g] :: k in st.index;
      }
    }
  }

  /**
   * addOrMerge(groupName, d). A key already indexed gets d's sources appended
   * to its record's list. Otherwise a new record is made with the String
   * constructor from d.getDependency() and d's sources (which throws for
   * coordinates that do not split into three pieces), indexed, and added to the
   * group's TreeSet, the group being created if needed. On an exception the
   * state is left as it was.
   */
  function AddOrMerge(st: Store, groupName: string, d: DependencyInfo): (r: Result<Store>)
    requires Wellformed(st)
    ensures r.Success? ==> Wellformed(r.value)
  {
    var key := LookupKey(groupName, d.Id());
    if key in st.index then Success(AppendSources(st, key, d.sources))
    else
      match Parse(d.GetDependency(), d.sources)
      case Failure(e) => Failure(e)
      case Success(owned) => Success(InsertRecord(st, groupName, key, owned))
  }

  /** addOrMerge throws exactly for an unknown key whose coordinates do not parse. */
  lemma AddOrMergeFails(st: Store, groupName: string, d: DependencyInfo)
    requires Wellformed(st)
    ensures var r := AddOrMerge(st, groupName, d);
      r.Failure? <==> LookupKey(groupName, d.Id()) !in st.index && |Split(d.GetDependency(), ':')| != 3
    ensures var r := AddOrMerge(st, groupName, d);
      r.Failure? ==> r.error == RuntimeException(BadCoordinatesMessage(d.GetDependency()))
  {
  }

  /**
   * The index after addOrMerge of a constructor-made record d under key: a known
   * record gets d's sources appended, duplicates kept; otherwise d is added.
   * No other key changes.
   */
  function Upsert(index: map<string, DependencyInfo>, key: string, d: DependencyInfo): (r: map<string, DependencyInfo>)
    ensures r.Keys == index.Keys + {key}
    ensures forall k | k in index && k != key :: r[k] == index[k]
    ensures key in index ==> r[key] == index[key].(sources := index[key].sources + d.sources)
    ensures key !in index ==> r[key] == d
  {
    if key in index then index[key := index[key].(sources := index[key].sources + d.sources)] else index[key := d]
  }

  /** addOrMerge of a record the String constructor could have made never throws and upserts it. */
  lemma AddOrMergeIndex(st: Store, groupName: string, d: DependencyInfo)
    requires Wellformed(st) && Canonical(d)
    ensures AddOrMerge(st, groupName, d).Success?
    ensures AddOrMerge(st, groupName, d).value.index == Upsert(st.index, LookupKey(groupName, d.Id()), d)
  {
    ParseGetDependency(d, d.sources);
  }

  /** Records of different ids never compare equal in a group's TreeSet. */
  lemma DistinctIdsDistinctSortKeys(a: DependencyInfo, b: DependencyInfo)
    requires a.Id() != b.Id()
    ensures a.SortKey() != b.SortKey()
  {
    if a.SortKey() == b.SortKey() { SameSortKeySameId(a, b); }
  }

  /**
   * How addOrMerge of a record with key `key` changes the TreeMap: the group
   * is present afterwards, its TreeSet gains at most that key, and every other
   * group keeps its TreeSet.
   */
  ghost predicate GroupEffect(st: Store, r: Store, groupName: string, key: string)
  {
    && groupName in r.dependencies
    && (forall k :: k in r.dependencies[groupName] <==> k == key || k in Members(st, groupName))
    && (forall g | g != groupName :: (g in r.dependencies <==> g in st.dependencies))
    && (forall g | g in st.dependencies && g != groupName :: r.dependencies[g] == st.dependencies[g])
  }

  /**
   * In a consistent store whose group names have no '>', an indexed key made
   * for group g is a member of g's TreeSet.
   */
  lemma IndexedKeyInGroup(st: Store, groupName: string, id: string)
    requires Wellformed(st) && Consistent(st) && SafeNames(st) && SafeGroupName(groupName)
    requires LookupKey(groupName, id) in st.index
    ensures groupName in st.dependencies && LookupKey(groupName, id) in st.dependencies[groupName]
  {
    var key := LookupKey(groupName, id);
    var g0 :| g0 in st.dependencies && key in st.dependencies[g0];
    assert key == LookupKey(g0, st.index[key].Id());
    LookupKeyInjective(g0, st.index[key].Id(), groupName, id);
  }

  /** Appending sources does not change a record's id(). */
  lemma IdIgnoresSources(d: DependencyInfo, extra: seq<DependencySource>)
    ensures d.(sources := d.sources + extra).Id() == d.Id()
  {
  }

  /** Changing records without changing their ids keeps the index invariant. */
  lemma SameIdsConsistent(st: Store, r: Store)
    requires Wellformed(st) && Consistent(st) && Wellformed(r)
    requires r.dependencies == st.dependencies && r.index.Keys == st.index.Keys
    requires forall k | k in st.index :: r.index[k].Id() == st.index[k].Id()
    ensures Consistent(r)
  {
  }

  /** Appending sources keeps every id, so it keeps the index invariant. */
  lemma AppendConsistent(st: Store, key: string, extra: seq<DependencySource>)
    requires Wellformed(st) && Consistent(st) && key in st.index
    ensures Consistent(AppendSources(st, key, extra))
  {
    var r := AppendSources(st, key, extra);
    AppendKeepsIds(st, key, extra);
    SameIdsConsistent(st, r);
  }

  /** Every record keeps its id() when sources are appended to one of them. */
  lemma AppendKeepsIds(st: Store, key: string, extra: seq<DependencySource>)
    requires Wellformed(st) && key in st.index
    ensures var r := AppendSources(st, key, extra);
      r.index.Keys == st.index.Keys && forall k | k in st.index :: r.index[k].Id() == st.index[k].Id()
  {
    var r := AppendSources(st, key, extra);
    forall k | k in st.index ensures r.index[k].Id() == st.index[k].Id() {
      if k == key { IdIgnoresSources(st.index[key], extra); }
    }
  }

  /**
   * In a consistent store, a record of group g with a key not yet indexed has no
   * comparator-equal record in g's TreeSet, so TreeSet.add really adds it.
   */
  lemma NoComparatorTwin(st: Store, groupName: string, d: DependencyInfo)
    requires Wellformed(st) && Consistent(st)
    requires LookupKey(groupName, d.Id()) !in st.index
    ensures var key := LookupKey(groupName, d.Id());
      !HasKey(Members(st, groupName), key, RecordKey(st.index[key := d]))
  {
    var key := LookupKey(groupName, d.Id());
    var index' := st.index[key := d];
    var members := Members(st, groupName);
    forall i | 0 <= i < |members| ensures RecordKey(index')(members[i]) != RecordKey(index')(key) {
      var m := members[i];
      assert m in st.index && m != key;
      assert m == LookupKey(groupName, st.index[m].Id());
      assert st.index[m].Id() != d.Id();
      DistinctIdsDistinctSortKeys(st.index[m], d);
    }
  }

  /** After an insertion every TreeSet member is still indexed under its group and id. */
  lemma InsertKeysMatch(st: Store, groupName: string, d: DependencyInfo)
    requires Wellformed(st) && Consistent(st) && Canonical(d)
    requires LookupKey(groupName, d.Id()) !in st.index
    ensures var key := LookupKey(groupName, d.Id());
      var r := InsertRecord(st, groupName, key, d);
      forall g, k | g in r.dependencies && k in r.dependencies[g] :: k == LookupKey(g, r.index[k].Id())
  {
    var key := LookupKey(groupName, d.Id());
    var r := InsertRecord(st, groupName, key, d);
    NoComparatorTwin(st, groupName, d);
    forall g, k | g in r.dependencies && k in r.dependencies[g]
      ensures k == LookupKey(g, r.index[k].Id())
    {
      if k != key {
        assert g in st.dependencies && k in st.dependencies[g];
      }
    }
  }

  /** After an insertion every indexed record still belongs to some group. */
  lemma InsertKeysCovered(st: Store, groupName: string, d: DependencyInfo)
    requires Wellformed(st) && Consistent(st) && Canonical(d)
    requires LookupKey(groupName, d.Id()) !in st.index
    ensures var key := LookupKey(groupName, d.Id());
      var r := InsertRecord(st, groupName, key, d);
      forall k | k in r.index :: exists g :: g in r.dependencies && k in r.dependencies[g]
  {
    var key := LookupKey(groupName, d.Id());
    var r := InsertRecord(st, groupName, key, d);
    NoComparatorTwin(st, groupName, d);
    forall k | k in r.index ensures exists g :: g in r.dependencies && k in r.dependencies[g] {
      if k == key {
        assert key in r.dependencies[groupName];
      } else {
        var g :| g in st.dependencies && k in st.dependencies[g];
        assert k in r.dependencies[g];
      }
    }
  }

  /**
   * Inserting a constructor-made record under the key made from its own id keeps
   * the index invariant: it joins exactly its group's TreeSet.
   */
  lemma InsertConsistent(st: Store, groupName: string, d: DependencyInfo)
    requires Wellformed(st) && Consistent(st) && Canonical(d)
    requires LookupKey(groupName, d.Id()) !in st.index
    ensures var key := LookupKey(groupName, d.Id());
      var r := InsertRecord(st, groupName, key, d);
      Consistent(r) && GroupEffect(st, r, groupName, key)
  {
    NoComparatorTwin(st, groupName, d);
    InsertKeysMatch(st, groupName, d);
    InsertKeysCovered(st, groupName, d);
  }

  /**
   * addOrMerge of a record the String constructor could have made never
   * throws and keeps the index invariant. A record new to the index joins its
   * group's TreeSet and no other.
   */
  lemma AddOrMergeConsistent(st: Store, groupName: string, d: DependencyInfo)
    requires Wellformed(st) && Consistent(st) && Canonical(d)
    ensures AddOrMerge(st, groupName, d).Success?
    ensures Consistent(AddOrMerge(st, groupName, d).value)
    ensures LookupKey(groupName, d.Id()) !in st.index ==>
      GroupEffect(st, AddOrMerge(st, groupName, d).value, groupName, LookupKey(groupName, d.Id()))
  {
    var key := LookupKey(groupName, d.Id());
    ParseGetDependency(d, d.sources);
    if key in st.index {
      assert AddOrMerge(st, groupName, d) == Success(AppendSources(st, key, d.sources));
      AppendConsistent(st, key, d.sources);
    } else {
      assert AddOrMerge(st, groupName, d) == Success(InsertRecord(st, groupName, key, d));
      InsertConsistent(st, groupName, d);
    }
  }

  /**
   * When no group name has a '>', lookup keys of different groups never meet,
   * so a known record is always found in its own group: addOrMerge leaves the
   * record in the TreeSet of the group it names, whichever branch it takes.
   */
  lemma AddOrMergeGroupEffect(st: Store, groupName: string, d: DependencyInfo)
    requires Wellformed(st) && Consistent(st) && SafeNames(st) && SafeGroupName(groupName) && Canonical(d)
    ensures AddOrMerge(st, groupName, d).Success?
    ensures var r := AddOrMerge(st, groupName, d).value;
      GroupEffect(st, r, groupName, LookupKey(groupName, d.Id())) && SafeNames(r)
  {
    var key := LookupKey(groupName, d.Id());
    AddOrMergeConsistent(st, groupName, d);
    if key in st.index {
      assert AddOrMerge(st, groupName, d) == Success(AppendSources(st, key, d.sources));
      IndexedKeyInGroup(st, groupName, d.Id());
    }
  }

  /** getIfExists(groupName, other): the record indexed under other's key in that group, if any. */
  function GetIfExists(st: Store, groupName: string, other: DependencyInfo): (r: Option<DependencyInfo>)
  {
    var key := LookupKey(groupName, other.Id());
    if key in st.index then Some(st.index[key]) else None
  }

  /**
   * getIfExists returns a record of some group with the version asked for;
   * for group names without '>', it finds a record exactly when the group
   * holds one with the same id(), and then returns that record.
   */
  lemma GetIfExistsFinds(st: Store, groupName: string, other: DependencyInfo)
    requires Wellformed(st) && Consistent(st)
    ensures var r := GetIfExists(st, groupName, other);
      r.Some? ==> exists g :: g in st.dependencies && LookupKey(groupName, other.Id()) in st.dependencies[g]
    ensures var r := GetIfExists(st, groupName, other);
      r.Some? && ':' !in other.version ==> r.value.version == other.version
    ensures var r := GetIfExists(st, groupName, other);
      SafeNames(st) && SafeGroupName(groupName) ==>
        (r.Some? <==> groupName in st.dependencies && exists k :: k in st.dependencies[groupName] && st.index[k].Id() == other.Id())
    ensures var r := GetIfExists(st, groupName, other);
      SafeNames(st) && SafeGroupName(groupName) ==>
        (r.Some? ==> r.value.Id() == other.Id() && LookupKey(groupName, other.Id()) in st.dependencies[groupName])
  {
    var key := LookupKey(groupName, other.Id());
    if key in st.index {
      var g :| g in st.dependencies && key in st.dependencies[g];
      assert key == LookupKey(g, st.index[key].Id());
      if ':' !in other.version {
        LookupKeySameVersion(g, st.index[key], groupName, other);
      }
      if SafeNames(st) && SafeGroupName(groupName) {
        LookupKeyInjective(g, st.index[key].Id(), groupName, other.Id());
      }
    }
    if groupName in st.dependencies && exists k :: k in st.dependencies[groupName] && st.index[k].Id() == other.Id() {
      var k :| k in st.dependencies[groupName] && st.index[k].Id() == other.Id();
      assert k == key;
    }
  }
}
