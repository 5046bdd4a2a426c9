/**
 * merge(other) on the value model of DependencyGroups: a fold of addOrMerge
 * over every record of other, group by group in name order and record by
 * record in comparator order.
 */
module GroupMerge {
  import opened Exceptions
  import opened Ordered
  import opened Coordinates
  import opened GroupStore

  /** The records of many addOrMerge calls, each with its group name. */
  type Items = seq<(string, DependencyInfo)>

  /** addOrMerge on each item in turn; the first exception ends the fold. */
  function AddAll(st: Store, items: Items): (r: Result<Store>)
    requires Wellformed(st)
    ensures r.Success? ==> Wellformed(r.value)
    decreases |items|
  {
    if items == [] then Success(st)
    else
      match AddOrMerge(st, items[0].0, items[0].1)
      case Failure(e) => Failure(e)
      case Success(next) => AddAll(next, items[1..])
  }

  /** Folding over a + b is folding over a, then over b unless a threw. */
  lemma {:induction false} AddAllConcat(st: Store, a: Items, b: Items)
    requires Wellformed(st)
    ensures AddAll(st, a).Failure? ==> AddAll(st, a + b) == AddAll(st, a)
    ensures AddAll(st, a).Success? ==> AddAll(st, a + b) == AddAll(AddAll(st, a).value, b)
    decreases |a|
  {
    if a != [] {
      var ab := a + b;
      assert ab != [] && ab[0] == a[0] && ab[1..] == a[1..] + b;
      var step := AddOrMerge(st, a[0].0, a[0].1);
      if step.Success? {
        var next := step.value;
        assert AddAll(st, ab) == AddAll(next, a[1..] + b);
        assert AddAll(st, a) == AddAll(next, a[1..]);
        AddAllConcat(next, a[1..], b);
      }
    } else {
      assert a + b == b;
    }
  }

  ghost predicate AllCanonical(items: Items)
  {
    forall i | 0 <= i < |items| :: Canonical(items[i].1)
  }

  /** The items after the first are canonical too. */
  lemma AllCanonicalTail(items: Items)
    requires items != [] && AllCanonical(items)
    ensures Canonical(items[0].1) && AllCanonical(items[1..])
  {
    assert forall i | 0 <= i < |items| - 1 :: items[1..][i] == items[i + 1];
  }

  /** A fold of addOrMerge over canonical records never throws and keeps the index invariant. */
  lemma {:induction false} AddAllConsistent(st: Store, items: Items)
    requires Wellformed(st) && Consistent(st) && AllCanonical(items)
    ensures AddAll(st, items).Success? && Consistent(AddAll(st, items).value)
    decreases |items|
  {
    if items != [] {
      AllCanonicalTail(items);
      AddOrMergeConsistent(st, items[0].0, items[0].1);
      var step := AddOrMerge(st, items[0].0, items[0].1);
      assert AddAll(st, items) == AddAll(step.value, items[1..]);
      AddAllConsistent(step.value, items[1..]);
    }
  }

  /** The lookup key each item is merged under. */
  function ItemKey(item: (string, DependencyInfo)): string
  {
    LookupKey(item.0, item.1.Id())
  }

  function ItemKeys(items: Items): (ks: seq<string>)
    ensures |ks| == |items| && forall i | 0 <= i < |items| :: ks[i] == ItemKey(items[i])
  {
    if items == [] then [] else [ItemKey(items[0])] + ItemKeys(items[1..])
  }

  ghost predicate Distinct(ks: seq<string>)
  {
    forall i, j | 0 <= i < j < |ks| :: ks[i] != ks[j]
  }

  /** The index a fold of addOrMerge over canonical records leaves: one upsert per item. */
  function UpsertAll(index: map<string, DependencyInfo>, items: Items): map<string, DependencyInfo>
    decreases |items|
  {
    if items == [] then index
    else UpsertAll(Upsert(index, ItemKey(items[0]), items[0].1), items[1..])
  }

  /** The fold of addOrMerge over canonical records never throws and upserts each record in turn. */
  lemma {:induction false} AddAllIndex(st: Store, items: Items)
    requires Wellformed(st) && AllCanonical(items)
    ensures AddAll(st, items).Success?
    ensures AddAll(st, items).value.index == UpsertAll(st.index, items)
    decreases |items|
  {
    if items != [] {
      AllCanonicalTail(items);
      AddOrMergeIndex(st, items[0].0, items[0].1);
      var step := AddOrMerge(st, items[0].0, items[0].1);
      assert AddAll(st, items) == AddAll(step.value, items[1..]);
      AddAllIndex(step.value, items[1..]);
    }
  }

  /**
   * What a fold of addOrMerge over records with distinct keys leaves in the
   * index: every item's key is present, an item whose key was known has its
   * sources appended to the known record's, a new one is stored as it is,
   * and every other key keeps its record.
   */
  ghost predicate MergedIndex(before: map<string, DependencyInfo>, items: Items, after: map<string, DependencyInfo>)
  {
    && (forall k :: k in after <==> k in before || k in ItemKeys(items))
    && (forall k | k in before && k !in ItemKeys(items) :: after[k] == before[k])
    && (forall i | 0 <= i < |items| ::
          var k := ItemKey(items[i]);
          after[k] == if k in before then before[k].(sources := before[k].sources + items[i].1.sources)
                      else items[i].1)
  }

  /** The keys after the first of distinct keys are distinct and differ from the first. */
  lemma DistinctTail(items: Items)
    requires items != [] && Distinct(ItemKeys(items))
    ensures ItemKeys(items) == [ItemKey(items[0])] + ItemKeys(items[1..])
    ensures Distinct(ItemKeys(items[1..])) && ItemKey(items[0]) !in ItemKeys(items[1..])
  {
    var rest := items[1..];
    assert forall i | 0 <= i < |rest| :: ItemKeys(rest)[i] == ItemKeys(items)[i + 1];
  }

  /** One step of the fold: what the rest does after the first upsert is what the whole does. */
  lemma MergedIndexStep(index: map<string, DependencyInfo>, items: Items, after: map<string, DependencyInfo>)
    requires items != [] && Distinct(ItemKeys(items))
    requires MergedIndex(Upsert(index, ItemKey(items[0]), items[0].1), items[1..], after)
    ensures MergedIndex(index, items, after)
  {
    var key := ItemKey(items[0]);
    var rest := items[1..];
    DistinctTail(items);
    forall i | 0 <= i < |items|
      ensures var k := ItemKey(items[i]);
        after[k] == if k in index then index[k].(sources := index[k].sources + items[i].1.sources)
                    else items[i].1
    {
      if i > 0 {
        assert items[i] == rest[i - 1];
        assert ItemKeys(items)[i] != key;
      }
    }
  }

  /** Over distinct keys, the upserts add up to a merged index. */
  lemma {:induction false} UpsertAllDistinct(index: map<string, DependencyInfo>, items: Items)
    requires Distinct(ItemKeys(items))
    ensures MergedIndex(index, items, UpsertAll(index, items))
    decreases |items|
  {
    if items != [] {
      DistinctTail(items);
      var next := Upsert(index, ItemKey(items[0]), items[0].1);
      UpsertAllDistinct(next, items[1..]);
      MergedIndexStep(index, items, UpsertAll(index, items));
    }
  }

  /** A group's records, with its name, in TreeSet order. */
  function GroupItems(index: map<string, DependencyInfo>, groupName: string, keys: seq<string>): (items: Items)
    requires forall k | k in keys :: k in index
    ensures |items| == |keys|
    ensures forall i | 0 <= i < |keys| :: items[i] == (groupName, index[keys[i]])
  {
    if keys == [] then [] else [(groupName, index[keys[0]])] + GroupItems(index, groupName, keys[1..])
  }

  function EntriesOf(st: Store, names: seq<string>): Items
    requires Wellformed(st)
    requires forall g | g in names :: g in st.dependencies
  {
    if names == [] then []
    else GroupItems(st.index, names[0], st.dependencies[names[0]]) + EntriesOf(st, names[1..])
  }

  /**
   * What merge iterates over: every group in ascending name order and, within
   * it, every record in comparator order.
   */
  function Entries(st: Store): Items
    requires Wellformed(st)
  {
    EntriesOf(st, st.groupOrder)
  }

  /** The records of a group, and so of every group, of a well-formed store are canonical. */
  lemma GroupItemsCanonical(st: Store, g: string)
    requires Wellformed(st) && g in st.dependencies
    ensures AllCanonical(GroupItems(st.index, g, st.dependencies[g]))
  {
    var ks := st.dependencies[g];
    forall i | 0 <= i < |ks| ensures Canonical(st.index[ks[i]]) {
      assert ks[i] in ks;
    }
  }

  lemma AllCanonicalConcat(a: Items, b: Items)
    requires AllCanonical(a) && AllCanonical(b)
    ensures AllCanonical(a + b)
  {
    forall i | 0 <= i < |a + b| ensures Canonical((a + b)[i].1) {
      if i >= |a| { assert (a + b)[i] == b[i - |a|]; }
    }
  }

  lemma {:induction false} EntriesOfCanonical(st: Store, names: seq<string>)
    requires Wellformed(st) && forall g | g in names :: g in st.dependencies
    ensures AllCanonical(EntriesOf(st, names))
  {
    if names != [] {
      assert names[0] in names;
      GroupItemsCanonical(st, names[0]);
      EntriesOfCanonical(st, names[1..]);
      AllCanonicalConcat(GroupItems(st.index, names[0], st.dependencies[names[0]]), EntriesOf(st, names[1..]));
    }
  }

  /** merge never throws when other is well formed: all its records are canonical. */
  lemma MergeSucceeds(st: Store, other: Store)
    requires Wellformed(st) && Wellformed(other)
    ensures Merge(st, other).Success?
  {
    EntriesOfCanonical(other, other.groupOrder);
    AddAllIndex(st, Entries(other));
  }

  /** merge(other): addOrMerge of every record of every group of other, in iteration order. */
  function Merge(st: Store, other: Store): (r: Result<Store>)
    requires Wellformed(st) && Wellformed(other)
    ensures r.Success? ==> Wellformed(r.value)
  {
    AddAll(st, Entries(other))
  }

  /** The keys of merged records, group by group. */
  function KeysOf(st: Store, names: seq<string>): seq<string>
    requires forall g | g in names :: g in st.dependencies
  {
    if names == [] then [] else st.dependencies[names[0]] + KeysOf(st, names[1..])
  }

  lemma {:induction false} ItemKeysConcat(a: Items, b: Items)
    ensures ItemKeys(a + b) == ItemKeys(a) + ItemKeys(b)
  {
  }

  /** The records of a group's TreeSet come out of GroupItems under their own keys. */
  lemma GroupItemKeys(index: map<string, DependencyInfo>, g: string, ks: seq<string>)
    requires forall k | k in ks :: k in index && k == LookupKey(g, index[k].Id())
    ensures var head := GroupItems(index, g, ks);
      && ItemKeys(head) == ks
      && forall i | 0 <= i < |head| :: ItemKey(head[i]) in index && head[i].1 == index[ItemKey(head[i])]
  {
    var head := GroupItems(index, g, ks);
    forall i | 0 <= i < |ks| ensures ItemKey(head[i]) == ks[i] {
      assert ks[i] in ks;
    }
  }

  lemma {:induction false} EntriesOfKeys(st: Store, names: seq<string>)
    requires Wellformed(st) && Consistent(st)
    requires forall g | g in names :: g in st.dependencies
    ensures ItemKeys(EntriesOf(st, names)) == KeysOf(st, names)
  {
    if names != [] {
      var g := names[0];
      var head := GroupItems(st.index, g, st.dependencies[g]);
      EntriesOfKeys(st, names[1..]);
      ItemKeysConcat(head, EntriesOf(st, names[1..]));
      GroupItemKeys(st.index, g, st.dependencies[g]);
    }
  }

  lemma {:induction false} EntriesOfIndexed(st: Store, names: seq<string>)
    requires Wellformed(st) && Consistent(st)
    requires forall g | g in names :: g in st.dependencies
    ensures forall i | 0 <= i < |EntriesOf(st, names)| ::
      var item := EntriesOf(st, names)[i]; ItemKey(item) in st.index && item.1 == st.index[ItemKey(item)]
  {
    if names != [] {
      var g := names[0];
      var head := GroupItems(st.index, g, st.dependencies[g]);
      var tail := EntriesOf(st, names[1..]);
      EntriesOfIndexed(st, names[1..]);
      GroupItemKeys(st.index, g, st.dependencies[g]);
      var all := EntriesOf(st, names);
      assert all == head + tail;
      forall i | 0 <= i < |all| ensures ItemKey(all[i]) in st.index && all[i].1 == st.index[ItemKey(all[i])] {
        if i >= |head| {
          assert all[i] == tail[i - |head|];
        } else {
          assert all[i] == head[i];
        }
      }
    }
  }

  lemma {:induction false} KeysOfMembers(st: Store, names: seq<string>, k: string)
    requires forall g | g in names :: g in st.dependencies
    ensures k in KeysOf(st, names) <==> exists g :: g in names && k in st.dependencies[g]
  {
    if names != [] {
      KeysOfMembers(st, names[1..], k);
      if k in st.dependencies[names[0]] {
        assert names[0] in names;
      }
      if exists g :: g in names[1..] && k in st.dependencies[g] {
        var g :| g in names[1..] && k in st.dependencies[g];
        assert g in names;
      }
      if exists g :: g in names && k in st.dependencies[g] {
        var g :| g in names && k in st.dependencies[g];
        if g != names[0] { assert g in names[1..]; }
      }
    }
  }

  /** A strictly sorted sequence has no repeated element. */
  lemma SortedDistinct(ks: seq<string>, key: string -> seq<string>)
    requires SortedBy(ks, key)
    ensures Distinct(ks)
  {
    KeyLessIsStrictTotalOrder();
  }

  lemma {:induction false} DistinctConcat(a: seq<string>, b: seq<string>)
    requires Distinct(a) && Distinct(b)
    requires forall k | k in a :: k !in b
    ensures Distinct(a + b)
  {
    var c := a + b;
    forall i, j | 0 <= i < j < |c| ensures c[i] != c[j] {
      if i < |a| && j >= |a| {
        assert c[i] in a && c[j] == b[j - |a|];
      }
    }
  }

  /** In a consistent store a key belongs to the TreeSet of one group only. */
  lemma OneGroupPerKey(st: Store, g: string, g': string, k: string)
    requires Wellformed(st) && Consistent(st) && g in st.dependencies && k in st.dependencies[g]
    ensures g' != g ==> g' !in st.dependencies || k !in st.dependencies[g']
  {
    if g' in st.dependencies && k in st.dependencies[g'] {
      assert LookupKey(g, st.index[k].Id()) == LookupKey(g', st.index[k].Id());
      LookupKeyGroup(g, g', st.index[k].Id());
    }
  }

  lemma {:induction false} KeysOfDistinct(st: Store, names: seq<string>)
    requires Wellformed(st) && Consistent(st)
    requires forall g | g in names :: g in st.dependencies
    requires SortedBy(names, NameKey)
    ensures Distinct(KeysOf(st, names))
  {
    if names != [] {
      var g := names[0];
      var rest := names[1..];
      assert SortedBy(rest, NameKey);
      KeysOfDistinct(st, rest);
      SortedDistinct(st.dependencies[g], RecordKey(st.index));
      forall k | k in st.dependencies[g] ensures k !in KeysOf(st, rest) {
        FirstGroupKeyNotLater(st, names, k);
      }
      DistinctConcat(st.dependencies[g], KeysOf(st, rest));
    }
  }

  /** A key of the first group is in none of the later, larger-named groups. */
  lemma FirstGroupKeyNotLater(st: Store, names: seq<string>, k: string)
    requires Wellformed(st) && Consistent(st)
    requires forall g | g in names :: g in st.dependencies
    requires SortedBy(names, NameKey) && names != [] && k in st.dependencies[names[0]]
    ensures k !in KeysOf(st, names[1..])
  {
    var g, rest := names[0], names[1..];
    KeysOfMembers(st, rest, k);
    forall g' | g' in rest ensures k !in st.dependencies[g'] {
      var j :| 0 <= j < |rest| && rest[j] == g';
      assert KeyLess(NameKey(names[0]), NameKey(names[j + 1]));
      KeyLessIrreflexive(NameKey(g));
      OneGroupPerKey(st, g, g', k);
    }
  }

  /**
   * What merge sees of a consistent store: every indexed record exactly once,
   * under the key it is indexed by.
   */
  lemma EntriesCoverIndex(st: Store)
    requires Wellformed(st) && Consistent(st)
    ensures Distinct(ItemKeys(Entries(st)))
    ensures AllCanonical(Entries(st))
    ensures forall k :: k in ItemKeys(Entries(st)) <==> k in st.index
    ensures forall i | 0 <= i < |Entries(st)| :: Entries(st)[i].1 == st.index[ItemKey(Entries(st)[i])]
  {
    EntriesOfKeys(st, st.groupOrder);
    EntriesOfIndexed(st, st.groupOrder);
    KeysOfDistinct(st, st.groupOrder);
    forall k ensures k in ItemKeys(Entries(st)) <==> k in st.index {
      KeysOfMembers(st, st.groupOrder, k);
    }
  }

  /** The index merge leaves behind: shared keys get both lists of sources, in order. */
  ghost predicate CombinedIndex(a: map<string, DependencyInfo>, b: map<string, DependencyInfo>, r: map<string, DependencyInfo>)
  {
    && r.Keys == a.Keys + b.Keys
    && (forall k | k in a && k !in b :: r[k] == a[k])
    && (forall k | k in b && k !in a :: r[k] == b[k])
    && (forall k | k in a && k in b :: r[k] == a[k].(sources := a[k].sources + b[k].sources))
  }

  /** The records of b, with their keys, as a sequence of items. */
  ghost predicate ItemsOf(items: Items, b: map<string, DependencyInfo>)
  {
    && (forall k :: k in ItemKeys(items) <==> k in b)
    && (forall i | 0 <= i < |items| :: items[i].1 == b[ItemKey(items[i])])
  }

  lemma MergedRecordsOfB(a: map<string, DependencyInfo>, items: Items, r: map<string, DependencyInfo>, b: map<string, DependencyInfo>)
    requires MergedIndex(a, items, r) && ItemsOf(items, b)
    ensures forall k | k in b :: r[k] == if k in a then a[k].(sources := a[k].sources + b[k].sources) else b[k]
  {
    forall k | k in b
      ensures r[k] == if k in a then a[k].(sources := a[k].sources + b[k].sources) else b[k]
    {
      var i :| 0 <= i < |items| && ItemKeys(items)[i] == k;
      assert ItemKey(items[i]) == k;
    }
  }

  /** When the items are exactly the records of b, a merged index is the combination with b. */
  lemma MergedToCombined(a: map<string, DependencyInfo>, items: Items, r: map<string, DependencyInfo>, b: map<string, DependencyInfo>)
    requires MergedIndex(a, items, r) && ItemsOf(items, b)
    ensures CombinedIndex(a, b, r)
  {
    assert r.Keys == a.Keys + b.Keys by {
      assert forall k :: k in r <==> k in a || k in b;
    }
    MergedRecordsOfB(a, items, r, b);
  }

  /** Combining with nothing changes nothing. */
  lemma CombinedWithEmpty(b: map<string, DependencyInfo>, r: map<string, DependencyInfo>)
    requires CombinedIndex(map[], b, r)
    ensures r == b
  {
  }

  /**
   * merge(other) of a consistent other never throws, keeps the index
   * invariant, and leaves the union of both indexes with the sources of shared
   * records appended.
   */
  lemma MergeIndex(st: Store, other: Store)
    requires Wellformed(st) && Consistent(st) && Wellformed(other) && Consistent(other)
    ensures Merge(st, other).Success?
    ensures Consistent(Merge(st, other).value)
    ensures CombinedIndex(st.index, other.index, Merge(st, other).value.index)
  {
    var items := Entries(other);
    EntriesCoverIndex(other);
    AddAllIndex(st, items);
    AddAllConsistent(st, items);
    UpsertAllDistinct(st.index, items);
    MergedToCombined(st.index, items, Merge(st, other).value.index, other.index);
  }

  /**
   * merge appends source lists, so it is not idempotent: merging the same
   * set a second time lists each of its non-empty source lists twice.
   */
  lemma MergeTwiceRepeatsSources(st: Store, other: Store, k: string)
    requires Wellformed(st) && Consistent(st) && Wellformed(other) && Consistent(other)
    requires k in other.index && other.index[k].sources != []
    ensures Merge(st, other).Success?
    ensures var once := Merge(st, other).value;
      && Merge(once, other).Success?
      && k in once.index && k in Merge(once, other).value.index
      && Merge(once, other).value.index[k].sources == once.index[k].sources + other.index[k].sources
      && Merge(once, other).value != once
  {
    MergeIndex(st, other);
    var once := Merge(st, other).value;
    MergeIndex(once, other);
    var twice := Merge(once, other).value;
    assert |twice.index[k].sources| > |once.index[k].sources|;
  }

  /** Consistent stores with the same index are the same store. */
  lemma SameIndexSameStore(a: Store, b: Store)
    requires Wellformed(a) && Consistent(a) && Wellformed(b) && Consistent(b)
    requires a.index == b.index
    ensures a == b
  {
    forall st, g, k | st in {a, b} && k in st.index
      ensures (g in st.dependencies && k in st.dependencies[g]) <==> k == LookupKey(g, st.index[k].Id())
    {
      var g' :| g' in st.dependencies && k in st.dependencies[g'];
      if k == LookupKey(g, st.index[k].Id()) {
        LookupKeyGroup(g', g, st.index[k].Id());
      }
    }
    forall g ensures g in a.dependencies <==> g in b.dependencies {
      if g in a.dependencies {
        HeadIn(a.dependencies[g]);
        assert a.dependencies[g][0] in b.index;
      }
      if g in b.dependencies {
        HeadIn(b.dependencies[g]);
        assert b.dependencies[g][0] in a.index;
      }
    }
    forall g | g in a.dependencies ensures a.dependencies[g] == b.dependencies[g] {
      SortedUnique(a.dependencies[g], b.dependencies[g], RecordKey(a.index));
    }
    SortedUnique(a.groupOrder, b.groupOrder, NameKey);
  }

  /**
   * Merging a consistent store into a new DependencyGroups gives a copy of it:
   * the same groups, records and source lists.
   */
  lemma MergeIntoEmpty(other: Store)
    requires Wellformed(other) && Consistent(other)
    ensures Merge(Empty, other) == Success(other)
  {
    MergeIndex(Empty, other);
    var r := Merge(Empty, other).value;
    CombinedWithEmpty(other.index, r.index);
    SameIndexSameStore(r, other);
  }
}
