/**
 * The lock-file document: what the JSON text of a lock file binds to.
 */
module LockFiles {
  import opened Sources

  /**
   * One configuration group of the document: its name and its entries, each
   * an id() and the text "key,refs=N". A LinkedHashMap keeps insertion order,
   * so both levels are sequences of entries with distinct keys.
   */
  type GroupEntries = seq<(string, string)>

  /**
   * comment, the "because" dictionary from short key to source list (a TreeMap,
   * so its JSON order is the key order and not part of the value), and the
   * configuration groups in insertion order.
   */
  datatype LockFile = LockFile(
    comment: string,
    keyToSource: map<string, seq<DependencySource>>,
    configurationGroups: seq<(string, GroupEntries)>)

  /** A new document: the given comment, an empty dictionary and no groups. */
  function NewLockFile(comment: string): (doc: LockFile)
    ensures doc.comment == comment
    ensures doc.keyToSource == map[] && doc.configurationGroups == []
  {
    LockFile(comment, map[], [])
  }

  /** Whether a key occurs among the entries of a LinkedHashMap. */
  predicate HasEntryKey<V>(entries: seq<(string, V)>, key: string)
  {
    exists i :: 0 <= i < |entries| && entries[i].0 == key
  }

  /** No key of a LinkedHashMap occurs twice. */
  predicate DistinctEntryKeys<V>(entries: seq<(string, V)>)
  {
    forall i, j :: 0 <= i < j < |entries| ==> entries[i].0 != entries[j].0
  }

  /**
   * What Jackson hands to readFrom: the bound document, or a
   * MismatchedInputException (an unknown property, or a value of the wrong shape).
   * A property missing from the text keeps the value the fields start with.
   */
  datatype LockFileInput = Bound(doc: LockFile) | MismatchedInput
}
