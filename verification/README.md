# jdt-indexer-musings: index builder and subtype query, modelled in Dafny

The repository builds a key/value index of compiled Java classes and answers
one question over it: which recorded call sites invoke method `M` on a
static target type that is class `C` or a descendant of `C`?

`CreateIndex` walks every `.class` entry of every archive. For each class it
writes one record per method reference of its constant pool into the
`methodrefs` partition. The key is `method|targetClass|callerClass|path` and
the value is empty. It then writes one record into the `parents` partition.
The key is `class|path` and the value is a JSON object with the superclass
(left out when it is `java.lang.Object`) and the interfaces (left out when
there are none). Three counters count archives, classes and method
references.

`QueryIndex` seeks to `M|` in the `methodrefs` partition and visits keys
while they keep that prefix. For each key it splits out the target class
and asks `isChild`, with a fresh memo seeded `C -> true`. `isChild` is a
memoised recursive search up the superclass and interface edges read from
every hierarchy record of a class.

Modules:

- `Wrappers`: `Option`.
- `Lex`: the store's key order, `Seek`, and the prefix scan. The keys with
  a prefix form one contiguous run of a sorted key sequence.
- `Schema`: the two key encodings, the hierarchy value `HierVal`, and
  Java's `String.split` on `|`, including the dropping of trailing empty
  fields.
- `CreateIndex`: the store as the class `Indexer`. It has the two
  partitions as `map` fields, the three counters, and a ghost log of every
  put. Each put is a blind overwrite. Every method is proved against the
  pure functions `ClassWrites`, `EntryRun` and `RunJar` and the replay of
  puts, `Replay`.
- `Hierarchy`: the finished store as a query reads it (`Db`, each
  partition in key order). It defines the direct-parent relation `Edge`,
  ancestry `Reaches` / `IsSubtype`, acyclicity ranks, and the memo
  invariants.
- `QueryIndex`: `isChild` as written (`IsChild`), a terminating variant with
  a visiting set (`IsChildVisiting`), the query `FindMethodrefs`, its
  reference `Report`, and lemmas that connect what indexing writes to what
  a query prints.

Index building follows the code. The ancestor search does too, as
`IsChild`, but the code writes a memo entry only after a class has been
explored. When the search, before it has found the queried class, comes
back to a class it is still exploring, it therefore recurses without
bound; on a JVM that ends in a `StackOverflowError`, which
propagates out of `findMethodrefs` and `main` after the keys matched so far
were printed and before the count line is printed (see Findings). The
query model does not follow the code there: `TargetIsChild`, and through
it `VisitKey` and `FindMethodrefs`, uses the corrected search
`IsChildVisiting`, which answers `false` for a class met again while it is
still being explored. On every acyclic store the two agree, because both
`IsChild` and `TargetIsChild` are proved to return exactly `IsSubtype`.

## Model

| member | source | states |
|---|---|---|
| Schema.HierarchyKey | src/main/java/adhoc/CreateIndex.java:154 | the hierarchy key is the class name and the separator, followed by exactly the archive path |
| Schema.MethodrefKey | src/main/java/adhoc/CreateIndex.java:169 | the call-site key begins with the method name and the separator, the prefix a query seeks to; its four fields come back by Schema.SplitMethodrefKey |
| Schema.ParentSet | src/main/java/adhoc/QueryIndex.java:90-101 | the set of parents read from one hierarchy value holds exactly its superclass, when present, and its interfaces |
| Schema.TargetClassOf | src/main/java/adhoc/QueryIndex.java:69 | field 1 of Java's split of a key; a key without a separator has no field 1, so the index is out of bounds |
| Schema.TargetClassHasNoSep | src/main/java/adhoc/QueryIndex.java:69 | the target class split out of any key contains no separator |
| Schema.HierarchyValue | src/main/java/adhoc/CreateIndex.java:155-161 | the superclass is recorded iff it is not `java.lang.Object`; the interface list is recorded, unchanged and in order, iff it is non-null and non-empty |
| Schema.RecordedParents | src/main/java/adhoc/QueryIndex.java:90-101 | the parents a query reads back from a written hierarchy value are exactly the superclass unless it is `java.lang.Object`, plus the interfaces |
| Schema.HierarchyKeyPrefix | src/main/java/adhoc/CreateIndex.java:154 | when no class name contains the separator, a hierarchy key starts with the child's name plus separator exactly when its class field is the child |
| Schema.SplitMethodrefKey | src/main/java/adhoc/CreateIndex.java:169 | splitting a method-reference key at every separator gives back its four fields in order |
| Schema.TargetClassOfMethodrefKey | src/main/java/adhoc/QueryIndex.java:69 | field 1 of Java's split of a key built at CreateIndex.java:169 is the target class; it is out of bounds exactly when target class, caller and path are all empty |
| Schema.MethodrefKeyPrefix | src/main/java/adhoc/QueryIndex.java:62-64 | a method-reference key starts with a method name plus separator exactly when its method field is that name, so a scan for `foo` never visits the keys of `foobar` or `xfoo` |
| CreateIndex.ReplayOverwrites | src/main/java/adhoc/CreateIndex.java:163-171 | after a sequence of puts each key holds the last value written for it, other keys keep their value, and each partition is touched only by its own puts |
| CreateIndex.ReplayIdempotent | src/main/java/adhoc/CreateIndex.java:163-171 | repeating the same puts, such as indexing a class from the same path again, leaves the store unchanged |
| CreateIndex.PoolWritesCount | src/main/java/adhoc/CreateIndex.java:138-145 | the pool loop writes as many records as there are indices 1 ≤ i < size holding a Methodref or InterfaceMethodref |
| CreateIndex.PoolWritesMembers | src/main/java/adhoc/CreateIndex.java:138-145 | the records written are exactly the call-site records of those method-reference indices, and none for any other tag |
| CreateIndex.ClassWritesShape | src/main/java/adhoc/CreateIndex.java:130-147 | a class writes one record per method reference (all with empty value) and then exactly one hierarchy record, last, with its key and value |
| CreateIndex.WrittenKeys | src/main/java/adhoc/CreateIndex.java:163-171 | every key put is present afterwards in the partition the put names |
| CreateIndex.IndexedHierarchyStored | src/main/java/adhoc/CreateIndex.java:146-164 | after a class is indexed, the parents partition maps its hierarchy key to its hierarchy value and is otherwise unchanged |
| CreateIndex.IndexedCallSitesStored | src/main/java/adhoc/CreateIndex.java:138-171 | after a class is indexed, every method reference of its pool is a key of the methodrefs partition |
| CreateIndex.RunJarStopsAtFailure | src/main/java/adhoc/CreateIndex.java:117-126 | once a class of the archive is rejected, later entries change nothing |
| CreateIndex.RunJarIgnoresOtherEntries | src/main/java/adhoc/CreateIndex.java:119 | entries whose name does not end in `.class` contribute no put and no count |
| CreateIndex.RunJarSucceeds | src/main/java/adhoc/CreateIndex.java:117-127 | an archive succeeds iff the decoder accepts every `.class` entry, and then every such entry was counted |
| CreateIndex.Indexer.constructor | src/main/java/adhoc/CreateIndex.java:60-81 | the store starts empty, since the build deletes the previous store's files before opening it, and the counters, the static fields declared at CreateIndex.java:174-176, start at 0 |
| CreateIndex.Indexer.Put | src/main/java/adhoc/CreateIndex.java:163-171 | a blind overwrite in the partition the write names, and the store still equals the replay of every put so far |
| CreateIndex.Indexer.IndexMethodref | src/main/java/adhoc/CreateIndex.java:166-172 | adds the key of method, target class, caller and path with the empty value to the methodrefs partition, leaves the parents partition alone, and raises methodrefCount by 1 |
| CreateIndex.Indexer.IndexClassHierarchy | src/main/java/adhoc/CreateIndex.java:152-164 | puts the class's hierarchy value under the key of class and path in the parents partition and leaves the methodrefs partition alone |
| CreateIndex.Indexer.IndexConstPool | src/main/java/adhoc/CreateIndex.java:138-145 | the pool loop makes exactly the puts of `PoolWrites`, in index order, and counts each one |
| CreateIndex.Indexer.IndexClass | src/main/java/adhoc/CreateIndex.java:130-147 | classCount rises by 1 even when decoding fails; on success the store is the old store after `ClassWrites` and methodrefCount rises by the number of method-reference indices; on failure nothing else changes |
| CreateIndex.Indexer.IndexEntry | src/main/java/adhoc/CreateIndex.java:118-125 | one entry: indexed as a class iff its name ends in `.class`, otherwise nothing changes |
| CreateIndex.Indexer.IndexJar | src/main/java/adhoc/CreateIndex.java:115-128 | the store and the counters end as `RunJar` says; jarCount rises by exactly 1 when every class entry was decoded, and by 0 when one was rejected; after a successful archive the store holds the hierarchy key and every call-site key of each `.class` entry |
| CreateIndex.RunJarWritesEveryClass | src/main/java/adhoc/CreateIndex.java:117-127 | in a successful archive every `.class` entry was decoded and all of its puts are among the archive's puts |
| CreateIndex.BuiltJarStoresEveryClass | src/main/java/adhoc/CreateIndex.java:117-127 | after a successful archive, whatever the store held before, it holds the hierarchy key `(C, path)` and every call-site key of each `.class` entry C |
| CreateIndex.ArchiveHierarchyValue | src/main/java/adhoc/CreateIndex.java:117-127 | after a successful archive the hierarchy record `(C, path)` of a `.class` entry holds the `HierarchyValue` of C's superclass and interfaces whenever no later `.class` entry of the archive has the same class name; so the last same-named entry is the one whose value is stored |
| CreateIndex.HierarchyKeyInjective | src/main/java/adhoc/CreateIndex.java:154 | within one archive path, two class names give the same hierarchy key only if they are equal |
| Lex.Seek | src/main/java/adhoc/QueryIndex.java:63 | the iterator's seek: a position within the keys, and the key there (if any) sorts at or after the target |
| Lex.SeekSkipsSmaller | src/main/java/adhoc/QueryIndex.java:63 | every key before the seek position sorts before the target |
| Lex.LexLeTransitive | src/main/java/adhoc/QueryIndex.java:63-64 | the store's key order is transitive |
| Lex.PastPrefixRun | src/main/java/adhoc/QueryIndex.java:64 | after the first key past the seek target that lacks the prefix, no later key has it: stopping there loses nothing |
| Lex.WithPrefixMembers | src/main/java/adhoc/QueryIndex.java:62-64 | the reference filter keeps exactly the keys with the prefix |
| Lex.WithPrefixSorted | src/main/java/adhoc/QueryIndex.java:62-64 | the filtered keys stay in ascending key order |
| Lex.ScanStopsAtRunEnd | src/main/java/adhoc/QueryIndex.java:62-64 | a scan from the seek position that stops at the first key without the prefix has visited exactly the keys with the prefix, in order |
| Hierarchy.EdgeReaches | src/main/java/adhoc/QueryIndex.java:102-105 | a class named as a parent in any hierarchy record of `child` is an ancestor of `child` |
| Hierarchy.ReachesThrough | src/main/java/adhoc/QueryIndex.java:106-110 | an ancestor of a direct parent is an ancestor |
| Hierarchy.NotReachedWhenNoParentLeads | src/main/java/adhoc/QueryIndex.java:112-116 | if no direct parent of `x` is (a descendant of) `y`, then `y` is not an ancestor of `x` |
| Hierarchy.SubtypeTransitive | src/main/java/adhoc/QueryIndex.java:106-110 | the subtype relation the query decides is transitive |
| Hierarchy.RankedIsAcyclic | src/main/java/adhoc/QueryIndex.java:106-115 | under a rank, the termination measure of IsChild, no class is its own ancestor |
| Hierarchy.ScanFindsRecords | src/main/java/adhoc/QueryIndex.java:87-89 | the scan for the child's name plus separator visits exactly the hierarchy records of class `child` |
| Hierarchy.FalseClosedBlocks | src/main/java/adhoc/QueryIndex.java:115 | once no search is in progress, a class memoised `false` has no path to the query class |
| QueryIndex.IsChild | src/main/java/adhoc/QueryIndex.java:79-117 | on an acyclic hierarchy: returns exactly whether `child` is `parent` or a descendant; memoises that answer for `child`; keeps every memo entry exact; and answers a memoised class from the memo alone, leaving it unchanged |
| QueryIndex.RecordLeadsTo | src/main/java/adhoc/QueryIndex.java:90-111 | one hierarchy record: true only if `parent` is a direct parent or reached through one; false only if no parent it names leads to `parent` |
| QueryIndex.IsChildVisiting | src/main/java/adhoc/QueryIndex.java:79-117 | on any hierarchy, cyclic ones included: true only for a descendant, a memo hit answered from the memo, and every `false` entry closed under the parents it names |
| QueryIndex.TargetIsChild | src/main/java/adhoc/QueryIndex.java:67-69 | with a fresh memo `classname -> true`, the answer is exactly whether the target is `classname` or a descendant, so a target equal to `classname` always matches |
| QueryIndex.VisitKey | src/main/java/adhoc/QueryIndex.java:65-71 | one key: counted; printed and counted as a match exactly when its target class matches; a key without a target class ends the run |
| QueryIndex.FindMethodrefs | src/main/java/adhoc/QueryIndex.java:57-77 | the query's report is the `Report` of exactly the keys that start with `methodname` and the separator, in ascending key order; each key is tested with the corrected search, which agrees with the source's isChild on every acyclic store |
| QueryIndex.MatchingKeysMembers | src/main/java/adhoc/QueryIndex.java:69-71 | the matching keys are exactly the visited keys whose target class is `classname` or a descendant |
| QueryIndex.ReportCounts | src/main/java/adhoc/QueryIndex.java:59-71 | matchCount equals the number of printed keys; matchCount ≤ count ≤ the number of keys, and count equals the number of keys when the run does not abort |
| QueryIndex.ReportAborts | src/main/java/adhoc/QueryIndex.java:69 | a run ends early exactly when some visited key names no target class |
| QueryIndex.ReportPrints | src/main/java/adhoc/QueryIndex.java:69-71 | the printed keys are exactly the matching keys among those visited before the run ended, in visiting order; without an early end, all matching keys |
| QueryIndex.QueryPrintsCallSite | src/main/java/adhoc/QueryIndex.java:57-77 | unless some key ends the run early, a recorded call site is printed iff it is in the store, calls `methodname`, and its target class is `classname` or a descendant |
| QueryIndex.QueryCompletes | src/main/java/adhoc/QueryIndex.java:64-69 | when every key names a target class, the query never ends early and counts every key it scans |
| QueryIndex.IndexedParentsAreAncestors | src/main/java/adhoc/QueryIndex.java:86-105 | after a class is indexed, every superclass or interface it recorded is one of its ancestors for the query |
| QueryIndex.IndexedCallSiteFound | src/main/java/adhoc/QueryIndex.java:57-77 | after a class is indexed, the query for a method it calls on class `T` prints that call site iff `T` is the queried class or a descendant, unless some key ends the run early |
| QueryIndex.CyclicDbScans | src/main/java/adhoc/QueryIndex.java:87-89 | in the store where X extends Y (a.jar), Y extends X (b.jar) and C calls m on X (c.jar), the scans for the records of X and of Y each start at that class's record |
| QueryIndex.CyclicQueryAsksAboutX | src/main/java/adhoc/QueryIndex.java:62-69 | in that store the query for m scans the one call-site key and splits out its target class X, so it asks isChild(Z, X) |
| QueryIndex.CycleRecursesForever | src/main/java/adhoc/QueryIndex.java:106-115 | in that store, with the memo `{Z: true}`, isChild(Z, X) calls isChild(Z, Y), which calls isChild(Z, X) with the same memo: the recursion does not end |
| QueryIndex.CycleHasNoRank | src/main/java/adhoc/QueryIndex.java:106-115 | that store admits no rank, so IsChild's precondition excludes it |
| QueryIndex.CycleNotDescendant | src/main/java/adhoc/QueryIndex.java:79-117 | in that store X is not a descendant of Z, so the corrected search, through TargetIsChild, answers `false` |

## Left out

- The `main` methods: argument checks, printing of the counters and
  timings, `System.exit` and the clock. The printed call sites are
  modelled as `QueryReport.printed`.
- File-system walking, the deletion of the previous store directory, and
  `readManifest`, which is not used. An archive is given as its sequence
  of entries, in enumeration order.
- The storage engine. Options, column-family handles, write options,
  compaction and the read-only open are left out. The store during
  indexing is two maps. A query reads a finished store as each partition's
  entries in key order (`Db`, tied to the maps by
  `QueryIndex.SnapshotOf`), plus `Seek`. Engine I/O errors are left out.
- The class-file decoder. A class file is its name, superclass, interface
  list and constant pool of tagged entries. A rejected class is `None`.
  Other I/O exceptions while reading an archive are left out.
- JSON text. The hierarchy value is the datatype `HierVal`. A superclass
  of `null`, which the code would write as JSON null and fail on when
  reading, is not modelled: the superclass is a string.
- Byte encoding. Keys are compared character by character. This matches
  the store's byte order for UTF-8 but not for every platform charset.
- Schema.HierarchyKeyPrefix, Schema.MethodrefKeyPrefix,
  Schema.SplitMethodrefKey, Schema.TargetClassOfMethodrefKey,
  QueryIndex.QueryPrintsCallSite and QueryIndex.IndexedCallSiteFound
  require that no field (method, target class, calling class, archive
  path) contains `|`. A class or method name containing
  `|` makes the keys ambiguous, and these lemmas say nothing about it.
- `findClass`: a debug printer whose only call is commented out.
- CreateIndex.Indexer.IndexClass: the counters are unbounded `nat`. The
  source's 32-bit `int` counters (`jarCount`, `classCount`,
  `methodrefCount`, and the query's `count` and `matchCount` in
  `QueryIndex.QueryReport`) would wrap after 2^31 - 1, which is not
  modelled.
- QueryIndex.IsChild: requires an acyclic hierarchy, witnessed by a ghost
  rank. The source recurses without bound when the search, before it has
  found the query class, comes back to a class it is still exploring (see
  Findings), so nothing is claimed for that input. A cyclic store the
  source still answers is excluded too: one whose cycle the search never
  reaches, one whose cycle runs through the query class, and one whose
  cycle the search would close only after it has already found the query
  class (records are read in key order and parents in `HashSet` order, so
  `X|a.jar` naming `Z` answers `true` before `X|b.jar`, on a cycle with
  `Y`, is read). The `StackOverflowError` that
  ends the recursion on a JVM is not modelled.
- QueryIndex.IsChildVisiting: its `false` answers are trusted only for
  the call that starts with an empty visiting set. This is how the query
  uses it, through `TargetIsChild`, which is exact.
- The iteration order of the `HashSet` of parents is an arbitrary choice
  (`:|`). The results proved do not depend on it.
- Concurrency: indexing is single-threaded and the query only reads.

## Findings

| source | as written | input that shows it | evidently intended | confidence | as-written member | corrected member |
|---|---|---|---|---|---|---|
| src/main/java/adhoc/QueryIndex.java:106-115 | `isChild` writes a memo entry only after a class has been explored, so a class met again while it is still being explored is explored again | archive a.jar has class X extending Y, archive b.jar has class Y extending X, archive c.jar has class C calling m on X (key m, X, C, c.jar); query for method m and class Z: the key's target is X, isChild(Z, X) calls isChild(Z, Y), which calls isChild(Z, X) with the same memo, until the JVM throws `StackOverflowError` out of the query, before the count line is printed | a class met again while being explored answers `false`, and the query ends with a definite answer | not executed | QueryIndex.CycleRecursesForever | QueryIndex.IsChildVisiting |
