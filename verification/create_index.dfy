/**
 * Building the index: for every archive, every ".class" entry is decoded and
 * gives one method-reference record per method reference in its constant
 * pool, then one hierarchy record. The store is two partitions, "parents"
 * (hierarchy records) and "methodrefs", each written with a blind-overwrite
 * put. The source keeps the store and three counters in static fields; here
 * they are the fields of one Indexer object.
 */
module CreateIndex {
  import opened Wrappers
  import opened Schema

  /** One constant-pool entry, as far as indexing looks at it. */
  datatype CpEntry =
    | Methodref(className: string, methodName: string)
    | InterfaceMethodref(className: string, methodName: string)
    | OtherConst(tag: nat)

  predicate IsMethodref(e: CpEntry) {
    e.Methodref? || e.InterfaceMethodref?
  }

  /** A constant pool: index 0 is the unused slot, so the pool's size is at least 1. */
  type ConstPool = pool: seq<CpEntry> | |pool| >= 1 witness [OtherConst(0)]

  /** What the class-file decoder gives for one class. */
  datatype ClassFile = ClassFile(
    name: string,
    superclass: string,
    interfaces: Option<seq<string>>,
    constPool: ConstPool)

  /** An archive entry; `classFile` is None when the decoder rejects the entry's bytes. */
  datatype JarEntry = JarEntry(name: string, classFile: Option<ClassFile>)

  type Bytes = seq<bv8>

  /** The (empty) value of every method-reference record. */
  const NOBYTES: Bytes := []

  /** One put into one of the two partitions. */
  datatype Write =
    | ParentsPut(key: string, value: HierVal)
    | MethodrefsPut(key: string, bytes: Bytes)

  /** The contents of the two partitions. */
  datatype Store = Store(parents: map<string, HierVal>, methodrefs: map<string, Bytes>)

  const EmptyStore := Store(map[], map[])

  /** A put overwrites the key in its own partition and leaves the other partition alone. */
  function Apply(s: Store, w: Write): Store {
    match w
    case ParentsPut(k, v) => s.(parents := s.parents[k := v])
    case MethodrefsPut(k, b) => s.(methodrefs := s.methodrefs[k := b])
  }

  /** The store after a sequence of puts. */
  function Replay(s: Store, ws: seq<Write>): Store
    decreases |ws|
  {
    if |ws| == 0 then s else Apply(Replay(s, ws[..|ws| - 1]), ws[|ws| - 1])
  }

  /** The last hierarchy value a sequence of puts writes under each key. */
  function ParentsWritten(ws: seq<Write>): map<string, HierVal>
    decreases |ws|
  {
    if |ws| == 0 then map[]
    else
      var m := ParentsWritten(ws[..|ws| - 1]);
      match ws[|ws| - 1]
      case ParentsPut(k, v) => m[k := v]
      case MethodrefsPut(_, _) => m
  }

  /** The last method-reference value a sequence of puts writes under each key. */
  function MethodrefsWritten(ws: seq<Write>): map<string, Bytes>
    decreases |ws|
  {
    if |ws| == 0 then map[]
    else
      var m := MethodrefsWritten(ws[..|ws| - 1]);
      match ws[|ws| - 1]
      case ParentsPut(_, _) => m
      case MethodrefsPut(k, b) => m[k := b]
  }

  /** Puts are blind overwrites: each key ends up with the last value written for it, other keys keep theirs. */
  lemma {:induction false} ReplayOverwrites(s: Store, ws: seq<Write>)
    ensures Replay(s, ws) == Store(s.parents + ParentsWritten(ws), s.methodrefs + MethodrefsWritten(ws))
    decreases |ws|
  {
    if |ws| > 0 {
      var init := ws[..|ws| - 1];
      ReplayOverwrites(s, init);
      match ws[|ws| - 1]
      case ParentsPut(k, v) =>
        assert (s.parents + ParentsWritten(init))[k := v] == s.parents + ParentsWritten(init)[k := v];
      case MethodrefsPut(k, b) =>
        assert (s.methodrefs + MethodrefsWritten(init))[k := b] == s.methodrefs + MethodrefsWritten(init)[k := b];
    }
  }

  lemma {:induction false} ReplayAppend(s: Store, a: seq<Write>, b: seq<Write>)
    ensures Replay(s, a + b) == Replay(Replay(s, a), b)
    decreases |b|
  {
    if |b| == 0 {
      assert a + b == a;
    } else {
      assert (a + b)[..|a + b| - 1] == a + b[..|b| - 1];
      ReplayAppend(s, a, b[..|b| - 1]);
    }
  }

  /** Writing the same puts a second time leaves the store as the first time left it. */
  lemma ReplayIdempotent(s: Store, ws: seq<Write>)
    ensures Replay(Replay(s, ws), ws) == Replay(s, ws)
  {
    var once := Replay(s, ws);
    ReplayOverwrites(s, ws);
    ReplayOverwrites(once, ws);
    assert once.parents + ParentsWritten(ws) == once.parents;
    assert once.methodrefs + MethodrefsWritten(ws) == once.methodrefs;
  }

  /** The put for one method-reference entry of class `classname`. */
  function RefWrite(path: string, classname: string, e: CpEntry): Write
    requires IsMethodref(e)
  {
    MethodrefsPut(MethodrefKey(e.methodName, e.className, classname, path), NOBYTES)
  }

  /** The puts for pool indices 1 .. n-1, in index order. */
  function PoolWrites(path: string, classname: string, pool: ConstPool, n: nat): seq<Write>
    requires n <= |pool|
  {
    if n <= 1 then []
    else
      var last := if IsMethodref(pool[n - 1]) then [RefWrite(path, classname, pool[n - 1])] else [];
      PoolWrites(path, classname, pool, n - 1) + last
  }

  /** The pool indices 1 .. n-1 that hold a method reference. */
  function RefIndices(pool: ConstPool, n: nat): set<int>
    requires n <= |pool|
  {
    set i | 1 <= i < n && IsMethodref(pool[i])
  }

  /** The hierarchy record of a class found in the archive at `path`. */
  function HierarchyWrite(path: string, cf: ClassFile): Write {
    ParentsPut(HierarchyKey(cf.name, path), HierarchyValue(cf.superclass, cf.interfaces))
  }

  /** Everything indexing one class writes: its method references in pool order, then its hierarchy record. */
  function ClassWrites(path: string, cf: ClassFile): seq<Write> {
    PoolWrites(path, cf.name, cf.constPool, |cf.constPool|) + [HierarchyWrite(path, cf)]
  }

  /** One put per method-reference index of the pool. */
  lemma {:induction false} PoolWritesCount(path: string, classname: string, pool: ConstPool, n: nat)
    requires n <= |pool|
    ensures |PoolWrites(path, classname, pool, n)| == |RefIndices(pool, n)|
  {
    if n > 1 {
      PoolWritesCount(path, classname, pool, n - 1);
      var before := RefIndices(pool, n - 1);
      assert n - 1 !in before;
      if IsMethodref(pool[n - 1]) {
        assert RefIndices(pool, n) == before + {n - 1};
      } else {
        assert RefIndices(pool, n) == before;
      }
    } else {
      assert RefIndices(pool, n) == {};
    }
  }

  /** The puts are exactly the call-site records of the method-reference entries, and none for any other index. */
  lemma {:induction false} PoolWritesMembers(path: string, classname: string, pool: ConstPool, n: nat)
    requires n <= |pool|
    ensures forall w :: w in PoolWrites(path, classname, pool, n) <==>
      exists i :: 1 <= i < n && IsMethodref(pool[i]) && w == RefWrite(path, classname, pool[i])
  {
    if n > 1 {
      PoolWritesMembers(path, classname, pool, n - 1);
    }
  }

  /**
   * Indexing a class writes exactly one hierarchy record, last, after one
   * method-reference record per method-reference index of its pool.
   */
  lemma ClassWritesShape(path: string, cf: ClassFile)
    ensures |ClassWrites(path, cf)| == |RefIndices(cf.constPool, |cf.constPool|)| + 1
    ensures ClassWrites(path, cf)[|ClassWrites(path, cf)| - 1] == HierarchyWrite(path, cf)
    ensures forall j :: 0 <= j < |ClassWrites(path, cf)| - 1 ==>
      ClassWrites(path, cf)[j].MethodrefsPut? && ClassWrites(path, cf)[j].bytes == NOBYTES
    ensures ParentsWritten(ClassWrites(path, cf)) == map[HierarchyKey(cf.name, path) := HierarchyValue(cf.superclass, cf.interfaces)]
  {
    var pool := cf.constPool;
    var refs := PoolWrites(path, cf.name, pool, |pool|);
    PoolWritesCount(path, cf.name, pool, |pool|);
    PoolWritesMembers(path, cf.name, pool, |pool|);
    assert ClassWrites(path, cf)[..|refs|] == refs;
    forall j | 0 <= j < |refs| ensures refs[j].MethodrefsPut? && refs[j].bytes == NOBYTES {
      assert refs[j] in refs;
    }
    NoParentsWritten(refs);
  }

  /** Every key a sequence of puts writes is present afterwards, in the partition the put names. */
  lemma {:induction false} WrittenKeys(ws: seq<Write>)
    ensures forall w :: w in ws && w.MethodrefsPut? ==> w.key in MethodrefsWritten(ws)
    ensures forall w :: w in ws && w.ParentsPut? ==> w.key in ParentsWritten(ws)
    decreases |ws|
  {
    if |ws| > 0 {
      var init := ws[..|ws| - 1];
      WrittenKeys(init);
      assert ws == init + [ws[|ws| - 1]];
    }
  }

  /** After indexing a class, the store maps its hierarchy key to its hierarchy value. */
  lemma IndexedHierarchyStored(s: Store, path: string, cf: ClassFile)
    ensures Replay(s, ClassWrites(path, cf)).parents
      == s.parents[HierarchyKey(cf.name, path) := HierarchyValue(cf.superclass, cf.interfaces)]
  {
    ReplayOverwrites(s, ClassWrites(path, cf));
    ClassWritesShape(path, cf);
  }

  /** After indexing a class, every method reference in its constant pool is a key of the method-reference partition. */
  lemma IndexedCallSitesStored(s: Store, path: string, cf: ClassFile, i: nat)
    requires 1 <= i < |cf.constPool| && IsMethodref(cf.constPool[i])
    ensures MethodrefKey(cf.constPool[i].methodName, cf.constPool[i].className, cf.name, path)
      in Replay(s, ClassWrites(path, cf)).methodrefs
  {
    var ws := ClassWrites(path, cf);
    var refs := PoolWrites(path, cf.name, cf.constPool, |cf.constPool|);
    PoolWritesMembers(path, cf.name, cf.constPool, |cf.constPool|);
    var w := RefWrite(path, cf.name, cf.constPool[i]);
    assert w in refs;
    assert w in ws;
    WrittenKeys(ws);
    ReplayOverwrites(s, ws);
  }

  lemma {:induction false} NoParentsWritten(ws: seq<Write>)
    requires forall j :: 0 <= j < |ws| ==> ws[j].MethodrefsPut?
    ensures ParentsWritten(ws) == map[]
    decreases |ws|
  {
    if |ws| > 0 {
      NoParentsWritten(ws[..|ws| - 1]);
    }
  }

  predicate EndsWith(s: string, suffix: string) {
    |suffix| <= |s| && s[|s| - |suffix|..] == suffix
  }

  /** Only entries whose name ends in ".class" are indexed. */
  predicate IsClassEntry(e: JarEntry) {
    EndsWith(e.name, ".class")
  }

  /** What indexing an archive amounts to: the puts, how many classes and method references were counted, success. */
  datatype JarRun = JarRun(writes: seq<Write>, classes: nat, methodrefs: nat, ok: bool)

  /**
   * What indexing one entry amounts to on its own: an entry whose name does
   * not end in ".class" changes nothing; a class entry is counted, and then
   * either adds its puts and method references or, when the decoder rejects
   * it, fails.
   */
  function EntryRun(path: string, e: JarEntry): JarRun {
    if !IsClassEntry(e) then JarRun([], 0, 0, true)
    else match e.classFile
      case None => JarRun([], 1, 0, false)
      case Some(cf) => JarRun(ClassWrites(path, cf), 1, |RefIndices(cf.constPool, |cf.constPool|)|, true)
  }

  /** Indexing one more entry after `r`; after a failure nothing more happens. */
  function JarStep(path: string, r: JarRun, e: JarEntry): JarRun {
    if !r.ok then r
    else
      var x := EntryRun(path, e);
      JarRun(r.writes + x.writes, r.classes + x.classes, r.methodrefs + x.methodrefs, x.ok)
  }

  lemma AppendAssoc(a: seq<Write>, b: seq<Write>, c: seq<Write>)
    ensures a + b + c == a + (b + c)
  {
  }

  /** Indexing the entries of an archive in order. */
  function RunJar(path: string, entries: seq<JarEntry>): JarRun
    decreases |entries|
  {
    if |entries| == 0 then JarRun([], 0, 0, true)
    else JarStep(path, RunJar(path, entries[..|entries| - 1]), entries[|entries| - 1])
  }

  lemma RunJarSnoc(path: string, entries: seq<JarEntry>, k: nat)
    requires k < |entries|
    ensures RunJar(path, entries[..k + 1]) == JarStep(path, RunJar(path, entries[..k]), entries[k])
  {
    assert entries[..k + 1][..k] == entries[..k];
  }

  /** The entries whose name ends in ".class", in order. */
  function ClassEntries(entries: seq<JarEntry>): (r: seq<JarEntry>)
    ensures forall e :: e in r <==> e in entries && IsClassEntry(e)
    decreases |entries|
  {
    if |entries| == 0 then []
    else
      var init := entries[..|entries| - 1];
      var e := entries[|entries| - 1];
      assert entries == init + [e];
      ClassEntries(init) + (if IsClassEntry(e) then [e] else [])
  }

  /** Once an archive has failed, later entries change nothing. */
  lemma {:induction false} RunJarStopsAtFailure(path: string, entries: seq<JarEntry>, k: nat)
    requires k <= |entries|
    requires !RunJar(path, entries[..k]).ok
    ensures RunJar(path, entries) == RunJar(path, entries[..k])
    decreases |entries|
  {
    if k < |entries| {
      var init := entries[..|entries| - 1];
      assert init[..k] == entries[..k];
      RunJarStopsAtFailure(path, init, k);
    } else {
      assert entries[..k] == entries;
    }
  }

  /** Entries whose name does not end in ".class" contribute nothing. */
  lemma {:induction false} RunJarIgnoresOtherEntries(path: string, entries: seq<JarEntry>)
    ensures RunJar(path, entries) == RunJar(path, ClassEntries(entries))
    decreases |entries|
  {
    if |entries| > 0 {
      var init := entries[..|entries| - 1];
      var e := entries[|entries| - 1];
      RunJarIgnoresOtherEntries(path, init);
      var ce := ClassEntries(init);
      if IsClassEntry(e) {
        assert ClassEntries(entries) == ce + [e];
        assert (ce + [e])[..|ce|] == ce;
        assert RunJar(path, ce + [e]) == JarStep(path, RunJar(path, ce), e);
      } else {
        assert ClassEntries(entries) == ce;
        assert RunJar(path, entries) == RunJar(path, init);
      }
    }
  }

  /**
   * An archive succeeds exactly when the decoder accepts every class entry,
   * and then every class entry was counted.
   */
  lemma {:induction false} RunJarSucceeds(path: string, entries: seq<JarEntry>)
    ensures RunJar(path, entries).ok <==> forall e :: e in entries && IsClassEntry(e) ==> e.classFile != None
    ensures RunJar(path, entries).ok ==> RunJar(path, entries).classes == |ClassEntries(entries)|
    decreases |entries|
  {
    if |entries| > 0 {
      var init := entries[..|entries| - 1];
      RunJarSucceeds(path, init);
      assert entries == init + [entries[|entries| - 1]];
    }
  }

  /** Every put of every class entry of a successful archive is among the archive's puts. */
  lemma {:induction false} RunJarWritesEveryClass(path: string, entries: seq<JarEntry>, k: nat)
    requires RunJar(path, entries).ok && k < |entries| && IsClassEntry(entries[k])
    ensures entries[k].classFile != None
    ensures forall w :: w in ClassWrites(path, entries[k].classFile.value) ==> w in RunJar(path, entries).writes
    decreases |entries|
  {
    var init := entries[..|entries| - 1];
    var x := EntryRun(path, entries[|entries| - 1]);
    assert RunJar(path, init).ok;
    assert RunJar(path, entries).writes == RunJar(path, init).writes + x.writes;
    if k < |entries| - 1 {
      assert init[k] == entries[k];
      RunJarWritesEveryClass(path, init, k);
    }
  }

  /** The hierarchy key and every call-site key of class `cf` from the archive at `path` are present in `s`. */
  predicate ClassStored(s: Store, path: string, cf: ClassFile) {
    && HierarchyKey(cf.name, path) in s.parents
    && forall i :: 1 <= i < |cf.constPool| && IsMethodref(cf.constPool[i]) ==>
         MethodrefKey(cf.constPool[i].methodName, cf.constPool[i].className, cf.name, path) in s.methodrefs
  }

  /** After a successful archive, the store holds the records of every class entry, whatever it held before. */
  lemma BuiltJarStoresEveryClass(s: Store, path: string, entries: seq<JarEntry>, k: nat)
    requires RunJar(path, entries).ok && k < |entries| && IsClassEntry(entries[k])
    ensures entries[k].classFile != None
    ensures ClassStored(Replay(s, RunJar(path, entries).writes), path, entries[k].classFile.value)
  {
    RunJarWritesEveryClass(path, entries, k);
    var cf := entries[k].classFile.value;
    var ws := RunJar(path, entries).writes;
    WrittenKeys(ws);
    ReplayOverwrites(s, ws);
    assert HierarchyWrite(path, cf) in ClassWrites(path, cf);
    PoolWritesMembers(path, cf.name, cf.constPool, |cf.constPool|);
    forall i | 1 <= i < |cf.constPool| && IsMethodref(cf.constPool[i])
      ensures MethodrefKey(cf.constPool[i].methodName, cf.constPool[i].className, cf.name, path) in Replay(s, ws).methodrefs
    {
      var w := RefWrite(path, cf.name, cf.constPool[i]);
      assert w in ClassWrites(path, cf);
    }
  }

  /** Within one archive, different class names give different hierarchy keys. */
  lemma HierarchyKeyInjective(a: string, b: string, path: string)
    ensures HierarchyKey(a, path) == HierarchyKey(b, path) ==> a == b
  {
    if HierarchyKey(a, path) == HierarchyKey(b, path) {
      assert |a| == |b|;
      assert a == HierarchyKey(a, path)[..|a|] == HierarchyKey(b, path)[..|b|] == b;
    }
  }

  /**
   * After a successful archive, the hierarchy record of a class entry holds
   * that class's superclass and interfaces, unless a later class entry of
   * the same archive has the same class name (its put would overwrite it).
   */
  lemma {:induction false} ArchiveHierarchyValue(s: Store, path: string, entries: seq<JarEntry>, k: nat)
    requires RunJar(path, entries).ok && k < |entries| && IsClassEntry(entries[k]) && entries[k].classFile != None
    requires forall j :: k < j < |entries| && IsClassEntry(entries[j]) && entries[j].classFile != None ==>
      entries[j].classFile.value.name != entries[k].classFile.value.name
    ensures var cf := entries[k].classFile.value;
      var parents := Replay(s, RunJar(path, entries).writes).parents;
      HierarchyKey(cf.name, path) in parents && parents[HierarchyKey(cf.name, path)] == HierarchyValue(cf.superclass, cf.interfaces)
    decreases |entries|
  {
    var cf := entries[k].classFile.value;
    var init := entries[..|entries| - 1];
    var e := entries[|entries| - 1];
    var x := EntryRun(path, e);
    var before := Replay(s, RunJar(path, init).writes);
    assert RunJar(path, init).ok;
    assert RunJar(path, entries).writes == RunJar(path, init).writes + x.writes;
    ReplayAppend(s, RunJar(path, init).writes, x.writes);
    if k < |entries| - 1 {
      assert init[k] == entries[k];
      ArchiveHierarchyValue(s, path, init, k);
      if IsClassEntry(e) {
        var other := e.classFile.value;
        IndexedHierarchyStored(before, path, other);
        HierarchyKeyInjective(other.name, cf.name, path);
      }
    } else {
      IndexedHierarchyStored(before, path, cf);
    }
  }

  /** The index builder: the store's two partitions, the run counters, and (ghost) every put made so far. */
  class Indexer {
    var parents: map<string, HierVal>
    var methodrefs: map<string, Bytes>
    var jarCount: nat
    var classCount: nat
    var methodrefCount: nat
    ghost var log: seq<Write>

    ghost function Contents(): Store
      reads this
    {
      Store(parents, methodrefs)
    }

    /** The store holds exactly what the puts so far wrote into an empty store. */
    ghost predicate Valid()
      reads this
    {
      Contents() == Replay(EmptyStore, log)
    }

    /** A fresh, empty store (the build deletes any previous one first). */
    constructor ()
      ensures Valid() && log == [] && Contents() == EmptyStore
      ensures jarCount == 0 && classCount == 0 && methodrefCount == 0
    {
      parents, methodrefs := map[], map[];
      jarCount, classCount, methodrefCount := 0, 0, 0;
      log := [];
    }

    /** The store's put: a blind overwrite in the partition the write names. */
    method Put(w: Write)
      requires Valid()
      modifies this`parents, this`methodrefs, this`log
      ensures Valid() && log == old(log) + [w]
      ensures Contents() == Apply(old(Contents()), w)
    {
      match w {
        case ParentsPut(k, v) => parents := parents[k := v];
        case MethodrefsPut(k, b) => methodrefs := methodrefs[k := b];
      }
      log := log + [w];
      assert log[..|log| - 1] == old(log);
    }

    /** Records one call site and counts it. */
    method IndexMethodref(path: string, classname: string, targetClass: string, targetMethod: string)
      requires Valid()
      modifies this`parents, this`methodrefs, this`log, this`methodrefCount
      ensures Valid()
      ensures log == old(log) + [MethodrefsPut(MethodrefKey(targetMethod, targetClass, classname, path), NOBYTES)]
      ensures methodrefs == old(methodrefs)[MethodrefKey(targetMethod, targetClass, classname, path) := NOBYTES]
      ensures parents == old(parents)
      ensures methodrefCount == old(methodrefCount) + 1
    {
      methodrefCount := methodrefCount + 1;
      Put(MethodrefsPut(MethodrefKey(targetMethod, targetClass, classname, path), NOBYTES));
    }

    /** Records a class's superclass (unless it is the root) and its interfaces (unless there are none). */
    method IndexClassHierarchy(path: string, classname: string, superclass: string, interfaces: Option<seq<string>>)
      requires Valid()
      modifies this`parents, this`methodrefs, this`log
      ensures Valid()
      ensures log == old(log) + [ParentsPut(HierarchyKey(classname, path), HierarchyValue(superclass, interfaces))]
      ensures parents == old(parents)[HierarchyKey(classname, path) := HierarchyValue(superclass, interfaces)]
      ensures methodrefs == old(methodrefs)
    {
      Put(ParentsPut(HierarchyKey(classname, path), HierarchyValue(superclass, interfaces)));
    }

    /**
     * Counts the class, then (when the decoder accepted it) indexes every
     * method reference of its constant pool and finally its hierarchy.
     */
    method IndexClass(path: string, classFile: Option<ClassFile>) returns (ok: bool)
      requires Valid()
      modifies this`parents, this`methodrefs, this`log, this`methodrefCount, this`classCount
      ensures Valid()
      ensures ok <==> classFile != None
      ensures classCount == old(classCount) + 1
      ensures !ok ==> log == old(log) && Contents() == old(Contents()) && methodrefCount == old(methodrefCount)
      ensures ok ==> log == old(log) + ClassWrites(path, classFile.value)
      ensures ok ==> Contents() == Replay(old(Contents()), ClassWrites(path, classFile.value))
      ensures ok ==> methodrefCount == old(methodrefCount) + |RefIndices(classFile.value.constPool, |classFile.value.constPool|)|
    {
      classCount := classCount + 1;
      if classFile == None {
        return false;
      }
      var cf := classFile.value;
      IndexConstPool(path, cf.name, cf.constPool);
      PoolWritesCount(path, cf.name, cf.constPool, |cf.constPool|);
      IndexClassHierarchy(path, cf.name, cf.superclass, cf.interfaces);
      AppendAssoc(old(log), PoolWrites(path, cf.name, cf.constPool, |cf.constPool|), [HierarchyWrite(path, cf)]);
      ReplayAppend(EmptyStore, old(log), ClassWrites(path, cf));
      ok := true;
    }

    /** The constant-pool loop of indexing a class: one call-site record per method reference, in index order. */
    method IndexConstPool(path: string, classname: string, cp: ConstPool)
      requires Valid()
      modifies this`parents, this`methodrefs, this`log, this`methodrefCount
      ensures Valid()
      ensures log == old(log) + PoolWrites(path, classname, cp, |cp|)
      ensures methodrefCount == old(methodrefCount) + |PoolWrites(path, classname, cp, |cp|)|
    {
      var i := 1;
      while i < |cp|
        invariant 1 <= i <= |cp|
        invariant Valid()
        invariant log == old(log) + PoolWrites(path, classname, cp, i)
        invariant methodrefCount == old(methodrefCount) + |PoolWrites(path, classname, cp, i)|
      {
        match cp[i] {
          case Methodref(c, m) =>
            IndexMethodref(path, classname, c, m);
          case InterfaceMethodref(c, m) =>
            IndexMethodref(path, classname, c, m);
          case OtherConst(_) =>
        }
        i := i + 1;
      }
    }

    /** The body of the archive loop: a ".class" entry is indexed, any other entry skipped. */
    method IndexEntry(path: string, entry: JarEntry) returns (ok: bool)
      requires Valid()
      modifies this`parents, this`methodrefs, this`log, this`methodrefCount, this`classCount
      ensures Valid()
      ensures ok == EntryRun(path, entry).ok
      ensures log == old(log) + EntryRun(path, entry).writes
      ensures classCount == old(classCount) + EntryRun(path, entry).classes
      ensures methodrefCount == old(methodrefCount) + EntryRun(path, entry).methodrefs
    {
      if IsClassEntry(entry) {
        ok := IndexClass(path, entry.classFile);
      } else {
        ok := true;
        assert log == old(log) + [];
      }
    }

    /**
     * Indexes every entry whose name ends in ".class", in order, then counts
     * the archive. A rejected class stops the archive before it is counted.
     */
    method IndexJar(path: string, entries: seq<JarEntry>) returns (ok: bool)
      requires Valid()
      modifies this`parents, this`methodrefs, this`log, this`methodrefCount, this`classCount, this`jarCount
      ensures Valid()
      ensures ok == RunJar(path, entries).ok
      ensures log == old(log) + RunJar(path, entries).writes
      ensures Contents() == Replay(old(Contents()), RunJar(path, entries).writes)
      ensures classCount == old(classCount) + RunJar(path, entries).classes
      ensures methodrefCount == old(methodrefCount) + RunJar(path, entries).methodrefs
      ensures jarCount == old(jarCount) + (if ok then 1 else 0)
      ensures ok ==> forall k :: 0 <= k < |entries| && IsClassEntry(entries[k]) ==>
        entries[k].classFile != None && ClassStored(Contents(), path, entries[k].classFile.value)
    {
      var k := 0;
      ghost var done := JarRun([], 0, 0, true);
      while k < |entries|
        invariant 0 <= k <= |entries|
        invariant Valid()
        invariant done == RunJar(path, entries[..k]) && done.ok
        invariant log == old(log) + done.writes
        invariant classCount == old(classCount) + done.classes
        invariant methodrefCount == old(methodrefCount) + done.methodrefs
        invariant jarCount == old(jarCount)
      {
        RunJarSnoc(path, entries, k);
        var entryOk := IndexEntry(path, entries[k]);
        AppendAssoc(old(log), done.writes, EntryRun(path, entries[k]).writes);
        done := JarStep(path, done, entries[k]);
        if !entryOk {
          RunJarStopsAtFailure(path, entries, k + 1);
          ReplayAppend(EmptyStore, old(log), RunJar(path, entries).writes);
          return false;
        }
        k := k + 1;
      }
      assert entries[..k] == entries;
      ReplayAppend(EmptyStore, old(log), RunJar(path, entries).writes);
      forall j | 0 <= j < |entries| && IsClassEntry(entries[j])
        ensures entries[j].classFile != None && ClassStored(Contents(), path, entries[j].classFile.value)
      {
        BuiltJarStoresEveryClass(old(Contents()), path, entries, j);
      }
      jarCount := jarCount + 1;
      ok := true;
    }
  }
}
