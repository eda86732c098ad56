/**
 * Answering a query: which recorded call sites invoke method `methodname`
 * on a static target type that is `classname` or one of its descendants.
 * The method-reference partition is scanned from "methodname|" on while the
 * key keeps that prefix; each key's target class is checked with isChild,
 * a memoised search up the direct-parent edges of the hierarchy partition.
 */
module QueryIndex {
  import opened Wrappers
  import opened Lex
  import opened Schema
  import opened Hierarchy
  import opened CreateIndex

  /**
   * isChild as the source writes it: the memo is consulted first, and an
   * entry is written only once a class has been explored, so the recursion
   * ends only where the parent relation is acyclic (the ghost `rank` is the
   * witness). Each hierarchy record of `child` is taken in key order.
   */
  method IsChild(db: Db, ghost rank: map<string, nat>, parent: string, child: string, knowns: map<string, bool>)
    returns (r: bool, knowns': map<string, bool>)
    requires Sorted(ParentKeys(db)) && Ranked(db, rank)
    requires parent in knowns && MemoExact(db, parent, knowns)
    ensures r == IsSubtype(db, child, parent)
    ensures MemoExact(db, parent, knowns') && Extends(knowns', knowns)
    ensures child in knowns' && knowns'[child] == r
    ensures child in knowns ==> knowns' == knowns
    decreases Rank(rank, child), 1
  {
    if child in knowns {
      return knowns[child], knowns;
    }
    knowns' := knowns;
    var prefix := child + [SEP];
    var i := Seek(ParentKeys(db), prefix);
    ghost var lo := i;
    while i < |db.parents| && StartsWith(db.parents[i].0, prefix)
      invariant lo <= i <= |db.parents|
      invariant forall j :: lo <= j < i ==> StartsWith(db.parents[j].0, prefix)
      invariant forall j :: lo <= j < i ==> RuledOut(db, parent, ParentSet(db.parents[j].1))
      invariant MemoExact(db, parent, knowns') && Extends(knowns', knowns)
    {
      var found;
      found, knowns' := RecordLeadsTo(db, rank, parent, child, i, knowns');
      if found {
        MemoRecord(db, parent, knowns, knowns', child, true);
        return true, knowns'[child := true];
      }
      i := i + 1;
    }
    ScanFindsRecords(db, child, i);
    RecordsRuledOut(db, parent, child, lo, i);
    MemoRecord(db, parent, knowns, knowns', child, false);
    r, knowns' := false, knowns'[child := false];
  }

  /**
   * The body of isChild's scan for hierarchy record `j` of `child`: is
   * `parent` among its parents, or else is any of them (searched in the
   * unspecified order of a hash set) a descendant of `parent`?
   */
  method RecordLeadsTo(db: Db, ghost rank: map<string, nat>, parent: string, child: string, j: nat, knowns: map<string, bool>)
    returns (found: bool, knowns': map<string, bool>)
    requires Sorted(ParentKeys(db)) && Ranked(db, rank)
    requires parent in knowns && MemoExact(db, parent, knowns)
    requires j < |db.parents| && StartsWith(db.parents[j].0, child + [SEP])
    ensures found ==> Reaches(db, child, parent)
    ensures !found ==> RuledOut(db, parent, ParentSet(db.parents[j].1))
    ensures MemoExact(db, parent, knowns') && Extends(knowns', knowns)
    decreases Rank(rank, child), 0
  {
    var parents := ParentSet(db.parents[j].1);
    assert forall q :: q in parents ==> RecordEdge(db, j, child, q);
    if parent in parents {
      EdgeReaches(db, child, parent);
      return true, knowns;
    }
    knowns' := knowns;
    var rest := parents;
    while rest != {}
      invariant rest <= parents
      invariant RuledOut(db, parent, parents - rest)
      invariant MemoExact(db, parent, knowns') && Extends(knowns', knowns)
      decreases |rest|
    {
      var superParent :| superParent in rest;
      var isChild;
      isChild, knowns' := IsChild(db, rank, parent, superParent, knowns');
      if isChild {
        ReachesThrough(db, child, superParent, parent);
        return true, knowns';
      }
      rest := rest - {superParent};
    }
    found := false;
  }

  /**
   * isChild with a "visiting" set: a class met again while it is still
   * being explored answers `false` instead of being explored again. This
   * terminates on every hierarchy, cyclic ones included. A `false` entry
   * may be written while the search above it still succeeds elsewhere, so
   * the memo is only trusted for one call site (as the query does).
   */
  method IsChildVisiting(db: Db, parent: string, child: string, knowns: map<string, bool>, visiting: set<string>)
    returns (r: bool, knowns': map<string, bool>)
    requires Sorted(ParentKeys(db))
    requires parent in knowns && knowns[parent]
    requires MemoTrueSound(db, parent, knowns) && FalseClosed(db, parent, knowns, visiting)
    requires visiting !! knowns.Keys
    ensures r ==> IsSubtype(db, child, parent)
    ensures !r ==> FalseClosed(db, parent, knowns', visiting)
    ensures !r ==> child in visiting || (child in knowns' && !knowns'[child])
    ensures MemoTrueSound(db, parent, knowns') && Extends(knowns', knowns) && visiting !! knowns'.Keys
    ensures child in knowns ==> r == knowns[child] && knowns' == knowns
    decreases AllParents(db) + {child} - visiting, 1
  {
    if child in knowns {
      return knowns[child], knowns;
    }
    if child in visiting {
      return false, knowns;
    }
    knowns' := knowns;
    ghost var inner := visiting + {child};
    var prefix := child + [SEP];
    var i := Seek(ParentKeys(db), prefix);
    ghost var lo := i;
    while i < |db.parents| && StartsWith(db.parents[i].0, prefix)
      invariant lo <= i <= |db.parents|
      invariant forall j :: lo <= j < i ==> StartsWith(db.parents[j].0, prefix)
      invariant RecordsSettled(db, parent, child, knowns', inner, lo, i)
      invariant MemoTrueSound(db, parent, knowns') && Extends(knowns', knowns) && inner !! knowns'.Keys
      invariant FalseClosed(db, parent, knowns', inner)
    {
      ghost var before := knowns';
      var found;
      found, knowns' := RecordLeadsToVisiting(db, parent, child, i, knowns', visiting);
      if found {
        return true, knowns'[child := true];
      }
      RecordsSettledStep(db, parent, child, before, knowns', inner, lo, i);
      i := i + 1;
    }
    ScanFindsRecords(db, child, i);
    FalseClosedAfterRecords(db, parent, knowns', visiting, child, lo, i);
    r, knowns' := false, knowns'[child := false];
  }

  /** The body of the corrected isChild's scan, with `child` among the classes being explored. */
  method RecordLeadsToVisiting(db: Db, parent: string, child: string, j: nat, knowns: map<string, bool>, visiting: set<string>)
    returns (found: bool, knowns': map<string, bool>)
    requires Sorted(ParentKeys(db))
    requires parent in knowns && knowns[parent] && child !in visiting
    requires MemoTrueSound(db, parent, knowns) && FalseClosed(db, parent, knowns, visiting + {child})
    requires (visiting + {child}) !! knowns.Keys
    requires j < |db.parents| && StartsWith(db.parents[j].0, child + [SEP])
    ensures found ==> Reaches(db, child, parent)
    ensures !found ==> FalseClosed(db, parent, knowns', visiting + {child})
    ensures !found ==> RecordsSettled(db, parent, child, knowns', visiting + {child}, j, j + 1)
    ensures MemoTrueSound(db, parent, knowns') && Extends(knowns', knowns) && (visiting + {child}) !! knowns'.Keys
    decreases AllParents(db) + {child} - visiting, 0
  {
    var parents := ParentSet(db.parents[j].1);
    assert forall q :: q in parents ==> RecordEdge(db, j, child, q) && q in AllParents(db);
    if parent in parents {
      EdgeReaches(db, child, parent);
      return true, knowns;
    }
    knowns' := knowns;
    var rest := parents;
    while rest != {}
      invariant rest <= parents
      invariant Settled(knowns', visiting + {child}, parents - rest)
      invariant FalseClosed(db, parent, knowns', visiting + {child})
      invariant MemoTrueSound(db, parent, knowns') && Extends(knowns', knowns) && (visiting + {child}) !! knowns'.Keys
      decreases |rest|
    {
      var superParent :| superParent in rest;
      ghost var before := knowns';
      var isChild;
      isChild, knowns' := IsChildVisiting(db, parent, superParent, knowns', visiting + {child});
      if isChild {
        ReachesThrough(db, child, superParent, parent);
        return true, knowns';
      }
      assert Settled(knowns', visiting + {child}, parents - rest) by {
        forall q | q in parents - rest ensures (q in knowns' && !knowns'[q]) || q in visiting + {child} {
          assert Settled(before, visiting + {child}, parents - rest);
        }
      }
      rest := rest - {superParent};
    }
    found := false;
  }

  /** What a query run prints and counts; `aborted` when a key's target class cannot be split out. */
  datatype QueryReport = QueryReport(printed: seq<string>, count: nat, matchCount: nat, aborted: bool)

  /** The call site with this key is a match: its target class is `classname` or a descendant. */
  ghost predicate Matches(db: Db, classname: string, key: string) {
    TargetClassOf(key) != None && IsSubtype(db, TargetClassOf(key).value, classname)
  }

  /** One more visited key: counted, then printed and counted as a match when it matches. */
  ghost function ReportStep(db: Db, classname: string, r: QueryReport, key: string): QueryReport {
    if r.aborted then r
    else if TargetClassOf(key) == None then r.(count := r.count + 1, aborted := true)
    else if Matches(db, classname, key) then QueryReport(r.printed + [key], r.count + 1, r.matchCount + 1, false)
    else r.(count := r.count + 1)
  }

  /** The report for visiting `keys` in order. */
  ghost function Report(db: Db, classname: string, keys: seq<string>): QueryReport
    decreases |keys|
  {
    if |keys| == 0 then QueryReport([], 0, 0, false)
    else ReportStep(db, classname, Report(db, classname, keys[..|keys| - 1]), keys[|keys| - 1])
  }

  lemma {:induction false} ReportAbortIsFinal(db: Db, classname: string, a: seq<string>, b: seq<string>)
    requires Report(db, classname, a).aborted
    ensures Report(db, classname, a + b) == Report(db, classname, a)
    decreases |b|
  {
    if |b| == 0 {
      assert a + b == a;
    } else {
      assert (a + b)[..|a + b| - 1] == a + b[..|b| - 1];
      ReportAbortIsFinal(db, classname, a, b[..|b| - 1]);
    }
  }

  lemma ReportSnoc(db: Db, classname: string, keys: seq<string>, s: nat, i: nat)
    requires s <= i < |keys|
    ensures Report(db, classname, keys[s..i + 1]) == ReportStep(db, classname, Report(db, classname, keys[s..i]), keys[i])
  {
    var run := keys[s..i + 1];
    assert run[..|run| - 1] == keys[s..i] && run[|run| - 1] == keys[i];
  }

  /** A scan that aborts after position `e` reports what the whole prefix run would. */
  lemma ReportAbortsScan(db: Db, classname: string, keys: seq<string>, p: string, e: nat)
    requires Seek(keys, p) <= e <= |keys|
    requires forall j :: Seek(keys, p) <= j < e ==> StartsWith(keys[j], p)
    requires Report(db, classname, keys[Seek(keys, p)..e]).aborted
    ensures Report(db, classname, WithPrefix(keys, p)) == Report(db, classname, keys[Seek(keys, p)..e])
  {
    ScanSoFar(keys, p, e);
    ReportAbortIsFinal(db, classname, keys[Seek(keys, p)..e], WithPrefix(keys[e..], p));
  }

  /**
   * The test applied to one call site's target class: isChild with a fresh
   * memo that holds only `classname -> true`.
   */
  method TargetIsChild(db: Db, classname: string, target: string) returns (isChild: bool)
    requires Sorted(ParentKeys(db))
    ensures isChild == IsSubtype(db, target, classname)
  {
    var knowns := map[classname := true];
    var knowns';
    isChild, knowns' := IsChildVisiting(db, classname, target, knowns, {});
    if !isChild {
      FalseClosedBlocks(db, classname, knowns', target);
    }
  }

  /**
   * The body of the query's scan for one key: count it, split out its
   * target class (a key with too few fields ends the run), and print and
   * count it as a match when the target is `classname` or a descendant.
   */
  method VisitKey(db: Db, classname: string, r: QueryReport, key: string) returns (r': QueryReport)
    requires Sorted(ParentKeys(db)) && !r.aborted
    ensures r' == ReportStep(db, classname, r, key)
  {
    r' := r.(count := r.count + 1);
    var target := TargetClassOf(key);
    if target == None {
      return r'.(aborted := true);
    }
    var isChild := TargetIsChild(db, classname, target.value);
    if isChild {
      r' := r'.(matchCount := r'.matchCount + 1, printed := r'.printed + [key]);
    }
  }

  /** Visiting the key at position `i` extends the report of the keys visited before it. */
  method VisitNext(db: Db, classname: string, keys: seq<string>, ghost s: nat, i: nat, r: QueryReport) returns (r': QueryReport)
    requires Sorted(ParentKeys(db)) && s <= i < |keys|
    requires r == Report(db, classname, keys[s..i]) && !r.aborted
    ensures r' == Report(db, classname, keys[s..i + 1])
  {
    ReportSnoc(db, classname, keys, s, i);
    r' := VisitKey(db, classname, r, keys[i]);
  }

  /**
   * The query: seek to "methodname|", and visit every key from there on
   * while it still has that prefix.
   */
  method FindMethodrefs(db: Db, classname: string, methodname: string) returns (out: QueryReport)
    requires Sorted(ParentKeys(db)) && Sorted(db.methodrefs)
    ensures out == Report(db, classname, WithPrefix(db.methodrefs, methodname + [SEP]))
  {
    out := QueryReport([], 0, 0, false);
    var keys := db.methodrefs;
    var prefix := methodname + [SEP];
    var i := Seek(keys, prefix);
    ghost var s := i;
    while i < |keys| && StartsWith(keys[i], prefix)
      invariant s <= i <= |keys| && s == Seek(keys, prefix)
      invariant forall j :: s <= j < i ==> StartsWith(keys[j], prefix)
      invariant out == Report(db, classname, keys[s..i]) && !out.aborted
    {
      out := VisitNext(db, classname, keys, s, i, out);
      if out.aborted {
        ReportAbortsScan(db, classname, keys, prefix, i + 1);
        return;
      }
      i := i + 1;
    }
    ScanStopsAtRunEnd(keys, prefix, i);
  }

  /** The keys, in order, whose call site matches: what a run that does not abort prints. */
  ghost function MatchingKeys(db: Db, classname: string, keys: seq<string>): seq<string>
    decreases |keys|
  {
    if |keys| == 0 then []
    else
      var init := MatchingKeys(db, classname, keys[..|keys| - 1]);
      if Matches(db, classname, keys[|keys| - 1]) then init + [keys[|keys| - 1]] else init
  }

  lemma {:induction false} MatchingKeysMembers(db: Db, classname: string, keys: seq<string>)
    ensures forall k :: k in MatchingKeys(db, classname, keys) <==> k in keys && Matches(db, classname, k)
    decreases |keys|
  {
    if |keys| > 0 {
      var init := keys[..|keys| - 1];
      MatchingKeysMembers(db, classname, init);
      assert keys == init + [keys[|keys| - 1]];
    }
  }

  /**
   * The counters: every visited key is counted and the matches are the
   * printed keys; a run that does not abort counts every key.
   */
  lemma {:induction false} ReportCounts(db: Db, classname: string, keys: seq<string>)
    ensures Report(db, classname, keys).matchCount == |Report(db, classname, keys).printed|
    ensures Report(db, classname, keys).matchCount <= Report(db, classname, keys).count <= |keys|
    ensures !Report(db, classname, keys).aborted ==> Report(db, classname, keys).count == |keys|
    decreases |keys|
  {
    if |keys| > 0 {
      ReportCounts(db, classname, keys[..|keys| - 1]);
    }
  }

  /** One step aborts a run exactly when the run had aborted or the key names no target class. */
  lemma StepAborts(db: Db, classname: string, r: QueryReport, key: string)
    ensures ReportStep(db, classname, r, key).aborted <==> r.aborted || TargetClassOf(key) == None
  {
  }

  /** A key that names no target class ends the run, at the latest when it is visited. */
  lemma {:induction false} NoTargetAborts(db: Db, classname: string, keys: seq<string>, j: nat)
    requires j < |keys| && TargetClassOf(keys[j]) == None
    ensures Report(db, classname, keys).aborted
    decreases |keys|
  {
    var init := keys[..|keys| - 1];
    StepAborts(db, classname, Report(db, classname, init), keys[|keys| - 1]);
    if j < |init| {
      assert init[j] == keys[j];
      NoTargetAborts(db, classname, init, j);
    }
  }

  /** A run that ended early met a key that names no target class. */
  lemma {:induction false} AbortHasCause(db: Db, classname: string, keys: seq<string>) returns (j: nat)
    requires Report(db, classname, keys).aborted
    ensures j < |keys| && TargetClassOf(keys[j]) == None
    decreases |keys|
  {
    var init := keys[..|keys| - 1];
    StepAborts(db, classname, Report(db, classname, init), keys[|keys| - 1]);
    if Report(db, classname, init).aborted {
      j := AbortHasCause(db, classname, init);
      assert init[j] == keys[j];
    } else {
      j := |keys| - 1;
    }
  }

  /** A run aborts exactly when some key has too few fields to name a target class. */
  lemma ReportAborts(db: Db, classname: string, keys: seq<string>)
    ensures Report(db, classname, keys).aborted <==> exists j :: 0 <= j < |keys| && TargetClassOf(keys[j]) == None
  {
    if Report(db, classname, keys).aborted {
      var j := AbortHasCause(db, classname, keys);
    }
    if exists j :: 0 <= j < |keys| && TargetClassOf(keys[j]) == None {
      var j :| 0 <= j < |keys| && TargetClassOf(keys[j]) == None;
      NoTargetAborts(db, classname, keys, j);
    }
  }

  /** The printed keys are the matching keys among the first `count` visited. */
  lemma {:induction false} ReportPrintsVisited(db: Db, classname: string, keys: seq<string>)
    ensures Report(db, classname, keys).count <= |keys|
    ensures Report(db, classname, keys).printed == MatchingKeys(db, classname, keys[..Report(db, classname, keys).count])
    decreases |keys|
  {
    if |keys| == 0 {
      assert keys[..0] == [];
    } else {
      var init := keys[..|keys| - 1];
      ReportPrintsVisited(db, classname, init);
      ReportCounts(db, classname, init);
      var before := Report(db, classname, init);
      if before.aborted {
        assert keys[..before.count] == init[..before.count];
      } else {
        assert init[..|init|] == init;
        assert keys[..|keys|] == keys;
      }
    }
  }

  /**
   * What is printed: exactly the matching keys among those visited before
   * the run ended (all of them when it does not end early), in the order
   * visited.
   */
  lemma ReportPrints(db: Db, classname: string, keys: seq<string>)
    ensures Report(db, classname, keys).count <= |keys|
    ensures Report(db, classname, keys).printed == MatchingKeys(db, classname, keys[..Report(db, classname, keys).count])
    ensures !Report(db, classname, keys).aborted ==> Report(db, classname, keys).printed == MatchingKeys(db, classname, keys)
    ensures forall k :: k in Report(db, classname, keys).printed ==> k in keys && Matches(db, classname, k)
  {
    var r := Report(db, classname, keys);
    ReportPrintsVisited(db, classname, keys);
    ReportCounts(db, classname, keys);
    MatchingKeysMembers(db, classname, keys[..r.count]);
    assert keys[..|keys|] == keys;
    assert forall k :: k in keys[..r.count] ==> k in keys;
  }

  /**
   * The query for `methodname` prints a recorded call site exactly when the
   * site calls `methodname` on `classname` or one of its descendants, as
   * long as no key ends the run early.
   */
  lemma QueryPrintsCallSite(db: Db, classname: string, methodname: string, m: string, t: string, c: string, p: string)
    requires NoSep(methodname) && NoSep(m) && NoSep(t) && NoSep(c) && NoSep(p)
    requires !Report(db, classname, WithPrefix(db.methodrefs, methodname + [SEP])).aborted
    ensures MethodrefKey(m, t, c, p) in Report(db, classname, WithPrefix(db.methodrefs, methodname + [SEP])).printed
      <==> MethodrefKey(m, t, c, p) in db.methodrefs && m == methodname && IsSubtype(db, t, classname)
  {
    var scanned := WithPrefix(db.methodrefs, methodname + [SEP]);
    ReportPrints(db, classname, scanned);
    MatchingKeysMembers(db, classname, scanned);
    WithPrefixMembers(db.methodrefs, methodname + [SEP]);
    MethodrefKeyPrefix(m, t, c, p, methodname);
    TargetClassOfMethodrefKey(m, t, c, p);
    ReportAborts(db, classname, scanned);
    if MethodrefKey(m, t, c, p) in scanned {
      var j :| 0 <= j < |scanned| && scanned[j] == MethodrefKey(m, t, c, p);
    }
  }

  /** A query over keys that all name a target class never ends early, and counts every key it scans. */
  lemma QueryCompletes(db: Db, classname: string, methodname: string)
    requires forall k :: k in db.methodrefs ==> TargetClassOf(k) != None
    ensures !Report(db, classname, WithPrefix(db.methodrefs, methodname + [SEP])).aborted
    ensures Report(db, classname, WithPrefix(db.methodrefs, methodname + [SEP])).count == |WithPrefix(db.methodrefs, methodname + [SEP])|
  {
    var scanned := WithPrefix(db.methodrefs, methodname + [SEP]);
    WithPrefixMembers(db.methodrefs, methodname + [SEP]);
    assert forall j :: 0 <= j < |scanned| ==> scanned[j] in scanned;
    ReportAborts(db, classname, scanned);
    ReportCounts(db, classname, scanned);
  }

  /**
   * The class of isChild's first recursive call: `child` is not memoised,
   * its first hierarchy record does not name `parent`, and `next` is one of
   * the parents it does name. Nothing has been written to the memo by then,
   * so the call is isChild(parent, next, knowns) with the same memo.
   */
  ghost predicate CallsFirst(db: Db, parent: string, child: string, knowns: map<string, bool>, next: string) {
    var i := Seek(ParentKeys(db), child + [SEP]);
    child !in knowns && i < |db.parents| && StartsWith(db.parents[i].0, child + [SEP])
    && parent !in ParentSet(db.parents[i].1) && next in ParentSet(db.parents[i].1)
  }

  /**
   * Two archives that disagree about a pair of classes: in a.jar X extends
   * Y, in b.jar Y extends X. A third archive, c.jar, has a class C that
   * calls method m on X.
   */
  function CyclicDb(): Db {
    Db([("X|a.jar", HierVal(Some("Y"), [])), ("Y|b.jar", HierVal(Some("X"), []))], ["m|X|C|c.jar"])
  }

  /** The keys of that index are in order, and the seeks for "X|" and "Y|" land on their records. */
  lemma CyclicDbScans()
    ensures Sorted(ParentKeys(CyclicDb()))
    ensures Seek(ParentKeys(CyclicDb()), "X|") == 0 && Seek(ParentKeys(CyclicDb()), "Y|") == 1
  {
    var keys := ParentKeys(CyclicDb());
    assert keys == ["X|a.jar", "Y|b.jar"];
    assert LexLe(keys[0], keys[1]);
    assert LexLe("X|", keys[0]) by {
      assert LexLe("|", "|a.jar") by { assert LexLe("", "a.jar"); }
    }
    assert !LexLe("Y|", keys[0]);
    assert LexLe("Y|", keys[1]) by {
      assert LexLe("|", "|b.jar") by { assert LexLe("", "b.jar"); }
    }
  }

  /**
   * The query for method m scans the one call-site key of that index and
   * asks isChild(Z, X) about its target class X.
   */
  lemma CyclicQueryAsksAboutX()
    ensures WithPrefix(CyclicDb().methodrefs, "m" + [SEP]) == ["m|X|C|c.jar"]
    ensures TargetClassOf("m|X|C|c.jar") == Some("X")
  {
    var key := MethodrefKey("m", "X", "C", "c.jar");
    assert key == "m|X|C|c.jar";
    assert StartsWith(key, "m" + [SEP]);
    assert ["m|X|C|c.jar"][1..] == [];
    assert NoSep("m") && NoSep("X") && NoSep("C") && NoSep("c.jar");
    TargetClassOfMethodrefKey("m", "X", "C", "c.jar");
  }

  /**
   * On that index, querying for descendants of Z asks isChild(Z, X, {Z})
   * which calls isChild(Z, Y, {Z}) which calls isChild(Z, X, {Z}) again,
   * with the memo unchanged and no other choice: the recursion never ends.
   */
  lemma CycleRecursesForever()
    ensures CallsFirst(CyclicDb(), "Z", "X", map["Z" := true], "Y")
    ensures CallsFirst(CyclicDb(), "Z", "Y", map["Z" := true], "X")
    ensures forall q :: CallsFirst(CyclicDb(), "Z", "X", map["Z" := true], q) ==> q == "Y"
    ensures forall q :: CallsFirst(CyclicDb(), "Z", "Y", map["Z" := true], q) ==> q == "X"
  {
    CyclicDbScans();
    assert StartsWith("X|a.jar", "X|") && StartsWith("Y|b.jar", "Y|");
  }

  /** No rank orders that hierarchy, so the terminating isChild cannot be applied to it. */
  lemma CycleHasNoRank(rank: map<string, nat>)
    ensures !Ranked(CyclicDb(), rank)
  {
    var db := CyclicDb();
    assert StartsWith(db.parents[0].0, "X|") && StartsWith(db.parents[1].0, "Y|");
    assert RecordEdge(db, 0, "X", "Y") && RecordEdge(db, 1, "Y", "X");
    assert Edge(db, "X", "Y") && Edge(db, "Y", "X");
  }

  /** The corrected search answers the query: X is not a descendant of Z. */
  lemma CycleNotDescendant()
    ensures !IsSubtype(CyclicDb(), "X", "Z")
  {
    var db := CyclicDb();
    var knowns := map["Z" := true, "X" := false, "Y" := false];
    assert db.parents[0].0[..2][0] != "Y|"[0] && db.parents[1].0[..2][0] != "X|"[0];
    assert FalseClosed(db, "Z", knowns, {}) by {
      forall k, q | k in knowns && !knowns[k] && Edge(db, k, q) ensures q in knowns && !knowns[q] {
        var j :| RecordEdge(db, j, k, q);
      }
      assert !Edge(db, "X", "Z") && !Edge(db, "Y", "Z");
    }
    FalseClosedBlocks(db, "Z", knowns, "X");
  }

  /**
   * `db` is what a query reads from the store `st` once indexing has
   * finished: each partition's keys in the store's order, every record of
   * the hierarchy partition with its value.
   */
  ghost predicate SnapshotOf(db: Db, st: Store) {
    Sorted(ParentKeys(db)) && Sorted(db.methodrefs)
    && (forall j :: 0 <= j < |db.parents| ==> db.parents[j].0 in st.parents && st.parents[db.parents[j].0] == db.parents[j].1)
    && (forall k :: k in st.parents ==> k in ParentKeys(db))
    && (forall k :: k in db.methodrefs <==> k in st.methodrefs)
  }

  /**
   * What indexing a class writes is what the query reads: every parent the
   * class's hierarchy record names is one of its direct parents for
   * isChild, so the class counts as a descendant of each of them.
   */
  lemma IndexedParentsAreAncestors(db: Db, s: Store, path: string, cf: ClassFile)
    requires SnapshotOf(db, Replay(s, ClassWrites(path, cf)))
    ensures forall q :: q in ParentSet(HierarchyValue(cf.superclass, cf.interfaces)) ==> IsSubtype(db, cf.name, q)
  {
    var key := HierarchyKey(cf.name, path);
    IndexedHierarchyStored(s, path, cf);
    var keys := ParentKeys(db);
    assert key in keys;
    var j :| 0 <= j < |keys| && keys[j] == key;
    forall q | q in ParentSet(HierarchyValue(cf.superclass, cf.interfaces)) ensures IsSubtype(db, cf.name, q) {
      assert RecordEdge(db, j, cf.name, q);
      EdgeReaches(db, cf.name, q);
    }
  }

  /**
   * End to end: once a class is indexed, the query for a method it calls
   * on a class C prints that call site exactly when C is the queried class
   * or one of its descendants (unless another key ends the run early).
   */
  lemma IndexedCallSiteFound(db: Db, s: Store, path: string, cf: ClassFile, i: nat, classname: string)
    requires 1 <= i < |cf.constPool| && IsMethodref(cf.constPool[i])
    requires NoSep(cf.constPool[i].methodName) && NoSep(cf.constPool[i].className) && NoSep(cf.name) && NoSep(path)
    requires SnapshotOf(db, Replay(s, ClassWrites(path, cf)))
    requires !Report(db, classname, WithPrefix(db.methodrefs, cf.constPool[i].methodName + [SEP])).aborted
    ensures MethodrefKey(cf.constPool[i].methodName, cf.constPool[i].className, cf.name, path)
        in Report(db, classname, WithPrefix(db.methodrefs, cf.constPool[i].methodName + [SEP])).printed
      <==> IsSubtype(db, cf.constPool[i].className, classname)
  {
    var e := cf.constPool[i];
    IndexedCallSitesStored(s, path, cf, i);
    QueryPrintsCallSite(db, classname, e.methodName, e.methodName, e.className, cf.name, path);
  }
}
