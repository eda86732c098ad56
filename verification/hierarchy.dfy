/**
 * What a query reads from the finished store, and the ancestry relation it
 * decides. A class's direct parents are the superclass and interfaces of
 * every hierarchy record whose key starts with "class|" (one record per
 * archive that declares a class of that name).
 */
module Hierarchy {
  import opened Lex
  import opened Schema

  /**
   * The finished store as a query sees it: each partition's entries in
   * iteration order (hierarchy key and value; method-reference key).
   */
  datatype Db = Db(parents: seq<(string, HierVal)>, methodrefs: seq<string>)

  function ParentKeys(db: Db): (keys: seq<string>)
    ensures |keys| == |db.parents|
    ensures forall i :: 0 <= i < |keys| ==> keys[i] == db.parents[i].0
  {
    seq(|db.parents|, i requires 0 <= i < |db.parents| => db.parents[i].0)
  }

  /** Record `j` is a hierarchy record of `x` that names `q` as a parent. */
  ghost predicate RecordEdge(db: Db, j: int, x: string, q: string) {
    0 <= j < |db.parents| && StartsWith(db.parents[j].0, x + [SEP]) && q in ParentSet(db.parents[j].1)
  }

  /** `q` is a direct parent of `x` in some hierarchy record of `x`. */
  ghost predicate Edge(db: Db, x: string, q: string) {
    exists j :: RecordEdge(db, j, x, q)
  }

  /** Every step of `path` goes from a class to one of its direct parents. */
  ghost predicate IsPath(db: Db, path: seq<string>) {
    forall i :: 0 <= i < |path| - 1 ==> Edge(db, path[i], path[i + 1])
  }

  /** `path` is a path of at least one step from `x` to `y`. */
  ghost predicate PathFromTo(db: Db, path: seq<string>, x: string, y: string) {
    |path| >= 2 && path[0] == x && path[|path| - 1] == y && IsPath(db, path)
  }

  /** `y` is an ancestor of `x`: one or more direct-parent steps lead from `x` to `y`. */
  ghost predicate Reaches(db: Db, x: string, y: string) {
    exists path :: PathFromTo(db, path, x, y)
  }

  /** `x` is `y` or a descendant of `y`: what the query asks of each call site's target class. */
  ghost predicate IsSubtype(db: Db, x: string, y: string) {
    x == y || Reaches(db, x, y)
  }

  /** Every class that is a direct parent in some hierarchy record. */
  ghost function AllParents(db: Db): set<string> {
    set i, q | 0 <= i < |db.parents| && q in ParentSet(db.parents[i].1) :: q
  }

  /** A direct parent is an ancestor. */
  lemma EdgeReaches(db: Db, x: string, q: string)
    requires Edge(db, x, q)
    ensures Reaches(db, x, q)
  {
    var path := [x, q];
    assert PathFromTo(db, path, x, q);
  }

  /** A descendant of a direct parent of `x` is reached from `x`. */
  lemma ReachesThrough(db: Db, x: string, q: string, y: string)
    requires Edge(db, x, q) && IsSubtype(db, q, y)
    ensures Reaches(db, x, y)
  {
    if q == y {
      EdgeReaches(db, x, q);
    } else {
      var path :| PathFromTo(db, path, q, y);
      var longer := [x] + path;
      assert forall i :: 1 <= i < |longer| - 1 ==> longer[i] == path[i - 1] && longer[i + 1] == path[i];
      assert PathFromTo(db, longer, x, y);
    }
  }

  /** Every ancestor of `x` is reached through one of its direct parents. */
  lemma ReachesFirstStep(db: Db, x: string, y: string)
    requires Reaches(db, x, y)
    ensures exists q :: Edge(db, x, q) && IsSubtype(db, q, y)
  {
    var path :| PathFromTo(db, path, x, y);
    assert Edge(db, x, path[1]);
    if |path| > 2 {
      var rest := path[1..];
      assert IsPath(db, rest);
      assert PathFromTo(db, rest, path[1], y);
    }
  }

  /** If no direct parent of `x` is (a descendant of) `y`, then `y` is not an ancestor of `x`. */
  lemma NotReachedWhenNoParentLeads(db: Db, x: string, y: string)
    requires forall q :: Edge(db, x, q) ==> !IsSubtype(db, q, y)
    ensures !Reaches(db, x, y)
  {
    if Reaches(db, x, y) {
      ReachesFirstStep(db, x, y);
    }
  }

  /** Ancestry is transitive. */
  lemma {:induction false} SubtypeTransitive(db: Db, a: string, b: string, c: string)
    requires IsSubtype(db, a, b) && IsSubtype(db, b, c)
    ensures IsSubtype(db, a, c)
  {
    if a != b && b != c {
      var p1 :| PathFromTo(db, p1, a, b);
      var p2 :| PathFromTo(db, p2, b, c);
      var joined := p1 + p2[1..];
      forall i | 0 <= i < |joined| - 1 ensures Edge(db, joined[i], joined[i + 1]) {
        if i < |p1| - 1 {
          assert joined[i] == p1[i] && joined[i + 1] == p1[i + 1];
        } else {
          var k := i - (|p1| - 1);
          assert joined[i] == p2[k] && joined[i + 1] == p2[k + 1];
        }
      }
      assert PathFromTo(db, joined, a, c);
    }
  }

  function Rank(rank: map<string, nat>, x: string): nat {
    if x in rank then rank[x] else 0
  }

  /** `rank` witnesses that the parent relation is acyclic: every step goes to a smaller rank. */
  ghost predicate Ranked(db: Db, rank: map<string, nat>) {
    forall x, q :: Edge(db, x, q) ==> Rank(rank, q) < Rank(rank, x)
  }

  lemma {:induction false} RankFallsAlongPath(db: Db, rank: map<string, nat>, path: seq<string>, i: nat)
    requires Ranked(db, rank) && IsPath(db, path)
    requires 1 <= i < |path|
    ensures Rank(rank, path[i]) < Rank(rank, path[0])
  {
    assert Edge(db, path[i - 1], path[i]);
    if i > 1 {
      RankFallsAlongPath(db, rank, path, i - 1);
    }
  }

  /** With a rank, no class is its own ancestor. */
  lemma RankedIsAcyclic(db: Db, rank: map<string, nat>, x: string)
    requires Ranked(db, rank)
    ensures !Reaches(db, x, x)
  {
    if Reaches(db, x, x) {
      var path :| PathFromTo(db, path, x, x);
      RankFallsAlongPath(db, rank, path, |path| - 1);
    }
  }

  /** `after` keeps every entry of `before`. */
  predicate Extends(after: map<string, bool>, before: map<string, bool>) {
    forall k :: k in before ==> k in after && after[k] == before[k]
  }

  /** Every memo entry is the right answer for the query class `parent`. */
  ghost predicate MemoExact(db: Db, parent: string, knowns: map<string, bool>) {
    forall k :: k in knowns ==> knowns[k] == IsSubtype(db, k, parent)
  }

  /** Recording a right answer keeps the memo exact and keeps every earlier entry. */
  lemma MemoRecord(db: Db, parent: string, before: map<string, bool>, knowns: map<string, bool>, child: string, r: bool)
    requires MemoExact(db, parent, knowns) && Extends(knowns, before)
    requires r == IsSubtype(db, child, parent)
    ensures MemoExact(db, parent, knowns[child := r]) && Extends(knowns[child := r], before)
  {
  }

  /** Every `true` memo entry is right. */
  ghost predicate MemoTrueSound(db: Db, parent: string, knowns: map<string, bool>) {
    forall k :: k in knowns && knowns[k] ==> IsSubtype(db, k, parent)
  }

  /**
   * Every `false` memo entry has no direct parent `parent`, and each of its
   * direct parents is memoised `false` too or still being explored.
   */
  ghost predicate FalseClosed(db: Db, parent: string, knowns: map<string, bool>, visiting: set<string>) {
    forall k :: k in knowns && !knowns[k] ==>
      !Edge(db, k, parent) && forall q :: Edge(db, k, q) ==> (q in knowns && !knowns[q]) || q in visiting
  }

  lemma {:induction false} FalseAlongPath(db: Db, parent: string, knowns: map<string, bool>, path: seq<string>, i: nat)
    requires FalseClosed(db, parent, knowns, {}) && IsPath(db, path)
    requires 0 < |path| && path[0] in knowns && !knowns[path[0]]
    requires i < |path|
    ensures path[i] in knowns && !knowns[path[i]]
  {
    if i > 0 {
      FalseAlongPath(db, parent, knowns, path, i - 1);
      assert Edge(db, path[i - 1], path[i]);
    }
  }

  /** Once nothing is being explored, a class memoised `false` cannot reach `parent`. */
  lemma FalseClosedBlocks(db: Db, parent: string, knowns: map<string, bool>, k: string)
    requires FalseClosed(db, parent, knowns, {})
    requires k in knowns && !knowns[k]
    ensures !Reaches(db, k, parent)
  {
    if Reaches(db, k, parent) {
      var path :| PathFromTo(db, path, k, parent);
      FalseAlongPath(db, parent, knowns, path, |path| - 2);
    }
  }

  /** No class in `qs` is (a descendant of) `parent`. */
  ghost predicate RuledOut(db: Db, parent: string, qs: set<string>) {
    forall q :: q in qs ==> !IsSubtype(db, q, parent)
  }

  /** Every class in `qs` is memoised `false` or still being explored. */
  predicate Settled(knowns: map<string, bool>, visiting: set<string>, qs: set<string>) {
    forall q :: q in qs ==> (q in knowns && !knowns[q]) || q in visiting
  }

  /** The hierarchy records of `child` are exactly the positions `lo` to `hi`. */
  ghost predicate RecordsAt(db: Db, child: string, lo: nat, hi: nat) {
    lo <= hi <= |db.parents| &&
    forall j :: 0 <= j < |db.parents| ==> (StartsWith(db.parents[j].0, child + [SEP]) <==> lo <= j < hi)
  }

  /**
   * The scan for `child`'s records, from the seek position on while the
   * key starts with "child|", stops exactly at the end of those records.
   */
  lemma ScanFindsRecords(db: Db, child: string, e: nat)
    requires Sorted(ParentKeys(db))
    requires Seek(ParentKeys(db), child + [SEP]) <= e <= |db.parents|
    requires forall j :: Seek(ParentKeys(db), child + [SEP]) <= j < e ==> StartsWith(db.parents[j].0, child + [SEP])
    requires e < |db.parents| ==> !StartsWith(db.parents[e].0, child + [SEP])
    ensures RecordsAt(db, child, Seek(ParentKeys(db), child + [SEP]), e)
  {
    ScanStopsAtRunEnd(ParentKeys(db), child + [SEP], e);
  }

  /** When no record of `child` names a parent leading to `parent`, `child` is not a descendant of `parent`. */
  lemma RecordsRuledOut(db: Db, parent: string, child: string, lo: nat, hi: nat)
    requires RecordsAt(db, child, lo, hi)
    requires forall j :: lo <= j < hi ==> RuledOut(db, parent, ParentSet(db.parents[j].1))
    ensures !Reaches(db, child, parent)
  {
    forall q | Edge(db, child, q) ensures !IsSubtype(db, q, parent) {
      var j :| RecordEdge(db, j, child, q);
      assert RuledOut(db, parent, ParentSet(db.parents[j].1));
    }
    NotReachedWhenNoParentLeads(db, child, parent);
  }

  /**
   * No record of `child` from position `lo` up to `hi` names `parent`, and
   * each parent it names is settled.
   */
  predicate RecordsSettled(db: Db, parent: string, child: string, knowns: map<string, bool>, visiting: set<string>, lo: nat, hi: nat)
    requires hi <= |db.parents|
  {
    forall j :: lo <= j < hi ==> parent !in ParentSet(db.parents[j].1) && Settled(knowns, visiting, ParentSet(db.parents[j].1))
  }

  /** Records settled under a memo stay settled under any extension of it, and one more settled record extends the run. */
  lemma RecordsSettledStep(db: Db, parent: string, child: string, before: map<string, bool>, after: map<string, bool>, visiting: set<string>, lo: nat, i: nat)
    requires lo <= i < |db.parents| && Extends(after, before)
    requires RecordsSettled(db, parent, child, before, visiting, lo, i)
    requires RecordsSettled(db, parent, child, after, visiting, i, i + 1)
    ensures RecordsSettled(db, parent, child, after, visiting, lo, i + 1)
  {
    forall j, q | lo <= j < i && q in ParentSet(db.parents[j].1) ensures (q in after && !after[q]) || q in visiting {
      assert Settled(before, visiting, ParentSet(db.parents[j].1));
    }
  }

  /**
   * When every record of `child` is settled, `child` may be memoised
   * `false` and taken off the classes being explored.
   */
  lemma FalseClosedAfterRecords(db: Db, parent: string, knowns: map<string, bool>, visiting: set<string>, child: string, lo: nat, hi: nat)
    requires RecordsAt(db, child, lo, hi)
    requires RecordsSettled(db, parent, child, knowns, visiting + {child}, lo, hi)
    requires FalseClosed(db, parent, knowns, visiting + {child})
    ensures FalseClosed(db, parent, knowns[child := false], visiting)
  {
    var knowns' := knowns[child := false];
    forall q | Edge(db, child, q) ensures q != parent && ((q in knowns' && !knowns'[q]) || q in visiting) {
      var j :| RecordEdge(db, j, child, q);
      assert Settled(knowns, visiting + {child}, ParentSet(db.parents[j].1));
    }
  }
}
