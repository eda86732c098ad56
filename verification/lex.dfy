/**
 * The order in which the key/value store keeps and iterates keys, and the
 * "seek to a prefix, then step while the key still starts with it" scan that
 * both queries perform.
 *
 * Keys are strings. The store compares keys as unsigned byte strings; the
 * UTF-8 encoding of a string preserves code-point order, so comparing the
 * strings character by character gives the same order.
 */
module Lex {

  /** `s` starts with `p` (String.startsWith). */
  predicate StartsWith(s: string, p: string) {
    |p| <= |s| && s[..|p|] == p
  }

  /** Lexicographic order on keys: `a` sorts at or before `b`. */
  predicate LexLe(a: string, b: string)
    decreases |a|
  {
    |a| == 0 || (|b| > 0 && (a[0] < b[0] || (a[0] == b[0] && LexLe(a[1..], b[1..]))))
  }

  /** The keys are in the store's iteration order. */
  ghost predicate Sorted(keys: seq<string>) {
    forall i, j :: 0 <= i < j < |keys| ==> LexLe(keys[i], keys[j])
  }

  lemma {:induction false} LexLeTransitive(a: string, b: string, c: string)
    requires LexLe(a, b) && LexLe(b, c)
    ensures LexLe(a, c)
    decreases |a|
  {
    if |a| > 0 && a[0] == b[0] && b[0] == c[0] {
      LexLeTransitive(a[1..], b[1..], c[1..]);
    }
  }

  /** A key that starts with `p` sorts at or after `p`. */
  lemma {:induction false} PrefixSortsAfter(s: string, p: string)
    requires StartsWith(s, p)
    ensures LexLe(p, s)
    decreases |p|
  {
    if |p| > 0 {
      assert s[1..][..|p| - 1] == p[1..];
      PrefixSortsAfter(s[1..], p[1..]);
    }
  }

  /** Peeling a shared first character off a key and a prefix. */
  lemma PrefixCons(s: string, p: string)
    requires |s| > 0 && |p| > 0 && s[0] == p[0]
    ensures StartsWith(s, p) <==> StartsWith(s[1..], p[1..])
  {
    if |p| <= |s| {
      assert s[..|p|] == [s[0]] + s[1..][..|p| - 1];
    }
  }

  /**
   * Once the keys at or after `p` reach a key that does not start with `p`,
   * no later key starts with `p` either: the keys with prefix `p` are one
   * contiguous run of the order.
   */
  lemma {:induction false} PastPrefixRun(p: string, a: string, b: string)
    requires LexLe(p, a) && !StartsWith(a, p) && LexLe(a, b)
    ensures !StartsWith(b, p)
    decreases |p|
  {
    if |p| > 0 && |b| > 0 && b[0] == p[0] {
      PrefixCons(a, p);
      PrefixCons(b, p);
      PastPrefixRun(p[1..], a[1..], b[1..]);
    }
  }

  /**
   * The store iterator's seek: the position of the first key that sorts at
   * or after `target` (the end of the keys when there is none).
   */
  function Seek(keys: seq<string>, target: string): (i: nat)
    ensures i <= |keys|
    ensures i < |keys| ==> LexLe(target, keys[i])
  {
    if |keys| == 0 || LexLe(target, keys[0]) then 0 else 1 + Seek(keys[1..], target)
  }

  /** Every key before the seek position sorts before `target`. */
  lemma {:induction false} SeekSkipsSmaller(keys: seq<string>, target: string)
    ensures forall j :: 0 <= j < Seek(keys, target) ==> !LexLe(target, keys[j])
    decreases |keys|
  {
    if |keys| > 0 && !LexLe(target, keys[0]) {
      SeekSkipsSmaller(keys[1..], target);
      assert forall j :: 1 <= j < Seek(keys, target) ==> keys[j] == keys[1..][j - 1];
    }
  }

  /** The keys that start with `p`, in their order (the reference for a prefix scan). */
  function WithPrefix(keys: seq<string>, p: string): seq<string> {
    if |keys| == 0 then []
    else (if StartsWith(keys[0], p) then [keys[0]] else []) + WithPrefix(keys[1..], p)
  }

  lemma {:induction false} WithPrefixMembers(keys: seq<string>, p: string)
    ensures forall k :: k in WithPrefix(keys, p) <==> k in keys && StartsWith(k, p)
  {
    if |keys| > 0 {
      WithPrefixMembers(keys[1..], p);
      assert keys == [keys[0]] + keys[1..];
    }
  }

  /** Keeping only the keys with a prefix keeps them in order. */
  lemma {:induction false} WithPrefixSorted(keys: seq<string>, p: string)
    requires Sorted(keys)
    ensures Sorted(WithPrefix(keys, p))
  {
    if |keys| > 0 {
      WithPrefixSorted(keys[1..], p);
      WithPrefixMembers(keys[1..], p);
      var rest := WithPrefix(keys[1..], p);
      if StartsWith(keys[0], p) {
        var r := [keys[0]] + rest;
        forall i, j | 0 <= i < j < |r| ensures LexLe(r[i], r[j]) {
          if i == 0 {
            assert r[j] in keys[1..];
          } else {
            assert r[i] == rest[i - 1] && r[j] == rest[j - 1];
          }
        }
      }
    }
  }

  /**
   * Where the keys with prefix `p` are exactly the positions `s..e`, the
   * prefix filter is that slice.
   */
  lemma {:induction false} WithPrefixIsRun(keys: seq<string>, p: string, s: nat, e: nat)
    requires s <= e <= |keys|
    requires forall j :: 0 <= j < |keys| ==> (StartsWith(keys[j], p) <==> s <= j < e)
    ensures WithPrefix(keys, p) == keys[s..e]
  {
    if |keys| > 0 {
      var tail := keys[1..];
      if s > 0 {
        WithPrefixIsRun(tail, p, s - 1, e - 1);
        assert tail[s - 1..e - 1] == keys[s..e];
      } else if e == 0 {
        WithPrefixIsRun(tail, p, 0, 0);
      } else {
        WithPrefixIsRun(tail, p, 0, e - 1);
        assert [keys[0]] + tail[..e - 1] == keys[..e];
      }
    }
  }

  lemma {:induction false} WithPrefixAppend(a: seq<string>, b: seq<string>, p: string)
    ensures WithPrefix(a + b, p) == WithPrefix(a, p) + WithPrefix(b, p)
  {
    if |a| == 0 {
      assert a + b == b;
    } else {
      assert (a + b)[1..] == a[1..] + b;
      WithPrefixAppend(a[1..], b, p);
    }
  }

  /** No key before the seek position starts with the prefix. */
  lemma NoPrefixBeforeSeek(keys: seq<string>, p: string)
    ensures forall j :: 0 <= j < Seek(keys, p) ==> !StartsWith(keys[j], p)
  {
    SeekSkipsSmaller(keys, p);
    forall j | 0 <= j < Seek(keys, p) ensures !StartsWith(keys[j], p) {
      if StartsWith(keys[j], p) {
        PrefixSortsAfter(keys[j], p);
      }
    }
  }

  /** Filtering the keys up to `e` where exactly positions `s..e` have the prefix. */
  lemma PrefixRunUpTo(keys: seq<string>, p: string, s: nat, e: nat)
    requires s <= e <= |keys|
    requires forall j :: 0 <= j < s ==> !StartsWith(keys[j], p)
    requires forall j :: s <= j < e ==> StartsWith(keys[j], p)
    ensures WithPrefix(keys[..e], p) == keys[s..e]
  {
    var pre := keys[..e];
    assert forall j :: 0 <= j < |pre| ==> pre[j] == keys[j];
    WithPrefixIsRun(pre, p, s, e);
    assert pre[s..e] == keys[s..e];
  }

  /** Filtering distributes over a split of the keys at `e`. */
  lemma WithPrefixSplit(keys: seq<string>, p: string, e: nat)
    requires e <= |keys|
    ensures WithPrefix(keys, p) == WithPrefix(keys[..e], p) + WithPrefix(keys[e..], p)
  {
    assert keys == keys[..e] + keys[e..];
    WithPrefixAppend(keys[..e], keys[e..], p);
  }

  /**
   * What a scan has visited so far, from Seek(keys, p) up to `e` with every
   * key starting with `p`, is the beginning of the prefix filter.
   */
  lemma ScanSoFar(keys: seq<string>, p: string, e: nat)
    requires Seek(keys, p) <= e <= |keys|
    requires forall j :: Seek(keys, p) <= j < e ==> StartsWith(keys[j], p)
    ensures WithPrefix(keys, p) == keys[Seek(keys, p)..e] + WithPrefix(keys[e..], p)
  {
    NoPrefixBeforeSeek(keys, p);
    PrefixRunUpTo(keys, p, Seek(keys, p), e);
    WithPrefixSplit(keys, p, e);
  }

  /**
   * The scan loop's exit condition: starting at Seek(keys, p) and stepping
   * while the key starts with `p` stops at `e` exactly when the keys with
   * prefix `p` are the positions between the seek position and `e`.
   */
  lemma ScanStopsAtRunEnd(keys: seq<string>, p: string, e: nat)
    requires Sorted(keys)
    requires Seek(keys, p) <= e <= |keys|
    requires forall j :: Seek(keys, p) <= j < e ==> StartsWith(keys[j], p)
    requires e < |keys| ==> !StartsWith(keys[e], p)
    ensures forall j :: 0 <= j < |keys| ==> (StartsWith(keys[j], p) <==> Seek(keys, p) <= j < e)
    ensures WithPrefix(keys, p) == keys[Seek(keys, p)..e]
  {
    var s := Seek(keys, p);
    SeekSkipsSmaller(keys, p);
    forall j | 0 <= j < |keys| ensures StartsWith(keys[j], p) <==> s <= j < e {
      if j < s && StartsWith(keys[j], p) {
        PrefixSortsAfter(keys[j], p);
        assert false;
      }
      if e < |keys| && e < j {
        assert LexLe(p, keys[e]) by {
          if s < e { LexLeTransitive(p, keys[s], keys[e]); }
        }
        PastPrefixRun(p, keys[e], keys[j]);
      }
    }
    WithPrefixIsRun(keys, p, s, e);
  }
}
