/**
 * The index store's schema: the two key encodings, the hierarchy record's
 * value, and the way a query takes a method-reference key apart again.
 *
 * Keys join their fields with '|'. Nothing stops a field from containing
 * '|', so every statement below that recovers a field assumes it does not
 * (NoSep).
 */
module Schema {
  import opened Wrappers
  import opened Lex

  const SEP: char := '|'

  /** The superclass that the hierarchy value leaves out. */
  const OBJECT: string := "java.lang.Object"

  /** The field contains no separator. */
  predicate NoSep(s: string) {
    SEP !in s
  }

  /** Key of a hierarchy record: the class name, then the archive path. */
  function HierarchyKey(classname: string, path: string): (k: string)
    ensures StartsWith(k, classname + [SEP]) && k[|classname| + 1..] == path
  {
    var k := classname + [SEP] + path;
    assert k[..|classname| + 1] == classname + [SEP];
    k
  }

  /** Key of a method-reference record: method, target class, calling class, archive path. */
  function MethodrefKey(targetMethod: string, targetClass: string, classname: string, path: string): (k: string)
    ensures StartsWith(k, targetMethod + [SEP])
  {
    var k := targetMethod + [SEP] + targetClass + [SEP] + classname + [SEP] + path;
    assert k[..|targetMethod| + 1] == targetMethod + [SEP];
    k
  }

  /**
   * The hierarchy record's value (a JSON object with an optional "super"
   * string and an optional "ifaces" array). An absent "ifaces" is the
   * empty list: the array is never written empty.
   */
  datatype HierVal = HierVal(super: Option<string>, ifaces: seq<string>)

  /** The value written for a class with this superclass and interface list (null: None). */
  function HierarchyValue(superclass: string, interfaces: Option<seq<string>>): (v: HierVal)
    ensures v.super == None <==> superclass == OBJECT
    ensures v.super != None ==> v.super == Some(superclass)
    ensures v.ifaces == [] <==> (interfaces == None || interfaces == Some([]))
    ensures v.ifaces != [] ==> interfaces == Some(v.ifaces)
  {
    HierVal(
      if superclass != OBJECT then Some(superclass) else None,
      if interfaces != None && |interfaces.value| > 0 then interfaces.value else [])
  }

  /** The direct parents a query reads from one hierarchy value: its superclass and its interfaces. */
  function ParentSet(v: HierVal): (ps: set<string>)
    ensures forall q :: q in ps <==> v.super == Some(q) || q in v.ifaces
  {
    (if v.super != None then {v.super.value} else {}) + set q | q in v.ifaces
  }

  /** A query reads back as parents exactly the superclass (unless it is the root) and the interfaces. */
  lemma RecordedParents(superclass: string, interfaces: Option<seq<string>>)
    ensures forall q :: q in ParentSet(HierarchyValue(superclass, interfaces)) <==>
      (q == superclass && superclass != OBJECT) || (interfaces != None && q in interfaces.value)
  {
  }

  /** Every field between separators, leading and trailing empty fields included. */
  function SplitAll(s: string): (fields: seq<string>)
    ensures |fields| >= 1
  {
    if |s| == 0 then [""]
    else if s[0] == SEP then [""] + SplitAll(s[1..])
    else var t := SplitAll(s[1..]); [[s[0]] + t[0]] + t[1..]
  }

  function DropTrailingEmpty(fields: seq<string>): seq<string> {
    if |fields| > 0 && fields[|fields| - 1] == "" then DropTrailingEmpty(fields[..|fields| - 1])
    else fields
  }

  /**
   * String.split on the separator: without a separator the string itself;
   * otherwise the fields with the trailing empty ones removed.
   */
  function JavaSplit(s: string): seq<string> {
    if SEP !in s then [s] else DropTrailingEmpty(SplitAll(s))
  }

  /** Field 1 of a method-reference key; None where `split("\\|")[1]` would be out of bounds. */
  function TargetClassOf(key: string): (r: Option<string>)
    ensures SEP !in key ==> r == None
  {
    var fields := JavaSplit(key);
    if |fields| >= 2 then Some(fields[1]) else None
  }

  /** No field of a split contains the separator. */
  lemma {:induction false} SplitAllFieldsNoSep(s: string)
    ensures forall i :: 0 <= i < |SplitAll(s)| ==> NoSep(SplitAll(s)[i])
    decreases |s|
  {
    if |s| > 0 {
      SplitAllFieldsNoSep(s[1..]);
    }
  }

  /** Dropping trailing empty fields keeps a prefix of the fields. */
  lemma {:induction false} DropTrailingEmptyPrefix(fields: seq<string>)
    ensures |DropTrailingEmpty(fields)| <= |fields|
    ensures forall i :: 0 <= i < |DropTrailingEmpty(fields)| ==> DropTrailingEmpty(fields)[i] == fields[i]
    decreases |fields|
  {
    if |fields| > 0 && fields[|fields| - 1] == "" {
      DropTrailingEmptyPrefix(fields[..|fields| - 1]);
    }
  }

  /** The target class a query splits out of any key contains no separator. */
  lemma TargetClassHasNoSep(key: string)
    ensures TargetClassOf(key) != None ==> NoSep(TargetClassOf(key).value)
  {
    SplitAllFieldsNoSep(key);
    DropTrailingEmptyPrefix(SplitAll(key));
  }

  lemma {:induction false} SplitAllNoSep(a: string)
    requires NoSep(a)
    ensures SplitAll(a) == [a]
  {
    if |a| > 0 {
      SplitAllNoSep(a[1..]);
      assert [a[0]] + a[1..] == a;
    }
  }

  lemma {:induction false} SplitAllField(a: string, rest: string)
    requires NoSep(a)
    ensures SplitAll(a + [SEP] + rest) == [a] + SplitAll(rest)
  {
    var s := a + [SEP] + rest;
    if |a| == 0 {
      assert s[1..] == rest;
    } else {
      assert s[1..] == a[1..] + [SEP] + rest;
      SplitAllField(a[1..], rest);
      assert [a[0]] + a[1..] == a;
    }
  }

  /** Splitting a method-reference key gives back its four fields, before Java drops trailing empty ones. */
  lemma SplitMethodrefKey(m: string, t: string, c: string, p: string)
    requires NoSep(m) && NoSep(t) && NoSep(c) && NoSep(p)
    ensures SplitAll(MethodrefKey(m, t, c, p)) == [m, t, c, p]
  {
    var cp := c + [SEP] + p;
    var tcp := t + [SEP] + cp;
    assert MethodrefKey(m, t, c, p) == m + [SEP] + tcp;
    SplitAllNoSep(p);
    SplitAllField(c, p);
    SplitAllField(t, cp);
    SplitAllField(m, tcp);
  }

  /**
   * The query recovers the target class as field 1 of a method-reference
   * key, unless the target class, the calling class and the path are all
   * empty, in which case Java's split leaves fewer than two fields.
   */
  lemma TargetClassOfMethodrefKey(m: string, t: string, c: string, p: string)
    requires NoSep(m) && NoSep(t) && NoSep(c) && NoSep(p)
    ensures TargetClassOf(MethodrefKey(m, t, c, p)) == if t == c == p == "" then None else Some(t)
  {
    var key := MethodrefKey(m, t, c, p);
    SplitMethodrefKey(m, t, c, p);
    assert key[|m|] == SEP;
    var fs := [m, t, c, p];
    assert fs[..3] == [m, t, c] && [m, t, c][..2] == [m, t] && [m, t][..1] == [m] && [m][..0] == [];
    if p != "" {
      assert DropTrailingEmpty(fs) == fs;
    } else if c != "" {
      assert DropTrailingEmpty(fs) == [m, t, c];
    } else if t != "" {
      assert DropTrailingEmpty(fs) == DropTrailingEmpty([m, t, c]) == [m, t];
    } else {
      assert DropTrailingEmpty(fs) == DropTrailingEmpty([m, t, c]) == DropTrailingEmpty([m, t]) == DropTrailingEmpty([m]);
      assert |DropTrailingEmpty([m])| <= 1;
    }
  }

  /** Both keys begin with "field|": such a key starts with "name|" exactly when its first field is `name`. */
  lemma FirstFieldPrefix(field: string, rest: string, name: string)
    requires NoSep(field) && NoSep(name)
    ensures StartsWith(field + [SEP] + rest, name + [SEP]) <==> field == name
  {
    var key := field + [SEP] + rest;
    var p := name + [SEP];
    assert key[..|field|] == field && key[|field|] == SEP;
    assert forall i :: 0 <= i < |field| ==> key[i] != SEP;
    assert p[..|name|] == name && p[|name|] == SEP;
    assert forall i :: 0 <= i < |name| ==> p[i] != SEP;
    if StartsWith(key, p) {
      assert key[|name|] == p[|name|];
      assert !(|name| < |field|);
      assert !(|field| < |name|);
      assert key[..|name|] == p[..|name|];
    }
    if field == name {
      assert key[..|p|] == p;
    }
  }

  /** A query for the records of class `child` reads exactly the records whose class field is `child`. */
  lemma HierarchyKeyPrefix(classname: string, path: string, child: string)
    requires NoSep(classname) && NoSep(child)
    ensures StartsWith(HierarchyKey(classname, path), child + [SEP]) <==> classname == child
  {
    FirstFieldPrefix(classname, path, child);
  }

  /**
   * A method-name scan for `name` visits exactly the records of method
   * `name`: a scan for "foo" does not visit "foobar|..." or "xfoo|...".
   */
  lemma MethodrefKeyPrefix(m: string, t: string, c: string, p: string, name: string)
    requires NoSep(m) && NoSep(name)
    ensures StartsWith(MethodrefKey(m, t, c, p), name + [SEP]) <==> m == name
  {
    assert MethodrefKey(m, t, c, p) == m + [SEP] + (t + [SEP] + c + [SEP] + p);
    FirstFieldPrefix(m, t + [SEP] + c + [SEP] + p, name);
  }
}
