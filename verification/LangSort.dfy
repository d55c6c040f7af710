/**
  The sort command of the translation tool: every object is rebuilt with its keys in the
  order of their UTF-16 code units.
 */
module LangSort {
  import opened LangTrees
  import opened Units
  import opened Wrappers

  // ---------------------------------------------------------------------------
  // The order of keys

  predicate Less(a: Text, b: Text) {
    if b == [] then false
    else if a == [] then true
    else if a[0] != b[0] then a[0] < b[0]
    else Less(a[1..], b[1..])
  }

  lemma {:induction false} LessTotal(a: Text, b: Text)
    ensures a == b || Less(a, b) || Less(b, a)
    ensures !(Less(a, b) && Less(b, a)) && !Less(a, a)
    decreases |a|
  {
    if a != [] && b != [] && a[0] == b[0] {
      LessTotal(a[1..], b[1..]);
      assert a == [a[0]] + a[1..] && b == [b[0]] + b[1..];
    }
    if a != [] { LessTotal(a[1..], a[1..]); }
  }

  lemma {:induction false} LessTransitive(a: Text, b: Text, c: Text)
    requires Less(a, b) && Less(b, c)
    ensures Less(a, c)
    decreases |a|
  {
    if a != [] && a[0] == b[0] && b[0] == c[0] { LessTransitive(a[1..], b[1..], c[1..]); }
  }

  /** The two agree before `n`, and there the first one ends or has the smaller unit. */
  predicate SmallerAt(a: Text, b: Text, n: nat) {
    n <= |a| && n < |b| && a[..n] == b[..n] && (n < |a| ==> a[n] < b[n])
  }

  /** The first difference decides, and a proper prefix comes first. */
  lemma {:induction false} LessIs(a: Text, b: Text)
    ensures Less(a, b) <==> exists n: nat :: SmallerAt(a, b, n)
    decreases |a|
  {
    if Less(a, b) {
      if a == [] || a[0] != b[0] {
        assert SmallerAt(a, b, 0);
      } else {
        LessIs(a[1..], b[1..]);
        var n: nat :| SmallerAt(a[1..], b[1..], n);
        OneUnitMore(a, b, n);
      }
    }
    if n: nat :| SmallerAt(a, b, n) {
      if n > 0 {
        OneUnitMore(a, b, n - 1);
        LessIs(a[1..], b[1..]);
      }
    }
  }

  lemma OneUnitMore(a: Text, b: Text, n: nat)
    requires a != [] && b != [] && (a[0] == b[0] || SmallerAt(a, b, n + 1))
    ensures SmallerAt(a, b, n + 1) <==> a[0] == b[0] && SmallerAt(a[1..], b[1..], n)
  {
    if n < |a| && n < |b| {
      assert a[..n + 1] == [a[0]] + a[1..][..n] && b[..n + 1] == [b[0]] + b[1..][..n];
    }
  }

  // ---------------------------------------------------------------------------
  // Sorting keys and fields

  ghost predicate Ascending(keys: seq<Text>) {
    forall i, j | 0 <= i < j < |keys| :: Less(keys[i], keys[j])
  }

  function InsertKey(key: Text, keys: seq<Text>): (r: seq<Text>)
    ensures multiset(r) == multiset(keys) + multiset{key}
  {
    if keys == [] then [key]
    else if Less(key, keys[0]) then
      assert [key] + keys == [key] + keys;
      [key] + keys
    else
      assert keys == [keys[0]] + keys[1..];
      [keys[0]] + InsertKey(key, keys[1..])
  }

  /** The built-in sort without comparison function. */
  function SortKeys(keys: seq<Text>): (r: seq<Text>)
    ensures multiset(r) == multiset(keys)
  {
    if keys == [] then []
    else
      assert keys == [keys[0]] + keys[1..];
      InsertKey(keys[0], SortKeys(keys[1..]))
  }

  lemma {:induction false} InsertAscending(key: Text, keys: seq<Text>)
    requires Ascending(keys) && key !in keys
    ensures Ascending(InsertKey(key, keys))
  {
    if keys != [] {
      LessTotal(key, keys[0]);
      if Less(key, keys[0]) {
        forall j | 0 < j < |keys| ensures Less(key, keys[j]) { LessTransitive(key, keys[0], keys[j]); }
      } else {
        InsertAscending(key, keys[1..]);
        var rest := InsertKey(key, keys[1..]);
        forall j | 0 <= j < |rest| ensures Less(keys[0], rest[j]) {
          assert rest[j] in multiset(rest);
        }
      }
    }
  }

  lemma {:induction false} SortAscending(keys: seq<Text>)
    requires forall i, j | 0 <= i < j < |keys| :: keys[i] != keys[j]
    ensures Ascending(SortKeys(keys))
  {
    if keys != [] {
      SortAscending(keys[1..]);
      var rest := SortKeys(keys[1..]);
      assert keys[0] in rest <==> keys[0] in multiset(rest);
      InsertAscending(keys[0], rest);
    }
  }

  /** Ascending lists with the same members are the same list. */
  lemma {:induction false} AscendingUnique(a: seq<Text>, b: seq<Text>)
    requires Ascending(a) && Ascending(b) && forall k :: k in a <==> k in b
    ensures a == b
  {
    if a == [] {
      assert forall i | 0 <= i < |b| :: b[i] in b;
    } else {
      assert a[0] in a && a[0] in b;
      assert b[0] in b && b[0] in a;
      LessTotal(a[0], b[0]);
      assert a[0] == b[0];
      forall k ensures k in a[1..] <==> k in b[1..] {
        LessTotal(a[0], a[0]);
        assert k in a <==> k == a[0] || k in a[1..];
        assert k in b <==> k == b[0] || k in b[1..];
        assert a[0] !in a[1..] && b[0] !in b[1..];
      }
      AscendingUnique(a[1..], b[1..]);
    }
  }

  // ---------------------------------------------------------------------------
  // sort

  /** The fields for the given keys, each value sorted. */
  ghost function FieldsFor(keys: seq<Text>, t: Tree): (r: seq<Field>)
    requires t.Object? && forall k | k in keys :: Find(t.fields, k).Some?
    ensures |r| == |keys|
    decreases t, 0, |keys|
  {
    if keys == [] then []
    else
      var n := |keys| - 1;
      var value := Find(t.fields, keys[n]).value;
      var i :| 0 <= i < |t.fields| && t.fields[i] == Field(keys[n], value);
      FieldsFor(keys[..n], t) + [Field(keys[n], Sorted(value))]
  }

  ghost function Sorted(t: Tree): Tree
    decreases t, 1
  {
    if t.Leaf? then t
    else
      KeysAreFound(t.fields);
      Object(FieldsFor(SortKeys(Keys(t.fields)), t))
  }

  lemma KeysAreFound(fs: seq<Field>)
    ensures forall k :: k in SortKeys(Keys(fs)) <==> Find(fs, k).Some?
  {
    forall k ensures k in SortKeys(Keys(fs)) <==> Find(fs, k).Some? {
      assert k in SortKeys(Keys(fs)) <==> k in multiset(SortKeys(Keys(fs)));
      assert k in Keys(fs) <==> exists i | 0 <= i < |fs| :: fs[i].key == k by {
        if exists i | 0 <= i < |fs| :: fs[i].key == k {
          var i :| 0 <= i < |fs| && fs[i].key == k;
          assert Keys(fs)[i] == k;
        }
      }
    }
  }

  /** Builds the fresh object key by key, in the order of the sorted keys. */
  method Sort(t: Tree) returns (r: Tree)
    requires WellFormed(t)
    ensures r == Sorted(t)
    decreases t
  {
    if t.Leaf? { return t; }
    var keys := SortKeys(Keys(t.fields));
    KeysAreFound(t.fields);
    var obj: seq<Field> := [];
    for i := 0 to |keys|
      invariant obj == FieldsFor(keys[..i], t)
    {
      assert keys[i] in keys;
      var value := Find(t.fields, keys[i]).value;
      ghost var j :| 0 <= j < |t.fields| && t.fields[j] == Field(keys[i], value);
      assert WellFormed(t.fields[j].value);
      var sub := Sort(value);
      assert keys[..i + 1][..i] == keys[..i];
      obj := obj + [Field(keys[i], sub)];
    }
    assert keys[..|keys|] == keys;
    r := Object(obj);
  }

  // ---------------------------------------------------------------------------
  // What sorting keeps

  lemma {:induction false} FieldsForAt(keys: seq<Text>, t: Tree, i: nat)
    requires t.Object? && i < |keys| && forall k | k in keys :: Find(t.fields, k).Some?
    ensures FieldsFor(keys, t)[i] == Field(keys[i], Sorted(Find(t.fields, keys[i]).value))
    decreases |keys|
  {
    if i < |keys| - 1 { FieldsForAt(keys[..|keys| - 1], t, i); }
  }

  /** A property of the sorted object is the sorted property. */
  lemma GetSorted(t: Tree, key: Text)
    requires t.Object?
    ensures Get(Sorted(t), key) == if Get(t, key).Some? then Some(Sorted(Get(t, key).value)) else None
  {
    var keys := SortKeys(Keys(t.fields));
    KeysAreFound(t.fields);
    var fs := FieldsFor(keys, t);
    forall i | 0 <= i < |fs| ensures fs[i] == Field(keys[i], Sorted(Find(t.fields, keys[i]).value)) {
      FieldsForAt(keys, t, i);
    }
    if Get(t, key).Some? {
      assert key in keys;
      var i :| 0 <= i < |keys| && keys[i] == key;
      assert fs[i].key == key;
    } else {
      assert forall i | 0 <= i < |fs| :: fs[i].key == keys[i] && keys[i] in keys;
    }
  }

  /** Sorting keeps what stands at every path. */
  lemma {:induction false} SortedLookup(t: Tree, path: seq<Text>)
    ensures Lookup(Sorted(t), path) == Lookup(t, path)
    decreases |path|
  {
    if path != [] && t.Object? {
      GetSorted(t, path[0]);
      if Get(t, path[0]).Some? { SortedLookup(Get(t, path[0]).value, path[1..]); }
    }
  }

  /** Keys ascend in every object of the tree. */
  ghost predicate AllAscending(t: Tree) {
    t.Object? ==> Ascending(Keys(t.fields)) && forall i | 0 <= i < |t.fields| :: AllAscending(t.fields[i].value)
  }

  lemma KeysAscend(t: Tree)
    requires t.Object? && DistinctKeys(t.fields)
    ensures Ascending(SortKeys(Keys(t.fields))) && Keys(Sorted(t).fields) == SortKeys(Keys(t.fields))
  {
    var keys := SortKeys(Keys(t.fields));
    assert forall i, j | 0 <= i < j < |t.fields| :: Keys(t.fields)[i] != Keys(t.fields)[j];
    SortAscending(Keys(t.fields));
    KeysAreFound(t.fields);
    forall i | 0 <= i < |keys| ensures Keys(Sorted(t).fields)[i] == keys[i] { FieldsForAt(keys, t, i); }
  }

  lemma {:induction false} SortedAscends(t: Tree)
    requires WellFormed(t)
    ensures AllAscending(Sorted(t)) && WellFormed(Sorted(t))
    decreases t
  {
    if t.Object? {
      var keys := SortKeys(Keys(t.fields));
      var s := Sorted(t);
      KeysAscend(t);
      KeysAreFound(t.fields);
      forall i | 0 <= i < |s.fields| ensures AllAscending(s.fields[i].value) && WellFormed(s.fields[i].value) {
        FieldsForAt(keys, t, i);
        assert keys[i] in keys;
        var j :| 0 <= j < |t.fields| && t.fields[j] == Field(keys[i], Find(t.fields, keys[i]).value);
        SortedAscends(t.fields[j].value);
      }
      AscendingDistinct(s.fields);
    }
  }

  lemma AscendingDistinct(fs: seq<Field>)
    requires Ascending(Keys(fs))
    ensures DistinctKeys(fs)
  {
    forall i, j | 0 <= i < j < |fs| ensures fs[i].key != fs[j].key {
      assert Less(Keys(fs)[i], Keys(fs)[j]);
      LessTotal(fs[i].key, fs[j].key);
    }
  }

  // ---------------------------------------------------------------------------
  // One sorted tree for all key orders

  /** The trees differ in nothing but the order of keys. */
  ghost predicate SameContents(a: Tree, b: Tree) {
    forall path :: Lookup(a, path) == Lookup(b, path)
  }

  lemma SameContentsBelow(a: Tree, b: Tree, key: Text)
    requires SameContents(a, b)
    ensures Get(a, key).Some? <==> Get(b, key).Some?
    ensures Get(a, key).Some? ==> SameContents(Get(a, key).value, Get(b, key).value)
  {
    LookupStep(a, key, []);
    LookupStep(b, key, []);
    assert Lookup(a, [key] + []) == Lookup(b, [key] + []);
    if Get(a, key).Some? {
      assert Get(b, key).Some?;
      forall path ensures Lookup(Get(a, key).value, path) == Lookup(Get(b, key).value, path) {
        LookupStep(a, key, path);
        LookupStep(b, key, path);
        assert Lookup(a, [key] + path) == Lookup(b, [key] + path);
      }
    }
  }

  lemma LookupStep(t: Tree, key: Text, path: seq<Text>)
    ensures Lookup(t, [key] + path) == if Get(t, key).None? then None else Lookup(Get(t, key).value, path)
    ensures path == [] && Get(t, key).Some? ==> Lookup(t, [key] + path).Some?
  {
    assert ([key] + path)[1..] == path && ([key] + path)[0] == key;
  }

  lemma SameKeys(a: Tree, b: Tree)
    requires WellFormed(a) && WellFormed(b) && SameContents(a, b) && a.Object? && b.Object?
    ensures SortKeys(Keys(a.fields)) == SortKeys(Keys(b.fields))
  {
    var ka, kb := SortKeys(Keys(a.fields)), SortKeys(Keys(b.fields));
    KeysAreFound(a.fields);
    KeysAreFound(b.fields);
    forall k ensures k in ka <==> k in kb { SameContentsBelow(a, b, k); }
    KeysAscend(a);
    KeysAscend(b);
    AscendingUnique(ka, kb);
  }

  lemma {:induction false} SameContentsSameSort(a: Tree, b: Tree)
    requires WellFormed(a) && WellFormed(b) && SameContents(a, b)
    ensures Sorted(a) == Sorted(b)
    decreases a, 2
  {
    assert Lookup(a, []) == Lookup(b, []);
    if a.Object? {
      var keys := SortKeys(Keys(a.fields));
      KeysAreFound(a.fields);
      KeysAreFound(b.fields);
      SameKeys(a, b);
      SameFieldsFor(a, b, keys);
    }
  }

  lemma SameFieldsFor(a: Tree, b: Tree, keys: seq<Text>)
    requires WellFormed(a) && WellFormed(b) && SameContents(a, b) && a.Object? && b.Object?
    requires forall k | k in keys :: Find(a.fields, k).Some? && Find(b.fields, k).Some?
    ensures FieldsFor(keys, a) == FieldsFor(keys, b)
    decreases a, 1
  {
    forall i | 0 <= i < |keys| ensures FieldsFor(keys, a)[i] == FieldsFor(keys, b)[i] {
      assert keys[i] in keys;
      FieldsForAt(keys, a, i);
      FieldsForAt(keys, b, i);
      SameValueSort(a, b, keys[i]);
    }
  }

  lemma SameValueSort(a: Tree, b: Tree, key: Text)
    requires WellFormed(a) && WellFormed(b) && SameContents(a, b)
    requires a.Object? && b.Object? && Find(a.fields, key).Some? && Find(b.fields, key).Some?
    ensures Sorted(Find(a.fields, key).value) == Sorted(Find(b.fields, key).value)
    decreases a, 0
  {
    SameContentsBelow(a, b, key);
    var va, vb := Find(a.fields, key).value, Find(b.fields, key).value;
    var i :| 0 <= i < |a.fields| && a.fields[i] == Field(key, va);
    var j :| 0 <= j < |b.fields| && b.fields[j] == Field(key, vb);
    assert WellFormed(a.fields[i].value) && WellFormed(b.fields[j].value);
    SameContentsSameSort(va, vb);
  }

  /** Two trees sort to the same tree exactly when they differ in key order only. */
  lemma {:induction false} SortIsCanonical(a: Tree, b: Tree)
    requires WellFormed(a) && WellFormed(b)
    ensures Sorted(a) == Sorted(b) <==> SameContents(a, b)
  {
    if SameContents(a, b) { SameContentsSameSort(a, b); }
    if Sorted(a) == Sorted(b) {
      forall path ensures Lookup(a, path) == Lookup(b, path) {
        SortedLookup(a, path);
        SortedLookup(b, path);
      }
    }
  }

  lemma {:induction false} SortTwice(t: Tree)
    requires WellFormed(t)
    ensures Sorted(Sorted(t)) == Sorted(t)
  {
    SortedAscends(t);
    forall path ensures Lookup(Sorted(t), path) == Lookup(t, path) { SortedLookup(t, path); }
    SortIsCanonical(Sorted(t), t);
  }
}
