/**
  The trees of translation files, whose leaves are texts, and the fill command on them. An
  object is a list of fields in insertion order with distinct keys; keys are sequences of
  UTF-16 code units and none is an array index, so the list order is the order JavaScript
  keeps.
 */
module LangTrees {
  import opened Sequences
  import opened Units
  import opened Wrappers

  datatype Tree = Leaf(text: Text) | Object(fields: seq<Field>)
  datatype Field = Field(key: Text, value: Tree)

  ghost predicate DistinctKeys(fs: seq<Field>) {
    forall i, j | 0 <= i < j < |fs| :: fs[i].key != fs[j].key
  }

  ghost predicate WellFormed(t: Tree) {
    t.Object? ==> DistinctKeys(t.fields) && forall i | 0 <= i < |t.fields| :: WellFormed(t.fields[i].value)
  }

  function Keys(fs: seq<Field>): (r: seq<Text>)
    ensures |r| == |fs|
  {
    seq(|fs|, i requires 0 <= i < |fs| => fs[i].key)
  }

  // ---------------------------------------------------------------------------
  // Properties of an object

  function Find(fs: seq<Field>, key: Text): (r: Option<Tree>)
    ensures r.Some? <==> exists i | 0 <= i < |fs| :: fs[i].key == key
    ensures r.Some? ==> exists i | 0 <= i < |fs| :: fs[i] == Field(key, r.value)
  {
    if fs == [] then None
    else if fs[0].key == key then Some(fs[0].value)
    else Find(fs[1..], key)
  }

  /** Reading a property; a text has none of these keys. */
  function Get(t: Tree, key: Text): Option<Tree> {
    if t.Leaf? then None else Find(t.fields, key)
  }

  function SetField(fs: seq<Field>, key: Text, value: Tree): (r: seq<Field>)
    ensures forall k :: Find(r, k) == if k == key then Some(value) else Find(fs, k)
  {
    if fs == [] then
      var r := [Field(key, value)];
      assert r[1..] == [];
      r
    else if fs[0].key == key then
      var r := [Field(key, value)] + fs[1..];
      assert r[1..] == fs[1..];
      r
    else
      var r := [fs[0]] + SetField(fs[1..], key, value);
      assert r[1..] == SetField(fs[1..], key, value);
      r
  }

  /** Writing a property: in place if the key is there, else at the end; on a text it has no
      effect. */
  function Set(t: Tree, key: Text, value: Tree): Tree {
    if t.Leaf? then t else Object(SetField(t.fields, key, value))
  }

  /** A missing property and the empty text count as false. */
  predicate Falsy(t: Option<Tree>) {
    t.None? || t.value == Leaf([])
  }

  // ---------------------------------------------------------------------------
  // Paths

  datatype Node = TextNode(text: Text) | InnerNode

  function NodeOf(t: Tree): Node {
    if t.Leaf? then TextNode(t.text) else InnerNode
  }

  /** What stands at the end of a path, if the path leads anywhere. */
  function Lookup(t: Tree, path: seq<Text>): Option<Node>
    decreases |path|
  {
    if path == [] then Some(NodeOf(t))
    else
      match Get(t, path[0])
      case None => None
      case Some(sub) => Lookup(sub, path[1..])
  }

  // ---------------------------------------------------------------------------
  // fill

  /** The property `key` of the target after its field of the source was merged in. */
  function Merged(was: Option<Tree>, value: Tree): Tree
    decreases value, 1
  {
    if value.Object? then FillWith(if was.None? then Object([]) else was.value, value.fields)
    else if Falsy(was) then value
    else was.value
  }

  /** The target after the fields of the source have been merged in one by one. */
  function FillWith(t: Tree, fs: seq<Field>): Tree
    decreases fs
  {
    if fs == [] then t
    else FillWith(Set(t, fs[0].key, Merged(Get(t, fs[0].key), fs[0].value)), fs[1..])
  }

  function FillSpec(target: Option<Tree>, source: Tree): Tree
    requires source.Object?
  {
    FillWith(if target.None? then Object([]) else target.value, source.fields)
  }

  lemma SetSame(t: Tree, key: Text)
    requires Get(t, key).Some?
    ensures Set(t, key, Get(t, key).value) == t
  {
    SetFieldSame(t.fields, key);
  }

  lemma {:induction false} SetFieldSame(fs: seq<Field>, key: Text)
    requires Find(fs, key).Some?
    ensures SetField(fs, key, Find(fs, key).value) == fs
  {
    if fs[0].key != key {
      SetFieldSame(fs[1..], key);
      assert fs == [fs[0]] + fs[1..];
    } else {
      assert fs == [Field(key, fs[0].value)] + fs[1..];
    }
  }

  // ---------------------------------------------------------------------------
  // What fill does, path by path

  lemma {:induction false} LeafStays(text: Text, fs: seq<Field>)
    ensures FillWith(Leaf(text), fs) == Leaf(text)
  {
    if fs != [] { LeafStays(text, fs[1..]); }
  }

  lemma {:induction false} ObjectStays(t: Tree, fs: seq<Field>)
    requires t.Object?
    ensures FillWith(t, fs).Object?
    decreases |fs|
  {
    if fs != [] { ObjectStays(Set(t, fs[0].key, Merged(Get(t, fs[0].key), fs[0].value)), fs[1..]); }
  }

  /** Each property of the result: merged if the source has the key, else the target's. */
  lemma {:induction false} GetFill(t: Tree, fs: seq<Field>, key: Text)
    requires t.Object? && DistinctKeys(fs)
    ensures FillWith(t, fs).Object?
    ensures Get(FillWith(t, fs), key) ==
      if Find(fs, key).Some? then Some(Merged(Get(t, key), Find(fs, key).value)) else Get(t, key)
    decreases |fs|
  {
    if fs != [] {
      var next := Set(t, fs[0].key, Merged(Get(t, fs[0].key), fs[0].value));
      GetFill(next, fs[1..], key);
      if fs[0].key == key {
        assert forall i | 0 <= i < |fs[1..]| :: fs[1..][i].key == fs[i + 1].key != key;
        assert Find(fs[1..], key).None?;
      }
    }
  }

  /** The node of the result, from the nodes of target and source at the same path: what the
      target has stays, unless it is the empty text and the source has a text; where the target
      has nothing the source decides, unless a text of the target blocks the way. */
  function FillNode(target: Option<Node>, source: Option<Node>, blocked: bool): Option<Node> {
    match target
    case Some(TextNode(x)) => if x == [] && source.Some? && source.value.TextNode? then source else target
    case Some(InnerNode) => target
    case None => if blocked then None else source
  }

  /** Some proper prefix of the path ends at a text of the tree. */
  predicate Blocked(t: Tree, path: seq<Text>) {
    path != [] && (t.Leaf? || (Get(t, path[0]).Some? && Blocked(Get(t, path[0]).value, path[1..])))
  }

  lemma {:induction false} FillLookup(target: Option<Tree>, source: Tree, path: seq<Text>)
    requires WellFormed(source)
    ensures Lookup(Merged(target, source), path) ==
      match target
      case None => Lookup(source, path)
      case Some(t) => FillNode(Lookup(t, path), Lookup(source, path), Blocked(t, path))
    decreases |path|
  {
    if source.Object? {
      var t := if target.None? then Object([]) else target.value;
      if t.Leaf? {
        LeafStays(t.text, source.fields);
      } else {
        ObjectStays(t, source.fields);
        if path != [] {
          GetFill(t, source.fields, path[0]);
          if Find(source.fields, path[0]).Some? {
            var i :| 0 <= i < |source.fields| &&
                     source.fields[i] == Field(path[0], Find(source.fields, path[0]).value);
            assert WellFormed(source.fields[i].value);
            FillLookup(Get(t, path[0]), Find(source.fields, path[0]).value, path[1..]);
          } else if Get(t, path[0]).Some? {
            NothingToMerge(Get(t, path[0]).value, path[1..]);
          }
        }
      }
    } else if target.Some? {
      var t := target.value;
      if path != [] && t.Object? && Get(t, path[0]).Some? {
        NothingToMerge(Get(t, path[0]).value, path[1..]);
      }
    }
  }

  lemma NothingToMerge(t: Tree, path: seq<Text>)
    ensures FillNode(Lookup(t, path), None, Blocked(t, path)) == Lookup(t, path)
  {}

  // ---------------------------------------------------------------------------
  // When every path of the source arrives

  /** The target has a text where the source has an inner node with something in it. */
  predicate Clash(t: Tree, source: Tree)
    decreases source
  {
    source.Object? &&
    if t.Leaf? then source.fields != []
    else exists i | 0 <= i < |source.fields| ::
      Get(t, source.fields[i].key).Some? && Clash(Get(t, source.fields[i].key).value, source.fields[i].value)
  }

  ghost predicate Covers(r: Tree, source: Tree) {
    forall path :: Lookup(source, path).Some? ==> Lookup(r, path).Some?
  }

  lemma {:induction false} FindDistinct(fs: seq<Field>, i: nat)
    requires DistinctKeys(fs) && i < |fs|
    ensures Find(fs, fs[i].key) == Some(fs[i].value)
  {
    if i > 0 {
      FindDistinct(fs[1..], i - 1);
      assert fs[0].key != fs[i].key;
    }
  }

  /** A path of the source that the target blocks exists exactly when the two clash. */
  lemma {:induction false} ClashIsBlockedPath(t: Tree, source: Tree) returns (path: seq<Text>)
    requires WellFormed(source) && Clash(t, source)
    ensures Lookup(source, path).Some? && Lookup(t, path).None? && Blocked(t, path)
    decreases source
  {
    if t.Leaf? {
      path := [source.fields[0].key];
      FindDistinct(source.fields, 0);
      assert path[1..] == [];
    } else {
      var i :| 0 <= i < |source.fields| && Get(t, source.fields[i].key).Some?
               && Clash(Get(t, source.fields[i].key).value, source.fields[i].value);
      var rest := ClashIsBlockedPath(Get(t, source.fields[i].key).value, source.fields[i].value);
      FindDistinct(source.fields, i);
      path := [source.fields[i].key] + rest;
      assert path[1..] == rest;
    }
  }

  lemma {:induction false} BlockedPathIsClash(t: Tree, source: Tree, path: seq<Text>)
    requires WellFormed(source) && Lookup(source, path).Some? && Blocked(t, path)
    ensures Clash(t, source)
    decreases |path|
  {
    var sub := Get(source, path[0]).value;
    var i :| 0 <= i < |source.fields| && source.fields[i] == Field(path[0], sub);
    if t.Object? {
      assert WellFormed(source.fields[i].value);
      BlockedPathIsClash(Get(t, path[0]).value, sub, path[1..]);
      assert Clash(Get(t, source.fields[i].key).value, source.fields[i].value);
    }
  }

  /** Every path of the source arrives in the result exactly when the target has no text where
      the source has a non-empty inner node. */
  lemma {:induction false} CoversUnlessClash(target: Tree, source: Tree)
    requires WellFormed(source) && source.Object?
    ensures Covers(FillSpec(Some(target), source), source) <==> !Clash(target, source)
  {
    var r := FillSpec(Some(target), source);
    assert r == Merged(Some(target), source);
    if Clash(target, source) {
      var path := ClashIsBlockedPath(target, source);
      FillLookup(Some(target), source, path);
      assert Lookup(r, path).None?;
    } else {
      forall path | Lookup(source, path).Some? ensures Lookup(r, path).Some? {
        FillLookup(Some(target), source, path);
        if Blocked(target, path) { BlockedPathIsClash(target, source, path); }
      }
    }
  }

  /** Every non-empty value and every inner node of the target stays, and nothing appears that
      neither tree has. */
  lemma {:induction false} FillKeepsAndAddsNothing(target: Tree, source: Tree, path: seq<Text>)
    requires WellFormed(source) && source.Object?
    ensures var r := FillSpec(Some(target), source);
      && (Lookup(target, path).Some? && Lookup(target, path) != Some(TextNode([])) ==>
            Lookup(r, path) == Lookup(target, path))
      && (Lookup(r, path).Some? ==> Lookup(r, path) == Lookup(target, path) || Lookup(r, path) == Lookup(source, path))
  {
    FillLookup(Some(target), source, path);
    assert FillSpec(Some(target), source) == Merged(Some(target), source);
  }

  /** A text stands somewhere on the way, before the end of the path. */
  ghost predicate TextOnTheWay(t: Tree, path: seq<Text>) {
    exists n: nat :: n < |path| && TextAt(t, path[..n])
  }

  predicate TextAt(t: Tree, path: seq<Text>) {
    Lookup(t, path).Some? && Lookup(t, path).value.TextNode?
  }

  lemma {:induction false} BlockedIs(t: Tree, path: seq<Text>)
    ensures Blocked(t, path) <==> TextOnTheWay(t, path)
    decreases |path|
  {
    if path != [] {
      if t.Leaf? {
        assert TextAt(t, path[..0]);
      } else if Get(t, path[0]).Some? {
        var sub := Get(t, path[0]).value;
        BlockedIs(sub, path[1..]);
        forall n: nat | n < |path| - 1 ensures TextAt(t, path[..n + 1]) <==> TextAt(sub, path[1..][..n]) {
          assert path[..n + 1][1..] == path[1..][..n];
        }
        if n: nat :| n < |path| && TextAt(t, path[..n]) {
          assert n > 0 && TextAt(sub, path[1..][..n - 1]);
        }
      }
    }
  }

  /** What the target lacks comes from the source, and its empty texts are filled from there. */
  lemma {:induction false} FillAdds(target: Tree, source: Tree, path: seq<Text>)
    requires WellFormed(source) && source.Object?
    ensures var r := FillSpec(Some(target), source);
      && (Lookup(target, path) == Some(TextNode([])) ==>
            Lookup(r, path) == if TextAt(source, path) then Lookup(source, path) else Some(TextNode([])))
      && (Lookup(target, path) == None ==>
            Lookup(r, path) == if TextOnTheWay(target, path) then None else Lookup(source, path))
    ensures Lookup(FillSpec(None, source), path) == Lookup(source, path)
  {
    FillLookup(Some(target), source, path);
    FillLookup(None, source, path);
    BlockedIs(target, path);
    assert FillSpec(Some(target), source) == Merged(Some(target), source);
    assert FillSpec(None, source) == Merged(None, source);
  }

  // ---------------------------------------------------------------------------
  // The order of keys

  function Outside(had: seq<Text>): Text -> bool {
    key => key !in had
  }

  lemma {:induction false} FillKeys(t: Tree, fs: seq<Field>)
    requires t.Object? && DistinctKeys(fs)
    ensures FillWith(t, fs).Object?
    ensures Keys(FillWith(t, fs).fields) == Keys(t.fields) + Select(Keys(fs), Outside(Keys(t.fields)))
    decreases |fs|
  {
    if fs != [] {
      var next := Set(t, fs[0].key, Merged(Get(t, fs[0].key), fs[0].value));
      FillKeys(next, fs[1..]);
      KeysOfFirst(t, fs, next.fields);
    }
  }

  lemma KeysOfFirst(t: Tree, fs: seq<Field>, next: seq<Field>)
    requires t.Object? && DistinctKeys(fs) && fs != []
    requires next == SetField(t.fields, fs[0].key, Merged(Get(t, fs[0].key), fs[0].value))
    ensures Keys(next) + Select(Keys(fs[1..]), Outside(Keys(next)))
         == Keys(t.fields) + Select(Keys(fs), Outside(Keys(t.fields)))
  {
    KeysAfterSet(t.fields, fs[0].key, Merged(Get(t, fs[0].key), fs[0].value));
    OneKeyMore(Keys(t.fields), fs[0].key, Keys(fs[1..]), Outside(Keys(t.fields)), Outside(Keys(next)));
    assert Keys(fs) == [fs[0].key] + Keys(fs[1..]);
  }

  lemma OneKeyMore(had: seq<Text>, key: Text, rest: seq<Text>, p: Text -> bool, q: Text -> bool)
    requires forall k | k in rest :: p(k) == q(k)
    ensures had + (if p(key) then [key] else []) + Select(rest, q) == had + Select([key] + rest, p)
  {
    SameSelection(rest, p, q);
    assert ([key] + rest)[1..] == rest;
  }

  lemma {:induction false} KeysAfterSet(fs: seq<Field>, key: Text, value: Tree)
    ensures Keys(SetField(fs, key, value)) == Keys(fs) + if key in Keys(fs) then [] else [key]
  {
    if fs != [] {
      assert Keys(fs) == [fs[0].key] + Keys(fs[1..]);
      if fs[0].key != key {
        KeysAfterSet(fs[1..], key, value);
        var r := SetField(fs, key, value);
        assert Keys(r) == [fs[0].key] + Keys(r[1..]);
      }
    }
  }

  /** The target's keys keep their places, and behind them come the source's other keys in the
      order they have there. */
  lemma FillKeepsKeyOrder(t: Tree, fs: seq<Field>)
    requires t.Object? && DistinctKeys(fs)
    ensures FillWith(t, fs).Object?
    ensures var had, has := Keys(t.fields), Keys(FillWith(t, fs).fields);
      |had| <= |has| && has[..|had|] == had && KeptInOrder(has[|had|..], Keys(fs), key => key !in had)
  {
    var had := Keys(t.fields);
    FillKeys(t, fs);
    SelectKeeps(Keys(fs), Outside(had));
    var at: seq<nat> :| Picks(at, Select(Keys(fs), Outside(had)), Keys(fs), Outside(had));
    assert Picks(at, Select(Keys(fs), Outside(had)), Keys(fs), key => key !in had);
  }

  // ---------------------------------------------------------------------------
  // Filling twice

  /** Merging into the outcome of merging changes nothing. */
  lemma {:induction false} MergedTwice(target: Option<Tree>, source: Tree)
    requires WellFormed(source)
    ensures Merged(Some(Merged(target, source)), source) == Merged(target, source)
    decreases source, 1
  {
    if source.Object? {
      var t := if target.None? then Object([]) else target.value;
      if t.Leaf? {
        LeafStays(t.text, source.fields);
      } else {
        var r := FillWith(t, source.fields);
        forall i | 0 <= i < |source.fields|
          ensures var f := source.fields[i];
            Get(r, f.key).Some? && Merged(Get(r, f.key), f.value) == Get(r, f.key).value
        {
          var f := source.fields[i];
          GetFill(t, source.fields, f.key);
          FindDistinct(source.fields, i);
          assert WellFormed(f.value);
          MergedTwice(Get(t, f.key), f.value);
        }
        ObjectStays(t, source.fields);
        NothingChanges(r, source.fields);
      }
    }
  }

  lemma {:induction false} NothingChanges(r: Tree, fs: seq<Field>)
    requires r.Object?
    requires forall i | 0 <= i < |fs| ::
      Get(r, fs[i].key).Some? && Merged(Get(r, fs[i].key), fs[i].value) == Get(r, fs[i].key).value
    ensures FillWith(r, fs) == r
  {
    if fs != [] {
      SetSame(r, fs[0].key);
      NothingChanges(r, fs[1..]);
    }
  }

  /** Filling a filled target changes nothing. */
  lemma {:induction false} FillTwice(target: Option<Tree>, source: Tree)
    requires WellFormed(source) && source.Object?
    ensures FillSpec(Some(FillSpec(target, source)), source) == FillSpec(target, source)
  {
    MergedTwice(target, source);
  }
}
