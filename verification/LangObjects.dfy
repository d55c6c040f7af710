/**
  The fill command as it runs: on objects that are changed in place. Only the target is on the
  heap; the source is never written to. The trees of the target's objects are what the
  specification of fill speaks about.
 */
module LangObjects {
  import opened LangTrees
  import opened Units
  import opened Wrappers

  datatype Value = TextValue(text: Text) | ObjectValue(obj: JsObject)
  datatype Slot = Slot(key: Text, value: Value)

  /** The slot of the key, or the number of slots when there is none. */
  predicate Places(slots: seq<Slot>, i: nat, key: Text) {
    && i <= |slots|
    && (forall k | 0 <= k < i :: slots[k].key != key)
    && (i < |slots| ==> slots[i].key == key)
  }

  class JsObject {
    var slots: seq<Slot>
    /** This object and all objects below it. */
    ghost var Repr: set<JsObject>

    /** The objects below form a tree: no object is reached twice. */
    ghost predicate Valid()
      reads this, Repr
      decreases Repr
    {
      && this in Repr
      && (forall i | 0 <= i < |slots| && slots[i].value.ObjectValue? ::
            var o := slots[i].value.obj;
            o in Repr && o.Repr <= Repr && this !in o.Repr && o.Valid())
      && (forall i, j | 0 <= i < j < |slots| && slots[i].value.ObjectValue? && slots[j].value.ObjectValue? ::
            slots[i].value.obj.Repr !! slots[j].value.obj.Repr)
    }

    ghost function TreeAt(i: nat): Tree
      requires Valid() && i < |slots|
      reads this, Repr
      decreases Repr, 0
    {
      match slots[i].value
      case TextValue(text) => Leaf(text)
      case ObjectValue(o) => o.Contents()
    }

    ghost function FieldsTo(n: nat): (r: seq<Field>)
      requires Valid() && n <= |slots|
      reads this, Repr
      ensures |r| == n && forall i | 0 <= i < n :: r[i] == Field(slots[i].key, TreeAt(i))
      decreases Repr, 1, n
    {
      if n == 0 then [] else FieldsTo(n - 1) + [Field(slots[n - 1].key, TreeAt(n - 1))]
    }

    ghost function Contents(): (t: Tree)
      requires Valid()
      reads this, Repr
      ensures t.Object?
      decreases Repr, 2
    {
      Object(FieldsTo(|slots|))
    }

    constructor ()
      ensures Valid() && fresh(Repr) && Contents() == Object([])
    {
      slots, Repr := [], {this};
    }

    method IndexOf(key: Text) returns (i: nat)
      ensures Places(slots, i, key)
    {
      i := 0;
      while i < |slots| && slots[i].key != key
        invariant i <= |slots| && forall k | 0 <= k < i :: slots[k].key != key
      {
        i := i + 1;
      }
    }
  }

  ghost predicate ValidValue(v: Value)
    reads ReprOf(v)
    reads if v.ObjectValue? then {v.obj} else {}
  {
    v.ObjectValue? ==> v.obj.Valid()
  }

  ghost function ReprOf(v: Value): set<JsObject>
    reads if v.ObjectValue? then {v.obj} else {}
  {
    if v.ObjectValue? then v.obj.Repr else {}
  }

  ghost function TreeOf(v: Value): Tree
    requires ValidValue(v)
    reads ReprOf(v)
    reads if v.ObjectValue? then {v.obj} else {}
  {
    match v
    case TextValue(text) => Leaf(text)
    case ObjectValue(o) => o.Contents()
  }

  // ---------------------------------------------------------------------------
  // Properties by position

  lemma {:induction false} SetFieldAt(fs: seq<Field>, key: Text, value: Tree, i: nat)
    requires i <= |fs| && (forall k | 0 <= k < i :: fs[k].key != key) && (i < |fs| ==> fs[i].key == key)
    ensures SetField(fs, key, value) == if i < |fs| then fs[i := Field(key, value)] else fs + [Field(key, value)]
  {
    if fs != [] && i > 0 {
      SetFieldAt(fs[1..], key, value, i - 1);
      assert fs == [fs[0]] + fs[1..];
    } else if fs != [] {
      assert fs[0 := Field(key, value)] == [Field(key, value)] + fs[1..];
    }
  }

  lemma {:induction false} FindAt(fs: seq<Field>, key: Text, i: nat)
    requires i <= |fs| && (forall k | 0 <= k < i :: fs[k].key != key) && (i < |fs| ==> fs[i].key == key)
    ensures Find(fs, key) == if i < |fs| then Some(fs[i].value) else None
  {
    if fs != [] && i > 0 { FindAt(fs[1..], key, i - 1); }
  }

  // ---------------------------------------------------------------------------
  // fill

  ghost function TreeOfOption(v: Option<Value>): Option<Tree>
    requires v.Some? ==> ValidValue(v.value)
    reads if v.Some? then ReprOf(v.value) else {}
    reads if v.Some? && v.value.ObjectValue? then {v.value.obj} else {}
  {
    if v.Some? then Some(TreeOf(v.value)) else None
  }

  /** None of these objects changed. */
  twostate predicate Same(objects: set<JsObject>)
    reads objects
  {
    forall x | x in objects :: unchanged(x)
  }

  /** An object none of whose objects changed has the same contents. */
  twostate lemma {:induction false} Untouched(o: JsObject)
    requires old(o.Valid()) && Same(old(o.Repr))
    ensures o.Valid() && o.Repr == old(o.Repr) && o.Contents() == old(o.Contents())
    decreases old(o.Repr)
  {}

  /** The slots with the i-th set, or one more when there is no i-th. */
  function WithSlot(slots: seq<Slot>, i: nat, slot: Slot): (r: seq<Slot>)
    requires i <= |slots|
    ensures |r| == if i < |slots| then |slots| else |slots| + 1
    ensures forall k | 0 <= k < |r| :: r[k] == if k == i then slot else slots[k]
  {
    if i < |slots| then slots[i := slot] else slots + [slot]
  }

  /** Only the i-th slot of `o` was set, to a value that shares nothing with the others. */
  twostate predicate OneSlotSet(o: JsObject, new i: nat, new key: Text, new v: Value)
    requires old(o.Valid()) && i <= old(|o.slots|)
    reads o, ReprOf(v)
    reads if v.ObjectValue? then {v.obj} else {}
    reads o.Repr
  {
    && o.slots == WithSlot(old(o.slots), i, Slot(key, v))
    && o.Repr == old(o.Repr) + ReprOf(v)
    && ValidValue(v) && o !in ReprOf(v) && (v.ObjectValue? ==> v.obj in ReprOf(v))
    && forall k | 0 <= k < old(|o.slots|) && k != i && old(o.slots[k].value.ObjectValue?) ::
         old(o.slots[k].value.obj.Repr) !! ReprOf(v) && Same(old(o.slots[k].value.obj.Repr))
  }

  twostate lemma {:induction false} SlotsApart(o: JsObject, new i: nat, new key: Text, new v: Value)
    requires old(o.Valid()) && i <= old(|o.slots|) && OneSlotSet(o, i, key, v)
    ensures o.Valid()
    ensures forall k | 0 <= k < |o.slots| ::
      o.TreeAt(k) == if k == i then TreeOf(v) else old(o.TreeAt(k))
  {
    forall k | 0 <= k < old(|o.slots|) && k != i && old(o.slots[k].value.ObjectValue?)
      ensures var c := old(o.slots[k].value.obj);
        c.Valid() && c.Repr == old(c.Repr) && c.Contents() == old(c.Contents())
    {
      Untouched(old(o.slots[k].value.obj));
    }
  }

  /** An object whose slots show `was` with the i-th set. */
  lemma ContentsAfter(o: JsObject, was: seq<Field>, i: nat, key: Text, t: Tree)
    requires o.Valid() && i <= |was| && |o.slots| == if i < |was| then |was| else |was| + 1
    requires (forall k | 0 <= k < i :: was[k].key != key) && (i < |was| ==> was[i].key == key)
    requires forall k | 0 <= k < |o.slots| ::
      Field(o.slots[k].key, o.TreeAt(k)) == if k == i then Field(key, t) else was[k]
    ensures o.Contents() == Set(Object(was), key, t)
  {
    SetFieldAt(was, key, t, i);
    assert o.Contents().fields == SetField(was, key, t);
  }

  /** Such a step sets the property and nothing else. */
  twostate lemma {:induction false} PropertySet(o: JsObject, new i: nat, new key: Text, new v: Value)
    requires old(o.Valid()) && Places(old(o.slots), i, key) && OneSlotSet(o, i, key, v)
    ensures o.Valid() && o.Contents() == Set(old(o.Contents()), key, TreeOf(v))
  {
    SlotsApart(o, i, key, v);
    ContentsAfter(o, old(o.Contents()).fields, i, key, TreeOf(v));
  }

  /** `target[key] = text`. */
  method PutText(o: JsObject, key: Text, text: Text)
    requires o.Valid()
    modifies o`slots
    ensures o.Valid() && o.Contents() == Set(old(o.Contents()), key, Leaf(text))
  {
    var i := o.IndexOf(key);
    o.slots := WithSlot(o.slots, i, Slot(key, TextValue(text)));
    PropertySet(o, i, key, TextValue(text));
  }

  /** Fills what is at the slot and stores it there; only objects below that slot change. */
  method FillSlot(o: JsObject, i: nat, key: Text, before: Option<Value>, source: Tree) returns (after: Value)
    requires o.Valid() && source.Object? && i <= |o.slots|
    requires before == if i < |o.slots| then Some(o.slots[i].value) else None
    requires before.Some? ==> ValidValue(before.value)
    modifies o.Repr
    ensures OneSlotSet(o, i, key, after) && fresh(o.Repr - old(o.Repr))
    ensures TreeOf(after) == FillSpec(old(TreeOfOption(before)), source)
    decreases source, 2
  {
    after := Fill(before, source);
    o.slots := WithSlot(o.slots, i, Slot(key, after));
    o.Repr := o.Repr + ReprOf(after);
  }

  /** `target[key] = fill(target[key], source)`. */
  method FillField(o: JsObject, key: Text, source: Tree)
    requires o.Valid() && source.Object?
    modifies o.Repr
    ensures o.Valid() && fresh(o.Repr - old(o.Repr))
    ensures o.Contents() == Set(old(o.Contents()), key, FillSpec(Get(old(o.Contents()), key), source))
    decreases source, 3
  {
    var i, before := Property(o, key);
    var after := FillSlot(o, i, key, before, source);
    PropertySet(o, i, key, after);
  }

  /** `o[key]`, with its position. */
  method Property(o: JsObject, key: Text) returns (i: nat, v: Option<Value>)
    requires o.Valid()
    ensures Places(o.slots, i, key) && v == if i < |o.slots| then Some(o.slots[i].value) else None
    ensures v.Some? ==> ValidValue(v.value)
    ensures TreeOfOption(v) == Get(o.Contents(), key)
  {
    i := o.IndexOf(key);
    v := if i < |o.slots| then Some(o.slots[i].value) else None;
    FindAt(o.Contents().fields, key, i);
  }

  /** One round of the loop on an object. */
  method FillOne(o: JsObject, field: Field)
    requires o.Valid()
    modifies o.Repr
    ensures o.Valid() && fresh(o.Repr - old(o.Repr))
    ensures o.Contents()
         == Set(old(o.Contents()), field.key, Merged(Get(old(o.Contents()), field.key), field.value))
    decreases field.value, 4
  {
    var key := field.key;
    if field.value.Object? {
      FillField(o, key, field.value);
    } else {
      var i, v := Property(o, key);
      if v.None? || v.value == TextValue([]) {
        PutText(o, key, field.value.text);
      } else {
        SetSame(o.Contents(), key);
      }
    }
  }

  /** What the recursive call computes: the target itself is returned, changed in place, with what
      the specification of fill says in it. */
  method Fill(target: Option<Value>, source: Tree) returns (r: Value)
    requires source.Object? && (target.Some? ==> ValidValue(target.value))
    modifies if target.Some? then ReprOf(target.value) else {}
    ensures ValidValue(r) && TreeOf(r) == FillSpec(old(TreeOfOption(target)), source)
    ensures if target.Some? then r == target.value && fresh(ReprOf(r) - old(ReprOf(target.value)))
            else fresh(ReprOf(r))
    decreases source, 1
  {
    var fs := source.fields;
    if target.Some? && target.value.TextValue? {
      DropAll(source);
      LeafStays(target.value.text, fs);
      return target.value;
    }
    var o;
    if target.Some? { o := target.value.obj; } else { o := new JsObject(); }
    ghost var before := o.Repr;
    ghost var spec := FillWith(o.Contents(), fs);
    for i := 0 to |fs|
      invariant o.Valid() && fresh(o.Repr - before)
      invariant FillWith(o.Contents(), fs[i..]) == spec
    {
      assert fs[i..][0] == fs[i] && fs[i..][1..] == fs[i + 1..];
      FillOne(o, fs[i]);
    }
    assert fs[|fs|..] == [];
    r := ObjectValue(o);
  }

  /** On a text the loop only builds objects that are dropped. */
  method DropAll(source: Tree)
    requires source.Object?
    decreases source, 0
  {
    for i := 0 to |source.fields| {
      if source.fields[i].value.Object? {
        var dropped := Fill(None, source.fields[i].value);
      }
    }
  }
}
