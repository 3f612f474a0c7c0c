/** The arena encoder of bean.go:103-260: a value is flattened into the node
    list of a `MiddleValueList`, one node per value, composite values reserving a
    contiguous block for their children. Its specification is `Abstract`, the
    tree a value denotes. */
module Encoder {
  import opened Wrappers
  import opened GoTypes
  import opened FieldOrder
  import opened FieldResolver
  import opened Dominance
  import opened FieldScan
  import opened ValueWalk
  import opened Arena

  /** bean.go:145-150: only string keys name a map entry. */
  function MapKey(key: Value): (r: Option<string>)
    ensures r.Some? <==> key.Prim? && key.kind == String && key.lit.StringLit?
    ensures r.Some? ==> r.value == key.lit.s
  {
    if key.Prim? && key.kind == String && key.lit.StringLit? then Some(key.lit.s) else None
  }

  /** The tree the encoder builds for `v` (bean.go:152-260): scalars become leaves,
      nil pointers and interfaces nothing, non-nil ones what they refer to,
      sequences their elements in order, maps their string-keyed entries in
      iteration order followed by one unnamed empty entry per skipped key, and
      structs their visible fields in index order, a field behind a nil embedded
      pointer being an empty entry. Kinds without an encoder denote nothing. A
      node is unnamed until its parent names it (bean.go:221, bean.go:259). */
  function Abstract(v: Value): Tree
    decreases Height(v), 1, 0
  {
    match v
    case Prim(_, _) => Leaf(v)
    case Pointer(_, t) => if t.None? then Null else Abstract(t.value)
    case Iface(h) => if h.None? then Null else Abstract(h.value)
    case SliceOf(_, _, items) => Items(ItemTrees(items))
    case ArrayOf(_, items) => Items(ItemTrees(items))
    case MapOf(_, _, _, es) =>
      var named := MapEntries(es);
      Keyed("", named + seq(|es| - |named|, _ => Entry("", Null)))
    case StructOf(st, _) => Keyed("", FieldEntries(v, ResolvedFields(st)))
    case _ => Null
  }

  function ItemTrees(items: seq<Value>): seq<Tree>
    decreases ItemsHeight(items), 2, 0
  {
    seq(|items|, i requires 0 <= i < |items| => ItemsHeightBound(items, i); Abstract(items[i]))
  }

  /** The entry a map entry contributes: one when its key is a string, none otherwise. */
  function KeyEntry(me: MapEntry): seq<Entry>
    decreases Height(me.val), 1, 1
  {
    match MapKey(me.key)
    case Some(s) => [Entry(s, Named(s, Abstract(me.val)))]
    case None => []
  }

  function MapEntries(es: seq<MapEntry>): (r: seq<Entry>)
    ensures |r| <= |es|
    decreases EntriesHeight(es), 2, |es|
  {
    if es == [] then []
    else
      EntriesHeightBound(es, 0);
      KeyEntry(es[0]) + MapEntries(es[1..])
  }

  function FieldEntries(v: Value, fs: seq<Field>): seq<Entry>
    decreases Height(v), 0, 1
  {
    seq(|fs|, j requires 0 <= j < |fs| => Entry(fs[j].name, Named(fs[j].name, FieldTree(v, fs[j].index))))
  }

  /** The tree of the field at `path` in `v`. A visible field's path is never empty
      and never leads nowhere in a well-typed value (`ResolvedSound`, `WalkTyped`);
      both cases denote nothing here. */
  function FieldTree(v: Value, path: seq<nat>): Tree
    decreases Height(v), 0, 0
  {
    if path == [] then Null
    else
      match Walk(v, path)
      case Reached(w) => WalkLower(v, path); Abstract(w)
      case _ => Null
  }

  /** Appending one map entry adds what that entry contributes. */
  lemma {:induction false} MapEntriesSnoc(es: seq<MapEntry>, me: MapEntry)
    ensures MapEntries(es + [me]) == MapEntries(es) + KeyEntry(me)
  {
    if es == [] {
      assert [me][1..] == [];
    } else {
      assert (es + [me])[0] == es[0] && (es + [me])[1..] == es[1..] + [me];
      MapEntriesSnoc(es[1..], me);
    }
  }

  /** Every field of `list` is a sound field of `t`. */
  predicate AllSound(t: Type, list: seq<Field>) {
    forall j :: 0 <= j < |list| ==> FieldSound(t, list[j])
  }

  lemma ResolvedAllSound(t: Type)
    requires t.Struct?
    ensures AllSound(t, ResolvedFields(t))
  {
    ResolvedSound(t);
  }

  /** bean.go:73-88. */
  class MiddleValueList {
    var List: seq<MiddleValue>

    /** The root is present and every child block follows its parent. */
    predicate Valid()
      reads this
    {
      |List| >= 1 && WellFormed(List)
    }

    /** bean.go:98-100: a list holding only an empty root. */
    constructor ()
      ensures List == [EmptyNode] && Valid()
    {
      List := [EmptyNode];
    }

    /** bean.go:76-79: clear the root and drop every other node. */
    method Reset()
      requires |List| >= 1
      modifies this
      ensures List == [EmptyNode] && Valid()
    {
      List := List[0 := EmptyNode];
      List := List[..1];
    }

    /** bean.go:103-105 with the encoders of bean.go:152-260: encode `v` into the
        placeholder `current`, appending its descendants. */
    method Encode(current: nat, v: Value)
      requires Valid() && current < |List| && List[current] == EmptyNode && WellTyped(v)
      modifies this
      ensures Valid() && Extends(old(List), List, current)
      ensures TreeAt(List, current) == Abstract(v)
      decreases Height(v), 3
    {
      if v.Prim? {
        PutLeaf(List, current, MiddleValue(ValueValue, "", v, 0, 0));
        List := List[current := MiddleValue(ValueValue, "", v, 0, 0)];
      } else if v.Pointer? || v.Iface? {
        var inner := if v.Pointer? then v.target else v.held;
        if inner.None? {
          PutLeaf(List, current, EmptyNode);
          List := List[current := EmptyNode];
        } else {
          HasTypeOf(inner.value, if v.Pointer? then v.pointee else TypeOf(inner.value));
          Encode(current, inner.value);
        }
      } else if v.SliceOf? || v.ArrayOf? {
        EncodeList(current, v);
      } else if v.MapOf? {
        EncodeMap(current, v);
      } else if v.StructOf? {
        EncodeStruct(current, v);
      }
    }

    /** bean.go:177-195: open `current` as a slice node or a map node of `n`
        children and append `n` placeholders for them. */
    method Reserve(current: nat, typ: ValueType, n: nat) returns (end: nat)
      requires Valid() && current < |List| && List[current] == EmptyNode
      modifies this
      ensures end == |old(List)|
      ensures List == old(List)[current := Opened(typ, n, end)] + seq(n, _ => EmptyNode)
      ensures Valid() && Block(List, end, end + n, end)
      ensures List[current] == Opened(typ, n, end)
      ensures forall k :: 0 <= k < end && k != current ==> List[k] == old(List[k])
    {
      Reserved(List, current, typ, n);
      ghost var l0 := List;
      List := List[current := List[current].(typ := typ)];
      end := |List|;
      if n == 0 {
        assert List == l0[current := Opened(typ, n, end)] + seq(n, _ => EmptyNode);
        return;
      }
      List := List[current := List[current].(length := n, first := end)];
      var i := 0;
      while i < n
        invariant i <= n
        invariant List == l0[current := Opened(typ, n, end)] + seq(i, _ => EmptyNode)
      {
        assert seq(i + 1, _ => EmptyNode) == seq(i, _ => EmptyNode) + [EmptyNode];
        List := List + [EmptyNode];
        i := i + 1;
      }
    }

    /** bean.go:177-195: the elements of a slice or an array, in order. */
    method EncodeList(current: nat, v: Value)
      requires Valid() && current < |List| && List[current] == EmptyNode && WellTyped(v)
      requires v.SliceOf? || v.ArrayOf?
      modifies this
      ensures Valid() && Extends(old(List), List, current)
      ensures TreeAt(List, current) == Abstract(v)
      decreases Height(v), 2
    {
      var items := v.items;
      var n := |items|;
      ghost var l0 := List;
      var end := Reserve(current, SliceValue, n);
      EncodeItems(end, v);
      BlockExtends(l0, List, current, SliceValue, n);
      assert Abstract(v) == Items(ItemTrees(items));
      assert List[current] == Opened(SliceValue, n, end);
      TreeAtItems(List, current, ItemTrees(items));
    }

    /** bean.go:190-194: fill the block `[end, end + |v.items|)` with the elements of `v`. */
    method EncodeItems(end: nat, v: Value)
      requires Valid() && (v.SliceOf? || v.ArrayOf?) && WellTyped(v) && Block(List, end, end + |v.items|, end)
      modifies this
      ensures Valid() && Block(List, end, end + |v.items|, end + |v.items|)
      ensures forall k :: 0 <= k < end ==> List[k] == old(List[k])
      ensures Trees(List, end, end + |v.items|) == ItemTrees(v.items)
      decreases Height(v), 1
    {
      var items := v.items;
      var n := |items|;
      var j := 0;
      while j < n
        invariant j <= n
        invariant Valid() && Block(List, end, end + n, end + j)
        invariant forall k :: 0 <= k < end ==> List[k] == old(List[k])
        invariant Trees(List, end, end + j) == ItemTrees(items)[..j]
      {
        ItemsHeightBound(items, j);
        HasTypeOf(items[j], v.elem);
        var slot := end + j;
        EncodeItem(end, end + n, slot, items[j]);
        TakeSnoc(ItemTrees(items), j);
        j := j + 1;
        assert end + j == slot + 1;
      }
      assert ItemTrees(items)[..n] == ItemTrees(items);
    }

    /** bean.go:190-194: encode `w` into the next placeholder `slot` of the block
        `[lo, hi)`. */
    method EncodeItem(lo: nat, hi: nat, slot: nat, w: Value)
      requires Valid() && slot < hi && Block(List, lo, hi, slot) && WellTyped(w)
      modifies this
      ensures Valid() && Block(List, lo, hi, slot + 1)
      ensures forall k :: 0 <= k < slot ==> List[k] == old(List[k])
      ensures Trees(List, lo, slot + 1) == old(Trees(List, lo, slot)) + [Abstract(w)]
      decreases Height(w), 4
    {
      ghost var l := List;
      Encode(slot, w);
      BlockEncode(l, List, lo, hi, slot);
      TreesFrame(l, List, lo, slot);
    }

    /** bean.go:196-222: the string-keyed entries of a map, named by their keys in
        iteration order; the placeholders of skipped keys stay empty. */
    method EncodeMap(current: nat, v: Value)
      requires Valid() && current < |List| && List[current] == EmptyNode && WellTyped(v)
      requires v.MapOf?
      modifies this
      ensures Valid() && Extends(old(List), List, current)
      ensures TreeAt(List, current) == Abstract(v)
      decreases Height(v), 2
    {
      var es := v.entries;
      var n := |es|;
      ghost var l0 := List;
      var end := Reserve(current, MapValue, n);
      var i := EncodeEntries(end, v);
      BlockExtends(l0, List, current, MapValue, n);
      assert List[current] == Opened(MapValue, n, end);
      NamedTreesEmptyTail(List, end, end + i, end + n);
      TreeAtKeyed(List, current, MapEntries(es) + seq(n - i, _ => Entry("", Null)));
      assert List[current].name == "";
    }

    /** bean.go:210-220: fill the block `[end, end + |v.entries|)` with the string-keyed
        entries of `v`, returning how many there are. */
    method EncodeEntries(end: nat, v: Value) returns (i: nat)
      requires Valid() && v.MapOf? && WellTyped(v) && Block(List, end, end + |v.entries|, end)
      modifies this
      ensures i == |MapEntries(v.entries)| && Valid() && Block(List, end, end + |v.entries|, end + i)
      ensures forall k :: 0 <= k < end ==> List[k] == old(List[k])
      ensures NamedTrees(List, end, end + i) == MapEntries(v.entries)
      decreases Height(v), 1
    {
      var es := v.entries;
      var n := |es|;
      i := 0;
      var e := 0;
      while e < n
        invariant e <= n
        invariant i == |MapEntries(es[..e])| && i <= e
        invariant Valid() && Block(List, end, end + n, end + i)
        invariant forall k :: 0 <= k < end ==> List[k] == old(List[k])
        invariant NamedTrees(List, end, end + i) == MapEntries(es[..e])
      {
        i := EncodeEntry(end, v, e, i);
        e := e + 1;
      }
      assert es[..n] == es;
    }

    /** bean.go:211-219: entry `e` of map `v`, when its key is a string, fills the
        next placeholder `end + i` and is named by its key. */
    method EncodeEntry(end: nat, v: Value, e: nat, i: nat) returns (i': nat)
      requires Valid() && v.MapOf? && WellTyped(v) && e < |v.entries|
      requires i == |MapEntries(v.entries[..e])| && i <= e
      requires Block(List, end, end + |v.entries|, end + i)
      requires NamedTrees(List, end, end + i) == MapEntries(v.entries[..e])
      modifies this
      ensures i' == |MapEntries(v.entries[..e + 1])| && i' <= e + 1
      ensures Valid() && Block(List, end, end + |v.entries|, end + i')
      ensures forall k :: 0 <= k < end ==> List[k] == old(List[k])
      ensures NamedTrees(List, end, end + i') == MapEntries(v.entries[..e + 1])
      decreases Height(v), 0
    {
      var es := v.entries;
      TakeSnoc(es, e);
      MapEntriesSnoc(es[..e], es[e]);
      var key := MapKey(es[e].key);
      if key.None? {
        return i;
      }
      EntriesHeightBound(es, e);
      assert EntriesHaveType(es, v.key, v.elem);
      assert EntryHasType(es[e], v.key, v.elem);
      HasTypeOf(es[e].val, v.elem);
      var slot := end + i;
      EncodeNamed(end, end + |v.entries|, slot, es[e].val, key.value);
      i' := slot + 1 - end;
    }

    /** bean.go:236-255: encode `w` into the next placeholder `slot` of the block
        `[lo, hi)` and name it. */
    method EncodeNamed(lo: nat, hi: nat, slot: nat, w: Value, name: string)
      requires Valid() && slot < hi && Block(List, lo, hi, slot) && WellTyped(w)
      modifies this
      ensures Valid() && Block(List, lo, hi, slot + 1)
      ensures forall k :: 0 <= k < slot ==> List[k] == old(List[k])
      ensures NamedTrees(List, lo, slot + 1) == old(NamedTrees(List, lo, slot)) + [Entry(name, Named(name, Abstract(w)))]
      decreases Height(w), 4
    {
      ghost var l := List;
      Encode(slot, w);
      BlockEncode(l, List, lo, hi, slot);
      ghost var l1 := List;
      List := List[slot := List[slot].(name := name)];
      BlockRename(l1, lo, hi, slot, name);
      NamedTreesFrame(l, List, lo, slot);
    }

    /** bean.go:223-256: the visible fields of a struct in index order, each named by
        its field name; a field behind a nil embedded pointer is an empty node. */
    method EncodeStruct(current: nat, v: Value)
      requires Valid() && current < |List| && List[current] == EmptyNode && WellTyped(v)
      requires v.StructOf?
      modifies this
      ensures Valid() && Extends(old(List), List, current)
      ensures TreeAt(List, current) == Abstract(v)
      decreases Height(v), 2
    {
      var st := v.st;
      var fields := TypeFields(st);
      var list := fields.list;
      var n := |list|;
      ghost var l0 := List;
      var end := Reserve(current, MapValue, n);
      ResolvedAllSound(st);
      EncodeFields(end, v, list);
      BlockExtends(l0, List, current, MapValue, n);
      assert Abstract(v) == Keyed("", FieldEntries(v, ResolvedFields(st)));
      assert List[current] == Opened(MapValue, n, end);
      TreeAtKeyed(List, current, FieldEntries(v, list));
      assert List[current].name == "";
    }

    /** bean.go:236-255: fill the block `[end, end + |list|)` with the fields of `v`. */
    method EncodeFields(end: nat, v: Value, list: seq<Field>)
      requires Valid() && Block(List, end, end + |list|, end) && WellTyped(v)
      requires v.StructOf? && AllSound(v.st, list)
      modifies this
      ensures Valid() && Block(List, end, end + |list|, end + |list|)
      ensures forall k :: 0 <= k < end ==> List[k] == old(List[k])
      ensures NamedTrees(List, end, end + |list|) == FieldEntries(v, list)
      decreases Height(v), 1
    {
      var n := |list|;
      var j := 0;
      while j < n
        invariant j <= n
        invariant Valid() && Block(List, end, end + n, end + j)
        invariant forall k :: 0 <= k < end ==> List[k] == old(List[k])
        invariant NamedTrees(List, end, end + j) == FieldEntries(v, list)[..j]
      {
        assert FieldSound(v.st, list[j]);
        var slot := end + j;
        EncodeField(end, end + n, slot, v, list[j]);
        TakeSnoc(FieldEntries(v, list), j);
        j := j + 1;
        assert end + j == slot + 1;
      }
      assert FieldEntries(v, list)[..n] == FieldEntries(v, list);
    }

    /** bean.go:237-254: walk to field `f` of `v`, stopping at a nil embedded
        pointer, and encode what is found into the next placeholder `slot`. */
    method EncodeField(lo: nat, hi: nat, slot: nat, v: Value, f: Field)
      requires Valid() && slot < hi && Block(List, lo, hi, slot) && WellTyped(v)
      requires v.StructOf? && FieldSound(v.st, f)
      modifies this
      ensures Valid() && Block(List, lo, hi, slot + 1)
      ensures forall k :: 0 <= k < slot ==> List[k] == old(List[k])
      ensures NamedTrees(List, lo, slot + 1) == old(NamedTrees(List, lo, slot)) + [Entry(f.name, Named(f.name, FieldTree(v, f.index)))]
      decreases Height(v), 0
    {
      WalkTyped(v, v.st, f.index);
      WalkLower(v, f.index);
      var r := FieldByIndex(v, f.index);
      if r.NilOnPath? {
        ghost var l := List;
        BlockPut(List, lo, hi, slot, MiddleValue(NilValue, f.name, Invalid, 0, 0));
        List := List[slot := MiddleValue(NilValue, f.name, Invalid, 0, 0)];
        NamedTreesFrame(l, List, lo, slot);
      } else {
        HasTypeOf(r.v, TypeByIndex(v.st, f.index).value);
        EncodeNamed(lo, hi, slot, r.v, f.name);
      }
    }
  }

  /** bean.go:92-101, with the pool's content as the parameter `pooled`: a pooled
      list is reset and reused, otherwise a fresh one is allocated. */
  method NewMiddleValueList(pooled: MiddleValueList?) returns (l: MiddleValueList)
    requires pooled != null ==> |pooled.List| >= 1
    modifies pooled
    ensures l.List == [EmptyNode] && l.Valid()
    ensures pooled != null ==> l == pooled
    ensures pooled == null ==> fresh(l)
  {
    if pooled != null {
      pooled.Reset();
      return pooled;
    }
    l := new MiddleValueList();
  }
}
