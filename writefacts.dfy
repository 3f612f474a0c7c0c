/** What writing a node into a destination does (materializer.dfy): how
    `makeValue` factors every write through the location it reaches, and what
    each kind of destination holds afterwards. */
module WriteFacts {
  import opened Wrappers
  import opened GoTypes
  import opened FieldOrder
  import opened FieldResolver
  import opened FieldScan
  import opened Arena
  import opened Materializer

  // ---------------------------------------------------------------- makeValue

  lemma RebuildCons(l: Layer, ls: seq<Layer>, b: Value)
    ensures Rebuild([l] + ls, b) ==
      match l
      case PtrLayer(e) => Pointer(e, Some(Rebuild(ls, b)))
      case IfaceLayer(e) => Iface(Some(Pointer(e, Some(Rebuild(ls, b)))))
  {
    assert ([l] + ls)[0] == l && ([l] + ls)[1..] == ls;
  }

  /** `makeValue` stops at a location that is neither a pointer nor an interface it
      would enter, so starting again from there takes no step. */
  lemma {:induction false} DescendStops(v: Value, ro: bool)
    ensures Descend(v, ro).Found? ==>
      !Descend(v, ro).bottom.Pointer? && !EntersInterface(Descend(v, ro).bottom) &&
      Descend(Descend(v, ro).bottom, ro) == Found([], Descend(v, ro).bottom)
    decreases Depth(v)
  {
    if EntersInterface(v) {
      assert Depth(v) == 2 + Depth(v.held.value.target.value);
      DescendStops(v.held.value.target.value, ro);
    } else if v.Pointer? {
      if v.target.Some? {
        DescendStops(v.target.value, ro);
      } else if !ro {
        ZeroDepth(v.pointee);
        DescendStops(Zero(v.pointee), ro);
      }
    }
  }

  /** A writable location always has somewhere to write: only allocating a nil
      pointer at a read-only location fails. */
  lemma {:induction false} DescendWritable(v: Value)
    ensures Descend(v, false).Found?
    decreases Depth(v)
  {
    if EntersInterface(v) {
      assert Depth(v) == 2 + Depth(v.held.value.target.value);
      DescendWritable(v.held.value.target.value);
    } else if v.Pointer? {
      if v.target.Some? {
        DescendWritable(v.target.value);
      } else {
        ZeroDepth(v.pointee);
        DescendWritable(Zero(v.pointee));
      }
    }
  }

  /** When `makeValue` succeeds at a read-only location it allocated nothing: it
      reaches the same place as at a writable one and rebuilding with the value
      found there gives back the original value. */
  lemma {:induction false} DescendReadOnly(v: Value)
    ensures Descend(v, true).Found? ==>
      Descend(v, false) == Descend(v, true) &&
      Rebuild(Descend(v, true).layers, Descend(v, true).bottom) == v
    decreases Depth(v)
  {
    if EntersInterface(v) {
      var p := v.held.value;
      assert Depth(v) == 2 + Depth(p.target.value);
      DescendReadOnly(p.target.value);
      if Descend(v, true).Found? {
        var d := Descend(p.target.value, true);
        RebuildCons(IfaceLayer(p.pointee), d.layers, d.bottom);
      }
    } else if v.Pointer? && v.target.Some? {
      DescendReadOnly(v.target.value);
      if Descend(v, true).Found? {
        var d := Descend(v.target.value, true);
        RebuildCons(PtrLayer(v.pointee), d.layers, d.bottom);
      }
    }
  }

  /** Every write of a non-empty node goes through `makeValue`: it panics when no
      location is reached, and otherwise is the write into the location reached,
      seen from the outer value. */
  lemma WriteThrough(t: Tree, d: Value, ro: bool)
    requires t != Null
    ensures Descend(d, ro).Stuck? ==> FromTree(t, d, ro) == Panic
    ensures Descend(d, ro).Found? ==>
      FromTree(t, d, ro) == Lift(Descend(d, ro).layers, FromTree(t, Descend(d, ro).bottom, ro))
  {
    if Descend(d, ro).Found? {
      DescendStops(d, ro);
      match t
      case Leaf(_) =>
      case Items(_) =>
        SliceThrough(t, d, ro);
      case Keyed(_, _) =>
        MapThrough(t, d, ro);
    }
  }

  lemma SliceThrough(t: Tree, d: Value, ro: bool)
    requires t.Items? && Descend(d, ro).Found?
    requires Descend(Descend(d, ro).bottom, ro) == Found([], Descend(d, ro).bottom)
    ensures FromSlice(t, d, ro) == Lift(Descend(d, ro).layers, FromSlice(t, Descend(d, ro).bottom, ro))
  {
  }

  lemma MapThrough(t: Tree, d: Value, ro: bool)
    requires t.Keyed? && Descend(d, ro).Found?
    requires Descend(Descend(d, ro).bottom, ro) == Found([], Descend(d, ro).bottom)
    ensures FromMap(t, d, ro) == Lift(Descend(d, ro).layers, FromMap(t, Descend(d, ro).bottom, ro))
  {
  }

  // ------------------------------------------------------- slices and arrays

  /** The child loop of `fromSlice` writes child `j` into element `j` for every `j`
      the destination has, each write independent of the others, and leaves the
      other elements alone; it succeeds exactly when each of those writes does. */
  lemma {:induction false} FillFromElems(t: Tree, i: nat, items: seq<Value>, ro: bool)
    requires t.Items?
    ensures FillFrom(t, i, items, ro).Ok? <==>
      forall j :: i <= j < |t.elems| && j < |items| ==> FromTree(t.elems[j], items[j], ro).Ok?
    ensures FillFrom(t, i, items, ro).Ok? ==>
      forall j :: 0 <= j < |items| ==>
        FillFrom(t, i, items, ro).value[j] ==
          if i <= j < |t.elems| then FromTree(t.elems[j], items[j], ro).value else items[j]
    decreases |t.elems| - i
  {
    if i < |t.elems| {
      if i < |items| {
        match FromTree(t.elems[i], items[i], ro)
        case Panic =>
        case Ok(x) =>
          var items' := items[i := x];
          FillFromElems(t, i + 1, items', ro);
          assert forall j :: i + 1 <= j < |items| ==> items'[j] == items[j];
      } else {
        FillFromElems(t, i + 1, items, ro);
      }
    }
  }

  /** A slice destination is replaced by a new, non-nil slice with one element per
      child, element `j` being child `j` written into a zero element; this panics at
      a read-only location, or when a child does. */
  lemma SliceInto(t: Tree, e: Type, isNil: bool, items: seq<Value>, ro: bool)
    requires t.Items?
    ensures FromSlice(t, SliceOf(e, isNil, items), ro).Ok? <==>
      !ro && forall j :: 0 <= j < |t.elems| ==> FromTree(t.elems[j], Zero(e), false).Ok?
    ensures FromSlice(t, SliceOf(e, isNil, items), ro).Ok? ==>
      var r := FromSlice(t, SliceOf(e, isNil, items), ro).value;
      r.SliceOf? && r.elem == e && !r.isNil && |r.items| == |t.elems| &&
      forall j :: 0 <= j < |t.elems| ==> FromTree(t.elems[j], Zero(e), false) == Ok(r.items[j])
  {
    assert FromSlice(t, SliceOf(e, isNil, items), ro) == SliceAt(t, SliceOf(e, isNil, items), ro);
    var zs := seq(|t.elems|, _ => Zero(e));
    FillFromElems(t, 0, zs, false);
    assert forall j :: 0 <= j < |t.elems| ==> zs[j] == Zero(e);
  }

  /** An array destination keeps its length: element `j` gets child `j` when there
      is one, and the elements past the last child are set to zero, which panics at
      a read-only location. */
  lemma ArrayInto(t: Tree, e: Type, items: seq<Value>, ro: bool)
    requires t.Items?
    ensures FromSlice(t, ArrayOf(e, items), ro).Ok? <==>
      (forall j :: 0 <= j < |t.elems| && j < |items| ==> FromTree(t.elems[j], items[j], ro).Ok?) &&
      (|t.elems| < |items| ==> !ro)
    ensures FromSlice(t, ArrayOf(e, items), ro).Ok? ==>
      var r := FromSlice(t, ArrayOf(e, items), ro).value;
      r.ArrayOf? && r.elem == e && |r.items| == |items| &&
      (forall j :: 0 <= j < |t.elems| && j < |items| ==> FromTree(t.elems[j], items[j], ro) == Ok(r.items[j])) &&
      (forall j :: |t.elems| <= j < |items| ==> r.items[j] == Zero(e))
  {
    assert FromSlice(t, ArrayOf(e, items), ro) == SliceAt(t, ArrayOf(e, items), ro);
    FillFromElems(t, 0, items, ro);
    var f := FillFrom(t, 0, items, ro);
    if f.Ok? {
      var n := |t.elems|;
      var xs := f.value;
      if n < |items| && !ro {
        var ys := xs[..n] + seq(|items| - n, _ => Zero(e));
        assert SliceAt(t, ArrayOf(e, items), ro) == Ok(ArrayOf(e, ys));
        assert forall j :: 0 <= j < n ==> ys[j] == xs[j];
        assert forall j :: n <= j < |items| ==> ys[j] == Zero(e);
      }
    }
  }

  /** A byte of a string is a location that cannot be set: only a node that writes
      nothing into a scalar leaves it alone. */
  lemma ByteInto(u: Tree, b: Value)
    requires b.Prim? && b.kind != String
    ensures FromTree(u, b, true).Ok? <==> u.Null? || u.Keyed?
  {
    assert Descend(b, true) == Found([], b);
    match u
    case Null =>
    case Leaf(_) =>
    case Items(_) =>
      assert SliceAt(u, b, true) == Panic;
    case Keyed(_, _) =>
      assert MapAt(u, b, true) == Ok(b);
  }

  /** A string destination is never changed by a slice node; the write succeeds
      exactly when the children over its bytes write nothing into a byte and there
      are no fewer children than bytes. */
  lemma StringInto(t: Tree, s: string, ro: bool)
    requires t.Items?
    ensures FromSlice(t, StrKey(s), ro).Ok? <==> StringAccepts(t.elems, s)
    ensures FromSlice(t, StrKey(s), ro).Ok? ==> FromSlice(t, StrKey(s), ro).value == StrKey(s)
  {
    assert FromSlice(t, StrKey(s), ro) == SliceAt(t, StrKey(s), ro);
    var bs := Bytes(s);
    FillFromElems(t, 0, bs, true);
    forall j | 0 <= j < |t.elems| && j < |bs|
      ensures FromTree(t.elems[j], bs[j], true).Ok? <==> t.elems[j].Null? || t.elems[j].Keyed?
    {
      ByteInto(t.elems[j], bs[j]);
    }
  }

  // --------------------------------------------------------------------- maps

  /** The keys a list of map entries holds. */
  function Keys(es: seq<MapEntry>): set<Value> {
    set me | me in es :: me.key
  }

  /** The name of child `j` of a map node, as a map key. */
  function ChildKey(t: Tree, j: nat): Value
    requires t.Keyed? && j < |t.entries|
  {
    StrKey(t.entries[j].name)
  }

  /** No child from `i` on has key `k`. */
  predicate NotNamed(t: Tree, i: nat, k: Value)
    requires t.Keyed?
  {
    forall j :: i <= j < |t.entries| ==> ChildKey(t, j) != k
  }

  /** Child `j` is the last child named like it. */
  predicate LastNamed(t: Tree, j: nat)
    requires t.Keyed? && j < |t.entries|
  {
    NotNamed(t, j + 1, ChildKey(t, j))
  }

  /** The map after child `i` is stored, when its write succeeds. */
  function StoreChild(t: Tree, i: nat, m: Value, x: Value): Value
    requires t.Keyed? && i < |t.entries| && m.MapOf?
  {
    m.(entries := Put(m.entries, ChildKey(t, i), x))
  }

  /** The loop of `fromMapToMap`, as intended: it succeeds when every child can be
      written into a zero element and the map can be set; afterwards every child's
      name is a key, holding what the last child of that name wrote, and entries whose
      key no child names are kept. */
  lemma MapToMapKeys(t: Tree, i: nat, m: Value, ro: bool)
    requires t.Keyed? && m.MapOf?
    ensures FromMapToMap(t, i, m, ro).Ok? <==>
      (forall j :: i <= j < |t.entries| ==> FromTree(t.entries[j].tree, Zero(m.elem), false).Ok?) &&
      (i < |t.entries| ==> !ro)
    ensures FromMapToMap(t, i, m, ro).Ok? ==>
      var r := FromMapToMap(t, i, m, ro).value;
      r.MapOf? && r.key == m.key && r.elem == m.elem && r.isNil == m.isNil &&
      (forall j :: i <= j < |t.entries| ==> ChildKey(t, j) in Keys(r.entries)) &&
      (forall j :: i <= j < |t.entries| && LastNamed(t, j) ==>
        MapEntry(ChildKey(t, j), FromTree(t.entries[j].tree, Zero(m.elem), false).value) in r.entries) &&
      (forall me :: me in m.entries && NotNamed(t, i, me.key) ==> me in r.entries)
    ensures FromMapToMap(t, i, m, ro).Ok? && UniqueKeys(m.entries) ==>
      var r := FromMapToMap(t, i, m, ro).value;
      UniqueKeys(r.entries) &&
      forall j, me :: i <= j < |t.entries| && LastNamed(t, j) && me in r.entries && me.key == ChildKey(t, j) ==>
        me.val == FromTree(t.entries[j].tree, Zero(m.elem), false).value
  {
    MapToMapOk(t, i, m, ro);
    if FromMapToMap(t, i, m, ro).Ok? {
      MapToMapShape(t, i, m, ro);
      MapToMapLast(t, i, m, ro);
      MapToMapKept(t, i, m, ro);
      var r := FromMapToMap(t, i, m, ro).value;
      if UniqueKeys(m.entries) {
        MapToMapUnique(t, i, m, ro);
        forall j, me | i <= j < |t.entries| && LastNamed(t, j) && me in r.entries && me.key == ChildKey(t, j)
          ensures me.val == FromTree(t.entries[j].tree, Zero(m.elem), false).value
        {
          UniqueKeysLookup(r.entries, me, MapEntry(ChildKey(t, j), FromTree(t.entries[j].tree, Zero(m.elem), false).value));
        }
      }
      forall j | i <= j < |t.entries|
        ensures ChildKey(t, j) in Keys(r.entries)
      {
        var k := LastOf(t, j);
        assert MapEntry(ChildKey(t, k), FromTree(t.entries[k].tree, Zero(m.elem), false).value) in r.entries;
      }
    }
  }

  /** The loop keeps the keys of a map unique. */
  lemma {:induction false} MapToMapUnique(t: Tree, i: nat, m: Value, ro: bool)
    requires t.Keyed? && m.MapOf? && FromMapToMap(t, i, m, ro).Ok? && UniqueKeys(m.entries)
    ensures FromMapToMap(t, i, m, ro).value.MapOf?
    ensures UniqueKeys(FromMapToMap(t, i, m, ro).value.entries)
    decreases |t.entries| - i
  {
    MapToMapShape(t, i, m, ro);
    if i < |t.entries| {
      MapToMapStep(t, i, m, ro);
      var x := FromTree(t.entries[i].tree, Zero(m.elem), false).value;
      PutUnique(m.entries, ChildKey(t, i), x);
      MapToMapUnique(t, i + 1, StoreChild(t, i, m, x), ro);
    }
  }

  /** The last child from `j` on named like child `j`. */
  function LastOf(t: Tree, j: nat): (k: nat)
    requires t.Keyed? && j < |t.entries|
    ensures j <= k < |t.entries| && ChildKey(t, k) == ChildKey(t, j) && LastNamed(t, k)
    decreases |t.entries| - j
  {
    if LastNamed(t, j) then j
    else
      var k :| j + 1 <= k < |t.entries| && ChildKey(t, k) == ChildKey(t, j);
      LastOf(t, k)
  }

  /** One step of the loop. */
  lemma MapToMapStep(t: Tree, i: nat, m: Value, ro: bool)
    requires t.Keyed? && m.MapOf? && i < |t.entries|
    requires FromMapToMap(t, i, m, ro).Ok?
    ensures !ro && FromTree(t.entries[i].tree, Zero(m.elem), false).Ok?
    ensures FromMapToMap(t, i, m, ro) ==
      FromMapToMap(t, i + 1, StoreChild(t, i, m, FromTree(t.entries[i].tree, Zero(m.elem), false).value), ro)
  {
  }

  lemma {:induction false} MapToMapOk(t: Tree, i: nat, m: Value, ro: bool)
    requires t.Keyed? && m.MapOf?
    ensures FromMapToMap(t, i, m, ro).Ok? <==>
      (forall j :: i <= j < |t.entries| ==> FromTree(t.entries[j].tree, Zero(m.elem), false).Ok?) &&
      (i < |t.entries| ==> !ro)
    decreases |t.entries| - i
  {
    if i < |t.entries| {
      var o := FromTree(t.entries[i].tree, Zero(m.elem), false);
      if o.Ok? && !ro {
        var m' := StoreChild(t, i, m, o.value);
        assert m'.elem == m.elem;
        assert FromMapToMap(t, i, m, ro) == FromMapToMap(t, i + 1, m', ro);
        MapToMapOk(t, i + 1, m', ro);
      } else {
        assert FromMapToMap(t, i, m, ro) == Panic;
      }
    }
  }

  lemma {:induction false} MapToMapShape(t: Tree, i: nat, m: Value, ro: bool)
    requires t.Keyed? && m.MapOf? && FromMapToMap(t, i, m, ro).Ok?
    ensures var r := FromMapToMap(t, i, m, ro).value;
      r.MapOf? && r.key == m.key && r.elem == m.elem && r.isNil == m.isNil
    decreases |t.entries| - i
  {
    if i < |t.entries| {
      MapToMapStep(t, i, m, ro);
      MapToMapShape(t, i + 1, StoreChild(t, i, m, FromTree(t.entries[i].tree, Zero(m.elem), false).value), ro);
    }
  }

  lemma {:induction false} MapToMapKept(t: Tree, i: nat, m: Value, ro: bool)
    requires t.Keyed? && m.MapOf? && FromMapToMap(t, i, m, ro).Ok?
    ensures FromMapToMap(t, i, m, ro).value.MapOf?
    ensures forall me :: me in m.entries && NotNamed(t, i, me.key) ==> me in FromMapToMap(t, i, m, ro).value.entries
    decreases |t.entries| - i
  {
    MapToMapShape(t, i, m, ro);
    if i < |t.entries| {
      MapToMapStep(t, i, m, ro);
      var m' := StoreChild(t, i, m, FromTree(t.entries[i].tree, Zero(m.elem), false).value);
      MapToMapKept(t, i + 1, m', ro);
      forall me | me in m.entries && NotNamed(t, i, me.key)
        ensures me in m'.entries && NotNamed(t, i + 1, me.key)
      {
        assert ChildKey(t, i) != me.key;
      }
    }
  }

  lemma {:induction false} MapToMapLast(t: Tree, i: nat, m: Value, ro: bool)
    requires t.Keyed? && m.MapOf? && FromMapToMap(t, i, m, ro).Ok?
    ensures FromMapToMap(t, i, m, ro).value.MapOf?
    ensures forall j :: i <= j < |t.entries| ==> FromTree(t.entries[j].tree, Zero(m.elem), false).Ok?
    ensures forall j :: i <= j < |t.entries| && LastNamed(t, j) ==>
      MapEntry(ChildKey(t, j), FromTree(t.entries[j].tree, Zero(m.elem), false).value)
        in FromMapToMap(t, i, m, ro).value.entries
    decreases |t.entries| - i
  {
    MapToMapShape(t, i, m, ro);
    MapToMapOk(t, i, m, ro);
    if i < |t.entries| {
      MapToMapStep(t, i, m, ro);
      var x := FromTree(t.entries[i].tree, Zero(m.elem), false).value;
      var m' := StoreChild(t, i, m, x);
      MapToMapLast(t, i + 1, m', ro);
      if LastNamed(t, i) {
        MapToMapKept(t, i + 1, m', ro);
        assert MapEntry(ChildKey(t, i), x) in m'.entries;
      }
    }
  }

  /** The loop of `fromMapToMap` as the code reads (bean.go:476): it succeeds when
      every child can be written into a zero element and the map can be set;
      afterwards the map node's own name is the only key that can have been added,
      it holds what the last child wrote, and every entry under another key is
      kept. */
  lemma MapToMapAsWrittenKeys(t: Tree, i: nat, m: Value, ro: bool)
    requires t.Keyed? && m.MapOf?
    ensures FromMapToMapAsWritten(t, i, m, ro).Ok? <==>
      (forall j :: i <= j < |t.entries| ==> FromTree(t.entries[j].tree, Zero(m.elem), false).Ok?) &&
      (i < |t.entries| ==> !ro)
    ensures FromMapToMapAsWritten(t, i, m, ro).Ok? ==>
      var r := FromMapToMapAsWritten(t, i, m, ro).value;
      r.MapOf? && r.key == m.key && r.elem == m.elem && r.isNil == m.isNil &&
      Keys(r.entries) <= Keys(m.entries) + {StrKey(t.name)} &&
      (forall me :: me in m.entries && me.key != StrKey(t.name) ==> me in r.entries) &&
      (i < |t.entries| ==>
        FromTree(t.entries[|t.entries| - 1].tree, Zero(m.elem), false).Ok? &&
        MapEntry(StrKey(t.name), FromTree(t.entries[|t.entries| - 1].tree, Zero(m.elem), false).value) in r.entries) &&
      (i >= |t.entries| ==> r == m)
    ensures FromMapToMapAsWritten(t, i, m, ro).Ok? && UniqueKeys(m.entries) ==>
      var r := FromMapToMapAsWritten(t, i, m, ro).value;
      UniqueKeys(r.entries) &&
      (i < |t.entries| ==> forall me :: me in r.entries && me.key == StrKey(t.name) ==>
        me.val == FromTree(t.entries[|t.entries| - 1].tree, Zero(m.elem), false).value)
  {
    AsWrittenOk(t, i, m, ro);
    if FromMapToMapAsWritten(t, i, m, ro).Ok? {
      AsWrittenStores(t, i, m, ro);
      if UniqueKeys(m.entries) {
        AsWrittenUnique(t, i, m, ro);
        var r := FromMapToMapAsWritten(t, i, m, ro).value;
        if i < |t.entries| {
          var last := MapEntry(StrKey(t.name), FromTree(t.entries[|t.entries| - 1].tree, Zero(m.elem), false).value);
          forall me | me in r.entries && me.key == StrKey(t.name)
            ensures me.val == last.val
          {
            UniqueKeysLookup(r.entries, me, last);
          }
        }
      }
    }
  }

  /** The loop as written keeps the keys of a map unique. */
  lemma {:induction false} AsWrittenUnique(t: Tree, i: nat, m: Value, ro: bool)
    requires t.Keyed? && m.MapOf? && FromMapToMapAsWritten(t, i, m, ro).Ok? && UniqueKeys(m.entries)
    ensures FromMapToMapAsWritten(t, i, m, ro).value.MapOf?
    ensures UniqueKeys(FromMapToMapAsWritten(t, i, m, ro).value.entries)
    decreases |t.entries| - i
  {
    AsWrittenStores(t, i, m, ro);
    if i < |t.entries| {
      AsWrittenOk(t, i, m, ro);
      var x := FromTree(t.entries[i].tree, Zero(m.elem), false).value;
      var m' := m.(entries := Put(m.entries, StrKey(t.name), x));
      assert FromMapToMapAsWritten(t, i, m, ro) == FromMapToMapAsWritten(t, i + 1, m', ro);
      PutUnique(m.entries, StrKey(t.name), x);
      AsWrittenUnique(t, i + 1, m', ro);
    }
  }

  lemma {:induction false} AsWrittenOk(t: Tree, i: nat, m: Value, ro: bool)
    requires t.Keyed? && m.MapOf?
    ensures FromMapToMapAsWritten(t, i, m, ro).Ok? <==>
      (forall j :: i <= j < |t.entries| ==> FromTree(t.entries[j].tree, Zero(m.elem), false).Ok?) &&
      (i < |t.entries| ==> !ro)
    decreases |t.entries| - i
  {
    if i < |t.entries| {
      var o := FromTree(t.entries[i].tree, Zero(m.elem), false);
      if o.Ok? && !ro {
        var m' := m.(entries := Put(m.entries, StrKey(t.name), o.value));
        assert FromMapToMapAsWritten(t, i, m, ro) == FromMapToMapAsWritten(t, i + 1, m', ro);
        AsWrittenOk(t, i + 1, m', ro);
      } else {
        assert FromMapToMapAsWritten(t, i, m, ro) == Panic;
      }
    }
  }

  lemma {:induction false} AsWrittenStores(t: Tree, i: nat, m: Value, ro: bool)
    requires t.Keyed? && m.MapOf? && FromMapToMapAsWritten(t, i, m, ro).Ok?
    ensures var r := FromMapToMapAsWritten(t, i, m, ro).value;
      r.MapOf? && r.key == m.key && r.elem == m.elem && r.isNil == m.isNil &&
      Keys(r.entries) <= Keys(m.entries) + {StrKey(t.name)} &&
      (forall me :: me in m.entries && me.key != StrKey(t.name) ==> me in r.entries) &&
      (i < |t.entries| ==>
        FromTree(t.entries[|t.entries| - 1].tree, Zero(m.elem), false).Ok? &&
        MapEntry(StrKey(t.name), FromTree(t.entries[|t.entries| - 1].tree, Zero(m.elem), false).value) in r.entries) &&
      (i >= |t.entries| ==> r == m)
    decreases |t.entries| - i
  {
    AsWrittenOk(t, i, m, ro);
    if i < |t.entries| {
      var x := FromTree(t.entries[i].tree, Zero(m.elem), false).value;
      var m' := m.(entries := Put(m.entries, StrKey(t.name), x));
      assert FromMapToMapAsWritten(t, i, m, ro) == FromMapToMapAsWritten(t, i + 1, m', ro);
      AsWrittenStores(t, i + 1, m', ro);
      assert Keys(m'.entries) <= Keys(m.entries) + {StrKey(t.name)};
    }
  }

  /** The map node of `map[string]int{"a": 1, "b": 2}`, entries in that order. */
  function TwoEntries(): Tree {
    Keyed("", [Entry("a", Leaf(Prim(Int, IntLit(1)))), Entry("b", Leaf(Prim(Int, IntLit(2))))])
  }

  /** An empty, non-nil `map[string]int`. */
  function EmptyIntMap(): Value {
    MapOf(Basic(String), Basic(Int), false, [])
  }

  /** Writing that root node into an empty `map[string]int` leaves a single entry,
      under the root node's name "", holding the value of the child visited last;
      as intended it gives back both entries. */
  lemma MapKeyCounterexample()
    ensures FromMapToMapAsWritten(TwoEntries(), 0, EmptyIntMap(), false) ==
      Ok(EmptyIntMap().(entries := [MapEntry(StrKey(""), Prim(Int, IntLit(2)))]))
    ensures FromMapToMap(TwoEntries(), 0, EmptyIntMap(), false) ==
      Ok(EmptyIntMap().(entries := [MapEntry(StrKey("a"), Prim(Int, IntLit(1))), MapEntry(StrKey("b"), Prim(Int, IntLit(2)))]))
  {
    var t := TwoEntries();
    var one, two := Prim(Int, IntLit(1)), Prim(Int, IntLit(2));
    assert FromTree(t.entries[0].tree, Zero(Basic(Int)), false) == Ok(one);
    assert FromTree(t.entries[1].tree, Zero(Basic(Int)), false) == Ok(two);
    var e1 := [MapEntry(StrKey(""), one)];
    assert Put([], StrKey(""), one) == e1;
    assert Put(e1, StrKey(""), two) == [MapEntry(StrKey(""), two)];
    var a1 := [MapEntry(StrKey("a"), one)];
    assert Put([], StrKey("a"), one) == a1;
    assert StrKey("a") != StrKey("b");
    assert Put(a1, StrKey("b"), two) == a1 + [MapEntry(StrKey("b"), two)];
    var m := EmptyIntMap();
    assert ChildKey(t, 0) == StrKey("a") && ChildKey(t, 1) == StrKey("b");
    assert FromMapToMap(t, 0, m, false) == FromMapToMap(t, 1, m.(entries := a1), false);
    assert FromMapToMap(t, 1, m.(entries := a1), false) ==
      FromMapToMap(t, 2, m.(entries := a1 + [MapEntry(StrKey("b"), two)]), false);
    assert a1 + [MapEntry(StrKey("b"), two)] == [MapEntry(StrKey("a"), one), MapEntry(StrKey("b"), two)];
    assert FromMapToMap(t, 2, m.(entries := a1 + [MapEntry(StrKey("b"), two)]), false) ==
      Ok(m.(entries := a1 + [MapEntry(StrKey("b"), two)]));
  }

  // ------------------------------------------------------------------ structs

  /** Children whose names match no visible field are ignored, so a struct
      destination none of whose fields is named by a child is left as it is. */
  lemma {:induction false} StructIgnoresUnknown(t: Tree, i: nat, s: Value, fields: seq<Field>, ro: bool)
    requires t.Keyed?
    requires forall j :: i <= j < |t.entries| ==> FieldNamed(fields, t.entries[j].name).None?
    ensures FromMapToStruct(t, i, s, fields, ro) == Ok(s)
    decreases |t.entries| - i
  {
    if i < |t.entries| {
      StructIgnoresUnknown(t, i + 1, s, fields, ro);
    }
  }

  /** A child naming a field declared directly in the struct is written into that
      field, at a location read-only when the field is unexported; the other fields
      are left alone. */
  lemma DirectField(t: Tree, i: nat, s: Value, j: nat, ro: bool)
    requires t.Keyed? && i < |t.entries| && s.StructOf? && j < |s.fields|
    ensures SetPath(t, i, s, [j], ro) ==
      match FromTree(t.entries[i].tree, s.fields[j], !Exported(s.st, j))
      case Panic => Panic
      case Ok(x) => Ok(s.(fields := s.fields[j := x]))
  {
    assert [j][1..] == [];
  }

  /** A child naming a field promoted through the nil embedded pointer `s.fields[j]`
      to a struct type `T`. An exported pointer field is set to a new zero `T`
      whose field `k` receives the child, at a read-only location when that field is
      unexported. An unexported pointer field cannot be set: the walk ends at the
      invalid location and the struct is left alone unless writing the child there
      panics. */
  lemma PromotedThroughNilPointer(t: Tree, i: nat, s: Value, j: nat, k: nat, ro: bool)
    requires t.Keyed? && i < |t.entries| && s.StructOf? && j < |s.fields|
    requires s.fields[j].Pointer? && s.fields[j].target.None? && s.fields[j].pointee.Struct?
    requires k < |s.fields[j].pointee.fields|
    ensures var T := s.fields[j].pointee;
      var z := Zero(T);
      Exported(s.st, j) ==>
        (SetPath(t, i, s, [j, k], ro) ==
           match FromTree(t.entries[i].tree, z.fields[k], !Exported(T, k))
           case Panic => Panic
           case Ok(x) => Ok(s.(fields := s.fields[j := Pointer(T, Some(z.(fields := z.fields[k := x])))])))
    ensures !Exported(s.st, j) ==>
      (SetPath(t, i, s, [j, k], ro) ==
         match FromTree(t.entries[i].tree, Invalid, true)
         case Panic => Panic
         case Ok(_) => Ok(s))
  {
    var p := s.fields[j];
    var child := t.entries[i].tree;
    var z := Zero(p.pointee);
    assert [k][1..] == [];
    assert Inner(p) == z && z.st == p.pointee && |z.fields| == |p.pointee.fields|;
    var inner := SetPath(t, i, p, [k], !Exported(s.st, j));
    if Exported(s.st, j) {
      assert SetPath(t, i, z.fields[k], [], !Exported(z.st, k)) == FromTree(child, z.fields[k], !Exported(p.pointee, k));
      assert inner == match FromTree(child, z.fields[k], !Exported(p.pointee, k))
        case Panic => Panic
        case Ok(x) => Ok(Refill(p, k, x));
    } else {
      assert inner == match FromTree(child, Invalid, true) case Panic => Panic case Ok(_) => Ok(p);
      assert Refill(s, j, p) == s;
    }
    SetPathOneStep(t, i, s, j, [k], ro);
  }

  /** One step into a field of a struct value that is not behind a pointer. */
  lemma SetPathOneStep(t: Tree, i: nat, s: Value, j: nat, rest: seq<nat>, ro: bool)
    requires t.Keyed? && i < |t.entries| && s.StructOf? && j < |s.fields|
    ensures SetPath(t, i, s, [j] + rest, ro) ==
      match SetPath(t, i, s.fields[j], rest, !Exported(s.st, j))
      case Panic => Panic
      case Ok(x) => Ok(s.(fields := s.fields[j := x]))
  {
    assert ([j] + rest)[0] == j && ([j] + rest)[1..] == rest;
    assert Inner(s) == s;
  }

  /** A child naming a field promoted through the non-nil embedded pointer
      `s.fields[j]`: field `k` of the struct it refers to receives the child,
      whether or not the pointer field is exported, and nothing else changes. */
  lemma PromotedThroughPointer(t: Tree, i: nat, s: Value, j: nat, k: nat, ro: bool)
    requires t.Keyed? && i < |t.entries| && s.StructOf? && j < |s.fields|
    requires s.fields[j].Pointer? && s.fields[j].target.Some?
    requires s.fields[j].target.value.StructOf? && k < |s.fields[j].target.value.fields|
    ensures var p := s.fields[j];
      var w := p.target.value;
      SetPath(t, i, s, [j, k], ro) ==
        match FromTree(t.entries[i].tree, w.fields[k], !Exported(w.st, k))
        case Panic => Panic
        case Ok(x) => Ok(s.(fields := s.fields[j := Pointer(p.pointee, Some(w.(fields := w.fields[k := x])))]))
  {
    var p := s.fields[j];
    var w := p.target.value;
    var child := t.entries[i].tree;
    assert [k][1..] == [];
    assert Inner(p) == w;
    assert SetPath(t, i, p, [k], !Exported(s.st, j)) ==
      match FromTree(child, w.fields[k], !Exported(w.st, k))
      case Panic => Panic
      case Ok(x) => Ok(Refill(p, k, x));
    SetPathOneStep(t, i, s, j, [k], ro);
  }
}
