/** Writing a node never changes the type of what the destination holds:
    `reflect` panics rather than store a value of another type. */
module WriteTyping {
  import opened Wrappers
  import opened GoTypes
  import opened FieldOrder
  import opened FieldResolver
  import opened FieldScan
  import opened Arena
  import opened Materializer
  import opened WriteFacts

  /** Every leaf of `t` is a well-typed scalar, as the encoder's leaves are. */
  predicate LeavesTyped(t: Tree) {
    match t
    case Null => true
    case Leaf(v) => v.Prim? && WellTyped(v)
    case Items(ts) => forall i :: 0 <= i < |ts| ==> LeavesTyped(ts[i])
    case Keyed(_, es) => forall i :: 0 <= i < |es| ==> LeavesTyped(es[i].tree)
  }

  /** Storing a well-typed entry keeps a map's entries well-typed. */
  lemma {:induction false} PutTyped(es: seq<MapEntry>, key: Value, val: Value, k: Type, e: Type)
    requires EntriesHaveType(es, k, e) && HasType(key, k) && HasType(val, e)
    ensures EntriesHaveType(Put(es, key, val), k, e)
  {
    if es != [] && es[0].key != key {
      assert EntryHasType(es[0], k, e);
      assert EntriesHaveType(es[1..], k, e) by {
        forall i | 0 <= i < |es[1..]| ensures EntryHasType(es[1..][i], k, e) {
          assert es[1..][i] == es[i + 1];
        }
      }
      PutTyped(es[1..], key, val, k, e);
      var r := Put(es[1..], key, val);
      forall i | 0 <= i < |[es[0]] + r| ensures EntryHasType(([es[0]] + r)[i], k, e) {
        if i > 0 {
          assert ([es[0]] + r)[i] == r[i - 1];
        }
      }
    } else if es != [] {
      forall i | 0 <= i < |es| ensures EntryHasType(([MapEntry(key, val)] + es[1..])[i], k, e) {
        if i > 0 {
          assert ([MapEntry(key, val)] + es[1..])[i] == es[i];
        }
      }
    }
  }

  // ------------------------------------------------------------ the interfaces

  /** The `interface{}` a node denotes is a well-typed interface value. */
  lemma {:induction false} ValueInterfaceTyped(t: Tree)
    requires LeavesTyped(t)
    ensures ValueInterface(t).Ok? ==> HasType(ValueInterface(t).value, Interface)
    decreases t, 2, 0
  {
    match t
    case Null =>
    case Leaf(_) =>
    case Items(_) =>
      ArrayInterfaceTyped(t, 0, []);
    case Keyed(_, _) =>
      ObjectInterfaceTyped(t, 0, []);
  }

  lemma {:induction false} ArrayInterfaceTyped(t: Tree, i: nat, acc: seq<Value>)
    requires t.Items? && LeavesTyped(t)
    requires forall k :: 0 <= k < |acc| ==> HasType(acc[k], Interface)
    ensures ArrayInterface(t, i, acc).Ok? ==>
      forall k :: 0 <= k < |ArrayInterface(t, i, acc).value| ==> HasType(ArrayInterface(t, i, acc).value[k], Interface)
    decreases t, 1, |t.elems| - i
  {
    if i < |t.elems| {
      ValueInterfaceTyped(t.elems[i]);
      match ValueInterface(t.elems[i])
      case Panic =>
      case Ok(x) =>
        ArrayInterfaceTyped(t, i + 1, acc + [x]);
    }
  }

  lemma {:induction false} ObjectInterfaceTyped(t: Tree, i: nat, acc: seq<MapEntry>)
    requires t.Keyed? && LeavesTyped(t)
    requires EntriesHaveType(acc, Basic(String), Interface)
    ensures ObjectInterface(t, i, acc).Ok? ==>
      EntriesHaveType(ObjectInterface(t, i, acc).value, Basic(String), Interface)
    ensures ObjectInterface(t, i, acc).Ok? && UniqueKeys(acc) ==> UniqueKeys(ObjectInterface(t, i, acc).value)
    decreases t, 1, |t.entries| - i
  {
    if i < |t.entries| {
      ValueInterfaceTyped(t.entries[i].tree);
      match ValueInterface(t.entries[i].tree)
      case Panic =>
      case Ok(x) =>
        assert LitFits(String, StringLit(t.entries[i].name));
        PutTyped(acc, StrKey(t.entries[i].name), x, Basic(String), Interface);
        if UniqueKeys(acc) {
          PutUnique(acc, StrKey(t.entries[i].name), x);
        }
        ObjectInterfaceTyped(t, i + 1, Put(acc, StrKey(t.entries[i].name), x));
    }
  }

  // --------------------------------------------------------------- makeValue

  /** The location `makeValue` reaches in a well-typed value holds a well-typed
      value, and putting back any value of that type keeps the outer type. */
  lemma {:induction false} DescendTyped(v: Value, t: Type, ro: bool, x: Value)
    requires HasType(v, t) && Descend(v, ro).Found?
    ensures WellTyped(Descend(v, ro).bottom)
    ensures HasType(x, TypeOf(Descend(v, ro).bottom)) ==> HasType(Rebuild(Descend(v, ro).layers, x), t)
    decreases Depth(v)
  {
    if EntersInterface(v) {
      var p := v.held.value;
      assert Depth(v) == 2 + Depth(p.target.value);
      assert HasType(p, Ptr(p.pointee));
      DescendTyped(p.target.value, p.pointee, ro, x);
      var d := Descend(p.target.value, ro);
      RebuildCons(IfaceLayer(p.pointee), d.layers, x);
    } else if v.Pointer? {
      var w := if v.target.Some? then v.target.value else Zero(v.pointee);
      if v.target.None? {
        ZeroDepth(v.pointee);
        ZeroHasType(v.pointee);
      }
      DescendTyped(w, v.pointee, ro, x);
      var d := Descend(w, ro);
      RebuildCons(PtrLayer(v.pointee), d.layers, x);
    } else {
      HasTypeOf(v, t);
    }
  }

  // ------------------------------------------------------------------ writes

  /** What a node writes into a location of type `t` has type `t`. */
  lemma {:induction false} FromTreeTyped(t: Tree, d: Value, ty: Type, ro: bool)
    requires LeavesTyped(t) && HasType(d, ty)
    ensures FromTree(t, d, ro).Ok? ==> HasType(FromTree(t, d, ro).value, ty)
    decreases t, 4, 0
  {
    if t != Null {
      WriteThrough(t, d, ro);
      if Descend(d, ro).Found? {
        DescendStops(d, ro);
        var b := Descend(d, ro).bottom;
        DescendTyped(d, ty, ro, b);
        match t {
          case Leaf(_) =>
          case Items(_) =>
            SliceTyped(t, b, ro);
            assert FromTree(t, b, ro) == Lift([], SliceAt(t, b, ro));
          case Keyed(_, _) =>
            MapTyped(t, b, ro);
            assert FromTree(t, b, ro) == Lift([], MapAt(t, b, ro));
        }
        if FromTree(t, b, ro).Ok? {
          DescendTyped(d, ty, ro, FromTree(t, b, ro).value);
        }
      }
    }
  }

  lemma {:induction false} FillTyped(t: Tree, i: nat, items: seq<Value>, e: Type, ro: bool)
    requires t.Items? && LeavesTyped(t)
    requires forall k :: 0 <= k < |items| ==> HasType(items[k], e)
    ensures FillFrom(t, i, items, ro).Ok? ==>
      forall k :: 0 <= k < |items| ==> HasType(FillFrom(t, i, items, ro).value[k], e)
    decreases t, 1, |t.elems| - i
  {
    if i < |t.elems| {
      if i < |items| {
        FromTreeTyped(t.elems[i], items[i], e, ro);
        match FromTree(t.elems[i], items[i], ro)
        case Panic =>
        case Ok(x) =>
          FillTyped(t, i + 1, items[i := x], e, ro);
      } else {
        FillTyped(t, i + 1, items, e, ro);
      }
    }
  }

  /** A slice node written into the location `makeValue` stops at. */
  lemma {:induction false} SliceTyped(t: Tree, b: Value, ro: bool)
    requires t.Items? && LeavesTyped(t) && WellTyped(b)
    ensures SliceAt(t, b, ro).Ok? ==> HasType(SliceAt(t, b, ro).value, TypeOf(b))
    decreases t, 2, 0
  {
    var n := |t.elems|;
    match b
    case Iface(_) =>
      ValueInterfaceTyped(t);
    case SliceOf(e, _, _) =>
      var zs := seq(n, _ => Zero(e));
      ZeroHasType(e);
      FillTyped(t, 0, zs, e, false);
    case ArrayOf(e, items) =>
      FillTyped(t, 0, items, e, ro);
      if FillFrom(t, 0, items, ro).Ok? && n < |items| {
        var xs := FillFrom(t, 0, items, ro).value;
        var ys := xs[..n] + seq(|items| - n, _ => Zero(e));
        ZeroHasType(e);
        assert forall k :: 0 <= k < |ys| ==> HasType(ys[k], e) by {
          forall k | 0 <= k < |ys| ensures HasType(ys[k], e) {
            if k < n {
              assert ys[k] == xs[k];
            }
          }
        }
      }
    case _ =>
  }

  /** A map node written into the location `makeValue` stops at. */
  lemma {:induction false} MapTyped(t: Tree, b: Value, ro: bool)
    requires t.Keyed? && LeavesTyped(t) && WellTyped(b)
    ensures MapAt(t, b, ro).Ok? ==> HasType(MapAt(t, b, ro).value, TypeOf(b))
    decreases t, 2, 0
  {
    match b
    case Iface(_) =>
      ValueInterfaceTyped(t);
    case MapOf(k, e, isNil, es) =>
      if k == Basic(String) {
        MapToMapTyped(t, 0, MapOf(k, e, false, es), ro);
      }
    case StructOf(st, _) =>
      MapToStructTyped(t, 0, b, ResolvedFields(st), ro);
    case _ =>
  }

  lemma {:induction false} MapToMapTyped(t: Tree, i: nat, m: Value, ro: bool)
    requires t.Keyed? && m.MapOf? && !m.isNil && LeavesTyped(t) && m.key == Basic(String) && HasType(m, TypeOf(m))
    ensures FromMapToMapAsWritten(t, i, m, ro).Ok? ==> HasType(FromMapToMapAsWritten(t, i, m, ro).value, TypeOf(m))
    decreases t, 1, |t.entries| - i
  {
    if i < |t.entries| {
      ZeroHasType(m.elem);
      FromTreeTyped(t.entries[i].tree, Zero(m.elem), m.elem, false);
      match FromTree(t.entries[i].tree, Zero(m.elem), false)
      case Panic =>
      case Ok(x) =>
        if !ro {
          assert LitFits(String, StringLit(t.name));
          PutTyped(m.entries, StrKey(t.name), x, m.key, m.elem);
          PutUnique(m.entries, StrKey(t.name), x);
          MapToMapTyped(t, i + 1, m.(entries := Put(m.entries, StrKey(t.name), x)), ro);
        }
    }
  }

  lemma {:induction false} MapToStructTyped(t: Tree, i: nat, s: Value, fields: seq<Field>, ro: bool)
    requires t.Keyed? && LeavesTyped(t) && WellTyped(s)
    ensures FromMapToStruct(t, i, s, fields, ro).Ok? ==> HasType(FromMapToStruct(t, i, s, fields, ro).value, TypeOf(s))
    decreases t, 1, |t.entries| - i
  {
    if i < |t.entries| {
      match FieldNamed(fields, t.entries[i].name)
      case None =>
        MapToStructTyped(t, i + 1, s, fields, ro);
      case Some(j) =>
        SetPathTyped(t, i, s, fields[j].index, TypeOf(s), ro);
        match SetPath(t, i, s, fields[j].index, ro)
        case Panic =>
        case Ok(s') =>
          HasTypeOf(s', TypeOf(s));
          MapToStructTyped(t, i + 1, s', fields, ro);
    }
  }

  lemma {:induction false} SetPathTyped(t: Tree, i: nat, v: Value, path: seq<nat>, ty: Type, ro: bool)
    requires t.Keyed? && i < |t.entries| && LeavesTyped(t) && HasType(v, ty)
    ensures SetPath(t, i, v, path, ro).Ok? ==> HasType(SetPath(t, i, v, path, ro).value, ty)
    decreases t, 0, |path|
  {
    var child := t.entries[i].tree;
    if path == [] {
      FromTreeTyped(child, v, ty, ro);
    } else if !(v.Pointer? && v.target.None? && ro) {
      var w := if v.Pointer? then (if v.target.Some? then v.target.value else Zero(v.pointee)) else v;
      var wt := if v.Pointer? then v.pointee else ty;
      if v.Pointer? && v.target.None? {
        ZeroHasType(v.pointee);
      }
      assert HasType(w, wt);
      if w.StructOf? && path[0] < |w.fields| {
        var j := path[0];
        SetPathTyped(t, i, w.fields[j], path[1..], w.st.fields[j].typ, !Exported(w.st, j));
        match SetPath(t, i, w.fields[j], path[1..], !Exported(w.st, j))
        case Panic =>
        case Ok(x) =>
          RefillTyped(v, j, x, ty);
      }
    }
  }

  /** Putting a value of field `j`'s type into the struct entered from `v` keeps
      `v`'s type, a nil pointer now referring to a struct of its element type. */
  lemma RefillTyped(v: Value, j: nat, x: Value, ty: Type)
    requires CanEnter(v, j) && HasType(v, ty)
    requires Inner(v).st.Struct? && j < |Inner(v).st.fields| && HasType(x, Inner(v).st.fields[j].typ)
    ensures HasType(Refill(v, j, x), ty)
  {
    if v.Pointer? && v.target.None? {
      ZeroHasType(v.pointee);
    }
    var w := Inner(v);
    assert HasType(w, if v.Pointer? then v.pointee else ty);
    var w' := w.(fields := w.fields[j := x]);
    assert HasType(w', if v.Pointer? then v.pointee else ty);
  }
}
