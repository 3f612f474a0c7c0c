/** `fastEncoding.Convert` (bean.go:47-62): flatten the source into a node list,
    then write the root node into what the destination pointer refers to; and
    what the encoder and the materializer do together. */
module Convert {
  import opened Wrappers
  import opened GoTypes
  import opened FieldOrder
  import opened FieldResolver
  import opened FieldScan
  import opened ValueWalk
  import opened Arena
  import opened Encoder
  import opened WriteFacts
  import opened WriteTyping
  import M = Materializer
  import FromMiddle

  /** What `Convert` ends with: no error and the destination's new value, the
      `*json.InvalidUnmarshalError` it returns for a destination that is not a
      non-nil pointer, or a panic inside `reflect`. */
  datatype ConvertResult = Done(dest: Value) | InvalidUnmarshalError | Panicked

  /** bean.go:49 and bean.go:53: `reflect.ValueOf` of an `any` argument is the
      value it holds, invalid when it is nil; it is never an interface. */
  function ValueOfAny(a: Value): (v: Value)
    ensures (a == Invalid || WellTyped(a)) ==> v == Invalid || (WellTyped(v) && !v.Iface?)
    ensures !a.Iface? ==> v == a
    ensures a.Iface? && a.held.Some? ==> v == a.held.value
    ensures a == Iface(None) ==> v == Invalid
  {
    if a.Iface? then (if a.held.Some? then a.held.value else Invalid) else a
  }

  /** bean.go:48-61: a nil or invalid source leaves the destination alone; `IsNil`
      panics on a source of a kind that cannot be nil; the destination must be a
      non-nil pointer. */
  function Converted(src: Value, dest: Value): (r: ConvertResult)
    requires src == Invalid || WellTyped(src)
    ensures var v := ValueOfAny(src);
      v == Invalid || (Nillable(v) && IsNil(v)) ==> r == Done(dest)
    ensures var v := ValueOfAny(src);
      v != Invalid && !Nillable(v) ==> r == Panicked
    ensures var v := ValueOfAny(src); var d := ValueOfAny(dest);
      r == InvalidUnmarshalError <==> v != Invalid && Nillable(v) && !IsNil(v) && !(d.Pointer? && d.target.Some?)
    ensures r.Done? && dest.Iface? ==> r.dest.Iface?
  {
    var v := ValueOfAny(src);
    var d := ValueOfAny(dest);
    if v == Invalid then Done(dest)
    else if !Nillable(v) then Panicked
    else if IsNil(v) then Done(dest)
    else if !d.Pointer? || d.target.None? then InvalidUnmarshalError
    else
      match M.FromTree(Abstract(v), d, false)
      case Panic => Panicked
      case Ok(d') => Done(if dest.Iface? then Iface(Some(d')) else d')
  }

  /** bean.go:48-61, the node list taken from the pool's content `pooled`. */
  method Convert(src: Value, dest: Value, pooled: MiddleValueList?) returns (r: ConvertResult)
    requires src == Invalid || WellTyped(src)
    requires pooled != null ==> |pooled.List| >= 1
    modifies pooled
    ensures r == Converted(src, dest)
  {
    var v := ValueOfAny(src);
    if v == Invalid {
      return Done(dest);
    }
    if !Nillable(v) {
      // `IsNil` panics on a kind that cannot be nil.
      return Panicked;
    }
    if IsNil(v) {
      return Done(dest);
    }
    var d := ValueOfAny(dest);
    if !d.Pointer? || d.target.None? {
      return InvalidUnmarshalError;
    }
    var l := NewMiddleValueList(pooled);
    l.Encode(0, v);
    var o := FromMiddle.FromMiddleValue(l, 0, d, false);
    r := if o.Panic? then Panicked else if dest.Iface? then Done(Iface(Some(o.value))) else Done(o.value);
  }

  /** A pointer passed as `dest` behaves the same whether or not the caller's
      `any` is modelled as an interface holding it (bean.go:53-54). */
  lemma ConvertThroughAny(src: Value, p: Value)
    requires src == Invalid || WellTyped(src)
    requires p.Pointer?
    ensures Converted(src, Iface(Some(p))) ==
      match Converted(src, p)
      case Done(d) => Done(Iface(Some(d)))
      case other => other
  {
  }

  // ------------------------------------------------------------- round trips

  /** Values made of scalars, non-nil pointers, non-nil slices and arrays. */
  predicate Plain(v: Value) {
    match v
    case Prim(_, _) => true
    case Pointer(_, t) => t.Some? && Plain(t.value)
    case SliceOf(_, isNil, items) => !isNil && forall i :: 0 <= i < |items| ==> Plain(items[i])
    case ArrayOf(_, items) => forall i :: 0 <= i < |items| ==> Plain(items[i])
    case _ => false
  }

  /** A plain value written into the zero value of its type comes back as it was. */
  lemma {:induction false} RoundTrip(v: Value)
    requires WellTyped(v) && Plain(v)
    ensures Abstract(v) != Null
    ensures M.FromTree(Abstract(v), Zero(TypeOf(v)), false) == M.Ok(v)
    decreases v
  {
    match v
    case Prim(k, _) =>
    case Pointer(e, t) =>
      var x := t.value;
      HasTypeOf(x, e);
      RoundTrip(x);
      WriteThrough(Abstract(x), Zero(e), false);
      WriteThrough(Abstract(x), Pointer(e, None), false);
      DescendWritable(Zero(e));
      var d := M.Descend(Zero(e), false);
      RebuildCons(M.PtrLayer(e), d.layers, M.FromTree(Abstract(x), d.bottom, false).value);
    case SliceOf(e, _, items) =>
      var t := Abstract(v);
      assert t == Items(ItemTrees(items));
      ItemsRoundTrip(items, e);
      SliceInto(t, e, true, [], false);
      var r := M.FromSlice(t, SliceOf(e, true, []), false).value;
      assert r.items == items;
    case ArrayOf(e, items) =>
      var t := Abstract(v);
      assert t == Items(ItemTrees(items));
      ItemsRoundTrip(items, e);
      ArrayInto(t, e, seq(|items|, _ => Zero(e)), false);
      var r := M.FromSlice(t, Zero(TypeOf(v)), false).value;
      assert r.items == items;
  }

  lemma ItemsRoundTrip(items: seq<Value>, e: Type)
    requires forall i :: 0 <= i < |items| ==> HasType(items[i], e) && Plain(items[i])
    ensures forall i :: 0 <= i < |items| ==> M.FromTree(ItemTrees(items)[i], Zero(e), false) == M.Ok(items[i])
    decreases items, 0
  {
    forall i | 0 <= i < |items| ensures M.FromTree(ItemTrees(items)[i], Zero(e), false) == M.Ok(items[i]) {
      HasTypeOf(items[i], e);
      RoundTrip(items[i]);
    }
  }

  /** `Convert` copies a plain source into a pointer to a zero value of its type. */
  lemma ConvertCopies(src: Value)
    requires WellTyped(src) && Plain(src) && Nillable(src) && !IsNil(src)
    ensures Converted(src, Pointer(TypeOf(src), Some(Zero(TypeOf(src))))) == Done(Pointer(TypeOf(src), Some(src)))
  {
    var t := TypeOf(src);
    RoundTrip(src);
    WriteThrough(Abstract(src), Pointer(t, Some(Zero(t))), false);
    WriteThrough(Abstract(src), Zero(t), false);
    DescendWritable(Zero(t));
    var d := M.Descend(Zero(t), false);
    RebuildCons(M.PtrLayer(t), d.layers, M.FromTree(Abstract(src), d.bottom, false).value);
  }

  // ------------------------------------------------------------------- typing

  /** Following an index path through a well-typed value reaches well-typed values. */
  lemma {:induction false} WalkWellTyped(v: Value, path: seq<nat>)
    requires WellTyped(v)
    ensures Walk(v, path).Reached? ==> WellTyped(Walk(v, path).v)
  {
    if path != [] && !(v.Pointer? && v.target.None?) {
      var w := if v.Pointer? then v.target.value else v;
      if v.Pointer? {
        HasTypeOf(w, v.pointee);
      }
      if w.StructOf? && path[0] < |w.fields| {
        HasTypeOf(w.fields[path[0]], w.st.fields[path[0]].typ);
        WalkWellTyped(w.fields[path[0]], path[1..]);
      }
    }
  }

  lemma {:induction false} MapEntriesLeaves(es: seq<MapEntry>)
    requires forall i :: 0 <= i < |es| ==> LeavesTyped(Abstract(es[i].val))
    ensures forall j :: 0 <= j < |MapEntries(es)| ==> LeavesTyped(MapEntries(es)[j].tree)
  {
    if es != [] {
      assert forall i :: 0 <= i < |es[1..]| ==> es[1..][i] == es[i + 1];
      MapEntriesLeaves(es[1..]);
      var r := KeyEntry(es[0]) + MapEntries(es[1..]);
      forall j | 0 <= j < |r| ensures LeavesTyped(r[j].tree) {
        if j >= |KeyEntry(es[0])| {
          assert r[j] == MapEntries(es[1..])[j - |KeyEntry(es[0])|];
        }
      }
    }
  }

  /** The encoder's leaves are well-typed scalars. */
  lemma {:induction false} AbstractTyped(v: Value)
    requires WellTyped(v)
    ensures LeavesTyped(Abstract(v))
    decreases Height(v)
  {
    match v
    case Prim(_, _) =>
    case Pointer(e, t) =>
      if t.Some? {
        HasTypeOf(t.value, e);
        AbstractTyped(t.value);
      }
    case Iface(h) =>
      if h.Some? {
        AbstractTyped(h.value);
      }
    case SliceOf(e, _, items) =>
      forall i | 0 <= i < |items| ensures LeavesTyped(ItemTrees(items)[i]) {
        ItemsHeightBound(items, i);
        HasTypeOf(items[i], e);
        AbstractTyped(items[i]);
      }
    case ArrayOf(e, items) =>
      forall i | 0 <= i < |items| ensures LeavesTyped(ItemTrees(items)[i]) {
        ItemsHeightBound(items, i);
        HasTypeOf(items[i], e);
        AbstractTyped(items[i]);
      }
    case MapOf(k, e, _, es) =>
      assert EntriesHaveType(es, k, e);
      forall i | 0 <= i < |es| ensures LeavesTyped(Abstract(es[i].val)) {
        EntriesHeightBound(es, i);
        assert EntryHasType(es[i], k, e);
        HasTypeOf(es[i].val, e);
        AbstractTyped(es[i].val);
      }
      MapEntriesLeaves(es);
      var named := MapEntries(es);
      var all := named + seq(|es| - |named|, _ => Entry("", Null));
      forall j | 0 <= j < |all| ensures LeavesTyped(all[j].tree) {
        if j < |named| {
          assert all[j] == named[j];
        }
      }
    case StructOf(st, _) =>
      var fs := ResolvedFields(st);
      forall j | 0 <= j < |fs| ensures LeavesTyped(FieldTree(v, fs[j].index)) {
        var path := fs[j].index;
        if path != [] && Walk(v, path).Reached? {
          WalkLower(v, path);
          WalkWellTyped(v, path);
          AbstractTyped(Walk(v, path).v);
        }
      }
      assert forall j :: 0 <= j < |fs| ==> FieldEntries(v, fs)[j].tree == Named(fs[j].name, FieldTree(v, fs[j].index));
    case _ =>
  }

  /** `Convert` never changes the type of the destination: an `any` holding a
      pointer still holds a pointer of that type. */
  lemma ConvertKeepsType(src: Value, dest: Value)
    requires (src == Invalid || WellTyped(src)) && WellTyped(dest)
    ensures Converted(src, dest).Done? ==> HasType(Converted(src, dest).dest, TypeOf(dest))
  {
    var v := ValueOfAny(src);
    var d := ValueOfAny(dest);
    if v != Invalid && Nillable(v) && !IsNil(v) && d.Pointer? && d.target.Some? {
      AbstractTyped(v);
      FromTreeTyped(Abstract(v), d, TypeOf(d), false);
      match M.FromTree(Abstract(v), d, false)
      case Panic =>
      case Ok(d') => HasTypeOf(d', TypeOf(d));
    }
  }

  // ------------------------------------------------------------ interfaces

  lemma {:induction false} ValueInterfaceTotal(t: Tree)
    requires LeavesTyped(t)
    ensures M.ValueInterface(t).Ok?
    decreases t, 2, 0
  {
    match t
    case Null =>
    case Leaf(_) =>
    case Items(_) =>
      ArrayInterfaceTotal(t, 0, []);
    case Keyed(_, _) =>
      ObjectInterfaceTotal(t, 0, []);
  }

  lemma {:induction false} ArrayInterfaceTotal(t: Tree, i: nat, acc: seq<Value>)
    requires t.Items? && LeavesTyped(t)
    ensures M.ArrayInterface(t, i, acc).Ok?
    ensures |M.ArrayInterface(t, i, acc).value| == |acc| + (if i < |t.elems| then |t.elems| - i else 0)
    decreases t, 1, |t.elems| - i
  {
    if i < |t.elems| {
      ValueInterfaceTotal(t.elems[i]);
      ArrayInterfaceTotal(t, i + 1, acc + [M.ValueInterface(t.elems[i]).value]);
    }
  }

  lemma {:induction false} ObjectInterfaceTotal(t: Tree, i: nat, acc: seq<MapEntry>)
    requires t.Keyed? && LeavesTyped(t)
    ensures M.ObjectInterface(t, i, acc).Ok?
    decreases t, 1, |t.entries| - i
  {
    if i < |t.entries| {
      ValueInterfaceTotal(t.entries[i].tree);
      ObjectInterfaceTotal(t, i + 1, M.Put(acc, M.StrKey(t.entries[i].name), M.ValueInterface(t.entries[i].tree).value));
    }
  }

  /** Any source holding a well-typed non-nil value converts into a `*interface{}`
      without panicking: the destination then holds the `interface{}` the tree of
      that value denotes. */
  lemma IntoInterface(src: Value)
    requires WellTyped(src) && ValueOfAny(src) != Invalid
    requires Nillable(ValueOfAny(src)) && !IsNil(ValueOfAny(src))
    ensures M.ValueInterface(Abstract(ValueOfAny(src))).Ok?
    ensures Converted(src, Pointer(Interface, Some(Iface(None)))) ==
      Done(Pointer(Interface, Some(M.ValueInterface(Abstract(ValueOfAny(src))).value)))
  {
    var t := Abstract(ValueOfAny(src));
    AbstractTyped(ValueOfAny(src));
    ValueInterfaceTotal(t);
    if t != Null {
      WriteThrough(t, Pointer(Interface, Some(Iface(None))), false);
      RebuildCons(M.PtrLayer(Interface), [], M.ValueInterface(t).value);
      match t {
        case Leaf(_) =>
        case Items(_) =>
          assert M.FromTree(t, Iface(None), false) == M.Lift([], M.SliceAt(t, Iface(None), false));
        case Keyed(_, _) =>
          assert M.FromTree(t, Iface(None), false) == M.Lift([], M.MapAt(t, Iface(None), false));
      }
    }
  }

  // ------------------------------------------------------------- bean.go:476

  /** `map[string]int{"a": 1, "b": 2}`, iterated in that order. */
  function TwoIntMap(): (v: Value)
    ensures WellTyped(v) && v.MapOf?
  {
    var v := MapOf(Basic(String), Basic(Int), false,
      [MapEntry(M.StrKey("a"), Prim(Int, IntLit(1))), MapEntry(M.StrKey("b"), Prim(Int, IntLit(2)))]);
    assert EntryHasType(v.entries[0], Basic(String), Basic(Int));
    assert EntryHasType(v.entries[1], Basic(String), Basic(Int));
    v
  }

  /** bean.go:476 seen from `Convert`: converting that map into a pointer to an
      empty `map[string]int` leaves a single entry, under the root node's empty
      name, holding the value visited last. */
  lemma ConvertMapCollapses()
    ensures Converted(TwoIntMap(), Pointer(Map(Basic(String), Basic(Int)), Some(EmptyIntMap()))) ==
      Done(Pointer(Map(Basic(String), Basic(Int)),
        Some(EmptyIntMap().(entries := [MapEntry(M.StrKey(""), Prim(Int, IntLit(2)))]))))
  {
    var v := TwoIntMap();
    var ea := MapEntry(M.StrKey("a"), Prim(Int, IntLit(1)));
    var eb := MapEntry(M.StrKey("b"), Prim(Int, IntLit(2)));
    assert v.entries == [ea, eb];
    assert KeyEntry(ea) == [Entry("a", Leaf(Prim(Int, IntLit(1))))];
    assert KeyEntry(eb) == [Entry("b", Leaf(Prim(Int, IntLit(2))))];
    MapEntriesSnoc([ea], eb);
    assert MapEntries([ea]) == KeyEntry(ea) + MapEntries([]);
    assert [ea] + [eb] == v.entries;
    assert Abstract(v) == TwoEntries();
    var d := Pointer(Map(Basic(String), Basic(Int)), Some(EmptyIntMap()));
    assert M.Descend(d, false) == M.Found([M.PtrLayer(Map(Basic(String), Basic(Int)))], EmptyIntMap());
    MapKeyCounterexample();
    assert M.MapAt(TwoEntries(), EmptyIntMap(), false) ==
      M.Ok(EmptyIntMap().(entries := [MapEntry(M.StrKey(""), Prim(Int, IntLit(2)))]));
  }
}
