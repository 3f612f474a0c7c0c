/** The materializer of bean.go:267-535 as the loops it is, reading the node
    list of a `MiddleValueList`; each method computes what the function of the
    same name in materializer.dfy says of the tree at its node. */
module FromMiddle {
  import opened Wrappers
  import opened GoTypes
  import opened FieldOrder
  import opened FieldResolver
  import opened FieldScan
  import opened Arena
  import opened Encoder
  import M = Materializer

  // ---------------------------------------------------------------- makeValue

  /** `d` seen after the layers `ls` were already passed. */
  function Behind(ls: seq<M.Layer>, d: M.Descent): M.Descent {
    match d
    case Stuck => M.Stuck
    case Found(ls', b) => M.Found(ls + ls', b)
  }

  lemma BehindUnder(ls: seq<M.Layer>, l: M.Layer, d: M.Descent)
    ensures Behind(ls, M.Under(l, d)) == Behind(ls + [l], d)
  {
    if d.Found? {
      assert ls + ([l] + d.layers) == (ls + [l]) + d.layers;
    }
  }

  /** bean.go:507-535. An interface holding a pointer to a pointer is entered and
      that pointer followed in one step. */
  method MakeValue(v: Value, ro: bool) returns (r: M.Descent)
    ensures r == M.Descend(v, ro)
  {
    var cur := v;
    var ls: seq<M.Layer> := [];
    while true
      invariant M.Descend(v, ro) == Behind(ls, M.Descend(cur, ro))
      decreases M.Depth(cur)
    {
      if M.EntersInterface(cur) {
        var p := cur.held.value;
        assert M.Depth(cur) == 2 + M.Depth(p.target.value);
        BehindUnder(ls, M.IfaceLayer(p.pointee), M.Descend(p.target.value, ro));
        ls := ls + [M.IfaceLayer(p.pointee)];
        cur := p.target.value;
      } else if cur.Pointer? {
        var e := cur.pointee;
        var next := Zero(e);
        if cur.target.Some? {
          next := cur.target.value;
        } else if ro {
          // `Set` of a new value on a read-only location panics.
          return M.Stuck;
        } else {
          M.ZeroDepth(e);
        }
        BehindUnder(ls, M.PtrLayer(e), M.Descend(next, ro));
        ls := ls + [M.PtrLayer(e)];
        cur := next;
      } else {
        assert ls + [] == ls;
        return M.Found(ls, cur);
      }
    }
  }

  /** bean.go:316-318. */
  method FromSimple(pv: Value, d: Value, ro: bool) returns (r: M.Outcome<Value>)
    ensures r == M.FromSimple(pv, d, ro)
  {
    var dv := MakeValue(d, ro);
    if dv.Stuck? {
      return M.Panic;
    }
    var ls, b := dv.layers, dv.bottom;
    if ro || b == Invalid || pv == Invalid {
      r := M.Panic;
    } else if b.Iface? {
      r := M.Ok(M.Rebuild(ls, Iface(Some(pv))));
    } else if TypeOf(pv) == TypeOf(b) {
      r := M.Ok(M.Rebuild(ls, pv));
    } else {
      r := M.Panic;
    }
  }

  // ------------------------------------------- valueInterface and its helpers

  /** Child `i` of node `k` is the node at `first + i`. */
  lemma ChildAt(l: seq<MiddleValue>, k: nat, i: nat)
    requires WellFormed(l) && k < |l| && i < l[k].length
    requires l[k].typ == SliceValue || l[k].typ == MapValue
    ensures k < l[k].first + i < |l|
    ensures l[k].typ == SliceValue ==> TreeAt(l, k).elems[i] == TreeAt(l, l[k].first + i)
    ensures l[k].typ == MapValue ==>
      TreeAt(l, k).entries[i] == Entry(l[l[k].first + i].name, TreeAt(l, l[k].first + i))
  {
    assert ChildrenAfter(l, k);
  }

  /** bean.go:282-298. */
  method ValueInterface(l: MiddleValueList, k: nat) returns (r: M.Outcome<Value>)
    requires l.Valid() && k < |l.List|
    ensures r == M.ValueInterface(TreeAt(l.List, k))
    decreases |l.List| - k, 1
  {
    var p := l.List[k];
    match p.typ
    case NilValue =>
      r := M.Ok(Iface(None));
    case ValueValue =>
      // `Interface` panics on the zero `reflect.Value`.
      r := if p.value == Invalid then M.Panic else M.Ok(Iface(Some(p.value)));
    case SliceValue =>
      var xs := ArrayInterface(l, k);
      r := if xs.Panic? then M.Panic else M.Ok(Iface(Some(SliceOf(Interface, false, xs.value))));
    case MapValue =>
      var es := ObjectInterface(l, k);
      r := if es.Panic? then M.Panic else M.Ok(Iface(Some(MapOf(Basic(String), Interface, false, es.value))));
  }

  /** bean.go:300-306 over the children of node `k`. */
  method ArrayInterface(l: MiddleValueList, k: nat) returns (r: M.Outcome<seq<Value>>)
    requires l.Valid() && k < |l.List| && l.List[k].typ == SliceValue
    ensures r == M.ArrayInterface(TreeAt(l.List, k), 0, [])
    decreases |l.List| - k, 0
  {
    var p := l.List[k];
    ghost var t := TreeAt(l.List, k);
    var acc := [];
    var i := 0;
    while i < p.length
      invariant i <= p.length
      invariant M.ArrayInterface(t, 0, []) == M.ArrayInterface(t, i, acc)
    {
      ChildAt(l.List, k, i);
      var x := ValueInterface(l, p.first + i);
      if x.Panic? {
        return M.Panic;
      }
      acc := acc + [x.value];
      i := i + 1;
    }
    return M.Ok(acc);
  }

  lemma ObjectStep(t: Tree, i: nat, acc: seq<MapEntry>, x: Value)
    requires t.Keyed? && i < |t.entries| && M.ValueInterface(t.entries[i].tree) == M.Ok(x)
    ensures M.ObjectInterface(t, i, acc) == M.ObjectInterface(t, i + 1, M.Put(acc, M.StrKey(t.entries[i].name), x))
  {
  }

  /** bean.go:308-314 over the children of node `k`. */
  method ObjectInterface(l: MiddleValueList, k: nat) returns (r: M.Outcome<seq<MapEntry>>)
    requires l.Valid() && k < |l.List| && l.List[k].typ == MapValue
    ensures r == M.ObjectInterface(TreeAt(l.List, k), 0, [])
    decreases |l.List| - k, 0
  {
    var p := l.List[k];
    ghost var t := TreeAt(l.List, k);
    assert t.Keyed? && |t.entries| == p.length;
    var acc := [];
    var i := 0;
    while i < p.length
      invariant i <= p.length
      invariant M.ObjectInterface(t, 0, []) == M.ObjectInterface(t, i, acc)
    {
      ChildAt(l.List, k, i);
      var c := l.List[p.first + i];
      assert t.entries[i] == Entry(c.name, TreeAt(l.List, p.first + i));
      var x := ValueInterface(l, p.first + i);
      if x.Panic? {
        return M.Panic;
      }
      ObjectStep(t, i, acc, x.value);
      acc := M.Put(acc, M.StrKey(c.name), x.value);
      i := i + 1;
    }
    return M.Ok(acc);
  }

  // ----------------------------------------------------------- fromMiddleValue

  /** bean.go:267-280: write node `k` into a location holding `d`. */
  method FromMiddleValue(l: MiddleValueList, k: nat, d: Value, ro: bool) returns (r: M.Outcome<Value>)
    requires l.Valid() && k < |l.List|
    ensures r == M.FromTree(TreeAt(l.List, k), d, ro)
    decreases |l.List| - k, 4
  {
    var p := l.List[k];
    match p.typ
    case NilValue =>
      r := M.Ok(d);
    case ValueValue =>
      r := FromSimple(p.value, d, ro);
    case SliceValue =>
      r := FromSlice(l, k, d, ro);
    case MapValue =>
      r := FromMap(l, k, d, ro);
  }

  /** bean.go:428-433: child `i` of node `k` written into element `i`, for each
      element the destination has. */
  method FillChildren(l: MiddleValueList, k: nat, items: seq<Value>, ro: bool) returns (r: M.Outcome<seq<Value>>)
    requires l.Valid() && k < |l.List| && l.List[k].typ == SliceValue
    ensures r == M.FillFrom(TreeAt(l.List, k), 0, items, ro)
    decreases |l.List| - k, 1
  {
    var p := l.List[k];
    ghost var t := TreeAt(l.List, k);
    var xs := items;
    var i := 0;
    while i < p.length
      invariant i <= p.length && |xs| == |items|
      invariant M.FillFrom(t, 0, items, ro) == M.FillFrom(t, i, xs, ro)
    {
      ChildAt(l.List, k, i);
      if i < |xs| {
        var x := FromMiddleValue(l, p.first + i, xs[i], ro);
        if x.Panic? {
          return M.Panic;
        }
        xs := xs[i := x.value];
      }
      i := i + 1;
    }
    return M.Ok(xs);
  }

  /** bean.go:434-439: set the elements from `n` on to zero. */
  method ZeroTail(xs: seq<Value>, n: nat, e: Type) returns (ys: seq<Value>)
    requires n <= |xs|
    ensures ys == xs[..n] + seq(|xs| - n, _ => Zero(e))
  {
    ys := xs;
    var i := n;
    while i < |ys|
      invariant n <= i <= |ys| == |xs|
      invariant forall j :: 0 <= j < |xs| ==> ys[j] == if n <= j < i then Zero(e) else xs[j]
    {
      ys := ys[i := Zero(e)];
      i := i + 1;
    }
    assert forall j :: 0 <= j < |xs| ==> ys[j] == (xs[..n] + seq(|xs| - n, _ => Zero(e)))[j];
  }

  /** bean.go:412-445: `makeValue`, then the write at the location reached. */
  method FromSlice(l: MiddleValueList, k: nat, d: Value, ro: bool) returns (r: M.Outcome<Value>)
    requires l.Valid() && k < |l.List| && l.List[k].typ == SliceValue
    ensures r == M.FromSlice(TreeAt(l.List, k), d, ro)
    decreases |l.List| - k, 3
  {
    var dv := MakeValue(d, ro);
    if dv.Stuck? {
      return M.Panic;
    }
    var o := SliceAt(l, k, dv.bottom, ro);
    r := if o.Panic? then M.Panic else M.Ok(M.Rebuild(dv.layers, o.value));
  }

  /** bean.go:418-444: slice node `k` written at the location `makeValue`
      reached, which holds `b`. */
  method SliceAt(l: MiddleValueList, k: nat, b: Value, ro: bool) returns (r: M.Outcome<Value>)
    requires l.Valid() && k < |l.List| && l.List[k].typ == SliceValue
    ensures r == M.SliceAt(TreeAt(l.List, k), b, ro)
    decreases |l.List| - k, 2
  {
    var p := l.List[k];
    var n := p.length;
    assert |TreeAt(l.List, k).elems| == n;
    match b
    case Iface(_) =>
      var arr := ArrayInterface(l, k);
      if arr.Panic? || ro {
        return M.Panic;
      }
      r := M.Ok(Iface(Some(SliceOf(Interface, false, arr.value))));
    case SliceOf(e, _, _) =>
      // `Set` of the new slice panics at a read-only location.
      if ro {
        return M.Panic;
      }
      var xs := FillChildren(l, k, seq(n, _ => Zero(e)), false);
      if xs.Panic? {
        return M.Panic;
      }
      r := M.Ok(SliceOf(e, false, xs.value));
    case ArrayOf(e, items) =>
      var xs := FillChildren(l, k, items, ro);
      if xs.Panic? {
        return M.Panic;
      }
      var ys := xs.value;
      if n < |items| {
        if ro {
          return M.Panic;
        }
        ys := ZeroTail(ys, n, e);
      }
      r := M.Ok(ArrayOf(e, ys));
    case Prim(pk, lit) =>
      if pk == String && lit.StringLit? {
        var xs := FillChildren(l, k, M.Bytes(lit.s), true);
        // `SetLen` panics on a string.
        if xs.Panic? || n < |lit.s| {
          return M.Panic;
        }
        r := M.Ok(b);
      } else {
        // `Len` panics on a scalar.
        r := M.Panic;
      }
    case MapOf(_, _, _, es) =>
      // `Index` and `SetLen` panic on a map.
      r := if es == [] then M.Ok(b) else M.Panic;
    case _ =>
      r := M.Panic;
  }

  /** bean.go:447-469: `makeValue`, then the write at the location reached. */
  method FromMap(l: MiddleValueList, k: nat, d: Value, ro: bool) returns (r: M.Outcome<Value>)
    requires l.Valid() && k < |l.List| && l.List[k].typ == MapValue
    ensures r == M.FromMap(TreeAt(l.List, k), d, ro)
    decreases |l.List| - k, 3
  {
    var dv := MakeValue(d, ro);
    if dv.Stuck? {
      return M.Panic;
    }
    var o := MapAt(l, k, dv.bottom, ro);
    r := if o.Panic? then M.Panic else M.Ok(M.Rebuild(dv.layers, o.value));
  }

  /** bean.go:449-468: map node `k` written at the location `makeValue`
      reached, which holds `b`. */
  method MapAt(l: MiddleValueList, k: nat, b: Value, ro: bool) returns (r: M.Outcome<Value>)
    requires l.Valid() && k < |l.List| && l.List[k].typ == MapValue
    ensures r == M.MapAt(TreeAt(l.List, k), b, ro)
    decreases |l.List| - k, 2
  {
    match b
    case Invalid =>
      // `Type` panics on the zero `reflect.Value`.
      r := M.Panic;
    case Iface(_) =>
      var oi := ObjectInterface(l, k);
      if oi.Panic? || ro {
        return M.Panic;
      }
      r := M.Ok(Iface(Some(MapOf(Basic(String), Interface, false, oi.value))));
    case MapOf(kt, e, isNil, es) =>
      if kt != Basic(String) {
        return M.Ok(b);
      }
      var m := b;
      if isNil {
        if ro {
          return M.Panic;
        }
        m := MapOf(kt, e, false, []);
      }
      r := FromMapToMap(l, k, m, ro);
    case StructOf(st, _) =>
      var sf := TypeFields(st);
      r := FromMapToStruct(l, k, b, sf, ro);
    case _ =>
      r := M.Ok(b);
  }

  /** bean.go:471-479: every child is stored under the name of node `k` itself. */
  method FromMapToMap(l: MiddleValueList, k: nat, m: Value, ro: bool) returns (r: M.Outcome<Value>)
    requires l.Valid() && k < |l.List| && l.List[k].typ == MapValue && m.MapOf?
    ensures r == M.FromMapToMapAsWritten(TreeAt(l.List, k), 0, m, ro)
    decreases |l.List| - k, 1
  {
    var p := l.List[k];
    ghost var t := TreeAt(l.List, k);
    assert t.Keyed? && |t.entries| == p.length && t.name == p.name;
    var cur := m;
    var i := 0;
    while i < p.length
      invariant i <= p.length && cur.MapOf?
      invariant M.FromMapToMapAsWritten(t, 0, m, ro) == M.FromMapToMapAsWritten(t, i, cur, ro)
    {
      ChildAt(l.List, k, i);
      var c := l.List[p.first + i];
      assert t.entries[i] == Entry(c.name, TreeAt(l.List, p.first + i));
      var x := FromMiddleValue(l, p.first + i, Zero(cur.elem), false);
      assert x == M.FromTree(t.entries[i].tree, Zero(cur.elem), false);
      if x.Panic? {
        return M.Panic;
      }
      // `SetMapIndex` panics on a read-only map.
      if ro {
        return M.Panic;
      }
      ghost var before := cur;
      cur := cur.(entries := M.Put(cur.entries, M.StrKey(p.name), x.value));
      assert M.FromMapToMapAsWritten(t, i, before, ro) == M.FromMapToMapAsWritten(t, i + 1, cur, ro);
      i := i + 1;
    }
    return M.Ok(cur);
  }

  /** `sf` is what `TypeFields` gives for a list of fields. */
  ghost predicate Indexed(sf: StructFields) {
    (forall n :: n in sf.byExactName <==> FieldNamed(sf.list, n).Some?) &&
    (forall n :: n in sf.byExactName ==> Some(sf.byExactName[n]) == FieldNamed(sf.list, n))
  }

  /** bean.go:481-505. */
  method FromMapToStruct(l: MiddleValueList, k: nat, s: Value, sf: StructFields, ro: bool) returns (r: M.Outcome<Value>)
    requires l.Valid() && k < |l.List| && l.List[k].typ == MapValue && Indexed(sf)
    ensures r == M.FromMapToStruct(TreeAt(l.List, k), 0, s, sf.list, ro)
    decreases |l.List| - k, 1
  {
    var p := l.List[k];
    ghost var t := TreeAt(l.List, k);
    var cur := s;
    var i := 0;
    while i < p.length
      invariant i <= p.length
      invariant M.FromMapToStruct(t, 0, s, sf.list, ro) == M.FromMapToStruct(t, i, cur, sf.list, ro)
    {
      ChildAt(l.List, k, i);
      var e := l.List[p.first + i];
      if e.name in sf.byExactName {
        var f := sf.list[sf.byExactName[e.name]];
        var x := SetPath(l, k, i, cur, f.index, ro);
        if x.Panic? {
          return M.Panic;
        }
        cur := x.value;
      }
      i := i + 1;
    }
    return M.Ok(cur);
  }

  /** Where a step of the index path was taken: from `outer`, into field `j`. */
  datatype Step = Step(outer: Value, j: nat)

  predicate Enterable(steps: seq<Step>) {
    forall q :: 0 <= q < |steps| ==> M.CanEnter(steps[q].outer, steps[q].j)
  }

  /** The value the walk started from, once the location it ended at holds `x`. */
  function Unwind(steps: seq<Step>, x: Value): Value
    requires Enterable(steps)
  {
    if steps == [] then x
    else M.Refill(steps[0].outer, steps[0].j, Unwind(steps[1..], x))
  }

  lemma {:induction false} UnwindSnoc(steps: seq<Step>, s: Step, x: Value)
    requires Enterable(steps) && M.CanEnter(s.outer, s.j)
    ensures Enterable(steps + [s])
    ensures Unwind(steps + [s], x) == Unwind(steps, M.Refill(s.outer, s.j, x))
  {
    assert forall q :: 0 <= q < |steps| ==> (steps + [s])[q] == steps[q];
    assert (steps + [s])[|steps|] == s;
    if steps != [] {
      assert (steps + [s])[1..] == steps[1..] + [s];
      UnwindSnoc(steps[1..], s, x);
    }
  }

  function Unwound(steps: seq<Step>, o: M.Outcome<Value>): M.Outcome<Value>
    requires Enterable(steps)
  {
    match o
    case Panic => M.Panic
    case Ok(x) => M.Ok(Unwind(steps, x))
  }

  /** Where a step of the walk ends it: at a read-only nil pointer, or at a
      location that is not a struct with the field wanted. */
  lemma SetPathStops(t: Tree, i: nat, v: Value, path: seq<nat>, ro: bool)
    requires t.Keyed? && i < |t.entries| && path != []
    ensures v.Pointer? && v.target.None? && ro ==>
      M.SetPath(t, i, v, path, ro) == match M.FromTree(t.entries[i].tree, Invalid, ro)
        case Panic => M.Panic
        case Ok(_) => M.Ok(v)
    ensures !(v.Pointer? && v.target.None? && ro) && !M.CanEnter(v, path[0]) ==>
      M.SetPath(t, i, v, path, ro) == M.Panic
  {
  }

  /** A step of the walk into field `path[0]` of the struct entered from `v`. */
  lemma SetPathEnters(t: Tree, i: nat, steps: seq<Step>, v: Value, path: seq<nat>, ro: bool)
    requires t.Keyed? && i < |t.entries| && Enterable(steps) && path != []
    requires !(v.Pointer? && v.target.None? && ro) && M.CanEnter(v, path[0])
    ensures Enterable(steps + [Step(v, path[0])])
    ensures Unwound(steps, M.SetPath(t, i, v, path, ro)) ==
      Unwound(steps + [Step(v, path[0])],
        M.SetPath(t, i, M.Inner(v).fields[path[0]], path[1..], !M.Exported(M.Inner(v).st, path[0])))
  {
    var o := M.SetPath(t, i, M.Inner(v).fields[path[0]], path[1..], !M.Exported(M.Inner(v).st, path[0]));
    UnwindSnoc(steps, Step(v, path[0]), if o.Ok? then o.value else Invalid);
  }

  /** bean.go:489-503: walk the index path from `v`, then write child `i` of node
      `k` where it ends. */
  method SetPath(l: MiddleValueList, k: nat, i: nat, v: Value, path: seq<nat>, ro: bool) returns (r: M.Outcome<Value>)
    requires l.Valid() && k < |l.List| && l.List[k].typ == MapValue && i < l.List[k].length
    ensures r == M.SetPath(TreeAt(l.List, k), i, v, path, ro)
    decreases |l.List| - k, 0
  {
    ghost var t := TreeAt(l.List, k);
    ChildAt(l.List, k, i);
    var c := l.List[k].first + i;
    assert t.Keyed? && t.entries[i].tree == TreeAt(l.List, c);
    var cur := v;
    var curRo := ro;
    var steps: seq<Step> := [];
    var q := 0;
    while q < |path|
      invariant q <= |path| && Enterable(steps)
      invariant M.SetPath(t, i, v, path, ro) == Unwound(steps, M.SetPath(t, i, cur, path[q..], curRo))
    {
      assert path[q..][0] == path[q] && path[q..][1..] == path[q + 1..];
      SetPathStops(t, i, cur, path[q..], curRo);
      if cur.Pointer? && cur.target.None? && curRo {
        // A nil pointer that cannot be set: the walk ends at the zero `reflect.Value`.
        var x := FromMiddleValue(l, c, Invalid, curRo);
        if x.Panic? {
          return M.Panic;
        }
        return M.Ok(Unwind(steps, cur));
      }
      var w := M.Inner(cur);
      if !w.StructOf? || path[q] >= |w.fields| {
        // `Field` panics on anything but a struct, or past its last field.
        return M.Panic;
      }
      SetPathEnters(t, i, steps, cur, path[q..], curRo);
      steps := steps + [Step(cur, path[q])];
      curRo := !M.Exported(w.st, path[q]);
      cur := w.fields[path[q]];
      q := q + 1;
    }
    var x := FromMiddleValue(l, c, cur, curRo);
    r := Unwound(steps, x);
  }
}
