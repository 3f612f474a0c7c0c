/** Following a field's index path through a struct value, as the struct
    encoder does (bean.go:233-245), and the height measure that bounds the
    encoder's recursion. */
module ValueWalk {
  import opened Wrappers
  import opened GoTypes
  import opened FieldResolver

  /** How deeply values nest inside `v`. */
  function Height(v: Value): nat {
    match v
    case Pointer(_, t) => if t.Some? then 1 + Height(t.value) else 0
    case Iface(h) => if h.Some? then 1 + Height(h.value) else 0
    case SliceOf(_, _, items) => 1 + ItemsHeight(items)
    case ArrayOf(_, items) => 1 + ItemsHeight(items)
    case MapOf(_, _, _, es) => 1 + EntriesHeight(es)
    case StructOf(_, fs) => 1 + ItemsHeight(fs)
    case _ => 0
  }

  function ItemsHeight(items: seq<Value>): nat {
    if items == [] then 0 else Max(Height(items[0]), ItemsHeight(items[1..]))
  }

  function EntriesHeight(es: seq<MapEntry>): nat {
    if es == [] then 0 else Max(EntryHeight(es[0]), EntriesHeight(es[1..]))
  }

  function EntryHeight(e: MapEntry): nat {
    Height(e.val)
  }

  lemma {:induction false} ItemsHeightBound(items: seq<Value>, k: nat)
    requires k < |items|
    ensures Height(items[k]) <= ItemsHeight(items)
  {
    if k > 0 {
      ItemsHeightBound(items[1..], k - 1);
    }
  }

  lemma {:induction false} EntriesHeightBound(es: seq<MapEntry>, k: nat)
    requires k < |es|
    ensures Height(es[k].val) <= EntriesHeight(es)
  {
    if k > 0 {
      EntriesHeightBound(es[1..], k - 1);
    }
  }

  /** Where an index path leads: to a value, to a nil pointer on the way, or
      nowhere (a step `Field` would panic on). */
  datatype Reach = Reached(v: Value) | NilOnPath | BadPath

  /** bean.go:233-245: at each step a pointer is followed once (stopping at a nil
      one), then the indexed field is taken. */
  function Walk(v: Value, path: seq<nat>): Reach {
    if path == [] then Reached(v)
    else if v.Pointer? && v.target.None? then NilOnPath
    else
      var w := if v.Pointer? then v.target.value else v;
      if w.StructOf? && path[0] < |w.fields| then Walk(w.fields[path[0]], path[1..]) else BadPath
  }

  /** A value reached by a non-empty path is lower than the value walked. */
  lemma {:induction false} WalkLower(v: Value, path: seq<nat>)
    ensures Walk(v, path).Reached? ==> Height(Walk(v, path).v) <= Height(v)
    ensures Walk(v, path).Reached? && path != [] ==> Height(Walk(v, path).v) < Height(v)
  {
    if path != [] && !(v.Pointer? && v.target.None?) {
      var w := if v.Pointer? then v.target.value else v;
      if w.StructOf? && path[0] < |w.fields| {
        WalkLower(w.fields[path[0]], path[1..]);
        ItemsHeightBound(w.fields, path[0]);
      }
    }
  }

  /** In a value of type `t`, a path that leads somewhere in `t` never fails, and
      what it reaches has the type the path leads to. */
  lemma {:induction false} WalkTyped(v: Value, t: Type, path: seq<nat>)
    requires HasType(v, t) && TypeByIndex(t, path).Some?
    ensures Walk(v, path) != BadPath
    ensures Walk(v, path).Reached? ==> HasType(Walk(v, path).v, TypeByIndex(t, path).value)
  {
    if path != [] && !(v.Pointer? && v.target.None?) {
      var w := if v.Pointer? then v.target.value else v;
      var s := Deref(t);
      assert HasType(w, s);
      WalkTyped(w.fields[path[0]], s.fields[path[0]].typ, path[1..]);
    }
  }

  /** bean.go:233-245 as its loop. */
  method FieldByIndex(v: Value, index: seq<nat>) returns (r: Reach)
    ensures r == Walk(v, index)
  {
    var fv := v;
    var k := 0;
    while k < |index|
      invariant k <= |index|
      invariant Walk(v, index) == Walk(fv, index[k..])
    {
      assert index[k..][1..] == index[k + 1..];
      if fv.Pointer? {
        if fv.target.None? {
          return NilOnPath;
        }
        fv := fv.target.value;
      }
      if !fv.StructOf? || index[k] >= |fv.fields| {
        return BadPath;
      }
      fv := fv.fields[index[k]];
      k := k + 1;
    }
    return Reached(fv);
  }
}
