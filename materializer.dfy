/** The materializer of bean.go:267-535 as functions over the tree a node
    denotes: what the destination holds after a node is written into it. A
    destination is a location holding a value; `ro` says the location was
    reached through an unexported embedded field (reflect's read-only flag), so
    `Set` on it panics. Go's in-place updates through pointers become the new
    value of the location, rebuilt along the pointers that were followed. */
module Materializer {
  import opened Wrappers
  import opened GoTypes
  import opened FieldOrder
  import opened FieldResolver
  import opened FieldScan
  import opened Arena

  /** Either the new content of the destination, or a panic inside `reflect`. */
  datatype Outcome<T> = Ok(value: T) | Panic

  /** A Go string used as a map key. */
  function StrKey(s: string): Value {
    Prim(String, StringLit(s))
  }

  /** `SetMapIndex`: the entry of `key` gets `val`, in place when the key is present,
      appended otherwise. */
  function Put(es: seq<MapEntry>, key: Value, val: Value): (r: seq<MapEntry>)
    ensures MapEntry(key, val) in r
    ensures forall e :: e in es && e.key != key ==> e in r
    ensures forall e :: e in r ==> e == MapEntry(key, val) || e in es
  {
    if es == [] then [MapEntry(key, val)]
    else if es[0].key == key then [MapEntry(key, val)] + es[1..]
    else [es[0]] + Put(es[1..], key, val)
  }

  /** On a map with unique keys, `SetMapIndex` replaces: the keys stay unique and
      the key stored holds the new value alone. */
  lemma {:induction false} PutUnique(es: seq<MapEntry>, key: Value, val: Value)
    requires UniqueKeys(es)
    ensures UniqueKeys(Put(es, key, val))
    ensures forall e :: e in Put(es, key, val) && e.key == key ==> e.val == val
  {
    if es != [] {
      if es[0].key == key {
        assert forall e :: e in es[1..] ==> e.key != key;
      } else {
        PutUnique(es[1..], key, val);
        assert forall e :: e in Put(es[1..], key, val) ==> e.key != es[0].key;
      }
    }
  }

  // ---------------------------------------------------------------- makeValue

  /** One step `makeValue` takes down from a location: through a pointer, or through
      an interface holding a non-nil pointer to a pointer and then that pointer. */
  datatype Layer = PtrLayer(elem: Type) | IfaceLayer(elem: Type)

  /** Where `makeValue` ends: the layers passed, outermost first, and the value at
      the location reached; or a panic allocating a read-only nil pointer. */
  datatype Descent = Found(layers: seq<Layer>, bottom: Value) | Stuck

  function TypeDepth(t: Type): nat {
    if t.Ptr? then 1 + TypeDepth(t.elem) else 0
  }

  /** How many steps `makeValue` can take from `v`. */
  function Depth(v: Value): nat {
    match v
    case Pointer(e, tg) => 1 + (if tg.Some? then Depth(tg.value) else TypeDepth(e))
    case Iface(h) => if h.Some? then 1 + Depth(h.value) else 0
    case _ => 0
  }

  lemma ZeroDepth(t: Type)
    ensures Depth(Zero(t)) <= TypeDepth(t)
  {
  }

  /** bean.go:509-515: an interface is entered when it holds a non-nil pointer to a pointer. */
  predicate EntersInterface(v: Value) {
    v.Iface? && v.held.Some? && v.held.value.Pointer? && v.held.value.target.Some? &&
    v.held.value.target.value.Pointer?
  }

  function Under(l: Layer, d: Descent): Descent {
    match d
    case Stuck => Stuck
    case Found(ls, b) => Found([l] + ls, b)
  }

  /** bean.go:507-535: follow pointers, allocating a zero value for each nil one,
      until a non-pointer is reached. */
  function Descend(v: Value, ro: bool): Descent
    decreases Depth(v)
  {
    if EntersInterface(v) then
      assert Depth(v) == 2 + Depth(v.held.value.target.value);
      Under(IfaceLayer(v.held.value.pointee), Descend(v.held.value.target.value, ro))
    else if v.Pointer? then
      if v.target.Some? then Under(PtrLayer(v.pointee), Descend(v.target.value, ro))
      else if ro then Stuck
      else
        ZeroDepth(v.pointee);
        Under(PtrLayer(v.pointee), Descend(Zero(v.pointee), ro))
    else Found([], v)
  }

  /** The value of the outer location once the location reached holds `b`. */
  function Rebuild(ls: seq<Layer>, b: Value): Value {
    if ls == [] then b
    else
      match ls[0]
      case PtrLayer(e) => Pointer(e, Some(Rebuild(ls[1..], b)))
      case IfaceLayer(e) => Iface(Some(Pointer(e, Some(Rebuild(ls[1..], b)))))
  }

  // ------------------------------------------- valueInterface and its helpers

  /** bean.go:282-298: the `interface{}` value a node denotes: nil, the scalar,
      a `[]interface{}` or a `map[string]interface{}`. */
  function ValueInterface(t: Tree): Outcome<Value>
    decreases t, 2, 0
  {
    match t
    case Null => Ok(Iface(None))
    case Leaf(pv) => if pv == Invalid then Panic else Ok(Iface(Some(pv)))
    case Items(_) =>
      (match ArrayInterface(t, 0, [])
       case Panic => Panic
       case Ok(xs) => Ok(Iface(Some(SliceOf(Interface, false, xs)))))
    case Keyed(_, _) =>
      match ObjectInterface(t, 0, [])
      case Panic => Panic
      case Ok(es) => Ok(Iface(Some(MapOf(Basic(String), Interface, false, es))))
  }

  /** bean.go:300-306 from child `i` on, `acc` holding the earlier elements. */
  function ArrayInterface(t: Tree, i: nat, acc: seq<Value>): Outcome<seq<Value>>
    requires t.Items?
    decreases t, 1, |t.elems| - i
  {
    if i >= |t.elems| then Ok(acc)
    else
      match ValueInterface(t.elems[i])
      case Panic => Panic
      case Ok(x) => ArrayInterface(t, i + 1, acc + [x])
  }

  /** bean.go:308-314 from child `i` on: each child is stored under its own name, a
      later child replacing an earlier one of the same name. */
  function ObjectInterface(t: Tree, i: nat, acc: seq<MapEntry>): Outcome<seq<MapEntry>>
    requires t.Keyed?
    decreases t, 1, |t.entries| - i
  {
    if i >= |t.entries| then Ok(acc)
    else
      match ValueInterface(t.entries[i].tree)
      case Panic => Panic
      case Ok(x) => ObjectInterface(t, i + 1, Put(acc, StrKey(t.entries[i].name), x))
  }

  // ----------------------------------------------------------- fromMiddleValue

  /** bean.go:267-280: write the tree `t` into a location holding `d`. */
  function FromTree(t: Tree, d: Value, ro: bool): Outcome<Value>
    decreases t, 4, 0
  {
    match t
    case Null => Ok(d)
    case Leaf(pv) => FromSimple(pv, d, ro)
    case Items(_) => FromSlice(t, d, ro)
    case Keyed(_, _) => FromMap(t, d, ro)
  }

  /** bean.go:316-318: `Set` needs a writable, valid location and a valid value
      whose type is the location's, unless the location is an interface. */
  function FromSimple(pv: Value, d: Value, ro: bool): Outcome<Value> {
    match Descend(d, ro)
    case Stuck => Panic
    case Found(ls, b) =>
      if ro || b == Invalid || pv == Invalid then Panic
      else if b.Iface? then Ok(Rebuild(ls, Iface(Some(pv))))
      else if TypeOf(pv) == TypeOf(b) then Ok(Rebuild(ls, pv))
      else Panic
  }

  /** bean.go:427-432 from child `i` on: child `i` is written into element `i` while
      the destination has one. */
  function FillFrom(t: Tree, i: nat, items: seq<Value>, ro: bool): (r: Outcome<seq<Value>>)
    requires t.Items?
    ensures r.Ok? ==> |r.value| == |items|
    decreases t, 1, |t.elems| - i
  {
    if i >= |t.elems| then Ok(items)
    else if i < |items| then
      match FromTree(t.elems[i], items[i], ro)
      case Panic => Panic
      case Ok(x) => FillFrom(t, i + 1, items[i := x], ro)
    else FillFrom(t, i + 1, items, ro)
  }

  /** The elements `Index` gives of a string: its bytes, as locations that cannot
      be set (one byte per character). */
  function Bytes(s: string): (r: seq<Value>)
    ensures |r| == |s|
  {
    seq(|s|, i requires 0 <= i < |s| => Prim(Uint8, IntLit(s[i] as int)))
  }

  /** When a string destination takes a slice node: every child over the string's
      bytes must be one that writes nothing into a byte, and there must be no fewer
      children than bytes, since `SetLen` panics on a string. */
  predicate StringAccepts(ts: seq<Tree>, s: string) {
    |ts| >= |s| && forall i :: 0 <= i < |s| ==> ts[i].Null? || ts[i].Keyed?
  }

  /** The outer value once the location reached through the layers `ls` holds
      what `o` says. */
  function Lift(ls: seq<Layer>, o: Outcome<Value>): Outcome<Value> {
    match o
    case Panic => Panic
    case Ok(x) => Ok(Rebuild(ls, x))
  }

  /** bean.go:412-445: `makeValue`, then the write at the location reached. */
  function FromSlice(t: Tree, d: Value, ro: bool): Outcome<Value>
    requires t.Items?
    decreases t, 3, 0
  {
    match Descend(d, ro)
    case Stuck => Panic
    case Found(ls, b) => Lift(ls, SliceAt(t, b, ro))
  }

  /** bean.go:418-444: a slice node written at the location `makeValue` reached,
      which holds `b`. */
  function SliceAt(t: Tree, b: Value, ro: bool): Outcome<Value>
    requires t.Items?
    decreases t, 2, 0
  {
    var n := |t.elems|;
    match b
    case Iface(_) =>
      (match ValueInterface(t)
       case Panic => Panic
       case Ok(x) => if ro then Panic else Ok(x))
    case SliceOf(e, _, _) =>
      if ro then Panic
      else
        (match FillFrom(t, 0, seq(n, _ => Zero(e)), false)
         case Panic => Panic
         case Ok(xs) => Ok(SliceOf(e, false, xs)))
    case ArrayOf(e, items) =>
      (match FillFrom(t, 0, items, ro)
       case Panic => Panic
       case Ok(xs) =>
         if n >= |items| then Ok(ArrayOf(e, xs))
         else if ro then Panic
         else Ok(ArrayOf(e, xs[..n] + seq(|items| - n, _ => Zero(e)))))
    case Prim(pk, lit) =>
      if pk == String && lit.StringLit? then
        (match FillFrom(t, 0, Bytes(lit.s), true)
         case Panic => Panic
         case Ok(_) => if n >= |lit.s| then Ok(b) else Panic)
      else Panic
    case MapOf(_, _, _, es) =>
      if es == [] then Ok(b) else Panic
    case _ => Panic
  }

  /** bean.go:447-469: `makeValue`, then the write at the location reached. */
  function FromMap(t: Tree, d: Value, ro: bool): Outcome<Value>
    requires t.Keyed?
    decreases t, 3, 0
  {
    match Descend(d, ro)
    case Stuck => Panic
    case Found(ls, b) => Lift(ls, MapAt(t, b, ro))
  }

  /** bean.go:449-468: a map node written at the location `makeValue` reached,
      which holds `b`. */
  function MapAt(t: Tree, b: Value, ro: bool): Outcome<Value>
    requires t.Keyed?
    decreases t, 2, 0
  {
    match b
    case Invalid => Panic
    case Iface(_) =>
      (match ValueInterface(t)
       case Panic => Panic
       case Ok(x) => if ro then Panic else Ok(x))
    case MapOf(k, e, isNil, es) =>
      if k != Basic(String) then Ok(b)
      else if isNil && ro then Panic
      else FromMapToMapAsWritten(t, 0, MapOf(k, e, false, if isNil then [] else es), ro)
    case StructOf(st, _) => FromMapToStruct(t, 0, b, ResolvedFields(st), ro)
    case _ => Ok(b)
  }

  /** bean.go:471-479 as evidently intended, which the code does not do: from
      child `i` on, each child is written into a fresh zero element, which is
      stored under the child's own name. */
  function FromMapToMap(t: Tree, i: nat, m: Value, ro: bool): Outcome<Value>
    requires t.Keyed? && m.MapOf?
    decreases t, 1, |t.entries| - i
  {
    if i >= |t.entries| then Ok(m)
    else
      match FromTree(t.entries[i].tree, Zero(m.elem), false)
      case Panic => Panic
      case Ok(x) =>
        if ro then Panic
        else FromMapToMap(t, i + 1, m.(entries := Put(m.entries, StrKey(t.entries[i].name), x)), ro)
  }

  /** bean.go:471-479: from child `i` on, each child is written into a fresh zero
      element, which is stored under the name of the map node itself, not the
      child's (bean.go:476). */
  function FromMapToMapAsWritten(t: Tree, i: nat, m: Value, ro: bool): Outcome<Value>
    requires t.Keyed? && m.MapOf?
    decreases t, 1, |t.entries| - i
  {
    if i >= |t.entries| then Ok(m)
    else
      match FromTree(t.entries[i].tree, Zero(m.elem), false)
      case Panic => Panic
      case Ok(x) =>
        if ro then Panic
        else FromMapToMapAsWritten(t, i + 1, m.(entries := Put(m.entries, StrKey(t.name), x)), ro)
  }

  /** bean.go:481-505 from child `i` on: a child named like a visible field of the
      struct `s` is written into that field; other children are ignored. */
  function FromMapToStruct(t: Tree, i: nat, s: Value, fields: seq<Field>, ro: bool): Outcome<Value>
    requires t.Keyed?
    decreases t, 1, |t.entries| - i
  {
    if i >= |t.entries| then Ok(s)
    else
      match FieldNamed(fields, t.entries[i].name)
      case None => FromMapToStruct(t, i + 1, s, fields, ro)
      case Some(j) =>
        match SetPath(t, i, s, fields[j].index, ro)
        case Panic => Panic
        case Ok(s') => FromMapToStruct(t, i + 1, s', fields, ro)
  }

  /** Whether field `j` of struct type `st` is exported; `Field` marks an unexported
      one read-only. */
  predicate Exported(st: Type, j: nat) {
    st.Struct? && j < |st.fields| && st.fields[j].exported
  }

  /** bean.go:489-502: follow `path` from `v`, allocating nil embedded pointers that
      can be set, and write child `i` of `t` where the path ends. A nil pointer that
      cannot be set ends the walk at the invalid location, which only an empty
      child leaves alone. */
  function SetPath(t: Tree, i: nat, v: Value, path: seq<nat>, ro: bool): Outcome<Value>
    requires t.Keyed? && i < |t.entries|
    decreases t, 0, |path|
  {
    var child := t.entries[i].tree;
    if path == [] then FromTree(child, v, ro)
    else if v.Pointer? && v.target.None? && ro then
      match FromTree(child, Invalid, ro)
      case Panic => Panic
      case Ok(_) => Ok(v)
    else
      var w := Inner(v);
      if w.StructOf? && path[0] < |w.fields| then
        match SetPath(t, i, w.fields[path[0]], path[1..], !Exported(w.st, path[0]))
        case Panic => Panic
        case Ok(x) => Ok(Refill(v, path[0], x))
      else Panic
  }

  /** bean.go:491-500: the struct a step of the index path enters from `v`: `v`
      itself, or what the pointer `v` refers to, a new zero value for a nil one. */
  function Inner(v: Value): Value {
    if v.Pointer? then (if v.target.Some? then v.target.value else Zero(v.pointee)) else v
  }

  /** Whether a step into field `j` can be taken from `v`. */
  predicate CanEnter(v: Value, j: nat) {
    Inner(v).StructOf? && j < |Inner(v).fields|
  }

  /** `v` once field `j` of the struct entered from it holds `x`; a nil pointer
      stepped through now refers to that struct. */
  function Refill(v: Value, j: nat, x: Value): (r: Value)
    requires CanEnter(v, j)
    ensures r.Pointer? == v.Pointer?
    ensures v.Pointer? ==> r.pointee == v.pointee && r.target.Some?
    ensures CanEnter(r, j) && Inner(r).st == Inner(v).st && |Inner(r).fields| == |Inner(v).fields|
    ensures Inner(r).fields[j] == x
    ensures forall k :: 0 <= k < |Inner(v).fields| && k != j ==> Inner(r).fields[k] == Inner(v).fields[k]
  {
    var w := Inner(v);
    var w' := w.(fields := w.fields[j := x]);
    if v.Pointer? then Pointer(v.pointee, Some(w')) else w'
  }
}
