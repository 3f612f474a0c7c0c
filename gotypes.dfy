/** The part of Go's runtime type and value model that bean.go relies on:
    the kinds the encoders and materializers dispatch on, struct field
    descriptions as reflect reports them, and values carrying their shape. */
module GoTypes {
  import opened Wrappers

  /** The scalar kinds that get a leaf encoder (bean.go:173-175). */
  datatype BasicKind =
    | Bool | Int | Int8 | Int16 | Int32 | Int64
    | Uint | Uint8 | Uint16 | Uint32 | Uint64
    | Float32 | Float64 | Complex64 | Complex128 | String

  /** A runtime type. `Opaque` stands for the kinds no encoder handles (channels,
      functions, uintptr, unsafe pointers); `nillable` says whether `IsNil` accepts it.
      Pointer types are unnamed, as every embedded pointer type in Go is. */
  datatype Type =
    | Basic(kind: BasicKind)
    | Ptr(elem: Type)
    | Slice(elem: Type)
    | Array(len: nat, elem: Type)
    | Map(key: Type, elem: Type)
    | Interface
    | Struct(name: string, fields: seq<FieldDecl>)
    | Opaque(name: string, nillable: bool)

  /** One declared struct field, as `reflect.StructField` reports it; `tag` is the
      value of its `json` key (`sf.Tag.Get("json")`), "" when absent. */
  datatype FieldDecl = FieldDecl(name: string, exported: bool, anonymous: bool, tag: string, typ: Type)

  /** The payload of a scalar; floating-point and complex numbers are kept opaque. */
  datatype Lit = BoolLit(b: bool) | IntLit(i: int) | StringLit(s: string) | OtherLit(bits: int)

  /** A runtime value. `Invalid` is the zero `reflect.Value` (what `reflect.ValueOf(nil)`
      gives). Map entries are listed in the order an iteration over the map visits them. */
  datatype Value =
    | Invalid
    | Prim(kind: BasicKind, lit: Lit)
    | Pointer(pointee: Type, target: Option<Value>)
    | SliceOf(elem: Type, isNil: bool, items: seq<Value>)
    | ArrayOf(elem: Type, items: seq<Value>)
    | MapOf(key: Type, elem: Type, isNil: bool, entries: seq<MapEntry>)
    | Iface(held: Option<Value>)
    | StructOf(st: Type, fields: seq<Value>)
    | OpaqueOf(name: string, nillable: bool, isNil: bool)

  datatype MapEntry = MapEntry(key: Value, val: Value)

  /** `reflect.Value.Type()`; the invalid value has none. */
  function TypeOf(v: Value): Type
    requires v != Invalid
  {
    match v
    case Prim(k, _) => Basic(k)
    case Pointer(e, _) => Ptr(e)
    case SliceOf(e, _, _) => Slice(e)
    case ArrayOf(e, items) => Array(|items|, e)
    case MapOf(k, e, _, _) => Map(k, e)
    case Iface(_) => Interface
    case StructOf(t, _) => t
    case OpaqueOf(n, nb, _) => Opaque(n, nb)
  }

  /** The kinds `reflect.Value.IsNil` accepts. */
  predicate Nillable(v: Value) {
    v.Pointer? || v.SliceOf? || v.MapOf? || v.Iface? || (v.OpaqueOf? && v.nillable)
  }

  predicate IsNil(v: Value)
    requires Nillable(v)
  {
    match v
    case Pointer(_, t) => t.None?
    case SliceOf(_, n, _) => n
    case MapOf(_, _, n, _) => n
    case Iface(h) => h.None?
    case OpaqueOf(_, _, n) => n
  }

  function ZeroLit(k: BasicKind): Lit {
    match k
    case Bool => BoolLit(false)
    case String => StringLit("")
    case Float32 | Float64 | Complex64 | Complex128 => OtherLit(0)
    case _ => IntLit(0)
  }

  /** The literal a scalar of kind `k` carries. */
  predicate LitFits(k: BasicKind, lit: Lit) {
    match k
    case Bool => lit.BoolLit?
    case String => lit.StringLit?
    case Float32 | Float64 | Complex64 | Complex128 => lit.OtherLit?
    case _ => lit.IntLit?
  }

  /** `reflect.Zero(t)`. */
  function Zero(t: Type): (z: Value)
    ensures z != Invalid
  {
    match t
    case Basic(k) => Prim(k, ZeroLit(k))
    case Ptr(e) => Pointer(e, None)
    case Slice(e) => SliceOf(e, true, [])
    case Array(n, e) => ArrayOf(e, seq(n, _ => Zero(e)))
    case Map(k, e) => MapOf(k, e, true, [])
    case Interface => Iface(None)
    case Struct(_, fs) => StructOf(t, ZeroFields(fs))
    case Opaque(n, nb) => OpaqueOf(n, nb, nb)
  }

  function ZeroFields(fs: seq<FieldDecl>): (zs: seq<Value>)
    ensures |zs| == |fs|
  {
    if fs == [] then [] else [Zero(fs[0].typ)] + ZeroFields(fs[1..])
  }

  /** `v` is a value Go could hold in a location of type `t`. */
  predicate HasType(v: Value, t: Type) {
    match v
    case Invalid => false
    case Prim(k, lit) => t == Basic(k) && LitFits(k, lit)
    case Pointer(e, tg) => t == Ptr(e) && (tg.Some? ==> HasType(tg.value, e))
    case SliceOf(e, n, items) =>
      t == Slice(e) && (n ==> items == []) && forall i :: 0 <= i < |items| ==> HasType(items[i], e)
    case ArrayOf(e, items) =>
      t == Array(|items|, e) && forall i :: 0 <= i < |items| ==> HasType(items[i], e)
    case MapOf(k, e, n, es) =>
      t == Map(k, e) && (n ==> es == []) && EntriesHaveType(es, k, e) && UniqueKeys(es)
    case Iface(h) => t == Interface && (h.Some? ==> !h.value.Iface? && h.value != Invalid && HasType(h.value, TypeOf(h.value)))
    case StructOf(st, fs) =>
      t == st && st.Struct? && |fs| == |st.fields| &&
      forall i :: 0 <= i < |fs| ==> HasType(fs[i], st.fields[i].typ)
    case OpaqueOf(n, nb, isNil) => t == Opaque(n, nb) && (isNil ==> nb)
  }

  /** A Go map holds each key at most once. */
  predicate UniqueKeys(es: seq<MapEntry>) {
    forall i, j :: 0 <= i < j < |es| ==> es[i].key != es[j].key
  }

  /** With unique keys, two entries under the same key are the same entry. */
  lemma UniqueKeysLookup(es: seq<MapEntry>, a: MapEntry, b: MapEntry)
    requires UniqueKeys(es) && a in es && b in es && a.key == b.key
    ensures a == b
  {
    var i :| 0 <= i < |es| && es[i] == a;
    var j :| 0 <= j < |es| && es[j] == b;
    assert i == j;
  }

  predicate EntriesHaveType(es: seq<MapEntry>, k: Type, e: Type) {
    forall i :: 0 <= i < |es| ==> EntryHasType(es[i], k, e)
  }

  predicate EntryHasType(me: MapEntry, k: Type, e: Type) {
    HasType(me.key, k) && HasType(me.val, e)
  }

  predicate WellTyped(v: Value) {
    v != Invalid && HasType(v, TypeOf(v))
  }

  /** A value of type `t` is valid and reports `t` as its type. */
  lemma HasTypeOf(v: Value, t: Type)
    requires HasType(v, t)
    ensures v != Invalid && TypeOf(v) == t && WellTyped(v)
  {
  }

  /** The zero value of a type has that type. */
  lemma {:induction false} ZeroHasType(t: Type)
    ensures HasType(Zero(t), t)
  {
    match t
    case Basic(k) =>
      assert LitFits(k, ZeroLit(k));
    case Array(n, e) =>
      ZeroHasType(e);
    case Struct(_, fs) =>
      ZeroFieldsHaveType(fs);
    case _ =>
  }

  lemma {:induction false} ZeroFieldsHaveType(fs: seq<FieldDecl>)
    ensures forall i :: 0 <= i < |fs| ==> HasType(ZeroFields(fs)[i], fs[i].typ)
  {
    if fs != [] {
      ZeroHasType(fs[0].typ);
      ZeroFieldsHaveType(fs[1..]);
      forall i | 0 <= i < |fs| ensures HasType(ZeroFields(fs)[i], fs[i].typ) {
        if i > 0 {
          assert ZeroFields(fs)[i] == ZeroFields(fs[1..])[i - 1];
        }
      }
    }
  }
}
