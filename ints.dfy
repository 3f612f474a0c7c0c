/** Integer casting (int.go): `ToInt64E` and the narrowing wrappers.
    Go integers have fixed widths; Dafny's `int` is unbounded, so every
    Go conversion `intN(x)` is written out as two's-complement wrap-around. */
module Ints {
  import opened Wrappers

  /** The fixed widths the wrappers narrow to. Go's `int` is 64 bits wide here. */
  datatype Width = W8 | W16 | W32 | W64

  function Modulus(w: Width): (m: nat)
    ensures m >= 256
  {
    match w
    case W8 => 0x100
    case W16 => 0x1_0000
    case W32 => 0x1_0000_0000
    case W64 => 0x1_0000_0000_0000_0000
  }

  /** Smallest and one past the largest value of a signed integer of width `w`. */
  function MinSigned(w: Width): int { -(Modulus(w) / 2) }
  function MaxSignedExcl(w: Width): int { Modulus(w) / 2 }

  predicate InSignedRange(w: Width, x: int) {
    MinSigned(w) <= x < MaxSignedExcl(w)
  }

  /** Go's conversion of an integer to the signed type of width `w`: keep the low
      bits and read them in two's complement. */
  function Wrap(x: int, w: Width): int {
    var m := Modulus(w);
    var r := x % m;
    if r >= m / 2 then r - m else r
  }

  lemma WrapInRange(x: int, w: Width)
    ensures InSignedRange(w, Wrap(x, w))
  {
    var m := Modulus(w);
    assert 0 <= x % m < m;
  }

  /** Wrap-around changes a value by a multiple of the modulus. */
  lemma WrapCongruent(x: int, w: Width)
    ensures (Wrap(x, w) - x) % Modulus(w) == 0
  {
    var m := Modulus(w);
    var q := x / m;
    var r := x % m;
    assert x == q * m + r;
    if r >= m / 2 {
      assert Wrap(x, w) - x == (-q - 1) * m;
    } else {
      assert Wrap(x, w) - x == (-q) * m;
    }
  }

  /** A value that already fits is left alone. */
  lemma WrapIdentity(x: int, w: Width)
    requires InSignedRange(w, x)
    ensures Wrap(x, w) == x
  {
    match w
    case W8 => assert x % 0x100 == if x >= 0 then x else x + 0x100;
    case W16 => assert x % 0x1_0000 == if x >= 0 then x else x + 0x1_0000;
    case W32 => assert x % 0x1_0000_0000 == if x >= 0 then x else x + 0x1_0000_0000;
    case W64 =>
      assert x % 0x1_0000_0000_0000_0000 == if x >= 0 then x else x + 0x1_0000_0000_0000_0000;
  }

  /** The integer kinds a Go type switch distinguishes. */
  datatype IntKind = Int | Int8 | Int16 | Int32 | Int64 | Uint | Uint8 | Uint16 | Uint32 | Uint64

  predicate IsSigned(k: IntKind) {
    k in {Int, Int8, Int16, Int32, Int64}
  }

  function KindWidth(k: IntKind): Width {
    match k
    case Int8 | Uint8 => W8
    case Int16 | Uint16 => W16
    case Int32 | Uint32 => W32
    case _ => W64
  }

  /** The values a variable of kind `k` can hold. */
  predicate Representable(k: IntKind, v: int) {
    if IsSigned(k) then InSignedRange(KindWidth(k), v) else 0 <= v < Modulus(KindWidth(k))
  }

  /** The Go type names of int.go's type switch cases (int.go:62-126), integer,
      float, string and bool, direct and behind a pointer. */
  const CaseTypeNames: set<string> := {
    "int", "int8", "int16", "int32", "int64",
    "*int", "*int8", "*int16", "*int32", "*int64",
    "uint", "uint8", "uint16", "uint32", "uint64",
    "*uint", "*uint8", "*uint16", "*uint32", "*uint64",
    "float32", "float64", "*float32", "*float64",
    "string", "*string", "bool", "*bool"
  }

  /** What a pointer case points to. */
  datatype Pointee = IntPointee(kind: IntKind) | BoolPointee

  /** A dynamically typed argument (`any`) of the scalar casts, restricted to the
      cases modelled here. `viaPointer` marks the `*T` cases, whose pointee is read;
      `NilPointerArg` is a typed nil pointer `(*T)(nil)`, which is not a nil `any`. */
  datatype Dynamic =
    | NilArg
    | IntArg(kind: IntKind, value: int, viaPointer: bool)
    | BoolArg(flag: bool, viaPointer: bool)
    | NilPointerArg(pointee: Pointee)
    | DurationArg(nanos: int)        // time.Duration, a named int64 type
    | OtherArg(typeName: string)     // any type the switch has no case for

  /** An `OtherArg` names a type none of the cases catch: not a case type (the float
      and string cases among them, which are not modelled) and not `time.Duration`. */
  predicate WellFormed(i: Dynamic) {
    match i
    case IntArg(k, v, _) => Representable(k, v)
    case DurationArg(d) => InSignedRange(W64, d)
    case OtherArg(t) => t !in CaseTypeNames && t != "time.Duration"
    case _ => true
  }

  /** Go's `(int64, error)` pair; the error carries its message. `NilDereference`
      is the run-time panic of reading through a nil pointer. */
  datatype Cast = Cast(value: int, err: Option<string>) | NilDereference

  /** int.go:61-129 (integer, bool, nil and default cases). Every pointer case
      reads `*s`, so a nil pointer of any of those types panics. */
  function ToInt64E(i: Dynamic): Cast {
    match i
    case NilArg => Cast(0, None)
    case IntArg(_, v, _) => Cast(Wrap(v, W64), None)
    case BoolArg(b, _) => Cast(if b then 1 else 0, None)
    case NilPointerArg(_) => NilDereference
    case DurationArg(_) => Cast(0, Some("unable to cast type (time.Duration) to int64"))
    case OtherArg(t) => Cast(0, Some("unable to cast type (" + t + ") to int64"))
  }

  /** What a wrapper call does: return its value, or panic as the cast it wraps does. */
  datatype Call = Returns(result: int) | Panics

  /** The wrappers drop the error and convert the int64 with Go's conversion. */
  function ToInt(i: Dynamic): Call {
    var c := ToInt64E(i);
    if c.NilDereference? then Panics else Returns(c.value)
  }
  function ToInt8(i: Dynamic): Call {
    var c := ToInt64E(i);
    if c.NilDereference? then Panics else Returns(Wrap(c.value, W8))
  }
  function ToInt16(i: Dynamic): Call {
    var c := ToInt64E(i);
    if c.NilDereference? then Panics else Returns(Wrap(c.value, W16))
  }
  function ToInt32(i: Dynamic): Call {
    var c := ToInt64E(i);
    if c.NilDereference? then Panics else Returns(Wrap(c.value, W32))
  }
  function ToInt64(i: Dynamic): Call {
    var c := ToInt64E(i);
    if c.NilDereference? then Panics else Returns(c.value)
  }

  /** Exactly the typed nil pointers panic; every other result is an int64, and
      only unsupported types report an error. */
  lemma ToInt64EShape(i: Dynamic)
    ensures ToInt64E(i).NilDereference? <==> i.NilPointerArg?
    ensures ToInt64E(i).Cast? ==> InSignedRange(W64, ToInt64E(i).value)
    ensures ToInt64E(i).Cast? ==> (ToInt64E(i).err.Some? <==> (i.DurationArg? || i.OtherArg?))
    ensures ToInt64E(i).Cast? && ToInt64E(i).err.Some? ==> ToInt64E(i).value == 0
  {
    if i.IntArg? {
      WrapInRange(i.value, W64);
    }
  }

  lemma ToInt64ENil()
    ensures ToInt64E(NilArg) == Cast(0, None)
  {
  }

  /** Signed values, direct or behind a pointer, keep their value. */
  lemma ToInt64ESigned(k: IntKind, v: int, viaPointer: bool)
    requires IsSigned(k) && Representable(k, v)
    ensures ToInt64E(IntArg(k, v, viaPointer)) == Cast(v, None)
  {
    assert InSignedRange(W64, v);
    WrapIdentity(v, W64);
  }

  /** Unsigned values are reinterpreted: those at or above 2^63 come back negative. */
  lemma ToInt64EUnsigned(k: IntKind, v: int, viaPointer: bool)
    requires !IsSigned(k) && Representable(k, v)
    ensures ToInt64E(IntArg(k, v, viaPointer)).err == None
    ensures ToInt64E(IntArg(k, v, viaPointer)).value ==
            if v < 0x8000_0000_0000_0000 then v else v - 0x1_0000_0000_0000_0000
  {
    var m := Modulus(W64);
    assert 0 <= v < m;
    assert v % m == v;
  }

  lemma ToInt64EBool(b: bool, viaPointer: bool)
    ensures ToInt64E(BoolArg(b, viaPointer)) == Cast(if b then 1 else 0, None)
  {
  }

  /** A narrowing wrapper panics exactly when the cast does, and otherwise keeps
      the low bits of the int64 result. */
  lemma NarrowingWrappers(i: Dynamic)
    ensures ToInt8(i).Panics? == ToInt16(i).Panics? == ToInt32(i).Panics? ==
            ToInt64(i).Panics? == ToInt(i).Panics? == i.NilPointerArg?
    ensures ToInt8(i).Returns? ==>
              InSignedRange(W8, ToInt8(i).result) && (ToInt8(i).result - ToInt64(i).result) % 0x100 == 0
    ensures ToInt16(i).Returns? ==>
              InSignedRange(W16, ToInt16(i).result) && (ToInt16(i).result - ToInt64(i).result) % 0x1_0000 == 0
    ensures ToInt32(i).Returns? ==>
              InSignedRange(W32, ToInt32(i).result) && (ToInt32(i).result - ToInt64(i).result) % 0x1_0000_0000 == 0
    ensures ToInt(i) == ToInt64(i)
  {
    if !i.NilPointerArg? {
      var v := ToInt64E(i).value;
      WrapInRange(v, W8);
      WrapCongruent(v, W8);
      WrapInRange(v, W16);
      WrapCongruent(v, W16);
      WrapInRange(v, W32);
      WrapCongruent(v, W32);
    }
  }

  /** Narrowing a value that fits the narrower width changes nothing. */
  lemma NarrowingKeepsSmallValues(i: Dynamic)
    requires ToInt64(i).Panics? || InSignedRange(W8, ToInt64(i).result)
    ensures ToInt8(i) == ToInt16(i) == ToInt32(i) == ToInt64(i)
  {
    if ToInt64(i).Returns? {
      var v := ToInt64(i).result;
      WrapIdentity(v, W8);
      WrapIdentity(v, W16);
      WrapIdentity(v, W32);
    }
  }
}
