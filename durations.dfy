/** Duration casting (duration.go): the option fold and the integer, nil,
    `time.Duration` and default branches of `ToDurationE`. */
module Durations {
  import opened Wrappers
  import opened Ints

  /** duration.go:24-31: nanoseconds per unit name ("\U{03BC}s" is the Greek mu). */
  const UnitMap: map<string, int> := map[
    "ns" := 1,
    "\U{03BC}s" := 1000,
    "ms" := 1000_000,
    "s" := 1000_000_000,
    "m" := 60_000_000_000,
    "h" := 3600_000_000_000
  ]

  /** The only option constructor the casts offer, `TimeFormat(format)`. */
  datatype CastOption = TimeFormat(format: string)

  datatype OptionArg = OptionArg(timeFormat: string)

  /** A missing key reads as Go's zero value, 0. */
  function UnitBase(format: string): int {
    if format in UnitMap then UnitMap[format] else 0
  }

  /** The base unit the integer branches multiply by: 1 ns without options,
      otherwise the unit of the last `TimeFormat` applied. */
  function Base(opts: seq<CastOption>): int {
    if |opts| == 0 then 1 else UnitBase(opts[|opts| - 1].format)
  }

  /** duration.go:44-52: fold the options into an `OptionArg` that starts at "ns". */
  method ApplyOptions(opts: seq<CastOption>) returns (arg: OptionArg)
    ensures arg.timeFormat == if |opts| == 0 then "ns" else opts[|opts| - 1].format
  {
    arg := OptionArg("ns");
    var k := 0;
    while k < |opts|
      invariant 0 <= k <= |opts|
      invariant arg.timeFormat == if k == 0 then "ns" else opts[k - 1].format
    {
      arg := arg.(timeFormat := opts[k].format);
      k := k + 1;
    }
  }

  /** The conversion once the base is known (duration.go:53-112 without the
      float and string branches). The integer pointer cases read `*s` and panic
      on a nil pointer; bool has no case here, so `bool` and `*bool`, nil or not,
      reach the default error. */
  function DurationOf(i: Dynamic, base: int): Cast {
    match i
    case NilArg => Cast(0, None)
    case IntArg(_, v, _) => Cast(Wrap(Wrap(v, W64) * base, W64), None)
    case NilPointerArg(IntPointee(_)) => NilDereference
    case NilPointerArg(BoolPointee) => Cast(0, Some("unable to cast type (*bool) to time.Duration"))
    case DurationArg(d) => Cast(d, None)
    case BoolArg(_, p) =>
      Cast(0, Some("unable to cast type (" + (if p then "*bool" else "bool") + ") to time.Duration"))
    case OtherArg(t) => Cast(0, Some("unable to cast type (" + t + ") to time.Duration"))
  }

  /** duration.go:42-113. */
  method ToDurationE(i: Dynamic, opts: seq<CastOption>) returns (r: Cast)
    ensures r == DurationOf(i, Base(opts))
  {
    var base := 1;
    if |opts| > 0 {
      var arg := ApplyOptions(opts);
      base := UnitBase(arg.timeFormat);
    }
    r := DurationOf(i, base);
  }

  /** Every unit in the table is a positive number of nanoseconds. */
  lemma BaseRange(opts: seq<CastOption>)
    ensures 0 <= Base(opts) <= 3600_000_000_000
    ensures Base(opts) == 0 <==> |opts| > 0 && opts[|opts| - 1].format !in UnitMap
  {
  }

  /** Without options an integer input n is n nanoseconds. */
  lemma NoOptionsIsNanoseconds(k: IntKind, v: int, viaPointer: bool)
    requires IsSigned(k) && Representable(k, v)
    ensures DurationOf(IntArg(k, v, viaPointer), Base([])) == Cast(v, None)
  {
    assert InSignedRange(W64, v);
    WrapIdentity(v, W64);
  }

  /** With "ms" last, an integer that does not overflow is scaled by 10^6. */
  lemma MillisecondsScale(k: IntKind, v: int, viaPointer: bool, opts: seq<CastOption>)
    requires IsSigned(k) && Representable(k, v)
    requires |opts| > 0 && opts[|opts| - 1] == TimeFormat("ms")
    requires InSignedRange(W64, v * 1000_000)
    ensures DurationOf(IntArg(k, v, viaPointer), Base(opts)) == Cast(v * 1000_000, None)
  {
    assert InSignedRange(W64, v);
    WrapIdentity(v, W64);
    WrapIdentity(v * 1000_000, W64);
  }

  /** An unknown unit makes every integer input 0, with no error. */
  lemma UnknownUnitIsZero(i: Dynamic, opts: seq<CastOption>)
    requires i.IntArg?
    requires |opts| > 0 && opts[|opts| - 1].format !in UnitMap
    ensures DurationOf(i, Base(opts)) == Cast(0, None)
  {
    var w := Wrap(i.value, W64) * 0;
    assert w == 0;
  }

  /** Exactly the nil integer pointers panic; integer results are int64 values,
      and so are Duration inputs passed through; bools and unsupported types are
      errors. */
  lemma ResultIsInt64(i: Dynamic, opts: seq<CastOption>)
    requires WellFormed(i)
    ensures DurationOf(i, Base(opts)).NilDereference? <==> i.NilPointerArg? && i.pointee.IntPointee?
    ensures DurationOf(i, Base(opts)).Cast? ==> InSignedRange(W64, DurationOf(i, Base(opts)).value)
    ensures DurationOf(i, Base(opts)).Cast? ==>
              (DurationOf(i, Base(opts)).err.Some? <==> (i.BoolArg? || i.OtherArg? || i.NilPointerArg?))
  {
    if i.IntArg? {
      WrapInRange(Wrap(i.value, W64) * Base(opts), W64);
    }
  }

  /** A `time.Duration` comes back unchanged whatever the options. */
  lemma DurationPassesThrough(d: int, opts: seq<CastOption>)
    ensures DurationOf(DurationArg(d), Base(opts)) == Cast(d, None)
  {
  }

  /** A typed nil pointer panics in both casts, except a nil `*bool`, which
      `ToDurationE` rejects without reading it. */
  lemma NilPointers(p: Pointee, opts: seq<CastOption>)
    ensures ToInt64E(NilPointerArg(p)) == NilDereference
    ensures DurationOf(NilPointerArg(p), Base(opts)).NilDereference? <==> p.IntPointee?
  {
  }
}
