/** The field resolver of bean.go (`typeFields`, `dominantField`, `typeByIndex`),
    stated as functions. The breadth-first scan is written as folds over the
    prefixes of the loops it models, so that the loops of `TypeFields`
    (typefields.dfy) can be tied to it step by step. */
module FieldResolver {
  import opened Wrappers
  import opened GoTypes
  import opened Tags
  import opened FieldOrder

  /** bean.go:637-638 and bean.go:663-666: an embedded or field pointer type is followed once. */
  function Deref(t: Type): Type {
    if t.Ptr? then t.elem else t
  }

  /** bean.go:635-653: fields of unexported non-struct embedded types, unexported
      non-embedded fields and fields tagged "-" are skipped. */
  predicate Skipped(sf: FieldDecl) {
    (if sf.anonymous then !sf.exported && !Deref(sf.typ).Struct? else !sf.exported)
    || sf.tag == "-"
  }

  /** bean.go:654-657: the tag's name part, or "" when it is not a valid name. */
  function TagName(tag: string): string {
    var n := ParseTag(tag);
    if IsValidTag(n) then n else ""
  }

  /** bean.go:669: a field is recorded unless it is an untagged embedded struct,
      which is explored instead. */
  predicate Recorded(sf: FieldDecl) {
    TagName(sf.tag) != "" || !sf.anonymous || !Deref(sf.typ).Struct?
  }

  /** bean.go:670-673. */
  function EffectiveName(sf: FieldDecl): string {
    if TagName(sf.tag) != "" then TagName(sf.tag) else sf.name
  }

  predicate IsTagged(sf: FieldDecl) {
    TagName(sf.tag) != ""
  }

  function NumField(t: Type): nat {
    if t.Struct? then |t.fields| else 0
  }

  /** A missing key of a Go map reads as 0. */
  function CountOf(m: map<Type, nat>, t: Type): nat {
    if t in m then m[t] else 0
  }

  /** The variables of the scan that change while one level is processed. */
  datatype Scan = Scan(fields: seq<Field>, next: seq<Field>, nextCount: map<Type, nat>, visited: set<Type>)

  /** bean.go:634-696: the step for field `i` of the queued struct `f.typ`;
      `count` holds how often each type was queued for the current level. */
  function ScanField(st: Scan, f: Field, i: nat, count: map<Type, nat>): Scan
    requires i < NumField(f.typ)
  {
    var sf := f.typ.fields[i];
    if Skipped(sf) then st
    else
      var index := f.index + [i];
      var ft := Deref(sf.typ);
      if Recorded(sf) then
        var field := Field(EffectiveName(sf), IsTagged(sf), index, ft);
        var fs := st.fields + [field];
        st.(fields := if CountOf(count, f.typ) > 1 then fs + [field] else fs)
      else
        var nc := st.nextCount[ft := CountOf(st.nextCount, ft) + 1];
        st.(nextCount := nc,
            next := if nc[ft] == 1 then st.next + [Field(ft.name, false, index, ft)] else st.next)
  }

  /** The first `k` steps of the loop over the fields of `f.typ` (bean.go:633). */
  function ScanFields(st: Scan, f: Field, k: nat, count: map<Type, nat>): Scan
    requires k <= NumField(f.typ)
  {
    if k == 0 then st else ScanField(ScanFields(st, f, k - 1, count), f, k - 1, count)
  }

  /** bean.go:627-697: one queued struct; a type already visited is passed over. */
  function ScanEntry(st: Scan, f: Field, count: map<Type, nat>): Scan {
    if f.typ in st.visited then st
    else ScanFields(st.(visited := st.visited + {f.typ}), f, NumField(f.typ), count)
  }

  /** bean.go:626: the loop over the current level, as a fold over its prefix. */
  function ScanLevel(st: Scan, current: seq<Field>, count: map<Type, nat>): Scan {
    if current == [] then st
    else ScanEntry(ScanLevel(st, current[..|current| - 1], count), current[|current| - 1], count)
  }

  function TypeHeight(t: Type): nat {
    match t
    case Ptr(e) => 1 + TypeHeight(e)
    case Slice(e) => 1 + TypeHeight(e)
    case Array(_, e) => 1 + TypeHeight(e)
    case Map(k, e) => 1 + Max(TypeHeight(k), TypeHeight(e))
    case Struct(_, fs) => 1 + DeclsHeight(fs)
    case _ => 0
  }

  function DeclsHeight(fs: seq<FieldDecl>): nat {
    if fs == [] then 0 else Max(DeclHeight(fs[0]), DeclsHeight(fs[1..]))
  }

  function DeclHeight(fd: FieldDecl): nat {
    TypeHeight(fd.typ)
  }

  function Max(a: nat, b: nat): nat {
    if a < b then b else a
  }

  lemma {:induction false} DeclsHeightBound(fs: seq<FieldDecl>, i: nat)
    requires i < |fs|
    ensures TypeHeight(fs[i].typ) <= DeclsHeight(fs)
  {
    if i > 0 {
      DeclsHeightBound(fs[1..], i - 1);
    }
  }

  /** The types queued for the next level are strictly lower than the queued
      struct they were found in. */
  lemma FieldTypeLower(t: Type, i: nat)
    requires t.Struct? && i < |t.fields|
    ensures TypeHeight(Deref(t.fields[i].typ)) < TypeHeight(t)
  {
    DeclsHeightBound(t.fields, i);
  }

  predicate QueueBelow(q: seq<Field>, m: nat) {
    forall k :: 0 <= k < |q| ==> TypeHeight(q[k].typ) < m
  }

  lemma {:induction false} ScanFieldsBelow(st: Scan, f: Field, k: nat, count: map<Type, nat>, m: nat)
    requires k <= NumField(f.typ) && TypeHeight(f.typ) <= m && QueueBelow(st.next, m)
    ensures QueueBelow(ScanFields(st, f, k, count).next, m)
  {
    if k > 0 {
      ScanFieldsBelow(st, f, k - 1, count, m);
      FieldTypeLower(f.typ, k - 1);
    }
  }

  lemma {:induction false} ScanLevelBelow(st: Scan, current: seq<Field>, count: map<Type, nat>, m: nat)
    requires QueueBelow(st.next, m)
    requires forall k :: 0 <= k < |current| ==> TypeHeight(current[k].typ) <= m
    ensures QueueBelow(ScanLevel(st, current, count).next, m)
  {
    if current != [] {
      var init := current[..|current| - 1];
      ScanLevelBelow(st, init, count, m);
      var s1 := ScanLevel(st, init, count);
      var f := current[|current| - 1];
      if f.typ !in s1.visited {
        ScanFieldsBelow(s1.(visited := s1.visited + {f.typ}), f, NumField(f.typ), count, m);
      }
    }
  }

  function QueueHeight(q: seq<Field>): nat {
    if q == [] then 0 else Max(TypeHeight(q[0].typ), QueueHeight(q[1..]))
  }

  lemma {:induction false} QueueHeightBound(q: seq<Field>)
    ensures forall k :: 0 <= k < |q| ==> TypeHeight(q[k].typ) <= QueueHeight(q)
    ensures q != [] ==> exists k :: 0 <= k < |q| && TypeHeight(q[k].typ) == QueueHeight(q)
  {
    if q != [] {
      QueueHeightBound(q[1..]);
      assert forall k :: 1 <= k < |q| ==> q[k] == q[1..][k - 1];
      if TypeHeight(q[0].typ) < QueueHeight(q[1..]) {
        var k :| 0 <= k < |q[1..]| && TypeHeight(q[1..][k].typ) == QueueHeight(q[1..]);
        assert TypeHeight(q[k + 1].typ) == QueueHeight(q);
      }
    }
  }

  /** The measure of the outer loop: 0 once the queue is empty. */
  function LevelMeasure(q: seq<Field>): nat {
    if q == [] then 0 else 1 + QueueHeight(q)
  }

  /** One level of the scan lowers the measure. */
  lemma LevelDecreases(next: seq<Field>, nextCount: map<Type, nat>, visited: set<Type>, fields: seq<Field>)
    requires next != []
    ensures LevelMeasure(ScanLevel(Scan(fields, [], map[], visited), next, nextCount).next) < LevelMeasure(next)
  {
    var m := QueueHeight(next);
    QueueHeightBound(next);
    ScanLevelBelow(Scan(fields, [], map[], visited), next, nextCount, m);
    var q := ScanLevel(Scan(fields, [], map[], visited), next, nextCount).next;
    if q != [] {
      QueueHeightBound(q);
    }
  }

  /** bean.go:622-699: level after level until nothing is queued; returns the
      fields found, before sorting. */
  function Levels(next: seq<Field>, nextCount: map<Type, nat>, visited: set<Type>, fields: seq<Field>): seq<Field>
    decreases LevelMeasure(next)
  {
    if next == [] then fields
    else
      var st := ScanLevel(Scan(fields, [], map[], visited), next, nextCount);
      LevelDecreases(next, nextCount, visited, fields);
      Levels(st.next, st.nextCount, st.visited, st.fields)
  }

  /** bean.go:610-620: the scan starts from the struct itself. */
  function Collect(t: Type): seq<Field> {
    Levels([Field("", false, [], t)], map[], {}, [])
  }

  /** bean.go:777-785: the first of a run of same-named fields dominates unless the
      second is as shallow and equally tagged. */
  function DominantField(fs: seq<Field>): Option<Field>
    requires |fs| >= 1
  {
    if |fs| > 1 && |fs[0].index| == |fs[1].index| && fs[0].tag == fs[1].tag then None else Some(fs[0])
  }

  /** bean.go:730-735: one past the last index of the run of fields named like `fields[i]`,
      counting from `j`. */
  function RunEnd(fields: seq<Field>, i: nat, j: nat): (e: nat)
    requires i < j <= |fields|
    ensures j <= e <= |fields|
    decreases |fields| - j
  {
    if j < |fields| && fields[j].name == fields[i].name then RunEnd(fields, i, j + 1) else j
  }

  /** bean.go:724-744: one dominant field (or none) per run of equal names. */
  function DominateFrom(fields: seq<Field>, i: nat): seq<Field>
    requires i <= |fields|
    decreases |fields| - i
  {
    if i == |fields| then []
    else
      var e := RunEnd(fields, i, i + 1);
      var keep := if e == i + 1 then [fields[i]]
                  else match DominantField(fields[i..e]) case Some(d) => [d] case None => [];
      keep + DominateFrom(fields, e)
  }

  /** bean.go:608-747: the visible fields of a struct type, in index order. */
  function ResolvedFields(t: Type): seq<Field> {
    Sort(ByIndex, DominateFrom(Sort(ByNameDepthTag, Collect(t)), 0))
  }

  /** bean.go:761-769: the type reached by an index path; None where `Field` would panic. */
  function TypeByIndex(t: Type, index: seq<nat>): Option<Type> {
    if index == [] then Some(t)
    else
      var s := Deref(t);
      if s.Struct? && index[0] < |s.fields| then TypeByIndex(s.fields[index[0]].typ, index[1..]) else None
  }

  /** Extending a path takes one more field step from where the path ends. */
  lemma {:induction false} TypeByIndexAppend(t: Type, p: seq<nat>, i: nat)
    ensures TypeByIndex(t, p + [i]) ==
      match TypeByIndex(t, p)
      case None => None
      case Some(u) =>
        if Deref(u).Struct? && i < |Deref(u).fields| then Some(Deref(u).fields[i].typ) else None
  {
    if p != [] {
      var s := Deref(t);
      assert (p + [i])[0] == p[0] && (p + [i])[1..] == p[1..] + [i];
      if s.Struct? && p[0] < |s.fields| {
        TypeByIndexAppend(s.fields[p[0]].typ, p[1..], i);
      }
    }
  }

  /** The declaration an index path ends at. */
  function DeclAt(t: Type, index: seq<nat>): Option<FieldDecl> {
    if index == [] then None
    else
      match TypeByIndex(t, index[..|index| - 1])
      case None => None
      case Some(u) =>
        var s := Deref(u);
        var i := index[|index| - 1];
        if s.Struct? && i < |s.fields| then Some(s.fields[i]) else None
  }

  /** What every recorded field of the scan satisfies: it names a declaration of
      the type that is not skipped and is recorded, under its effective name. */
  predicate FieldSound(t: Type, f: Field) {
    match DeclAt(t, f.index)
    case None => false
    case Some(sf) =>
      !Skipped(sf) && Recorded(sf) && f.name == EffectiveName(sf) && f.tag == IsTagged(sf) &&
      f.typ == Deref(sf.typ) && TypeByIndex(t, f.index) == Some(sf.typ)
  }

  /** What every queued struct satisfies: its path leads to it. */
  predicate QueuedSound(t: Type, f: Field) {
    TypeByIndex(t, f.index).Some? && Deref(TypeByIndex(t, f.index).value) == f.typ
  }

  predicate ScanSound(t: Type, st: Scan) {
    (forall k :: 0 <= k < |st.fields| ==> FieldSound(t, st.fields[k])) &&
    (forall k :: 0 <= k < |st.next| ==> QueuedSound(t, st.next[k]))
  }

  lemma ScanFieldSound(t: Type, st: Scan, f: Field, i: nat, count: map<Type, nat>)
    requires i < NumField(f.typ) && ScanSound(t, st) && QueuedSound(t, f)
    ensures ScanSound(t, ScanField(st, f, i, count))
  {
    var sf := f.typ.fields[i];
    var index := f.index + [i];
    TypeByIndexAppend(t, f.index, i);
    assert index[..|index| - 1] == f.index;
    assert TypeByIndex(t, index) == Some(sf.typ);
    assert DeclAt(t, index) == Some(sf);
  }

  lemma {:induction false} ScanFieldsSound(t: Type, st: Scan, f: Field, k: nat, count: map<Type, nat>)
    requires k <= NumField(f.typ) && ScanSound(t, st) && QueuedSound(t, f)
    ensures ScanSound(t, ScanFields(st, f, k, count))
  {
    if k > 0 {
      ScanFieldsSound(t, st, f, k - 1, count);
      ScanFieldSound(t, ScanFields(st, f, k - 1, count), f, k - 1, count);
    }
  }

  lemma {:induction false} ScanLevelSound(t: Type, st: Scan, current: seq<Field>, count: map<Type, nat>)
    requires ScanSound(t, st)
    requires forall k :: 0 <= k < |current| ==> QueuedSound(t, current[k])
    ensures ScanSound(t, ScanLevel(st, current, count))
  {
    if current != [] {
      var init := current[..|current| - 1];
      ScanLevelSound(t, st, init, count);
      var s1 := ScanLevel(st, init, count);
      var f := current[|current| - 1];
      if f.typ !in s1.visited {
        ScanFieldsSound(t, s1.(visited := s1.visited + {f.typ}), f, NumField(f.typ), count);
      }
    }
  }

  lemma {:induction false} LevelsSound(t: Type, next: seq<Field>, nextCount: map<Type, nat>, visited: set<Type>, fields: seq<Field>)
    requires ScanSound(t, Scan(fields, next, nextCount, visited))
    ensures forall k :: 0 <= k < |Levels(next, nextCount, visited, fields)| ==>
              FieldSound(t, Levels(next, nextCount, visited, fields)[k])
    decreases LevelMeasure(next)
  {
    if next != [] {
      var st := ScanLevel(Scan(fields, [], map[], visited), next, nextCount);
      ScanLevelSound(t, Scan(fields, [], map[], visited), next, nextCount);
      LevelDecreases(next, nextCount, visited, fields);
      LevelsSound(t, st.next, st.nextCount, st.visited, st.fields);
    }
  }

  /** Every field the scan collects is a declared field of the struct or of a struct
      embedded in it, reached by its index path: not skipped (unexported and not
      embedded, unexported embedded non-struct, or tagged "-"), named by its valid
      tag name or else its declared name, tagged exactly when the name came from
      the tag. */
  lemma CollectSound(t: Type)
    requires t.Struct?
    ensures forall k :: 0 <= k < |Collect(t)| ==> FieldSound(t, Collect(t)[k])
  {
    LevelsSound(t, [Field("", false, [], t)], map[], {}, []);
  }

  /** The scan only ever appends to the fields found so far. */
  lemma {:induction false} ScanFieldsGrow(st: Scan, f: Field, k: nat, count: map<Type, nat>)
    requires k <= NumField(f.typ)
    ensures st.fields <= ScanFields(st, f, k, count).fields
  {
    if k > 0 {
      ScanFieldsGrow(st, f, k - 1, count);
    }
  }

  lemma {:induction false} ScanLevelGrows(st: Scan, current: seq<Field>, count: map<Type, nat>)
    ensures st.fields <= ScanLevel(st, current, count).fields
  {
    if current != [] {
      var init := current[..|current| - 1];
      ScanLevelGrows(st, init, count);
      var s1 := ScanLevel(st, init, count);
      var f := current[|current| - 1];
      if f.typ !in s1.visited {
        ScanFieldsGrow(s1.(visited := s1.visited + {f.typ}), f, NumField(f.typ), count);
      }
    }
  }

  lemma {:induction false} LevelsGrow(next: seq<Field>, nextCount: map<Type, nat>, visited: set<Type>, fields: seq<Field>)
    ensures fields <= Levels(next, nextCount, visited, fields)
    decreases LevelMeasure(next)
  {
    if next != [] {
      var st := ScanLevel(Scan(fields, [], map[], visited), next, nextCount);
      ScanLevelGrows(Scan(fields, [], map[], visited), next, nextCount);
      LevelDecreases(next, nextCount, visited, fields);
      LevelsGrow(st.next, st.nextCount, st.visited, st.fields);
    }
  }

  /** The converse of `CollectSound` at depth one: every declared field of the
      struct that is neither skipped nor an embedded struct to explore is
      collected, under its effective name and with its pointer type followed. */
  lemma CollectCompleteAtTop(t: Type, i: nat)
    requires t.Struct? && i < |t.fields|
    requires !Skipped(t.fields[i]) && Recorded(t.fields[i])
    ensures Field(EffectiveName(t.fields[i]), IsTagged(t.fields[i]), [i], Deref(t.fields[i].typ)) in Collect(t)
  {
    var sf := t.fields[i];
    var field := Field(EffectiveName(sf), IsTagged(sf), [i], Deref(sf.typ));
    var root := Field("", false, [], t);
    var st0 := Scan([], [], map[], {t});
    var before := ScanFields(st0, root, i, map[]);
    assert root.index + [i] == [i];
    var after := ScanFields(st0, root, i + 1, map[]);
    assert after.fields == before.fields + [field];
    var first := ScanFields(st0, root, |t.fields|, map[]);
    assert after.fields <= first.fields by {
      ScanFieldsTail(st0, root, i + 1, |t.fields|, map[]);
    }
    var st := ScanLevel(Scan([], [], map[], {}), [root], map[]);
    var s0 := Scan([], [], map[], {});
    assert [root][..0] == [];
    assert ScanLevel(s0, [root][..0], map[]) == s0;
    assert s0.(visited := s0.visited + {t}) == st0;
    assert st == ScanEntry(s0, root, map[]);
    assert st == first;
    LevelDecreases([root], map[], {}, []);
    assert Collect(t) == Levels(st.next, st.nextCount, st.visited, st.fields);
    LevelsGrow(st.next, st.nextCount, st.visited, st.fields);
    assert Collect(t)[|before.fields|] == field;
  }

  /** Running the later steps on top of the first `j` keeps what they found. */
  lemma {:induction false} ScanFieldsTail(st: Scan, f: Field, j: nat, k: nat, count: map<Type, nat>)
    requires j <= k <= NumField(f.typ)
    ensures ScanFields(st, f, j, count).fields <= ScanFields(st, f, k, count).fields
    decreases k
  {
    if k > j {
      ScanFieldsTail(st, f, j, k - 1, count);
    }
  }
}
