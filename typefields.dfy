/** `typeFields` and `typeByIndex` of bean.go as the loops they are, proved to
    compute the field resolver's functions (resolver.dfy). */
module FieldScan {
  import opened Wrappers
  import opened GoTypes
  import opened Tags
  import opened FieldOrder
  import opened FieldResolver
  import opened Dominance

  /** bean.go:570-573: the visible fields and, for each name, the position of the
      field of that name in `list`. */
  datatype StructFields = StructFields(list: seq<Field>, byExactName: map<string, nat>)

  /** The last position of a field named `name`, as the map of bean.go:754-757
      keeps it (a later field overwrites an earlier one). */
  function FieldNamed(list: seq<Field>, name: string): (r: Option<nat>)
    ensures r.Some? ==> r.value < |list| && list[r.value].name == name
    ensures r.Some? ==> forall j :: r.value < j < |list| ==> list[j].name != name
    ensures r.None? ==> forall j :: 0 <= j < |list| ==> list[j].name != name
  {
    if list == [] then None
    else if list[|list| - 1].name == name then Some(|list| - 1)
    else FieldNamed(list[..|list| - 1], name)
  }

  /** With distinct names, the field found by name is the only one of that name. */
  lemma FieldNamedUnique(list: seq<Field>, k: nat)
    requires UniqueNames(list) && k < |list|
    ensures FieldNamed(list, list[k].name) == Some(k)
  {
  }

  /** bean.go:761-769 as its loop; `None` where `Field` would panic (a step
      through a non-struct or past the last field). */
  method LookupTypeByIndex(t: Type, index: seq<nat>) returns (r: Option<Type>)
    ensures r == TypeByIndex(t, index)
  {
    var cur := t;
    var k := 0;
    while k < |index|
      invariant k <= |index|
      invariant TypeByIndex(t, index) == TypeByIndex(cur, index[k..])
    {
      if cur.Ptr? {
        cur := cur.elem;
      }
      if !cur.Struct? || index[k] >= |cur.fields| {
        return None;
      }
      assert index[k..][1..] == index[k + 1..];
      cur := cur.fields[index[k]].typ;
      k := k + 1;
    }
    return Some(cur);
  }

  /** bean.go:608-759, without the per-field encoders. The breadth-first scan runs
      level by level until nothing is queued; then the fields are sorted, hidden
      ones are dropped run by run, the rest is put in index order and indexed by
      name. */
  method TypeFields(t: Type) returns (sf: StructFields)
    ensures sf.list == ResolvedFields(t)
    ensures forall n :: n in sf.byExactName <==> FieldNamed(sf.list, n).Some?
    ensures forall n :: n in sf.byExactName ==> Some(sf.byExactName[n]) == FieldNamed(sf.list, n)
  {
    var fields := ScanAll(t);
    var sorted := Sort(ByNameDepthTag, fields);
    var out := DropHidden(sorted);
    var list := Sort(ByIndex, out);
    var byName := IndexByName(list);
    sf := StructFields(list, byName);
  }

  /** bean.go:610-699: the fields found by the breadth-first scan, before sorting. */
  method ScanAll(t: Type) returns (fields: seq<Field>)
    ensures fields == Collect(t)
  {
    var next := [Field("", false, [], t)];
    var nextCount: map<Type, nat> := map[];
    var visited: set<Type> := {};
    fields := [];
    while next != []
      invariant Levels(next, nextCount, visited, fields) == Collect(t)
      decreases LevelMeasure(next)
    {
      var current, count := next, nextCount;
      var st := Scan(fields, [], map[], visited);
      ghost var st0 := st;
      LevelDecreases(current, count, visited, fields);
      var c := 0;
      while c < |current|
        invariant c <= |current|
        invariant st == ScanLevel(st0, current[..c], count)
      {
        var f := current[c];
        assert current[..c + 1][..c] == current[..c];
        if f.typ !in st.visited {
          st := st.(visited := st.visited + {f.typ});
          ghost var st1 := st;
          var i := 0;
          while i < NumField(f.typ)
            invariant i <= NumField(f.typ)
            invariant st == ScanFields(st1, f, i, count)
          {
            st := VisitField(st, f, i, count);
            i := i + 1;
          }
        }
        c := c + 1;
      }
      assert current[..|current|] == current;
      fields, next, nextCount, visited := st.fields, st.next, st.nextCount, st.visited;
    }
  }

  /** bean.go:634-696: field `i` of the queued struct `f.typ` is skipped, recorded
      (twice when its struct was queued more than once) or queued for the next level. */
  method VisitField(st: Scan, f: Field, i: nat, count: map<Type, nat>) returns (r: Scan)
    requires i < NumField(f.typ)
    ensures r == ScanField(st, f, i, count)
  {
    r := st;
    var sd := f.typ.fields[i];
    if sd.anonymous {
      var et := sd.typ;
      if et.Ptr? {
        et := et.elem;
      }
      if !sd.exported && !et.Struct? {
        return;
      }
    } else if !sd.exported {
      return;
    }
    if sd.tag == "-" {
      return;
    }
    var name := ParseTag(sd.tag);
    var valid := CheckValidTag(name);
    if !valid {
      name := "";
    }
    var index := f.index + [i];
    var ft := sd.typ;
    if ft.Ptr? {
      ft := ft.elem;
    }
    if name != "" || !sd.anonymous || !ft.Struct? {
      var tagged := name != "";
      if name == "" {
        name := sd.name;
      }
      var field := Field(name, tagged, index, ft);
      r := r.(fields := r.fields + [field]);
      if CountOf(count, f.typ) > 1 {
        r := r.(fields := r.fields + [field]);
      }
      return;
    }
    var nextCount := r.nextCount[ft := CountOf(r.nextCount, ft) + 1];
    r := r.(nextCount := nextCount);
    if nextCount[ft] == 1 {
      r := r.(next := r.next + [Field(ft.name, false, index, ft)]);
    }
  }

  /** bean.go:724-744: keep the dominant field of each run of equal names. */
  method DropHidden(fields: seq<Field>) returns (out: seq<Field>)
    ensures out == DominateFrom(fields, 0)
  {
    out := [];
    var i := 0;
    while i < |fields|
      invariant i <= |fields|
      invariant out + DominateFrom(fields, i) == DominateFrom(fields, 0)
      decreases |fields| - i
    {
      var advance := RunLength(fields, i);
      var keep := [];
      if advance == 1 {
        keep := [fields[i]];
      } else {
        var d := DominantField(fields[i..i + advance]);
        if d.Some? {
          keep := [d.value];
        }
      }
      ghost var rest := DominateFrom(fields, i + advance);
      assert DominateFrom(fields, i) == keep + rest;
      AppendAssoc(out, keep, rest);
      out := out + keep;
      i := i + advance;
    }
  }

  lemma AppendAssoc(a: seq<Field>, b: seq<Field>, c: seq<Field>)
    ensures (a + b) + c == a + (b + c)
  {
  }

  /** bean.go:730-735: the number of fields from `i` on named like `fields[i]`. */
  method RunLength(fields: seq<Field>, i: nat) returns (advance: nat)
    requires i < |fields|
    ensures i + advance == RunEnd(fields, i, i + 1)
  {
    var name := fields[i].name;
    advance := 1;
    while i + advance < |fields| && fields[i + advance].name == name
      invariant 1 <= advance && i + advance <= |fields|
      invariant RunEnd(fields, i, i + 1) == RunEnd(fields, i, i + advance)
    {
      advance := advance + 1;
    }
  }

  /** bean.go:754-757: map each name to the position of its field. */
  method IndexByName(list: seq<Field>) returns (m: map<string, nat>)
    ensures forall n :: n in m <==> FieldNamed(list, n).Some?
    ensures forall n :: n in m ==> Some(m[n]) == FieldNamed(list, n)
  {
    m := map[];
    var k := 0;
    while k < |list|
      invariant k <= |list|
      invariant forall n :: n in m <==> FieldNamed(list[..k], n).Some?
      invariant forall n :: n in m ==> Some(m[n]) == FieldNamed(list[..k], n)
    {
      assert list[..k + 1][..k] == list[..k];
      m := m[list[k].name := k];
      k := k + 1;
    }
    assert list[..k] == list;
  }

  /** Every visible field is found by its name, at its own position. */
  lemma ByExactNameFindsEveryField(t: Type, k: nat)
    requires k < |ResolvedFields(t)|
    ensures FieldNamed(ResolvedFields(t), ResolvedFields(t)[k].name) == Some(k)
  {
    ResolvedShape(t);
    FieldNamedUnique(ResolvedFields(t), k);
  }
}
