/** What the dominance pass of bean.go:724-747 achieves: after it, no two visible
    fields share a name, and a collected field stays visible exactly when it is the
    only one of its name at its depth with its tagged-ness, and beats every other
    field of that name by being shallower, or equally deep and tagged against an
    untagged one (Go's embedding rules plus the JSON tag rule). */
module Dominance {
  import opened GoTypes
  import opened FieldOrder
  import opened FieldResolver

  predicate UniqueNames(s: seq<Field>) {
    forall i, j :: 0 <= i < j < |s| ==> s[i].name != s[j].name
  }

  /** `f` hides `g` of the same name. */
  predicate Beats(f: Field, g: Field) {
    |f.index| < |g.index| || (|f.index| == |g.index| && f.tag && !g.tag)
  }

  /** `f` occurs once in `c` and hides every other field of its name there. */
  predicate Dominates(f: Field, c: seq<Field>) {
    multiset(c)[f] == 1 && forall g :: g in c && g.name == f.name && g != f ==> Beats(f, g)
  }

  /** Position `i` starts a run of equal names. */
  predicate RunStart(s: seq<Field>, i: nat) {
    i == 0 || i >= |s| || s[i - 1].name != s[i].name
  }

  /** `[i, e)` is the whole run of the name of `s[i]`. */
  predicate IsRun(s: seq<Field>, i: nat, e: nat) {
    i < e <= |s| &&
    (forall j :: i <= j < e ==> s[j].name == s[i].name) &&
    (forall j :: 0 <= j < |s| && (j < i || j >= e) ==> s[j].name != s[i].name)
  }

  /** The first field of the run `[i, e)` survives (bean.go:736-743 with bean.go:777-785). */
  predicate Survives(s: seq<Field>, i: nat, e: nat)
    requires i < e <= |s|
  {
    e == i + 1 || !(|s[i].index| == |s[i + 1].index| && s[i].tag == s[i + 1].tag)
  }

  lemma StrLessTrichotomy(a: string, b: string)
    ensures a == b || StrLess(a, b) || StrLess(b, a)
  {
    if a != b {
      StrLessTotal(a, b);
    }
  }

  lemma {:induction false} RunEndSpec(s: seq<Field>, i: nat, j: nat)
    requires i < j <= |s|
    requires forall k :: i <= k < j ==> s[k].name == s[i].name
    ensures forall k :: i <= k < RunEnd(s, i, j) ==> s[k].name == s[i].name
    ensures RunEnd(s, i, j) < |s| ==> s[RunEnd(s, i, j)].name != s[i].name
    decreases |s| - j
  {
    if j < |s| && s[j].name == s[i].name {
      RunEndSpec(s, i, j + 1);
    }
  }

  /** In a list sorted by name, equal names are contiguous. */
  lemma NameBetween(s: seq<Field>, i: nat, k: nat, j: nat)
    requires Sorted(ByNameDepthTag, s) && i <= k <= j < |s|
    ensures s[i].name == s[j].name ==> s[k].name == s[i].name
  {
    if i < k {
      assert InOrder(ByNameDepthTag, s, i, k);
    }
    if k < j {
      assert InOrder(ByNameDepthTag, s, k, j);
    }
    StrLessTrichotomy(s[k].name, s[i].name);
  }

  /** Outside its run, no field shares the run's name. */
  lemma NameOutside(s: seq<Field>, i: nat, j: nat)
    requires Sorted(ByNameDepthTag, s) && i < |s| && RunStart(s, i) && j < |s|
    requires j < i || j >= RunEnd(s, i, i + 1)
    ensures s[j].name != s[i].name
  {
    var e := RunEnd(s, i, i + 1);
    RunEndSpec(s, i, i + 1);
    if j < i {
      NameBetween(s, j, i - 1, i);
    } else {
      NameBetween(s, i, e, j);
    }
  }

  lemma CountOne(s: seq<Field>, p: nat)
    requires p < |s| && forall j :: 0 <= j < |s| && j != p ==> s[j] != s[p]
    ensures multiset(s)[s[p]] == 1
  {
    assert s == s[..p] + [s[p]] + s[p + 1..];
    assert s[p] !in s[..p];
    assert s[p] !in s[p + 1..];
  }

  lemma CountTwo(s: seq<Field>, p: nat, q: nat)
    requires p < |s| && q < |s|
    ensures p != q && s[p] == s[q] ==> multiset(s)[s[p]] >= 2
  {
    if p < q {
      assert s == s[..q] + [s[q]] + s[q + 1..];
      assert s[p] in s[..q];
    } else if q < p {
      assert s == s[..p] + [s[p]] + s[p + 1..];
      assert s[q] in s[..p];
    }
  }

  /** The second field of a run is hidden by the first unless it ties with it. */
  lemma NextBeaten(a: Field, b: Field)
    requires a.name == b.name && !Less(ByNameDepthTag, b, a)
    requires !(|a.index| == |b.index| && a.tag == b.tag)
    ensures Beats(a, b)
  {
  }

  lemma ChainBeaten(a: Field, b: Field, c: Field)
    requires a.name == b.name == c.name && Beats(a, b) && !Less(ByNameDepthTag, c, b)
    ensures Beats(a, c)
  {
  }

  /** Among fields of one name, hiding agrees with the sort order. */
  lemma BeatsLess(f: Field, g: Field)
    requires f.name == g.name
    ensures Beats(f, g) ==> Less(ByNameDepthTag, f, g)
  {
  }

  lemma SortedAt(s: seq<Field>, i: nat, j: nat)
    requires Sorted(ByNameDepthTag, s) && i <= j < |s|
    ensures i < j ==> !Less(ByNameDepthTag, s[j], s[i])
  {
    if i < j {
      assert InOrder(ByNameDepthTag, s, i, j);
    }
  }

  /** Fields outside the run `[i, e)` have other names. */
  lemma RunNames(s: seq<Field>, i: nat, e: nat)
    requires Sorted(ByNameDepthTag, s) && i < |s| && RunStart(s, i) && e == RunEnd(s, i, i + 1)
    ensures IsRun(s, i, e)
  {
    RunEndSpec(s, i, i + 1);
    forall j | 0 <= j < |s| && (j < i || j >= e) ensures s[j].name != s[i].name {
      NameOutside(s, i, j);
    }
  }

  /** A surviving first field dominates its name. */
  lemma GroupSurvivor(s: seq<Field>, i: nat, e: nat)
    requires Sorted(ByNameDepthTag, s) && IsRun(s, i, e) && Survives(s, i, e)
    ensures Dominates(s[i], s)
  {
    forall j | i < j < e ensures Beats(s[i], s[j]) {
      SortedAt(s, i, i + 1);
      NextBeaten(s[i], s[i + 1]);
      if j > i + 1 {
        SortedAt(s, i + 1, j);
        ChainBeaten(s[i], s[i + 1], s[j]);
      }
    }
    CountOne(s, i);
    forall g | g in s && g.name == s[i].name && g != s[i] ensures Beats(s[i], g) {
      var j :| 0 <= j < |s| && s[j] == g;
    }
  }

  /** No field of the run dominates except a surviving first one. */
  lemma GroupOthers(s: seq<Field>, i: nat, e: nat, p: nat)
    requires Sorted(ByNameDepthTag, s) && IsRun(s, i, e)
    requires i <= p < e && Dominates(s[p], s)
    ensures s[p] == s[i] && Survives(s, i, e)
  {
    assert s[i] in s && s[i].name == s[p].name;
    SortedAt(s, i, p);
    BeatsLess(s[p], s[i]);
    assert s[p] == s[i];
    if e > i + 1 {
      assert s[i + 1] in s && s[i + 1].name == s[p].name;
      CountTwo(s, i, i + 1);
    }
  }

  /** What the pass keeps of the run `[i, e)`. */
  function Keep(s: seq<Field>, i: nat, e: nat): seq<Field>
    requires i < e <= |s|
  {
    if Survives(s, i, e) then [s[i]] else []
  }

  /** One run of the pass: what it keeps, followed by what the pass keeps after it. */
  lemma DominateStep(s: seq<Field>, i: nat, e: nat, rest: seq<Field>)
    requires Sorted(ByNameDepthTag, s) && IsRun(s, i, e)
    requires forall x :: x in rest <==> x in s[e..] && Dominates(x, s)
    requires UniqueNames(rest)
    ensures forall x :: x in Keep(s, i, e) + rest <==> x in s[i..] && Dominates(x, s)
    ensures UniqueNames(Keep(s, i, e) + rest)
  {
    if Survives(s, i, e) {
      GroupSurvivor(s, i, e);
    }
    forall k | 0 <= k < |rest| ensures rest[k].name != s[i].name {
      assert rest[k] in rest;
      var j :| 0 <= j < |s[e..]| && s[e..][j] == rest[k];
      assert s[e + j] == rest[k];
    }
    forall x ensures x in Keep(s, i, e) + rest <==> x in s[i..] && Dominates(x, s) {
      assert s[i..] == s[i..e] + s[e..];
      if x in s[i..e] {
        var p :| 0 <= p < |s[i..e]| && s[i..e][p] == x;
        assert s[i + p] == x;
        assert x !in rest;
        if Dominates(x, s) {
          GroupOthers(s, i, e, i + p);
        }
      }
    }
  }

  /** The dominance pass over a sorted list, from a run start on. */
  lemma {:induction false} DominateFromSpec(s: seq<Field>, i: nat)
    requires Sorted(ByNameDepthTag, s) && i <= |s| && RunStart(s, i)
    ensures forall x :: x in DominateFrom(s, i) <==> x in s[i..] && Dominates(x, s)
    ensures UniqueNames(DominateFrom(s, i))
    decreases |s| - i
  {
    if i < |s| {
      var e := RunEnd(s, i, i + 1);
      RunNames(s, i, e);
      DominateFromSpec(s, e);
      DominateStep(s, i, e, DominateFrom(s, e));
      assert DominateFrom(s, i) == Keep(s, i, e) + DominateFrom(s, e);
    }
  }

  lemma DominatesPerm(x: Field, a: seq<Field>, b: seq<Field>)
    requires multiset(a) == multiset(b)
    ensures Dominates(x, a) <==> Dominates(x, b)
  {
    forall g ensures g in a <==> g in b {
      assert g in a <==> g in multiset(a);
      assert g in b <==> g in multiset(b);
    }
  }

  lemma {:induction false} InsertUniqueNames(o: Order, x: Field, s: seq<Field>)
    requires UniqueNames(s) && forall k :: 0 <= k < |s| ==> s[k].name != x.name
    ensures UniqueNames(Insert(o, x, s))
  {
    if s != [] && Less(o, s[0], x) {
      InsertUniqueNames(o, x, s[1..]);
      InsertPerm(o, x, s[1..]);
      var t := Insert(o, x, s[1..]);
      forall k | 0 <= k < |t| ensures t[k].name != s[0].name {
        assert t[k] in multiset(t);
        if t[k] != x {
          var j :| 0 <= j < |s[1..]| && s[1..][j] == t[k];
          assert s[j + 1] == t[k];
        }
      }
    }
  }

  /** Sorting keeps names distinct. */
  lemma {:induction false} SortUniqueNames(o: Order, s: seq<Field>)
    requires UniqueNames(s)
    ensures UniqueNames(Sort(o, s))
  {
    if s != [] {
      SortUniqueNames(o, s[1..]);
      SortSpec(o, s[1..]);
      var t := Sort(o, s[1..]);
      forall k | 0 <= k < |t| ensures t[k].name != s[0].name {
        assert t[k] in multiset(t);
        var j :| 0 <= j < |s[1..]| && s[1..][j] == t[k];
        assert s[j + 1] == t[k];
      }
      InsertUniqueNames(o, s[0], t);
    }
  }

  /** bean.go:747 and bean.go:754-757: the visible fields have distinct names, so
      the by-name index sees each of them, and they are in index order. */
  lemma ResolvedShape(t: Type)
    ensures UniqueNames(ResolvedFields(t))
    ensures Sorted(ByIndex, ResolvedFields(t))
  {
    var s := Sort(ByNameDepthTag, Collect(t));
    SortSpec(ByNameDepthTag, Collect(t));
    DominateFromSpec(s, 0);
    SortUniqueNames(ByIndex, DominateFrom(s, 0));
    SortSpec(ByIndex, DominateFrom(s, 0));
  }

  /** A collected field is visible exactly when it dominates its name. */
  lemma ResolvedAreDominant(t: Type)
    ensures forall x :: x in ResolvedFields(t) <==> x in Collect(t) && Dominates(x, Collect(t))
  {
    var c := Collect(t);
    var s := Sort(ByNameDepthTag, c);
    SortSpec(ByNameDepthTag, c);
    DominateFromSpec(s, 0);
    SortSpec(ByIndex, DominateFrom(s, 0));
    assert s[0..] == s;
    forall x ensures x in ResolvedFields(t) <==> x in c && Dominates(x, c) {
      assert x in ResolvedFields(t) <==> x in multiset(DominateFrom(s, 0));
      assert x in c <==> x in multiset(c);
      assert x in s <==> x in multiset(s);
      DominatesPerm(x, s, c);
    }
  }

  /** Every visible field is a declared field reached by its index path, named and
      flagged as the scan names and flags it. */
  lemma ResolvedSound(t: Type)
    requires t.Struct?
    ensures forall k :: 0 <= k < |ResolvedFields(t)| ==> FieldSound(t, ResolvedFields(t)[k])
  {
    CollectSound(t);
    ResolvedAreDominant(t);
    forall k | 0 <= k < |ResolvedFields(t)| ensures FieldSound(t, ResolvedFields(t)[k]) {
      var x := ResolvedFields(t)[k];
      assert x in ResolvedFields(t);
      var j :| 0 <= j < |Collect(t)| && Collect(t)[j] == x;
    }
  }
}
