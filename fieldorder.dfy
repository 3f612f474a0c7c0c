/** The record the field resolver works on and the two orders it sorts by:
    the comparator of bean.go:701-716 and `byIndex.Less` (bean.go:582-592).
    Go sorts with `sort.Slice` and `sort.Sort`; the model sorts by insertion,
    which gives the same result since both orders are strict weak orders and
    elements they cannot tell apart share their index path (`LessIncomparable`),
    so they stand for the same declared field. */
module FieldOrder {
  import opened GoTypes

  /** bean.go:562-568 without its encoder: the effective name, whether the name
      came from the tag, the index path from the top struct, and the type. */
  datatype Field = Field(name: string, tag: bool, index: seq<nat>, typ: Type)

  /** Go's string `<`: byte-wise on UTF-8, which is code-point order. */
  predicate StrLess(a: string, b: string) {
    if a == [] then b != []
    else if b == [] then false
    else if a[0] != b[0] then a[0] < b[0]
    else StrLess(a[1..], b[1..])
  }

  /** bean.go:582-592: lexicographic on index sequences, a proper prefix first. */
  predicate IndexLess(x: seq<nat>, y: seq<nat>) {
    if x == [] then y != []
    else if y == [] then false
    else if x[0] != y[0] then x[0] < y[0]
    else IndexLess(x[1..], y[1..])
  }

  /** bean.go:582-592 as the loop it is: walk `x`, stop at the end of `y` or at the
      first difference, and otherwise compare lengths. */
  method CompareIndex(x: seq<nat>, y: seq<nat>) returns (less: bool)
    ensures less == IndexLess(x, y)
  {
    var k := 0;
    while k < |x|
      invariant k <= |x| && k <= |y|
      invariant IndexLess(x, y) == IndexLess(x[k..], y[k..])
    {
      if k >= |y| {
        return false;
      }
      if x[k] != y[k] {
        return x[k] < y[k];
      }
      assert x[k..][1..] == x[k + 1..] && y[k..][1..] == y[k + 1..];
      k := k + 1;
    }
    return |x| < |y|;
  }

  lemma {:induction false} StrLessAsym(a: string, b: string)
    ensures StrLess(a, b) ==> !StrLess(b, a)
  {
    if a != [] && b != [] && a[0] == b[0] {
      StrLessAsym(a[1..], b[1..]);
    }
  }

  lemma {:induction false} StrLessTrans(a: string, b: string, c: string)
    requires StrLess(a, b) && StrLess(b, c)
    ensures StrLess(a, c)
  {
    if a != [] && b != [] && c != [] && a[0] == b[0] && b[0] == c[0] {
      StrLessTrans(a[1..], b[1..], c[1..]);
    }
  }

  lemma {:induction false} StrLessTotal(a: string, b: string)
    requires a != b
    ensures StrLess(a, b) || StrLess(b, a)
  {
    if a != [] && b != [] && a[0] == b[0] {
      assert a == [a[0]] + a[1..] && b == [b[0]] + b[1..];
      StrLessTotal(a[1..], b[1..]);
    }
  }

  lemma {:induction false} IndexLessAsym(x: seq<nat>, y: seq<nat>)
    ensures IndexLess(x, y) ==> !IndexLess(y, x)
  {
    if x != [] && y != [] && x[0] == y[0] {
      IndexLessAsym(x[1..], y[1..]);
    }
  }

  lemma {:induction false} IndexLessTrans(x: seq<nat>, y: seq<nat>, z: seq<nat>)
    requires IndexLess(x, y) && IndexLess(y, z)
    ensures IndexLess(x, z)
  {
    if x != [] && y != [] && z != [] && x[0] == y[0] && y[0] == z[0] {
      IndexLessTrans(x[1..], y[1..], z[1..]);
    }
  }

  lemma {:induction false} IndexLessTotal(x: seq<nat>, y: seq<nat>)
    requires x != y
    ensures IndexLess(x, y) || IndexLess(y, x)
  {
    if x != [] && y != [] && x[0] == y[0] {
      assert x == [x[0]] + x[1..] && y == [y[0]] + y[1..];
      IndexLessTotal(x[1..], y[1..]);
    }
  }

  /** A proper prefix of an index path sorts before it. */
  lemma {:induction false} PrefixIndexLess(x: seq<nat>, y: seq<nat>)
    requires |x| < |y| && x == y[..|x|]
    ensures IndexLess(x, y)
  {
    if x != [] {
      assert x[1..] == y[1..][..|x| - 1];
      PrefixIndexLess(x[1..], y[1..]);
    }
  }

  /** The two orders the resolver sorts by. */
  datatype Order = ByNameDepthTag | ByIndex

  /** bean.go:701-716 (name, then depth, then tagged first, then index) and
      `byIndex.Less`. */
  predicate Less(o: Order, a: Field, b: Field) {
    match o
    case ByIndex => IndexLess(a.index, b.index)
    case ByNameDepthTag =>
      if a.name != b.name then StrLess(a.name, b.name)
      else if |a.index| != |b.index| then |a.index| < |b.index|
      else if a.tag != b.tag then a.tag
      else IndexLess(a.index, b.index)
  }

  lemma LessAsym(o: Order, a: Field, b: Field)
    ensures Less(o, a, b) ==> !Less(o, b, a)
  {
    StrLessAsym(a.name, b.name);
    IndexLessAsym(a.index, b.index);
  }

  /** Fields an order cannot tell apart have the same index path. */
  lemma LessIncomparable(o: Order, a: Field, b: Field)
    requires !Less(o, a, b) && !Less(o, b, a)
    ensures a.index == b.index
    ensures o == ByNameDepthTag ==> a.name == b.name && a.tag == b.tag
  {
    if a.name != b.name {
      StrLessTotal(a.name, b.name);
    }
    if a.index != b.index {
      IndexLessTotal(a.index, b.index);
    }
  }

  lemma LessTrans(o: Order, a: Field, b: Field, c: Field)
    requires Less(o, a, b) && Less(o, b, c)
    ensures Less(o, a, c)
  {
    if o == ByIndex {
      IndexLessTrans(a.index, b.index, c.index);
    } else if a.name != b.name && b.name != c.name {
      StrLessTrans(a.name, b.name, c.name);
      if a.name == c.name {
        StrLessAsym(a.name, b.name);
      }
    } else if a.name == b.name && b.name == c.name && |a.index| == |b.index| == |c.index| && a.tag == b.tag == c.tag {
      IndexLessTrans(a.index, b.index, c.index);
    }
  }

  /** `!Less` is transitive: the orders are strict weak orders. */
  lemma NotLessTrans(o: Order, a: Field, b: Field, c: Field)
    requires !Less(o, c, b) && !Less(o, b, a)
    ensures !Less(o, c, a)
  {
    if Less(o, a, b) && Less(o, b, c) {
      LessTrans(o, a, b, c);
      LessAsym(o, a, c);
    } else if Less(o, a, b) {
      LessIncomparable(o, b, c);
      LessAsym(o, a, c);
    } else if Less(o, b, c) {
      LessIncomparable(o, a, b);
      LessAsym(o, a, c);
    } else {
      LessIncomparable(o, a, b);
      LessIncomparable(o, b, c);
      IndexLessAsym(a.index, a.index);
    }
  }

  /** The fields at positions `i < j` are in order. */
  predicate InOrder(o: Order, s: seq<Field>, i: nat, j: nat)
    requires i < j < |s|
  {
    !Less(o, s[j], s[i])
  }

  predicate Sorted(o: Order, s: seq<Field>) {
    forall i, j :: 0 <= i < j < |s| ==> InOrder(o, s, i, j)
  }

  /** Insert `x` before the first element that does not sort before it. */
  function Insert(o: Order, x: Field, s: seq<Field>): (r: seq<Field>)
    ensures |r| == |s| + 1
  {
    if s == [] || !Less(o, s[0], x) then [x] + s else [s[0]] + Insert(o, x, s[1..])
  }

  function Sort(o: Order, s: seq<Field>): (r: seq<Field>)
    ensures |r| == |s|
  {
    if s == [] then [] else Insert(o, s[0], Sort(o, s[1..]))
  }

  lemma {:induction false} InsertPerm(o: Order, x: Field, s: seq<Field>)
    ensures multiset(Insert(o, x, s)) == multiset(s) + multiset{x}
  {
    if s != [] && Less(o, s[0], x) {
      InsertPerm(o, x, s[1..]);
      assert s == [s[0]] + s[1..];
    }
  }

  lemma SortedTail(o: Order, s: seq<Field>)
    requires Sorted(o, s) && s != []
    ensures Sorted(o, s[1..])
  {
    forall i, j | 0 <= i < j < |s[1..]| ensures InOrder(o, s[1..], i, j) {
      assert InOrder(o, s, i + 1, j + 1);
    }
  }

  /** Inserting `x` into a list none of whose elements sorts before `y` gives such
      a list again, provided `x` does not sort before `y` either. */
  lemma {:induction false} InsertAbove(o: Order, x: Field, s: seq<Field>, y: Field)
    requires !Less(o, x, y) && forall j :: 0 <= j < |s| ==> !Less(o, s[j], y)
    ensures forall j :: 0 <= j < |s| + 1 ==> !Less(o, Insert(o, x, s)[j], y)
  {
    if s != [] && Less(o, s[0], x) {
      InsertAbove(o, x, s[1..], y);
      var r := Insert(o, x, s);
      assert r == [s[0]] + Insert(o, x, s[1..]);
      forall j | 1 <= j < |s| + 1 ensures !Less(o, r[j], y) {
        assert r[j] == Insert(o, x, s[1..])[j - 1];
      }
    }
  }

  /** `x` goes in front of a sorted list whose head does not sort before it. */
  lemma InsertFront(o: Order, x: Field, s: seq<Field>)
    requires Sorted(o, s) && s != [] && !Less(o, s[0], x)
    ensures Sorted(o, [x] + s)
  {
    var r := [x] + s;
    forall i, j | 0 <= i < j < |r| ensures InOrder(o, r, i, j) {
      if i == 0 {
        if j > 1 {
          assert InOrder(o, s, 0, j - 1);
          NotLessTrans(o, x, s[0], s[j - 1]);
        }
      } else {
        assert InOrder(o, s, i - 1, j - 1);
      }
    }
  }

  /** A sorted list none of whose elements sorts before `y` stays sorted with `y`
      in front. */
  lemma ConsSorted(o: Order, y: Field, t: seq<Field>)
    requires Sorted(o, t) && forall j :: 0 <= j < |t| ==> !Less(o, t[j], y)
    ensures Sorted(o, [y] + t)
  {
    var r := [y] + t;
    forall i, j | 0 <= i < j < |r| ensures InOrder(o, r, i, j) {
      if i > 0 {
        assert InOrder(o, t, i - 1, j - 1);
      }
    }
  }

  lemma {:induction false} InsertSorted(o: Order, x: Field, s: seq<Field>)
    requires Sorted(o, s)
    ensures Sorted(o, Insert(o, x, s))
  {
    if s == [] {
    } else if !Less(o, s[0], x) {
      InsertFront(o, x, s);
    } else {
      var t := Insert(o, x, s[1..]);
      SortedTail(o, s);
      InsertSorted(o, x, s[1..]);
      LessAsym(o, s[0], x);
      forall j | 0 <= j < |s[1..]| ensures !Less(o, s[1..][j], s[0]) {
        assert InOrder(o, s, 0, j + 1);
      }
      InsertAbove(o, x, s[1..], s[0]);
      ConsSorted(o, s[0], t);
    }
  }

  /** The sort returns a sorted permutation of its input. */
  lemma {:induction false} SortSpec(o: Order, s: seq<Field>)
    ensures Sorted(o, Sort(o, s))
    ensures multiset(Sort(o, s)) == multiset(s)
  {
    if s != [] {
      SortSpec(o, s[1..]);
      InsertSorted(o, s[0], Sort(o, s[1..]));
      InsertPerm(o, s[0], Sort(o, s[1..]));
      assert s == [s[0]] + s[1..];
    }
  }
}
