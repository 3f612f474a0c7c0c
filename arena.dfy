/** The intermediate representation of bean.go:64-88: a flat list of nodes in
    which a composite node names a contiguous block of children by its first
    index and length, and the tree such a list denotes. */
module Arena {
  import opened GoTypes

  /** bean.go:64-71. */
  datatype ValueType = NilValue | ValueValue | SliceValue | MapValue

  /** bean.go:82-88: `value` is only meaningful for `ValueValue` nodes, `name` is
      set by the parent of a node in a `MapValue` block. */
  datatype MiddleValue = MiddleValue(typ: ValueType, name: string, value: Value, length: nat, first: nat)

  /** `MiddleValue{}`: a nil node without name. */
  const EmptyNode := MiddleValue(NilValue, "", Invalid, 0, 0)

  predicate Composite(m: MiddleValue) {
    (m.typ == SliceValue || m.typ == MapValue) && m.length > 0
  }

  /** The children of node `k`, if any, lie in `[a, b)`. */
  predicate ChildrenIn(l: seq<MiddleValue>, k: nat, a: nat, b: nat)
    requires k < |l|
  {
    Composite(l[k]) ==> a <= l[k].first && l[k].first + l[k].length <= b
  }

  /** The children of node `k`, if any, come after it in the list. */
  predicate ChildrenAfter(l: seq<MiddleValue>, k: nat)
    requires k < |l|
  {
    ChildrenIn(l, k, k + 1, |l|)
  }

  /** Every child block lies after its parent and inside the list. */
  predicate WellFormed(l: seq<MiddleValue>) {
    forall k :: 0 <= k < |l| ==> ChildrenAfter(l, k)
  }

  /** The nodes of `[a, b)` have their children in `[a, b)`. */
  predicate Closed(l: seq<MiddleValue>, a: nat, b: nat)
    requires b <= |l|
  {
    forall k :: a <= k < b ==> ChildrenIn(l, k, a, b)
  }

  /** What a node denotes: nothing, a scalar, an ordered list, or named entries.
      A map node also carries its own name, which bean.go:476 reads. */
  datatype Tree = Null | Leaf(v: Value) | Items(elems: seq<Tree>) | Keyed(name: string, entries: seq<Entry>)

  datatype Entry = Entry(name: string, tree: Tree)

  /** The tree rooted at node `k`. */
  function TreeAt(l: seq<MiddleValue>, k: nat): (r: Tree)
    requires WellFormed(l) && k < |l|
    ensures r.Keyed? <==> l[k].typ == MapValue
    ensures r.Keyed? ==> r.name == l[k].name
    decreases |l| - k
  {
    var m := l[k];
    assert ChildrenAfter(l, k);
    match m.typ
    case NilValue => Null
    case ValueValue => Leaf(m.value)
    case SliceValue =>
      Items(seq(m.length, i requires 0 <= i < m.length => TreeAt(l, m.first + i)))
    case MapValue =>
      Keyed(m.name, seq(m.length, i requires 0 <= i < m.length => Entry(l[m.first + i].name, TreeAt(l, m.first + i))))
  }

  /** The tree of a node once its name is `name`: only a map node's tree shows it. */
  function Named(name: string, t: Tree): (r: Tree)
    ensures r.Keyed? <==> t.Keyed?
    ensures r.Keyed? ==> r.name == name && r.entries == t.entries
    ensures !t.Keyed? ==> r == t
  {
    if t.Keyed? then Keyed(name, t.entries) else t
  }

  /** Two nodes that differ at most in their names. */
  predicate SameShape(m: MiddleValue, n: MiddleValue) {
    m.typ == n.typ && m.value == n.value && m.length == n.length && m.first == n.first
  }

  /** The tree at `c` depends only on the node itself, whose name shows only on a
      map node, and on the region holding its descendants. */
  lemma {:induction false} TreeAtFrame(l: seq<MiddleValue>, l': seq<MiddleValue>, c: nat, a: nat, b: nat)
    requires WellFormed(l) && WellFormed(l') && c < |l| && c < |l'| && b <= |l| && b <= |l'|
    requires SameShape(l[c], l'[c]) && ChildrenIn(l, c, a, b) && Closed(l, a, b)
    requires forall k :: a <= k < b ==> l'[k] == l[k]
    ensures TreeAt(l', c) == Named(l'[c].name, TreeAt(l, c))
    ensures l'[c].name == l[c].name ==> TreeAt(l', c) == TreeAt(l, c)
    decreases |l| - c
  {
    var m := l[c];
    assert ChildrenAfter(l, c) && ChildrenAfter(l', c);
    if Composite(m) {
      forall k | m.first <= k < m.first + m.length ensures TreeAt(l', k) == TreeAt(l, k) {
        assert ChildrenIn(l, k, a, b);
        TreeAtFrame(l, l', k, a, b);
        assert l'[k] == l[k];
      }
      if m.typ == SliceValue {
        assert forall i :: 0 <= i < m.length ==> TreeAt(l', c).elems[i] == TreeAt(l, c).elems[i];
      } else {
        assert forall i :: 0 <= i < m.length ==> TreeAt(l', c).entries[i] == TreeAt(l, c).entries[i];
      }
    }
  }

  /** What encoding into node `c` of `l0` leaves behind in `l`: nodes are only
      appended, no other existing node changes, `c` keeps an empty name, and `c`'s
      descendants are the appended nodes. */
  predicate Extends(l0: seq<MiddleValue>, l: seq<MiddleValue>, c: nat)
    requires c < |l0|
  {
    WellFormed(l) && |l0| <= |l| &&
    (forall k :: 0 <= k < |l0| && k != c ==> l[k] == l0[k]) &&
    l[c].name == "" && ChildrenIn(l, c, |l0|, |l|) && Closed(l, |l0|, |l|)
  }

  /** The children of node `k`, if any, lie in `[a, |l|)`. */
  predicate ChildrenFrom(l: seq<MiddleValue>, k: nat, a: nat)
    requires k < |l|
  {
    ChildrenIn(l, k, a, |l|)
  }

  /** A child block `[lo, hi)` being filled in order: the nodes of `[lo, j)` are
      encoded, with their descendants after the block, those of `[j, hi)` are
      still placeholders, and the region after the block is closed. */
  predicate Block(l: seq<MiddleValue>, lo: nat, hi: nat, j: nat) {
    WellFormed(l) && lo <= j <= hi <= |l| &&
    (forall k :: j <= k < hi ==> l[k] == EmptyNode) &&
    (forall k :: lo <= k < j ==> ChildrenFrom(l, k, hi)) &&
    Closed(l, hi, |l|)
  }

  /** Encoding the next placeholder of a block keeps the block's shape and the
      trees of the nodes already encoded. */
  lemma BlockEncode(l: seq<MiddleValue>, l': seq<MiddleValue>, lo: nat, hi: nat, j: nat)
    requires j < hi && Block(l, lo, hi, j) && Extends(l, l', j)
    ensures Block(l', lo, hi, j + 1)
    ensures forall k :: lo <= k < j ==> TreeAt(l', k) == TreeAt(l, k)
  {
    forall k | lo <= k < j ensures TreeAt(l', k) == TreeAt(l, k) && ChildrenFrom(l', k, hi) {
      assert ChildrenFrom(l, k, hi);
      TreeAtFrame(l, l', k, hi, |l|);
    }
    forall k | j + 1 <= k < hi ensures l'[k] == EmptyNode {
      assert l[k] == EmptyNode;
    }
    assert ChildrenFrom(l', j, hi);
    forall k | hi <= k < |l'| ensures ChildrenIn(l', k, hi, |l'|) {
      if k < |l| {
        assert ChildrenIn(l, k, hi, |l|);
      } else {
        assert ChildrenIn(l', k, |l|, |l'|);
      }
    }
  }

  /** Writing a childless node into the next placeholder of a block. */
  lemma BlockPut(l: seq<MiddleValue>, lo: nat, hi: nat, j: nat, m: MiddleValue)
    requires j < hi && Block(l, lo, hi, j) && !Composite(m)
    ensures Block(l[j := m], lo, hi, j + 1)
    ensures forall k :: lo <= k < j ==> TreeAt(l[j := m], k) == TreeAt(l, k)
  {
    var l' := l[j := m];
    forall k | 0 <= k < |l'| ensures ChildrenAfter(l', k) {
      assert ChildrenAfter(l, k);
    }
    forall k | lo <= k < j ensures TreeAt(l', k) == TreeAt(l, k) && ChildrenFrom(l', k, hi) {
      assert ChildrenFrom(l, k, hi);
      TreeAtFrame(l, l', k, hi, |l|);
    }
    forall k | hi <= k < |l'| ensures ChildrenIn(l', k, hi, |l'|) {
      assert ChildrenIn(l, k, hi, |l|);
    }
  }

  /** Naming the last encoded node of a block changes no other tree of the block,
      and that node's tree takes the name. */
  lemma BlockRename(l: seq<MiddleValue>, lo: nat, hi: nat, j: nat, name: string)
    requires lo <= j < hi && Block(l, lo, hi, j + 1)
    ensures Block(l[j := l[j].(name := name)], lo, hi, j + 1)
    ensures forall k :: lo <= k < j ==> TreeAt(l[j := l[j].(name := name)], k) == TreeAt(l, k)
    ensures TreeAt(l[j := l[j].(name := name)], j) == Named(name, TreeAt(l, j))
  {
    var l' := l[j := l[j].(name := name)];
    forall k | 0 <= k < |l'| ensures ChildrenAfter(l', k) {
      assert ChildrenAfter(l, k);
    }
    forall k | lo <= k <= j ensures TreeAt(l', k) == Named(l'[k].name, TreeAt(l, k)) && ChildrenFrom(l', k, hi) {
      assert ChildrenFrom(l, k, hi);
      TreeAtFrame(l, l', k, hi, |l|);
    }
    forall k | hi <= k < |l'| ensures ChildrenIn(l', k, hi, |l'|) {
      assert ChildrenIn(l, k, hi, |l|);
    }
  }

  /** A prefix one longer is the prefix and the next element. */
  lemma TakeSnoc<T>(s: seq<T>, j: nat)
    requires j < |s|
    ensures s[..j + 1] == s[..j] + [s[j]]
  {
  }

  /** The trees of the nodes `[lo, hi)`, in order. */
  function Trees(l: seq<MiddleValue>, lo: nat, hi: nat): (r: seq<Tree>)
    requires WellFormed(l) && lo <= hi <= |l|
    ensures |r| == hi - lo
    decreases hi - lo
  {
    if lo == hi then [] else Trees(l, lo, hi - 1) + [TreeAt(l, hi - 1)]
  }

  /** The trees of the nodes `[lo, hi)` under the nodes' names, in order. */
  function NamedTrees(l: seq<MiddleValue>, lo: nat, hi: nat): (r: seq<Entry>)
    requires WellFormed(l) && lo <= hi <= |l|
    ensures |r| == hi - lo
    decreases hi - lo
  {
    if lo == hi then [] else NamedTrees(l, lo, hi - 1) + [Entry(l[hi - 1].name, TreeAt(l, hi - 1))]
  }

  lemma {:induction false} TreesAt(l: seq<MiddleValue>, lo: nat, hi: nat)
    requires WellFormed(l) && lo <= hi <= |l|
    ensures forall k :: lo <= k < hi ==> Trees(l, lo, hi)[k - lo] == TreeAt(l, k)
    decreases hi - lo
  {
    if lo < hi {
      TreesAt(l, lo, hi - 1);
    }
  }

  lemma {:induction false} NamedTreesAt(l: seq<MiddleValue>, lo: nat, hi: nat)
    requires WellFormed(l) && lo <= hi <= |l|
    ensures forall k :: lo <= k < hi ==> NamedTrees(l, lo, hi)[k - lo] == Entry(l[k].name, TreeAt(l, k))
    decreases hi - lo
  {
    if lo < hi {
      NamedTreesAt(l, lo, hi - 1);
    }
  }

  /** Placeholders at the end of a block denote unnamed empty entries. */
  lemma {:induction false} NamedTreesEmptyTail(l: seq<MiddleValue>, lo: nat, mid: nat, hi: nat)
    requires WellFormed(l) && lo <= mid <= hi <= |l|
    requires forall k :: mid <= k < hi ==> l[k] == EmptyNode
    ensures NamedTrees(l, lo, hi) == NamedTrees(l, lo, mid) + seq(hi - mid, _ => Entry("", Null))
    decreases hi - mid
  {
    if mid < hi {
      NamedTreesEmptyTail(l, lo, mid, hi - 1);
      assert l[hi - 1] == EmptyNode;
      assert seq(hi - mid, _ => Entry("", Null)) == seq(hi - 1 - mid, _ => Entry("", Null)) + [Entry("", Null)];
    }
  }

  /** Nodes whose trees are unchanged have unchanged `Trees`. */
  lemma {:induction false} TreesFrame(l: seq<MiddleValue>, l': seq<MiddleValue>, lo: nat, hi: nat)
    requires WellFormed(l) && WellFormed(l') && lo <= hi <= |l| && hi <= |l'|
    requires forall k :: lo <= k < hi ==> TreeAt(l', k) == TreeAt(l, k)
    ensures Trees(l', lo, hi) == Trees(l, lo, hi)
    decreases hi - lo
  {
    if lo < hi {
      TreesFrame(l, l', lo, hi - 1);
    }
  }

  /** Nodes whose names and trees are unchanged have unchanged `NamedTrees`. */
  lemma {:induction false} NamedTreesFrame(l: seq<MiddleValue>, l': seq<MiddleValue>, lo: nat, hi: nat)
    requires WellFormed(l) && WellFormed(l') && lo <= hi <= |l| && hi <= |l'|
    requires forall k :: lo <= k < hi ==> l'[k].name == l[k].name && TreeAt(l', k) == TreeAt(l, k)
    ensures NamedTrees(l', lo, hi) == NamedTrees(l, lo, hi)
    decreases hi - lo
  {
    if lo < hi {
      NamedTreesFrame(l, l', lo, hi - 1);
    }
  }

  /** A filled block together with the region after it is closed. */
  lemma BlockClosed(l: seq<MiddleValue>, lo: nat, hi: nat)
    requires Block(l, lo, hi, hi)
    ensures Closed(l, lo, |l|)
  {
    forall k | lo <= k < |l| ensures ChildrenIn(l, k, lo, |l|) {
      if k < hi {
        assert ChildrenFrom(l, k, hi);
      } else {
        assert ChildrenIn(l, k, hi, |l|);
      }
    }
  }

  /** A composite node of kind `typ` whose `n` children start at `first`; with no
      children its length and first index stay zero. */
  function Opened(typ: ValueType, n: nat, first: nat): MiddleValue {
    if n == 0 then MiddleValue(typ, "", Invalid, 0, 0) else MiddleValue(typ, "", Invalid, n, first)
  }

  /** Opening node `c` and appending `n` placeholders gives an empty block of `n`
      children right after the old list. */
  lemma Reserved(l: seq<MiddleValue>, c: nat, typ: ValueType, n: nat)
    requires WellFormed(l) && c < |l|
    ensures WellFormed(l[c := Opened(typ, n, |l|)] + seq(n, _ => EmptyNode))
    ensures Block(l[c := Opened(typ, n, |l|)] + seq(n, _ => EmptyNode), |l|, |l| + n, |l|)
  {
    var l' := l[c := Opened(typ, n, |l|)] + seq(n, _ => EmptyNode);
    forall k | 0 <= k < |l'| ensures ChildrenAfter(l', k) {
      if k < |l| && k != c {
        assert ChildrenAfter(l, k);
      }
    }
  }

  /** Overwriting node `c` with a childless unnamed node is an extension of `l` at `c`. */
  lemma PutLeaf(l: seq<MiddleValue>, c: nat, m: MiddleValue)
    requires WellFormed(l) && c < |l| && !Composite(m) && m.name == ""
    ensures Extends(l, l[c := m], c)
  {
    var l' := l[c := m];
    forall k | 0 <= k < |l'| ensures ChildrenAfter(l', k) {
      assert ChildrenAfter(l, k);
    }
  }

  /** A map node whose children denote the entries `es` denotes `es` under its own name. */
  lemma TreeAtKeyed(l: seq<MiddleValue>, c: nat, es: seq<Entry>)
    requires WellFormed(l) && c < |l| && l[c].typ == MapValue && l[c].first + l[c].length <= |l|
    requires NamedTrees(l, l[c].first, l[c].first + l[c].length) == es
    ensures TreeAt(l, c) == Keyed(l[c].name, es)
  {
    assert ChildrenAfter(l, c);
    var m := l[c];
    NamedTreesAt(l, m.first, m.first + m.length);
    assert TreeAt(l, c).entries == es;
  }

  /** A slice node whose children denote the trees `ts` denotes `Items(ts)`. */
  lemma TreeAtItems(l: seq<MiddleValue>, c: nat, ts: seq<Tree>)
    requires WellFormed(l) && c < |l| && l[c].typ == SliceValue && l[c].first + l[c].length <= |l|
    requires Trees(l, l[c].first, l[c].first + l[c].length) == ts
    ensures TreeAt(l, c) == Items(ts)
  {
    assert ChildrenAfter(l, c);
    var m := l[c];
    TreesAt(l, m.first, m.first + m.length);
    assert TreeAt(l, c).elems == ts;
  }

  /** Node `c` of `l0` opened onto the block `[|l0|, |l0| + n)`, filled, with every
      other old node unchanged, is an extension of `l0` at `c`. */
  lemma BlockExtends(l0: seq<MiddleValue>, l: seq<MiddleValue>, c: nat, typ: ValueType, n: nat)
    requires c < |l0| && Block(l, |l0|, |l0| + n, |l0| + n)
    requires forall k :: 0 <= k < |l0| && k != c ==> l[k] == l0[k]
    requires l[c] == Opened(typ, n, |l0|)
    ensures Extends(l0, l, c)
  {
    BlockClosed(l, |l0|, |l0| + n);
  }
}
