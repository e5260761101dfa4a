/** Trees of cJSON items in the heap: their shape, the JSON value they hold, and who owns what. */
module Items {
  import opened Bytes
  import opened Json
  import opened CHeap

  /** Where an item and what hangs off it live: the item itself, its valuestring, its name, and the
      items on its child list in order. */
  datatype Node = Node(p: Ptr, vs: Ptr, nm: Ptr, kids: seq<Node>)

  /** The address of the i-th item of a list, null outside it. */
  function PtrAt(ns: seq<Node>, i: int): Ptr {
    if 0 <= i < |ns| then ns[i].p else NULL
  }

  /** A char* field is null or points to a live, terminated buffer. */
  predicate StringFits(m: Store, b: Ptr) {
    b == NULL || (b in m.bufs && NUL in m.bufs[b])
  }

  ghost predicate NodeFits(m: Store, n: Node)
    decreases n
  {
    && n.p != NULL && n.p in m.cells
    && var c := m.cells[n.p];
    && c.valuestring == n.vs && StringFits(m, n.vs)
    && c.name == n.nm && StringFits(m, n.nm)
    && !c.isReference && !c.stringIsConst
    && Linked(m, c.child, NULL, n.kids)
    && forall i | 0 <= i < |n.kids| :: NodeFits(m, n.kids[i])
  }

  /** The items are doubly linked in order: the list starts at `first`, the prev of its first item is
      `before` and the next of its last one is null. */
  predicate Linked(m: Store, first: Ptr, before: Ptr, ns: seq<Node>) {
    && first == PtrAt(ns, 0)
    && forall i | 0 <= i < |ns| ::
      && ns[i].p in m.cells
      && m.cells[ns[i].p].next == PtrAt(ns, i + 1)
      && m.cells[ns[i].p].prev == if i == 0 then before else PtrAt(ns, i - 1)
  }

  ghost predicate AllFit(m: Store, ns: seq<Node>) {
    forall i | 0 <= i < |ns| :: NodeFits(m, ns[i])
  }

  ghost predicate ListFits(m: Store, first: Ptr, before: Ptr, ns: seq<Node>) {
    AllFit(m, ns) && Linked(m, first, before, ns)
  }

  ghost function Block(p: Ptr): set<Ptr> {
    if p == NULL then {} else {p}
  }

  /** The blocks a tree consists of. */
  ghost function Foot(n: Node): set<Ptr>
    decreases n
  {
    {n.p} + Block(n.vs) + Block(n.nm) + FootList(n.kids)
  }

  ghost function FootList(ns: seq<Node>): set<Ptr>
    decreases ns
  {
    set i, p | 0 <= i < |ns| && p in Foot(ns[i]) :: p
  }

  /** No block is used twice. */
  ghost predicate Sep(n: Node)
    decreases n
  {
    OwnSep(n.p, n.vs, n.nm, FootList(n.kids)) && SepList(n.kids)
  }

  /** The blocks of the item itself are distinct and apart from those of its children. */
  ghost predicate OwnSep(p: Ptr, vs: Ptr, nm: Ptr, kids: set<Ptr>) {
    && p != vs && p != nm && (vs == nm ==> vs == NULL)
    && p !in kids && Block(vs) !! kids && Block(nm) !! kids
  }

  /** Sep and Foot, one level deep. */
  lemma Unfold(n: Node)
    ensures Foot(n) == {n.p} + Block(n.vs) + Block(n.nm) + FootList(n.kids)
    ensures Sep(n) == (OwnSep(n.p, n.vs, n.nm, FootList(n.kids)) && SepList(n.kids))
  {
    hide FootList, SepList, OwnSep;
  }

  ghost predicate SepList(ns: seq<Node>)
    decreases ns
  {
    && (forall i | 0 <= i < |ns| :: Sep(ns[i]))
    && (forall i, j | 0 <= i < j < |ns| :: Foot(ns[i]) !! Foot(ns[j]))
  }

  function TextAt(m: Store, b: Ptr): bytes {
    if b != NULL && b in m.bufs then CString(m.bufs[b]) else []
  }

  function NameAt(m: Store, b: Ptr): Name {
    if b == NULL then NoName else Named(TextAt(m, b))
  }

  /** The JSON value an item holds. */
  ghost function Denote(m: Store, n: Node): Json
    requires NodeFits(m, n)
    decreases n
  {
    var c := m.cells[n.p];
    match c.kind
    case KNull => Null
    case KFalse => False
    case KTrue => True
    case KNumber => Number(c.valuedouble)
    case KString => String(TextAt(m, n.vs))
    case KArray => Array(DenoteList(m, n.kids))
    case KObject => Object(DenoteList(m, n.kids))
  }

  ghost function DenoteList(m: Store, ns: seq<Node>): Chain
    requires AllFit(m, ns)
    decreases ns
  {
    if ns == [] then Nil else Cons(NameAt(m, ns[0].nm), Denote(m, ns[0]), DenoteList(m, ns[1..]))
  }

  /** Every string item of the tree has its text, which print_string_ptr dereferences, and every number
      item its number as an int, which print_number prints. */
  ghost predicate Proper(m: Store, n: Node)
    requires NodeFits(m, n)
    decreases n
  {
    && (m.cells[n.p].kind == KString ==> n.vs != NULL) && IntFits(m.cells[n.p])
    && forall i | 0 <= i < |n.kids| :: Proper(m, n.kids[i])  // AllProper(m, n.kids)
  }

  /** The two number fields of a number item agree. */
  predicate IntFits(c: Cell) {
    c.kind == KNumber ==> Converted(c.valueint, c.valuedouble)
  }

  ghost predicate AllProper(m: Store, ns: seq<Node>)
    requires AllFit(m, ns)
  {
    forall i | 0 <= i < |ns| :: Proper(m, ns[i])
  }

  /** The value an item holds, from its fields and the values of its children. */
  function Shape(kind: Kind, num: Decimal, text: bytes, items: Chain): Json {
    match kind
    case KNull => Null
    case KFalse => False
    case KTrue => True
    case KNumber => Number(num)
    case KString => String(text)
    case KArray => Array(items)
    case KObject => Object(items)
  }

  /** Denote and Proper, one level deep. */
  lemma DenoteIs(m: Store, n: Node)
    requires NodeFits(m, n)
    ensures n.p in m.cells && AllFit(m, n.kids)
    ensures Denote(m, n) == Shape(m.cells[n.p].kind, m.cells[n.p].valuedouble, TextAt(m, n.vs), DenoteList(m, n.kids))
    ensures Proper(m, n) ==
      ((m.cells[n.p].kind == KString ==> n.vs != NULL) && IntFits(m.cells[n.p]) && AllProper(m, n.kids))
  {
    KidsFit(m, n);
    DenoteShape(m, n);
    ProperShape(m, n);
    hide NodeFits, Denote, Proper, DenoteList, AllProper, AllFit, TextAt;
  }

  lemma KidsFit(m: Store, n: Node)
    requires NodeFits(m, n)
    ensures n.p in m.cells && AllFit(m, n.kids)
  {
  }

  lemma DenoteShape(m: Store, n: Node)
    requires NodeFits(m, n) && n.p in m.cells && AllFit(m, n.kids)
    ensures Denote(m, n) == Shape(m.cells[n.p].kind, m.cells[n.p].valuedouble, TextAt(m, n.vs), DenoteList(m, n.kids))
  {
    hide NodeFits, AllFit, TextAt, DenoteList;
  }

  lemma ProperShape(m: Store, n: Node)
    requires NodeFits(m, n) && n.p in m.cells && AllFit(m, n.kids)
    ensures Proper(m, n) ==
      ((m.cells[n.p].kind == KString ==> n.vs != NULL) && IntFits(m.cells[n.p]) && AllProper(m, n.kids))
  {
    hide NodeFits;
  }

  // ----- frames -----

  /** The two stores hold the same tree at n, the links of its root aside. */
  ghost predicate SameNode(m: Store, m': Store, n: Node) {
    && n.p in m.cells && n.p in m'.cells
    && m'.cells[n.p].(next := NULL, prev := NULL) == m.cells[n.p].(next := NULL, prev := NULL)
    && Agree(m, m', Foot(n) - {n.p})
  }

  lemma {:induction false} FrameNode(m: Store, m': Store, n: Node)
    requires NodeFits(m, n) && Sep(n) && SameNode(m, m', n)
    ensures NodeFits(m', n) && Denote(m', n) == Denote(m, n) && NameAt(m', n.nm) == NameAt(m, n.nm)
    ensures Proper(m', n) == Proper(m, n)
    decreases n, 0
  {
    hide NodeFits, Denote, Proper, AllProper, Foot, FootList, SepList, Sep, Agree, Linked, DenoteList, AllFit, TextAt;
    SameNodeParts(m, m', n);
    Fields(m, n);
    FrameList(m, m', n.kids);
    LinkedSame(m, m', m.cells[n.p].child, NULL, n.kids);
    assert m'.cells[n.p].child == m.cells[n.p].(next := NULL, prev := NULL).child;
    FrameStrings(m, m', n);
    Fields(m', n);
    DenoteIs(m, n);
    DenoteIs(m', n);
  }

  lemma SameNodeParts(m: Store, m': Store, n: Node)
    requires Sep(n) && SameNode(m, m', n)
    ensures Agree(m, m', FootList(n.kids)) && Agree(m, m', Block(n.vs) + Block(n.nm)) && SepList(n.kids)
  {
    hide NodeFits, FootList, SepList;
    var own := Foot(n) - {n.p};
    assert FootList(n.kids) <= own && Block(n.vs) + Block(n.nm) <= own;
  }

  lemma FrameStrings(m: Store, m': Store, n: Node)
    requires Agree(m, m', Block(n.vs) + Block(n.nm)) && StringFits(m, n.vs) && StringFits(m, n.nm)
    ensures StringFits(m', n.vs) && TextAt(m', n.vs) == TextAt(m, n.vs)
    ensures StringFits(m', n.nm) && NameAt(m', n.nm) == NameAt(m, n.nm)
  {
    assert n.vs != NULL ==> n.vs in Block(n.vs) + Block(n.nm);
    assert n.nm != NULL ==> n.nm in Block(n.vs) + Block(n.nm);
  }

  lemma FootMember(ns: seq<Node>, i: nat)
    requires i < |ns|
    ensures Foot(ns[i]) <= FootList(ns) && ns[i].p in Foot(ns[i])
  {
  }

  /** NodeFits, one level deep. */
  lemma Fields(m: Store, n: Node)
    ensures NodeFits(m, n) <==>
      && n.p != NULL && n.p in m.cells
      && m.cells[n.p].valuestring == n.vs && StringFits(m, n.vs)
      && m.cells[n.p].name == n.nm && StringFits(m, n.nm)
      && !m.cells[n.p].isReference && !m.cells[n.p].stringIsConst
      && ListFits(m, m.cells[n.p].child, NULL, n.kids)
  {
  }

  lemma NodeLive(m: Store, n: Node)
    requires NodeFits(m, n)
    ensures n.p in m.cells
  {
  }

  /** Links are unaffected by changes outside the items. */
  lemma LinkedSame(m: Store, m': Store, first: Ptr, before: Ptr, ns: seq<Node>)
    requires Linked(m, first, before, ns) && Agree(m, m', FootList(ns))
    ensures Linked(m', first, before, ns)
  {
    forall i | 0 <= i < |ns|
      ensures ns[i].p in m'.cells && m'.cells[ns[i].p] == m.cells[ns[i].p]
    {
      assert ns[i].p in Foot(ns[i]);
      assert ns[i].p in FootList(ns);
    }
  }

  lemma {:induction false} FrameList(m: Store, m': Store, ns: seq<Node>)
    requires SepList(ns) && Agree(m, m', FootList(ns)) && AllFit(m, ns)
    ensures AllFit(m', ns) && AllProper(m', ns) == AllProper(m, ns)
    ensures DenoteList(m', ns) == DenoteList(m, ns)
    decreases ns, 1
  {
    hide NodeFits, Denote, DenoteList, Proper, Foot;
    forall i | 0 <= i < |ns|
      ensures NodeFits(m', ns[i]) && Denote(m', ns[i]) == Denote(m, ns[i])
      ensures NameAt(m', ns[i].nm) == NameAt(m, ns[i].nm) && Proper(m', ns[i]) == Proper(m, ns[i])
    {
      FootMember(ns, i);
      NodeLive(m, ns[i]);
      FrameNode(m, m', ns[i]);
    }
    DenoteSame(m, m', ns);
  }

  lemma {:induction false} DenoteSame(m: Store, m': Store, ns: seq<Node>)
    requires AllFit(m, ns) && AllFit(m', ns)
    requires forall i | 0 <= i < |ns| ::
      Denote(m', ns[i]) == Denote(m, ns[i]) && NameAt(m', ns[i].nm) == NameAt(m, ns[i].nm)
    ensures DenoteList(m', ns) == DenoteList(m, ns)
  {
    if ns != [] { DenoteSame(m, m', ns[1..]); }
  }

  lemma {:induction false} DenoteSnoc(m: Store, ns: seq<Node>, n: Node)
    requires AllFit(m, ns) && NodeFits(m, n)
    ensures DenoteList(m, ns + [n]) == Append(DenoteList(m, ns), Cons(NameAt(m, n.nm), Denote(m, n), Nil))
  {
    if ns == [] {
      assert (ns + [n])[1..] == [];
    } else {
      assert (ns + [n])[1..] == ns[1..] + [n];
      DenoteSnoc(m, ns[1..], n);
    }
  }

  /** A tree consists of live blocks only. */
  lemma {:induction false} FootLive(m: Store, n: Node)
    requires NodeFits(m, n)
    ensures Foot(n) <= m.cells.Keys + m.bufs.Keys
    decreases n
  {
    forall i | 0 <= i < |n.kids| ensures Foot(n.kids[i]) <= m.cells.Keys + m.bufs.Keys {
      FootLive(m, n.kids[i]);
    }
  }

  // ----- relinking -----

  /** m' differs from m in the links of the items ps at most. */
  ghost predicate Relinked(m: Store, m': Store, ps: set<Ptr>) {
    && m'.bufs == m.bufs && m'.vecs == m.vecs && m'.cells.Keys == m.cells.Keys
    && forall p | p in m.cells ::
      && m'.cells[p].(next := NULL, prev := NULL) == m.cells[p].(next := NULL, prev := NULL)
      && (p !in ps ==> m'.cells[p] == m.cells[p])
  }

  /** Relinking items of a list leaves the tree below every item alone. */
  lemma RelinkedNode(m: Store, m': Store, ps: set<Ptr>, n: Node)
    requires NodeFits(m, n) && Sep(n) && Relinked(m, m', ps) && ps !! Foot(n) - {n.p}
    ensures NodeFits(m', n) && Denote(m', n) == Denote(m, n) && NameAt(m', n.nm) == NameAt(m, n.nm)
    ensures Proper(m', n) == Proper(m, n)
  {
    hide Sep, Foot, Denote, Proper, NodeFits;
    NodeLive(m, n);
    RelinkedSame(m, m', ps, n);
    hide SameNode;
    FrameNode(m, m', n);
  }

  lemma RelinkedSame(m: Store, m': Store, ps: set<Ptr>, n: Node)
    requires Relinked(m, m', ps) && n.p in m.cells && ps !! Foot(n) - {n.p}
    ensures SameNode(m, m', n)
  {
    hide Foot;
  }

  /** The items of a list are pairwise distinct and none occurs below another. */
  lemma ItemsApart(ns: seq<Node>)
    requires SepList(ns)
    ensures forall i, j | 0 <= i < |ns| && 0 <= j < |ns| && i != j :: ns[i].p !in Foot(ns[j])
    ensures forall i, j | 0 <= i < j < |ns| :: ns[i].p != ns[j].p
  {
    forall i, j | 0 <= i < |ns| && 0 <= j < |ns| && i != j ensures ns[i].p !in Foot(ns[j]) {
      FootMember(ns, i);
      if i < j { assert Foot(ns[i]) !! Foot(ns[j]); } else { assert Foot(ns[j]) !! Foot(ns[i]); }
    }
    forall i, j | 0 <= i < j < |ns| ensures ns[i].p != ns[j].p {
      FootMember(ns, j);
    }
  }

  /** Relinking some items of a list: the values of all of them are unaffected. */
  lemma RelinkedList(m: Store, m': Store, ps: set<Ptr>, ns: seq<Node>)
    requires AllFit(m, ns) && SepList(ns) && Relinked(m, m', ps)
    requires forall p, i | p in ps && 0 <= i < |ns| :: p in Foot(ns[i]) ==> p == ns[i].p
    ensures AllFit(m', ns) && DenoteList(m', ns) == DenoteList(m, ns) && AllProper(m', ns) == AllProper(m, ns)
  {
    hide NodeFits, Denote, Foot, Sep, Proper, DenoteList, Relinked;
    forall i | 0 <= i < |ns|
      ensures NodeFits(m', ns[i]) && Denote(m', ns[i]) == Denote(m, ns[i])
      ensures NameAt(m', ns[i].nm) == NameAt(m, ns[i].nm) && Proper(m', ns[i]) == Proper(m, ns[i])
    {
      RelinkedNode(m, m', ps, ns[i]);
    }
    DenoteSame(m, m', ns);
  }

  // ----- allocation -----

  /** A tree survives the allocation of other blocks. */
  lemma KeepsNode(m: Store, m': Store, ps: set<Ptr>, n: Node)
    requires NodeFits(m, n) && Sep(n) && Grown(m, m', ps)
    ensures NodeFits(m', n) && Denote(m', n) == Denote(m, n) && NameAt(m', n.nm) == NameAt(m, n.nm)
    ensures Proper(m', n) == Proper(m, n)
    ensures n.p in m.cells && n.p in m'.cells && m'.cells[n.p] == m.cells[n.p]
    ensures Foot(n) <= m.Live() && Foot(n) !! ps
  {
    FootLive(m, n);
    NodeLive(m, n);
    hide Sep, Foot, Denote, Proper, NodeFits;
    assert n.p in m.Live();
    assert SameNode(m, m', n);
    FrameNode(m, m', n);
  }

  lemma KeepsList(m: Store, m': Store, ps: set<Ptr>, first: Ptr, before: Ptr, ns: seq<Node>)
    requires ListFits(m, first, before, ns) && SepList(ns) && Grown(m, m', ps)
    ensures ListFits(m', first, before, ns) && DenoteList(m', ns) == DenoteList(m, ns)
    ensures AllProper(m', ns) == AllProper(m, ns)
    ensures FootList(ns) <= m.Live() && FootList(ns) !! ps
  {
    hide Sep, Foot, Denote, Proper, NodeFits, SepList, DenoteList;
    ListLive(m, ns);
    assert Agree(m, m', FootList(ns));
    FrameList(m, m', ns);
    LinkedSame(m, m', first, before, ns);
  }

  lemma ListLive(m: Store, ns: seq<Node>)
    requires AllFit(m, ns)
    ensures FootList(ns) <= m.Live()
  {
    hide Foot, NodeFits;
    forall p | p in FootList(ns) ensures p in m.Live() {
      var i :| 0 <= i < |ns| && p in Foot(ns[i]);
      FootLive(m, ns[i]);
    }
  }
}
