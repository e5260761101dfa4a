/** Growing a list of items at its end, as the parser and cJSON_Duplicate do. */
module Growing {
  import opened Bytes
  import opened Json
  import opened CHeap
  import opened Items

  lemma FootListSnoc(ns: seq<Node>, c: Node)
    ensures FootList(ns + [c]) == FootList(ns) + Foot(c)
  {
    hide Foot;
    var t := ns + [c];
    forall p ensures p in FootList(t) <==> p in FootList(ns) + Foot(c) {
      if p in FootList(t) {
        var k :| 0 <= k < |t| && p in Foot(t[k]);
        if k < |ns| { assert t[k] == ns[k]; }
      }
      if p in FootList(ns) {
        var k :| 0 <= k < |ns| && p in Foot(ns[k]);
        assert t[k] == ns[k];
      }
      if p in Foot(c) { assert t[|ns|] == c; }
    }
  }

  lemma SepListSnoc(ns: seq<Node>, c: Node)
    requires SepList(ns) && Sep(c) && FootList(ns) !! Foot(c)
    ensures SepList(ns + [c])
  {
    hide Sep, Foot, FootList;
    var t := ns + [c];
    forall i, j | 0 <= i < j < |t| ensures Foot(t[i]) !! Foot(t[j]) {
      assert t[i] == ns[i];
      FootMember(ns, i);
    }
  }

  /** suffix_object on the store: prev.next and item.prev. */
  function Suffixed(m: Store, prev: Ptr, item: Ptr): Store
    requires prev in m.cells && item in m.cells
  {
    var cells := m.cells[prev := m.cells[prev].(next := item)];
    m.(cells := cells[item := cells[item].(prev := prev)])
  }

  lemma SuffixedRelinks(m: Store, prev: Ptr, item: Ptr)
    requires prev in m.cells && item in m.cells
    ensures Relinked(m, Suffixed(m, prev, item), {prev, item})
  {
  }

  lemma AppendLinked(m: Store, first: Ptr, before: Ptr, ns: seq<Node>, c: Node)
    requires ns != [] && Linked(m, first, before, ns) && c.p in m.cells && m.cells[c.p].next == NULL
    requires forall i, j | 0 <= i < j < |ns + [c]| :: (ns + [c])[i].p != (ns + [c])[j].p
    ensures Linked(Suffixed(m, ns[|ns| - 1].p, c.p), first, before, ns + [c])
  {
    var t := ns + [c];
    var z := |ns| - 1;
    var m' := Suffixed(m, ns[z].p, c.p);
    assert t[z] == ns[z] && t[z + 1] == c;
    forall i | 0 <= i < |t|
      ensures t[i].p in m'.cells && m'.cells[t[i].p].next == PtrAt(t, i + 1)
      ensures m'.cells[t[i].p].prev == if i == 0 then before else PtrAt(t, i - 1)
    {
      assert i < z ==> t[i].p != t[z].p && t[i].p != t[z + 1].p && t[i] == ns[i] && t[i + 1] == ns[i + 1];
    }
  }

  /** Crosswiring a detached item behind the last one appends it to the list. */
  lemma AppendItem(m: Store, first: Ptr, before: Ptr, ns: seq<Node>, c: Node)
    requires ns != [] && ListFits(m, first, before, ns) && SepList(ns)
    requires NodeFits(m, c) && Sep(c) && FootList(ns) !! Foot(c) && c.p in m.cells && m.cells[c.p].next == NULL
    ensures var last := ns[|ns| - 1].p;
      last in m.cells && ListFits(Suffixed(m, last, c.p), first, before, ns + [c])
    ensures SepList(ns + [c]) && FootList(ns + [c]) == FootList(ns) + Foot(c)
    ensures DenoteList(Suffixed(m, ns[|ns| - 1].p, c.p), ns + [c])
      == Append(DenoteList(m, ns), Cons(NameAt(m, c.nm), Denote(m, c), Nil))
    ensures AllProper(Suffixed(m, ns[|ns| - 1].p, c.p), ns + [c]) == (AllProper(m, ns) && Proper(m, c))
  {
    hide NodeFits, Sep, Foot, FootList, SepList, Denote, DenoteList, Proper, Suffixed, Relinked, Linked;
    var last := ns[|ns| - 1].p;
    var t := ns + [c];
    SepListSnoc(ns, c);
    FootListSnoc(ns, c);
    ItemsApart(t);
    assert forall i | 0 <= i < |ns| :: t[i] == ns[i];
    assert AllFit(m, t);
    NodeLive(m, ns[|ns| - 1]);
    var m' := Suffixed(m, last, c.p);
    SuffixedRelinks(m, last, c.p);
    assert t[|ns| - 1].p == last && t[|ns|].p == c.p;
    OnlyOwn(t, {last, c.p}, |ns| - 1, |ns|);
    assert AllProper(m, t) == (AllProper(m, ns) && Proper(m, c)) by { assert t[|ns|] == c; }
    RelinkedList(m, m', {last, c.p}, t);
    DenoteSnoc(m, ns, c);
    AppendLinked(m, first, before, ns, c);
  }

  /** Two items of a list, relinked, occur in no footprint but their own. */
  lemma OnlyOwn(ns: seq<Node>, ps: set<Ptr>, i: nat, j: nat)
    requires SepList(ns) && i < |ns| && j < |ns| && ps == {ns[i].p, ns[j].p}
    ensures forall p, k | p in ps && 0 <= k < |ns| :: p in Foot(ns[k]) ==> p == ns[k].p
  {
    hide Foot, SepList;
    ItemsApart(ns);
  }

  /** A first item, with no neighbours, is a list. */
  lemma SingleItem(m: Store, c: Node)
    requires NodeFits(m, c) && Sep(c) && c.p in m.cells && m.cells[c.p].next == NULL && m.cells[c.p].prev == NULL
    ensures ListFits(m, c.p, NULL, [c]) && SepList([c]) && FootList([c]) == Foot(c)
    ensures DenoteList(m, [c]) == Cons(NameAt(m, c.nm), Denote(m, c), Nil)
  {
    hide NodeFits, Sep, Foot, Denote;
    assert [] + [c] == [c];
    FootListSnoc([], c);
    assert DenoteList(m, [c][1..]) == Nil;
  }

  /** An item whose child list was replaced. */
  lemma NodeWithKids(m: Store, m': Store, n: Node, ks: seq<Node>)
    requires NodeFits(m, n) && n.p in m.cells && n.p in m'.cells
    requires var c, c' := m.cells[n.p], m'.cells[n.p];
      c'.valuestring == c.valuestring && c'.name == c.name && !c'.isReference && !c'.stringIsConst
    requires StringFits(m', n.vs) && StringFits(m', n.nm)
    requires ListFits(m', m'.cells[n.p].child, NULL, ks)
    ensures NodeFits(m', n.(kids := ks))
  {
    var n' := n.(kids := ks);
    assert AllFit(m', n'.kids);
  }

  // ----- steps in building a tree -----

  /** From m to m' a new tree n came into being, apart from everything that was there. */
  ghost predicate Detached(m: Store, m': Store, n: Node) {
    && m.Valid() && m'.Valid() && NodeFits(m', n) && Sep(n) && Grown(m, m', Foot(n))
    && n.p in m'.cells && m'.cells[n.p].next == NULL && m'.cells[n.p].prev == NULL
  }

  /** From m to m' the tree n grew into n', in new blocks and without touching anything else. */
  ghost predicate Filled(m: Store, m': Store, n: Node, n': Node) {
    && m.Valid() && m'.Valid()
    && NodeFits(m, n) && Sep(n) && NodeFits(m', n') && Sep(n') && n'.p == n.p
    && n.p in m.cells && n.p in m'.cells
    && m'.cells[n.p].next == m.cells[n.p].next && m'.cells[n.p].prev == m.cells[n.p].prev
    && Foot(n) <= Foot(n') && Foot(n') - Foot(n) !! m.Live() && m'.Live() == m.Live() + Foot(n')
    && m'.vecs == m.vecs && Agree(m, m', m.Live() - Foot(n))
  }

  lemma FilledSelf(m: Store, n: Node)
    requires m.Valid() && NodeFits(m, n) && Sep(n)
    ensures Filled(m, m, n, n)
  {
    NodeLive(m, n);
    FootLive(m, n);
  }

  lemma FilledTwice(m: Store, m': Store, m'': Store, n: Node, n': Node, n'': Node)
    requires Filled(m, m', n, n') && Filled(m', m'', n', n'')
    ensures Filled(m, m'', n, n'')
  {
    hide NodeFits, Sep, Foot;
  }

  lemma DetachedFilled(m: Store, m': Store, m'': Store, n: Node, n': Node)
    requires Detached(m, m', n) && Filled(m', m'', n, n')
    ensures Detached(m, m'', n')
  {
    hide NodeFits, Sep, Foot;
  }

  /** Deleting a detached tree restores the store. */
  lemma DetachedRemove(m: Store, m': Store, n: Node)
    requires Detached(m, m', n)
    ensures ListFits(m', n.p, NULL, [n]) && SepList([n]) && Remove(m', FootList([n])) == m
  {
    hide NodeFits, Sep, Foot, Grown;
    SingleItem(m', n);
    GrownRemove(m, m', Foot(n));
  }

  /** A zeroed item. */
  lemma NewLeaf(m: Store, p: Ptr)
    requires m.Valid() && p != NULL && p !in m.Live()
    ensures Detached(m, WithCell(m, p, ZERO_CELL), Node(p, NULL, NULL, []))
  {
    var n := Node(p, NULL, NULL, []);
    CellAdded(m, p, ZERO_CELL);
    Unfold(n);
    FootListNone();
  }

  lemma FootListNone()
    ensures FootList([]) == {}
  {
  }

  lemma WithCellAgrees(m: Store, p: Ptr, c: Cell)
    requires m.Valid() && p in m.cells
    ensures var m' := WithCell(m, p, c);
      m'.Valid() && m'.Live() == m.Live() && m'.vecs == m.vecs && Agree(m, m', m.Live() - {p})
  {
  }

  /** Assignments to an item that keep the footprint of its tree. */
  lemma CellStep(m: Store, n: Node, c: Cell, n': Node)
    requires m.Valid() && NodeFits(m, n) && Sep(n) && n.p in m.cells
    requires NodeFits(WithCell(m, n.p, c), n') && Sep(n') && n'.p == n.p && Foot(n') == Foot(n)
    requires c.next == m.cells[n.p].next && c.prev == m.cells[n.p].prev
    ensures Filled(m, WithCell(m, n.p, c), n, n')
  {
    hide NodeFits, Sep, Foot;
    WithCellAgrees(m, n.p, c);
    FootLive(m, n);
    Unfold(n);
  }

  /** Assignments that keep the pointers of an item. */
  lemma SetScalars(m: Store, n: Node, c: Cell)
    requires m.Valid() && NodeFits(m, n) && Sep(n) && n.p in m.cells
    requires c == m.cells[n.p].(kind := c.kind, valueint := c.valueint, valuedouble := c.valuedouble)
    ensures var m' := WithCell(m, n.p, c);
      && Filled(m, m', n, n) && NameAt(m', n.nm) == NameAt(m, n.nm) && AllFit(m', n.kids) && AllFit(m, n.kids)
      && DenoteList(m', n.kids) == DenoteList(m, n.kids) && AllProper(m', n.kids) == AllProper(m, n.kids)
  {
    var m' := WithCell(m, n.p, c);
    assert AllFit(m, n.kids) && Linked(m, c.child, NULL, n.kids) && StringFits(m, n.vs) && StringFits(m, n.nm)
      && !c.isReference && !c.stringIsConst;
    hide NodeFits, Sep, Foot, FootList, SepList, DenoteList, AllProper, Linked, Filled;
    WithCellAgrees(m, n.p, c);
    KidsAside(m, m', n);
    hide Agree;
    NodeWithKids(m, m', n, n.kids);
    assert n.(kids := n.kids) == n;
    CellStep(m, n, c, n);
  }

  /** A change to the item itself leaves its children alone. */
  lemma KidsAside(m: Store, m': Store, n: Node)
    requires AllFit(m, n.kids) && Sep(n) && m.Valid()
    requires Agree(m, m', m.Live() - {n.p})
    ensures AllFit(m', n.kids) && DenoteList(m', n.kids) == DenoteList(m, n.kids)
    ensures AllProper(m', n.kids) == AllProper(m, n.kids)
    ensures forall first | Linked(m, first, NULL, n.kids) :: Linked(m', first, NULL, n.kids)
  {
    hide NodeFits, Sep, Foot, FootList, SepList, DenoteList, AllProper, Linked;
    Unfold(n);
    ListLive(m, n.kids);
    assert Agree(m, m', FootList(n.kids));
    FrameList(m, m', n.kids);
    forall first | Linked(m, first, NULL, n.kids) ensures Linked(m', first, NULL, n.kids) {
      LinkedSame(m, m', first, NULL, n.kids);
    }
  }

  /** m' differs from m in the item p and the new blocks ps. */
  ghost predicate Touched(m: Store, m': Store, p: Ptr, ps: set<Ptr>) {
    && m.Valid() && m'.Valid() && p in m.cells && p in m'.cells
    && m'.Live() == m.Live() + ps && ps !! m.Live() && m'.vecs == m.vecs && Agree(m, m', m.Live() - {p})
  }

  lemma TouchedFills(m: Store, m': Store, n: Node, n': Node, ps: set<Ptr>)
    requires NodeFits(m, n) && Sep(n) && NodeFits(m', n') && Sep(n') && Touched(m, m', n.p, ps)
    requires n'.p == n.p && Foot(n') == Foot(n) + ps
    requires m'.cells[n.p].next == m.cells[n.p].next && m'.cells[n.p].prev == m.cells[n.p].prev
    ensures Filled(m, m', n, n')
  {
    hide NodeFits, Sep, Foot;
    FootLive(m, n);
    Unfold(n);
  }

  lemma GrownTouched(m: Store, m': Store, p: Ptr, c: Cell, ps: set<Ptr>)
    requires m.Valid() && m'.Valid() && Grown(m, m', ps) && p in m.cells && p in m'.cells
    ensures Touched(m, WithCell(m', p, c), p, ps)
  {
    WithCellAgrees(m', p, c);
  }

  lemma TouchedKeeps(m: Store, m': Store, n: Node, ps: set<Ptr>)
    requires NodeFits(m, n) && Sep(n) && Touched(m, m', n.p, ps)
    ensures ListFits(m', m.cells[n.p].child, NULL, n.kids) && AllFit(m, n.kids)
    ensures DenoteList(m', n.kids) == DenoteList(m, n.kids) && AllProper(m', n.kids) == AllProper(m, n.kids)
    ensures StringFits(m', n.vs) && TextAt(m', n.vs) == TextAt(m, n.vs)
    ensures StringFits(m', n.nm) && NameAt(m', n.nm) == NameAt(m, n.nm) && TextAt(m', n.nm) == TextAt(m, n.nm)
  {
    assert AllFit(m, n.kids) && Linked(m, m.cells[n.p].child, NULL, n.kids);
    FootLive(m, n);
    hide Sep, Foot, FootList, SepList, DenoteList, AllProper, Linked, AllFit, CString;
    Unfold(n);
    KidsAside(m, m', n);
    assert n.vs != NULL ==> n.vs in Foot(n) && n.vs in m.Live() - {n.p};
    assert n.nm != NULL ==> n.nm in Foot(n) && n.nm in m.Live() - {n.p};
  }

  ghost function WithString(n: Node, b: Ptr, named: bool): Node {
    if named then n.(nm := b) else n.(vs := b)
  }

  function StringField(c: Cell, b: Ptr, named: bool): Cell {
    if named then c.(name := b) else c.(valuestring := b)
  }

  lemma SepWithString(m: Store, n: Node, b: Ptr, named: bool)
    requires m.Valid() && NodeFits(m, n) && Sep(n) && b != NULL && b !in m.Live()
    requires if named then n.nm == NULL else n.vs == NULL
    ensures Sep(WithString(n, b, named)) && Foot(WithString(n, b, named)) == Foot(n) + {b}
  {
    FootLive(m, n);
    hide Sep, Foot, FootList, SepList, NodeFits;
    Unfold(n);
    Unfold(WithString(n, b, named));
  }

  /** Attaching a new string buffer to a field that was null: valuestring, or name. */
  lemma SetString(m: Store, m': Store, n: Node, b: Ptr, named: bool)
    requires m.Valid() && NodeFits(m, n) && Sep(n) && n.p in m.cells
    requires Grown(m, m', {b}) && m'.Valid() && StringFits(m', b) && b != NULL && n.p in m'.cells
    requires if named then n.nm == NULL else n.vs == NULL
    ensures var m'' := WithCell(m', n.p, StringField(m.cells[n.p], b, named));
      && Filled(m, m'', n, WithString(n, b, named)) && AllFit(m'', n.kids) && AllFit(m, n.kids)
      && DenoteList(m'', n.kids) == DenoteList(m, n.kids) && AllProper(m'', n.kids) == AllProper(m, n.kids)
      && TextAt(m'', b) == TextAt(m', b)
      && NameAt(m'', n.nm) == NameAt(m, n.nm) && TextAt(m'', n.vs) == TextAt(m, n.vs)
  {
    var c' := StringField(m.cells[n.p], b, named);
    var m'' := WithCell(m', n.p, c');
    assert b !in m.Live();
    Fields(m, n);
    hide NodeFits, Sep, Foot, FootList, SepList, DenoteList, AllProper, CString, Grown, Touched, Filled;
    GrownTouched(m, m', n.p, c', {b});
    TouchedKeeps(m, m'', n, {b});
    SepWithString(m, n, b, named);
    assert StringFits(m'', b) && TextAt(m'', b) == TextAt(m', b);
    Fields(m'', WithString(n, b, named));
    TouchedFills(m, m'', n, WithString(n, b, named), {b});
  }

  lemma NullFits(m: Store)
    ensures StringFits(m, NULL)
  {
  }

  /** Moving the valuestring of an item to its name, as parse_object does with the key it parsed. */
  lemma MoveName(m: Store, n: Node)
    requires m.Valid() && NodeFits(m, n) && Sep(n) && n.p in m.cells && n.nm == NULL
    ensures var c := m.cells[n.p];
      var m' := WithCell(m, n.p, c.(name := n.vs, valuestring := NULL));
      Filled(m, m', n, n.(nm := n.vs, vs := NULL)) && TextAt(m', n.vs) == TextAt(m, n.vs)
  {
    hide NodeFits, Sep, Foot, FootList, SepList, DenoteList, AllProper, TextAt, NameAt, Touched, Filled;
    hide Grown, AllFit, Linked, StringFits;
    Fields(m, n);
    var c' := m.cells[n.p].(name := n.vs, valuestring := NULL);
    var n' := n.(nm := n.vs, vs := NULL);
    var m' := WithCell(m, n.p, c');
    GrownNothing(m);
    GrownTouched(m, m, n.p, c', {});
    TouchedKeeps(m, m', n, {});
    Unfold(n);
    Unfold(n');
    NullFits(m');
    Fields(m', n');
    TouchedFills(m, m', n, n', {});
  }

  lemma GrownNothing(m: Store)
    ensures Grown(m, m, {})
  {
  }

  /** m with the detached item c linked as last child of par. */
  function Attached(m: Store, par: Ptr, last: Ptr, c: Ptr): Store
    requires par in m.cells && c in m.cells && (last != NULL ==> last in m.cells)
  {
    if last == NULL then WithCell(m, par, m.cells[par].(child := c)) else Suffixed(m, last, c)
  }

  ghost function LastKid(n: Node): Ptr {
    PtrAt(n.kids, |n.kids| - 1)
  }

  ghost function WithKid(par: Node, c: Node): Node {
    par.(kids := par.kids + [c])
  }

  lemma SepWithKid(par: Node, c: Node)
    requires Sep(par) && Sep(c) && Foot(par) !! Foot(c)
    ensures Sep(WithKid(par, c)) && Foot(WithKid(par, c)) == Foot(par) + Foot(c)
  {
    hide Sep, Foot, FootList, SepList;
    Unfold(par);
    Unfold(WithKid(par, c));
    FootListSnoc(par.kids, c);
    SepListSnoc(par.kids, c);
  }

  lemma AttachFirst(m: Store, par: Node, c: Node)
    requires m.Valid() && NodeFits(m, par) && Sep(par) && NodeFits(m, c) && Sep(c) && Foot(par) !! Foot(c)
    requires par.p in m.cells && c.p in m.cells && m.cells[c.p].next == NULL && m.cells[c.p].prev == NULL
    requires par.kids == []
    ensures var m' := Attached(m, par.p, NULL, c.p);
      && Touched(m, m', par.p, {}) && NodeFits(m', WithKid(par, c)) && AllFit(m', [c])
      && DenoteList(m', [c]) == Cons(NameAt(m, c.nm), Denote(m, c), Nil)
      && AllProper(m', [c]) == Proper(m, c)
      && NameAt(m', par.nm) == NameAt(m, par.nm) && TextAt(m', par.vs) == TextAt(m, par.vs)
  {
    hide NodeFits, Sep, Foot, FootList, SepList, DenoteList, AllProper, TextAt, NameAt, Denote, Proper;
    hide AllFit, Linked, StringFits, Grown, Touched;
    Fields(m, par);
    var m' := Attached(m, par.p, NULL, c.p);
    GrownNothing(m);
    GrownTouched(m, m, par.p, m.cells[par.p].(child := c.p), {});
    AttachedList(m, m', par, c);
    TouchedKeeps(m, m', par, {});
    assert [] + [c] == [c];
    Fields(m', WithKid(par, c));
  }

  lemma AttachedList(m: Store, m': Store, par: Node, c: Node)
    requires NodeFits(m, c) && Sep(c) && Sep(par) && Foot(par) !! Foot(c) && Touched(m, m', par.p, {})
    requires c.p in m.cells && m.cells[c.p].next == NULL && m.cells[c.p].prev == NULL
    ensures ListFits(m', c.p, NULL, [c])
    ensures DenoteList(m', [c]) == Cons(NameAt(m, c.nm), Denote(m, c), Nil) && AllProper(m', [c]) == Proper(m, c)
  {
    hide NodeFits, Sep, Foot, FootList, SepList, DenoteList, AllProper, TextAt, NameAt, Denote, Proper, AllFit, Linked;
    Unfold(par);
    FootLive(m, c);
    SingleItem(m, c);
    OneProper(m, c);
    assert Agree(m, m', FootList([c]));
    hide Agree;
    FrameList(m, m', [c]);
    LinkedSame(m, m', c.p, NULL, [c]);
  }

  lemma OneProper(m: Store, c: Node)
    requires NodeFits(m, c) && AllFit(m, [c])
    ensures AllProper(m, [c]) == Proper(m, c)
  {
    assert [c][0] == c;
  }

  lemma AttachNext(m: Store, par: Node, c: Node)
    requires m.Valid() && NodeFits(m, par) && Sep(par) && NodeFits(m, c) && Sep(c) && Foot(par) !! Foot(c)
    requires par.p in m.cells && c.p in m.cells && m.cells[c.p].next == NULL
    requires par.kids != [] && AllFit(m, par.kids) && LastKid(par) in m.cells
    ensures var m' := Suffixed(m, LastKid(par), c.p);
      && NodeFits(m', WithKid(par, c)) && AllFit(m', par.kids + [c])
      && DenoteList(m', par.kids + [c]) == Append(DenoteList(m, par.kids), Cons(NameAt(m, c.nm), Denote(m, c), Nil))
      && AllProper(m', par.kids + [c]) == (AllProper(m, par.kids) && Proper(m, c))
  {
    hide NodeFits, Sep, Foot, FootList, SepList, DenoteList, AllProper, TextAt, NameAt, Denote, Proper, Linked;
    hide AllFit, Agree;
    Fields(m, par);
    AttachNextLinks(m, par, c);
    AppendItem(m, m.cells[par.p].child, NULL, par.kids, c);
    Fields(Suffixed(m, LastKid(par), c.p), WithKid(par, c));
  }

  lemma AttachNextLinks(m: Store, par: Node, c: Node)
    requires Sep(par) && Sep(c) && Foot(par) !! Foot(c) && par.kids != []
    requires par.p in m.cells && c.p in m.cells && LastKid(par) in m.cells
    ensures var m' := Suffixed(m, LastKid(par), c.p);
      && Relinked(m, m', {LastKid(par), c.p}) && LastKid(par) in Foot(par) && c.p in Foot(c)
      && m'.cells[par.p] == m.cells[par.p]
    ensures FootList(par.kids) !! Foot(c) && SepList(par.kids)
  {
    hide Sep, Foot, FootList, SepList;
    Unfold(par);
    Unfold(c);
    FootMember(par.kids, |par.kids| - 1);
    SuffixedRelinks(m, LastKid(par), c.p);
  }

  /** What the parent becomes when the detached tree c is attached behind its children. */
  ghost predicate Adopted(m: Store, m': Store, m'': Store, par: Node, c: Node)
    requires AllFit(m, par.kids) && NodeFits(m', c)
  {
    && Filled(m, m'', par, WithKid(par, c)) && AllFit(m'', par.kids + [c])
    && DenoteList(m'', par.kids + [c]) == Append(DenoteList(m, par.kids), Cons(NameAt(m', c.nm), Denote(m', c), Nil))
    && AllProper(m'', par.kids + [c]) == (AllProper(m, par.kids) && Proper(m', c))
    && par.p in m.cells && par.p in m''.cells && m''.cells[par.p] == m.cells[par.p].(child := m''.cells[par.p].child)
    && NameAt(m'', par.nm) == NameAt(m, par.nm) && TextAt(m'', par.vs) == TextAt(m, par.vs)
  }

  /** Attaching a detached tree to a parent that was there before. */
  lemma AddKid(m: Store, m': Store, par: Node, c: Node)
    requires NodeFits(m, par) && Sep(par) && Detached(m, m', c) && AllFit(m, par.kids)
    ensures par.p in m'.cells && c.p in m'.cells && (LastKid(par) != NULL ==> LastKid(par) in m'.cells)
    ensures LastKid(par) == NULL <==> par.kids == []
    ensures Adopted(m, m', Attached(m', par.p, LastKid(par), c.p), par, c)
  {
    hide NodeFits, Sep, Foot, FootList, SepList, DenoteList, AllProper, TextAt, NameAt, Denote, Proper, Linked;
    hide AllFit, Grown, Filled, Touched, StringFits, Relinked;
    KeepsNode(m, m', Foot(c), par);
    Fields(m, par);
    Unfold(par);
    KeepsList(m, m', Foot(c), m.cells[par.p].child, NULL, par.kids);
    KeepsText(m, m', Foot(c), par);
    SepWithKid(par, c);
    if par.kids == [] {
      AddFirstKid(m, m', par, c);
    } else {
      LastLive(m', par);
      AddNextKid(m, m', par, c);
    }
  }

  lemma LastLive(m: Store, par: Node)
    requires par.kids != [] && AllFit(m, par.kids)
    ensures LastKid(par) != NULL && LastKid(par) in m.cells
  {
    Fields(m, par.kids[|par.kids| - 1]);
  }

  lemma KeepsText(m: Store, m': Store, ps: set<Ptr>, n: Node)
    requires NodeFits(m, n) && Grown(m, m', ps)
    ensures TextAt(m', n.vs) == TextAt(m, n.vs)
  {
    hide CString;
    if n.vs != NULL { assert n.vs in m.bufs && n.vs in m.Live(); }
  }

  lemma AddFirstKid(m: Store, m': Store, par: Node, c: Node)
    requires NodeFits(m, par) && Sep(par) && Detached(m, m', c) && AllFit(m, par.kids) && par.kids == []
    requires NodeFits(m', par) && par.p in m.cells && par.p in m'.cells && m'.cells[par.p] == m.cells[par.p]
    requires Foot(par) !! Foot(c) && Sep(WithKid(par, c)) && Foot(WithKid(par, c)) == Foot(par) + Foot(c)
    requires NameAt(m', par.nm) == NameAt(m, par.nm) && TextAt(m', par.vs) == TextAt(m, par.vs)
    ensures Adopted(m, m', Attached(m', par.p, NULL, c.p), par, c)
  {
    hide NodeFits, Sep, Foot, FootList, SepList, TextAt, NameAt, Denote, Proper, Linked;
    hide Filled, Touched, StringFits;
    AttachFirst(m', par, c);
    var m'' := Attached(m', par.p, NULL, c.p);
    assert par.kids + [c] == [c];
    GrownTouched(m, m', par.p, m.cells[par.p].(child := c.p), Foot(c));
    TouchedFills(m, m'', par, WithKid(par, c), Foot(c));
    assert DenoteList(m, par.kids) == Nil && AllProper(m, par.kids);
  }

  lemma AddNextKid(m: Store, m': Store, par: Node, c: Node)
    requires NodeFits(m, par) && Sep(par) && Detached(m, m', c) && AllFit(m, par.kids) && par.kids != []
    requires NodeFits(m', par) && AllFit(m', par.kids) && LastKid(par) in m'.cells
    requires par.p in m.cells && par.p in m'.cells && m'.cells[par.p] == m.cells[par.p]
    requires Foot(par) !! Foot(c) && Sep(WithKid(par, c)) && Foot(WithKid(par, c)) == Foot(par) + Foot(c)
    requires NameAt(m', par.nm) == NameAt(m, par.nm) && TextAt(m', par.vs) == TextAt(m, par.vs)
    requires DenoteList(m', par.kids) == DenoteList(m, par.kids) && AllProper(m', par.kids) == AllProper(m, par.kids)
    ensures Adopted(m, m', Suffixed(m', LastKid(par), c.p), par, c)
  {
    hide NodeFits, Sep, Foot, FootList, SepList, DenoteList, AllProper, TextAt, NameAt, Denote, Proper, Linked;
    hide AllFit, Grown, Filled, Relinked, StringFits;
    AttachNext(m', par, c);
    AttachNextLinks(m', par, c);
    var m'' := Suffixed(m', LastKid(par), c.p);
    FilledNext(m, m', m'', par, c);
    assert NameAt(m'', par.nm) == NameAt(m', par.nm) && TextAt(m'', par.vs) == TextAt(m', par.vs) by {
      TextOfBufs(m', m'', par.nm);
      TextOfBufs(m', m'', par.vs);
      assert m''.bufs == m'.bufs;
    }
  }

  lemma TextOfBufs(m: Store, m': Store, b: Ptr)
    requires m.bufs == m'.bufs
    ensures TextAt(m, b) == TextAt(m', b) && NameAt(m, b) == NameAt(m', b)
  {
  }

  lemma FilledNext(m: Store, m': Store, m'': Store, par: Node, c: Node)
    requires NodeFits(m, par) && Sep(par) && Detached(m, m', c)
    requires par.p in m.cells && par.p in m'.cells && m'.cells[par.p] == m.cells[par.p] && par.p in m''.cells
    requires m''.cells[par.p] == m'.cells[par.p]
    requires NodeFits(m'', WithKid(par, c)) && Sep(WithKid(par, c)) && Foot(WithKid(par, c)) == Foot(par) + Foot(c)
    requires Relinked(m', m'', {LastKid(par), c.p}) && LastKid(par) in Foot(par) && c.p in Foot(c)
    ensures Filled(m, m'', par, WithKid(par, c))
  {
    hide NodeFits, Sep, Foot, Relinked, Agree, Grown;
    FootLive(m, par);
    GrownRelinked(m, m', m'', Foot(c), {LastKid(par), c.p});
    AgreeLess(m, m'', m.Live() - {LastKid(par), c.p}, m.Live() - Foot(par));
  }

  lemma AgreeLess(m: Store, m': Store, ps: set<Ptr>, qs: set<Ptr>)
    requires Agree(m, m', ps) && qs <= ps
    ensures Agree(m, m', qs)
  {
  }

  lemma GrownRelinked(m: Store, m': Store, m'': Store, foot: set<Ptr>, ps: set<Ptr>)
    requires m'.Valid() && Grown(m, m', foot) && Relinked(m', m'', ps)
    ensures m''.Valid() && m''.Live() == m.Live() + foot && foot !! m.Live() && m''.vecs == m.vecs
    ensures Agree(m, m'', m.Live() - ps)
  {
    assert m''.Live() == m'.Live();
  }

  // ----- filling in the last child -----

  lemma SepListInit(ks: seq<Node>, c: Node)
    requires SepList(ks + [c])
    ensures SepList(ks) && Sep(c) && FootList(ks) !! Foot(c) && FootList(ks + [c]) == FootList(ks) + Foot(c)
  {
    hide Sep, Foot;
    var t := ks + [c];
    FootListSnoc(ks, c);
    assert t[|ks|] == c && forall i | 0 <= i < |ks| :: t[i] == ks[i];
    forall p | p in FootList(ks) ensures p !in Foot(c) {
      var i :| 0 <= i < |ks| && p in Foot(ks[i]);
      assert Foot(t[i]) !! Foot(t[|ks|]);
    }
  }

  lemma AllFitInit(m: Store, ks: seq<Node>, c: Node)
    requires AllFit(m, ks + [c])
    ensures AllFit(m, ks) && NodeFits(m, c)
  {
    hide NodeFits;
    var t := ks + [c];
    assert t[|ks|] == c && forall i | 0 <= i < |ks| :: t[i] == ks[i];
  }

  lemma AllFitSnoc(m: Store, ks: seq<Node>, c: Node)
    requires AllFit(m, ks) && NodeFits(m, c)
    ensures AllFit(m, ks + [c]) && AllProper(m, ks + [c]) == (AllProper(m, ks) && Proper(m, c))
  {
    hide NodeFits, Proper;
    var t := ks + [c];
    assert t[|ks|] == c && forall i | 0 <= i < |ks| :: t[i] == ks[i];
  }

  lemma LinkedReplace(m: Store, m': Store, first: Ptr, ks: seq<Node>, c: Node, c': Node)
    requires Linked(m, first, NULL, ks + [c]) && c'.p == c.p && Agree(m, m', FootList(ks))
    requires c.p in m.cells && c.p in m'.cells
    requires m'.cells[c.p].next == m.cells[c.p].next && m'.cells[c.p].prev == m.cells[c.p].prev
    ensures Linked(m', first, NULL, ks + [c'])
  {
    hide FootList, Foot;
    var t, t' := ks + [c], ks + [c'];
    assert t[|ks|] == c;
    forall i | 0 <= i < |ks| ensures t[i].p in m'.cells && m'.cells[t[i].p] == m.cells[t[i].p] {
      assert t[i] == ks[i];
      FootMember(ks, i);
    }
    assert forall i | 0 <= i < |t| :: t'[i].p == t[i].p;
    assert forall i :: PtrAt(t', i) == PtrAt(t, i);
  }

  /** The last child of par grew: so did par. */
  lemma FillLast(m: Store, m': Store, par: Node, ks: seq<Node>, c: Node, c': Node)
    requires NodeFits(m, par) && Sep(par) && par.kids == ks + [c] && AllFit(m, ks) && Filled(m, m', c, c')
    ensures Filled(m, m', par, par.(kids := ks + [c'])) && AllFit(m', ks + [c'])
    ensures DenoteList(m', ks + [c']) == Append(DenoteList(m, ks), Cons(NameAt(m', c'.nm), Denote(m', c'), Nil))
    ensures AllProper(m', ks + [c']) == (AllProper(m, ks) && Proper(m', c'))
    ensures par.p in m.cells && par.p in m'.cells && m'.cells[par.p] == m.cells[par.p]
    ensures NameAt(m', par.nm) == NameAt(m, par.nm) && TextAt(m', par.vs) == TextAt(m, par.vs)
  {
    var par' := par.(kids := ks + [c']);
    hide NodeFits, Sep, Foot, FootList, SepList, DenoteList, AllProper, TextAt, NameAt, Denote, Proper, Linked;
    hide AllFit, StringFits, Agree, Filled;
    Fields(m, par);
    FillLastSets(m, m', par, ks, c, c');
    FillLastOwn(m, m', par, c);
    FilledLinks(m, m', c, c');
    FrameList(m, m', ks);
    AllFitSnoc(m', ks, c');
    DenoteSnoc(m', ks, c');
    LinkedReplace(m, m', m.cells[par.p].child, ks, c, c');
    Fields(m', par');
    FillLastFilled(m, m', par, par', c, c');
  }

  lemma FilledLinks(m: Store, m': Store, n: Node, n': Node)
    requires Filled(m, m', n, n')
    ensures n.p in m.cells && n.p in m'.cells && n'.p == n.p && NodeFits(m', n') && NodeFits(m, n) && Sep(n) && Sep(n')
    ensures m'.cells[n.p].next == m.cells[n.p].next && m'.cells[n.p].prev == m.cells[n.p].prev
    ensures m.Valid() && m'.Valid()
    ensures Foot(n) <= Foot(n') && Foot(n') - Foot(n) !! m.Live() && Agree(m, m', m.Live() - Foot(n))
  {
    hide NodeFits, Sep, Foot, Agree;
  }

  lemma FillLastSets(m: Store, m': Store, par: Node, ks: seq<Node>, c: Node, c': Node)
    requires NodeFits(m, par) && Sep(par) && par.kids == ks + [c] && Filled(m, m', c, c')
    ensures SepList(ks) && Sep(par.(kids := ks + [c']))
    ensures Foot(par) - Foot(c) + Foot(c') == Foot(par.(kids := ks + [c'])) && Foot(c) <= Foot(par)
    ensures Agree(m, m', FootList(ks)) && Agree(m, m', {par.p} + Block(par.vs) + Block(par.nm))
    ensures Foot(par) <= m.Live() && par.p !in Foot(c)
  {
    hide NodeFits, Sep, Foot, FootList, SepList, Agree, Filled;
    FootLive(m, par);
    FilledLinks(m, m', c, c');
    var par' := par.(kids := ks + [c']);
    Unfold(par);
    Unfold(par');
    SepListInit(ks, c);
    FootListSnoc(ks, c');
    var own := {par.p} + Block(par.vs) + Block(par.nm);
    NewBlocksApart(own, FootList(ks), Foot(c), Foot(c'), m.Live());
    SepListSnoc(ks, c');
    AgreeLess(m, m', m.Live() - Foot(c), FootList(ks));
    AgreeLess(m, m', m.Live() - Foot(c), own);
  }

  lemma NewBlocksApart(own: set<Ptr>, kids: set<Ptr>, foot: set<Ptr>, foot': set<Ptr>, live: set<Ptr>)
    requires own !! kids + foot && kids !! foot && own + kids + foot <= live
    requires foot <= foot' && foot' - foot !! live
    ensures own !! kids + foot' && kids !! foot'
    ensures own + (kids + foot) - foot + foot' == own + (kids + foot')
  {
    forall p | p in own + kids ensures p !in foot' {
      assert p in live && p !in foot;
    }
  }

  lemma FillLastOwn(m: Store, m': Store, par: Node, c: Node)
    requires NodeFits(m, par) && Agree(m, m', {par.p} + Block(par.vs) + Block(par.nm))
    ensures par.p in m'.cells && m'.cells[par.p] == m.cells[par.p]
    ensures StringFits(m', par.vs) && StringFits(m', par.nm)
    ensures NameAt(m', par.nm) == NameAt(m, par.nm) && TextAt(m', par.vs) == TextAt(m, par.vs)
  {
    var own := {par.p} + Block(par.vs) + Block(par.nm);
    assert par.p in own && (par.vs != NULL ==> par.vs in own) && (par.nm != NULL ==> par.nm in own);
  }

  lemma FillLastFilled(m: Store, m': Store, par: Node, par': Node, c: Node, c': Node)
    requires NodeFits(m, par) && Sep(par) && NodeFits(m', par') && Sep(par') && par'.p == par.p
    requires Filled(m, m', c, c') && Foot(par') == Foot(par) - Foot(c) + Foot(c') && Foot(c) <= Foot(par) <= m.Live()
    requires par.p in m.cells && par.p in m'.cells && m'.cells[par.p] == m.cells[par.p]
    ensures Filled(m, m', par, par')
  {
    hide NodeFits, Sep, Foot, Agree;
    AgreeLess(m, m', m.Live() - Foot(c), m.Live() - Foot(par));
  }
}
