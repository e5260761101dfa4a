/** Adding a named member, replacing a child and deleting one: list edits that also allocate or free. */
module ListReplace {
  import opened Bytes
  import opened Json
  import opened CHeap
  import opened Items
  import opened Growing
  import opened Ownership
  import opened ListEdit
  import opened ListLookup

  // ----- cJSON_AddItemToObject -----

  /** A tree in other blocks than those that changed. */
  lemma Untouched(m: Store, m': Store, n: Node, ps: set<Ptr>)
    requires NodeFits(m, n) && Sep(n) && Agree(m, m', m.Live() - ps) && Foot(n) !! ps
    ensures NodeFits(m', n) && Denote(m', n) == Denote(m, n) && NameAt(m', n.nm) == NameAt(m, n.nm)
    ensures Proper(m', n) == Proper(m, n) && n.p in m.cells && n.p in m'.cells && m'.cells[n.p] == m.cells[n.p]
    ensures AllFit(m, n.kids) && AllFit(m', n.kids) && DenoteList(m', n.kids) == DenoteList(m, n.kids)
    ensures AllProper(m', n.kids) == AllProper(m, n.kids) && TextAt(m', n.vs) == TextAt(m, n.vs)
  {
    hide Sep, Foot, FootList, SepList, Denote, Proper, NodeFits, AllFit, DenoteList, AllProper, CString;
    FootLive(m, n);
    NodeLive(m, n);
    assert n.p in Foot(n) by { Unfold(n); }
    assert Agree(m, m', Foot(n));
    assert SameNode(m, m', n);
    FrameNode(m, m', n);
    Unfold(n);
    Fields(m, n);
    FrameList(m, m', n.kids);
    assert n.vs != NULL ==> n.vs in Foot(n);
  }

  /** cJSON_AddItemToObject: the item loses the name it had, gets a copy of `text` and becomes the last
      member; when there is no memory for the copy it becomes the last member without a name. */
  method AddItemToObject(h: Heap, parent: Ptr, text: bytes, item: Ptr, ghost par: Node, ghost c: Node)
    returns (ghost p: Ptr)
    requires h.mem.Valid() && parent == par.p && NodeFits(h.mem, par) && Sep(par) && NulFree(text)
    requires item != NULL ==>
      item == c.p && NodeFits(h.mem, c) && Sep(c) && Foot(par) !! Foot(c) && c.p in h.mem.cells
      && h.mem.cells[item].next == NULL && h.mem.cells[item].prev == NULL
    modifies h
    ensures h.mem.Valid()
    ensures item == NULL ==> h.mem == old(h.mem)
    ensures item != NULL ==> if p == NULL then h.failed else h.failed == old(h.failed) && TextAt(h.mem, p) == text
    ensures item != NULL ==> Named(old(h.mem), h.mem, par, c, p, text)
  {
    hide NodeFits, Sep, Foot, Denote, Proper, TextAt, Inserts, Named, Agree, WithName;
    p := NULL;
    if item == NULL { return; }
    ghost var m := h.mem;
    p := Rename(h, item, text, c);
    ghost var m1 := h.mem;
    ghost var c' := c.(nm := p);
    Untouched(m, m1, par, Foot(c));
    WithNameAt(m, c, p, text);
    FootLive(m, par);
    RenamedApart(m, par, c, p);
    AddItemToArray(h, parent, item, par, c');
    NamedDone(m, m1, h.mem, par, c, p, text);
  }

  /** The parent has the children ns' now, its own fields are as before, and so is the value it holds
      up to these children. */
  ghost predicate Edited(m: Store, m': Store, par: Node, ns': seq<Node>) {
    && m'.Valid() && NodeFits(m', par.(kids := ns')) && Sep(par.(kids := ns')) && AllFit(m', ns')
    && par.p in m.cells && par.p in m'.cells && m'.cells[par.p] == m.cells[par.p].(child := PtrAt(ns', 0))
    && Denote(m', par.(kids := ns'))
       == Shape(m.cells[par.p].kind, m.cells[par.p].valuedouble, TextAt(m, par.vs), DenoteList(m', ns'))
  }

  /** The members are those before, and c with the name in the block p behind them; apart from the name
      and the links of c, only the link of the member that was last and the child pointer changed. */
  ghost predicate Named(m: Store, m': Store, par: Node, c: Node, p: Ptr, text: bytes) {
    var ns' := par.kids + [c.(nm := p)];
    && Edited(m, m', par, ns') && AllFit(m, par.kids) && NodeFits(m, c) && c.p in m.cells
    && DenoteList(m', ns') == Append(DenoteList(m, par.kids), Cons(NameAt(m', p), Denote(m, c), Nil))
    && AllProper(m', ns') == (AllProper(m, par.kids) && Proper(m, c))
    && m'.Live() == m.Live() - Block(c.nm) + Block(p)
    && Agree(m, m', m.Live() - Foot(par) - Foot(c))
    && Rewired(WithName(m, c, p, text), m', par.p, {c.p} + Block(PtrAt(par.kids, |par.kids| - 1)))
  }

  lemma RenamedApart(m: Store, par: Node, c: Node, p: Ptr)
    requires Foot(par) !! Foot(c) && Foot(par) <= m.Live() && (p != NULL ==> p !in m.Live() - Block(c.nm))
    requires Foot(c.(nm := p)) == Foot(c) - Block(c.nm) + Block(p)
    ensures Foot(par) !! Foot(c.(nm := p))
  {
    assert Block(c.nm) <= Foot(c) by { Unfold(c); }
    hide Foot;
  }

  lemma InsertsLast(m: Store, m': Store, par: Node, c: Node)
    requires m.Valid() && Inserts(m, m', par, |par.kids|, c)
    ensures var ns' := par.kids + [c];
      && m'.Valid() && NodeFits(m', par.(kids := ns')) && Sep(par.(kids := ns')) && AllFit(m, ns') && AllFit(m', ns')
      && DenoteList(m', ns') == DenoteList(m, ns') && AllProper(m', ns') == AllProper(m, ns')
    ensures m'.bufs == m.bufs && m'.vecs == m.vecs && m'.cells.Keys == m.cells.Keys
    ensures Rewired(m, m', par.p, {c.p} + Block(PtrAt(par.kids, |par.kids| - 1)))
    ensures Rechained(m, m', par, par.kids + [c])
  {
    hide NodeFits, Sep, Foot, DenoteList, AllFit, AllProper, Rewired;
    assert InsertAt(par.kids, |par.kids|, c) == par.kids + [c];
    var around := {c.p} + Block(PtrAt(par.kids, |par.kids| - 1));
    assert around + Block(NULL) == around;
  }

  /** Inserting behind the last child appends to the value of the parent. */
  lemma AddedLast(m: Store, m': Store, par: Node, c: Node)
    requires m.Valid() && NodeFits(m, par) && AllFit(m, par.kids) && NodeFits(m, c)
      && Inserts(m, m', par, |par.kids|, c)
    ensures var ns' := par.kids + [c];
      && m'.Valid() && NodeFits(m', par.(kids := ns')) && Sep(par.(kids := ns')) && AllFit(m', ns')
      && DenoteList(m', ns') == Append(DenoteList(m, par.kids), Cons(NameAt(m, c.nm), Denote(m, c), Nil))
      && AllProper(m', ns') == (AllProper(m, par.kids) && Proper(m, c))
    ensures m'.bufs == m.bufs && m'.vecs == m.vecs && m'.Live() == m.Live() && Edited(m, m', par, par.kids + [c])
    ensures Agree(m, m', m.Live() - Foot(par) - Foot(c))
    ensures Rewired(m, m', par.p, {c.p} + Block(PtrAt(par.kids, |par.kids| - 1)))
  {
    InsertsLast(m, m', par, c);
    RechainedEdits(m, m', par, par.kids + [c]);
    hide NodeFits, Sep, Foot, FootList, Denote, DenoteList, Proper, AllFit, AllProper, Rewired, Agree, Inserts, NameAt,
      Rechained, Edited;
    DenoteSnoc(m, par.kids, c);
    AllFitSnoc(m, par.kids, c);
    RewiredAgrees(m, m', par, c);
    LiveRewired(m, m');
  }

  lemma NamedDone(m: Store, m1: Store, m2: Store, par: Node, c: Node, p: Ptr, text: bytes)
    requires m.Valid() && m1.Valid() && NodeFits(m, par) && Sep(par) && NodeFits(m1, par) && NodeFits(m, c)
    requires var c' := c.(nm := p);
      && NodeFits(m1, c') && Denote(m1, c') == Denote(m, c) && Proper(m1, c') == Proper(m, c)
      && Foot(c') == Foot(c) - Block(c.nm) + Block(p) && Foot(par) !! Foot(c')
      && (p != NULL ==> p !in m.Live() - Block(c.nm)) && Inserts(m1, m2, par, |par.kids|, c')
    requires AllFit(m, par.kids) && AllFit(m1, par.kids) && DenoteList(m1, par.kids) == DenoteList(m, par.kids)
    requires AllProper(m1, par.kids) == AllProper(m, par.kids) && c.p in m.cells && m1 == WithName(m, c, p, text)
    requires par.p in m.cells && par.p in m1.cells && m1.cells[par.p] == m.cells[par.p]
    requires TextAt(m1, par.vs) == TextAt(m, par.vs)
    requires m1.Live() == m.Live() - Block(c.nm) + Block(p) && Agree(m, m1, m.Live() - Foot(c))
    ensures Named(m, m2, par, c, p, text) && m2.Valid() && TextAt(m2, p) == TextAt(m1, p)
  {
    hide NodeFits, Sep, FootList, Foot, Denote, DenoteList, Proper, AllFit, Inserts, AllProper, Agree, TextAt, NameAt,
      WithName, Rewired, Shape;
    AddedLast(m1, m2, par, c.(nm := p));
    TextOfBufs(m1, m2, p);
    NamedAgrees(m, m1, m2, par, c, p);
  }

  lemma LiveRewired(m: Store, m': Store)
    requires m'.bufs == m.bufs && m'.vecs == m.vecs && m'.cells.Keys == m.cells.Keys
    ensures m'.Live() == m.Live()
  {
  }

  lemma RewiredAgrees(m: Store, m': Store, par: Node, c: Node)
    requires NodeFits(m, par) && Rewired(m, m', par.p, {c.p} + Block(PtrAt(par.kids, |par.kids| - 1)))
    ensures Agree(m, m', m.Live() - Foot(par) - Foot(c))
  {
    hide NodeFits, FootList;
    Unfold(par);
    assert par.p in Foot(par) && c.p in Foot(c);
    if par.kids != [] { FootMember(par.kids, |par.kids| - 1); }
    hide Foot;
    forall p | p in m.Live() - Foot(par) - Foot(c) && p in m.cells ensures p in m'.cells && m'.cells[p] == m.cells[p] {
    }
  }

  lemma NamedAgrees(m: Store, m1: Store, m2: Store, par: Node, c: Node, p: Ptr)
    requires Agree(m, m1, m.Live() - Foot(c)) && Agree(m1, m2, m1.Live() - Foot(par) - Foot(c.(nm := p)))
    requires m1.Live() == m.Live() - Block(c.nm) + Block(p) && Foot(c.(nm := p)) == Foot(c) - Block(c.nm) + Block(p)
    requires p != NULL ==> p !in m.Live() - Block(c.nm)
    ensures Agree(m, m2, m.Live() - Foot(par) - Foot(c))
  {
    assert Block(c.nm) <= Foot(c) by { Unfold(c); }
    hide Foot, Agree;
    var qs := m.Live() - Foot(par) - Foot(c);
    assert qs <= m1.Live() - Foot(par) - Foot(c.(nm := p));
    AgreeLess(m, m1, m.Live() - Foot(c), qs);
    AgreeTwice(m, m1, m2, qs, m1.Live() - Foot(par) - Foot(c.(nm := p)));
  }

  // ----- cJSON_ReplaceItemInArray -----

  /** The links after the k-th child was replaced by c. */
  ghost predicate Swapped(m: Store, m': Store, par: Node, k: nat, c: Ptr)
    requires k < |par.kids|
  {
    var d, prev, next := par.kids[k].p, PtrAt(par.kids, k - 1), PtrAt(par.kids, k + 1);
    && Rewired(m, m', par.p, {c, d} + Block(prev) + Block(next)) && c in m'.cells && d in m'.cells && par.p in m'.cells
    && m'.cells[c].next == next && m'.cells[c].prev == prev
    && m'.cells[d].next == NULL && m'.cells[d].prev == NULL
    && (prev != NULL ==> prev in m.cells && prev in m'.cells && m'.cells[prev] == m.cells[prev].(next := c))
    && (next != NULL ==> next in m.cells && next in m'.cells && m'.cells[next] == m.cells[next].(prev := c))
    && m'.cells[par.p].child == if k == 0 then c else PtrAt(par.kids, 0)
  }

  lemma SwappedIs(m: Store, m': Store, par: Node, k: nat, c: Ptr)
    requires k < |par.kids| && m'.bufs == m.bufs && m'.vecs == m.vecs && m'.cells.Keys == m.cells.Keys
      && NULL !in m.cells
    requires var d, prev, next := par.kids[k].p, PtrAt(par.kids, k - 1), PtrAt(par.kids, k + 1);
      && par.p in m.cells && c in m.cells && d in m.cells && c != par.p && d != par.p && c != d
      && (prev != NULL ==> prev in m.cells && prev != par.p && prev != c && prev != d)
      && (next != NULL ==> next in m.cells && next != par.p && next != c && next != d)
      && m'.cells[c] == m.cells[c].(next := next, prev := prev)
      && m'.cells[d] == m.cells[d].(next := NULL, prev := NULL)
      && m'.cells[par.p] == m.cells[par.p].(child := if k == 0 then c else PtrAt(par.kids, 0))
      && (forall p | p in m.cells && p !in {c, d, par.p} && p == prev :: m'.cells[p] == m.cells[p].(next := c))
      && (forall p | p in m.cells && p !in {c, d, par.p} && p == next :: m'.cells[p] == m.cells[p].(prev := c))
      && (forall p | p in m.cells && p !in {c, d, par.p, prev, next} :: m'.cells[p] == m.cells[p])
    ensures Swapped(m, m', par, k, c)
  {
  }

  /** The assignments of cJSON_ReplaceItemInArray before the delete. */
  function Swap(m: Store, parent: Ptr, d: Ptr, c: Ptr, prev: Ptr, next: Ptr, first: bool): Store {
    var m3 := SetPrev(SetPrev(SetNext(m, c, next), c, prev), next, c);
    var m4 := if first then SetChild(m3, parent, c) else SetNext(m3, prev, c);
    SetNext(SetPrev(m4, d, NULL), d, NULL)
  }

  lemma SwapSwaps(m: Store, par: Node, k: nat, c: Ptr)
    requires k < |par.kids| && NULL !in m.cells && par.p in m.cells && c in m.cells && c != par.p
    requires m.cells[par.p].child == PtrAt(par.kids, 0)
    requires var d, prev, next := par.kids[k].p, PtrAt(par.kids, k - 1), PtrAt(par.kids, k + 1);
      && d in m.cells && d != par.p && d != c && (prev == NULL <==> k == 0)
      && (prev != NULL ==> prev in m.cells && prev != par.p && prev != c && prev != d)
      && (next != NULL ==> next in m.cells && next != par.p && next != c && next != d && next != prev)
    ensures var prev, next := PtrAt(par.kids, k - 1), PtrAt(par.kids, k + 1);
      Swapped(m, Swap(m, par.p, par.kids[k].p, c, prev, next, k == 0), par, k, c)
  {
    hide SetNext, SetPrev, SetChild, Swapped;
    var d, prev, next := par.kids[k].p, PtrAt(par.kids, k - 1), PtrAt(par.kids, k + 1);
    var m1 := SetNext(m, c, next);
    var m2 := SetPrev(m1, c, prev);
    var m3 := SetPrev(m2, next, c);
    var m4 := if k == 0 then SetChild(m3, par.p, c) else SetNext(m3, prev, c);
    SetNextAt(m, c, next);
    SetPrevAt(m1, c, prev);
    SetPrevAt(m2, next, c);
    SetChildAt(m3, par.p, c);
    SetNextAt(m3, prev, c);
    SetPrevAt(m4, d, NULL);
    SetNextAt(SetPrev(m4, d, NULL), d, NULL);
    SwappedIs(m, SetNext(SetPrev(m4, d, NULL), d, NULL), par, k, c);
  }

  /** Everything but the neighbours of the k-th item is linked as before. */
  lemma SwappedOthers(m: Store, m': Store, par: Node, k: nat, c: Ptr)
    requires k < |par.kids| && Swapped(m, m', par, k, c)
    requires forall i | 0 <= i < |par.kids| ::
      par.kids[i].p != NULL && par.kids[i].p in m.cells && par.kids[i].p != par.p && par.kids[i].p != c
    requires forall i, j | 0 <= i < j < |par.kids| :: par.kids[i].p != par.kids[j].p
    ensures forall i | 0 <= i < |par.kids| && (i < k - 1 || i > k + 1) ::
      par.kids[i].p in m'.cells && m'.cells[par.kids[i].p] == m.cells[par.kids[i].p]
  {
    forall i | 0 <= i < |par.kids| && (i < k - 1 || i > k + 1)
      ensures par.kids[i].p !in {c, par.kids[k].p} + Block(PtrAt(par.kids, k - 1)) + Block(PtrAt(par.kids, k + 1))
    {
    }
  }

  /** The k-th item of a linked list replaced. */
  lemma ReplaceLinked(m: Store, m': Store, ns: seq<Node>, k: nat, c: Node)
    requires k < |ns| && Linked(m, PtrAt(ns, 0), NULL, ns) && m'.cells.Keys == m.cells.Keys && c.p in m.cells
    requires m'.cells[c.p].next == PtrAt(ns, k + 1) && m'.cells[c.p].prev == PtrAt(ns, k - 1)
    requires k + 1 < |ns| ==>
      m'.cells[ns[k + 1].p].prev == c.p && m'.cells[ns[k + 1].p].next == m.cells[ns[k + 1].p].next
    requires k > 0 ==> m'.cells[ns[k - 1].p].next == c.p && m'.cells[ns[k - 1].p].prev == m.cells[ns[k - 1].p].prev
    requires forall i | 0 <= i < |ns| && (i < k - 1 || i > k + 1) :: m'.cells[ns[i].p] == m.cells[ns[i].p]
    ensures Linked(m', PtrAt(ns[k := c], 0), NULL, ns[k := c])
  {
    var t := ns[k := c];
    forall i | 0 <= i < |t|
      ensures t[i].p in m'.cells && m'.cells[t[i].p].next == PtrAt(t, i + 1)
      ensures m'.cells[t[i].p].prev == if i == 0 then NULL else PtrAt(t, i - 1)
    {
    }
  }

  lemma SwapLinks(m: Store, m': Store, par: Node, k: nat, c: Node)
    requires m.Valid() && NodeFits(m, par) && Sep(par) && k < |par.kids| && Swapped(m, m', par, k, c.p)
    requires Foot(par) !! Foot(c) && c.p in m.cells
    ensures par.p in m'.cells && Linked(m', m'.cells[par.p].child, NULL, par.kids[k := c])
  {
    hide NodeFits, Sep, FootList, SepList, Rewired;
    Parent(m, par);
    Unfold(par);
    assert c.p in Foot(c);
    forall i | 0 <= i < |par.kids| ensures par.kids[i].p != c.p { FootMember(par.kids, i); }
    hide Foot;
    SwappedOthers(m, m', par, k, c.p);
    RewiredKeys(m, m', par.p, {c.p, par.kids[k].p} + Block(PtrAt(par.kids, k - 1)) + Block(PtrAt(par.kids, k + 1)));
    ReplaceLinked(m, m', par.kids, k, c);
  }

  lemma ReplacedAt(ns: seq<Node>, k: nat, c: Node)
    requires k < |ns|
    ensures ns[k := c] == InsertAt(RemoveAt(ns, k), k, c)
  {
    RemovedAt(ns, k);
    InsertedAt(RemoveAt(ns, k), k, c);
  }

  lemma AllFitReplace(m: Store, ns: seq<Node>, k: nat, c: Node)
    requires k < |ns| && AllFit(m, ns) && NodeFits(m, c)
    ensures AllFit(m, ns[k := c])
  {
    hide NodeFits;
  }

  /** The footprints after a replacement. */
  lemma SwapSeps(m: Store, par: Node, k: nat, c: Node)
    requires m.Valid() && NodeFits(m, par) && Sep(par) && k < |par.kids|
    requires NodeFits(m, c) && Sep(c) && Foot(par) !! Foot(c)
    ensures var par', d := par.(kids := par.kids[k := c]), par.kids[k];
      && Sep(par') && Foot(par') !! Foot(d) && Foot(par') + Foot(d) == Foot(par) + Foot(c)
      && Sep(d) && NodeFits(m, d) && AllFit(m, par'.kids) && par.p !in Foot(d)
  {
    hide NodeFits, Sep, Foot, FootList, SepList, AllFit, InsertAt, RemoveAt;
    Parent(m, par);
    AllFitReplace(m, par.kids, k, c);
    ReplacedAt(par.kids, k, c);
    DetachSeps(m, par, k);
    SwapFeet(par, k);
    SpliceApart(par.(kids := RemoveAt(par.kids, k)), par.(kids := par.kids[k := c]), k, c);
  }

  lemma SwapFeet(par: Node, k: nat)
    requires k < |par.kids| && Sep(par)
    ensures var par1, d := par.(kids := RemoveAt(par.kids, k)), par.kids[k];
      Foot(par1) + Foot(d) == Foot(par) && k <= |par1.kids|
  {
    RemovedAt(par.kids, k);
    hide Sep, Foot, FootList, SepList, RemoveAt;
    Unfold(par);
    Unfold(par.(kids := RemoveAt(par.kids, k)));
    SepListRemove(par.kids, k);
  }

  /** The relinked items occur in no footprint but their own. */
  lemma SwapOwn(m: Store, par: Node, k: nat, c: Node)
    requires m.Valid() && NodeFits(m, par) && Sep(par) && k < |par.kids|
    requires NodeFits(m, c) && Sep(c) && Foot(par) !! Foot(c)
    requires SepList(par.kids[k := c])
    ensures var ns' := par.kids[k := c];
      var ps := {c.p, par.kids[k].p} + Block(PtrAt(par.kids, k - 1)) + Block(PtrAt(par.kids, k + 1));
      && (forall p, i | p in ps && 0 <= i < |ns'| :: p in Foot(ns'[i]) ==> p == ns'[i].p)
      && (forall p | p in ps && p in Foot(par.kids[k]) :: p == par.kids[k].p)
      && par.p !in ps && par.p in m.cells
  {
    hide NodeFits, Sep, Foot, FootList, SepList, AllFit, Linked;
    Parent(m, par);
    SwapApart(m, par, k, c);
    OwnNeighbours(par.kids[k := c], k, c, PtrAt(par.kids, k - 1), PtrAt(par.kids, k + 1), par.kids);
    DetachOwn(par.kids, k);
    NotBelow(par.kids, par.kids[k := c], k, c, par.kids[k].p);
    var prev, next, d := PtrAt(par.kids, k - 1), PtrAt(par.kids, k + 1), par.kids[k].p;
    OwnOrOut(par.kids[k := c], {c.p} + Block(prev) + Block(next), d, {c.p, d} + Block(prev) + Block(next));
    hide PtrAt, Block;
  }

  lemma OwnOrOut(ns: seq<Node>, qs: set<Ptr>, d: Ptr, ps: set<Ptr>)
    requires ps <= qs + {d} && forall i | 0 <= i < |ns| :: d !in Foot(ns[i])
    requires forall p, i | p in qs && 0 <= i < |ns| :: p in Foot(ns[i]) ==> p == ns[i].p
    ensures forall p, i | p in ps && 0 <= i < |ns| :: p in Foot(ns[i]) ==> p == ns[i].p
  {
    hide Foot;
  }

  lemma NotBelow(ns: seq<Node>, ns': seq<Node>, k: nat, c: Node, p: Ptr)
    requires k < |ns| && ns' == ns[k := c] && p !in Foot(c)
    requires forall i | 0 <= i < |ns| :: i != k ==> p !in Foot(ns[i])
    ensures forall i | 0 <= i < |ns'| :: p !in Foot(ns'[i])
  {
    hide Foot;
  }

  lemma SwapApart(m: Store, par: Node, k: nat, c: Node)
    requires m.Valid() && NodeFits(m, par) && Sep(par) && k < |par.kids| && Foot(par) !! Foot(c)
    ensures forall i | 0 <= i < |par.kids| :: i != k ==> par.kids[k].p !in Foot(par.kids[i])
    ensures par.kids[k].p !in Foot(c) && c.p !in Foot(par.kids[k]) && par.p != c.p
    ensures forall i | 0 <= i < |par.kids| :: par.kids[i].p != par.p
  {
    assert c.p in Foot(c) && par.p in Foot(par);
    hide NodeFits, Sep, FootList, SepList, AllFit;
    Unfold(par);
    FootMember(par.kids, k);
    hide Foot;
    Parent(m, par);
    ItemsApart(par.kids);
  }

  lemma OwnNeighbours(ns': seq<Node>, k: nat, c: Node, prev: Ptr, next: Ptr, ns: seq<Node>)
    requires SepList(ns') && k < |ns| && ns' == ns[k := c] && prev == PtrAt(ns, k - 1) && next == PtrAt(ns, k + 1)
    ensures forall p, i | p in {c.p} + Block(prev) + Block(next) && 0 <= i < |ns'| ::
      p in Foot(ns'[i]) ==> p == ns'[i].p
  {
    var ps := {c.p} + Block(prev) + Block(next);
    hide Foot, SepList;
    forall p | p in ps ensures exists i :: 0 <= i < |ns'| && p == ns'[i].p {
      if p == c.p {
        assert p == ns'[k].p;
      } else if k > 0 && p == ns[k - 1].p {
        assert p == ns'[k - 1].p;
      } else {
        assert p == ns'[k + 1].p;
      }
    }
    OwnOnly(ns', ps);
  }

  lemma SwapDone(m: Store, m': Store, par: Node, k: nat, c: Node)
    requires m.Valid() && NodeFits(m, par) && Sep(par) && k < |par.kids| && Swapped(m, m', par, k, c.p)
    requires NodeFits(m, c) && Sep(c) && Foot(par) !! Foot(c) && c.p in m.cells
    ensures Rechained(m, m', par, par.kids[k := c])
    ensures Rewired(m, m', par.p, {c.p, par.kids[k].p} + Block(PtrAt(par.kids, k - 1)) + Block(PtrAt(par.kids, k + 1)))
    ensures NodeFits(m', par.kids[k]) && Sep(par.kids[k]) && par.kids[k].p in m'.cells
    ensures m'.cells[par.kids[k].p].next == NULL && m'.cells[par.kids[k].p].prev == NULL
  {
    var ps := {c.p, par.kids[k].p} + Block(PtrAt(par.kids, k - 1)) + Block(PtrAt(par.kids, k + 1));
    assert Rewired(m, m', par.p, ps) && par.p in m'.cells;
    hide NodeFits, Sep, Foot, FootList, SepList, Rechained, AllFit, Denote, Proper;
    SwapSeps(m, par, k, c);
    Unfold(par.(kids := par.kids[k := c]));
    SwapOwn(m, par, k, c);
    SwapLinks(m, m', par, k, c);
    hide Linked;
    Rechain(m, m', par, par.kids[k := c], ps);
    RewiredNode(m, m', par.p, ps, par.kids[k]);
  }

  /** The k-th child is c now, the one it was is freed with everything below it, and of the rest only the
      links of c and of its neighbours and the child pointer changed. */
  ghost predicate Replaces(m: Store, m': Store, par: Node, k: nat, c: Node)
    requires k < |par.kids|
  {
    var ns', d := par.kids[k := c], par.kids[k];
    && Edited(m, m', par, ns') && AllFit(m, ns')
    && DenoteList(m', ns') == DenoteList(m, ns') && AllProper(m', ns') == AllProper(m, ns')
    && m'.Live() == m.Live() - Foot(d) && Agree(m, m', m.Live() - Foot(par) - Foot(c))
    && Rewired(Remove(m, Foot(d)), m', par.p, {c.p} + Block(PtrAt(par.kids, k - 1)) + Block(PtrAt(par.kids, k + 1)))
    && Foot(par.(kids := ns')) !! Foot(d) && Foot(par.(kids := ns')) + Foot(d) == Foot(par) + Foot(c)
  }

  /** cJSON_ReplaceItemInArray */
  method ReplaceItemInArray(h: Heap, parent: Ptr, which: int, newitem: Ptr, ghost par: Node, ghost c: Node)
    requires h.mem.Valid() && parent == par.p && NodeFits(h.mem, par) && Sep(par)
    requires newitem == c.p && NodeFits(h.mem, c) && Sep(c) && Foot(par) !! Foot(c)
    modifies h`mem
    ensures Index(which) >= |par.kids| ==> h.mem == old(h.mem)
    ensures Index(which) < |par.kids| ==> Replaces(old(h.mem), h.mem, par, Index(which), c)
  {
    hide NodeFits, Sep, Foot, FootList, SepList, Replaces, SetNext, SetPrev, SetChild, Swapped, Rechained, Remove,
      Rewired;
    ghost var m, k := h.mem, Index(which);
    Parent(m, par);
    var d := Walk(h, h.mem.cells[parent].child, which, par.kids);
    if d == NULL { return; }
    hide Linked;
    Replaceable(m, par, k, c);
    var cell := h.mem.cells[d];
    RelinkReplaced(h, parent, d, newitem, cell);
    SwapSwaps(m, par, k, c.p);
    ghost var m1 := h.mem;
    SwapDone(m, m1, par, k, c);
    SingleItem(m1, par.kids[k]);
    Delete(h, d, NULL, [par.kids[k]]);
    ReplaceDone(m, m1, h.mem, par, k, c);
  }

  method RelinkReplaced(h: Heap, parent: Ptr, d: Ptr, newitem: Ptr, cell: Cell)
    requires h.mem.Valid() && parent in h.mem.cells && d in h.mem.cells && newitem in h.mem.cells
      && cell == h.mem.cells[d]
    requires cell.next != NULL ==> cell.next in h.mem.cells
    requires d != h.mem.cells[parent].child ==> cell.prev in h.mem.cells
    modifies h`mem
    ensures h.mem.Valid()
    ensures h.mem == Swap(old(h.mem), parent, d, newitem, cell.prev, cell.next, d == old(h.mem).cells[parent].child)
  {
    hide SetNext, SetPrev, SetChild;
    AssignNext(h, newitem, cell.next);
    AssignPrev(h, newitem, cell.prev);
    SetNull(h.mem);
    if cell.next != NULL { AssignPrev(h, cell.next, newitem); }
    if d == h.mem.cells[parent].child {
      AssignChild(h, parent, newitem);
    } else {
      AssignNext(h, cell.prev, newitem);
    }
    AssignPrev(h, d, NULL);
    AssignNext(h, d, NULL);
  }

  lemma Replaceable(m: Store, par: Node, k: nat, c: Node)
    requires m.Valid() && NodeFits(m, par) && Sep(par) && k < |par.kids|
    requires NodeFits(m, c) && Sep(c) && Foot(par) !! Foot(c)
    ensures var d, prev, next := par.kids[k].p, PtrAt(par.kids, k - 1), PtrAt(par.kids, k + 1);
      && NULL !in m.cells && par.p in m.cells && c.p in m.cells && c.p != par.p && d in m.cells && d != par.p
      && d != c.p
      && (prev == NULL <==> k == 0) && m.cells[par.p].child == PtrAt(par.kids, 0)
      && (d == m.cells[par.p].child <==> k == 0)
      && (prev != NULL ==> prev in m.cells && prev != par.p && prev != c.p && prev != d)
      && (next != NULL ==> next in m.cells && next != par.p && next != c.p && next != d && next != prev)
      && m.cells[d].next == next && m.cells[d].prev == prev
  {
    hide NodeFits, Sep, Foot, FootList, SepList, AllFit;
    Around(m, par, k);
    Beside(m, par, k, c);
    if k + 1 < |par.kids| { Beside(m, par, k + 1, c); }
  }

  lemma ReplaceDone(m: Store, m1: Store, m2: Store, par: Node, k: nat, c: Node)
    requires m.Valid() && NodeFits(m, par) && Sep(par) && k < |par.kids|
    requires NodeFits(m, c) && Sep(c) && Foot(par) !! Foot(c)
    requires Rechained(m, m1, par, par.kids[k := c]) && m2.Valid() && m2 == Remove(m1, FootList([par.kids[k]]))
    requires Rewired(m, m1, par.p, {c.p, par.kids[k].p} + Block(PtrAt(par.kids, k - 1)) + Block(PtrAt(par.kids, k + 1)))
    ensures Replaces(m, m2, par, k, c)
  {
    var ns', d := par.kids[k := c], par.kids[k];
    var around := {c.p} + Block(PtrAt(par.kids, k - 1)) + Block(PtrAt(par.kids, k + 1));
    FootOne(d);
    hide NodeFits, Sep, FootList, SepList, AllFit, DenoteList, AllProper, Agree, Foot, Rechained, Rewired, Remove,
      Edited, PtrAt;
    SwapSeps(m, par, k, c);
    RechainedFacts(m, m1, par, ns');
    LiveRewired(m, m1);
    AroundReplaced(par, k, c);
    RechainedEdits(m, m1, par, ns');
    RemoveEdited(m, m1, par, ns', Foot(d));
    RemoveRewired(m, m1, par.p, around, d.p, Foot(d));
    RemovedOutside(Remove(m, Foot(d)), m2, m, Foot(d), par.p, around, m.Live() - Foot(par) - Foot(c));
  }

  lemma AroundReplaced(par: Node, k: nat, c: Node)
    requires k < |par.kids|
    ensures var d, around := par.kids[k], {c.p} + Block(PtrAt(par.kids, k - 1)) + Block(PtrAt(par.kids, k + 1));
      && {c.p, d.p} + Block(PtrAt(par.kids, k - 1)) + Block(PtrAt(par.kids, k + 1)) == around + {d.p}
      && d.p in Foot(d) && par.p in Foot(par) && Foot(d) <= Foot(par) && around <= Foot(par) + Foot(c)
  {
    var d := par.kids[k];
    NeighboursBelow(par, k);
    assert c.p in Foot(c) && d.p in Foot(d);
    hide Foot, PtrAt, Block;
  }

  lemma AroundDeleted(par: Node, k: nat)
    requires k < |par.kids|
    ensures var d, around := par.kids[k], Block(PtrAt(par.kids, k - 1)) + Block(PtrAt(par.kids, k + 1));
      && {d.p} + Block(PtrAt(par.kids, k - 1)) + Block(PtrAt(par.kids, k + 1)) == around + {d.p}
      && d.p in Foot(d) && par.p in Foot(par) && Foot(d) <= Foot(par) && around <= Foot(par)
  {
    var d := par.kids[k];
    NeighboursBelow(par, k);
    assert d.p in Foot(d);
    hide Foot, PtrAt, Block;
  }

  lemma NeighboursBelow(par: Node, k: nat)
    requires k < |par.kids|
    ensures par.p in Foot(par) && Foot(par.kids[k]) <= Foot(par)
    ensures Block(PtrAt(par.kids, k - 1)) + Block(PtrAt(par.kids, k + 1)) <= Foot(par)
  {
    hide Foot, FootList;
    Unfold(par);
    FootMember(par.kids, k);
    if k > 0 { FootMember(par.kids, k - 1); }
    if k + 1 < |par.kids| { FootMember(par.kids, k + 1); }
  }

  /** An edit of the links is the same edit on what is left after freeing. */
  lemma RemoveRewired(m: Store, m': Store, q: Ptr, ps: set<Ptr>, d: Ptr, gone: set<Ptr>)
    requires Rewired(m, m', q, ps + {d}) && d in gone
    ensures Rewired(Remove(m, gone), Remove(m', gone), q, ps)
  {
  }

  /** What neither was freed nor lies around the edit is as before. */
  lemma RemovedOutside(m1: Store, m': Store, m: Store, gone: set<Ptr>, q: Ptr, ps: set<Ptr>, kept: set<Ptr>)
    requires m1 == Remove(m, gone) && Rewired(m1, m', q, ps) && kept !! gone && kept !! ps && q !in kept
    ensures Agree(m, m', kept)
  {
    forall p | p in kept && p in m.cells ensures p in m'.cells && m'.cells[p] == m.cells[p] {
      assert p in m1.cells;
    }
  }

  lemma RechainedEdits(m: Store, m': Store, par: Node, ns': seq<Node>)
    requires Rechained(m, m', par, ns')
    ensures Edited(m, m', par, ns')
  {
    hide NodeFits, Sep, AllFit, Denote, DenoteList, AllProper, TextAt;
    DenoteIs(m', par.(kids := ns'));
    TextOfBufs(m, m', par.vs);
  }

  /** Freeing blocks apart from the edited tree leaves the edit as it is. */
  lemma RemoveEdited(m: Store, m1: Store, par: Node, ns': seq<Node>, gone: set<Ptr>)
    requires Edited(m, m1, par, ns') && Foot(par.(kids := ns')) !! gone && Remove(m1, gone).Valid()
    ensures var m2 := Remove(m1, gone); m2.Live() == m1.Live() - gone && Edited(m, m2, par, ns')
    ensures var m2 := Remove(m1, gone);
      DenoteList(m2, ns') == DenoteList(m1, ns') && AllProper(m2, ns') == AllProper(m1, ns')
  {
    hide NodeFits, Sep, AllFit, Denote, DenoteList, AllProper, Proper, Foot, TextAt, Agree;
    RemoveAgrees(m1, gone);
    Untouched(m1, Remove(m1, gone), par.(kids := ns'), gone);
  }

  lemma FootOne(d: Node)
    ensures FootList([d]) == Foot(d)
  {
    hide Foot;
    assert [] + [d] == [d];
    FootListSnoc([], d);
    FootListNone();
  }

  lemma RechainedFacts(m: Store, m': Store, par: Node, ns': seq<Node>)
    requires Rechained(m, m', par, ns')
    ensures NodeFits(m', par.(kids := ns')) && Sep(par.(kids := ns')) && AllFit(m, ns') && AllFit(m', ns')
    ensures DenoteList(m', ns') == DenoteList(m, ns') && AllProper(m', ns') == AllProper(m, ns')
    ensures m'.Valid() && m'.bufs == m.bufs && m'.vecs == m.vecs && m'.cells.Keys == m.cells.Keys
  {
    hide NodeFits, Sep, AllFit, DenoteList, AllProper;
  }

  // ----- cJSON_ReplaceItemInObject -----

  /** The members with another name and value at index k. */
  function ChainSet(items: Chain, k: nat, name: Name, v: Json): Chain {
    match items
    case Nil => Nil
    case Cons(n, j, rest) => if k == 0 then Cons(name, v, rest) else Cons(n, j, ChainSet(rest, k - 1, name, v))
  }

  lemma {:induction false} DenoteSet(m: Store, ns: seq<Node>, k: nat, c: Node)
    requires k < |ns| && AllFit(m, ns) && NodeFits(m, c)
    ensures AllFit(m, ns[k := c])
    ensures DenoteList(m, ns[k := c]) == ChainSet(DenoteList(m, ns), k, NameAt(m, c.nm), Denote(m, c))
  {
    hide NodeFits, Denote, NameAt;
    if k == 0 {
      assert ns[k := c][1..] == ns[1..];
    } else {
      assert ns[k := c][1..] == ns[1..][k - 1 := c];
      DenoteSet(m, ns[1..], k - 1, c);
    }
  }

  /** Replacing the k-th child replaces the k-th member of the value of the parent. */
  lemma ReplacedValue(m: Store, m': Store, par: Node, k: nat, c: Node)
    requires NodeFits(m, par) && NodeFits(m, c) && k < |par.kids| && Replaces(m, m', par, k, c)
    ensures AllFit(m, par.kids) && AllFit(m', par.kids[k := c])
    ensures DenoteList(m', par.kids[k := c]) == ChainSet(DenoteList(m, par.kids), k, NameAt(m, c.nm), Denote(m, c))
    ensures AllProper(m, par.kids) && Proper(m, c) ==> AllProper(m', par.kids[k := c])
  {
    KidsFit(m, par);
    hide NodeFits, Denote, DenoteList, ChainSet, Replaces, NameAt, Proper, AllFit, AllProper;
    ReplacesFacts(m, m', par, k, c);
    DenoteSet(m, par.kids, k, c);
    AllProperSet(m, par.kids, k, c);
  }

  lemma AllProperSet(m: Store, ns: seq<Node>, k: nat, c: Node)
    requires k < |ns| && AllFit(m, ns) && NodeFits(m, c) && AllFit(m, ns[k := c])
    ensures AllProper(m, ns) && Proper(m, c) ==> AllProper(m, ns[k := c])
  {
    hide NodeFits, Proper;
  }

  lemma ReplacesFacts(m: Store, m': Store, par: Node, k: nat, c: Node)
    requires k < |par.kids| && Replaces(m, m', par, k, c)
    ensures var ns', d := par.kids[k := c], par.kids[k];
      && Edited(m, m', par, ns') && AllFit(m, ns') && AllFit(m', ns')
      && DenoteList(m', ns') == DenoteList(m, ns') && AllProper(m', ns') == AllProper(m, ns')
      && m'.Live() == m.Live() - Foot(d) && Agree(m, m', m.Live() - Foot(par) - Foot(c))
      && Rewired(Remove(m, Foot(d)), m', par.p, {c.p} + Block(PtrAt(par.kids, k - 1)) + Block(PtrAt(par.kids, k + 1)))
      && Foot(par.(kids := ns')) !! Foot(d) && Foot(par.(kids := ns')) + Foot(d) == Foot(par) + Foot(c)
  {
    hide NodeFits, Sep, Foot, AllFit, DenoteList, AllProper, Agree, Rewired, Denote, Remove;
  }

  /** The member at index k is c with the name in the block p, the one it was is freed. The block of the
      name c had is the only one of both trees that is still live and in no tree. */
  ghost predicate Substitutes(m: Store, m': Store, par: Node, k: nat, c: Node, p: Ptr, text: bytes)
    requires k < |par.kids|
  {
    var d, ns' := par.kids[k], par.kids[k := c.(nm := p)];
    && Edited(m, m', par, ns') && AllFit(m, par.kids) && NodeFits(m, c) && c.p in m.cells
    && DenoteList(m', ns') == ChainSet(DenoteList(m, par.kids), k, NameAt(m', p), Denote(m, c))
    && (AllProper(m, par.kids) && Proper(m, c) ==> AllProper(m', ns'))
    && m'.Live() == m.Live() - Foot(d) + Block(p) && Agree(m, m', m.Live() - Foot(par) - Foot(c))
    && Rewired(Remove(Relabel(m, c.p, m.cells[c.p], p, text), Foot(d)), m', par.p,
               {c.p} + Block(PtrAt(par.kids, k - 1)) + Block(PtrAt(par.kids, k + 1)))
    && m'.Live() * (Foot(par) + Foot(c)) - Foot(par.(kids := ns')) == Block(c.nm)
  }

  /** cJSON_ReplaceItemInObject: the first member with that name is replaced; the new one gets a copy of
      the text as its name, and the name it had is not freed. */
  method ReplaceItemInObject(h: Heap, parent: Ptr, text: bytes, newitem: Ptr, ghost par: Node, ghost c: Node)
    returns (ghost k: nat, ghost p: Ptr)
    requires h.mem.Valid() && parent == par.p && NodeFits(h.mem, par) && Sep(par) && NulFree(text)
    requires newitem == c.p && NodeFits(h.mem, c) && Sep(c) && Foot(par) !! Foot(c)
    modifies h
    ensures h.mem.Valid() && k <= |par.kids| && FirstNamed(old(h.mem), par.kids, text, k)
    ensures k == |par.kids| ==> h.mem == old(h.mem) && h.failed == old(h.failed)
    ensures k < |par.kids| ==> Substitutes(old(h.mem), h.mem, par, k, c, p, text)
    ensures k < |par.kids| ==> if p == NULL then h.failed else h.failed == old(h.failed) && TextAt(h.mem, p) == text
  {
    hide NodeFits, Sep, Foot, FootList, SepList, FirstNamed, Denote, DenoteList, AllFit, AllProper, Proper, TextAt,
      Agree, Replaces, Substitutes, Relabel, Linked, OwnSep;
    ghost var m := h.mem;
    p := NULL;
    Parent(m, par);
    var d, i := Find(h, h.mem.cells[parent].child, text, par.kids);
    k := i;
    FirstBound(m, par.kids, text, i);
    if d == NULL { return; }
    assert k < |par.kids|;
    hide PtrAt;
    var q := Relabelled(h, newitem, text, c);
    p := q;
    ghost var m1 := h.mem;
    Untouched(m, m1, par, Foot(c));
    FootLive(m, par);
    RelabelledApart(m, par, c, p);
    ReplaceItemInArray(h, parent, i, newitem, par, c.(nm := p));
    SubstituteDone(m, m1, h.mem, par, k, c, p, text);
  }

  lemma RelabelledApart(m: Store, par: Node, c: Node, p: Ptr)
    requires Foot(par) !! Foot(c) && Foot(par) <= m.cells.Keys + m.bufs.Keys && p !in m.Live()
    requires Foot(c.(nm := p)) == Foot(c) - Block(c.nm) + Block(p)
    ensures Foot(par) !! Foot(c.(nm := p))
  {
    hide Foot;
  }

  /** The name of an item overwritten with a copy of the text. */
  method Relabelled(h: Heap, item: Ptr, text: bytes, ghost c: Node) returns (p: Ptr)
    requires h.mem.Valid() && item == c.p && NodeFits(h.mem, c) && Sep(c) && NulFree(text)
    modifies h
    ensures h.mem.Valid() && p !in old(h.mem).Live() && Foot(c) <= old(h.mem).Live()
    ensures if p == NULL then h.failed else h.failed == old(h.failed) && TextAt(h.mem, p) == text
    ensures NodeFits(h.mem, c.(nm := p)) && Sep(c.(nm := p)) && Foot(c.(nm := p)) == Foot(c) - Block(c.nm) + Block(p)
    ensures Denote(h.mem, c.(nm := p)) == Denote(old(h.mem), c) && Proper(h.mem, c.(nm := p)) == Proper(old(h.mem), c)
    ensures item in old(h.mem).cells && h.mem == Relabel(old(h.mem), item, old(h.mem).cells[item], p, text)
    ensures h.mem.Live() == old(h.mem).Live() + Block(p) && Agree(old(h.mem), h.mem, old(h.mem).Live() - Foot(c))
  {
    hide NodeFits, Sep, Foot, CString, Denote, Proper, Agree, TextAt, Grown;
    ghost var m := h.mem;
    FootLive(m, c);
    NodeLive(m, c);
    assert item in Foot(c) by { Unfold(c); }
    p := Strdup(h, text);
    ghost var m1 := h.mem;
    RelabelStep(m, m1, item, p, text);
    h.SetCell(item, h.mem.cells[item].(name := p));
    AgreeLess(m, h.mem, m.Live() - {item}, m.Live() - Block(c.nm) - {c.p});
    AgreeLess(m, h.mem, m.Live() - {item}, m.Live() - Foot(c));
    RenameFits(m, h.mem, c, p);
  }

  lemma RelabelStep(m: Store, m1: Store, q: Ptr, p: Ptr, text: bytes)
    requires m.Valid() && m1.Valid() && q in m.cells
    requires
      if p == NULL then m1 == m
      else Grown(m, m1, {p}) && m1 == WithBuffer(m, p, text + [NUL]) && StringFits(m1, p)
    ensures q in m1.cells && p !in m.Live()
    ensures var m2 := WithCell(m1, q, m1.cells[q].(name := p));
      && m2 == Relabel(m, q, m.cells[q], p, text) && Agree(m, m2, m.Live() - {q}) && StringFits(m2, p)
      && m2.Live() == m.Live() + Block(p) && TextAt(m2, p) == TextAt(m1, p)
  {
    hide CString;
  }

  lemma SubstituteDone(m: Store, m1: Store, m2: Store, par: Node, k: nat, c: Node, p: Ptr, text: bytes)
    requires m.Valid() && NodeFits(m, par) && Sep(par) && NodeFits(m1, par) && NodeFits(m, c) && c.p in m.cells
      && k < |par.kids|
    requires var c' := c.(nm := p);
      && NodeFits(m1, c') && Denote(m1, c') == Denote(m, c) && Proper(m1, c') == Proper(m, c)
      && Foot(c') == Foot(c) - Block(c.nm) + Block(p) && Replaces(m1, m2, par, k, c')
    requires AllFit(m, par.kids) && AllFit(m1, par.kids) && DenoteList(m1, par.kids) == DenoteList(m, par.kids)
    requires AllProper(m1, par.kids) == AllProper(m, par.kids) && m1 == Relabel(m, c.p, m.cells[c.p], p, text)
    requires par.p in m.cells && par.p in m1.cells && m1.cells[par.p] == m.cells[par.p]
      && TextAt(m1, par.vs) == TextAt(m, par.vs)
    requires m1.Live() == m.Live() + Block(p) && p !in m.Live() && Agree(m, m1, m.Live() - Foot(c))
    requires Foot(par) !! Foot(c) && Foot(par) + Foot(c) <= m.Live()
    ensures Substitutes(m, m2, par, k, c, p, text) && TextAt(m2, p) == TextAt(m1, p) && m2.Valid()
  {
    var c', d := c.(nm := p), par.kids[k];
    var ns' := par.kids[k := c'];
    NeighboursBelow(par, k);
    assert Block(c.nm) <= Foot(c) by { Unfold(c); }
    hide NodeFits, Sep, Foot, FootList, Denote, DenoteList, Proper, AllFit, AllProper, Agree, TextAt, NameAt, Replaces,
      Rewired, Edited, Relabel, Remove, PtrAt, ChainSet;
    ReplacesFacts(m1, m2, par, k, c');
    ReplacedValue(m1, m2, par, k, c');
    EditedSince(m, m1, m2, par, ns');
    TextKept(m1, m2, Foot(d), par.p, {c.p} + Block(PtrAt(par.kids, k - 1)) + Block(PtrAt(par.kids, k + 1)), p);
    SubstituteAgrees(m, m1, m2, Foot(par), Foot(c), Foot(c'), Block(c.nm), Block(p));
    SubstituteLost(m, Foot(par), Foot(c), Foot(d), Foot(par.(kids := ns')), Block(c.nm), Block(p));
  }

  lemma EditedSince(m: Store, m1: Store, m2: Store, par: Node, ns': seq<Node>)
    requires Edited(m1, m2, par, ns') && par.p in m.cells && par.p in m1.cells && m1.cells[par.p] == m.cells[par.p]
    requires TextAt(m1, par.vs) == TextAt(m, par.vs)
    ensures Edited(m, m2, par, ns') && m2.Valid()
  {
    hide NodeFits, Sep, AllFit, Denote, DenoteList, TextAt;
  }

  lemma TextKept(m1: Store, m2: Store, gone: set<Ptr>, q: Ptr, ps: set<Ptr>, p: Ptr)
    requires Rewired(Remove(m1, gone), m2, q, ps) && p !in gone
    ensures TextAt(m2, p) == TextAt(m1, p) && NameAt(m2, p) == NameAt(m1, p)
  {
  }

  lemma SubstituteAgrees(m: Store, m1: Store, m2: Store, par: set<Ptr>, c: set<Ptr>, c': set<Ptr>, nm: set<Ptr>,
                         p: set<Ptr>)
    requires Agree(m, m1, m.Live() - c) && Agree(m1, m2, m1.Live() - par - c')
    requires m1.Live() == m.Live() + p && c' == c - nm + p && nm <= c && p !! m.Live()
    ensures Agree(m, m2, m.Live() - par - c)
  {
    hide Agree;
    var qs := m.Live() - par - c;
    AgreeLess(m, m1, m.Live() - c, qs);
    AgreeTwice(m, m1, m2, qs, m1.Live() - par - c');
  }

  /** The blocks of both trees that are live after the replacement and not in the new tree. */
  lemma SubstituteLost(m: Store, par: set<Ptr>, c: set<Ptr>, d: set<Ptr>, par': set<Ptr>, nm: set<Ptr>, p: set<Ptr>)
    requires par !! c && par + c <= m.Live() && p !! m.Live() && nm <= c && d <= par
    requires par' !! d && par' + d == par + (c - nm + p)
    ensures m.Live() + p - d == m.Live() - d + p
    ensures (m.Live() - d + p) * (par + c) - par' == nm
  {
    forall q ensures q in (m.Live() - d + p) * (par + c) - par' <==> q in nm {
      assert q in par' + d <==> q in par + (c - nm + p);
    }
  }

  // ----- detach and delete, detach and insert -----

  /** cJSON_DeleteItemFromArray */
  method DeleteItemFromArray(h: Heap, parent: Ptr, which: int, ghost par: Node)
    requires h.mem.Valid() && parent == par.p && NodeFits(h.mem, par) && Sep(par)
    modifies h`mem
    ensures Index(which) >= |par.kids| ==> h.mem == old(h.mem)
    ensures Index(which) < |par.kids| ==> Deletes(old(h.mem), h.mem, par, Index(which))
  {
    hide NodeFits, Sep, Foot, FootList, SepList, Remove, Detaches, Deletes;
    ghost var m, k := h.mem, Index(which);
    var c := DetachItemFromArray(h, parent, which, par);
    ghost var m1 := h.mem;
    ghost var taken := if k < |par.kids| then [par.kids[k]] else [];
    if k < |par.kids| {
      DetachesFacts(m, m1, par, k);
      SingleItem(m1, par.kids[k]);
    } else {
      NoItems(m1);
      RemoveNone(m1);
    }
    Delete(h, c, NULL, taken);
    if k < |par.kids| { DeleteDone(m, m1, h.mem, par, k); }
  }

  lemma NoItems(m: Store)
    ensures ListFits(m, NULL, NULL, []) && SepList([]) && FootList([]) == {}
  {
  }

  /** The k-th child is gone with everything below it, and of the rest only the links of its neighbours
      and the child pointer changed. */
  ghost predicate Deletes(m: Store, m': Store, par: Node, k: nat)
    requires k < |par.kids|
  {
    var ns', d := RemoveAt(par.kids, k), par.kids[k];
    && Edited(m, m', par, ns') && AllFit(m, ns')
    && DenoteList(m', ns') == DenoteList(m, ns') && AllProper(m', ns') == AllProper(m, ns')
    && m'.Live() == m.Live() - Foot(d) && Agree(m, m', m.Live() - Foot(par))
    && Rewired(Remove(m, Foot(d)), m', par.p, Block(PtrAt(par.kids, k - 1)) + Block(PtrAt(par.kids, k + 1)))
    && Foot(par.(kids := ns')) !! Foot(d) && Foot(par.(kids := ns')) + Foot(d) == Foot(par)
  }

  lemma DetachesFacts(m: Store, m': Store, par: Node, k: nat)
    requires k < |par.kids| && Detaches(m, m', par, k)
    ensures Rechained(m, m', par, RemoveAt(par.kids, k)) && m'.Valid()
    ensures var c := par.kids[k];
      && NodeFits(m', c) && Sep(c) && c.p in m'.cells && m'.cells[c.p].next == NULL && m'.cells[c.p].prev == NULL
      && Foot(par.(kids := RemoveAt(par.kids, k))) !! Foot(c)
      && Rewired(m, m', par.p, {c.p} + Block(PtrAt(par.kids, k - 1)) + Block(PtrAt(par.kids, k + 1)))
  {
    hide NodeFits, Sep, Foot, AllFit, DenoteList, AllProper, Rewired;
  }

  lemma DeleteDone(m: Store, m1: Store, m2: Store, par: Node, k: nat)
    requires m.Valid() && Sep(par) && k < |par.kids| && Detaches(m, m1, par, k)
    requires m2.Valid() && m2 == Remove(m1, FootList([par.kids[k]]))
    ensures Deletes(m, m2, par, k)
  {
    var ns', d := RemoveAt(par.kids, k), par.kids[k];
    var around := Block(PtrAt(par.kids, k - 1)) + Block(PtrAt(par.kids, k + 1));
    FootOne(d);
    DetachesFacts(m, m1, par, k);
    RechainedFacts(m, m1, par, ns');
    SwapFeet(par, k);
    AroundDeleted(par, k);
    LiveRewired(m, m1);
    hide NodeFits, Sep, FootList, SepList, AllFit, DenoteList, AllProper, Agree, Foot, Rechained, Detaches, RemoveAt,
      Rewired, Remove, Edited, PtrAt;
    RechainedEdits(m, m1, par, ns');
    RemoveEdited(m, m1, par, ns', Foot(d));
    RemoveRewired(m, m1, par.p, around, d.p, Foot(d));
    RemovedOutside(Remove(m, Foot(d)), m2, m, Foot(d), par.p, around, m.Live() - Foot(par));
  }

  /** Detaching a child and inserting it at the same index restores every link. */
  method DetachThenInsert(h: Heap, parent: Ptr, which: int, ghost par: Node)
    requires h.mem.Valid() && parent == par.p && NodeFits(h.mem, par) && Sep(par) && Index(which) < |par.kids|
    modifies h`mem
    ensures h.mem == old(h.mem)
  {
    hide NodeFits, Sep, Foot, FootList, SepList, Detaches, Inserts, Rewired, InsertAt, RemoveAt;
    ghost var m, k := h.mem, Index(which);
    var c := DetachItemFromArray(h, parent, which, par);
    ghost var m1 := h.mem;
    DetachesFacts(m, m1, par, k);
    ghost var ns', d := RemoveAt(par.kids, k), par.kids[k];
    RechainedFacts(m, m1, par, ns');
    NodeLive(m1, d);
    NeighboursKept(par, k);
    InsertItemInArray(h, parent, which, c, par.(kids := ns'), d);
    InsertRemoved(par.kids, k);
    BackInPlace(m, m1, h.mem, par, k);
  }

  lemma NeighboursKept(par: Node, k: nat)
    requires k < |par.kids|
    ensures var ns' := RemoveAt(par.kids, k);
      |ns'| + 1 == |par.kids| && PtrAt(ns', k - 1) == PtrAt(par.kids, k - 1) && PtrAt(ns', k) == PtrAt(par.kids, k + 1)
  {
    RemovedAt(par.kids, k);
  }

  lemma BackInPlace(m: Store, m1: Store, m2: Store, par: Node, k: nat)
    requires m.Valid() && NodeFits(m, par) && Sep(par) && k < |par.kids| && Detaches(m, m1, par, k)
    requires k <= |RemoveAt(par.kids, k)| && Inserts(m1, m2, par.(kids := RemoveAt(par.kids, k)), k, par.kids[k])
    ensures m2 == m
  {
    var ps := {par.kids[k].p} + Block(PtrAt(par.kids, k - 1)) + Block(PtrAt(par.kids, k + 1));
    var par1 := par.(kids := RemoveAt(par.kids, k));
    DetachesFacts(m, m1, par, k);
    NeighboursKept(par, k);
    InsertRemoved(par.kids, k);
    InsertsFacts(m1, m2, par1, k, par.kids[k]);
    hide NodeFits, Sep, Foot, FootList, SepList, Detaches, Inserts, Rechained, RemoveAt, InsertAt, Rewired, AllFit;
    assert par1.(kids := par.kids) == par;
    RechainedFacts(m1, m2, par1, par.kids);
    KidPtrs(par, k, ps);
    Parent(m, par);
    Parent(m2, par);
    hide Linked, OwnSep, PtrAt;
    SameLinks(m, m1, m2, par, ps);
  }

  lemma KidPtrs(par: Node, k: nat, ps: set<Ptr>)
    requires k < |par.kids| && ps == {par.kids[k].p} + Block(PtrAt(par.kids, k - 1)) + Block(PtrAt(par.kids, k + 1))
    ensures forall p | p in ps :: exists i :: 0 <= i < |par.kids| && p == par.kids[i].p
  {
  }

  lemma InsertsFacts(m: Store, m': Store, par: Node, k: nat, c: Node)
    requires k <= |par.kids| && Inserts(m, m', par, k, c)
    ensures Rechained(m, m', par, InsertAt(par.kids, k, c))
    ensures Rewired(m, m', par.p, {c.p} + Block(PtrAt(par.kids, k - 1)) + Block(PtrAt(par.kids, k)))
  {
    hide Rechained, Rewired;
  }

  lemma SameLinks(m: Store, m1: Store, m2: Store, par: Node, ps: set<Ptr>)
    requires Rewired(m, m1, par.p, ps) && Rewired(m1, m2, par.p, ps)
    requires par.p in m.cells && par.p in m2.cells
      && (forall p | p in ps :: exists i :: 0 <= i < |par.kids| && p == par.kids[i].p)
    requires Linked(m, m.cells[par.p].child, NULL, par.kids) && Linked(m2, m2.cells[par.p].child, NULL, par.kids)
    ensures m2 == m
  {
    forall p | p in m.cells ensures m2.cells[p] == m.cells[p] {
      if p in ps {
        var i :| 0 <= i < |par.kids| && p == par.kids[i].p;
      }
    }
    assert m2.cells == m.cells;
  }
}
