/** Adding, inserting, detaching and replacing children: surgery on the doubly linked child list. */
module ListEdit {
  import opened CHeap
  import opened Items
  import opened Ownership

  /** m' differs from m in the links of the items ps and in the child pointer of q at most. */
  ghost predicate Rewired(m: Store, m': Store, q: Ptr, ps: set<Ptr>) {
    && m'.bufs == m.bufs && m'.vecs == m.vecs && m'.cells.Keys == m.cells.Keys
    && forall p | p in m.cells ::
      && (p !in ps ==> m'.cells[p].next == m.cells[p].next && m'.cells[p].prev == m.cells[p].prev)
      && (p != q ==> m'.cells[p].child == m.cells[p].child)
      && m'.cells[p] == m.cells[p].(next := m'.cells[p].next, prev := m'.cells[p].prev, child := m'.cells[p].child)
  }

  /** The children of par are ns' after the edit, each with the value it had before. */
  ghost predicate Rechained(m: Store, m': Store, par: Node, ns': seq<Node>) {
    && NodeFits(m', par.(kids := ns')) && Sep(par.(kids := ns'))
    && AllFit(m, ns') && AllFit(m', ns') && DenoteList(m', ns') == DenoteList(m, ns')
    && AllProper(m', ns') == AllProper(m, ns')
    && m'.Valid() && m'.bufs == m.bufs && m'.vecs == m.vecs && m'.cells.Keys == m.cells.Keys
    && par.p in m.cells && m'.cells[par.p] == m.cells[par.p].(child := PtrAt(ns', 0))
  }

  /** Rewiring items of a new list of children so that they are linked in order makes it the list of children. */
  lemma Rechain(m: Store, m': Store, par: Node, ns': seq<Node>, ps: set<Ptr>)
    requires m.Valid() && NodeFits(m, par) && AllFit(m, ns') && Sep(par.(kids := ns')) && Rewired(m, m', par.p, ps)
    requires par.p !in ps && par.p in m.cells && par.p in m'.cells
    requires forall p, i | p in ps && 0 <= i < |ns'| :: p in Foot(ns'[i]) ==> p == ns'[i].p
    requires Linked(m', m'.cells[par.p].child, NULL, ns')
    ensures Rechained(m, m', par, ns')
  {
    hide NodeFits, Sep, Foot, FootList, SepList, Denote, DenoteList, AllProper, Proper, StringFits, AllFit;
    Unfold(par.(kids := ns'));
    var m1 := WithCell(m', par.p, m.cells[par.p]);
    RewiredRelinks(m, m1, m', par.p, ps, FootList(ns'));
    hide Rewired;
    RelinkedList(m, m1, ps, ns');
    FrameList(m1, m', ns');
    RewiredItem(m, m', par, ps);
    Fields(m, par);
    assert m'.cells[par.p].child == PtrAt(ns', 0);
    Fields(m', par.(kids := ns'));
  }

  lemma RewiredRelinks(m: Store, m1: Store, m': Store, q: Ptr, ps: set<Ptr>, foot: set<Ptr>)
    requires Rewired(m, m', q, ps) && q in m.cells && q !in ps && q !in foot && m1 == WithCell(m', q, m.cells[q])
    ensures Relinked(m, m1, ps) && Agree(m1, m', foot)
  {
  }

  lemma RewiredItem(m: Store, m': Store, n: Node, ps: set<Ptr>)
    requires m.Valid() && NodeFits(m, n) && Rewired(m, m', n.p, ps) && n.p !in ps && n.p in m.cells
    ensures m'.Valid() && m'.bufs == m.bufs && m'.vecs == m.vecs && m'.cells.Keys == m.cells.Keys
    ensures m'.cells[n.p] == m.cells[n.p].(child := m'.cells[n.p].child)
    ensures StringFits(m', n.vs) && StringFits(m', n.nm)
  {
    hide NodeFits;
    Fields(m, n);
    assert m'.Live() == m.Live();
  }

  // ----- the lists after an edit -----

  function InsertAt(ns: seq<Node>, k: nat, c: Node): seq<Node>
    requires k <= |ns|
  {
    ns[..k] + [c] + ns[k..]
  }

  function RemoveAt(ns: seq<Node>, k: nat): seq<Node>
    requires k < |ns|
  {
    ns[..k] + ns[k + 1..]
  }

  /** Where the loops that count `which` down stop. */
  function Index(which: int): (k: nat)
    ensures which >= 0 ==> k == which
    ensures which < 0 ==> k == 0
  {
    if which > 0 then which else 0
  }

  lemma FootOwner(ns: seq<Node>, p: Ptr) returns (i: nat)
    requires p in FootList(ns)
    ensures i < |ns| && p in Foot(ns[i])
  {
    hide Foot;
    i :| 0 <= i < |ns| && p in Foot(ns[i]);
  }

  lemma InsertedAt(ns: seq<Node>, k: nat, c: Node)
    requires k <= |ns|
    ensures var t := InsertAt(ns, k, c);
      |t| == |ns| + 1 && forall i | 0 <= i < |t| ::
        (i < k ==> t[i] == ns[i]) && (i == k ==> t[i] == c) && (i > k ==> t[i] == ns[i - 1])
  {
  }

  lemma RemovedAt(ns: seq<Node>, k: nat)
    requires k < |ns|
    ensures var t := RemoveAt(ns, k);
      |t| == |ns| - 1 && forall i | 0 <= i < |t| :: t[i] == ns[if i < k then i else i + 1]
  {
  }

  lemma InsertRemoved(ns: seq<Node>, k: nat)
    requires k < |ns|
    ensures InsertAt(RemoveAt(ns, k), k, ns[k]) == ns
  {
    RemovedAt(ns, k);
    InsertedAt(RemoveAt(ns, k), k, ns[k]);
  }

  lemma FootListInsert(ns: seq<Node>, k: nat, c: Node)
    requires k <= |ns|
    ensures FootList(InsertAt(ns, k, c)) == FootList(ns) + Foot(c)
  {
    var t := InsertAt(ns, k, c);
    InsertedAt(ns, k, c);
    hide Foot, FootList, InsertAt;
    forall p | p in FootList(t) ensures p in FootList(ns) + Foot(c) {
      var i := FootOwner(t, p);
      if i < k { FootMember(ns, i); } else if i > k { FootMember(ns, i - 1); }
    }
    forall p | p in FootList(ns) ensures p in FootList(t) {
      var i := FootOwner(ns, p);
      var j := if i < k then i else i + 1;
      assert t[j] == ns[i];
      FootMember(t, j);
    }
    FootMember(t, k);
  }

  lemma SepListInsert(ns: seq<Node>, k: nat, c: Node)
    requires k <= |ns| && SepList(ns) && Sep(c) && FootList(ns) !! Foot(c)
    ensures SepList(InsertAt(ns, k, c))
  {
    hide Sep, Foot, FootList;
    var t := InsertAt(ns, k, c);
    assert forall i | 0 <= i < |t| ::
        (i < k ==> t[i] == ns[i]) && (i == k ==> t[i] == c) && (i > k ==> t[i] == ns[i - 1]);
    forall i | 0 <= i < |ns| ensures Foot(ns[i]) <= FootList(ns) { FootMember(ns, i); }
  }

  lemma SepAt(ns: seq<Node>, i: nat, j: nat)
    requires SepList(ns) && i < |ns| && j < |ns|
    ensures Sep(ns[i]) && (i != j ==> Foot(ns[i]) !! Foot(ns[j]))
  {
    hide Foot, Sep;
    if i < j {
      assert Foot(ns[i]) !! Foot(ns[j]);
    } else if j < i {
      assert Foot(ns[j]) !! Foot(ns[i]);
    }
  }

  lemma SepListShorter(ns: seq<Node>, k: nat)
    requires k < |ns| && SepList(ns)
    ensures SepList(RemoveAt(ns, k))
  {
    var t := RemoveAt(ns, k);
    RemovedAt(ns, k);
    forall i | 0 <= i < |t| ensures Sep(t[i]) {
      hide Foot, Sep, RemoveAt, SepList;
      SepAt(ns, if i < k then i else i + 1, k);
    }
    forall i, j | 0 <= i < j < |t| ensures Foot(t[i]) !! Foot(t[j]) {
      hide Foot, Sep, RemoveAt, SepList;
      SepAt(ns, if i < k then i else i + 1, if j < k then j else j + 1);
    }
    hide Foot, Sep, RemoveAt;
  }

  /** The items of a list without its k-th. */
  lemma SepListRemove(ns: seq<Node>, k: nat)
    requires k < |ns| && SepList(ns)
    ensures SepList(RemoveAt(ns, k)) && Sep(ns[k])
    ensures FootList(RemoveAt(ns, k)) !! Foot(ns[k]) && FootList(RemoveAt(ns, k)) + Foot(ns[k]) == FootList(ns)
  {
    hide Foot, Sep, FootList;
    var t := RemoveAt(ns, k);
    InsertRemoved(ns, k);
    SepListShorter(ns, k);
    FootListInsert(t, k, ns[k]);
    RemovedAt(ns, k);
    FootListApart(ns, k, t);
  }

  lemma FootListApart(ns: seq<Node>, k: nat, t: seq<Node>)
    requires SepList(ns) && k < |ns| && |t| == |ns| - 1
    requires forall i | 0 <= i < |t| :: t[i] == ns[if i < k then i else i + 1]
    ensures FootList(t) !! Foot(ns[k]) && Sep(ns[k])
  {
    SepAt(ns, k, k);
    hide Foot, Sep, FootList;
    forall p | p in FootList(t) ensures p !in Foot(ns[k]) {
      var i := FootOwner(t, p);
      var j := if i < k then i else i + 1;
      SepAt(ns, j, k);
      assert t[i] == ns[j] && Foot(ns[j]) !! Foot(ns[k]);
    }
  }

  /** Addresses of items of a list occur in no footprint but their own. */
  lemma OwnOnly(ns: seq<Node>, ps: set<Ptr>)
    requires SepList(ns) && forall p | p in ps :: exists i :: 0 <= i < |ns| && p == ns[i].p
    ensures forall p, i | p in ps && 0 <= i < |ns| :: p in Foot(ns[i]) ==> p == ns[i].p
  {
    hide Foot, SepList;
    ItemsApart(ns);
  }

  lemma AllFitInsert(m: Store, ns: seq<Node>, k: nat, c: Node)
    requires k <= |ns| && AllFit(m, ns) && NodeFits(m, c)
    ensures AllFit(m, InsertAt(ns, k, c))
  {
    hide NodeFits;
    var t := InsertAt(ns, k, c);
    assert forall i | 0 <= i < |t| ::
        (i < k ==> t[i] == ns[i]) && (i == k ==> t[i] == c) && (i > k ==> t[i] == ns[i - 1]);
  }

  // ----- links -----

  /** A new item before the k-th, or behind the last one. */
  lemma InsertLinked(m: Store, m': Store, ns: seq<Node>, k: nat, c: Node)
    requires k <= |ns| && Linked(m, PtrAt(ns, 0), NULL, ns) && m'.cells.Keys == m.cells.Keys && c.p in m.cells
    requires m'.cells[c.p].next == PtrAt(ns, k) && m'.cells[c.p].prev == PtrAt(ns, k - 1)
    requires k < |ns| ==> m'.cells[ns[k].p].prev == c.p && m'.cells[ns[k].p].next == m.cells[ns[k].p].next
    requires k > 0 ==> m'.cells[ns[k - 1].p].next == c.p && m'.cells[ns[k - 1].p].prev == m.cells[ns[k - 1].p].prev
    requires forall i | 0 <= i < |ns| && i != k && i != k - 1 :: m'.cells[ns[i].p] == m.cells[ns[i].p]
    ensures Linked(m', PtrAt(InsertAt(ns, k, c), 0), NULL, InsertAt(ns, k, c))
  {
    var t := InsertAt(ns, k, c);
    InsertedAt(ns, k, c);
    hide InsertAt;
    forall i | 0 <= i < |t|
      ensures t[i].p in m'.cells && m'.cells[t[i].p].next == PtrAt(t, i + 1)
      ensures m'.cells[t[i].p].prev == if i == 0 then NULL else PtrAt(t, i - 1)
    {
    }
  }

  /** The neighbours of the k-th item linked to each other. */
  lemma RemoveLinked(m: Store, m': Store, ns: seq<Node>, k: nat)
    requires k < |ns| && Linked(m, PtrAt(ns, 0), NULL, ns) && m'.cells.Keys == m.cells.Keys
    requires k > 0 ==>
      m'.cells[ns[k - 1].p].next == PtrAt(ns, k + 1) && m'.cells[ns[k - 1].p].prev == m.cells[ns[k - 1].p].prev
    requires k + 1 < |ns| ==>
      m'.cells[ns[k + 1].p].prev == PtrAt(ns, k - 1) && m'.cells[ns[k + 1].p].next == m.cells[ns[k + 1].p].next
    requires forall i | 0 <= i < |ns| && (i < k - 1 || i > k + 1) :: m'.cells[ns[i].p] == m.cells[ns[i].p]
    ensures Linked(m', PtrAt(RemoveAt(ns, k), 0), NULL, RemoveAt(ns, k))
  {
    var t := RemoveAt(ns, k);
    RemovedAt(ns, k);
    forall i | 0 <= i < |t|
      ensures t[i].p in m'.cells && m'.cells[t[i].p].next == PtrAt(t, i + 1)
      ensures m'.cells[t[i].p].prev == if i == 0 then NULL else PtrAt(t, i - 1)
    {
      hide RemoveAt;
      assert PtrAt(t, i + 1) == if i + 1 < k then PtrAt(ns, i + 1) else PtrAt(ns, i + 2);
      assert i > 0 ==> PtrAt(t, i - 1) == if i - 1 < k then PtrAt(ns, i - 1) else PtrAt(ns, i);
      if i < k {
        KeptLinks(m, m', ns, k, i);
      } else {
        KeptLinks(m, m', ns, k, i + 1);
      }
    }
  }

  /** The links of an item that stays. */
  lemma KeptLinks(m: Store, m': Store, ns: seq<Node>, k: nat, i: nat)
    requires k < |ns| && Linked(m, PtrAt(ns, 0), NULL, ns) && m'.cells.Keys == m.cells.Keys && i < |ns| && i != k
    requires k > 0 ==>
      m'.cells[ns[k - 1].p].next == PtrAt(ns, k + 1) && m'.cells[ns[k - 1].p].prev == m.cells[ns[k - 1].p].prev
    requires k + 1 < |ns| ==>
      m'.cells[ns[k + 1].p].prev == PtrAt(ns, k - 1) && m'.cells[ns[k + 1].p].next == m.cells[ns[k + 1].p].next
    requires i < k - 1 || i > k + 1 ==> m'.cells[ns[i].p] == m.cells[ns[i].p]
    ensures ns[i].p in m'.cells
    ensures m'.cells[ns[i].p].next == PtrAt(ns, if i + 1 == k then i + 2 else i + 1)
    ensures m'.cells[ns[i].p].prev == PtrAt(ns, if i - 1 == k then i - 2 else i - 1)
  {
  }

  // ----- walking -----

  /** Follows `next` as often as the index says, or to the end of the list. */
  method Walk(h: Heap, first: Ptr, which: int, ghost ns: seq<Node>) returns (c: Ptr)
    requires Linked(h.mem, first, NULL, ns) && forall i | 0 <= i < |ns| :: ns[i].p != NULL
    ensures c == PtrAt(ns, Index(which))
  {
    c := first;
    var w := which;
    ghost var i: nat := 0;
    while c != NULL && w > 0
      invariant i <= |ns| && c == PtrAt(ns, i) && i + Index(w) == Index(which)
      decreases |ns| - i
    {
      c := h.mem.cells[c].next;
      w := w - 1;
      i := i + 1;
    }
  }

  /** A parent and its children, as the list functions need them. */
  lemma Parent(m: Store, par: Node)
    requires NodeFits(m, par) && Sep(par)
    ensures par.p in m.cells && Linked(m, m.cells[par.p].child, NULL, par.kids) && AllFit(m, par.kids)
      && SepList(par.kids)
    ensures OwnSep(par.p, par.vs, par.nm, FootList(par.kids))
    ensures forall i | 0 <= i < |par.kids| ::
      par.kids[i].p != NULL && par.kids[i].p in m.cells && par.kids[i].p != par.p
    ensures forall i, j | 0 <= i < j < |par.kids| :: par.kids[i].p != par.kids[j].p
  {
    hide NodeFits, Sep, Foot, FootList, SepList;
    Fields(m, par);
    Unfold(par);
    ItemsLive(m, par.kids);
    ItemsApart(par.kids);
    forall i | 0 <= i < |par.kids| ensures par.kids[i].p != par.p { FootMember(par.kids, i); }
  }

  // ----- the operations -----

  /** cJSON_DetachItemFromArray */
  method DetachItemFromArray(h: Heap, parent: Ptr, which: int, ghost par: Node) returns (c: Ptr)
    requires h.mem.Valid() && parent == par.p && NodeFits(h.mem, par) && Sep(par)
    modifies h`mem
    ensures c == PtrAt(par.kids, Index(which))
    ensures Index(which) >= |par.kids| ==> c == NULL && h.mem == old(h.mem)
    ensures Index(which) < |par.kids| ==> Detaches(old(h.mem), h.mem, par, Index(which))
  {
    hide NodeFits, Sep, Foot, FootList, SepList, Detaches;
    ghost var m, ns, k := h.mem, par.kids, Index(which);
    Parent(m, par);
    c := Walk(h, h.mem.cells[parent].child, which, ns);
    if c == NULL { return; }
    Unlink(h, parent, c);
    CutUnlinks(m, par, k);
    DetachDone(m, h.mem, par, k);
  }

  /** The assignments of a detach. */
  method Unlink(h: Heap, parent: Ptr, c: Ptr)
    requires h.mem.Valid() && parent in h.mem.cells && c in h.mem.cells
    requires h.mem.cells[c].prev != NULL ==> h.mem.cells[c].prev in h.mem.cells && h.mem.cells[c].prev != c
    requires h.mem.cells[c].next != NULL ==> h.mem.cells[c].next in h.mem.cells && h.mem.cells[c].next != c
    modifies h`mem
    ensures h.mem.Valid() && h.mem == Cut(old(h.mem), parent, c)
  {
    hide SetNext, SetPrev, SetChild;
    var cell := h.mem.cells[c];
    SetNull(h.mem);
    if cell.prev != NULL { AssignNext(h, cell.prev, cell.next); }
    SetNull(h.mem);
    if cell.next != NULL { AssignPrev(h, cell.next, cell.prev); }
    if c == h.mem.cells[parent].child { AssignChild(h, parent, cell.next); }
    AssignPrev(h, c, NULL);
    AssignNext(h, c, NULL);
  }

  /** An item gets another successor. */
  method AssignNext(h: Heap, p: Ptr, q: Ptr)
    requires h.mem.Valid() && p in h.mem.cells
    modifies h`mem
    ensures h.mem.Valid() && h.mem == SetNext(old(h.mem), p, q) && h.mem.cells.Keys == old(h.mem).cells.Keys
    ensures forall r | r in h.mem.cells :: h.mem.cells[r].child == old(h.mem).cells[r].child
  {
    h.SetCell(p, h.mem.cells[p].(next := q));
  }

  /** An item gets another predecessor. */
  method AssignPrev(h: Heap, p: Ptr, q: Ptr)
    requires h.mem.Valid() && p in h.mem.cells
    modifies h`mem
    ensures h.mem.Valid() && h.mem == SetPrev(old(h.mem), p, q) && h.mem.cells.Keys == old(h.mem).cells.Keys
    ensures forall r | r in h.mem.cells :: h.mem.cells[r].child == old(h.mem).cells[r].child
  {
    h.SetCell(p, h.mem.cells[p].(prev := q));
  }

  /** An item gets another first child. */
  method AssignChild(h: Heap, p: Ptr, q: Ptr)
    requires h.mem.Valid() && p in h.mem.cells
    modifies h`mem
    ensures h.mem.Valid() && h.mem == SetChild(old(h.mem), p, q) && h.mem.cells.Keys == old(h.mem).cells.Keys
  {
    h.SetCell(p, h.mem.cells[p].(child := q));
  }

  /** The store after the successor of p became q. */
  function SetNext(m: Store, p: Ptr, q: Ptr): Store {
    if p in m.cells then WithCell(m, p, m.cells[p].(next := q)) else m
  }

  function SetPrev(m: Store, p: Ptr, q: Ptr): Store {
    if p in m.cells then WithCell(m, p, m.cells[p].(prev := q)) else m
  }

  function SetChild(m: Store, p: Ptr, q: Ptr): Store {
    if p in m.cells then WithCell(m, p, m.cells[p].(child := q)) else m
  }

  lemma SetNull(m: Store)
    requires m.Valid()
    ensures forall q :: SetNext(m, NULL, q) == m && SetPrev(m, NULL, q) == m
  {
  }

  lemma SetNextAt(m: Store, p: Ptr, q: Ptr)
    ensures var m' := SetNext(m, p, q);
      && m'.bufs == m.bufs && m'.vecs == m.vecs && m'.cells.Keys == m.cells.Keys
      && (p in m.cells ==> m'.cells[p] == m.cells[p].(next := q))
      && forall r | r in m.cells && r != p :: m'.cells[r] == m.cells[r]
  {
  }

  lemma SetPrevAt(m: Store, p: Ptr, q: Ptr)
    ensures var m' := SetPrev(m, p, q);
      && m'.bufs == m.bufs && m'.vecs == m.vecs && m'.cells.Keys == m.cells.Keys
      && (p in m.cells ==> m'.cells[p] == m.cells[p].(prev := q))
      && forall r | r in m.cells && r != p :: m'.cells[r] == m.cells[r]
  {
  }

  lemma SetChildAt(m: Store, p: Ptr, q: Ptr)
    ensures var m' := SetChild(m, p, q);
      && m'.bufs == m.bufs && m'.vecs == m.vecs && m'.cells.Keys == m.cells.Keys
      && (p in m.cells ==> m'.cells[p] == m.cells[p].(child := q))
      && forall r | r in m.cells && r != p :: m'.cells[r] == m.cells[r]
  {
  }

  /** The neighbours of c are linked to each other. */
  function Bridge(m: Store, c: Ptr): Store
    requires c in m.cells
  {
    SetPrev(SetNext(m, m.cells[c].prev, m.cells[c].next), m.cells[c].next, m.cells[c].prev)
  }

  function Cut(m: Store, parent: Ptr, c: Ptr): Store
    requires c in m.cells && parent in m.cells
  {
    var m2 := Bridge(m, c);
    var m3 := if c == m.cells[parent].child then SetChild(m2, parent, m.cells[c].next) else m2;
    SetNext(SetPrev(m3, c, NULL), c, NULL)
  }

  lemma BridgeAt(m: Store, c: Ptr, p: Ptr)
    requires c in m.cells && p in m.cells && (m.cells[c].prev != m.cells[c].next || m.cells[c].prev !in m.cells)
    ensures var m' := Bridge(m, c);
      var prev, next := m.cells[c].prev, m.cells[c].next;
      && m'.bufs == m.bufs && m'.vecs == m.vecs && m'.cells.Keys == m.cells.Keys
      && m'.cells[p] == if p == prev then m.cells[p].(next := next)
                        else if p == next then m.cells[p].(prev := prev)
                        else m.cells[p]
  {
    hide SetNext, SetPrev;
    SetNextAt(m, m.cells[c].prev, m.cells[c].next);
    SetPrevAt(SetNext(m, m.cells[c].prev, m.cells[c].next), m.cells[c].next, m.cells[c].prev);
  }

  /** A detach, item by item. */
  lemma CutAt(m: Store, parent: Ptr, c: Ptr, p: Ptr)
    requires c in m.cells && parent in m.cells && p in m.cells && c != parent
    requires var prev, next := m.cells[c].prev, m.cells[c].next;
      (prev != next || prev !in m.cells) && {prev, next} !! {c, parent}
    ensures var m' := Cut(m, parent, c);
      var prev, next := m.cells[c].prev, m.cells[c].next;
      && m'.bufs == m.bufs && m'.vecs == m.vecs && m'.cells.Keys == m.cells.Keys
      && m'.cells[p] == if p == c then m.cells[p].(next := NULL, prev := NULL)
                        else if p == parent && c == m.cells[p].child then m.cells[p].(child := next)
                        else if p == parent then m.cells[p]
                        else if p == prev then m.cells[p].(next := next)
                        else if p == next then m.cells[p].(prev := prev)
                        else m.cells[p]
  {
    hide SetNext, SetPrev, SetChild, Bridge;
    var m2 := Bridge(m, c);
    BridgeAt(m, c, p);
    SetChildAt(m2, parent, m.cells[c].next);
    var m3 := if c == m.cells[parent].child then SetChild(m2, parent, m.cells[c].next) else m2;
    SetPrevAt(m3, c, NULL);
    SetNextAt(SetPrev(m3, c, NULL), c, NULL);
  }

  /** The items around the k-th. */
  lemma Around(m: Store, par: Node, k: nat)
    requires m.Valid() && NodeFits(m, par) && Sep(par) && k < |par.kids|
    ensures var c, prev, next := par.kids[k].p, PtrAt(par.kids, k - 1), PtrAt(par.kids, k + 1);
      && par.p in m.cells && c in m.cells && c != NULL && c != par.p && NULL !in m.cells
      && m.cells[c].next == next && m.cells[c].prev == prev
      && (prev != NULL ==> prev in m.cells && prev != par.p && prev != c)
      && (next != NULL ==> next in m.cells && next != par.p && next != c && next != prev)
      && (c == m.cells[par.p].child <==> k == 0) && m.cells[par.p].child == PtrAt(par.kids, 0)
  {
    hide NodeFits, Sep, Foot, FootList, SepList, AllFit;
    Parent(m, par);
  }

  lemma CutUnlinks(m: Store, par: Node, k: nat)
    requires m.Valid() && NodeFits(m, par) && Sep(par) && k < |par.kids|
    requires par.p in m.cells && par.kids[k].p in m.cells
    ensures Unlinked(m, Cut(m, par.p, par.kids[k].p), par, k)
  {
    hide NodeFits, Sep, Foot, FootList, SepList, AllFit, Cut, Unlinked;
    Around(m, par, k);
    var c, prev, next := par.kids[k].p, PtrAt(par.kids, k - 1), PtrAt(par.kids, k + 1);
    var m' := Cut(m, par.p, c);
    CutAt(m, par.p, c, c);
    CutAt(m, par.p, c, par.p);
    forall p | p in m.cells && p != c && p != par.p
      ensures p == prev ==> m'.cells[p] == m.cells[p].(next := next)
      ensures p == next ==> m'.cells[p] == m.cells[p].(prev := prev)
      ensures p != prev && p != next ==> m'.cells[p] == m.cells[p]
    {
      CutAt(m, par.p, c, p);
    }
    UnlinkedIs(m, m', par, k);
  }

  lemma UnlinkedIs(m: Store, m': Store, par: Node, k: nat)
    requires k < |par.kids| && m'.bufs == m.bufs && m'.vecs == m.vecs && m'.cells.Keys == m.cells.Keys
      && NULL !in m.cells
    requires var c, prev, next := par.kids[k].p, PtrAt(par.kids, k - 1), PtrAt(par.kids, k + 1);
      && par.p in m.cells && c in m.cells && c != par.p
      && (prev != NULL ==> prev in m.cells && prev != par.p && prev != c)
      && (next != NULL ==> next in m.cells && next != par.p && next != c)
      && m'.cells[c] == m.cells[c].(next := NULL, prev := NULL)
      && m'.cells[par.p] == m.cells[par.p].(child := if k == 0 then next else PtrAt(par.kids, 0))
      && (forall p | p in m.cells && p != c && p != par.p && p == prev :: m'.cells[p] == m.cells[p].(next := next))
      && (forall p | p in m.cells && p != c && p != par.p && p == next :: m'.cells[p] == m.cells[p].(prev := prev))
      && (forall p | p in m.cells && p != c && p != par.p && p != prev && p != next :: m'.cells[p] == m.cells[p])
    ensures Unlinked(m, m', par, k)
  {
  }

  /** The k-th child is taken off the list, its links are null, and nothing but the links around it changed. */
  ghost predicate Detaches(m: Store, m': Store, par: Node, k: nat)
    requires k < |par.kids|
  {
    var c := par.kids[k];
    && Rechained(m, m', par, RemoveAt(par.kids, k))
    && NodeFits(m, c) && NodeFits(m', c) && Sep(c) && Denote(m', c) == Denote(m, c)
    && NameAt(m', c.nm) == NameAt(m, c.nm)
    && Proper(m', c) == Proper(m, c)
    && c.p in m'.cells && m'.cells[c.p].next == NULL && m'.cells[c.p].prev == NULL
    && Rewired(m, m', par.p, {c.p} + Block(PtrAt(par.kids, k - 1)) + Block(PtrAt(par.kids, k + 1)))
    && Foot(par.(kids := RemoveAt(par.kids, k))) !! Foot(c)
  }

  /** What a detach leaves in the items around the k-th. */
  ghost predicate Unlinked(m: Store, m': Store, par: Node, k: nat)
    requires k < |par.kids|
  {
    var c, prev, next := par.kids[k].p, PtrAt(par.kids, k - 1), PtrAt(par.kids, k + 1);
    && Rewired(m, m', par.p, {c} + Block(prev) + Block(next)) && c in m'.cells && par.p in m'.cells
    && m'.cells[c].next == NULL && m'.cells[c].prev == NULL
    && (prev != NULL ==> prev in m.cells && prev in m'.cells && m'.cells[prev] == m.cells[prev].(next := next))
    && (next != NULL ==> next in m.cells && next in m'.cells && m'.cells[next] == m.cells[next].(prev := prev))
    && m'.cells[par.p].child == if k == 0 then next else PtrAt(par.kids, 0)
  }

  lemma UnlinkedOthers(m: Store, m': Store, par: Node, k: nat)
    requires k < |par.kids| && Unlinked(m, m', par, k)
    requires forall i | 0 <= i < |par.kids| ::
      par.kids[i].p != NULL && par.kids[i].p in m.cells && par.kids[i].p != par.p
    requires forall i, j | 0 <= i < j < |par.kids| :: par.kids[i].p != par.kids[j].p
    ensures forall i | 0 <= i < |par.kids| && (i < k - 1 || i > k + 1) ::
      par.kids[i].p in m'.cells && m'.cells[par.kids[i].p] == m.cells[par.kids[i].p]
  {
    forall i | 0 <= i < |par.kids| && (i < k - 1 || i > k + 1)
      ensures par.kids[i].p !in {par.kids[k].p} + Block(PtrAt(par.kids, k - 1)) + Block(PtrAt(par.kids, k + 1))
    {
    }
  }

  /** An item outside the edit, or one whose links only were edited. */
  lemma RewiredNode(m: Store, m': Store, q: Ptr, ps: set<Ptr>, n: Node)
    requires NodeFits(m, n) && Sep(n) && Rewired(m, m', q, ps) && q !in Foot(n)
    requires forall p | p in ps && p in Foot(n) :: p == n.p
    ensures NodeFits(m', n) && Denote(m', n) == Denote(m, n) && NameAt(m', n.nm) == NameAt(m, n.nm)
    ensures Proper(m', n) == Proper(m, n)
  {
    hide Denote, Proper, Sep, Foot, NodeFits;
    NodeLive(m, n);
    assert Agree(m, m', Foot(n) - {n.p});
    assert m'.cells[n.p].child == m.cells[n.p].child by { Unfold(n); }
    assert SameNode(m, m', n);
    hide SameNode;
    FrameNode(m, m', n);
  }

  lemma DetachDone(m: Store, m': Store, par: Node, k: nat)
    requires m.Valid() && NodeFits(m, par) && Sep(par) && k < |par.kids| && Unlinked(m, m', par, k)
    ensures Detaches(m, m', par, k)
  {
    var ns := par.kids;
    var c, prev, next := ns[k], PtrAt(ns, k - 1), PtrAt(ns, k + 1);
    var ns' := RemoveAt(ns, k);
    var ps := {c.p} + Block(prev) + Block(next);
    DetachSeps(m, par, k);
    assert ps == {par.kids[k].p} + Block(PtrAt(par.kids, k - 1)) + Block(PtrAt(par.kids, k + 1));
    hide NodeFits, Sep, Foot, FootList, SepList, Denote, Proper, Rechained, RemoveAt, AllFit;
    DetachLinks(m, m', par, k);
    hide Linked;
    assert Rewired(m, m', par.p, ps) && par.p in m'.cells;
    Rechain(m, m', par, ns', ps);
    RewiredNode(m, m', par.p, ps, c);
  }

  lemma DetachLinks(m: Store, m': Store, par: Node, k: nat)
    requires m.Valid() && NodeFits(m, par) && Sep(par) && k < |par.kids| && Unlinked(m, m', par, k)
    ensures par.p in m'.cells && Linked(m', m'.cells[par.p].child, NULL, RemoveAt(par.kids, k))
  {
    hide NodeFits, Sep, Foot, FootList, SepList, Rewired;
    Parent(m, par);
    UnlinkedOthers(m, m', par, k);
    RewiredKeys(m, m', par.p, {par.kids[k].p} + Block(PtrAt(par.kids, k - 1)) + Block(PtrAt(par.kids, k + 1)));
    RemoveLinked(m, m', par.kids, k);
  }

  lemma RewiredKeys(m: Store, m': Store, q: Ptr, ps: set<Ptr>)
    requires Rewired(m, m', q, ps)
    ensures m'.cells.Keys == m.cells.Keys
  {
  }

  /** The footprints before and after a detach. */
  lemma DetachSeps(m: Store, par: Node, k: nat)
    requires m.Valid() && NodeFits(m, par) && Sep(par) && k < |par.kids|
    ensures var ns' := RemoveAt(par.kids, k);
      var c, ps := par.kids[k], {par.kids[k].p} + Block(PtrAt(par.kids, k - 1)) + Block(PtrAt(par.kids, k + 1));
      && Sep(par.(kids := ns')) && Sep(c) && Foot(par.(kids := ns')) !! Foot(c) && AllFit(m, ns') && NodeFits(m, c)
      && par.p !in ps && par.p in m.cells && par.p !in Foot(c)
      && (forall p, i | p in ps && 0 <= i < |ns'| :: p in Foot(ns'[i]) ==> p == ns'[i].p)
      && (forall p | p in ps && p in Foot(c) :: p == c.p)
  {
    hide NodeFits, Sep, Foot, FootList, SepList, AllFit;
    Parent(m, par);
    SepListRemove(par.kids, k);
    FootMember(par.kids, k);
    AllFitRemove(m, par.kids, k);
    DetachApart(par, par.(kids := RemoveAt(par.kids, k)), par.kids[k]);
    DetachOwn(par.kids, k);
  }

  lemma DetachApart(par: Node, par': Node, c: Node)
    requires Sep(par) && par' == par.(kids := par'.kids) && SepList(par'.kids) && Sep(c)
    requires FootList(par'.kids) !! Foot(c) && FootList(par'.kids) + Foot(c) == FootList(par.kids)
    ensures Sep(par') && Foot(par') !! Foot(c) && par.p !in Foot(c)
  {
    hide Sep, Foot, FootList, SepList;
    Unfold(par);
    Unfold(par');
  }

  lemma DetachOwn(ns: seq<Node>, k: nat)
    requires SepList(ns) && k < |ns|
    ensures var ns', ps := RemoveAt(ns, k), {ns[k].p} + Block(PtrAt(ns, k - 1)) + Block(PtrAt(ns, k + 1));
      && (forall p, i | p in ps && 0 <= i < |ns'| :: p in Foot(ns'[i]) ==> p == ns'[i].p)
      && (forall p | p in ps && p in Foot(ns[k]) :: p == ns[k].p)
  {
    var ps := {ns[k].p} + Block(PtrAt(ns, k - 1)) + Block(PtrAt(ns, k + 1));
    RemovedAt(ns, k);
    hide Foot, SepList, RemoveAt;
    OwnOnly(ns, ps);
  }

  lemma AllFitRemove(m: Store, ns: seq<Node>, k: nat)
    requires k < |ns| && AllFit(m, ns)
    ensures AllFit(m, RemoveAt(ns, k)) && NodeFits(m, ns[k])
  {
    hide NodeFits;
    var t := RemoveAt(ns, k);
    assert forall i | 0 <= i < |t| :: t[i] == ns[if i < k then i else i + 1];
  }

  // ----- adding and inserting -----

  /** What an insertion before the k-th item, or behind the last one, leaves in the items around it. */
  ghost predicate Spliced(m: Store, m': Store, par: Node, k: nat, c: Ptr) {
    var prev, next := PtrAt(par.kids, k - 1), PtrAt(par.kids, k);
    && Rewired(m, m', par.p, {c} + Block(prev) + Block(next)) && c in m'.cells && par.p in m'.cells
    && m'.cells[c].next == next && m'.cells[c].prev == prev
    && (prev != NULL ==> prev in m.cells && prev in m'.cells && m'.cells[prev] == m.cells[prev].(next := c))
    && (next != NULL ==> next in m.cells && next in m'.cells && m'.cells[next] == m.cells[next].(prev := c))
    && m'.cells[par.p].child == if k == 0 then c else PtrAt(par.kids, 0)
  }

  /** The children are those before with c as the k-th, and nothing but the links around it changed. */
  ghost predicate Inserts(m: Store, m': Store, par: Node, k: nat, c: Node)
    requires k <= |par.kids|
  {
    && Rechained(m, m', par, InsertAt(par.kids, k, c))
    && Rewired(m, m', par.p, {c.p} + Block(PtrAt(par.kids, k - 1)) + Block(PtrAt(par.kids, k)))
    && Foot(par.(kids := InsertAt(par.kids, k, c))) == Foot(par) + Foot(c)
  }

  lemma SplicedOthers(m: Store, m': Store, par: Node, k: nat, c: Ptr)
    requires k <= |par.kids| && Spliced(m, m', par, k, c)
    requires forall i | 0 <= i < |par.kids| ::
      par.kids[i].p != NULL && par.kids[i].p in m.cells && par.kids[i].p != par.p && par.kids[i].p != c
    requires forall i, j | 0 <= i < j < |par.kids| :: par.kids[i].p != par.kids[j].p
    ensures forall i | 0 <= i < |par.kids| && i != k && i != k - 1 ::
      par.kids[i].p in m'.cells && m'.cells[par.kids[i].p] == m.cells[par.kids[i].p]
  {
    forall i | 0 <= i < |par.kids| && i != k && i != k - 1
      ensures par.kids[i].p !in {c} + Block(PtrAt(par.kids, k - 1)) + Block(PtrAt(par.kids, k))
    {
    }
  }

  lemma SpliceLinks(m: Store, m': Store, par: Node, k: nat, c: Node)
    requires m.Valid() && NodeFits(m, par) && Sep(par) && k <= |par.kids| && Spliced(m, m', par, k, c.p)
    requires Foot(par) !! Foot(c) && c.p in m.cells
    ensures par.p in m'.cells && Linked(m', m'.cells[par.p].child, NULL, InsertAt(par.kids, k, c))
  {
    hide NodeFits, Sep, FootList, SepList, Rewired;
    Parent(m, par);
    Unfold(par);
    assert c.p in Foot(c);
    forall i | 0 <= i < |par.kids| ensures par.kids[i].p != c.p { FootMember(par.kids, i); }
    hide Foot;
    SplicedOthers(m, m', par, k, c.p);
    RewiredKeys(m, m', par.p, {c.p} + Block(PtrAt(par.kids, k - 1)) + Block(PtrAt(par.kids, k)));
    InsertLinked(m, m', par.kids, k, c);
    InsertedAt(par.kids, k, c);
  }

  /** The footprints after an insertion. */
  lemma SpliceSeps(m: Store, par: Node, k: nat, c: Node)
    requires m.Valid() && NodeFits(m, par) && Sep(par) && k <= |par.kids|
    requires NodeFits(m, c) && Sep(c) && Foot(par) !! Foot(c)
    ensures var ns' := InsertAt(par.kids, k, c);
      var ps := {c.p} + Block(PtrAt(par.kids, k - 1)) + Block(PtrAt(par.kids, k));
      && Sep(par.(kids := ns')) && Foot(par.(kids := ns')) == Foot(par) + Foot(c) && AllFit(m, ns')
      && par.p !in ps && par.p in m.cells
      && (forall p, i | p in ps && 0 <= i < |ns'| :: p in Foot(ns'[i]) ==> p == ns'[i].p)
  {
    var ns' := InsertAt(par.kids, k, c);
    hide NodeFits, Sep, Foot, FootList, SepList, AllFit;
    Parent(m, par);
    AllFitInsert(m, par.kids, k, c);
    SpliceApart(par, par.(kids := ns'), k, c);
    SpliceOwn(par.kids, k, c);
    SpliceParent(par, k, c);
  }

  lemma SpliceParent(par: Node, k: nat, c: Node)
    requires Sep(par) && Foot(par) !! Foot(c) && k <= |par.kids|
    requires forall i | 0 <= i < |par.kids| :: par.kids[i].p != par.p
    ensures par.p !in {c.p} + Block(PtrAt(par.kids, k - 1)) + Block(PtrAt(par.kids, k))
  {
    hide FootList, Sep;
    assert par.p in Foot(par) && c.p in Foot(c);
  }

  lemma SpliceApart(par: Node, par': Node, k: nat, c: Node)
    requires Sep(par) && Sep(c) && Foot(par) !! Foot(c) && k <= |par.kids|
      && par' == par.(kids := InsertAt(par.kids, k, c))
    ensures Sep(par') && Foot(par') == Foot(par) + Foot(c) && SepList(par'.kids)
  {
    hide Sep, Foot, FootList, SepList;
    Unfold(par);
    SepListInsert(par.kids, k, c);
    FootListInsert(par.kids, k, c);
    hide InsertAt;
    Unfold(par');
  }

  lemma SpliceOwn(ns: seq<Node>, k: nat, c: Node)
    requires k <= |ns| && SepList(InsertAt(ns, k, c))
    ensures var ns', ps := InsertAt(ns, k, c), {c.p} + Block(PtrAt(ns, k - 1)) + Block(PtrAt(ns, k));
      forall p, i | p in ps && 0 <= i < |ns'| :: p in Foot(ns'[i]) ==> p == ns'[i].p
  {
    var ns' := InsertAt(ns, k, c);
    var ps := {c.p} + Block(PtrAt(ns, k - 1)) + Block(PtrAt(ns, k));
    InsertedAt(ns, k, c);
    hide Foot, SepList, InsertAt;
    forall p | p in ps ensures exists i :: 0 <= i < |ns'| && p == ns'[i].p {
      if p == c.p {
        assert p == ns'[k].p;
      } else if k > 0 && p == ns[k - 1].p {
        assert p == ns'[k - 1].p;
      } else {
        assert p == ns'[k + 1].p;
      }
    }
    OwnOnly(ns', ps);
  }

  lemma SpliceDone(m: Store, m': Store, par: Node, k: nat, c: Node)
    requires m.Valid() && NodeFits(m, par) && Sep(par) && k <= |par.kids| && Spliced(m, m', par, k, c.p)
    requires NodeFits(m, c) && Sep(c) && Foot(par) !! Foot(c) && c.p in m.cells
    ensures Inserts(m, m', par, k, c)
  {
    var ps := {c.p} + Block(PtrAt(par.kids, k - 1)) + Block(PtrAt(par.kids, k));
    assert Rewired(m, m', par.p, ps) && par.p in m'.cells;
    SpliceSeps(m, par, k, c);
    hide NodeFits, Sep, Foot, FootList, SepList, Rechained, InsertAt, AllFit;
    SpliceLinks(m, m', par, k, c);
    hide Linked;
    Rechain(m, m', par, InsertAt(par.kids, k, c), ps);
  }

  lemma SplicedIs(m: Store, m': Store, par: Node, k: nat, c: Ptr)
    requires m'.bufs == m.bufs && m'.vecs == m.vecs && m'.cells.Keys == m.cells.Keys && NULL !in m.cells
    requires var prev, next := PtrAt(par.kids, k - 1), PtrAt(par.kids, k);
      && par.p in m.cells && c in m.cells && c != par.p
      && (prev != NULL ==> prev in m.cells && prev != par.p && prev != c)
      && (next != NULL ==> next in m.cells && next != par.p && next != c)
      && m'.cells[c] == m.cells[c].(next := next, prev := prev)
      && m'.cells[par.p] == m.cells[par.p].(child := if k == 0 then c else PtrAt(par.kids, 0))
      && (forall p | p in m.cells && p != c && p != par.p && p == prev :: m'.cells[p] == m.cells[p].(next := c))
      && (forall p | p in m.cells && p != c && p != par.p && p == next :: m'.cells[p] == m.cells[p].(prev := c))
      && (forall p | p in m.cells && p != c && p != par.p && p != prev && p != next :: m'.cells[p] == m.cells[p])
    ensures Spliced(m, m', par, k, c)
  {
  }

  /** The items around the place of an insertion. */
  lemma Beside(m: Store, par: Node, k: nat, c: Node)
    requires m.Valid() && NodeFits(m, par) && Sep(par) && k <= |par.kids|
    requires NodeFits(m, c) && Sep(c) && Foot(par) !! Foot(c)
    ensures var prev, next := PtrAt(par.kids, k - 1), PtrAt(par.kids, k);
      && par.p in m.cells && c.p in m.cells && c.p != NULL && c.p != par.p && NULL !in m.cells
      && (prev != NULL ==> prev in m.cells && prev != par.p && prev != c.p && m.cells[prev].next == next)
      && (next != NULL ==>
            next in m.cells && next != par.p && next != c.p && next != prev && m.cells[next].prev == prev)
      && (prev == NULL <==> k == 0) && (next == NULL <==> k == |par.kids|)
      && (next == m.cells[par.p].child <==> k == 0) && m.cells[par.p].child == PtrAt(par.kids, 0)
  {
    hide NodeFits, Sep, FootList, SepList, AllFit;
    Parent(m, par);
    Fields(m, c);
    Unfold(par);
    assert par.p in Foot(par) && c.p in Foot(c);
    forall i | 0 <= i < |par.kids| ensures par.kids[i].p != c.p { FootMember(par.kids, i); }
    hide Foot;
  }

  /** cJSON_AddItemToArray */
  method AddItemToArray(h: Heap, parent: Ptr, item: Ptr, ghost par: Node, ghost c: Node)
    requires h.mem.Valid() && parent == par.p && NodeFits(h.mem, par) && Sep(par)
    requires item != NULL ==>
      item == c.p && NodeFits(h.mem, c) && Sep(c) && Foot(par) !! Foot(c) && c.p in h.mem.cells
      && h.mem.cells[item].next == NULL && h.mem.cells[item].prev == NULL
    modifies h`mem
    ensures item == NULL ==> h.mem == old(h.mem)
    ensures item != NULL ==> Inserts(old(h.mem), h.mem, par, |par.kids|, c)
  {
    hide NodeFits, Sep, Foot, FootList, SepList, Inserts, SetNext, SetPrev, SetChild;
    if item == NULL { return; }
    ghost var m, k := h.mem, |par.kids|;
    Beside(m, par, k, c);
    var last := LastItem(h, h.mem.cells[parent].child, m, par);
    if last == NULL {
      AssignChild(h, parent, item);
    } else {
      AssignNext(h, last, item);
      AssignPrev(h, item, last);
    }
    AppendSpliced(m, h.mem, par, c.p);
    SpliceDone(m, h.mem, par, k, c);
  }

  /** Follows `next` to the last item. */
  method LastItem(h: Heap, first: Ptr, ghost m: Store, ghost par: Node) returns (c: Ptr)
    requires h.mem == m && m.Valid() && NodeFits(m, par) && Sep(par) && par.p in m.cells
      && first == m.cells[par.p].child
    ensures c == PtrAt(par.kids, |par.kids| - 1)
  {
    hide NodeFits, Sep, Foot, FootList, SepList;
    Parent(m, par);
    c := first;
    ghost var i: nat := 0;
    while c != NULL && h.mem.cells[c].next != NULL
      invariant i <= |par.kids| && c == PtrAt(par.kids, i) && (c == NULL ==> par.kids == [])
      decreases |par.kids| - i
    {
      c := h.mem.cells[c].next;
      i := i + 1;
    }
  }

  lemma AppendSpliced(m: Store, m': Store, par: Node, c: Ptr)
    requires NULL !in m.cells && par.p in m.cells && c in m.cells && c != par.p && m.cells[c].next == NULL
      && m.cells[c].prev == NULL
    requires m.cells[par.p].child == PtrAt(par.kids, 0)
    requires var last := PtrAt(par.kids, |par.kids| - 1);
      && (last == NULL <==> |par.kids| == 0) && (last != NULL ==> last in m.cells && last != par.p && last != c)
      && m' == if last == NULL then SetChild(m, par.p, c) else SetPrev(SetNext(m, last, c), c, last)
    ensures Spliced(m, m', par, |par.kids|, c)
  {
    hide SetNext, SetPrev, SetChild, Spliced;
    var last := PtrAt(par.kids, |par.kids| - 1);
    SetChildAt(m, par.p, c);
    SetNextAt(m, last, c);
    SetPrevAt(SetNext(m, last, c), c, last);
    SplicedIs(m, m', par, |par.kids|, c);
  }

  /** cJSON_InsertItemInArray: in front of the item at that index, or behind the last one. */
  method InsertItemInArray(h: Heap, parent: Ptr, which: int, newitem: Ptr, ghost par: Node, ghost c: Node)
    requires h.mem.Valid() && parent == par.p && NodeFits(h.mem, par) && Sep(par)
    requires newitem == c.p && NodeFits(h.mem, c) && Sep(c) && Foot(par) !! Foot(c) && c.p in h.mem.cells
    requires Index(which) >= |par.kids| ==> h.mem.cells[newitem].next == NULL && h.mem.cells[newitem].prev == NULL
    modifies h`mem
    ensures Inserts(old(h.mem), h.mem, par, if Index(which) < |par.kids| then Index(which) else |par.kids|, c)
  {
    hide NodeFits, Sep, Foot, FootList, SepList, Inserts, SetNext, SetPrev, SetChild;
    ghost var m, k := h.mem, Index(which);
    Parent(m, par);
    var d := Walk(h, h.mem.cells[parent].child, which, par.kids);
    if d == NULL {
      Fields(m, c);
      AddItemToArray(h, parent, newitem, par, c);
      return;
    }
    hide Linked;
    Beside(m, par, k, c);
    var prev := h.mem.cells[d].prev;
    AssignNext(h, newitem, d);
    AssignPrev(h, newitem, prev);
    AssignPrev(h, d, newitem);
    if d == h.mem.cells[parent].child {
      AssignChild(h, parent, newitem);
    } else {
      AssignNext(h, prev, newitem);
    }
    InsertSpliced(m, h.mem, par, k, c.p);
    SpliceDone(m, h.mem, par, k, c);
  }

  lemma InsertSpliced(m: Store, m': Store, par: Node, k: nat, c: Ptr)
    requires k < |par.kids| && NULL !in m.cells && par.p in m.cells && c in m.cells && c != par.p
    requires m.cells[par.p].child == PtrAt(par.kids, 0)
    requires var prev, d := PtrAt(par.kids, k - 1), PtrAt(par.kids, k);
      && (prev == NULL <==> k == 0) && (prev != NULL ==> prev in m.cells && prev != par.p && prev != c)
      && d in m.cells && d != par.p && d != c && d != prev
      && var m3 := SetPrev(SetPrev(SetNext(m, c, d), c, prev), d, c);
      m' == if k == 0 then SetChild(m3, par.p, c) else SetNext(m3, prev, c)
    ensures Spliced(m, m', par, k, c)
  {
    hide SetNext, SetPrev, SetChild, Spliced;
    var prev, d := PtrAt(par.kids, k - 1), PtrAt(par.kids, k);
    var m1 := SetNext(m, c, d);
    var m2 := SetPrev(m1, c, prev);
    var m3 := SetPrev(m2, d, c);
    SetNextAt(m, c, d);
    SetPrevAt(m1, c, prev);
    SetPrevAt(m2, d, c);
    SetChildAt(m3, par.p, c);
    SetNextAt(m3, prev, c);
    SplicedIs(m, m', par, k, c);
  }
}
