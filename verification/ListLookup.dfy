/** Lookup by name, ignoring case, and the list functions that use it. */
module ListLookup {
  import opened Bytes
  import opened Spelling
  import opened CHeap
  import opened Items
  import opened Growing
  import opened Ownership
  import opened ListEdit

  /** Same text, ignoring case. */
  predicate SameText(s: bytes, t: bytes) {
    |s| == |t| && forall i | 0 <= i < |s| :: SameLetter(s[i], t[i])
  }

  /** cJSON_strcasecmp, of a name that may be null; 0 means equal. */
  method StrCaseCmp(m: Store, name: Ptr, t: bytes) returns (r: int)
    requires StringFits(m, name) && NulFree(t)
    ensures r == 0 <==> name != NULL && SameText(TextAt(m, name), t)
    ensures r != 0 && name != NULL ==> exists i: nat :: DifferAt(TextAt(m, name), t, i, r)
  {
    hide CString, SameLetter, Lower;
    if name == NULL { return 1; }
    var s := CString(m.bufs[name]);
    var i := 0;
    LowerNul();
    LowerFolds(At(s, 0), At(t, 0));
    while Lower(At(s, i)) == Lower(At(t, i))
      invariant i <= |s| && i <= |t| && forall k | 0 <= k < i :: SameLetter(s[k], t[k])
      invariant Lower(At(s, i)) == Lower(At(t, i)) <==> SameLetter(At(s, i), At(t, i))
      decreases |s| - i
    {
      if At(s, i) == NUL {
        return 0;
      }
      i := i + 1;
      LowerFolds(At(s, i), At(t, i));
    }
    r := Lower(At(s, i)) as int - Lower(At(t, i)) as int;
    assert DifferAt(s, t, i, r);
  }

  /** The texts differ at i for the first time, case ignored, and r is the difference there in lower case. */
  predicate DifferAt(s: bytes, t: bytes, i: nat, r: int) {
    && i <= |s| && i <= |t| && (forall k | 0 <= k < i :: SameLetter(s[k], t[k]))
    && !SameLetter(At(s, i), At(t, i)) && r == Lower(At(s, i)) as int - Lower(At(t, i)) as int
  }

  /** Only the terminator equals the terminator. */
  lemma LowerNul()
    ensures forall b: byte :: (SameLetter(b, NUL) || SameLetter(NUL, b)) ==> b == NUL
  {
    forall b: byte | SameLetter(b, NUL) || SameLetter(NUL, b) ensures b == NUL {
      LowerFolds(b, NUL);
      LowerFolds(NUL, b);
    }
  }

  /** The name of the i-th item is the text t, ignoring case. */
  ghost predicate HasName(m: Store, ns: seq<Node>, i: nat, t: bytes)
    requires i < |ns|
  {
    ns[i].nm != NULL && SameText(TextAt(m, ns[i].nm), t)
  }

  /** The first item with that name, |ns| if there is none. */
  ghost predicate FirstNamed(m: Store, ns: seq<Node>, t: bytes, k: nat) {
    NoneNamed(m, ns, t, k) && (k < |ns| ==> HasName(m, ns, k, t))
  }

  ghost predicate NoneNamed(m: Store, ns: seq<Node>, t: bytes, k: nat) {
    k <= |ns| && forall i | 0 <= i < k :: !HasName(m, ns, i, t)
  }

  lemma NoneMore(m: Store, ns: seq<Node>, t: bytes, k: nat)
    requires NoneNamed(m, ns, t, k) && k < |ns| && !HasName(m, ns, k, t)
    ensures NoneNamed(m, ns, t, k + 1)
  {
    hide HasName;
  }

  lemma ItemAt(m: Store, first: Ptr, ns: seq<Node>, i: nat)
    requires ListFits(m, first, NULL, ns) && i < |ns|
    ensures ns[i].p != NULL && ns[i].p in m.cells && m.cells[ns[i].p].name == ns[i].nm && StringFits(m, ns[i].nm)
    ensures m.cells[ns[i].p].next == PtrAt(ns, i + 1)
  {
    hide NodeFits;
    Fields(m, ns[i]);
  }

  /** The name of one item, compared. */
  method Matches(h: Heap, c: Ptr, t: bytes, ghost first: Ptr, ghost ns: seq<Node>, ghost i: nat) returns (same: bool)
    requires ListFits(h.mem, first, NULL, ns) && NulFree(t) && i < |ns| && c == ns[i].p
    ensures same == HasName(h.mem, ns, i, t)
    ensures c in h.mem.cells && h.mem.cells[c].next == PtrAt(ns, i + 1)
  {
    hide NodeFits, TextAt, SameText, Linked, AllFit;
    ItemAt(h.mem, first, ns, i);
    var r := StrCaseCmp(h.mem, h.mem.cells[c].name, t);
    same := r == 0;
  }

  /** The loop shared by the lookups: the item, and how many precede it. */
  method Find(h: Heap, first: Ptr, t: bytes, ghost ns: seq<Node>) returns (c: Ptr, i: nat)
    requires ListFits(h.mem, first, NULL, ns) && NulFree(t)
    ensures FirstNamed(h.mem, ns, t, i) && c == PtrAt(ns, i)
  {
    assert first == PtrAt(ns, 0);
    ItemsLive(h.mem, ns);
    assert NoneNamed(h.mem, ns, t, 0);
    hide NodeFits, AllFit, HasName, Linked, NoneNamed;
    c := first;
    i := 0;
    while c != NULL
      invariant i <= |ns| && c == PtrAt(ns, i) && NoneNamed(h.mem, ns, t, i)
      decreases |ns| - i
    {
      var same := Matches(h, c, t, first, ns, i);
      if same { return; }
      NoneMore(h.mem, ns, t, i);
      c := h.mem.cells[c].next;
      i := i + 1;
    }
  }

  /** cJSON_GetObjectItem: the first member whose name is the text, ignoring case. */
  method GetObjectItem(h: Heap, parent: Ptr, t: bytes, ghost par: Node) returns (c: Ptr)
    requires parent == par.p && NodeFits(h.mem, par) && Sep(par) && NulFree(t)
    ensures exists k: nat :: FirstNamed(h.mem, par.kids, t, k) && c == PtrAt(par.kids, k)
  {
    hide NodeFits, Sep, FirstNamed;
    Parent(h.mem, par);
    var i;
    c, i := Find(h, h.mem.cells[parent].child, t, par.kids);
  }

  lemma FirstUnique(m: Store, ns: seq<Node>, t: bytes, i: nat, j: nat)
    requires FirstNamed(m, ns, t, i) && FirstNamed(m, ns, t, j)
    ensures i == j
  {
  }

  lemma SameTextLower(s: bytes, t: bytes)
    ensures SameText(s, t) <==> |s| == |t| && forall i | 0 <= i < |s| :: Lower(s[i]) == Lower(t[i])
  {
    hide SameLetter, Lower;
    if |s| == |t| {
      forall i | 0 <= i < |s| ensures Lower(s[i]) == Lower(t[i]) <==> SameLetter(s[i], t[i]) {
        LowerFolds(s[i], t[i]);
      }
    }
  }

  /** The case of the text looked for does not matter. */
  lemma CaseIgnored(m: Store, ns: seq<Node>, t: bytes, t': bytes, k: nat)
    requires SameText(t, t')
    ensures FirstNamed(m, ns, t, k) <==> FirstNamed(m, ns, t', k)
  {
    hide Lower, TextAt;
    SameTextLower(t, t');
    forall i | 0 <= i < |ns| ensures HasName(m, ns, i, t) <==> HasName(m, ns, i, t') {
      SameTextLower(TextAt(m, ns[i].nm), t);
      SameTextLower(TextAt(m, ns[i].nm), t');
    }
    hide HasName, SameText;
  }

  /** A member is found under every way to write its name in upper and lower case, unless one before it is;
      and nothing is found exactly when the text differs from every name in more than the case. */
  lemma FoundIffNamed(m: Store, ns: seq<Node>, t: bytes, k: nat)
    requires FirstNamed(m, ns, t, k)
    ensures forall j | 0 <= j < |ns| && ns[j].nm != NULL && SameText(TextAt(m, ns[j].nm), t) :: k <= j
    ensures k == |ns| <==> forall j | 0 <= j < |ns| :: ns[j].nm == NULL || !SameText(TextAt(m, ns[j].nm), t)
  {
    hide SameText, TextAt;
    forall j | 0 <= j < |ns| && ns[j].nm != NULL && SameText(TextAt(m, ns[j].nm), t) ensures k <= j {
      assert HasName(m, ns, j, t);
    }
    forall j | 0 <= j < k ensures ns[j].nm == NULL || !SameText(TextAt(m, ns[j].nm), t) {
      assert !HasName(m, ns, j, t);
    }
    if k < |ns| { assert HasName(m, ns, k, t); }
  }

  /** cJSON_DetachItemFromObject: takes off the list the item that cJSON_GetObjectItem finds. */
  method DetachItemFromObject(h: Heap, parent: Ptr, t: bytes, ghost par: Node) returns (c: Ptr)
    requires h.mem.Valid() && parent == par.p && NodeFits(h.mem, par) && Sep(par) && NulFree(t)
    modifies h`mem
    ensures exists k: nat ::
      (FirstNamed(old(h.mem), par.kids, t, k) && c == PtrAt(par.kids, k)
       && if k < |par.kids| then Detaches(old(h.mem), h.mem, par, k) else h.mem == old(h.mem))
  {
    hide NodeFits, Sep, Detaches, FirstNamed;
    ghost var m := h.mem;
    Parent(h.mem, par);
    var i;
    c, i := Find(h, h.mem.cells[parent].child, t, par.kids);
    assert FirstNamed(m, par.kids, t, i);
    FirstBound(m, par.kids, t, i);
    if c != NULL {
      c := DetachItemFromArray(h, parent, i, par);
    }
  }

  lemma FirstBound(m: Store, ns: seq<Node>, t: bytes, k: nat)
    requires FirstNamed(m, ns, t, k) && AllFit(m, ns)
    ensures k <= |ns| && (k < |ns| ==> ns[k].p != NULL)
  {
    if k < |ns| { Fields(m, ns[k]); }
  }

  // ----- naming an item -----

  /** The item c with the name in the block p instead of the one it had. */
  lemma RenameFits(m: Store, m': Store, c: Node, p: Ptr)
    requires m.Valid() && NodeFits(m, c) && Sep(c) && m'.Valid() && c.p in m.cells && c.p in m'.cells
    requires Agree(m, m', m.Live() - Block(c.nm) - {c.p}) && m'.cells[c.p] == m.cells[c.p].(name := p)
    requires StringFits(m', p) && p !in m.Live() - Block(c.nm)
    ensures var c' := c.(nm := p);
      && NodeFits(m', c') && Sep(c') && Foot(c') == Foot(c) - Block(c.nm) + Block(p)
      && Denote(m', c') == Denote(m, c) && Proper(m', c') == Proper(m, c)
  {
    var c' := c.(nm := p);
    hide Sep, Foot, FootList, SepList, CString, Denote, DenoteList, Proper, NodeFits, AllFit, AllProper, Linked;
    RenameSep(m, m', c, p);
    RenameParts(m, m', c, p);
    Fields(m, c);
    Fields(m', c');
    RenameDenotes(m, m', c, p);
  }

  lemma RenameSep(m: Store, m': Store, c: Node, p: Ptr)
    requires m.Valid() && NodeFits(m, c) && Sep(c) && (p != NULL ==> p in m'.bufs) && m'.Valid() && c.p in m'.cells
    requires p !in m.Live() - Block(c.nm)
    ensures var c' := c.(nm := p); Sep(c') && Foot(c') == Foot(c) - Block(c.nm) + Block(p)
  {
    hide Sep, Foot, FootList, SepList, NodeFits;
    FootLive(m, c);
    Unfold(c);
    Unfold(c.(nm := p));
  }

  lemma RenameParts(m: Store, m': Store, c: Node, p: Ptr)
    requires m.Valid() && NodeFits(m, c) && Sep(c) && c.p in m.cells
    requires Agree(m, m', m.Live() - Block(c.nm) - {c.p})
    ensures AllFit(m, c.kids) && AllFit(m', c.kids)
    ensures DenoteList(m', c.kids) == DenoteList(m, c.kids) && AllProper(m', c.kids) == AllProper(m, c.kids)
    ensures Linked(m', m.cells[c.p].child, NULL, c.kids)
    ensures StringFits(m', c.vs) && TextAt(m', c.vs) == TextAt(m, c.vs)
  {
    hide Sep, Foot, FootList, SepList, CString, DenoteList, NodeFits, AllProper, AllFit;
    FootLive(m, c);
    Unfold(c);
    Fields(m, c);
    ListLive(m, c.kids);
    assert Agree(m, m', FootList(c.kids));
    FrameList(m, m', c.kids);
    LinkedSame(m, m', m.cells[c.p].child, NULL, c.kids);
    assert c.vs != NULL ==> c.vs in m.Live() - Block(c.nm) - {c.p};
  }

  lemma RenameDenotes(m: Store, m': Store, c: Node, p: Ptr)
    requires NodeFits(m, c) && NodeFits(m', c.(nm := p)) && c.p in m.cells && c.p in m'.cells
    requires m'.cells[c.p] == m.cells[c.p].(name := p) && AllFit(m, c.kids) && AllFit(m', c.kids)
    requires DenoteList(m', c.kids) == DenoteList(m, c.kids) && AllProper(m', c.kids) == AllProper(m, c.kids)
    requires TextAt(m', c.vs) == TextAt(m, c.vs)
    ensures Denote(m', c.(nm := p)) == Denote(m, c) && Proper(m', c.(nm := p)) == Proper(m, c)
  {
    hide TextAt, DenoteList, NodeFits, Denote, Proper, AllProper, AllFit;
    DenoteIs(m, c);
    DenoteIs(m', c.(nm := p));
  }

  /** m after the item c has lost its name and got the text in the block p, or no name when p is null. */
  ghost function WithName(m: Store, c: Node, p: Ptr, text: bytes): Store
    requires c.p in m.cells
  {
    Relabel(Remove(m, Block(c.nm)), c.p, m.cells[c.p], p, text)
  }

  /** m with the text in the new block p as the name of the item q. */
  function Relabel(m: Store, q: Ptr, cell: Cell, p: Ptr, text: bytes): Store {
    WithCell(if p == NULL then m else WithBuffer(m, p, text + [NUL]), q, cell.(name := p))
  }

  lemma WithNameAt(m: Store, c: Node, p: Ptr, text: bytes)
    requires c.p in m.cells
    ensures var m' := WithName(m, c, p, text); c.p in m'.cells && m'.cells[c.p] == m.cells[c.p].(name := p)
  {
  }

  /** The item loses its name and gets a copy of the text; without memory it is left without a name. */
  method Rename(h: Heap, item: Ptr, text: bytes, ghost c: Node) returns (p: Ptr)
    requires h.mem.Valid() && item == c.p && NodeFits(h.mem, c) && Sep(c) && NulFree(text)
    modifies h
    ensures h.mem.Valid() && if p == NULL then h.failed else h.failed == old(h.failed)
    ensures NodeFits(h.mem, c.(nm := p)) && Sep(c.(nm := p)) && Foot(c.(nm := p)) == Foot(c) - Block(c.nm) + Block(p)
    ensures Denote(h.mem, c.(nm := p)) == Denote(old(h.mem), c) && Proper(h.mem, c.(nm := p)) == Proper(old(h.mem), c)
    ensures p != NULL ==> p !in old(h.mem).Live() - Block(c.nm) && TextAt(h.mem, p) == text
    ensures h.mem.Live() == old(h.mem).Live() - Block(c.nm) + Block(p) && h.mem.vecs == old(h.mem).vecs
    ensures Agree(old(h.mem), h.mem, old(h.mem).Live() - Foot(c))
    ensures item in old(h.mem).cells && h.mem == WithName(old(h.mem), c, p, text)
  {
    hide NodeFits, Sep, Foot, FootList, SepList, CString, Denote, Proper, TextAt, Remove, Grown, Agree;
    ghost var m := h.mem;
    Fields(m, c);
    Unfold(c);
    FreeBlock(h, h.mem.cells[item].name, h.mem.cells[item].name != NULL);
    ghost var m1 := h.mem;
    p := Strdup(h, text);
    ghost var m2 := h.mem;
    RenameSteps(m, m1, m2, c, p);
    h.SetCell(item, h.mem.cells[item].(name := p));
    RenameFits(m, h.mem, c, p);
    AgreeLess(m, h.mem, m.Live() - Block(c.nm) - {c.p}, m.Live() - Foot(c));
  }

  lemma RemoveAgrees(m: Store, ps: set<Ptr>)
    requires m.Valid()
    ensures var m' := Remove(m, ps); m'.Valid() && m'.Live() == m.Live() - ps && Agree(m, m', m.Live() - ps)
  {
  }

  lemma AgreeTwice(m: Store, m': Store, m'': Store, ps: set<Ptr>, qs: set<Ptr>)
    requires Agree(m, m', ps) && Agree(m', m'', qs) && ps <= qs
    ensures Agree(m, m'', ps)
  {
  }

  lemma RenameSteps(m: Store, m1: Store, m2: Store, c: Node, p: Ptr)
    requires m.Valid() && NodeFits(m, c) && c.p in m.cells && m1 == Remove(m, Block(c.nm)) && c.p != c.nm
    requires m2.Valid() && (if p == NULL then m2 == m1 else Grown(m1, m2, {p}) && StringFits(m2, p))
      && m2.vecs == m1.vecs
    ensures c.p in m2.cells && m2.cells[c.p] == m.cells[c.p]
    ensures var m3 := WithCell(m2, c.p, m2.cells[c.p].(name := p));
      && m3.Valid() && Agree(m, m3, m.Live() - Block(c.nm) - {c.p}) && StringFits(m3, p) && p !in m.Live() - Block(c.nm)
      && m3.Live() == m.Live() - Block(c.nm) + Block(p) && m3.vecs == m.vecs
      && (p != NULL ==> TextAt(m3, p) == TextAt(m2, p))
  {
    assert m1.vecs == m.vecs by { Fields(m, c); }
    hide CString, NodeFits, Agree, Remove;
    RemoveAgrees(m, Block(c.nm));
    var old1 := m.Live() - Block(c.nm);
    assert Agree(m1, m2, old1) by { if p == NULL { AgreeSelf(m1, old1); } }
    AgreeTwice(m, m1, m2, old1, old1);
    assert c.p in old1;
    AgreeAt(m, m2, old1, c.p);
    WithCellAgrees(m2, c.p, m2.cells[c.p].(name := p));
    AgreeLess(m, m2, old1, old1 - {c.p});
    AgreeTwice(m, m2, WithCell(m2, c.p, m2.cells[c.p].(name := p)), old1 - {c.p}, m2.Live() - {c.p});
  }

  lemma AgreeSelf(m: Store, ps: set<Ptr>)
    ensures Agree(m, m, ps)
  {
  }

  lemma AgreeAt(m: Store, m': Store, ps: set<Ptr>, p: Ptr)
    requires Agree(m, m', ps) && p in ps && p in m.cells
    ensures p in m'.cells && m'.cells[p] == m.cells[p]
  {
  }
}
