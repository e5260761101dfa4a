/** cJSON_Delete and cJSON_Duplicate: every block freed once, every copy separate from its source. */
module Ownership {
  import opened Bytes
  import opened Json
  import opened CHeap
  import opened Items
  import opened Growing

  // ----- cJSON_Delete -----

  lemma FootListTake(ns: seq<Node>, i: nat)
    requires i < |ns|
    ensures FootList(ns[..i + 1]) == FootList(ns[..i]) + Foot(ns[i])
  {
    var t, t' := ns[..i], ns[..i + 1];
    forall p ensures p in FootList(t') <==> p in FootList(t) + Foot(ns[i]) {
      if p in FootList(t') {
        var k :| 0 <= k < |t'| && p in Foot(t'[k]);
        assert t'[k] == ns[k];
        if k < i { assert t[k] == ns[k]; }
      }
      if p in FootList(t) {
        var k :| 0 <= k < |t| && p in Foot(t[k]);
        assert t'[k] == t[k];
      }
      if p in Foot(ns[i]) { assert t'[i] == ns[i]; }
    }
  }

  /** What is still on the list is untouched by freeing the items before it. */
  lemma SuffixAfterRemove(m: Store, ns: seq<Node>, i: nat)
    requires i < |ns| && AllFit(m, ns) && SepList(ns)
    ensures NodeFits(Remove(m, FootList(ns[..i])), ns[i])
    ensures ns[i].p in Remove(m, FootList(ns[..i])).cells && Sep(ns[i])
    ensures ns[i].p in m.cells && Remove(m, FootList(ns[..i])).cells[ns[i].p] == m.cells[ns[i].p]
  {
    hide NodeFits, Denote, Proper, Sep, Foot;
    var gone := FootList(ns[..i]);
    var m' := Remove(m, gone);
    forall p | p in gone ensures p !in Foot(ns[i]) {
      var k :| 0 <= k < |ns[..i]| && p in Foot(ns[..i][k]);
      assert ns[..i][k] == ns[k];
    }
    NodeLive(m, ns[i]);
    FootMember(ns, i);
    assert SameNode(m, m', ns[i]) by { hide FootList, SepList; }
    FrameNode(m, m', ns[i]);
  }

  /** The blocks of one item are live, distinct and apart from its children: they can be freed in turn,
      and freeing all of them frees the footprint of the item. */
  lemma OwnBlocks(m: Store, n: Node)
    requires m.Valid() && NodeFits(m, n) && Sep(n)
    ensures n.p in m.cells && ListFits(m, m.cells[n.p].child, NULL, n.kids) && SepList(n.kids)
    ensures m.cells[n.p].valuestring == n.vs && m.cells[n.p].name == n.nm
    ensures !m.cells[n.p].isReference && !m.cells[n.p].stringIsConst
    ensures
      var m1 := Remove(m, FootList(n.kids));
      var m2 := Remove(m1, Block(n.vs));
      var m3 := Remove(m2, Block(n.nm));
      && (n.vs != NULL ==> n.vs in m1.bufs) && (n.nm != NULL ==> n.nm in m2.bufs) && n.p in m3.Live()
      && m1.Valid() && m2.Valid() && m3.Valid()
      && Remove(m3, {n.p}) == Remove(m, Foot(n))
  {
    assert Foot(n) == FootList(n.kids) + Block(n.vs) + Block(n.nm) + {n.p};
    assert NodeFits(m, n) && Sep(n);
    hide FootList, SepList, AllFit, Foot;
    FreeInTurn(m, FootList(n.kids), n.vs, n.nm, n.p);
  }

  lemma FreeInTurn(m: Store, k: set<Ptr>, vs: Ptr, nm: Ptr, p: Ptr)
    requires m.Valid() && p in m.cells && p !in k
    requires vs != NULL ==> vs in m.bufs && vs !in k
    requires nm != NULL ==> nm in m.bufs && nm !in k && nm != vs
    ensures
      var m1 := Remove(m, k);
      var m2 := Remove(m1, Block(vs));
      var m3 := Remove(m2, Block(nm));
      && (vs != NULL ==> vs in m1.bufs) && (nm != NULL ==> nm in m2.bufs) && p in m3.Live()
      && m1.Valid() && m2.Valid() && m3.Valid()
      && Remove(m3, {p}) == Remove(m, k + Block(vs) + Block(nm) + {p})
  {
    RemoveKeeps(m, k);
    RemoveKeeps(Remove(m, k), Block(vs));
    RemoveKeeps(Remove(Remove(m, k), Block(vs)), Block(nm));
    hide Remove;
    RemoveTwice(m, k, Block(vs));
    RemoveTwice(m, k + Block(vs), Block(nm));
    RemoveTwice(m, k + Block(vs) + Block(nm), {p});
  }

  lemma RemoveKeeps(m: Store, ps: set<Ptr>)
    requires m.Valid()
    ensures Remove(m, ps).Valid()
    ensures forall q | q in m.bufs && q !in ps :: q in Remove(m, ps).bufs
    ensures forall q | q in m.cells && q !in ps :: q in Remove(m, ps).cells
  {
  }

  /** Frees one item with everything below it. */
  method DeleteItem(h: Heap, c: Ptr, ghost n: Node)
    requires h.mem.Valid() && c == n.p && NodeFits(h.mem, n) && Sep(n)
    modifies h`mem
    ensures h.mem.Valid() && h.mem == Remove(old(h.mem), Foot(n))
    decreases n
  {
    hide FootList, SepList, NodeFits, Sep, Foot, Remove, AllFit;
    OwnBlocks(h.mem, n);
    FootListEmpty();
    RemoveNone(h.mem);
    var cell := h.mem.cells[c];
    if !cell.isReference && cell.child != NULL {
      Delete(h, cell.child, NULL, n.kids);
    } else {
      assert n.kids == [] by { ChildNull(h.mem, cell.child, n.kids); }
    }
    FreeBlock(h, cell.valuestring, !cell.isReference && cell.valuestring != NULL);
    FreeBlock(h, cell.name, !cell.stringIsConst && cell.name != NULL);
    h.Free(c);
  }

  lemma ChildNull(m: Store, first: Ptr, ns: seq<Node>)
    requires ListFits(m, first, NULL, ns) && first == NULL
    ensures ns == []
  {
    ItemsLive(m, ns);
  }

  /** Frees a list of items with everything below them: exactly their blocks, each once. */
  method Delete(h: Heap, item: Ptr, ghost before: Ptr, ghost ns: seq<Node>)
    requires h.mem.Valid() && ListFits(h.mem, item, before, ns) && SepList(ns)
    modifies h`mem
    ensures h.mem.Valid() && h.mem == Remove(old(h.mem), FootList(ns))
    decreases ns
  {
    hide FootList, SepList, NodeFits, Sep, Foot, Remove;
    ghost var m := h.mem;
    var c := item;
    ghost var i := 0;
    assert ns[..0] == [];
    FootListEmpty();
    RemoveNone(m);
    ItemsLive(m, ns);
    while c != NULL
      invariant i <= |ns| && c == PtrAt(ns, i)
      invariant h.mem == Remove(m, FootList(ns[..i])) && h.mem.Valid()
      decreases |ns| - i
    {
      SuffixAfterRemove(m, ns, i);
      var next := h.mem.cells[c].next;
      DeleteItem(h, c, ns[i]);
      RemoveTwice(m, FootList(ns[..i]), Foot(ns[i]));
      FootListTake(ns, i);
      c := next;
      i := i + 1;
    }
    assert ns[..i] == ns;
  }

  lemma FootListEmpty()
    ensures FootList([]) == {}
  {
  }

  lemma ItemsLive(m: Store, ns: seq<Node>)
    requires AllFit(m, ns)
    ensures forall i | 0 <= i < |ns| :: ns[i].p != NULL && ns[i].p in m.cells
  {
  }

  /** free of a string field, if the item owns one. */
  method FreeBlock(h: Heap, p: Ptr, owned: bool)
    requires h.mem.Valid() && owned == (p != NULL) && (owned ==> p in h.mem.bufs)
    modifies h`mem
    ensures h.mem.Valid() && h.mem == Remove(old(h.mem), Block(p))
  {
    if owned {
      h.Free(p);
    } else {
      RemoveNone(h.mem);
    }
  }

  // ----- cJSON_Duplicate -----

  /** cJSON_strdup */
  method Strdup(h: Heap, text: bytes) returns (p: Ptr)
    requires h.mem.Valid() && NulFree(text)
    modifies h
    ensures h.mem.Valid()
    ensures p == NULL ==> h.mem == old(h.mem) && h.failed
    ensures p != NULL ==> h.failed == old(h.failed) && Grown(old(h.mem), h.mem, {p})
    ensures p != NULL ==> StringFits(h.mem, p) && TextAt(h.mem, p) == text
    ensures p != NULL ==> h.mem == WithBuffer(old(h.mem), p, text + [NUL])
  {
    hide Grown, CString, Overwrite;
    p := h.Malloc(|text| + 1);
    if p != NULL {
      ghost var junk := h.mem.bufs[p];
      WithBufferTwice(old(h.mem), p, junk, text + [NUL]);
      OverwriteAll(junk, text + [NUL]);
      h.Copy(p, 0, text + [NUL]);
      CStringIs(text + [NUL], text);
      BufferAdded(old(h.mem), p, text + [NUL]);
    }
  }

  lemma OverwriteAll(buf: bytes, s: bytes)
    requires |s| == |buf|
    ensures Overwrite(buf, 0, s) == s
  {
  }

  /** built is a copy of n up to its first i children: same kind, number, text and name, the same
      children in the same order, and not one block in common with what was there before. */
  ghost predicate CopyOf(m: Store, m': Store, n: Node, built: Node, i: nat)
    requires NodeFits(m, n) && AllFit(m, n.kids) && i <= |n.kids|
  {
    && Detached(m, m', built) && AllFit(m', built.kids) && AllFit(m, n.kids[..i]) && |built.kids| == i
    && built.p in m'.cells && n.p in m.cells
    && m'.cells[built.p].kind == m.cells[n.p].kind
    && m'.cells[built.p].valueint == m.cells[n.p].valueint && m'.cells[built.p].valuedouble == m.cells[n.p].valuedouble
    && (built.vs == NULL <==> n.vs == NULL) && TextAt(m', built.vs) == TextAt(m, n.vs)
    && NameAt(m', built.nm) == NameAt(m, n.nm)
    && DenoteList(m', built.kids) == DenoteList(m, n.kids[..i])
    && AllProper(m', built.kids) == AllProper(m, n.kids[..i])
  }

  lemma CopyDenotes(m: Store, m': Store, n: Node, built: Node)
    requires NodeFits(m, n) && AllFit(m, n.kids) && CopyOf(m, m', n, built, |n.kids|)
    ensures NodeFits(m', built) && Denote(m', built) == Denote(m, n) && Proper(m', built) == Proper(m, n)
  {
    hide NodeFits, Denote, Proper, Sep, Foot, Grown, DenoteList, TextAt, NameAt, AllFit, AllProper;
    assert n.kids[..|n.kids|] == n.kids;
    DenoteIs(m, n);
    DenoteIs(m', built);
  }

  lemma CopyKid(m: Store, m1: Store, m2: Store, n: Node, built: Node, i: nat, c: Node)
    requires NodeFits(m, n) && Sep(n) && AllFit(m, n.kids) && i < |n.kids| && CopyOf(m, m1, n, built, i)
    requires NodeFits(m1, n.kids[i]) && Detached(m1, m2, c) && NodeFits(m2, c)
    requires Denote(m2, c) == Denote(m1, n.kids[i]) && NameAt(m2, c.nm) == NameAt(m1, n.kids[i].nm)
    requires Proper(m2, c) == Proper(m1, n.kids[i])
    ensures built.p in m2.cells && c.p in m2.cells && (LastKid(built) != NULL ==> LastKid(built) in m2.cells)
    ensures CopyOf(m, Attached(m2, built.p, LastKid(built), c.p), n, WithKid(built, c), i + 1)
  {
    hide NodeFits, Sep, Foot, Grown, Filled, Denote, DenoteList, TextAt, NameAt, Proper, AllFit, AllProper, SepList;
    hide Attached;
    var k := n.kids[i];
    KidKept(m, m1, n, built, i);
    AddKid(m1, m2, built, c);
    var m3 := Attached(m2, built.p, LastKid(built), c.p);
    DetachedFilled(m, m1, m3, built, WithKid(built, c));
    assert n.kids[..i + 1] == n.kids[..i] + [k];
    DenoteSnoc(m, n.kids[..i], k);
    AllFitSnoc(m, n.kids[..i], k);
    assert WithKid(built, c).kids == built.kids + [c];
  }

  lemma KidKept(m: Store, m1: Store, n: Node, built: Node, i: nat)
    requires NodeFits(m, n) && Sep(n) && AllFit(m, n.kids) && i < |n.kids| && Detached(m, m1, built)
    ensures var k := n.kids[i];
      && NodeFits(m, k) && Sep(k) && NodeFits(m1, k) && Denote(m1, k) == Denote(m, k)
      && NameAt(m1, k.nm) == NameAt(m, k.nm) && Proper(m1, k) == Proper(m, k)
      && k.p in m.cells && k.p in m1.cells && m1.cells[k.p] == m.cells[k.p]
  {
    var k := n.kids[i];
    assert Sep(k) && NodeFits(m, k);
    hide NodeFits, Sep, Foot, Denote, Proper, NameAt, Grown;
    KeepsNode(m, m1, Foot(built), k);
  }

  lemma CopyNext(m: Store, n: Node, i: nat)
    requires NodeFits(m, n) && n.p in m.cells && i <= |n.kids|
    ensures m.cells[n.p].child == PtrAt(n.kids, 0) && AllFit(m, n.kids)
    ensures i < |n.kids| ==> n.kids[i].p != NULL && n.kids[i].p in m.cells
    ensures i < |n.kids| ==> m.cells[n.kids[i].p].next == PtrAt(n.kids, i + 1)
  {
    if i < |n.kids| { Fields(m, n.kids[i]); }
  }

  /** cJSON_Delete of a tree under construction. */
  method Discard(h: Heap, item: Ptr, ghost m: Store, ghost n: Node)
    requires Detached(m, h.mem, n) && item == n.p
    modifies h`mem
    ensures h.mem == m && h.mem.Valid()
  {
    hide NodeFits, Sep, Foot, FootList, SepList, AllFit, Linked, Grown;
    DetachedRemove(m, h.mem, n);
    Delete(h, item, NULL, [n]);
  }

  /** Copying one string field of an item. */
  method CopyString(h: Heap, b: Ptr, newitem: Ptr, named: bool, ghost m: Store, ghost built: Node)
    returns (ok: bool, ghost built': Node)
    requires b != NULL && StringFits(h.mem, b)
    requires Detached(m, h.mem, built) && newitem == built.p && built.kids == []
    requires if named then built.nm == NULL else built.vs == NULL
    modifies h
    ensures h.mem.Valid()
    ensures !ok ==> h.failed && h.mem == m
    ensures ok ==> h.failed == old(h.failed) && Detached(m, h.mem, built') && built'.p == newitem && built'.kids == []
    ensures ok ==> built' == WithString(built, if named then built'.nm else built'.vs, named)
    ensures ok ==> TextAt(h.mem, if named then built'.nm else built'.vs) == TextAt(old(h.mem), b)
    ensures ok ==> (if named then built'.nm else built'.vs) != NULL
    ensures ok ==> (if named then TextAt(h.mem, built.vs) == TextAt(old(h.mem), built.vs)
                    else NameAt(h.mem, built.nm) == NameAt(old(h.mem), built.nm))
    ensures ok ==> newitem in h.mem.cells && newitem in old(h.mem).cells
    ensures ok ==> h.mem.cells[newitem].kind == old(h.mem).cells[newitem].kind
    ensures ok ==> h.mem.cells[newitem].valueint == old(h.mem).cells[newitem].valueint
    ensures ok ==> h.mem.cells[newitem].valuedouble == old(h.mem).cells[newitem].valuedouble
  {
    hide NodeFits, Sep, Foot, FootList, SepList, CString, Grown, Filled, DenoteList;
    ghost var m1 := h.mem;
    built' := built;
    var p := Strdup(h, CString(h.mem.bufs[b]));
    if p == NULL {
      Discard(h, newitem, m, built);
      return false, built;
    }
    GrownCells(m1, h.mem, {p}, newitem);
    ghost var m2 := h.mem;
    h.SetCell(newitem, StringField(h.mem.cells[newitem], p, named));
    SetString(m1, m2, built, p, named);
    built' := WithString(built, p, named);
    DetachedFilled(m, m1, h.mem, built, built');
    ok := true;
  }

  lemma GrownCells(m: Store, m': Store, ps: set<Ptr>, p: Ptr)
    requires Grown(m, m', ps) && p in m.cells
    ensures p in m'.cells && m'.cells[p] == m.cells[p]
  {
    assert p in m.Live();
  }

  /** The copy of an item without its children. */
  method DuplicateItem(h: Heap, item: Ptr, ghost n: Node) returns (newitem: Ptr, ghost built: Node)
    requires h.mem.Valid() && item == n.p && NodeFits(h.mem, n) && Sep(n)
    modifies h
    ensures h.mem.Valid() && AllFit(old(h.mem), n.kids)
    ensures newitem == NULL ==> h.failed && h.mem == old(h.mem)
    ensures newitem != NULL ==>
      h.failed == old(h.failed) && built.p == newitem && CopyOf(old(h.mem), h.mem, n, built, 0)
  {
    hide NodeFits, Sep, Foot, FootList, SepList, CString, Grown, Filled, DenoteList, Detached, AllFit;
    ghost var m := h.mem;
    Fields(m, n);
    built := n;
    newitem := h.NewItem();
    if newitem == NULL { return; }
    NewLeaf(m, newitem);
    built := Node(newitem, NULL, NULL, []);
    DetachedFacts(m, h.mem, built);
    ghost var m1 := h.mem;
    KeepsNode(m, m1, Foot(built), n);
    var cell := h.mem.cells[item];
    var c := h.mem.cells[newitem].(kind := cell.kind, isReference := false, stringIsConst := cell.stringIsConst,
                                   valueint := cell.valueint, valuedouble := cell.valuedouble);
    SetScalars(m1, built, c);
    h.SetCell(newitem, c);
    DetachedFilled(m, m1, h.mem, built, built);
    if cell.valuestring != NULL {
      SourceKept(m, h.mem, built, n);
      ghost var m2 := h.mem;
      var ok;
      ok, built := CopyString(h, cell.valuestring, newitem, false, m, built);
      if !ok { return NULL, built; }
    }
    if cell.name != NULL {
      SourceKept(m, h.mem, built, n);
      var ok;
      ok, built := CopyString(h, cell.name, newitem, true, m, built);
      if !ok { return NULL, built; }
    }
    DetachedFacts(m, h.mem, built);
    assert n.kids[..0] == [];
    NoKids(m);
    NoKids(h.mem);
  }

  lemma NoKids(m: Store)
    ensures AllFit(m, []) && DenoteList(m, []) == Nil && AllProper(m, [])
  {
  }

  lemma DetachedFacts(m: Store, m': Store, n: Node)
    requires Detached(m, m', n)
    ensures m.Valid() && m'.Valid() && NodeFits(m', n) && Sep(n) && Grown(m, m', Foot(n)) && n.p in m'.cells
  {
    hide NodeFits, Sep, Foot, Grown;
  }

  /** The source of a copy is still there. */
  lemma SourceKept(m: Store, m': Store, built: Node, n: Node)
    requires Detached(m, m', built) && NodeFits(m, n) && Sep(n)
    ensures StringFits(m', n.vs) && StringFits(m', n.nm)
    ensures TextAt(m', n.vs) == TextAt(m, n.vs) && NameAt(m', n.nm) == NameAt(m, n.nm)
      && TextAt(m', n.nm) == TextAt(m, n.nm)
  {
    hide Sep, Foot, Grown, NodeFits, CString;
    KeepsNode(m, m', Foot(built), n);
    Fields(m', n);
    Fields(m, n);
    KeepsText(m, m', Foot(built), n);
    if n.nm != NULL { assert NameAt(m', n.nm) == Named(TextAt(m', n.nm)); }
    TextNull(m, m');
  }

  lemma TextNull(m: Store, m': Store)
    ensures TextAt(m, NULL) == TextAt(m', NULL)
  {
  }

  /** Copies an item, and with recurse everything below it, into new blocks; the source and everything
      else stays as it is. When an allocation fails the store is as before the call. */
  method Duplicate(h: Heap, item: Ptr, recurse: bool, ghost n: Node) returns (r: Ptr, ghost built: Node)
    requires h.mem.Valid()
    requires item != NULL ==> item == n.p && NodeFits(h.mem, n) && Sep(n)
    modifies h
    ensures h.mem.Valid()
    ensures r == NULL ==> h.mem == old(h.mem) && (item == NULL || h.failed)
    ensures r != NULL ==> item != NULL && h.failed == old(h.failed) && r == built.p
    ensures r != NULL ==> Detached(old(h.mem), h.mem, built) && NodeFits(h.mem, built)
    ensures r != NULL && recurse ==>
      Denote(h.mem, built) == Denote(old(h.mem), n) && NameAt(h.mem, built.nm) == NameAt(old(h.mem), n.nm)
      && Proper(h.mem, built) == Proper(old(h.mem), n)
    ensures r != NULL && !recurse ==> AllFit(old(h.mem), n.kids) && CopyOf(old(h.mem), h.mem, n, built, 0)
    decreases n
  {
    hide NodeFits, Sep, Foot, FootList, SepList, Grown, DenoteList, Detached, AllFit, Denote, Proper;
    built := n;
    if item == NULL { return NULL, built; }
    ghost var m := h.mem;
    var newitem;
    newitem, built := DuplicateItem(h, item, n);
    if newitem == NULL { return NULL, built; }
    DetachedFacts(m, h.mem, built);
    if !recurse { return newitem, built; }
    CopyNext(m, n, 0);
    KeepsNode(m, h.mem, Foot(built), n);
    var cptr := h.mem.cells[item].child;
    var nptr := NULL;
    ghost var i := 0;
    while cptr != NULL
      invariant i <= |n.kids| && cptr == PtrAt(n.kids, i) && newitem == built.p && nptr == LastKid(built)
      invariant AllFit(m, n.kids) && CopyOf(m, h.mem, n, built, i)
      invariant h.failed == old(h.failed)
      decreases |n.kids| - i
    {
      KidKept(m, h.mem, n, built, i);
      DetachedFacts(m, h.mem, built);
      ghost var m1 := h.mem;
      ghost var c;
      var newchild;
      newchild, c := Duplicate(h, cptr, true, n.kids[i]);
      if newchild == NULL {
        Discard(h, newitem, m, built);
        return NULL, built;
      }
      ghost var m2 := h.mem;
      CopyKid(m, m1, m2, n, built, i, c);
      LinkChild(h, newitem, nptr, newchild);
      built := WithKid(built, c);
      nptr := newchild;
      assert LastKid(built) == newchild;
      KidKept(m, h.mem, n, built, i);
      CopyNext(m, n, i);
      cptr := h.mem.cells[cptr].next;
      i := i + 1;
    }
    CopyNext(m, n, i);
    CopyDenotes(m, h.mem, n, built);
    DetachedFacts(m, h.mem, built);
    r := newitem;
  }

  /** Crosswires a new child behind the last one, or makes it the first. */
  method LinkChild(h: Heap, par: Ptr, last: Ptr, c: Ptr)
    requires h.mem.Valid() && par in h.mem.cells && c in h.mem.cells && (last != NULL ==> last in h.mem.cells)
    modifies h`mem
    ensures h.mem.Valid() && h.mem == Attached(old(h.mem), par, last, c)
  {
    if last != NULL {
      h.SetCell(last, h.mem.cells[last].(next := c));
      h.SetCell(c, h.mem.cells[c].(prev := last));
    } else {
      h.SetCell(par, h.mem.cells[par].(child := c));
    }
  }
}
