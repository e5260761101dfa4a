/** The list edits are determined: what is proved of each of them leaves one store only. */
module ListOutcome {
  import opened Bytes
  import opened CHeap
  import opened Items
  import opened ListEdit
  import opened ListLookup
  import opened ListReplace

  predicate Listed(ns: seq<Node>, p: Ptr) {
    exists i :: 0 <= i < |ns| && p == ns[i].p
  }

  /** Two edits of the same store that lead to the same list of children, and leave the same links in the
      edited items outside it, are the same. */
  lemma SameEdit(m: Store, m1: Store, m2: Store, par: Node, ns': seq<Node>, ps: set<Ptr>)
    requires Rewired(m, m1, par.p, ps) && Rewired(m, m2, par.p, ps)
    requires NodeFits(m1, par.(kids := ns')) && NodeFits(m2, par.(kids := ns'))
    requires forall p | p in ps && p in m1.cells && p in m2.cells ::
      Listed(ns', p) || (m1.cells[p].next == m2.cells[p].next && m1.cells[p].prev == m2.cells[p].prev)
    ensures m1 == m2
  {
    hide NodeFits;
    Fields(m1, par.(kids := ns'));
    Fields(m2, par.(kids := ns'));
    assert m1.cells == m2.cells by {
      forall p | p in m.cells ensures m1.cells[p] == m2.cells[p] {
        if i :| 0 <= i < |ns'| && p == ns'[i].p {
        }
      }
    }
  }

  lemma InsertedListed(ns: seq<Node>, k: nat, c: Node, ps: set<Ptr>)
    requires k <= |ns| && ps == {c.p} + Block(PtrAt(ns, k - 1)) + Block(PtrAt(ns, k))
    ensures forall p | p in ps :: Listed(InsertAt(ns, k, c), p)
  {
    var t := InsertAt(ns, k, c);
    InsertedAt(ns, k, c);
    hide InsertAt;
    assert t[k].p == c.p;
    assert k > 0 ==> t[k - 1].p == ns[k - 1].p;
    assert k < |ns| ==> t[k + 1].p == ns[k].p;
  }

  lemma AppendedListed(ns: seq<Node>, c: Node, ps: set<Ptr>)
    requires ps == {c.p} + Block(PtrAt(ns, |ns| - 1))
    ensures forall p | p in ps :: Listed(ns + [c], p)
  {
    var t := ns + [c];
    assert t[|ns|].p == c.p;
    assert |ns| > 0 ==> t[|ns| - 1].p == ns[|ns| - 1].p;
  }

  lemma RemovedListed(ns: seq<Node>, k: nat, ps: set<Ptr>)
    requires k < |ns| && ps == Block(PtrAt(ns, k - 1)) + Block(PtrAt(ns, k + 1))
    ensures forall p | p in ps :: Listed(RemoveAt(ns, k), p)
  {
    var t := RemoveAt(ns, k);
    RemovedAt(ns, k);
    hide RemoveAt;
    assert k > 0 ==> t[k - 1].p == ns[k - 1].p;
    assert k + 1 < |ns| ==> t[k].p == ns[k + 1].p;
  }

  lemma ReplacedListed(ns: seq<Node>, k: nat, c: Node, ps: set<Ptr>)
    requires k < |ns| && ps == {c.p} + Block(PtrAt(ns, k - 1)) + Block(PtrAt(ns, k + 1))
    ensures forall p | p in ps :: Listed(ns[k := c], p)
  {
    var t := ns[k := c];
    assert t[k].p == c.p;
    assert k > 0 ==> t[k - 1].p == ns[k - 1].p;
    assert k + 1 < |ns| ==> t[k + 1].p == ns[k + 1].p;
  }

  /** What is said of an edit leaves one store only: an insertion, */
  lemma InsertsOnce(m: Store, m1: Store, m2: Store, par: Node, k: nat, c: Node)
    requires k <= |par.kids| && Inserts(m, m1, par, k, c) && Inserts(m, m2, par, k, c)
    ensures m1 == m2
  {
    hide NodeFits, Sep, Foot, DenoteList, AllFit, AllProper, Rewired, InsertAt, PtrAt, Block, Listed;
    var ps := {c.p} + Block(PtrAt(par.kids, k - 1)) + Block(PtrAt(par.kids, k));
    InsertedListed(par.kids, k, c, ps);
    SameEdit(m, m1, m2, par, InsertAt(par.kids, k, c), ps);
  }

  /** a detach, */
  lemma DetachesOnce(m: Store, m1: Store, m2: Store, par: Node, k: nat)
    requires k < |par.kids| && Detaches(m, m1, par, k) && Detaches(m, m2, par, k)
    ensures m1 == m2
  {
    hide NodeFits, Sep, Foot, Denote, DenoteList, AllFit, AllProper, Proper, Rewired, RemoveAt, PtrAt, Block, Listed;
    var ps := Block(PtrAt(par.kids, k - 1)) + Block(PtrAt(par.kids, k + 1));
    RemovedListed(par.kids, k, ps);
    assert {par.kids[k].p} + Block(PtrAt(par.kids, k - 1)) + Block(PtrAt(par.kids, k + 1)) == ps + {par.kids[k].p};
    SameEdit(m, m1, m2, par, RemoveAt(par.kids, k), ps + {par.kids[k].p});
  }

  /** deleting a child, */
  lemma DeletesOnce(m: Store, m1: Store, m2: Store, par: Node, k: nat)
    requires k < |par.kids| && Deletes(m, m1, par, k) && Deletes(m, m2, par, k)
    ensures m1 == m2
  {
    hide NodeFits, Sep, Foot, Denote, DenoteList, AllFit, AllProper, Rewired, RemoveAt, Remove, Agree, PtrAt, Block,
      Listed;
    var ps := Block(PtrAt(par.kids, k - 1)) + Block(PtrAt(par.kids, k + 1));
    RemovedListed(par.kids, k, ps);
    SameEdit(Remove(m, Foot(par.kids[k])), m1, m2, par, RemoveAt(par.kids, k), ps);
  }

  /** replacing one, */
  lemma ReplacesOnce(m: Store, m1: Store, m2: Store, par: Node, k: nat, c: Node)
    requires k < |par.kids| && Replaces(m, m1, par, k, c) && Replaces(m, m2, par, k, c)
    ensures m1 == m2
  {
    hide NodeFits, Sep, Foot, Denote, DenoteList, AllFit, AllProper, Rewired, Remove, Agree, PtrAt, Block, Listed;
    var ps := {c.p} + Block(PtrAt(par.kids, k - 1)) + Block(PtrAt(par.kids, k + 1));
    ReplacedListed(par.kids, k, c, ps);
    SameEdit(Remove(m, Foot(par.kids[k])), m1, m2, par, par.kids[k := c], ps);
  }

  /** adding a named member, */
  lemma NamedOnce(m: Store, m1: Store, m2: Store, par: Node, c: Node, p: Ptr, text: bytes)
    requires Named(m, m1, par, c, p, text) && Named(m, m2, par, c, p, text)
    ensures m1 == m2
  {
    var ns, c' := par.kids, c.(nm := p);
    var ps := {c.p} + Block(PtrAt(ns, |ns| - 1));
    hide NodeFits, Sep, Foot, Denote, DenoteList, AllFit, AllProper, Proper, Rewired, WithName, Agree, PtrAt, Block,
      Listed, NameAt;
    AppendedListed(ns, c', ps);
    SameEdit(WithName(m, c, p, text), m1, m2, par, ns + [c'], ps);
  }

  /** and replacing a member by name. */
  lemma SubstitutesOnce(m: Store, m1: Store, m2: Store, par: Node, k: nat, c: Node, p: Ptr, text: bytes)
    requires k < |par.kids| && Substitutes(m, m1, par, k, c, p, text) && Substitutes(m, m2, par, k, c, p, text)
    ensures m1 == m2
  {
    hide NodeFits, Sep, Foot, Denote, DenoteList, AllFit, AllProper, Proper, Rewired, Remove, Relabel, Agree, ChainSet,
      NameAt, PtrAt, Block, Listed;
    var ps := {c.p} + Block(PtrAt(par.kids, k - 1)) + Block(PtrAt(par.kids, k + 1));
    ReplacedListed(par.kids, k, c.(nm := p), ps);
    var m0 := Remove(Relabel(m, c.p, m.cells[c.p], p, text), Foot(par.kids[k]));
    SameEdit(m0, m1, m2, par, par.kids[k := c.(nm := p)], ps);
  }
}
