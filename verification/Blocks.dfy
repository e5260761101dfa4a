/** Blocks a function allocates for itself, and what they leave behind when they are freed. */
module Blocks {
  import opened Bytes
  import opened CHeap
  import opened Items

  /** m is m0 with the additional blocks s. */
  ghost predicate Scratch(m0: Store, m: Store, s: set<Ptr>) {
    && m0.Valid() && m.Valid() && s !! m0.Live() && m.Live() == m0.Live() + s && Remove(m, s) == m0
  }

  lemma ScratchSelf(m: Store)
    requires m.Valid()
    ensures Scratch(m, m, {})
  {
    RemoveNone(m);
  }

  lemma ScratchGone(m0: Store, m: Store)
    requires Scratch(m0, m, {})
    ensures m == m0
  {
    RemoveNone(m);
  }

  lemma ScratchBuffer(m0: Store, m: Store, s: set<Ptr>, p: Ptr, buf: bytes)
    requires Scratch(m0, m, s) && p != NULL && p !in m.Live()
    ensures Scratch(m0, WithBuffer(m, p, buf), s + {p})
  {
    var m' := WithBuffer(m, p, buf);
    var r := Remove(m', s + {p});
    assert r.bufs == Remove(m, s).bufs;
    assert r.cells == Remove(m, s).cells;
    assert r.vecs == Remove(m, s).vecs;
  }

  lemma ScratchWrite(m0: Store, m: Store, s: set<Ptr>, p: Ptr, buf: bytes)
    requires Scratch(m0, m, s) && p in s && p in m.bufs
    ensures Scratch(m0, WithBuffer(m, p, buf), s)
  {
    var m' := WithBuffer(m, p, buf);
    assert m'.Live() == m.Live();
    assert Remove(m', s).bufs == Remove(m, s).bufs;
  }

  lemma ScratchVec(m0: Store, m: Store, s: set<Ptr>, p: Ptr, ps: seq<Ptr>)
    requires Scratch(m0, m, s) && p != NULL && p !in m.Live()
    ensures Scratch(m0, WithVec(m, p, ps), s + {p})
  {
    var m' := WithVec(m, p, ps);
    var r := Remove(m', s + {p});
    assert r.bufs == Remove(m, s).bufs;
    assert r.cells == Remove(m, s).cells;
    assert r.vecs == Remove(m, s).vecs;
  }

  lemma ScratchVecWrite(m0: Store, m: Store, s: set<Ptr>, p: Ptr, ps: seq<Ptr>)
    requires Scratch(m0, m, s) && p in s && p in m.vecs
    ensures Scratch(m0, WithVec(m, p, ps), s)
  {
    var m' := WithVec(m, p, ps);
    assert m'.Live() == m.Live();
    assert Remove(m', s).vecs == Remove(m, s).vecs;
  }

  lemma ScratchFree(m0: Store, m: Store, s: set<Ptr>, p: Ptr)
    requires Scratch(m0, m, s) && p in s
    ensures p in m.Live() && Scratch(m0, Remove(m, {p}), s - {p})
  {
    RemoveTwice(m, {p}, s - {p});
    assert {p} + (s - {p}) == s;
  }

  /** One block is left: a new buffer. */
  lemma ScratchOne(m0: Store, m: Store, p: Ptr)
    requires Scratch(m0, m, {p}) && p in m.bufs
    ensures p != NULL && p !in m0.Live() && m == WithBuffer(m0, p, m.bufs[p])
  {
    var r := WithBuffer(m0, p, m.bufs[p]);
    assert p in m.Live();
    assert r.bufs == m.bufs;
    assert r.cells == m.cells by { assert p !in m.cells; }
    assert r.vecs == m.vecs by { assert p !in m.vecs; }
  }

  /** The trees that were there are still there. */
  lemma ScratchNode(m0: Store, m: Store, s: set<Ptr>, n: Node)
    requires Scratch(m0, m, s) && NodeFits(m0, n) && Sep(n)
    ensures NodeFits(m, n) && Denote(m, n) == Denote(m0, n) && Proper(m, n) == Proper(m0, n)
    ensures NameAt(m, n.nm) == NameAt(m0, n.nm) && TextAt(m, n.nm) == TextAt(m0, n.nm)
      && TextAt(m, n.vs) == TextAt(m0, n.vs)
    ensures n.p in m.cells && n.p in m0.cells && m.cells[n.p] == m0.cells[n.p]
  {
    hide Sep, Foot, Denote, Proper, CString;
    ScratchAgrees(m0, m, s);
    FootLive(m0, n);
    Unfold(n);
    NodeLive(m0, n);
    assert Agree(m0, m, Foot(n));
    hide NodeFits;
    FrameNode(m0, m, n);
    Fields(m0, n);
    assert n.nm != NULL ==> n.nm in Foot(n);
    assert n.vs != NULL ==> n.vs in Foot(n);
  }

  /** So are the lists. */
  lemma ScratchList(m0: Store, m: Store, s: set<Ptr>, first: Ptr, before: Ptr, ns: seq<Node>)
    requires Scratch(m0, m, s) && ListFits(m0, first, before, ns) && SepList(ns)
    ensures ListFits(m, first, before, ns)
  {
    hide Sep, Foot, FootList, Denote, Proper, CString, NodeFits, SepList, DenoteList;
    ScratchAgrees(m0, m, s);
    ListLive(m0, ns);
    assert Agree(m0, m, FootList(ns));
    FrameList(m0, m, ns);
    LinkedSame(m0, m, first, before, ns);
  }

  lemma ScratchAgrees(m0: Store, m: Store, s: set<Ptr>)
    requires Scratch(m0, m, s)
    ensures Agree(m0, m, m0.Live())
  {
    forall p | p in m0.Live()
      ensures (p in m0.cells <==> p in m.cells) && (p in m0.cells ==> m0.cells[p] == m.cells[p])
      ensures (p in m0.bufs <==> p in m.bufs) && (p in m0.bufs ==> m0.bufs[p] == m.bufs[p])
    {
      assert p !in s;
      assert p in m0.cells <==> p in Remove(m, s).cells;
      assert p in m0.bufs <==> p in Remove(m, s).bufs;
    }
  }

  // ----- arrays of strings -----

  /** The blocks a char** holds. */
  ghost function PtrSet(es: seq<Ptr>): set<Ptr> {
    set p | p in es && p != NULL
  }

  predicate Distinct(es: seq<Ptr>) {
    forall i, j | 0 <= i < j < |es| :: es[i] != NULL ==> es[i] != es[j]
  }

  predicate NullFrom(es: seq<Ptr>, i: nat) {
    forall k | i <= k < |es| :: es[k] == NULL
  }

  /** A buffer with the given text. */
  ghost predicate Entry(m: Store, p: Ptr, text: bytes) {
    p != NULL && p in m.bufs && NUL in m.bufs[p] && CString(m.bufs[p]) == text
  }

  /** The elements from i to j are buffers with the given texts. */
  ghost predicate Entries(m: Store, es: seq<Ptr>, ts: seq<bytes>, i: nat, j: nat) {
    j <= |es| && j <= |ts| && forall k | i <= k < j :: Entry(m, es[k], ts[k])
  }

  lemma EntriesNone(m: Store, es: seq<Ptr>, ts: seq<bytes>)
    ensures Entries(m, es, ts, 0, 0)
  {
  }

  lemma PtrSetNone(n: nat)
    ensures PtrSet(seq(n, _ => NULL)) == {} && Distinct(seq(n, _ => NULL))
  {
  }

  lemma PtrSetNext(es: seq<Ptr>, k: nat)
    requires Distinct(es) && k < |es|
    ensures PtrSet(es[k..]) == Block(es[k]) + PtrSet(es[k + 1..])
    ensures es[k] != NULL ==> es[k] !in PtrSet(es[k + 1..])
    ensures PtrSet(es[k..]) <= PtrSet(es)
  {
    var t, t' := es[k..], es[k + 1..];
    forall p ensures p in PtrSet(t) <==> p in Block(es[k]) + PtrSet(t') {
      if p in PtrSet(t) {
        var j :| 0 <= j < |t| && t[j] == p;
        if j > 0 { assert t'[j - 1] == p; } else { assert p == es[k]; }
      }
      if p in PtrSet(t') {
        var j :| 0 <= j < |t'| && t'[j] == p;
        assert t[j + 1] == p;
      }
      if p in Block(es[k]) { assert t[0] == p; }
    }
  }

  /** Storing a pointer in an element that was null. */
  lemma PtrSetStore(es: seq<Ptr>, i: nat, p: Ptr)
    requires Distinct(es) && i < |es| && NullFrom(es, i) && p !in PtrSet(es)
    ensures PtrSet(es[i := p]) == PtrSet(es) + Block(p) && Distinct(es[i := p]) && NullFrom(es[i := p], i + 1)
  {
    var es' := es[i := p];
    forall q ensures q in PtrSet(es') <==> q in PtrSet(es) + Block(p) {
      if q in PtrSet(es') {
        var j :| 0 <= j < |es'| && es'[j] == q;
        if j != i { assert es[j] == q; }
      }
      if q in PtrSet(es) {
        var j :| 0 <= j < |es| && es[j] == q;
        assert es'[j] == q;
      }
      assert es'[i] == p;
    }
    forall j, k | 0 <= j < k < |es'| ensures es'[j] != NULL ==> es'[j] != es'[k] {
      if j == i || k == i {
        if j < i { assert es[j] != NULL ==> es[j] in PtrSet(es); }
      } else {
        assert es'[j] == es[j] && es'[k] == es[k];
      }
    }
  }

  /** Changes to other blocks do not matter. */
  lemma EntriesKept(m: Store, m': Store, es: seq<Ptr>, ts: seq<bytes>, i: nat, j: nat, ps: set<Ptr>)
    requires Entries(m, es, ts, i, j)
    requires forall p | p in m.bufs && p !in ps :: p in m'.bufs && m'.bufs[p] == m.bufs[p]
    requires forall k | i <= k < j :: es[k] != NULL ==> es[k] !in ps
    ensures Entries(m', es, ts, i, j)
  {
    hide CString;
  }

  /** free of one element, if it is not null. */
  method FreeElement(h: Heap, p: Ptr, ghost m0: Store, ghost s: set<Ptr>)
    requires Scratch(m0, h.mem, s) && (p != NULL ==> p in s)
    modifies h`mem
    ensures Scratch(m0, h.mem, s - Block(p)) && h.mem == Remove(old(h.mem), Block(p))
  {
    hide Scratch;
    if p != NULL {
      ScratchFree(m0, h.mem, s, p);
      ScratchFacts(m0, h.mem, s);
      h.Free(p);
    } else {
      RemoveNone(h.mem);
      assert s - {} == s;
    }
  }

  lemma ScratchFacts(m0: Store, m: Store, s: set<Ptr>)
    requires Scratch(m0, m, s)
    ensures m0.Valid() && m.Valid() && s <= m.Live() && NULL !in s && s !! m0.Live() && m.Live() == m0.Live() + s
  {
  }
}
