/** The steps of the printer without buffer: texts of leaves, and the output of a container composed from
    the texts of its children, which are freed on the way. */
module Compose {
  import opened Bytes
  import opened Literal
  import opened Json
  import opened CHeap
  import opened Items
  import opened Ownership
  import opened Writer
  import opened Blocks
  import opened Joining

  /** A new block holds the text, and nothing else changed. */
  ghost predicate Printed(m0: Store, m: Store, out: Ptr, text: bytes) {
    && out != NULL && out !in m0.Live() && m.Valid() && out in m.bufs
    && m == WithBuffer(m0, out, m.bufs[out]) && CString(m.bufs[out]) == text && NUL in m.bufs[out]
  }

  lemma PrintedFacts(m0: Store, m: Store, out: Ptr, text: bytes)
    requires Printed(m0, m, out, text)
    ensures m.Valid() && out in m.bufs && CString(m.bufs[out]) == text && m.cells == m0.cells && m.vecs == m0.vecs
  {
    hide CString;
  }

  /** A buffer of the given size with a short text, by malloc and strcpy. */
  method NewText(h: Heap, size: nat, text: bytes) returns (out: Ptr)
    requires h.mem.Valid() && NulFree(text) && |text| + 1 <= size
    modifies h
    ensures h.mem.Valid()
    ensures out == NULL ==> h.mem == old(h.mem) && h.failed
    ensures out != NULL ==> h.failed == old(h.failed) && Printed(old(h.mem), h.mem, out, text)
  {
    hide Writing, CString;
    out := h.Malloc(size);
    if out != NULL {
      ghost var m := h.mem;
      WritingNothing(m, out, 0);
      assert [] + (text + [NUL]) == text + [NUL];
      Put(h, out, 0, text + [NUL], m, 0, []);
      FinishText(old(h.mem), m, h.mem, out, text);
    }
  }

  /** The new buffer was written from its start. */
  lemma FinishText(m0: Store, m: Store, m': Store, out: Ptr, text: bytes)
    requires m0.Valid() && m'.Valid() && out != NULL && out !in m0.Live() && out in m.bufs
    requires m == WithBuffer(m0, out, m.bufs[out]) && NulFree(text) && Writing(m, m', out, 0, text + [NUL])
    ensures Printed(m0, m', out, text)
  {
    hide CString;
    WritingFacts(m, m', out, 0, text + [NUL]);
    WrittenString(m, m', out, 0, text);
    assert m'.bufs[out][0..] == m'.bufs[out];
    WithBufferTwice(m0, out, m.bufs[out], m'.bufs[out]);
  }

  /** print_number for the numbers that print with "%d", and zero. */
  method PrintNumber(h: Heap, whole: int, num: Decimal) returns (out: Ptr)
    requires h.mem.Valid() && Printable(Number(num)) && Converted(whole, num)
    modifies h
    ensures h.mem.Valid()
    ensures out == NULL ==> h.mem == old(h.mem) && h.failed
    ensures out != NULL ==> h.failed == old(h.failed)
    ensures out != NULL ==> Printed(old(h.mem), h.mem, out, Print(Number(num), 0, false))
  {
    hide Printed, IntText, Converted;
    if num.mant == 0 {
      out := NewText(h, 2, [DIGIT_0]);
    } else {
      ConvertedWhole(whole, num);
      IntTextFits(whole);
      out := NewText(h, 21, IntText(whole));
    }
  }

  /** print_string_ptr: the fast path when nothing needs escaping, else measure and escape. */
  method PrintString(h: Heap, text: bytes) returns (out: Ptr)
    requires h.mem.Valid() && NulFree(text)
    modifies h
    ensures h.mem.Valid()
    ensures out == NULL ==> h.mem == old(h.mem) && h.failed
    ensures out != NULL ==> h.failed == old(h.failed) && Printed(old(h.mem), h.mem, out, Quoted(text))
  {
    hide Writing, Printed, Quoted, CString;
    var flag := NeedsEscaping(text);
    if !flag {
      out := h.Malloc(|text| + 3);
      if out == NULL { return; }
      ghost var m := h.mem;
      PutPlain(h, out, 0, text);
      EscapeNulFree(text);
      FinishText(old(h.mem), m, h.mem, out, Quoted(text));
    } else {
      var len := MeasureText(text);
      out := h.Malloc(len + 3);
      if out == NULL { return; }
      ghost var m := h.mem;
      PutQuoted(h, out, 0, text);
      EscapeNulFree(text);
      FinishText(old(h.mem), m, h.mem, out, Quoted(text));
    }
  }

  // ----- composing the output of a container -----

  /** The output buffer has len characters and starts with w. */
  ghost predicate Begun(m: Store, out: Ptr, len: nat, w: bytes) {
    out in m.bufs && |m.bufs[out]| == len && |w| <= len && forall k | 0 <= k < |w| :: m.bufs[out][k] == w[k]
  }

  /** The next characters of the output, with a terminator behind them where the code writes one. */
  method Extend(h: Heap, out: Ptr, ptr: nat, s: bytes, terminated: bool, ghost len: nat, ghost w: bytes,
                ghost m0: Store, ghost scratch: set<Ptr>)
    returns (ptr': nat)
    requires Scratch(m0, h.mem, scratch) && out in scratch
    requires Begun(h.mem, out, len, w) && ptr == |w| && |w| + |s| + (if terminated then 1 else 0) <= len
    modifies h`mem
    ensures Scratch(m0, h.mem, scratch) && Begun(h.mem, out, len, w + s) && ptr' == |w + s|
    ensures terminated ==> Begun(h.mem, out, len, w + s + [NUL])
    ensures out in old(h.mem).bufs && out in h.mem.bufs && h.mem == WithBuffer(old(h.mem), out, h.mem.bufs[out])
  {
    hide Scratch, Overwrite;
    ScratchFacts(m0, h.mem, scratch);
    ghost var m := h.mem;
    var t := if terminated then s + [NUL] else s;
    ScratchWrite(m0, m, scratch, out, Overwrite(m.bufs[out], ptr, t));
    WithBufferTwice(m, out, m.bufs[out], Overwrite(m.bufs[out], ptr, t));
    BegunMore(m.bufs[out], w, s, terminated);
    h.Copy(out, ptr, t);
    ptr' := ptr + |s|;
  }

  lemma BegunMore(buf: bytes, w: bytes, s: bytes, terminated: bool)
    requires |w| + |s| + (if terminated then 1 else 0) <= |buf| && forall k | 0 <= k < |w| :: buf[k] == w[k]
    ensures var buf' := Overwrite(buf, |w|, if terminated then s + [NUL] else s);
      && (forall k | 0 <= k < |w + s| :: buf'[k] == (w + s)[k]) && (terminated ==> buf'[|w + s|] == NUL)
  {
  }
  /** The output is complete: it is the C string written. */
  lemma BegunDone(m0: Store, m: Store, out: Ptr, len: nat, w: bytes)
    requires Scratch(m0, m, {out}) && Begun(m, out, len, w + [NUL]) && NulFree(w)
    ensures Printed(m0, m, out, w)
  {
    hide CString, Scratch;
    var buf := m.bufs[out];
    ScratchOne(m0, m, out);
    ScratchFacts(m0, m, {out});
    assert (w + [NUL])[|w|] == NUL == buf[|w|];
    assert buf[..|w|] == w by { forall k | 0 <= k < |w| ensures buf[k] == w[k] { assert (w + [NUL])[k] == w[k]; } }
    CStringIs(buf, w);
  }

  // ----- children -----

  /** Counting the entries of a list. */
  method CountItems(h: Heap, first: Ptr, ghost before: Ptr, ghost ns: seq<Node>) returns (count: nat)
    requires ListFits(h.mem, first, before, ns)
    ensures count == |ns|
  {
    hide NodeFits;
    var child := first;
    count := 0;
    ItemsLive(h.mem, ns);
    while child != NULL
      invariant count <= |ns| && child == PtrAt(ns, count)
      decreases |ns| - count
    {
      count := count + 1;
      child := h.mem.cells[child].next;
    }
  }

  /** Everything the printers need of a list of children. */
  ghost predicate Listed(m: Store, first: Ptr, ns: seq<Node>, named: bool) {
    && ListFits(m, first, NULL, ns) && SepList(ns) && AllProper(m, ns) && PrintableItems(DenoteList(m, ns), named)
  }

  lemma ListedKids(m: Store, n: Node)
    requires NodeFits(m, n) && Sep(n) && Proper(m, n) && Printable(Denote(m, n)) && n.p in m.cells
    requires m.cells[n.p].kind == KArray || m.cells[n.p].kind == KObject
    ensures Listed(m, m.cells[n.p].child, n.kids, m.cells[n.p].kind == KObject)
    ensures Denote(m, n)
      == if m.cells[n.p].kind == KObject then Object(DenoteList(m, n.kids)) else Array(DenoteList(m, n.kids))
  {
    hide Foot, FootList, NodeFits, Sep, SepList, Denote, DenoteList, Proper, AllProper, AllFit, TextAt, Linked, OwnSep;
    DenoteIs(m, n);
    Fields(m, n);
    Unfold(n);
  }

  /** The texts of a list of children, one by one. */
  lemma {:induction false} TextsAt(m: Store, ns: seq<Node>, named: bool, depth: nat, fmt: bool, k: nat)
    requires AllFit(m, ns) && PrintableItems(DenoteList(m, ns), named) && k < |ns|
    ensures |Texts(DenoteList(m, ns), named, depth, fmt)| == |ns|
    ensures Printable(Denote(m, ns[k]))
    ensures Texts(DenoteList(m, ns), named, depth, fmt)[k] == Print(Denote(m, ns[k]), depth, fmt)
    ensures named ==> |Keys(DenoteList(m, ns))| == |ns| && NameAt(m, ns[k].nm).Named?
    ensures named ==> Keys(DenoteList(m, ns))[k] == Quoted(TextAt(m, ns[k].nm))
    decreases |ns|
  {
    hide NodeFits, Denote, Print, Quoted, TextAt;
    var ns' := ns[1..];
    assert AllFit(m, ns');
    if k > 0 { TextsAt(m, ns', named, depth, fmt, k - 1); assert ns'[k - 1] == ns[k]; }
    if |ns| > 1 && k == 0 { TextsAt(m, ns', named, depth, fmt, 0); }
    if |ns| == 1 { assert ns' == []; }
  }

  lemma ListedFacts(m: Store, first: Ptr, ns: seq<Node>, named: bool)
    requires Listed(m, first, ns, named)
    ensures AllFit(m, ns) && PrintableItems(DenoteList(m, ns), named)
  {
    hide NodeFits;
  }

  lemma ListedNotNull(m: Store, first: Ptr, ns: seq<Node>, named: bool)
    requires Listed(m, first, ns, named)
    ensures forall i | 0 <= i < |ns| :: ns[i].p != NULL
  {
    hide Denote, DenoteList;
    ItemsLive(m, ns);
  }

  lemma ListedCount(m: Store, first: Ptr, ns: seq<Node>, named: bool, depth: nat, fmt: bool)
    requires Listed(m, first, ns, named)
    ensures first == PtrAt(ns, 0) && |Texts(DenoteList(m, ns), named, depth, fmt)| == |ns|
    ensures named ==> |Keys(DenoteList(m, ns))| == |ns|
  {
    hide NodeFits, Denote;
    if ns != [] { TextsAt(m, ns, named, depth, fmt, 0); }
  }

  /** One child, unfolded. */
  lemma ListedAt(m0: Store, m: Store, s: set<Ptr>, first: Ptr, ns: seq<Node>, named: bool, depth: nat, fmt: bool,
                 k: nat)
    requires Scratch(m0, m, s) && Listed(m0, first, ns, named) && k < |ns|
    ensures NodeFits(m, ns[k]) && Sep(ns[k]) && Proper(m, ns[k]) && Printable(Denote(m, ns[k]))
    ensures ns[k].p in m.cells && ns[k].p != NULL && m.cells[ns[k].p].next == PtrAt(ns, k + 1)
    ensures |Texts(DenoteList(m0, ns), named, depth, fmt)| == |ns|
    ensures Texts(DenoteList(m0, ns), named, depth, fmt)[k] == Print(Denote(m, ns[k]), depth, fmt)
    ensures named ==> |Keys(DenoteList(m0, ns))| == |ns|
    ensures named ==> ns[k].nm != NULL && m.cells[ns[k].p].name == ns[k].nm && ns[k].nm in m.bufs
    ensures named ==> Keys(DenoteList(m0, ns))[k] == Quoted(CString(m.bufs[ns[k].nm]))
  {
    hide NodeFits, Sep, Foot, Denote, Print, Quoted, Proper, CString, Keys, Texts, DenoteList, Scratch, SepList;
    ListedOne(m0, first, ns, named, k);
    TextsAt(m0, ns, named, depth, fmt, k);
    ScratchNode(m0, m, s, ns[k]);
    Fields(m, ns[k]);
  }

  lemma ListedOne(m: Store, first: Ptr, ns: seq<Node>, named: bool, k: nat)
    requires Listed(m, first, ns, named) && k < |ns|
    ensures var c := ns[k];
      NodeFits(m, c) && Sep(c) && Proper(m, c) && c.p in m.cells && c.p != NULL && m.cells[c.p].next == PtrAt(ns, k + 1)
  {
    hide Foot, FootList, Denote, DenoteList, Proper, Sep;
    Fields(m, ns[k]);
  }

  // ----- the entries of an array -----

  ghost predicate Vec(m: Store, v: Ptr, es: seq<Ptr>) {
    v in m.vecs && m.vecs[v] == es
  }

  /** The first i children are printed into the elements of v; own are the other blocks in use. */
  ghost predicate Gathered(m0: Store, m: Store, own: set<Ptr>, v: Ptr, es: seq<Ptr>, i: nat) {
    && v in own && Vec(m, v, es) && Distinct(es) && NullFrom(es, i) && own !! PtrSet(es)
    && Scratch(m0, m, own + PtrSet(es))
  }

  /** A block that holds a new text, or null and nothing new. */
  ghost predicate MaybePrinted(m0: Store, m: Store, out: Ptr, text: bytes) {
    if out == NULL then m == m0 else Printed(m0, m, out, text)
  }

  lemma ScratchPrinted(m0: Store, m: Store, m': Store, s: set<Ptr>, p: Ptr, t: bytes)
    requires Scratch(m0, m, s) && MaybePrinted(m, m', p, t)
    ensures Scratch(m0, m', s + Block(p)) && m'.vecs == m.vecs && (p != NULL ==> p !in m.Live() && Entry(m', p, t))
    ensures forall q | q in m.bufs :: q in m'.bufs && m'.bufs[q] == m.bufs[q]
  {
    hide Scratch, CString;
    if p == NULL {
      assert s + {} == s;
    } else {
      ScratchBuffer(m0, m, s, p, m'.bufs[p]);
    }
  }

  /** The text of one more child is recorded. */
  lemma GatherNext(m0: Store, m: Store, m': Store, own: set<Ptr>, v: Ptr, es: seq<Ptr>, i: nat, p: Ptr, t: bytes)
    requires Gathered(m0, m, own, v, es, i) && i < |es| && MaybePrinted(m, m', p, t)
    ensures Vec(m', v, es) && Gathered(m0, WithVec(m', v, es[i := p]), own, v, es[i := p], i + 1)
    ensures m'.cells == m.cells
  {
    hide Scratch, CString, Distinct, NullFrom, PtrSet;
    var s := own + PtrSet(es);
    ScratchPrinted(m0, m, m', s, p, t);
    ScratchFacts(m0, m, s);
    NullNotIn(es);
    PtrSetStore(es, i, p);
    ScratchVecWrite(m0, m', s + Block(p), v, es[i := p]);
    assert s + Block(p) == own + PtrSet(es[i := p]);
  }

  lemma GatheredFacts(m0: Store, m: Store, own: set<Ptr>, v: Ptr, es: seq<Ptr>, i: nat)
    requires Gathered(m0, m, own, v, es, i)
    ensures Scratch(m0, m, own + PtrSet(es)) && m.Valid() && v in own && own !! PtrSet(es) && Vec(m, v, es)
      && Distinct(es)
  {
  }

  lemma GatheredAll(m0: Store, m: Store, own: set<Ptr>, v: Ptr, es: seq<Ptr>, i: nat)
    requires Gathered(m0, m, own, v, es, i) && i <= |es|
    ensures Gathered(m0, m, own, v, es, |es|)
  {
    hide Scratch;
  }

  lemma NoneGathered(m0: Store, m: Store, own: set<Ptr>, v: Ptr, n: nat)
    requires Scratch(m0, m, own) && v in own && Vec(m, v, seq(n, _ => NULL))
    ensures Gathered(m0, m, own, v, seq(n, _ => NULL), 0)
  {
    hide Scratch;
    PtrSetNone(n);
    assert own + {} == own;
  }

  lemma NullNotIn(es: seq<Ptr>)
    ensures NULL !in PtrSet(es)
  {
  }

  /** The texts gathered so far, after one more. */
  lemma EntriesNext(m: Store, m': Store, m'': Store, es: seq<Ptr>, ts: seq<bytes>, i: nat, p: Ptr)
    requires Entries(m, es, ts, 0, i) && i < |es| && i < |ts| && p != NULL && Printed(m, m', p, ts[i])
      && m''.bufs == m'.bufs
    ensures Entries(m'', es[i := p], ts, 0, i + 1)
  {
    hide CString;
    forall k | 0 <= k < i ensures Entry(m'', es[i := p][k], ts[k]) {
      assert Entry(m, es[k], ts[k]);
      assert es[k] in m.Live();
    }
  }

  /** Freeing what was gathered, after a failure. */
  method FreeEntries(h: Heap, v: Ptr, n: nat, ghost m0: Store, ghost own: set<Ptr>, ghost es: seq<Ptr>)
    requires v in own && Vec(h.mem, v, es) && |es| == n && Distinct(es) && own !! PtrSet(es)
    requires Scratch(m0, h.mem, own + PtrSet(es))
    modifies h`mem
    ensures Scratch(m0, h.mem, own)
  {
    hide Scratch, Distinct, PtrSet;
    assert es[0..] == es;
    for i := 0 to n
      invariant Vec(h.mem, v, es) && Scratch(m0, h.mem, own + PtrSet(es[i..]))
    {
      PtrSetNext(es, i);
      FreeElement(h, h.mem.vecs[v][i], m0, own + PtrSet(es[i..]));
      assert own + PtrSet(es[i..]) - Block(es[i]) == own + PtrSet(es[i + 1..]);
    }
    NothingLeft(es);
    assert own + {} == own;
  }

  lemma NothingLeft(es: seq<Ptr>)
    ensures PtrSet(es[|es|..]) == {}
  {
  }

  // ----- the names and values of an object -----

  /** The names and the values of a container occupy different blocks. */
  ghost predicate Apart(a: Ptr, b: Ptr, ns: seq<Ptr>, es: seq<Ptr>) {
    && a != b && Distinct(ns) && Distinct(es) && PtrSet(ns) !! PtrSet(es) && {a, b} !! PtrSet(ns)
    && {a, b} !! PtrSet(es)
  }

  /** The first i names are printed into the elements of a, and the first j values into those of b. */
  ghost predicate GatheredPair(m0: Store, m: Store, a: Ptr, b: Ptr, ns: seq<Ptr>, es: seq<Ptr>, i: nat, j: nat) {
    && Vec(m, a, ns) && Vec(m, b, es) && Apart(a, b, ns, es) && NullFrom(ns, i) && NullFrom(es, j)
    && Scratch(m0, m, {a, b} + PtrSet(ns) + PtrSet(es))
  }

  lemma PairFacts(m0: Store, m: Store, a: Ptr, b: Ptr, ns: seq<Ptr>, es: seq<Ptr>, i: nat, j: nat)
    requires GatheredPair(m0, m, a, b, ns, es, i, j)
    ensures Scratch(m0, m, {a, b} + PtrSet(ns) + PtrSet(es)) && m.Valid() && Vec(m, a, ns) && Vec(m, b, es) && a != b
  {
  }

  lemma PairSwap(m0: Store, m: Store, a: Ptr, b: Ptr, ns: seq<Ptr>, es: seq<Ptr>, i: nat, j: nat)
    requires GatheredPair(m0, m, a, b, ns, es, i, j)
    ensures GatheredPair(m0, m, b, a, es, ns, j, i)
  {
    hide Scratch, PtrSet, Distinct, NullFrom;
    assert {b, a} + PtrSet(es) + PtrSet(ns) == {a, b} + PtrSet(ns) + PtrSet(es);
  }

  /** The text of one more name is recorded. */
  lemma PairName(m0: Store, m: Store, m': Store, a: Ptr, b: Ptr, ns: seq<Ptr>, es: seq<Ptr>, i: nat, j: nat, p: Ptr,
                 t: bytes)
    requires GatheredPair(m0, m, a, b, ns, es, i, j) && i < |ns| && MaybePrinted(m, m', p, t)
    ensures Vec(m', a, ns) && GatheredPair(m0, WithVec(m', a, ns[i := p]), a, b, ns[i := p], es, i + 1, j)
    ensures m'.cells == m.cells
  {
    hide Scratch, CString, Distinct, NullFrom, PtrSet;
    var s := {a, b} + PtrSet(ns) + PtrSet(es);
    ScratchPrinted(m0, m, m', s, p, t);
    ScratchFacts(m0, m, s);
    NullNotIn(ns);
    NullNotIn(es);
    PtrSetStore(ns, i, p);
    ScratchVecWrite(m0, m', s + Block(p), a, ns[i := p]);
    assert s + Block(p) == {a, b} + PtrSet(ns[i := p]) + PtrSet(es);
  }

  /** The text of one more value is recorded. */
  lemma PairValue(m0: Store, m: Store, m': Store, a: Ptr, b: Ptr, ns: seq<Ptr>, es: seq<Ptr>, i: nat, j: nat, p: Ptr,
                  t: bytes)
    requires GatheredPair(m0, m, a, b, ns, es, i, j) && j < |es| && MaybePrinted(m, m', p, t)
    ensures Vec(m', b, es) && GatheredPair(m0, WithVec(m', b, es[j := p]), a, b, ns, es[j := p], i, j + 1)
    ensures m'.cells == m.cells
  {
    hide GatheredPair, MaybePrinted;
    PairSwap(m0, m, a, b, ns, es, i, j);
    PairName(m0, m, m', b, a, es, ns, j, i, p, t);
    PairSwap(m0, WithVec(m', b, es[j := p]), b, a, es[j := p], ns, j + 1, i);
  }

  /** The name of a child is printed and recorded; the texts known so far are kept. */
  method StoreKey(h: Heap, a: Ptr, b: Ptr, i: nat, text: bytes, ghost m0: Store, ghost ns: seq<Ptr>, ghost es: seq<Ptr>)
    returns (str: Ptr)
    requires GatheredPair(m0, h.mem, a, b, ns, es, i, i) && i < |ns| && NulFree(text)
    modifies h
    ensures GatheredPair(m0, h.mem, a, b, ns[i := str], es, i + 1, i)
    ensures h.mem.cells == old(h.mem).cells
    ensures if str == NULL then h.failed else h.failed == old(h.failed)
    ensures forall ts | Entries(old(h.mem), es, ts, 0, i) :: str != NULL ==> Entries(h.mem, es, ts, 0, i)
    ensures forall ks | Entries(old(h.mem), ns, ks, 0, i) && i < |ks| && ks[i] == Quoted(text) ::
      str != NULL ==> Entries(h.mem, ns[i := str], ks, 0, i + 1)
    ensures str != NULL ==> str in h.mem.bufs && CString(h.mem.bufs[str]) == Quoted(text)
  {
    hide CString, Scratch, Distinct, NullFrom, PtrSet, Apart, Quoted, Entries;
    PairFacts(m0, h.mem, a, b, ns, es, i, i);
    ghost var m := h.mem;
    str := PrintString(h, text);
    ghost var m' := h.mem;
    PairName(m0, m, m', a, b, ns, es, i, i, str, Quoted(text));
    h.SetVec(a, i, str);
    if str != NULL {
      forall ts | Entries(m, es, ts, 0, i) ensures Entries(h.mem, es, ts, 0, i) {
        EntriesKept(m, h.mem, es, ts, 0, i, {});
      }
      forall ks | Entries(m, ns, ks, 0, i) && i < |ks| && ks[i] == Quoted(text)
        ensures Entries(h.mem, ns[i := str], ks, 0, i + 1)
      {
        EntriesNext(m, m', h.mem, ns, ks, i, str);
      }
    }
  }

  lemma NonePair(m0: Store, m: Store, a: Ptr, b: Ptr, n: nat)
    requires Scratch(m0, m, {a, b}) && a != b && Vec(m, a, seq(n, _ => NULL)) && Vec(m, b, seq(n, _ => NULL))
    ensures GatheredPair(m0, m, a, b, seq(n, _ => NULL), seq(n, _ => NULL), 0, 0)
  {
    hide Scratch;
    PtrSetNone(n);
    assert {a, b} + {} + {} == {a, b};
  }

  /** Freeing names and values, after a failure. */
  method FreePairs(h: Heap, a: Ptr, b: Ptr, n: nat, ghost m0: Store, ghost ns: seq<Ptr>, ghost es: seq<Ptr>)
    requires GatheredPair(m0, h.mem, a, b, ns, es, n, n) && |ns| == |es| == n
    modifies h`mem
    ensures Scratch(m0, h.mem, {a, b})
  {
    hide Scratch, Distinct, PtrSet, Apart;
    assert ns[0..] == ns && es[0..] == es;
    for i := 0 to n
      invariant Vec(h.mem, a, ns) && Vec(h.mem, b, es)
      invariant Scratch(m0, h.mem, {a, b} + PtrSet(ns[i..]) + PtrSet(es[i..]))
    {
      ghost var s := {a, b} + PtrSet(ns[i..]) + PtrSet(es[i..]);
      PairSets(a, b, ns, es, i, {});
      assert {a, b} + {} == {a, b};
      var name, entry := h.mem.vecs[a][i], h.mem.vecs[b][i];
      FreeElement(h, name, m0, s);
      FreeElement(h, entry, m0, s - Block(name));
    }
    NothingLeft(ns);
    NothingLeft(es);
    assert {a, b} + {} + {} == {a, b};
  }

  lemma PairSets(a: Ptr, b: Ptr, ns: seq<Ptr>, es: seq<Ptr>, i: nat, own: set<Ptr>)
    requires i < |ns| == |es| && Apart(a, b, ns, es) && own !! PtrSet(ns) + PtrSet(es)
    ensures var s := {a, b} + own + PtrSet(ns[i..]) + PtrSet(es[i..]);
      && (ns[i] != NULL ==> ns[i] in s) && (es[i] != NULL ==> es[i] in s - Block(ns[i]))
      && s - Block(ns[i]) - Block(es[i]) == {a, b} + own + PtrSet(ns[i + 1..]) + PtrSet(es[i + 1..])
    ensures Block(ns[i]) !! {a, b} && Block(es[i]) !! {a, b}
  {
    hide PtrSet, Distinct;
    PtrSetNext(ns, i);
    PtrSetNext(es, i);
  }

  // ----- composing an array -----

  /** The output is written up to w; own are the other blocks, and the elements from i on are not yet freed. */
  ghost predicate Composing(m0: Store, m: Store, own: set<Ptr>, v: Ptr, es: seq<Ptr>, i: nat, out: Ptr, len: nat,
                            w: bytes) {
    && v in own && out in own && v != out && Vec(m, v, es) && Distinct(es) && own !! PtrSet(es) && i <= |es|
    && Scratch(m0, m, own + PtrSet(es[i..])) && Begun(m, out, len, w)
  }

  lemma VecKept(m: Store, v: Ptr, es: seq<Ptr>, p: Ptr)
    requires Vec(m, v, es) && p != v
    ensures Vec(Remove(m, Block(p)), v, es)
  {
  }

  /** Writing the output and freeing the i-th entry leave the later entries alone. */
  lemma EntryFreed(m: Store, m': Store, m'': Store, es: seq<Ptr>, ts: seq<bytes>, i: nat, out: Ptr, len: nat, w: bytes)
    requires i < |es| && Entries(m, es, ts, i, |es|) && Distinct(es) && out !in PtrSet(es)
    requires out in m'.bufs && m'.bufs == m.bufs[out := m'.bufs[out]] && m'' == Remove(m', Block(es[i]))
    requires Begun(m', out, len, w)
    ensures Entries(m'', es, ts, i + 1, |es|) && Begun(m'', out, len, w)
  {
    hide CString;
    forall k | i <= k < |es| ensures es[k] in m.bufs && es[k] != out && Entry(m, es[k], ts[k]) {
      assert es[k] in PtrSet(es);
    }
    forall k | i + 1 <= k < |es| ensures Entry(m'', es[k], ts[k]) {
      assert es[k] != es[i];
    }
  }

  /** One element: its text, the separator behind it, and the block it was in is freed. */
  method ComposeItem(h: Heap, v: Ptr, out: Ptr, i: nat, last: bool, fmt: bool, ptr: nat, ghost m0: Store,
                     ghost es: seq<Ptr>, ghost ts: seq<bytes>, ghost len: nat, ghost w: bytes)
    returns (ptr': nat)
    requires i < |es| == |ts| && last == (i + 1 == |es|) && Entries(h.mem, es, ts, i, |es|)
    requires Composing(m0, h.mem, {v, out}, v, es, i, out, len, w)
    requires ptr == |w| && |w| + |ts[i]| + |ItemSeparator(last, fmt)| < len
    modifies h`mem
    ensures Composing(m0, h.mem, {v, out}, v, es, i + 1, out, len, w + ts[i] + ItemSeparator(last, fmt))
    ensures Entries(h.mem, es, ts, i + 1, |es|) && ptr' == |w + ts[i] + ItemSeparator(last, fmt)|
  {
    hide Scratch, Distinct, PtrSet, Begun, CString, Remove;
    ghost var own := {v, out} + PtrSet(es[i..]);
    assert Entry(h.mem, es[i], ts[i]) ;
    hide Entries, Entry;
    var entry := h.mem.vecs[v][i];
    ghost var m := h.mem;
    ptr' := Extend(h, out, ptr, CString(h.mem.bufs[entry]), false, len, w, m0, own);
    if !last {
      ptr' := Extend(h, out, ptr', if fmt then [COMMA, SPACE] else [COMMA], true, len, w + ts[i], m0, own);
    } else {
      assert w + ts[i] + [] == w + ts[i];
    }
    PtrSetNext(es, i);
    ghost var m' := h.mem;
    assert m'.bufs == m.bufs[out := m'.bufs[out]];
    FreeElement(h, entry, m0, own);
    VecKept(m', v, es, es[i]);
    assert own - Block(es[i]) == {v, out} + PtrSet(es[i + 1..]);
    EntryFreed(m, m', h.mem, es, ts, i, out, len, w + ts[i] + ItemSeparator(last, fmt));
  }

  lemma EntriesNulFree(m: Store, es: seq<Ptr>, ts: seq<bytes>)
    requires Entries(m, es, ts, 0, |es|) && |ts| == |es|
    ensures forall k | 0 <= k < |ts| :: NulFree(ts[k])
  {
    hide NulFree;
    forall k | 0 <= k < |ts| ensures NulFree(ts[k]) {
      assert Entry(m, es[k], ts[k]);
    }
  }

  /** Writes the elements between brackets; every entry and the array of entries is freed. */
  method ComposeArray(h: Heap, out: Ptr, v: Ptr, n: nat, fmt: bool, ghost m0: Store, ghost es: seq<Ptr>,
                      ghost ts: seq<bytes>, ghost len: nat)
    requires 0 < n == |es| == |ts| && Entries(h.mem, es, ts, 0, n)
    requires Composing(m0, h.mem, {v, out}, v, es, 0, out, len, []) && |ItemsTo(ts, n, fmt)| + 3 <= len
    modifies h`mem
    ensures Printed(m0, h.mem, out, [LBRACKET] + ItemsTo(ts, n, fmt) + [RBRACKET])
  {
    hide Scratch, Distinct, PtrSet, Begun, CString, Entries, NulFree, Printed, Remove;
    EntriesNulFree(h.mem, es, ts);
    ghost var m := h.mem;
    var ptr := Extend(h, out, 0, [LBRACKET], true, len, [], m0, {v, out} + PtrSet(es[0..]));
    assert [] + [LBRACKET] == [LBRACKET];
    EntriesOutside(m, h.mem, es, ts, 0, out);
    assert [LBRACKET] + ItemsTo(ts, 0, fmt) == [LBRACKET];
    for i := 0 to n
      invariant Composing(m0, h.mem, {v, out}, v, es, i, out, len, [LBRACKET] + ItemsTo(ts, i, fmt))
      invariant Entries(h.mem, es, ts, i, n) && ptr == 1 + |ItemsTo(ts, i, fmt)|
    {
      ItemsGrow(ts, i + 1, fmt);
      ghost var w := [LBRACKET] + ItemsTo(ts, i, fmt);
      ptr := ComposeItem(h, v, out, i, i + 1 == n, fmt, ptr, m0, es, ts, len, w);
      assert w + ts[i] + ItemSeparator(i + 1 == n, fmt) == [LBRACKET] + ItemsTo(ts, i + 1, fmt);
    }
    ItemsNulFree(ts, n, fmt);
    CloseArray(h, out, v, ptr, m0, es, len, ItemsTo(ts, n, fmt));
  }

  /** Frees the array of entries and writes the closing bracket. */
  method CloseArray(h: Heap, out: Ptr, v: Ptr, ptr: nat, ghost m0: Store, ghost es: seq<Ptr>, ghost len: nat,
                    ghost items: bytes)
    requires Composing(m0, h.mem, {v, out}, v, es, |es|, out, len, [LBRACKET] + items) && NulFree(items)
    requires ptr == |[LBRACKET] + items| && |items| + 3 <= len
    modifies h`mem
    ensures Printed(m0, h.mem, out, [LBRACKET] + items + [RBRACKET])
  {
    hide Scratch, Distinct, PtrSet, Begun, CString, NulFree, Printed, Remove;
    ghost var w := [LBRACKET] + items;
    NothingLeft(es);
    assert {v, out} + PtrSet(es[|es|..]) - {v} == {out};
    FreeVec(h, v, out, len, w, m0, {v, out} + PtrSet(es[|es|..]));
    var end := Extend(h, out, ptr, [RBRACKET], true, len, w, m0, {out});
    Bracketed(LBRACKET, items, RBRACKET);
    BegunDone(m0, h.mem, out, len, w + [RBRACKET]);
  }

  lemma Bracketed(left: byte, s: bytes, right: byte)
    requires NulFree(s) && left != NUL && right != NUL
    ensures NulFree([left] + s + [right])
  {
  }

  /** free of an array of entries. */
  method FreeVec(h: Heap, v: Ptr, ghost out: Ptr, ghost len: nat, ghost w: bytes, ghost m0: Store, ghost s: set<Ptr>)
    requires Scratch(m0, h.mem, s) && v in s && v != out && Begun(h.mem, out, len, w)
    modifies h`mem
    ensures Scratch(m0, h.mem, s - {v}) && Begun(h.mem, out, len, w)
  {
    hide Scratch;
    ScratchFree(m0, h.mem, s, v);
    ScratchFacts(m0, h.mem, s);
    h.Free(v);
  }

  // ----- composing an object -----

  /** Appends n tabs. */
  method ExtendTabs(h: Heap, out: Ptr, ptr: nat, n: nat, ghost len: nat, ghost w: bytes, ghost m0: Store,
                    ghost s: set<Ptr>)
    returns (ptr': nat)
    requires Scratch(m0, h.mem, s) && out in s
    requires Begun(h.mem, out, len, w) && ptr == |w| && |w| + n <= len
    modifies h`mem
    ensures Scratch(m0, h.mem, s) && Begun(h.mem, out, len, w + Tabs(n)) && ptr' == |w + Tabs(n)|
    ensures out in old(h.mem).bufs && out in h.mem.bufs && h.mem == WithBuffer(old(h.mem), out, h.mem.bufs[out])
  {
    hide Scratch, Begun;
    ptr' := ptr;
    assert w + Tabs(0) == w;
    BegunSelf(h.mem, out, len, w);
    for j := 0 to n
      invariant Scratch(m0, h.mem, s) && Begun(h.mem, out, len, w + Tabs(j)) && ptr' == |w + Tabs(j)|
      invariant out in old(h.mem).bufs && out in h.mem.bufs && h.mem == WithBuffer(old(h.mem), out, h.mem.bufs[out])
    {
      ptr' := Extend(h, out, ptr', [TAB], false, len, w + Tabs(j), m0, s);
      assert w + Tabs(j) + [TAB] == w + Tabs(j + 1);
    }
  }

  lemma BegunSelf(m: Store, out: Ptr, len: nat, w: bytes)
    requires Begun(m, out, len, w)
    ensures out in m.bufs && m == WithBuffer(m, out, m.bufs[out])
  {
  }

  /** Indentation, name and colon. */
  method WriteKey(h: Heap, out: Ptr, ptr: nat, name: Ptr, depth: nat, fmt: bool, ghost key: bytes, ghost len: nat,
                  ghost w: bytes, ghost m0: Store, ghost s: set<Ptr>)
    returns (ptr': nat)
    requires Scratch(m0, h.mem, s) && out in s && Begun(h.mem, out, len, w) && ptr == |w|
    requires Entry(h.mem, name, key) && name != out && |w| + |KeyText(key, depth, fmt)| <= len
    modifies h`mem
    ensures Scratch(m0, h.mem, s) && Begun(h.mem, out, len, w + KeyText(key, depth, fmt))
    ensures ptr' == |w + KeyText(key, depth, fmt)|
    ensures out in old(h.mem).bufs && out in h.mem.bufs && h.mem == WithBuffer(old(h.mem), out, h.mem.bufs[out])
  {
    hide Scratch, Begun, CString;
    BegunSelf(h.mem, out, len, w);
    ghost var tabs := if fmt then Tabs(depth) else [];
    ptr' := ptr;
    if fmt {
      ptr' := ExtendTabs(h, out, ptr', depth, len, w, m0, s);
    }
    assert w + [] == w;
    ghost var w1 := w + tabs;
    ptr' := Extend(h, out, ptr', CString(h.mem.bufs[name]), false, len, w1, m0, s);
    ptr' := Extend(h, out, ptr', if fmt then [COLON, TAB] else [COLON], false, len, w1 + key, m0, s);
    assert w1 + key + KeySeparator(fmt) == w + KeyText(key, depth, fmt);
  }

  /** One member: the key, the value, the comma and the line end. */
  method WriteMember(h: Heap, out: Ptr, ptr: nat, name: Ptr, entry: Ptr, last: bool, depth: nat, fmt: bool,
                     ghost key: bytes, ghost value: bytes, ghost len: nat, ghost w: bytes, ghost m0: Store,
                     ghost s: set<Ptr>)
    returns (ptr': nat)
    requires Scratch(m0, h.mem, s) && out in s && Begun(h.mem, out, len, w) && ptr == |w|
    requires Entry(h.mem, name, key) && Entry(h.mem, entry, value) && name != out && entry != out
    requires |w| + |MemberText(key, value, last, depth, fmt)| < len
    modifies h`mem
    ensures Scratch(m0, h.mem, s) && Begun(h.mem, out, len, w + MemberText(key, value, last, depth, fmt))
    ensures ptr' == |w + MemberText(key, value, last, depth, fmt)|
    ensures out in old(h.mem).bufs && out in h.mem.bufs && h.mem == WithBuffer(old(h.mem), out, h.mem.bufs[out])
  {
    hide Scratch, Begun, CString, KeyText, MemberSeparator;
    ptr' := WriteKey(h, out, ptr, name, depth, fmt, key, len, w, m0, s);
    ghost var w1 := w + KeyText(key, depth, fmt);
    ptr' := Extend(h, out, ptr', CString(h.mem.bufs[entry]), true, len, w1, m0, s);
    ptr' := ExtendEnd(h, out, ptr', last, fmt, len, w1 + value, m0, s);
    assert w1 + value + MemberSeparator(last, fmt) == w + MemberText(key, value, last, depth, fmt);
  }

  /** The comma and the line end behind a member. */
  method ExtendEnd(h: Heap, out: Ptr, ptr: nat, last: bool, fmt: bool, ghost len: nat, ghost w: bytes, ghost m0: Store,
                   ghost s: set<Ptr>)
    returns (ptr': nat)
    requires Scratch(m0, h.mem, s) && out in s && Begun(h.mem, out, len, w) && ptr == |w|
    requires |w| + |MemberSeparator(last, fmt)| < len
    modifies h`mem
    ensures Scratch(m0, h.mem, s) && Begun(h.mem, out, len, w + MemberSeparator(last, fmt))
    ensures ptr' == |w + MemberSeparator(last, fmt)|
    ensures out in old(h.mem).bufs && out in h.mem.bufs && h.mem == WithBuffer(old(h.mem), out, h.mem.bufs[out])
  {
    hide Scratch, Begun;
    BegunSelf(h.mem, out, len, w);
    ptr' := ptr;
    if !last {
      ptr' := Extend(h, out, ptr', [COMMA], false, len, w, m0, s);
    }
    ghost var w1 := w + if last then [] else [COMMA];
    assert w + [] == w;
    ptr' := Extend(h, out, ptr', if fmt then [NEWLINE] else [], true, len, w1, m0, s);
    assert w1 + (if fmt then [NEWLINE] else []) == w + MemberSeparator(last, fmt);
  }

  /** The output is written up to w, and the names and values from i on are not yet freed. */
  ghost predicate ComposingPair(m0: Store, m: Store, a: Ptr, b: Ptr, ns: seq<Ptr>, es: seq<Ptr>, i: nat, out: Ptr,
                                len: nat, w: bytes) {
    && Vec(m, a, ns) && Vec(m, b, es) && Apart(a, b, ns, es) && i <= |ns| == |es|
    && out !in {a, b} + PtrSet(ns) + PtrSet(es)
    && Scratch(m0, m, {a, b, out} + PtrSet(ns[i..]) + PtrSet(es[i..])) && Begun(m, out, len, w)
  }

  /** One member is written, and the blocks of its name and value are freed. */
  method ComposeMember(h: Heap, a: Ptr, b: Ptr, out: Ptr, i: nat, last: bool, depth: nat, fmt: bool, ptr: nat,
                       ghost m0: Store, ghost ns: seq<Ptr>, ghost es: seq<Ptr>, ghost ks: seq<bytes>,
                       ghost ts: seq<bytes>, ghost len: nat, ghost w: bytes)
    returns (ptr': nat)
    requires ComposingPair(m0, h.mem, a, b, ns, es, i, out, len, w) && i < |ns| == |ks| == |ts| && ptr == |w|
    requires Entries(h.mem, ns, ks, i, |ns|) && Entries(h.mem, es, ts, i, |es|)
    requires |w| + |MemberText(ks[i], ts[i], last, depth, fmt)| < len
    modifies h`mem
    ensures ComposingPair(m0, h.mem, a, b, ns, es, i + 1, out, len, w + MemberText(ks[i], ts[i], last, depth, fmt))
    ensures Entries(h.mem, ns, ks, i + 1, |ns|) && Entries(h.mem, es, ts, i + 1, |es|)
    ensures ptr' == |w + MemberText(ks[i], ts[i], last, depth, fmt)|
  {
    EntryAt(h.mem, ns, ks, i);
    EntryAt(h.mem, es, ts, i);
    hide Scratch, Distinct, PtrSet, Begun, CString, Entries, Entry, MemberText, Apart;
    ghost var m := h.mem;
    ghost var s := {a, b, out} + PtrSet(ns[i..]) + PtrSet(es[i..]);
    var name, entry := h.mem.vecs[a][i], h.mem.vecs[b][i];
    ptr' := WriteMember(h, out, ptr, name, entry, last, depth, fmt, ks[i], ts[i], len, w, m0, s);
    EntriesOutside(m, h.mem, ns, ks, i, out);
    EntriesOutside(m, h.mem, es, ts, i, out);
    FreePair(h, a, b, name, entry, m0, ns, es, ks, ts, i, out, len, w + MemberText(ks[i], ts[i], last, depth, fmt));
  }

  /** free of the i-th name and value. */
  method FreePair(h: Heap, a: Ptr, b: Ptr, name: Ptr, entry: Ptr, ghost m0: Store, ghost ns: seq<Ptr>,
                  ghost es: seq<Ptr>, ghost ks: seq<bytes>, ghost ts: seq<bytes>, ghost i: nat, ghost out: Ptr,
                  ghost len: nat, ghost w: bytes)
    requires ComposingPair(m0, h.mem, a, b, ns, es, i, out, len, w) && i < |ns| && name == ns[i] && entry == es[i]
    requires Entries(h.mem, ns, ks, i, |ns|) && Entries(h.mem, es, ts, i, |es|)
    modifies h`mem
    ensures ComposingPair(m0, h.mem, a, b, ns, es, i + 1, out, len, w)
    ensures Entries(h.mem, ns, ks, i + 1, |ns|) && Entries(h.mem, es, ts, i + 1, |es|)
  {
    ghost var s := {a, b, out} + PtrSet(ns[i..]) + PtrSet(es[i..]);
    ghost var m := h.mem;
    PairSets(a, b, ns, es, i, {out});
    assert {a, b} + {out} == {a, b, out};
    hide Scratch, Distinct, PtrSet, Begun, CString, Entries, Entry, Remove, Apart, Vec;
    FreeElement(h, name, m0, s);
    FreeElement(h, entry, m0, s - Block(name));
    PairFreed(m, h.mem, a, b, ns, es, ks, ts, i, out, len, w);
  }

  lemma EntryAt(m: Store, es: seq<Ptr>, ts: seq<bytes>, i: nat)
    requires i < |es| && Entries(m, es, ts, i, |es|)
    ensures i < |ts| && Entry(m, es[i], ts[i]) && es[i] in PtrSet(es) && es[i] != NULL
  {
    hide CString;
  }

  lemma EntriesOutside(m: Store, m': Store, es: seq<Ptr>, ts: seq<bytes>, i: nat, out: Ptr)
    requires Entries(m, es, ts, i, |es|) && out !in PtrSet(es) && out in m'.bufs
      && m' == WithBuffer(m, out, m'.bufs[out])
    ensures Entries(m', es, ts, i, |es|)
  {
    hide CString;
    forall k | i <= k < |es| ensures es[k] != out && Entry(m, es[k], ts[k]) {
      assert es[k] in PtrSet(es);
    }
  }

  /** What freeing the i-th name and value leaves. */
  lemma PairFreed(m: Store, m': Store, a: Ptr, b: Ptr, ns: seq<Ptr>, es: seq<Ptr>, ks: seq<bytes>, ts: seq<bytes>,
                  i: nat, out: Ptr, len: nat, w: bytes)
    requires i < |ns| == |es| && Entries(m, ns, ks, i, |ns|) && Entries(m, es, ts, i, |es|) && Apart(a, b, ns, es)
    requires out !in PtrSet(ns) + PtrSet(es) && m' == Remove(Remove(m, Block(ns[i])), Block(es[i]))
    requires Begun(m, out, len, w) && Vec(m, a, ns) && Vec(m, b, es)
    ensures Entries(m', ns, ks, i + 1, |ns|) && Entries(m', es, ts, i + 1, |es|)
    ensures Begun(m', out, len, w) && Vec(m', a, ns) && Vec(m', b, es)
  {
    hide CString, Entry, Apart;
    ApartAt(a, b, ns, es, i);
    EntriesKept(m, m', ns, ks, i + 1, |ns|, {ns[i], es[i]});
    EntriesKept(m, m', es, ts, i + 1, |es|, {ns[i], es[i]});
    PairFreedRest(m, m', a, b, ns, es, i, out, len, w);
  }

  lemma PairFreedRest(m: Store, m': Store, a: Ptr, b: Ptr, ns: seq<Ptr>, es: seq<Ptr>, i: nat, out: Ptr, len: nat,
                      w: bytes)
    requires i < |ns| == |es| && Apart(a, b, ns, es) && out !in PtrSet(ns) + PtrSet(es)
    requires m' == Remove(Remove(m, Block(ns[i])), Block(es[i]))
    requires Begun(m, out, len, w) && Vec(m, a, ns) && Vec(m, b, es)
    ensures Begun(m', out, len, w) && Vec(m', a, ns) && Vec(m', b, es)
  {
    hide Distinct;
    assert ns[i] != NULL ==> ns[i] in PtrSet(ns);
    assert es[i] != NULL ==> es[i] in PtrSet(es);
  }

  /** A later name or value is in neither block that is freed before its turn. */
  lemma ApartAt(a: Ptr, b: Ptr, ns: seq<Ptr>, es: seq<Ptr>, i: nat)
    requires i < |ns| == |es| && Apart(a, b, ns, es)
    ensures forall k | i < k < |ns| :: ns[k] != NULL ==> ns[k] !in {ns[i], es[i]}
    ensures forall k | i < k < |es| :: es[k] != NULL ==> es[k] !in {ns[i], es[i]}
  {
    var s, t := PtrSet(ns), PtrSet(es);
    assert forall k | 0 <= k < |ns| :: ns[k] != NULL ==> ns[k] in s;
    assert forall k | 0 <= k < |es| :: es[k] != NULL ==> es[k] in t;
    hide PtrSet;
  }

  function ObjectHead(fmt: bool): bytes {
    if fmt then [LBRACE, NEWLINE] else [LBRACE]
  }

  /** Writes the members between braces; every name, every value and both arrays are freed. */
  method ComposeObject(h: Heap, out: Ptr, a: Ptr, b: Ptr, n: nat, depth: nat, fmt: bool, ghost m0: Store,
                       ghost ns: seq<Ptr>, ghost es: seq<Ptr>, ghost ks: seq<bytes>, ghost ts: seq<bytes>,
                       ghost len: nat)
    requires 0 < depth && 0 < n == |ns| == |es| == |ks| == |ts| && Entries(h.mem, ns, ks, 0, n)
      && Entries(h.mem, es, ts, 0, n)
    requires ComposingPair(m0, h.mem, a, b, ns, es, 0, out, len, [])
    requires |MembersTo(ks, ts, n, depth, fmt)| + 4 + (if fmt then depth - 1 else 0) <= len
    modifies h`mem
    ensures Printed(m0, h.mem, out, ObjectHead(fmt) + MembersTo(ks, ts, n, depth, fmt) + ObjectTail(depth - 1, fmt))
  {
    hide Scratch, Distinct, PtrSet, Begun, CString, Entries, NulFree, Printed, Remove, MemberText, Apart;
    EntriesNulFree(h.mem, ns, ks);
    EntriesNulFree(h.mem, es, ts);
    ghost var m := h.mem;
    ghost var head := ObjectHead(fmt);
    var ptr := Extend(h, out, 0, ObjectHead(fmt), true, len, [], m0, {a, b, out} + PtrSet(ns[0..]) + PtrSet(es[0..]));
    assert [] + head == head;
    EntriesOutside(m, h.mem, ns, ks, 0, out);
    EntriesOutside(m, h.mem, es, ts, 0, out);
    assert head + MembersTo(ks, ts, 0, depth, fmt) == head;
    for i := 0 to n
      invariant ComposingPair(m0, h.mem, a, b, ns, es, i, out, len, head + MembersTo(ks, ts, i, depth, fmt))
      invariant Entries(h.mem, ns, ks, i, n) && Entries(h.mem, es, ts, i, n)
      invariant ptr == |head + MembersTo(ks, ts, i, depth, fmt)|
    {
      MembersGrow(ks, ts, i + 1, depth, fmt);
      ghost var w := head + MembersTo(ks, ts, i, depth, fmt);
      ptr := ComposeMember(h, a, b, out, i, i + 1 == n, depth, fmt, ptr, m0, ns, es, ks, ts, len, w);
      assert w + MemberText(ks[i], ts[i], i + 1 == n, depth, fmt) == head + MembersTo(ks, ts, i + 1, depth, fmt);
    }
    MembersNulFree(ks, ts, n, depth, fmt);
    HeadNulFree(MembersTo(ks, ts, n, depth, fmt), fmt);
    FreeVecs(h, out, a, b, m0, ns, es, len, head + MembersTo(ks, ts, n, depth, fmt));
    WriteTail(h, out, depth - 1, fmt, ptr, m0, len, head + MembersTo(ks, ts, n, depth, fmt));
  }

  function ObjectTail(depth: nat, fmt: bool): bytes {
    (if fmt then Tabs(depth) else []) + [RBRACE]
  }

  /** The indentation, the closing brace and the terminator. */
  method WriteTail(h: Heap, out: Ptr, depth: nat, fmt: bool, ptr: nat, ghost m0: Store, ghost len: nat, ghost w: bytes)
    requires Scratch(m0, h.mem, {out}) && Begun(h.mem, out, len, w) && ptr == |w| && NulFree(w)
    requires |w| + |ObjectTail(depth, fmt)| < len
    modifies h`mem
    ensures Printed(m0, h.mem, out, w + ObjectTail(depth, fmt))
  {
    hide Scratch, Begun, NulFree, Printed;
    var end := ptr;
    ghost var tabs := if fmt then Tabs(depth) else [];
    if fmt {
      end := ExtendTabs(h, out, end, depth, len, w, m0, {out});
    }
    assert w + [] == w;
    end := Extend(h, out, end, [RBRACE], true, len, w + tabs, m0, {out});
    assert w + tabs + [RBRACE] == w + ObjectTail(depth, fmt);
    TailNulFree(w, depth, fmt);
    BegunDone(m0, h.mem, out, len, w + ObjectTail(depth, fmt));
  }

  lemma TailNulFree(w: bytes, depth: nat, fmt: bool)
    requires NulFree(w)
    ensures NulFree(w + ObjectTail(depth, fmt))
  {
  }

  lemma HeadNulFree(members: bytes, fmt: bool)
    requires NulFree(members)
    ensures NulFree(ObjectHead(fmt) + members)
  {
  }

  method FreeVecs(h: Heap, out: Ptr, a: Ptr, b: Ptr, ghost m0: Store, ghost ns: seq<Ptr>, ghost es: seq<Ptr>,
                  ghost len: nat, ghost w: bytes)
    requires ComposingPair(m0, h.mem, a, b, ns, es, |ns|, out, len, w)
    modifies h`mem
    ensures Scratch(m0, h.mem, {out}) && Begun(h.mem, out, len, w)
  {
    assert a != b;
    hide Scratch, Distinct, PtrSet, Begun, Remove, Apart;
    NothingLeft(ns);
    NothingLeft(es);
    ghost var s := {a, b, out} + PtrSet(ns[|ns|..]) + PtrSet(es[|es|..]);
    FreeVec(h, a, out, len, w, m0, s);
    FreeVec(h, b, out, len, w, m0, s - {a});
    assert s - {a} - {b} == {out};
  }
}
