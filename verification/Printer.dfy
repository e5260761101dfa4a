/** The printer without buffer: it sizes, allocates and fills a string for every value, and gives back
    every block but the result, whatever allocation fails. */
module Printer {
  import opened Bytes
  import opened Literal
  import opened Json
  import opened CHeap
  import opened Items
  import opened Blocks
  import opened Joining
  import opened Compose

  /** An item the printers can print. */
  ghost predicate Target(m: Store, item: Ptr, n: Node) {
    item == n.p && NodeFits(m, n) && Sep(n) && Proper(m, n) && Printable(Denote(m, n))
  }

  lemma TargetFacts(m: Store, item: Ptr, n: Node)
    requires Target(m, item, n)
    ensures item == n.p && NodeFits(m, n) && Sep(n) && Proper(m, n) && Printable(Denote(m, n))
    ensures n.p in m.cells && m.cells[n.p].valuestring == n.vs && m.cells[n.p].name == n.nm
  {
    hide Sep, Proper, Denote;
  }

  /** The text of a leaf. */
  lemma LeafText(m: Store, n: Node, depth: nat, fmt: bool)
    requires NodeFits(m, n) && Proper(m, n) && Printable(Denote(m, n)) && n.p in m.cells
    ensures m.cells[n.p].kind == KNull ==> Print(Denote(m, n), depth, fmt) == NULL_TEXT
    ensures m.cells[n.p].kind == KFalse ==> Print(Denote(m, n), depth, fmt) == FALSE_TEXT
    ensures m.cells[n.p].kind == KTrue ==> Print(Denote(m, n), depth, fmt) == TRUE_TEXT
    ensures m.cells[n.p].kind == KNumber ==>
      Printable(Number(m.cells[n.p].valuedouble)) && Converted(m.cells[n.p].valueint, m.cells[n.p].valuedouble)
    ensures m.cells[n.p].kind == KNumber ==>
      Print(Denote(m, n), depth, fmt) == Print(Number(m.cells[n.p].valuedouble), 0, false)
    ensures m.cells[n.p].kind == KString ==>
      n.vs in m.bufs && Print(Denote(m, n), depth, fmt) == Quoted(CString(m.bufs[n.vs]))
  {
    hide CString, Quoted, IntText;
  }

  /** print_value */
  method PrintValue(h: Heap, item: Ptr, depth: nat, fmt: bool, ghost n: Node) returns (out: Ptr)
    requires h.mem.Valid() && (item != NULL ==> Target(h.mem, item, n))
    modifies h
    ensures h.mem.Valid()
    ensures out == NULL ==> h.mem == old(h.mem) && (item != NULL ==> h.failed)
    ensures out != NULL ==> item != NULL && h.failed == old(h.failed)
    ensures out != NULL ==> Printed(old(h.mem), h.mem, out, Print(Denote(old(h.mem), n), depth, fmt))
    decreases n, 1
  {
    hide Target, NodeFits, Sep, Proper, Denote, Print, CString, Quoted, Printed;
    if item == NULL { return NULL; }
    TargetFacts(h.mem, item, n);
    LeafText(h.mem, n, depth, fmt);
    var c := h.mem.cells[item];
    match c.kind {
      case KNull => out := NewText(h, 5, NULL_TEXT);
      case KFalse => out := NewText(h, 6, FALSE_TEXT);
      case KTrue => out := NewText(h, 5, TRUE_TEXT);
      case KNumber => out := PrintNumber(h, c.valueint, c.valuedouble);
      case KString => out := PrintString(h, CString(h.mem.bufs[c.valuestring]));
      case KArray => out := PrintArray(h, item, depth, fmt, n);
      case KObject => out := PrintObject(h, item, depth, fmt, n);
    }
  }

  /** Collecting the results of an array: entries[i] is the text of the i-th child. */
  method CollectItems(h: Heap, first: Ptr, v: Ptr, depth: nat, fmt: bool, ghost m0: Store, ghost ns: seq<Node>)
    returns (ok: bool, len: nat, ghost es: seq<Ptr>)
    requires Listed(m0, first, ns, false) && Scratch(m0, h.mem, {v}) && Vec(h.mem, v, seq(|ns|, _ => NULL))
    modifies h
    ensures |es| == |ns| && Gathered(m0, h.mem, {v}, v, es, |ns|)
    ensures var ts := Texts(DenoteList(m0, ns), false, depth, fmt);
      ok ==> |ts| == |ns| && Entries(h.mem, es, ts, 0, |ns|) && len == 5 + ItemsLength(ts, |ns|, fmt)
    ensures if ok then h.failed == old(h.failed) else h.failed
    decreases ns, 2
  {
    hide NodeFits, Sep, SepList, Proper, Denote, DenoteList, Print, CString, Printed, Texts, Listed, Gathered, Entries,
      Scratch;
    ListedFacts(m0, first, ns, false);
    ghost var ts := Texts(DenoteList(m0, ns), false, depth, fmt);
    es := seq(|ns|, _ => NULL);
    NoneGathered(m0, h.mem, {v}, v, |ns|);
    ListedCount(m0, first, ns, false, depth, fmt);
    EntriesNone(h.mem, es, ts);
    var child := first;
    var i: nat := 0;
    ok, len := true, 5;
    while child != NULL && ok
      invariant i <= |ns| == |es| && Gathered(m0, h.mem, {v}, v, es, i)
      invariant child == PtrAt(ns, i)
      invariant ok ==> Entries(h.mem, es, ts, 0, i) && len == 5 + ItemsLength(ts, i, fmt)
      invariant if ok then h.failed == old(h.failed) else h.failed
      decreases |ns| - i
    {
      GatheredFacts(m0, h.mem, {v}, v, es, i);
      ListedAt(m0, h.mem, {v} + PtrSet(es), first, ns, false, depth, fmt, i);
      ghost var m := h.mem;
      var ret := PrintValue(h, child, depth, fmt, ns[i]);
      GatherNext(m0, m, h.mem, {v}, v, es, i, ret, ts[i]);
      ghost var m' := h.mem;
      h.SetVec(v, i, ret);
      if ret != NULL {
        PrintedFacts(m, m', ret, ts[i]);
        len := len + |CString(h.mem.bufs[ret])| + 2 + (if fmt then 1 else 0);
        EntriesNext(m, m', h.mem, es, ts, i, ret);
      } else {
        ok := false;
      }
      es := es[i := ret];
      i := i + 1;
      child := h.mem.cells[child].next;
    }
    GatheredAll(m0, h.mem, {v}, v, es, i);
    ListedNotNull(m0, first, ns, false);
  }

  /** print_array */
  method PrintArray(h: Heap, item: Ptr, depth: nat, fmt: bool, ghost n: Node) returns (out: Ptr)
    requires h.mem.Valid() && Target(h.mem, item, n) && item in h.mem.cells && h.mem.cells[item].kind == KArray
    modifies h
    ensures h.mem.Valid()
    ensures out == NULL ==> h.mem == old(h.mem) && h.failed
    ensures out != NULL ==> h.failed == old(h.failed)
    ensures out != NULL ==> Printed(old(h.mem), h.mem, out, Print(Denote(old(h.mem), n), depth, fmt))
    decreases n, 0
  {
    hide NodeFits, Sep, SepList, Proper, Denote, DenoteList, CString, Printed, Texts, Gathered, Entries, Scratch,
      PrintItems;
    ghost var m0 := h.mem;
    TargetFacts(m0, item, n);
    ListedKids(m0, n);
    var first := h.mem.cells[item].child;
    var count := CountItems(h, first, NULL, n.kids);
    if count == 0 {
      EmptyArray(m0, n, depth, fmt);
      out := NewText(h, 3, [LBRACKET, RBRACKET]);
      return;
    }
    var v := h.MallocVec(count);
    if v == NULL { return NULL; }
    ScratchSelf(m0);
    ScratchVec(m0, m0, {}, v, seq(count, _ => NULL));
    assert {} + {v} == {v};
    var ok, len;
    ghost var es;
    ok, len, es := CollectItems(h, first, v, depth + 1, fmt, m0, n.kids);
    out := FinishArray(h, v, count, ok, len, depth, fmt, m0, n, es);
  }

  lemma EmptyArray(m: Store, n: Node, depth: nat, fmt: bool)
    requires NodeFits(m, n) && Printable(Denote(m, n)) && n.p in m.cells && m.cells[n.p].kind == KArray && n.kids == []
    ensures Print(Denote(m, n), depth, fmt) == [LBRACKET, RBRACKET]
  {
  }

  /** The second half of print_array: allocate the output, and compose it or give everything back. */
  method FinishArray(h: Heap, v: Ptr, count: nat, ok: bool, len: nat, depth: nat, fmt: bool, ghost m0: Store,
                     ghost n: Node, ghost es: seq<Ptr>)
    returns (out: Ptr)
    requires NodeFits(m0, n) && n.p in m0.cells && m0.cells[n.p].kind == KArray && Printable(Denote(m0, n))
    requires 0 < count == |n.kids| == |es| && Gathered(m0, h.mem, {v}, v, es, count)
    requires Listed(m0, m0.cells[n.p].child, n.kids, false)
    requires var ts := Texts(DenoteList(m0, n.kids), false, depth + 1, fmt);
      ok ==> |ts| == count && Entries(h.mem, es, ts, 0, count) && len == 5 + ItemsLength(ts, count, fmt)
    requires !ok ==> h.failed
    modifies h
    ensures h.mem.Valid()
    ensures out == NULL ==> h.mem == m0 && h.failed
    ensures out != NULL ==> ok && h.failed == old(h.failed)
    ensures out != NULL ==> Printed(m0, h.mem, out, Print(Denote(m0, n), depth, fmt))
  {
    ListedFacts(m0, m0.cells[n.p].child, n.kids, false);
    assert Denote(m0, n) == Array(DenoteList(m0, n.kids));
    hide NodeFits, DenoteList, CString, Printed, Texts, Entries, Scratch, Print, Distinct, PtrSet, Composing, Gathered,
      Denote;
    hide ItemsTo, ItemsLength, Listed;
    GatheredFacts(m0, h.mem, {v}, v, es, count);
    ghost var ts := Texts(DenoteList(m0, n.kids), false, depth + 1, fmt);
    out := NULL;
    if ok { out := h.Malloc(len); }
    if out == NULL {
      GiveBackEntries(h, v, count, m0, es);
      return;
    }
    StartArray(m0, old(h.mem), h.mem, v, es, ts, out, len);
    ArrayFits(DenoteList(m0, n.kids), depth, fmt);
    ArrayPrint(DenoteList(m0, n.kids), depth, fmt);
    assert |ItemsTo(ts, count, fmt)| + 3 <= len;
    ComposeArray(h, out, v, count, fmt, m0, es, ts, len);
    PrintedFacts(m0, h.mem, out, Print(Denote(m0, n), depth, fmt));
  }

  /** After a failure the entries and their array are freed. */
  method GiveBackEntries(h: Heap, v: Ptr, n: nat, ghost m0: Store, ghost es: seq<Ptr>)
    requires Gathered(m0, h.mem, {v}, v, es, n) && |es| == n
    modifies h`mem
    ensures h.mem == m0 && h.mem.Valid()
  {
    hide Scratch, Gathered, Distinct, PtrSet;
    GatheredFacts(m0, h.mem, {v}, v, es, n);
    FreeEntries(h, v, n, m0, {v}, es);
    FreeElement(h, v, m0, {v});
    assert {v} - Block(v) == {};
    ScratchGone(m0, h.mem);
    ScratchFacts(m0, h.mem, {});
  }

  /** The output is allocated and nothing written. */
  lemma StartArray(m0: Store, m: Store, m': Store, v: Ptr, es: seq<Ptr>, ts: seq<bytes>, out: Ptr, len: nat)
    requires Gathered(m0, m, {v}, v, es, |es|) && Entries(m, es, ts, 0, |es|)
    requires out != NULL && out !in m.Live() && out in m'.bufs && m' == WithBuffer(m, out, m'.bufs[out])
      && |m'.bufs[out]| == len
    ensures Composing(m0, m', {v, out}, v, es, 0, out, len, []) && Entries(m', es, ts, 0, |es|)
  {
    hide CString, Scratch, Distinct, PtrSet, Entries;
    var s := {v} + PtrSet(es);
    ScratchBuffer(m0, m, s, out, m'.bufs[out]);
    ScratchFacts(m0, m, s);
    assert es[0..] == es && s + {out} == {v, out} + PtrSet(es);
    EntriesKept(m, m', es, ts, 0, |es|, {});
  }

  /** One member of an object: names[i] and entries[i], and the space they take. */
  method CollectMember(h: Heap, child: Ptr, a: Ptr, b: Ptr, i: nat, depth: nat, fmt: bool, ghost m0: Store,
                       ghost first: Ptr, ghost kids: seq<Node>, ghost ns: seq<Ptr>, ghost es: seq<Ptr>)
    returns (ok: bool, space: nat, ghost ns': seq<Ptr>, ghost es': seq<Ptr>)
    requires Listed(m0, first, kids, true) && i < |kids| == |ns| == |es| && child == kids[i].p
    requires GatheredPair(m0, h.mem, a, b, ns, es, i, i)
    modifies h
    ensures |ns'| == |es'| == |kids| && GatheredPair(m0, h.mem, a, b, ns', es', i + 1, i + 1)
    ensures child in h.mem.cells && h.mem.cells[child].next == PtrAt(kids, i + 1)
    ensures var ks, ts := Keys(DenoteList(m0, kids)), Texts(DenoteList(m0, kids), true, depth, fmt);
      ok ==> |ts| == |ks| == |kids| && space == |ts[i]| + |ks[i]| + 2 + if fmt then 2 + depth else 0
    ensures var ks, ts := Keys(DenoteList(m0, kids)), Texts(DenoteList(m0, kids), true, depth, fmt);
      ok && Entries(old(h.mem), ns, ks, 0, i) && Entries(old(h.mem), es, ts, 0, i) ==>
        Entries(h.mem, ns', ks, 0, i + 1) && Entries(h.mem, es', ts, 0, i + 1)
    ensures if ok then h.failed == old(h.failed) else h.failed
    decreases kids, 1
  {
    hide NodeFits, Sep, SepList, Proper, Denote, DenoteList, Print, CString, Printed, Texts, Keys, Listed, GatheredPair,
      Entries, Scratch, Quoted;
    ListedFacts(m0, first, kids, true);
    ListedCount(m0, first, kids, true, depth, fmt);
    ghost var ks, ts := Keys(DenoteList(m0, kids)), Texts(DenoteList(m0, kids), true, depth, fmt);
    PairFacts(m0, h.mem, a, b, ns, es, i, i);
    ListedAt(m0, h.mem, {a, b} + PtrSet(ns) + PtrSet(es), first, kids, true, depth, fmt, i);
    var str := StoreKey(h, a, b, i, CString(h.mem.bufs[h.mem.cells[child].name]), m0, ns, es);
    ns' := ns[i := str];
    ghost var m := h.mem;
    PairFacts(m0, m, a, b, ns', es, i + 1, i);
    ListedAt(m0, m, {a, b} + PtrSet(ns') + PtrSet(es), first, kids, true, depth, fmt, i);
    var ret := PrintValue(h, child, depth, fmt, kids[i]);
    ghost var m' := h.mem;
    PairValue(m0, m, m', a, b, ns', es, i + 1, i, ret, ts[i]);
    h.SetVec(b, i, ret);
    es' := es[i := ret];
    ok := str != NULL && ret != NULL;
    space := 0;
    if ok {
      EntriesStored(m, m', h.mem, ns', ks, es, ts, i, ret);
      space := |CString(h.mem.bufs[ret])| + |CString(h.mem.bufs[str])| + 2 + if fmt then 2 + depth else 0;
    }
  }

  /** The texts gathered so far, after one more value. */
  lemma EntriesStored(m: Store, m': Store, m'': Store, ns: seq<Ptr>, ks: seq<bytes>, es: seq<Ptr>, ts: seq<bytes>,
                      i: nat, p: Ptr)
    requires p != NULL && i < |es| && i < |ts| && Printed(m, m', p, ts[i]) && m''.bufs == m'.bufs
    ensures Entries(m, ns, ks, 0, i + 1) ==> Entries(m'', ns, ks, 0, i + 1)
    ensures Entries(m, es, ts, 0, i) ==> Entries(m'', es[i := p], ts, 0, i + 1)
    ensures p in m''.bufs && CString(m''.bufs[p]) == ts[i]
    ensures forall q | q in m.bufs :: q in m''.bufs && m''.bufs[q] == m.bufs[q]
  {
    hide CString, Entries;
    if Entries(m, ns, ks, 0, i + 1) { EntriesKept(m, m'', ns, ks, 0, i + 1, {}); }
    if Entries(m, es, ts, 0, i) { EntriesNext(m, m', m'', es, ts, i, p); }
  }

  /** Collecting the results of an object: names[i] and entries[i] are the texts of the i-th member. */
  method CollectMembers(h: Heap, first: Ptr, a: Ptr, b: Ptr, depth: nat, fmt: bool, ghost m0: Store,
                        ghost kids: seq<Node>)
    returns (fail: bool, len: nat, ghost ns: seq<Ptr>, ghost es: seq<Ptr>)
    requires Listed(m0, first, kids, true) && a != b && Scratch(m0, h.mem, {a, b})
    requires Vec(h.mem, a, seq(|kids|, _ => NULL)) && Vec(h.mem, b, seq(|kids|, _ => NULL))
    modifies h
    ensures |ns| == |es| == |kids| && GatheredPair(m0, h.mem, a, b, ns, es, |kids|, |kids|)
    ensures var ks, ts := Keys(DenoteList(m0, kids)), Texts(DenoteList(m0, kids), true, depth, fmt);
      !fail ==>
        && |ts| == |ks| == |kids| && Entries(h.mem, ns, ks, 0, |kids|) && Entries(h.mem, es, ts, 0, |kids|)
        && len == 7 + (if fmt then depth else 0) + MembersLength(ks, ts, |kids|, depth, fmt)
    ensures if fail then h.failed else h.failed == old(h.failed)
    decreases kids, 2
  {
    hide NodeFits, Sep, SepList, Proper, Denote, DenoteList, Print, CString, Printed, Texts, Keys, Listed, GatheredPair,
      Entries, Scratch, Quoted;
    ListedFacts(m0, first, kids, true);
    ListedCount(m0, first, kids, true, depth, fmt);
    ghost var ks, ts := Keys(DenoteList(m0, kids)), Texts(DenoteList(m0, kids), true, depth, fmt);
    ns, es := seq(|kids|, _ => NULL), seq(|kids|, _ => NULL);
    NonePair(m0, h.mem, a, b, |kids|);
    EntriesNone(h.mem, ns, ks);
    EntriesNone(h.mem, es, ts);
    ListedNotNull(m0, first, kids, true);
    var child := first;
    var i: nat := 0;
    fail, len := false, 7 + if fmt then depth else 0;
    while child != NULL
      invariant i <= |kids| == |ns| == |es| && GatheredPair(m0, h.mem, a, b, ns, es, i, i)
      invariant child == PtrAt(kids, i)
      invariant !fail ==> Entries(h.mem, ns, ks, 0, i) && Entries(h.mem, es, ts, 0, i)
      invariant !fail ==> len == 7 + (if fmt then depth else 0) + MembersLength(ks, ts, i, depth, fmt)
      invariant if fail then h.failed else h.failed == old(h.failed)
      decreases |kids| - i
    {
      var ok, space;
      ok, space, ns, es := CollectMember(h, child, a, b, i, depth, fmt, m0, first, kids, ns, es);
      len := len + space;
      fail := fail || !ok;
      i := i + 1;
      child := h.mem.cells[child].next;
    }
  }

  /** print_object */
  method PrintObject(h: Heap, item: Ptr, depth: nat, fmt: bool, ghost n: Node) returns (out: Ptr)
    requires h.mem.Valid() && Target(h.mem, item, n) && item in h.mem.cells && h.mem.cells[item].kind == KObject
    modifies h
    ensures h.mem.Valid()
    ensures out == NULL ==> h.mem == old(h.mem) && h.failed
    ensures out != NULL ==> h.failed == old(h.failed)
    ensures out != NULL ==> Printed(old(h.mem), h.mem, out, Print(Denote(old(h.mem), n), depth, fmt))
    decreases n, 0
  {
    hide NodeFits, Sep, SepList, Proper, Denote, DenoteList, CString, Printed, Texts, Keys, GatheredPair, Entries,
      Scratch, PrintMembers, Print;
    ghost var m0 := h.mem;
    TargetFacts(m0, item, n);
    ListedKids(m0, n);
    var first := h.mem.cells[item].child;
    var count := CountItems(h, first, NULL, n.kids);
    if count == 0 {
      out := PrintEmptyObject(h, depth, fmt);
      EmptyObject(m0, n, depth, fmt);
      return;
    }
    var b := h.MallocVec(count);
    if b == NULL { return NULL; }
    ScratchSelf(m0);
    ScratchVec(m0, m0, {}, b, seq(count, _ => NULL));
    assert {} + {b} == {b};
    ghost var m1 := h.mem;
    var a := h.MallocVec(count);
    if a == NULL {
      FreeElement(h, b, m0, {b});
      assert {b} - Block(b) == {};
      ScratchGone(m0, h.mem);
      return NULL;
    }
    ScratchVec(m0, m1, {b}, a, seq(count, _ => NULL));
    assert {b} + {a} == {a, b} && b in m1.Live();
    var fail, len;
    ghost var ns, es;
    fail, len, ns, es := CollectMembers(h, first, a, b, depth + 1, fmt, m0, n.kids);
    out := FinishObject(h, a, b, count, fail, len, depth, fmt, m0, n, ns, es);
  }

  function EmptyText(depth: nat, fmt: bool): bytes {
    if fmt then [LBRACE, NEWLINE] + Tabs(if depth > 0 then depth - 1 else 0) + [RBRACE] else [LBRACE, RBRACE]
  }

  /** The text of an object without members, in a block of its own. */
  method PrintEmptyObject(h: Heap, depth: nat, fmt: bool) returns (out: Ptr)
    requires h.mem.Valid()
    modifies h
    ensures h.mem.Valid()
    ensures out == NULL ==> h.mem == old(h.mem) && h.failed
    ensures out != NULL ==> h.failed == old(h.failed) && Printed(old(h.mem), h.mem, out, EmptyText(depth, fmt))
  {
    hide Printed;
    out := NewText(h, if fmt then depth + 4 else 3, EmptyText(depth, fmt));
  }

  lemma EmptyObject(m: Store, n: Node, depth: nat, fmt: bool)
    requires NodeFits(m, n) && Printable(Denote(m, n)) && n.p in m.cells && m.cells[n.p].kind == KObject && n.kids == []
    ensures Print(Denote(m, n), depth, fmt) == EmptyText(depth, fmt)
  {
  }

  /** The second half of print_object: allocate the output, and compose it or give everything back. */
  method FinishObject(h: Heap, a: Ptr, b: Ptr, count: nat, fail: bool, len: nat, depth: nat, fmt: bool, ghost m0: Store,
                      ghost n: Node, ghost ns: seq<Ptr>, ghost es: seq<Ptr>)
    returns (out: Ptr)
    requires NodeFits(m0, n) && n.p in m0.cells && m0.cells[n.p].kind == KObject && Printable(Denote(m0, n))
    requires 0 < count == |n.kids| == |ns| == |es| && GatheredPair(m0, h.mem, a, b, ns, es, count, count)
    requires Listed(m0, m0.cells[n.p].child, n.kids, true)
    requires var ks, ts := Keys(DenoteList(m0, n.kids)), Texts(DenoteList(m0, n.kids), true, depth + 1, fmt);
      !fail ==>
        && |ts| == |ks| == count && Entries(h.mem, ns, ks, 0, count) && Entries(h.mem, es, ts, 0, count)
        && len == 7 + (if fmt then depth + 1 else 0) + MembersLength(ks, ts, count, depth + 1, fmt)
    requires fail ==> h.failed
    modifies h
    ensures h.mem.Valid()
    ensures out == NULL ==> h.mem == m0 && h.failed
    ensures out != NULL ==> !fail && h.failed == old(h.failed)
    ensures out != NULL ==> Printed(m0, h.mem, out, Print(Denote(m0, n), depth, fmt))
  {
    ListedFacts(m0, m0.cells[n.p].child, n.kids, true);
    assert Denote(m0, n) == Object(DenoteList(m0, n.kids)) && DenoteList(m0, n.kids).Cons?;
    hide NodeFits, DenoteList, CString, Printed, Texts, Keys, Entries, Scratch, Print, Distinct, PtrSet, ComposingPair,
      GatheredPair, Denote;
    hide MembersTo, MembersLength, Listed, ObjectHead, ObjectTail;
    PairFacts(m0, h.mem, a, b, ns, es, count, count);
    out := NULL;
    if !fail { out := h.Malloc(len); }
    if out == NULL {
      GiveBack(h, a, b, count, m0, ns, es);
      return;
    }
    ghost var c := DenoteList(m0, n.kids);
    ghost var ks, ts := Keys(c), Texts(c, true, depth + 1, fmt);
    StartObject(m0, old(h.mem), h.mem, a, b, ns, es, ks, ts, out, len);
    ObjectRoom(c, depth, fmt, len);
    ComposeObject(h, out, a, b, count, depth + 1, fmt, m0, ns, es, ks, ts, len);
    PrintedFacts(m0, h.mem, out, Print(Denote(m0, n), depth, fmt));
  }

  lemma ObjectRoom(c: Chain, depth: nat, fmt: bool, len: nat)
    requires PrintableItems(c, true) && c.Cons?
    requires var ks, ts := Keys(c), Texts(c, true, depth + 1, fmt);
      |ks| == |ts| && len == 7 + (if fmt then depth + 1 else 0) + MembersLength(ks, ts, |ts|, depth + 1, fmt)
    ensures var ks, ts := Keys(c), Texts(c, true, depth + 1, fmt);
      |MembersTo(ks, ts, |ts|, depth + 1, fmt)| + 4 + (if fmt then depth else 0) <= len
    ensures var ks, ts := Keys(c), Texts(c, true, depth + 1, fmt);
      ObjectHead(fmt) + MembersTo(ks, ts, |ts|, depth + 1, fmt) + ObjectTail(depth, fmt) == Print(Object(c), depth, fmt)
  {
    hide Texts, Keys, MembersLength, MembersTo, Print;
    var ks, ts := Keys(c), Texts(c, true, depth + 1, fmt);
    ObjectPrint(c, depth, fmt);
    var x, tabs := ObjectHead(fmt) + MembersTo(ks, ts, |ts|, depth + 1, fmt), if fmt then Tabs(depth) else [];
    assert x + tabs + [RBRACE] == x + (tabs + [RBRACE]);
    MembersFit(ks, ts, |ts|, depth + 1, fmt);
  }

  /** After a failure names, values and both arrays are freed. */
  method GiveBack(h: Heap, a: Ptr, b: Ptr, n: nat, ghost m0: Store, ghost ns: seq<Ptr>, ghost es: seq<Ptr>)
    requires GatheredPair(m0, h.mem, a, b, ns, es, n, n) && |ns| == |es| == n
    modifies h`mem
    ensures h.mem == m0 && h.mem.Valid()
  {
    hide Scratch, GatheredPair;
    PairFacts(m0, h.mem, a, b, ns, es, n, n);
    FreePairs(h, a, b, n, m0, ns, es);
    FreeElement(h, a, m0, {a, b});
    FreeElement(h, b, m0, {a, b} - Block(a));
    assert {a, b} - Block(a) - Block(b) == {};
    ScratchGone(m0, h.mem);
    ScratchFacts(m0, h.mem, {});
  }

  /** The output is allocated and nothing written. */
  lemma StartObject(m0: Store, m: Store, m': Store, a: Ptr, b: Ptr, ns: seq<Ptr>, es: seq<Ptr>, ks: seq<bytes>,
                    ts: seq<bytes>, out: Ptr, len: nat)
    requires GatheredPair(m0, m, a, b, ns, es, |ns|, |es|) && |ns| == |es|
    requires Entries(m, ns, ks, 0, |ns|) && Entries(m, es, ts, 0, |es|)
    requires out != NULL && out !in m.Live() && out in m'.bufs && m' == WithBuffer(m, out, m'.bufs[out])
      && |m'.bufs[out]| == len
    ensures ComposingPair(m0, m', a, b, ns, es, 0, out, len, [])
    ensures Entries(m', ns, ks, 0, |ns|) && Entries(m', es, ts, 0, |es|)
  {
    hide CString, Scratch, Distinct, PtrSet, Entries, Apart;
    var s := {a, b} + PtrSet(ns) + PtrSet(es);
    ScratchBuffer(m0, m, s, out, m'.bufs[out]);
    ScratchFacts(m0, m, s);
    assert ns[0..] == ns && es[0..] == es && s + {out} == {a, b, out} + PtrSet(ns) + PtrSet(es);
    EntriesKept(m, m', ns, ks, 0, |ns|, {});
    EntriesKept(m, m', es, ts, 0, |es|, {});
  }

  /** cJSON_Print and cJSON_PrintUnformatted */
  method PrintTree(h: Heap, item: Ptr, fmt: bool, ghost n: Node) returns (out: Ptr)
    requires h.mem.Valid() && (item != NULL ==> Target(h.mem, item, n))
    modifies h
    ensures h.mem.Valid()
    ensures out == NULL ==> h.mem == old(h.mem) && (item != NULL ==> h.failed)
    ensures out != NULL ==> item != NULL && h.failed == old(h.failed)
    ensures out != NULL ==> Printed(old(h.mem), h.mem, out, Print(Denote(old(h.mem), n), 0, fmt))
  {
    hide Target, Printed;
    out := PrintValue(h, item, 0, fmt, n);
  }
}
