/** The buffered printer: every value is appended to one growing buffer, and the text is the one the
    unbuffered printer gives. */
module BufferPrinter {
  import opened Bytes
  import opened Literal
  import opened Json
  import opened CHeap
  import opened Items
  import opened Blocks
  import opened Writer
  import opened Joining
  import opened Compose
  import opened Printer
  import opened PrintBuffer

  /** After a value was appended: its text and a terminator are in the buffer, the offset is somewhere in it. */
  ghost predicate Appended(p: PrintBuffer, m0: Store, m: Store, failed: bool, w: bytes, text: bytes)
    reads p
  {
    && Ready(p, m0, m, failed, w + text + [NUL])
    && (p.buffer != NULL ==> |w| <= p.offset <= |w| + |text| && NulFree(text))
  }

  /** Where the returned pointer points: at the text, except that print_object has lost its `i` to the loop
      that writes the closing tabs. */
  ghost function ReturnedAt(m: Store, n: Node, depth: nat, fmt: bool, at: nat): nat
    requires n.p in m.cells
  {
    if m.cells[n.p].kind == KObject && n.kids != [] && fmt then depth else at
  }

  /** A leaf: room, then its text and a terminator; the offset stays. */
  method BufferText(h: Heap, p: PrintBuffer, needed: nat, text: bytes, ghost m0: Store, ghost w: bytes)
    returns (ok: bool)
    requires Ready(p, m0, h.mem, h.failed, w) && m0.Valid() && (p.buffer != NULL ==> p.offset == |w|)
    requires |text| < needed && NulFree(text)
    modifies h, p
    ensures ok == (p.buffer != NULL) && (ok ==> h.failed == old(h.failed) && old(p.buffer) != NULL)
    ensures Appended(p, m0, h.mem, h.failed, w, text)
  {
    hide Ready, NulFree;
    ok := Emit(h, p, needed, text, true, false, m0, w);
  }

  /** print_number on the buffer. */
  method BufferNumber(h: Heap, p: PrintBuffer, whole: int, num: Decimal, ghost m0: Store, ghost w: bytes)
    returns (ok: bool)
    requires Ready(p, m0, h.mem, h.failed, w) && m0.Valid() && (p.buffer != NULL ==> p.offset == |w|)
    requires Printable(Number(num)) && Converted(whole, num)
    modifies h, p
    ensures ok == (p.buffer != NULL) && (ok ==> h.failed == old(h.failed) && old(p.buffer) != NULL)
    ensures Appended(p, m0, h.mem, h.failed, w, Print(Number(num), 0, false))
  {
    hide Ready, IntText, Converted;
    if num.mant == 0 {
      ok := BufferText(h, p, 2, [DIGIT_0], m0, w);
    } else {
      ConvertedWhole(whole, num);
      IntTextFits(whole);
      ok := BufferText(h, p, 21, IntText(whole), m0, w);
    }
  }

  /** print_string_ptr on the buffer. */
  method BufferString(h: Heap, p: PrintBuffer, text: bytes, ghost m0: Store, ghost w: bytes) returns (ok: bool)
    requires Ready(p, m0, h.mem, h.failed, w) && m0.Valid() && (p.buffer != NULL ==> p.offset == |w|)
    requires NulFree(text)
    modifies h, p
    ensures ok == (p.buffer != NULL) && (ok ==> h.failed == old(h.failed) && old(p.buffer) != NULL)
    ensures Appended(p, m0, h.mem, h.failed, w, Quoted(text))
  {
    hide Ready, NulFree, Writing, Quoted;
    QuotedNulFree(text);
    var flag := NeedsEscaping(text);
    var len := |text|;
    if flag { len := MeasureText(text); }
    ok := Ensure(h, p, len + 3, m0, w);
    if !ok { AppendedNot(p, m0, h.mem, h.failed, w, w, Quoted(text)); return; }
    ghost var m := h.mem;
    ReadyFacts(p, m0, m, h.failed, w);
    if flag {
      PutQuoted(h, p.buffer, p.offset, text);
    } else {
      PutPlain(h, p.buffer, p.offset, text);
    }
    WritingReady(p, m0, m, h.mem, h.failed, w, Quoted(text) + [NUL]);
    assert w + (Quoted(text) + [NUL]) == w + Quoted(text) + [NUL];
  }

  /** Once the buffer is gone, nothing more is claimed of it. */
  lemma AppendedNot(p: PrintBuffer, m0: Store, m: Store, failed: bool, w: bytes, w': bytes, text: bytes)
    requires Ready(p, m0, m, failed, w) && p.buffer == NULL
    ensures Appended(p, m0, m, failed, w', text) && Ready(p, m0, m, failed, w')
  {
  }

  lemma QuotedNulFree(text: bytes)
    requires NulFree(text)
    ensures NulFree(Quoted(text))
  {
    EscapeNulFree(text);
  }

  lemma ReadyFacts(p: PrintBuffer, m0: Store, m: Store, failed: bool, w: bytes)
    requires Ready(p, m0, m, failed, w)
    ensures m.Valid()
    ensures p.buffer != NULL ==> p.buffer in m.bufs && |m.bufs[p.buffer]| == p.length && Scratch(m0, m, {p.buffer})
  {
    hide Scratch;
  }

  lemma WritingReady(p: PrintBuffer, m0: Store, m: Store, m': Store, failed: bool, w: bytes, s: bytes)
    requires Ready(p, m0, m, failed, w) && p.buffer != NULL && Writing(m, m', p.buffer, |w|, s)
    ensures Ready(p, m0, m', failed, w + s)
  {
    ScratchWrite(m0, m, {p.buffer}, p.buffer, m'.bufs[p.buffer]);
    hide Scratch;
    ScratchFacts(m0, m', {p.buffer});
  }

  /** An item below m0, in the current store. */
  lemma ItemKept(p: PrintBuffer, m0: Store, m: Store, failed: bool, w: bytes, n: Node)
    requires Ready(p, m0, m, failed, w) && NodeFits(m0, n) && Sep(n)
    ensures n.p in m.cells && n.p in m0.cells && m.cells[n.p] == m0.cells[n.p]
    ensures TextAt(m, n.vs) == TextAt(m0, n.vs) && TextAt(m, n.nm) == TextAt(m0, n.nm)
    ensures (n.vs != NULL ==> n.vs in m.bufs) && (n.nm != NULL ==> n.nm in m.bufs)
    ensures m0.cells[n.p].valuestring == n.vs && m0.cells[n.p].name == n.nm
  {
    hide Sep, CString, Scratch, NodeFits, Denote, Proper, Begun, AllFit, Linked;
    Fields(m0, n);
    if p.buffer != NULL {
      ScratchNode(m0, m, {p.buffer}, n);
      Fields(m, n);
    }
  }

  /** print_value on the buffer. */
  method BufferValue(h: Heap, p: PrintBuffer, item: Ptr, depth: nat, fmt: bool, ghost n: Node, ghost m0: Store,
                     ghost w: bytes)
    returns (ok: bool, pos: nat)
    requires Target(m0, item, n) && m0.Valid()
    requires Ready(p, m0, h.mem, h.failed, w) && (p.buffer != NULL ==> p.offset == |w|)
    modifies h, p
    ensures ok == (p.buffer != NULL) && (ok ==> h.failed == old(h.failed) && old(p.buffer) != NULL)
    ensures Appended(p, m0, h.mem, h.failed, w, Print(Denote(m0, n), depth, fmt))
    ensures n.p in m0.cells && (ok ==> pos == ReturnedAt(m0, n, depth, fmt, |w|))
    decreases n, 1
  {
    hide Target, NodeFits, Sep, Proper, Denote, Print, CString, Quoted, Ready, Appended;
    TargetFacts(m0, item, n);
    LeafText(m0, n, depth, fmt);
    ItemKept(p, m0, h.mem, h.failed, w, n);
    pos := p.offset;
    var c := h.mem.cells[item];
    FixedNulFree();
    match c.kind {
      case KNull => ok := BufferText(h, p, 5, NULL_TEXT, m0, w);
      case KFalse => ok := BufferText(h, p, 6, FALSE_TEXT, m0, w);
      case KTrue => ok := BufferText(h, p, 5, TRUE_TEXT, m0, w);
      case KNumber => ok := BufferNumber(h, p, c.valueint, c.valuedouble, m0, w);
      case KString => ok := BufferString(h, p, CString(h.mem.bufs[c.valuestring]), m0, w);
      case KArray => ok, pos := BufferArray(h, p, item, depth, fmt, n, m0, w);
      case KObject => ok, pos := BufferObject(h, p, item, depth, fmt, n, m0, w);
    }
  }

  lemma FixedNulFree()
    ensures NulFree(NULL_TEXT) && NulFree(FALSE_TEXT) && NulFree(TRUE_TEXT) && NulFree([LBRACKET, RBRACKET])
  {
  }

  /** print_array on the buffer. */
  method BufferArray(h: Heap, p: PrintBuffer, item: Ptr, depth: nat, fmt: bool, ghost n: Node, ghost m0: Store,
                     ghost w: bytes)
    returns (ok: bool, pos: nat)
    requires Target(m0, item, n) && m0.Valid() && item in m0.cells && m0.cells[item].kind == KArray
    requires Ready(p, m0, h.mem, h.failed, w) && (p.buffer != NULL ==> p.offset == |w|)
    modifies h, p
    ensures ok == (p.buffer != NULL) && (ok ==> h.failed == old(h.failed) && old(p.buffer) != NULL)
    ensures Appended(p, m0, h.mem, h.failed, w, Print(Denote(m0, n), depth, fmt))
    ensures ok ==> pos == |w|
    decreases n, 0
  {
    ghost var kids := n.kids;
    TargetFacts(m0, item, n);
    assert Printable(Denote(m0, n));
    hide NodeFits, Sep, SepList, Proper, Denote, DenoteList, CString, Texts, PrintItems, Ready, Appended, Print, Listed,
      Target, Printable, PrintableItems;
    ListedKids(m0, n);
    ItemKept(p, m0, h.mem, h.failed, w, n);
    var first := h.mem.cells[item].child;
    var count := CountKids(h, p, first, kids, false, m0, w);
    pos := p.offset;
    if count == 0 {
      EmptyArray(m0, n, depth, fmt);
      FixedNulFree();
      ok := BufferText(h, p, 3, [LBRACKET, RBRACKET], m0, w);
      return;
    }
    ListedFacts(m0, first, kids, false);
    ok := BufferList(h, p, first, depth, fmt, kids, m0, w);
  }

  /** The part of print_array that writes the brackets and the elements. */
  method BufferList(h: Heap, p: PrintBuffer, first: Ptr, depth: nat, fmt: bool, ghost ns: seq<Node>, ghost m0: Store,
                    ghost w: bytes)
    returns (ok: bool)
    requires Listed(m0, first, ns, false) && m0.Valid() && AllFit(m0, ns) && PrintableItems(DenoteList(m0, ns), false)
    requires Ready(p, m0, h.mem, h.failed, w) && (p.buffer != NULL ==> p.offset == |w|)
    modifies h, p
    ensures ok == (p.buffer != NULL) && (ok ==> h.failed == old(h.failed) && old(p.buffer) != NULL)
    ensures Appended(p, m0, h.mem, h.failed, w, Print(Array(DenoteList(m0, ns)), depth, fmt))
    decreases ns, 4
  {
    hide DenoteList, Texts, PrintItems, Ready, Appended, Print, Listed, PrintableItems, ItemsTo, AllFit;
    ghost var c := DenoteList(m0, ns);
    ghost var text := Print(Array(c), depth, fmt);
    ok := Emit(h, p, 1, [LBRACKET], false, true, m0, w);
    if !ok { AppendedNot(p, m0, h.mem, h.failed, w + [LBRACKET], w, text); return; }
    ok := BufferItems(h, p, first, depth + 1, fmt, ns, m0, w + [LBRACKET]);
    ghost var items := ItemsTo(Texts(c, false, depth + 1, fmt), |ns|, fmt);
    if !ok { AppendedNot(p, m0, h.mem, h.failed, w + [LBRACKET] + items, w, text); return; }
    ArrayPrint(c, depth, fmt);
    assert w + [LBRACKET] + items == w + ([LBRACKET] + items);
    if p.buffer != NULL { Bracketed(LBRACKET, items, RBRACKET); }
    ok := BufferClose(h, p, m0, w, [LBRACKET] + items);
  }

  /** The closing bracket; the offset stays before it. */
  method BufferClose(h: Heap, p: PrintBuffer, ghost m0: Store, ghost w: bytes, ghost t: bytes) returns (ok: bool)
    requires m0.Valid() && Ready(p, m0, h.mem, h.failed, w + t)
    requires p.buffer != NULL ==> p.offset == |w + t| && NulFree(t + [RBRACKET])
    modifies h, p
    ensures ok == (p.buffer != NULL) && (ok ==> h.failed == old(h.failed) && old(p.buffer) != NULL)
    ensures Appended(p, m0, h.mem, h.failed, w, t + [RBRACKET])
  {
    hide Ready;
    ok := Emit(h, p, 2, [RBRACKET], true, false, m0, w + t);
    assert w + t + [RBRACKET] + [NUL] == w + (t + [RBRACKET]) + [NUL];
  }

  /** The elements of an array. */
  method BufferItems(h: Heap, p: PrintBuffer, first: Ptr, depth: nat, fmt: bool, ghost ns: seq<Node>, ghost m0: Store,
                     ghost w: bytes)
    returns (ok: bool)
    requires Listed(m0, first, ns, false) && m0.Valid()
    requires Ready(p, m0, h.mem, h.failed, w) && (p.buffer != NULL ==> p.offset == |w|)
    modifies h, p
    ensures AllFit(m0, ns) && PrintableItems(DenoteList(m0, ns), false)
    ensures var ts := Texts(DenoteList(m0, ns), false, depth, fmt);
      && |ts| == |ns| && var items := ItemsTo(ts, |ns|, fmt);
      && Ready(p, m0, h.mem, h.failed, w + items)
      && (p.buffer != NULL ==> p.offset == |w + items| && h.failed == old(h.failed) && NulFree(items))
    ensures !ok ==> p.buffer == NULL
    ensures old(p.buffer) == NULL ==> p.buffer == NULL
    decreases ns, 3
  {
    hide NodeFits, Sep, SepList, Proper, Denote, DenoteList, Print, CString, Texts, Ready, Listed, NulFree;
    ListedFacts(m0, first, ns, false);
    ListedCount(m0, first, ns, false, depth, fmt);
    ListedNotNull(m0, first, ns, false);
    ghost var ts := Texts(DenoteList(m0, ns), false, depth, fmt);
    var child := first;
    ghost var i: nat := 0;
    ok := true;
    assert w + ItemsTo(ts, 0, fmt) == w;
    while child != NULL
      invariant i <= |ns| && child == PtrAt(ns, i)
      invariant Ready(p, m0, h.mem, h.failed, w + ItemsTo(ts, i, fmt))
      invariant p.buffer != NULL ==> p.offset == |w + ItemsTo(ts, i, fmt)| && h.failed == old(h.failed)
      invariant old(p.buffer) == NULL ==> p.buffer == NULL
      invariant p.buffer != NULL ==> forall j | 0 <= j < i :: NulFree(ts[j])
      decreases |ns| - i
    {
      ghost var w' := w + ItemsTo(ts, i, fmt);
      ok := BufferElement(h, p, child, depth, fmt, first, ns, i, m0, w');
      assert w' + ts[i] + ItemSeparator(i + 1 == |ns|, fmt) == w + ItemsTo(ts, i + 1, fmt);
      if !ok {
        AppendedNot(p, m0, h.mem, h.failed, w + ItemsTo(ts, i + 1, fmt), w + ItemsTo(ts, |ns|, fmt), []);
        return;
      }
      i := i + 1;
      child := h.mem.cells[child].next;
    }
    if p.buffer != NULL { ItemsNulFree(ts, |ns|, fmt); }
  }

  /** Counting the children of an item. */
  method CountKids(h: Heap, p: PrintBuffer, first: Ptr, ghost ns: seq<Node>, ghost named: bool, ghost m0: Store,
                   ghost w: bytes)
    returns (count: nat)
    requires Listed(m0, first, ns, named) && Ready(p, m0, h.mem, h.failed, w)
    ensures count == |ns|
  {
    hide NodeFits, SepList, DenoteList, Scratch, Begun;
    if p.buffer != NULL { ScratchList(m0, h.mem, {p.buffer}, first, NULL, ns); }
    count := CountItems(h, first, NULL, ns);
  }

  /** One element of an array: the value, then the separator if another one follows. */
  method BufferElement(h: Heap, p: PrintBuffer, child: Ptr, depth: nat, fmt: bool, ghost first: Ptr,
                       ghost ns: seq<Node>, ghost i: nat, ghost m0: Store, ghost w: bytes)
    returns (ok: bool)
    requires Listed(m0, first, ns, false) && i < |ns| && child == ns[i].p && m0.Valid()
    requires Ready(p, m0, h.mem, h.failed, w) && (p.buffer != NULL ==> p.offset == |w|)
    modifies h, p
    ensures child in h.mem.cells && h.mem.cells[child].next == PtrAt(ns, i + 1)
    ensures AllFit(m0, ns) && PrintableItems(DenoteList(m0, ns), false)
    ensures var ts := Texts(DenoteList(m0, ns), false, depth, fmt);
      && |ts| == |ns| && var w' := w + ts[i] + ItemSeparator(i + 1 == |ns|, fmt);
      && Ready(p, m0, h.mem, h.failed, w')
      && (p.buffer != NULL ==> p.offset == |w'| && h.failed == old(h.failed) && NulFree(ts[i]))
    ensures !ok ==> p.buffer == NULL
    ensures old(p.buffer) == NULL ==> p.buffer == NULL
    decreases ns, 2
  {
    hide NodeFits, Sep, SepList, Proper, Denote, DenoteList, Print, CString, Texts, Ready, Listed, NulFree;
    ListedFacts(m0, first, ns, false);
    ListedTarget(m0, first, ns, false, depth, fmt, i);
    ghost var ts := Texts(DenoteList(m0, ns), false, depth, fmt);
    var pos;
    ok, pos := BufferValue(h, p, child, depth, fmt, ns[i], m0, w);
    Update(h, p, m0, w, ts[i]);
    ItemKept(p, m0, h.mem, h.failed, w + ts[i], ns[i]);
    ok := true;
    if h.mem.cells[child].next != NULL {
      ok := Emit(h, p, if fmt then 3 else 2, if fmt then [COMMA, SPACE] else [COMMA], true, true, m0, w + ts[i]);
      ItemKept(p, m0, h.mem, h.failed, w + ts[i] + ItemSeparator(false, fmt), ns[i]);
    } else {
      assert w + ts[i] + [] == w + ts[i];
    }
  }

  /** One child, as a target of the printer. */
  lemma ListedTarget(m: Store, first: Ptr, ns: seq<Node>, named: bool, depth: nat, fmt: bool, k: nat)
    requires Listed(m, first, ns, named) && k < |ns| && m.Valid()
    ensures Target(m, ns[k].p, ns[k]) && AllFit(m, ns) && PrintableItems(DenoteList(m, ns), named)
    ensures ns[k].p in m.cells && ns[k].p != NULL && m.cells[ns[k].p].next == PtrAt(ns, k + 1)
    ensures k + 1 < |ns| ==> ns[k + 1].p != NULL
    ensures |Texts(DenoteList(m, ns), named, depth, fmt)| == |ns|
    ensures Texts(DenoteList(m, ns), named, depth, fmt)[k] == Print(Denote(m, ns[k]), depth, fmt)
    ensures named ==> |Keys(DenoteList(m, ns))| == |ns| && ns[k].nm != NULL
    ensures named ==> Keys(DenoteList(m, ns))[k] == Quoted(TextAt(m, ns[k].nm))
  {
    hide NodeFits, Sep, Denote, Print, Quoted, Proper, CString, Keys, Texts, DenoteList, Scratch, SepList, Listed;
    ScratchSelf(m);
    ListedFacts(m, first, ns, named);
    ListedNotNull(m, first, ns, named);
    ListedAt(m, m, {}, first, ns, named, depth, fmt, k);
  }

  /** Room for n tabs, the tabs, and the offset behind them. */
  method BufferTabs(h: Heap, p: PrintBuffer, n: nat, ghost m0: Store, ghost w: bytes) returns (ok: bool)
    requires Ready(p, m0, h.mem, h.failed, w) && m0.Valid() && (p.buffer != NULL ==> p.offset == |w|)
    modifies h, p
    ensures ok == (p.buffer != NULL) && (ok ==> h.failed == old(h.failed) && old(p.buffer) != NULL)
    ensures Ready(p, m0, h.mem, h.failed, w + Tabs(n)) && (ok ==> p.offset == |w + Tabs(n)|)
  {
    hide Scratch;
    ok := Ensure(h, p, n, m0, w);
    if !ok { return; }
    var end := ExtendTabs(h, p.buffer, p.offset, n, p.length, w, m0, {p.buffer});
    ScratchFacts(m0, h.mem, {p.buffer});
    p.offset := p.offset + n;
  }

  /** The indentation, the name and the colon of a member. */
  method BufferKey(h: Heap, p: PrintBuffer, name: bytes, depth: nat, fmt: bool, ghost m0: Store, ghost w: bytes)
    returns (ok: bool)
    requires Ready(p, m0, h.mem, h.failed, w) && m0.Valid() && (p.buffer != NULL ==> p.offset == |w|)
    requires NulFree(name)
    modifies h, p
    ensures ok == (p.buffer != NULL) && (ok ==> h.failed == old(h.failed) && old(p.buffer) != NULL)
    ensures var w' := w + KeyText(Quoted(name), depth, fmt);
      Ready(p, m0, h.mem, h.failed, w') && (ok ==> p.offset == |w'|)
  {
    hide Ready, Quoted, NulFree;
    QuotedNulFree(name);
    ghost var key := Quoted(name);
    ghost var tabs := if fmt then Tabs(depth) else [];
    ghost var w' := w + KeyText(key, depth, fmt);
    ok := true;
    if fmt {
      ok := BufferTabs(h, p, depth, m0, w);
      if !ok { AppendedNot(p, m0, h.mem, h.failed, w + tabs, w', []); return; }
    }
    assert w + [] == w;
    ok := BufferString(h, p, name, m0, w + tabs);
    Update(h, p, m0, w + tabs, key);
    ok := Emit(h, p, if fmt then 2 else 1, if fmt then [COLON, TAB] else [COLON], false, true, m0, w + tabs + key);
    assert w + tabs + key + KeySeparator(fmt) == w';
  }

  /** One member of an object. */
  method BufferMember(h: Heap, p: PrintBuffer, child: Ptr, depth: nat, fmt: bool, ghost first: Ptr, ghost ns: seq<Node>,
                      ghost i: nat, ghost m0: Store, ghost w: bytes)
    returns (ok: bool)
    requires Listed(m0, first, ns, true) && i < |ns| && child == ns[i].p && m0.Valid()
    requires Ready(p, m0, h.mem, h.failed, w) && (p.buffer != NULL ==> p.offset == |w|)
    modifies h, p
    ensures child in h.mem.cells && h.mem.cells[child].next == PtrAt(ns, i + 1)
    ensures AllFit(m0, ns) && PrintableItems(DenoteList(m0, ns), true)
    ensures var ks, ts := Keys(DenoteList(m0, ns)), Texts(DenoteList(m0, ns), true, depth, fmt);
      && |ts| == |ks| == |ns| && var w' := w + MemberText(ks[i], ts[i], i + 1 == |ns|, depth, fmt);
      && Ready(p, m0, h.mem, h.failed, w')
      && (p.buffer != NULL ==> p.offset == |w'| && h.failed == old(h.failed) && NulFree(ks[i]) && NulFree(ts[i]))
    ensures !ok ==> p.buffer == NULL
    ensures old(p.buffer) == NULL ==> p.buffer == NULL
    decreases ns, 2
  {
    hide NodeFits, Sep, SepList, Proper, Denote, DenoteList, Print, CString, Texts, Keys, Ready, Listed, NulFree,
      KeyText, Quoted;
    ListedFacts(m0, first, ns, true);
    ListedTarget(m0, first, ns, true, depth, fmt, i);
    ghost var ks, ts := Keys(DenoteList(m0, ns)), Texts(DenoteList(m0, ns), true, depth, fmt);
    ItemKept(p, m0, h.mem, h.failed, w, ns[i]);
    var name := CString(h.mem.bufs[h.mem.cells[child].name]);
    QuotedNulFree(name);
    ghost var w1 := w + KeyText(ks[i], depth, fmt);
    ok := BufferKey(h, p, name, depth, fmt, m0, w);
    var pos;
    if ok {
      ok, pos := BufferValue(h, p, child, depth, fmt, ns[i], m0, w1);
      Update(h, p, m0, w1, ts[i]);
      ok := BufferEnd(h, p, child, fmt, m0, w1 + ts[i], ns[i]);
    }
    ghost var w' := w + MemberText(ks[i], ts[i], i + 1 == |ns|, depth, fmt);
    assert w1 + ts[i] + MemberSeparator(i + 1 == |ns|, fmt) == w';
    if !ok { AppendedGone(p, m0, h.mem, h.failed); }
    ItemKept(p, m0, h.mem, h.failed, w', ns[i]);
  }

  lemma AppendedGone(p: PrintBuffer, m0: Store, m: Store, failed: bool)
    requires p.buffer == NULL && exists w :: Ready(p, m0, m, failed, w)
    ensures forall w :: Ready(p, m0, m, failed, w)
  {
  }

  /** The comma, if another member follows, and the line end. */
  method BufferEnd(h: Heap, p: PrintBuffer, child: Ptr, fmt: bool, ghost m0: Store, ghost w: bytes, ghost n: Node)
    returns (ok: bool)
    requires Ready(p, m0, h.mem, h.failed, w) && m0.Valid() && (p.buffer != NULL ==> p.offset == |w|)
    requires NodeFits(m0, n) && Sep(n) && child == n.p && child in m0.cells
    modifies h, p
    ensures ok == (p.buffer != NULL) && (ok ==> h.failed == old(h.failed) && old(p.buffer) != NULL)
    ensures var w' := w + MemberSeparator(m0.cells[child].next == NULL, fmt);
      Ready(p, m0, h.mem, h.failed, w') && (ok ==> p.offset == |w'|)
  {
    hide Ready, NodeFits, Sep, TextAt;
    ItemKept(p, m0, h.mem, h.failed, w, n);
    var sep := (if h.mem.cells[child].next != NULL then [COMMA] else []) + (if fmt then [NEWLINE] else []);
    ok := Emit(h, p, |sep| + 1, sep, true, true, m0, w);
  }

  /** The members of an object. */
  method BufferMembers(h: Heap, p: PrintBuffer, first: Ptr, depth: nat, fmt: bool, ghost ns: seq<Node>, ghost m0: Store,
                       ghost w: bytes)
    returns (ok: bool, ghost members: bytes)
    requires Listed(m0, first, ns, true) && m0.Valid()
    requires Ready(p, m0, h.mem, h.failed, w) && (p.buffer != NULL ==> p.offset == |w|)
    modifies h, p
    ensures AllFit(m0, ns) && PrintableItems(DenoteList(m0, ns), true)
    ensures var ks, ts := Keys(DenoteList(m0, ns)), Texts(DenoteList(m0, ns), true, depth, fmt);
      |ts| == |ks| == |ns| && members == MembersTo(ks, ts, |ns|, depth, fmt)
    ensures Ready(p, m0, h.mem, h.failed, w + members)
    ensures p.buffer != NULL ==> p.offset == |w + members| && h.failed == old(h.failed) && NulFree(members)
    ensures !ok ==> p.buffer == NULL
    ensures old(p.buffer) == NULL ==> p.buffer == NULL
    decreases ns, 3
  {
    hide NodeFits, Sep, SepList, Proper, Denote, DenoteList, Print, CString, Texts, Keys, Ready, Listed, NulFree,
      MemberText;
    ListedFacts(m0, first, ns, true);
    ListedCount(m0, first, ns, true, depth, fmt);
    ListedNotNull(m0, first, ns, true);
    ghost var ks, ts := Keys(DenoteList(m0, ns)), Texts(DenoteList(m0, ns), true, depth, fmt);
    members := MembersTo(ks, ts, |ns|, depth, fmt);
    var child := first;
    ghost var i: nat := 0;
    ok := true;
    assert w + MembersTo(ks, ts, 0, depth, fmt) == w;
    while child != NULL
      invariant i <= |ns| && child == PtrAt(ns, i)
      invariant Ready(p, m0, h.mem, h.failed, w + MembersTo(ks, ts, i, depth, fmt))
      invariant p.buffer != NULL ==> p.offset == |w + MembersTo(ks, ts, i, depth, fmt)| && h.failed == old(h.failed)
      invariant old(p.buffer) == NULL ==> p.buffer == NULL
      invariant p.buffer != NULL ==> forall j | 0 <= j < i :: NulFree(ks[j]) && NulFree(ts[j])
      decreases |ns| - i
    {
      ghost var w' := w + MembersTo(ks, ts, i, depth, fmt);
      ok := BufferMember(h, p, child, depth, fmt, first, ns, i, m0, w');
      assert w' + MemberText(ks[i], ts[i], i + 1 == |ns|, depth, fmt) == w + MembersTo(ks, ts, i + 1, depth, fmt);
      if !ok {
        AppendedGone(p, m0, h.mem, h.failed);
        return;
      }
      i := i + 1;
      child := h.mem.cells[child].next;
    }
    if p.buffer != NULL { MembersNulFree(ks, ts, |ns|, depth, fmt); }
  }

  /** The closing brace and its indentation; the offset stays before them. */
  method BufferTail(h: Heap, p: PrintBuffer, depth: nat, fmt: bool, ghost m0: Store, ghost w: bytes, ghost t: bytes)
    returns (ok: bool)
    requires m0.Valid() && Ready(p, m0, h.mem, h.failed, w + t)
    requires p.buffer != NULL ==> p.offset == |w + t| && NulFree(t)
    modifies h, p
    ensures ok == (p.buffer != NULL) && (ok ==> h.failed == old(h.failed) && old(p.buffer) != NULL)
    ensures Appended(p, m0, h.mem, h.failed, w, t + ObjectTail(depth, fmt))
  {
    hide Scratch, NulFree;
    ok := Ensure(h, p, if fmt then depth + 2 else 2, m0, w + t);
    if !ok { return; }
    ghost var tabs := if fmt then Tabs(depth) else [];
    var end := p.offset;
    if fmt {
      end := ExtendTabs(h, p.buffer, end, depth, p.length, w + t, m0, {p.buffer});
    }
    assert w + t + [] == w + t;
    end := Extend(h, p.buffer, end, [RBRACE], true, p.length, w + t + tabs, m0, {p.buffer});
    ScratchFacts(m0, h.mem, {p.buffer});
    assert w + t + tabs + [RBRACE] + [NUL] == w + (t + ObjectTail(depth, fmt)) + [NUL];
    TailNulFree(t, depth, fmt);
  }

  /** The part of print_object that writes the braces and the members. */
  method BufferPairs(h: Heap, p: PrintBuffer, first: Ptr, depth: nat, fmt: bool, ghost ns: seq<Node>, ghost m0: Store,
                     ghost w: bytes)
    returns (ok: bool)
    requires Listed(m0, first, ns, true) && ns != []
    requires m0.Valid() && AllFit(m0, ns) && PrintableItems(DenoteList(m0, ns), true)
    requires Ready(p, m0, h.mem, h.failed, w) && (p.buffer != NULL ==> p.offset == |w|)
    modifies h, p
    ensures ok == (p.buffer != NULL) && (ok ==> h.failed == old(h.failed) && old(p.buffer) != NULL)
    ensures Appended(p, m0, h.mem, h.failed, w, Print(Object(DenoteList(m0, ns)), depth, fmt))
    decreases ns, 5
  {
    hide DenoteList, Ready, Appended, Print, Listed, PrintableItems, AllFit, ObjectHead;
    var head := ObjectHead(fmt);
    ok := Emit(h, p, |head| + 1, head, true, true, m0, w);
    if ok {
      ok := BufferInner(h, p, first, depth, fmt, ns, m0, w);
    } else {
      AppendedNot(p, m0, h.mem, h.failed, w + head, w, Print(Object(DenoteList(m0, ns)), depth, fmt));
    }
  }

  /** The members and the closing brace. */
  method BufferInner(h: Heap, p: PrintBuffer, first: Ptr, depth: nat, fmt: bool, ghost ns: seq<Node>, ghost m0: Store,
                     ghost w: bytes)
    returns (ok: bool)
    requires Listed(m0, first, ns, true) && ns != []
    requires m0.Valid() && AllFit(m0, ns) && PrintableItems(DenoteList(m0, ns), true)
    requires Ready(p, m0, h.mem, h.failed, w + ObjectHead(fmt)) && p.buffer != NULL && p.offset == |w + ObjectHead(fmt)|
    modifies h, p
    ensures ok == (p.buffer != NULL) && (ok ==> h.failed == old(h.failed))
    ensures Appended(p, m0, h.mem, h.failed, w, Print(Object(DenoteList(m0, ns)), depth, fmt))
    decreases ns, 4
  {
    hide DenoteList, Texts, Keys, Ready, Appended, Print, Listed, PrintableItems, MembersTo, AllFit, ObjectHead,
      ObjectTail, NulFree;
    ghost var head := ObjectHead(fmt);
    ghost var members;
    ok, members := BufferMembers(h, p, first, depth + 1, fmt, ns, m0, w + head);
    MembersWhole(m0, ns, depth, fmt, members);
    if ok {
      assert w + head + members == w + (head + members);
      if p.buffer != NULL { HeadNulFree(members, fmt); }
      ok := BufferTail(h, p, depth, fmt, m0, w, head + members);
    } else {
      AppendedNot(p, m0, h.mem, h.failed, w + head + members, w, Print(Object(DenoteList(m0, ns)), depth, fmt));
    }
  }

  lemma MembersWhole(m: Store, ns: seq<Node>, depth: nat, fmt: bool, members: bytes)
    requires ns != [] && AllFit(m, ns) && PrintableItems(DenoteList(m, ns), true)
    requires var ks, ts := Keys(DenoteList(m, ns)), Texts(DenoteList(m, ns), true, depth + 1, fmt);
      |ts| == |ks| == |ns| && members == MembersTo(ks, ts, |ns|, depth + 1, fmt)
    ensures Print(Object(DenoteList(m, ns)), depth, fmt) == ObjectHead(fmt) + members + ObjectTail(depth, fmt)
  {
    hide Texts, Keys, Print, MembersTo, ObjectHead, ObjectTail, NodeFits, Denote, PrintableItems;
    ObjectParts(DenoteList(m, ns), depth, fmt);
  }

  lemma ObjectParts(c: Chain, depth: nat, fmt: bool)
    requires PrintableItems(c, true) && c.Cons?
    ensures var ks, ts := Keys(c), Texts(c, true, depth + 1, fmt);
      && |ks| == |ts|
      && Print(Object(c), depth, fmt)
         == ObjectHead(fmt) + MembersTo(ks, ts, |ts|, depth + 1, fmt) + ObjectTail(depth, fmt)
  {
    hide Texts, Keys, MembersTo, Print, MembersLength;
    ObjectPrint(c, depth, fmt);
    var ks, ts := Keys(c), Texts(c, true, depth + 1, fmt);
    ObjectRoom(c, depth, fmt, 7 + (if fmt then depth + 1 else 0) + MembersLength(ks, ts, |ts|, depth + 1, fmt));
  }

  /** print_object on the buffer. */
  method BufferObject(h: Heap, p: PrintBuffer, item: Ptr, depth: nat, fmt: bool, ghost n: Node, ghost m0: Store,
                      ghost w: bytes)
    returns (ok: bool, pos: nat)
    requires Target(m0, item, n) && m0.Valid() && item in m0.cells && m0.cells[item].kind == KObject
    requires Ready(p, m0, h.mem, h.failed, w) && (p.buffer != NULL ==> p.offset == |w|)
    modifies h, p
    ensures ok == (p.buffer != NULL) && (ok ==> h.failed == old(h.failed) && old(p.buffer) != NULL)
    ensures Appended(p, m0, h.mem, h.failed, w, Print(Denote(m0, n), depth, fmt))
    ensures ok ==> pos == ReturnedAt(m0, n, depth, fmt, |w|)
    decreases n, 0
  {
    ghost var kids := n.kids;
    TargetFacts(m0, item, n);
    assert Printable(Denote(m0, n));
    hide NodeFits, Sep, SepList, Proper, Denote, DenoteList, CString, Texts, PrintMembers, Ready, Appended, Print,
      Listed, Target, Printable, PrintableItems, EmptyText;
    ListedKids(m0, n);
    ItemKept(p, m0, h.mem, h.failed, w, n);
    var first := h.mem.cells[item].child;
    var count := CountKids(h, p, first, kids, true, m0, w);
    pos := p.offset;
    if count == 0 {
      EmptyObject(m0, n, depth, fmt);
      ok := BufferText(h, p, if fmt then depth + 4 else 3, EmptyWhole(depth, fmt), m0, w);
      return;
    }
    ListedFacts(m0, first, kids, true);
    ok := BufferPairs(h, p, first, depth, fmt, kids, m0, w);
    if ok && fmt { pos := depth; }
  }

  /** The text of an empty object, which needs no more than print_object asks for. */
  function EmptyWhole(depth: nat, fmt: bool): (s: bytes)
    ensures s == EmptyText(depth, fmt) && NulFree(s) && |s| < if fmt then depth + 4 else 3
  {
    EmptyText(depth, fmt)
  }

  /** cJSON_PrintBuffered */
  method PrintBuffered(h: Heap, item: Ptr, prebuffer: nat, fmt: bool, ghost n: Node) returns (out: Ptr)
    requires h.mem.Valid() && (item != NULL ==> Target(h.mem, item, n))
    modifies h
    ensures h.mem.Valid()
    ensures item != NULL && out == NULL ==> h.mem == old(h.mem) && h.failed
    ensures item != NULL && out != NULL ==> h.failed == old(h.failed)
    ensures item != NULL && out != NULL ==> Printed(old(h.mem), h.mem, out, Print(Denote(old(h.mem), n), 0, fmt))
    // Without an item the result is null, and the buffer, if there was memory for it, is lost.
    ensures item == NULL ==> out == NULL
    ensures item == NULL && !h.failed ==> exists b :: Grown(old(h.mem), h.mem, {b})
  {
    hide Target, Printed, Print, Appended, NodeFits, Denote, Scratch, Grown;
    ghost var m0 := h.mem;
    var buffer := h.Malloc(prebuffer);
    var p := new PrintBuffer(buffer, prebuffer);
    if item == NULL { return NULL; }
    TargetFacts(m0, item, n);
    ReadyAtFirst(p, m0, h.mem, h.failed);
    var ok, pos;
    ok, pos := BufferValue(h, p, item, 0, fmt, n, m0, []);
    if !ok { AppendedNothing(p, m0, h.mem, h.failed, [], Print(Denote(m0, n), 0, fmt)); return NULL; }
    assert pos == 0;
    AppendedPrinted(p, m0, h.mem, h.failed, Print(Denote(m0, n), 0, fmt));
    out := p.buffer;
  }

  lemma ReadyAtFirst(p: PrintBuffer, m0: Store, m: Store, failed: bool)
    requires m0.Valid() && m.Valid() && p.offset == 0
    requires p.buffer == NULL ==> m == m0 && failed
    requires p.buffer != NULL ==>
      p.buffer !in m0.Live() && p.buffer in m.bufs && m == WithBuffer(m0, p.buffer, m.bufs[p.buffer])
    requires p.buffer != NULL ==> |m.bufs[p.buffer]| == p.length
    ensures Ready(p, m0, m, failed, [])
  {
    if p.buffer != NULL {
      ScratchSelf(m0);
      ScratchBuffer(m0, m0, {}, p.buffer, m.bufs[p.buffer]);
      assert {} + {p.buffer} == {p.buffer};
      hide Scratch;
    }
  }

  lemma AppendedNothing(p: PrintBuffer, m0: Store, m: Store, failed: bool, w: bytes, text: bytes)
    requires Appended(p, m0, m, failed, w, text) && p.buffer == NULL
    ensures m == m0 && failed && m.Valid()
  {
  }

  lemma AppendedPrinted(p: PrintBuffer, m0: Store, m: Store, failed: bool, text: bytes)
    requires Appended(p, m0, m, failed, [], text) && p.buffer != NULL
    ensures Printed(m0, m, p.buffer, text) && m.Valid()
  {
    hide Scratch, CString, Printed;
    assert [] + text + [NUL] == text + [NUL];
    BegunDone(m0, m, p.buffer, p.length, text);
    PrintedFacts(m0, m, p.buffer, text);
  }
}
