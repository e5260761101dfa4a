/** The JSON functions used one after the other, as a program uses them. */
module EndToEnd {
  import opened Bytes
  import opened Json
  import opened CHeap
  import opened Items
  import opened Growing
  import opened Ownership
  import opened Blocks
  import opened Compose
  import opened Printer
  import opened BufferPrinter
  import opened Parser
  import opened RoundTrip

  /** Printing an item and parsing the text builds the same tree once more, out of new blocks; when the
      result is null an allocation failed. */
  method PrintThenParse(h: Heap, item: Ptr, fmt: bool, ghost n: Node)
    returns (out: Ptr, c: Ptr, ghost m: Store, ghost n': Node)
    requires h.mem.Valid() && item != NULL && Target(h.mem, item, n) && Canonical(Denote(h.mem, n))
    modifies h
    ensures h.mem.Valid() && NodeFits(old(h.mem), n)
    ensures out == NULL ==> h.mem == old(h.mem) && h.failed && c == NULL
    ensures out != NULL ==> Printed(old(h.mem), m, out, Print(Denote(old(h.mem), n), 0, fmt))
    ensures out != NULL && c == NULL ==> h.mem == m && h.failed
    ensures c != NULL ==>
      c == n'.p && Detached(m, h.mem, n') && NodeFits(h.mem, n') && Denote(h.mem, n') == Denote(old(h.mem), n)
  {
    TargetFacts(h.mem, item, n);
    hide Target, NodeFits, Denote, Printed, Detached, Print, CString, Parse, ParseValue, Canonical;
    ghost var t := Denote(h.mem, n);
    c, n' := NULL, n;
    out := PrintTree(h, item, fmt, n);
    m := h.mem;
    if out == NULL { return; }
    PrintedFacts(old(h.mem), h.mem, out, Print(t, 0, fmt));
    ParsePrint(t, 0, fmt);
    ParseDefined(Print(t, 0, fmt));
    var end;
    c, end, n' := ParseWithOpts(h, CString(h.mem.bufs[out]), true);
  }

  lemma ParseDefined(s: bytes)
    requires Parse(s).Ok?
    ensures !ParseValue(Skip(s)).Wild?
  {
    hide ParseValue, Skip;
  }

  /** The two printers give the same text. */
  method PrintBothWays(h: Heap, item: Ptr, fmt: bool, prebuffer: nat, ghost n: Node) returns (a: Ptr, b: Ptr)
    requires h.mem.Valid() && item != NULL && Target(h.mem, item, n)
    modifies h
    ensures h.mem.Valid()
    ensures a == NULL || b == NULL ==> h.failed
    ensures a != NULL && b != NULL ==>
      a != b && a in h.mem.bufs && b in h.mem.bufs && CString(h.mem.bufs[a]) == CString(h.mem.bufs[b])
  {
    TargetFacts(h.mem, item, n);
    hide Target, NodeFits, Denote, Printed, Print, CString, Scratch;
    ghost var m := h.mem;
    b := NULL;
    a := PrintTree(h, item, fmt, n);
    if a == NULL { return; }
    ghost var m1 := h.mem;
    ghost var text := Print(Denote(m, n), 0, fmt);
    PrintedFacts(m, m1, a, text);
    StillThere(m, m1, a, text, item, n);
    b := PrintBuffered(h, item, prebuffer, fmt, n);
    if b == NULL { return; }
    PrintedFacts(m1, h.mem, b, text);
    PrintedAside(m1, h.mem, b, text, a);
  }

  /** Printing leaves the tree as it is. */
  lemma StillThere(m: Store, m': Store, out: Ptr, text: bytes, item: Ptr, n: Node)
    requires m.Valid() && Printed(m, m', out, text) && Target(m, item, n)
    ensures Target(m', item, n) && NodeFits(m', n) && NodeFits(m, n) && Denote(m', n) == Denote(m, n)
  {
    ScratchSelf(m);
    ScratchBuffer(m, m, {}, out, m'.bufs[out]);
    hide NodeFits, Sep, Denote, Proper, Printable, CString, Scratch;
    ScratchNode(m, m', {} + {out}, n);
  }

  lemma PrintedAside(m: Store, m': Store, out: Ptr, text: bytes, p: Ptr)
    requires Printed(m, m', out, text) && p in m.bufs
    ensures p != out && p in m'.bufs && m'.bufs[p] == m.bufs[p]
  {
    hide CString;
  }

  /** cJSON_Duplicate and cJSON_Delete in sequence: the heap is as before, whatever happens in between. */
  method DuplicateThenDelete(h: Heap, item: Ptr, recurse: bool, ghost n: Node)
    requires h.mem.Valid() && (item != NULL ==> item == n.p && NodeFits(h.mem, n) && Sep(n))
    modifies h
    ensures h.mem == old(h.mem)
  {
    hide NodeFits, Sep, Foot, Detached, Denote, Proper, CopyOf;
    ghost var m := h.mem;
    var r;
    ghost var built;
    r, built := Duplicate(h, item, recurse, n);
    if r != NULL { Discard(h, r, m, built); }
  }
}
