/** The growing output buffer of the buffered printer. */
module PrintBuffer {
  import opened Bytes
  import opened CHeap
  import opened Items
  import opened Blocks
  import opened Compose
  import opened Pow2

  // ----- ensure and update -----

  class PrintBuffer {
    var buffer: Ptr
    var length: nat
    var offset: nat

    constructor (b: Ptr, n: nat)
      ensures buffer == b && length == n && offset == 0
    {
      buffer := b;
      length := n;
      offset := 0;
    }
  }

  /** The buffer is the only block beyond m0, and starts with w. */
  ghost predicate Open(p: PrintBuffer, m0: Store, m: Store, w: bytes)
    reads p
  {
    Scratch(m0, m, {p.buffer}) && Begun(m, p.buffer, p.length, w)
  }

  /** Either an allocation failed and the buffer is gone, or w is written. */
  ghost predicate Ready(p: PrintBuffer, m0: Store, m: Store, failed: bool, w: bytes)
    reads p
  {
    && m.Valid()
    && if p.buffer == NULL then m == m0 && failed else Open(p, m0, m, w) && p.offset <= |w|
  }

  lemma OpenPrefix(p: PrintBuffer, m0: Store, m: Store, w: bytes, s: bytes)
    requires Open(p, m0, m, w + s)
    ensures Open(p, m0, m, w)
  {
    hide Scratch;
    forall k | 0 <= k < |w| ensures m.bufs[p.buffer][k] == w[k] {
      assert (w + s)[k] == w[k];
    }
  }

  /** ensure: room for `needed` more characters behind the offset. The characters written are kept. */
  method Ensure(h: Heap, p: PrintBuffer, needed: nat, ghost m0: Store, ghost w: bytes) returns (ok: bool)
    requires Ready(p, m0, h.mem, h.failed, w) && m0.Valid()
    modifies h, p`buffer, p`length
    ensures Ready(p, m0, h.mem, h.failed, w) && ok == (p.buffer != NULL)
    ensures ok ==> p.offset + needed <= p.length && h.failed == old(h.failed) && old(p.buffer) != NULL
    ensures ok && p.offset + needed <= 0x4000_0000 ==>
      p.length == if p.offset + needed <= old(p.length) then old(p.length) else PowerAbove(p.offset + needed)
  {
    hide Scratch;
    if p.buffer == NULL { return false; }
    if p.offset + needed <= p.length { ScratchFacts(m0, h.mem, {p.buffer}); return true; }
    ok := Grow(h, p, p.offset + needed, m0, w);
  }

  /** The part of ensure that allocates, copies and frees. */
  method Grow(h: Heap, p: PrintBuffer, needed: nat, ghost m0: Store, ghost w: bytes) returns (ok: bool)
    requires p.buffer != NULL && Open(p, m0, h.mem, w) && p.length < needed && h.mem.Valid()
    modifies h, p`buffer, p`length
    ensures h.mem.Valid() && ok == (p.buffer != NULL)
    ensures ok ==> Open(p, m0, h.mem, w) && needed <= p.length && h.failed == old(h.failed)
    ensures ok && needed <= 0x4000_0000 ==> p.length == PowerAbove(needed)
    ensures !ok ==> h.mem == m0 && h.failed
  {
    hide Scratch, Remove, PowerAbove, Pow2gt;
    var newsize := Pow2gt(needed);
    if needed <= 0x4000_0000 { Pow2gtFits(needed); }
    ghost var m := h.mem;
    var newbuffer := h.Malloc(newsize);
    if newbuffer == NULL {
      FreeElement(h, p.buffer, m0, {p.buffer});
      assert {p.buffer} - Block(p.buffer) == {};
      ScratchGone(m0, h.mem);
      ScratchFacts(m0, h.mem, {});
      p.length, p.buffer := 0, NULL;
      return false;
    }
    ScratchBuffer(m0, m, {p.buffer}, newbuffer, h.mem.bufs[newbuffer]);
    ghost var s := {p.buffer} + {newbuffer};
    assert [] + w == w;
    ghost var m1 := h.mem;
    var all := h.mem.bufs[p.buffer];
    var end := Extend(h, newbuffer, 0, all, false, newsize, [], m0, s);
    assert [] + all == all;
    Moved(m, m1, h.mem, p.buffer, newbuffer, newsize, p.length, w);
    ghost var m2 := h.mem;
    FreeElement(h, p.buffer, m0, s);
    BegunStays(m2, p.buffer, newbuffer, newsize, w);
    assert s - Block(p.buffer) == {newbuffer};
    ScratchFacts(m0, h.mem, {newbuffer});
    p.length, p.buffer := newsize, newbuffer;
    ok := true;
  }

  lemma Moved(m: Store, m1: Store, m2: Store, b: Ptr, newbuffer: Ptr, newsize: nat, len: nat, w: bytes)
    requires Begun(m, b, len, w) && newbuffer !in m.Live() && newbuffer in m1.bufs
      && m1 == WithBuffer(m, newbuffer, m1.bufs[newbuffer])
    requires Begun(m2, newbuffer, newsize, m.bufs[b])
    ensures b != newbuffer && b in m1.bufs && m1.bufs[b] == m.bufs[b]
    ensures Begun(m2, newbuffer, newsize, w)
  {
  }

  lemma BegunStays(m: Store, b: Ptr, out: Ptr, len: nat, w: bytes)
    requires Begun(m, out, len, w) && b != out
    ensures Begun(Remove(m, Block(b)), out, len, w)
  {
  }

  /** update: the end of the string at the offset. */
  method Update(h: Heap, p: PrintBuffer, ghost m0: Store, ghost w: bytes, ghost text: bytes)
    requires Ready(p, m0, h.mem, h.failed, w + text + [NUL])
    requires p.buffer != NULL ==> |w| <= p.offset <= |w| + |text| && NulFree(text)
    modifies p`offset
    ensures Ready(p, m0, h.mem, h.failed, w + text) && (p.buffer != NULL ==> p.offset == |w + text|)
  {
    hide Scratch, CString;
    if p.buffer == NULL {
      p.offset := 0;
    } else {
      EndOfString(h.mem.bufs[p.buffer], p.offset, w, text);
      OpenPrefix(p, m0, h.mem, w + text, [NUL]);
      p.offset := p.offset + |CString(h.mem.bufs[p.buffer][p.offset..])|;
    }
  }

  lemma EndOfString(buf: bytes, at: nat, w: bytes, text: bytes)
    requires |w + text| < |buf| && forall k | 0 <= k < |w + text + [NUL]| :: buf[k] == (w + text + [NUL])[k]
    requires |w| <= at <= |w| + |text| && NulFree(text)
    ensures |CString(buf[at..])| == |w| + |text| - at
  {
    hide CString;
    var x := w + text + [NUL];
    var t := text[at - |w|..];
    forall k | 0 <= k < |t| ensures buf[at..][k] == t[k] {
      assert x[at + k] == t[k];
    }
    assert x[|w| + |text|] == NUL;
    assert buf[at..][..|t|] == t;
    CStringIs(buf[at..], t);
  }

  /** Room, then characters, with a terminator behind them where the code writes one; the offset moves on
      when the code moves it. */
  method Emit(h: Heap, p: PrintBuffer, needed: nat, s: bytes, terminated: bool, moves: bool, ghost m0: Store,
              ghost w: bytes)
    returns (ok: bool)
    requires Ready(p, m0, h.mem, h.failed, w) && m0.Valid() && (p.buffer != NULL ==> p.offset == |w|)
    requires |s| + (if terminated then 1 else 0) <= needed
    modifies h, p
    ensures ok == (p.buffer != NULL) && (ok ==> h.failed == old(h.failed) && old(p.buffer) != NULL)
    ensures Ready(p, m0, h.mem, h.failed, w + s)
    ensures terminated ==> Ready(p, m0, h.mem, h.failed, w + s + [NUL])
    ensures ok ==> p.offset == if moves then |w + s| else |w|
  {
    hide Scratch;
    ok := Ensure(h, p, needed, m0, w);
    if !ok { return; }
    var end := Extend(h, p.buffer, p.offset, s, terminated, p.length, w, m0, {p.buffer});
    ScratchFacts(m0, h.mem, {p.buffer});
    if moves { p.offset := p.offset + |s|; }
  }
}
