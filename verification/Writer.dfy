/** Writing text into a character buffer: what both printers do once they have the space. */
module Writer {
  import opened Bytes
  import opened Literal
  import opened Json
  import opened CHeap

  /** buf is buf0 with w written at pos: nothing before pos changed. */
  predicate Wrote(buf0: bytes, buf: bytes, pos: nat, w: bytes) {
    && |buf| == |buf0| && pos + |w| <= |buf|
    && (forall k | 0 <= k < pos :: buf[k] == buf0[k])
    && (forall k | 0 <= k < |w| :: buf[pos + k] == w[k])
  }

  /** Only the buffer out changed, and it has w at pos. */
  ghost predicate Writing(m0: Store, m: Store, out: Ptr, pos: nat, w: bytes) {
    && out in m0.bufs && out in m.bufs && m == WithBuffer(m0, out, m.bufs[out])
    && Wrote(m0.bufs[out], m.bufs[out], pos, w)
  }

  lemma WritingNothing(m: Store, out: Ptr, pos: nat)
    requires out in m.bufs && pos <= |m.bufs[out]|
    ensures Writing(m, m, out, pos, [])
  {
    assert m == WithBuffer(m, out, m.bufs[out]);
  }

  lemma WritingFacts(m0: Store, m: Store, out: Ptr, pos: nat, w: bytes)
    requires Writing(m0, m, out, pos, w)
    ensures out in m0.bufs && out in m.bufs && |m.bufs[out]| == |m0.bufs[out]| && pos + |w| <= |m.bufs[out]|
    ensures m == WithBuffer(m0, out, m.bufs[out])
  {
  }

  /** What was written includes everything written before. */
  lemma WritingPrefix(m0: Store, m: Store, out: Ptr, pos: nat, w: bytes, x: bytes)
    requires Writing(m0, m, out, pos, w + x)
    ensures Writing(m0, m, out, pos, w)
  {
    var buf := m.bufs[out];
    forall k | 0 <= k < |w| ensures buf[pos + k] == w[k] {
      assert (w + x)[k] == w[k];
    }
  }

  lemma WroteMore(buf0: bytes, buf: bytes, pos: nat, w: bytes, s: bytes)
    requires Wrote(buf0, buf, pos, w) && pos + |w| + |s| <= |buf|
    ensures Wrote(buf0, Overwrite(buf, pos + |w|, s), pos, w + s)
  {
  }

  /** Appends s to what is written so far. */
  method Put(h: Heap, out: Ptr, at: nat, s: bytes, ghost m0: Store, ghost pos: nat, ghost w: bytes)
    requires h.mem.Valid() && Writing(m0, h.mem, out, pos, w) && at == pos + |w|
    requires at + |s| <= |h.mem.bufs[out]|
    modifies h`mem
    ensures h.mem.Valid() && h.mem.Live() == old(h.mem).Live() && Writing(m0, h.mem, out, pos, w + s)
  {
    hide Overwrite;
    WroteMore(m0.bufs[out], h.mem.bufs[out], pos, w, s);
    WithBufferTwice(m0, out, h.mem.bufs[out], Overwrite(h.mem.bufs[out], at, s));
    h.Copy(out, at, s);
  }

  /** A terminated text at pos reads back as that text. */
  lemma WrittenString(m0: Store, m: Store, out: Ptr, pos: nat, w: bytes)
    requires Writing(m0, m, out, pos, w + [NUL]) && NulFree(w)
    ensures CString(m.bufs[out][pos..]) == w && NUL in m.bufs[out]
  {
    hide CString;
    var buf := m.bufs[out];
    var t := buf[pos..];
    assert (w + [NUL])[|w|] == NUL;
    assert buf[pos + |w|] == NUL;
    assert t[..|w|] == w by {
      forall k | 0 <= k < |w| ensures t[k] == w[k] { assert (w + [NUL])[k] == w[k]; }
    }
    CStringIs(t, w);
  }

  // ----- print_string_ptr -----

  /** The loop computing `flag`. */
  method NeedsEscaping(text: bytes) returns (flag: bool)
    requires NulFree(text)
    ensures flag <==> exists k :: 0 <= k < |text| && NeedsEscape(text[k])
  {
    flag := false;
    for k := 0 to |text|
      invariant flag <==> exists j :: 0 <= j < k && NeedsEscape(text[j])
    {
      flag := flag || NeedsEscape(text[k]);
    }
  }

  lemma PrefixNext(text: bytes, k: nat)
    requires k < |text|
    ensures text[..k + 1] == text[..k] + [text[k]]
  {
  }

  lemma EscapeNext(text: bytes, k: nat)
    requires k < |text|
    ensures Escape(text[..k + 1]) == Escape(text[..k]) + EscapeChar(text[k])
    ensures Measure(text[..k + 1]) == Measure(text[..k]) + |EscapeChar(text[k])|
  {
    PrefixNext(text, k);
    var c := [text[k]];
    assert c[1..] == [] && Escape(c) == EscapeChar(text[k]) + [];
    EscapeAppend(text[..k], c);
    MeasureAppend(text[..k], c);
  }

  /** The measuring pass of the escaping path. */
  method MeasureText(text: bytes) returns (len: nat)
    requires NulFree(text)
    ensures len == Measure(text)
  {
    hide Escape, Measure;
    len := 0;
    MeasureNone();
    for k := 0 to |text|
      invariant len == Measure(text[..k])
    {
      EscapeNext(text, k);
      len := len + 1;
      if ShortEscape(text[k]) {
        len := len + 1;
      } else if text[k] < 32 {
        len := len + 5;
      }
    }
    assert text[..|text|] == text;
  }

  lemma MeasureNone()
    ensures Measure([]) == 0 && Escape([]) == []
  {
  }

  /** One turn of the writing pass: the character, or its escape. */
  method PutEscaped(h: Heap, out: Ptr, at: nat, c: byte, ghost m0: Store, ghost pos: nat, ghost w: bytes)
    returns (ptr2: nat)
    requires h.mem.Valid() && Writing(m0, h.mem, out, pos, w) && at == pos + |w| && c != NUL
    requires at + |EscapeChar(c)| < |h.mem.bufs[out]|
    modifies h`mem
    ensures h.mem.Valid() && h.mem.Live() == old(h.mem).Live()
    ensures ptr2 == at + |EscapeChar(c)| && Writing(m0, h.mem, out, pos, w + EscapeChar(c))
  {
    hide Writing;
    if c > 31 && c != QUOTE && c != BACKSLASH {
      Put(h, out, at, [c], m0, pos, w);
      ptr2 := at + 1;
    } else {
      WritingFacts(m0, h.mem, out, pos, w);
      Put(h, out, at, [BACKSLASH], m0, pos, w);
      WritingFacts(m0, h.mem, out, pos, w + [BACKSLASH]);
      var s := EscapeTail(c);
      assert w + [BACKSLASH] + s == w + EscapeChar(c);
      ptr2 := at + 1 + |s|;
      if |s| == 5 {
        // sprintf also writes a terminator, which the next character overwrites.
        assert w + [BACKSLASH] + (s + [NUL]) == w + EscapeChar(c) + [NUL];
        Put(h, out, at + 1, s + [NUL], m0, pos, w + [BACKSLASH]);
        WritingPrefix(m0, h.mem, out, pos, w + EscapeChar(c), [NUL]);
      } else {
        Put(h, out, at + 1, s, m0, pos, w + [BACKSLASH]);
      }
    }
  }

  /** What follows the backslash. */
  function EscapeTail(c: byte): (s: bytes)
    requires !(c > 31 && c != QUOTE && c != BACKSLASH)
    ensures [BACKSLASH] + s == EscapeChar(c)
  {
    match c
    case 92 => [92]
    case 34 => [34]
    case 8 => [98]
    case 12 => [102]
    case 10 => [110]
    case 13 => [114]
    case 9 => [116]
    case _ => [LOWER_U, DIGIT_0, DIGIT_0, HexDigit(c as nat / 16), HexDigit(c as nat % 16)]
  }

  /** The writing pass of the escaping path: quote, escaped characters, quote, terminator. */
  method PutQuoted(h: Heap, out: Ptr, pos: nat, text: bytes)
    requires h.mem.Valid() && out in h.mem.bufs && NulFree(text) && pos + Measure(text) + 3 <= |h.mem.bufs[out]|
    modifies h`mem
    ensures h.mem.Valid() && h.mem.Live() == old(h.mem).Live()
    ensures Writing(old(h.mem), h.mem, out, pos, Quoted(text) + [NUL])
  {
    hide Writing, Escape, Measure;
    ghost var m := h.mem;
    WritingNothing(m, out, pos);
    assert [] + [QUOTE] == [QUOTE];
    Put(h, out, pos, [QUOTE], m, pos, []);
    var ptr2 := pos + 1;
    MeasureNone();
    assert [QUOTE] + Escape(text[..0]) == [QUOTE];
    for k := 0 to |text|
      invariant h.mem.Valid() && h.mem.Live() == m.Live()
      invariant Writing(m, h.mem, out, pos, [QUOTE] + Escape(text[..k]))
      invariant ptr2 == pos + 1 + |Escape(text[..k])|
    {
      EscapeNext(text, k);
      EscapeRoom(text, k + 1);
      WritingFacts(m, h.mem, out, pos, [QUOTE] + Escape(text[..k]));
      ptr2 := PutEscaped(h, out, ptr2, text[k], m, pos, [QUOTE] + Escape(text[..k]));
      assert [QUOTE] + Escape(text[..k]) + EscapeChar(text[k]) == [QUOTE] + Escape(text[..k + 1]);
    }
    assert text[..|text|] == text;
    MeasureIsExact(text);
    WritingFacts(m, h.mem, out, pos, [QUOTE] + Escape(text));
    assert [QUOTE] + Escape(text) + [QUOTE, NUL] == Quoted(text) + [NUL];
    Put(h, out, ptr2, [QUOTE, NUL], m, pos, [QUOTE] + Escape(text));
  }

  lemma EscapeRoom(text: bytes, k: nat)
    requires k <= |text|
    ensures |Escape(text[..k])| <= Measure(text)
  {
    assert text == text[..k] + text[k..];
    EscapeAppend(text[..k], text[k..]);
    MeasureIsExact(text);
  }

  /** The fast path: the text between quotes, copied as it is. */
  method PutPlain(h: Heap, out: Ptr, pos: nat, text: bytes)
    requires h.mem.Valid() && out in h.mem.bufs && NulFree(text) && pos + |text| + 3 <= |h.mem.bufs[out]|
    requires forall k | 0 <= k < |text| :: !NeedsEscape(text[k])
    modifies h`mem
    ensures h.mem.Valid() && h.mem.Live() == old(h.mem).Live()
    ensures Writing(old(h.mem), h.mem, out, pos, Quoted(text) + [NUL])
  {
    hide Writing, Escape;
    ghost var m := h.mem;
    WritingNothing(m, out, pos);
    Put(h, out, pos, [QUOTE], m, pos, []);
    assert [] + [QUOTE] == [QUOTE];
    WritingFacts(m, h.mem, out, pos, [QUOTE]);
    Put(h, out, pos + 1, text + [NUL], m, pos, [QUOTE]);
    assert [QUOTE] + (text + [NUL]) == ([QUOTE] + text) + [NUL];
    WritingPrefix(m, h.mem, out, pos, [QUOTE] + text, [NUL]);
    WritingFacts(m, h.mem, out, pos, [QUOTE] + text);
    Put(h, out, pos + 1 + |text|, [QUOTE, NUL], m, pos, [QUOTE] + text);
    PlainIsItself(text);
    assert [QUOTE] + text + [QUOTE, NUL] == Quoted(text) + [NUL];
  }

  // ----- the bound on "%d" -----

  lemma {:induction false} NatTextLength(n: nat, bound: nat, digits: nat)
    requires n < bound && digits >= 1 && bound == Power10(digits)
    ensures |NatText(n)| <= digits
    decreases digits
  {
    if n >= 10 { NatTextLength(n / 10, bound / 10, digits - 1); }
  }

  function Power10(digits: nat): nat {
    if digits == 0 then 1 else 10 * Power10(digits - 1)
  }

  /** A 32-bit integer and its terminator fit the 21 characters print_number reserves. */
  lemma IntTextFits(n: int)
    requires Int32(n)
    ensures |IntText(n)| + 1 <= 21 && NulFree(IntText(n))
  {
    assert Power10(10) == 10 * Power10(9) == 100 * Power10(8) == 10000 * Power10(6) == 1000000 * Power10(4)
        == 100000000 * Power10(2) == 10000000000;
    NatTextLength(if n < 0 then -n else n, Power10(10), 10);
  }
}
