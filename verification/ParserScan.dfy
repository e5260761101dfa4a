/** The parser's scanning of the text: blanks, numbers, and the two passes over a string literal. */
module ParserScan {
  import opened Bytes
  import opened Utf8
  import opened Utf8Bits
  import opened Literal
  import opened Json
  import opened CHeap

  /** The text behind position i, one character further on. */
  lemma Next(text: bytes, i: nat)
    requires i < |text|
    ensures text[i..] != [] && text[i..][0] == text[i] && text[i..][1..] == text[i + 1..]
  {
  }

  /** The text behind position i, n characters further on. */
  lemma Later(text: bytes, i: nat, n: nat)
    requires i + n <= |text|
    ensures text[i..][n..] == text[i + n..]
  {
  }

  lemma SkipStep(s: bytes)
    ensures Skip(s) == if s != [] && Blank(s[0]) then Skip(s[1..]) else s
  {
  }

  /** skip */
  method SkipFrom(text: bytes, i: nat) returns (j: nat)
    requires NulFree(text) && i <= |text|
    ensures i <= j <= |text| && text[j..] == Skip(text[i..])
  {
    hide Skip;
    j := i;
    while At(text, j) != NUL && At(text, j) <= 32
      invariant i <= j <= |text| && Skip(text[j..]) == Skip(text[i..])
      decreases |text| - j
    {
      Next(text, j);
      SkipStep(text[j..]);
      j := j + 1;
    }
    if j < |text| { Next(text, j); }
    SkipStep(text[j..]);
  }

  lemma DigitsStep(s: bytes, n: nat)
    ensures s != [] && Digit(s[0]) ==>
      DigitsRest(s) == DigitsRest(s[1..]) && DigitsValue(s, n) == DigitsValue(s[1..], n * 10 + (s[0] as nat - 48))
    ensures s == [] || !Digit(s[0]) ==> DigitsRest(s) == s && DigitsValue(s, n) == n
  {
  }

  /** One of the digit loops of parse_number. */
  method ReadDigits(text: bytes, i: nat, n0: nat) returns (n: nat, j: nat)
    requires i <= |text|
    ensures i <= j <= |text| && text[j..] == DigitsRest(text[i..]) && n == DigitsValue(text[i..], n0)
  {
    hide DigitsRest, DigitsValue;
    n, j := n0, i;
    while Digit(At(text, j))
      invariant i <= j <= |text|
      invariant DigitsRest(text[j..]) == DigitsRest(text[i..])
        && DigitsValue(text[j..], n) == DigitsValue(text[i..], n0)
      decreases |text| - j
    {
      Next(text, j);
      DigitsStep(text[j..], n);
      n := n * 10 + (At(text, j) as nat - 48);
      j := j + 1;
    }
    if j < |text| { Next(text, j); }
    DigitsStep(text[j..], n);
  }

  /** The sign and the integer part. */
  method ReadInteger(text: bytes, i: nat) returns (n: nat, j: nat)
    requires i <= |text|
    ensures i <= j <= |text| && LexInteger(text[i..]) == Lexed(Decimal(n, 0), text[j..])
  {
    hide DigitsRest, DigitsValue;
    n, j := 0, i;
    if j < |text| { Next(text, j); }
    if At(text, j) == DIGIT_0 {
      j := j + 1;
      if j < |text| { Next(text, j); }
    }
    if 49 <= At(text, j) <= 57 {
      n, j := ReadDigits(text, j, n);
    }
  }

  /** The fraction: each digit scales the number down by ten. */
  method ReadFraction(text: bytes, i: nat, n0: nat) returns (n: nat, scale: int, j: nat)
    requires i <= |text|
    ensures i <= j <= |text| && LexFraction(Lexed(Decimal(n0, 0), text[i..])) == Lexed(Decimal(n, scale), text[j..])
  {
    hide DigitsRest, DigitsValue;
    n, scale, j := n0, 0, i;
    if At(text, j) == DOT && Digit(At(text, j + 1)) {
      Next(text, j);
      assert text[j..][1] == text[j + 1];
      n, j := ReadDigits(text, i + 1, n);
      scale := i + 1 - j;
    } else if j < |text| {
      Next(text, j);
      if j + 1 < |text| { assert text[j..][1] == text[j + 1]; }
    }
  }

  method ReadExponent(text: bytes, i: nat, ghost l: Lexed) returns (e: int, j: nat)
    requires i <= |text| && l.rest == text[i..]
    ensures i <= j <= |text| && LexExponent(l) == Lexed(Decimal(l.num.mant, l.num.exp + e), text[j..])
  {
    hide DigitsRest, DigitsValue;
    e, j := 0, i;
    if j < |text| { Next(text, j); }
    if At(text, j) == 101 || At(text, j) == 69 {
      var subscale: nat, signsubscale: int := 0, 1;
      j := j + 1;
      if j < |text| { Next(text, j); }
      if At(text, j) == PLUS {
        j := j + 1;
      } else if At(text, j) == MINUS {
        signsubscale, j := -1, j + 1;
      }
      subscale, j := ReadDigits(text, j, 0);
      e := subscale * signsubscale;
    }
  }

  /** parse_number: the value as mantissa and exponent, and the end of the number. */
  method ReadNumber(text: bytes, i: nat) returns (num: Decimal, whole: int, j: nat)
    requires i <= |text|
    ensures i <= j <= |text| && LexNumber(text[i..]) == Lexed(num, text[j..]) && Converted(whole, num)
  {
    hide LexInteger, LexFraction, LexExponent;
    var sign: int := 1;
    j := i;
    if j < |text| { Next(text, j); }
    if At(text, j) == MINUS {
      sign, j := -1, j + 1;
    }
    var n, scale, e;
    n, j := ReadInteger(text, j);
    n, scale, j := ReadFraction(text, j, n);
    e, j := ReadExponent(text, j, Lexed(Decimal(n, scale), text[j..]));
    num := Decimal(sign * n, scale + e);
    whole := *;
    if Int32(Truncated(num)) { whole := Truncated(num); }
  }

  // ----- the first pass over a literal -----

  lemma ScanEnd(s: bytes)
    requires s == [] || s[0] == QUOTE
    ensures Complete(s) && ScanLength(s) == 0 && ScanRest(s) == s
  {
  }

  /** The first pass: counts the characters up to the closing quote, an escape as one. */
  method MeasureLiteral(text: bytes, i: nat) returns (len: nat)
    requires NulFree(text) && i <= |text| && Complete(text[i..])
    ensures len == ScanLength(text[i..])
  {
    hide Complete, ScanLength;
    var ptr := i;
    len := 0;
    while At(text, ptr) != QUOTE && At(text, ptr) != NUL
      invariant i <= ptr <= |text| && Complete(text[ptr..])
      invariant len + ScanLength(text[ptr..]) == ScanLength(text[i..])
      decreases |text| - ptr
    {
      Next(text, ptr);
      len := len + 1;
      if At(text, ptr) == BACKSLASH {
        ScanBackslash(text[ptr..]);
        Later(text, ptr, 2);
        ptr := ptr + 1;
      } else {
        ScanOne(text[ptr..]);
      }
      ptr := ptr + 1;
    }
    if ptr < |text| { Next(text, ptr); }
    ScanEnd(text[ptr..]);
  }

  // ----- the second pass -----

  /** A buffer that starts with the bytes w. */
  predicate StartsWith(buf: bytes, w: bytes) {
    |w| <= |buf| && forall k | 0 <= k < |w| :: buf[k] == w[k]
  }

  /** The bytes of the encoding not yet written, and those written behind them. */
  ghost predicate Emitting(m0: Store, m: Store, out: Ptr, pos: nat, uc0: nat, uc: nat, left: nat, tail: bytes)
    requires uc0 <= 0x10FFFF
  {
    && out in m0.bufs && pos + Width(uc0) <= |m0.bufs[out]| && 1 <= left <= Width(uc0) && |tail| == Width(uc0) - left
    && (left == 1 ==> uc < 0x100 - LeadMark(Width(uc0)))
    && (left == 2 ==> uc < 0x40 * (0x100 - LeadMark(Width(uc0))))
    && (left == 3 ==> uc < 0x1000 * (0x100 - LeadMark(Width(uc0))))
    && (left == 4 ==> uc < 0x40000 * (0x100 - LeadMark(Width(uc0))))
    && Peel(uc, Width(uc0), left) + tail == Encode(uc0)
    && m == WithBuffer(m0, out, Overwrite(m0.bufs[out], pos + left, tail))
  }

  lemma OverwriteBack(buf: bytes, pos: nat, b: byte, tail: bytes)
    requires pos + 1 + |tail| <= |buf|
    ensures Overwrite(buf, pos + 1, tail)[pos := b] == Overwrite(buf, pos, [b] + tail)
  {
  }

  /** One case of the switch: a continuation byte. */
  method EmitContinuation(h: Heap, out: Ptr, ptr2: nat, uc: nat, ghost m0: Store, ghost pos: nat, ghost uc0: nat,
                          ghost left: nat, ghost tail: bytes)
    returns (uc': nat, ghost tail': bytes)
    requires uc0 <= 0x10FFFF && h.mem.Valid() && 2 <= left && ptr2 == pos + left - 1
    requires Emitting(m0, h.mem, out, pos, uc0, uc, left, tail)
    modifies h`mem
    ensures h.mem.Valid() && Emitting(m0, h.mem, out, pos, uc0, uc', left - 1, tail')
  {
    hide Encode, Overwrite;
    var b := TrailingByte(uc);
    hide TrailingByte;
    h.Poke(out, ptr2, b);
    PeelOne(uc, Width(uc0), left, tail);
    OverwriteBack(m0.bufs[out], ptr2, b, tail);
    uc', tail' := SixLess(uc), [b] + tail;
  }

  /** The switch over `len`: the UTF-8 bytes of uc, written backwards from out + pos + width. */
  method EmitUtf8(h: Heap, out: Ptr, pos: nat, uc0: nat) returns (ptr2: nat)
    requires h.mem.Valid() && out in h.mem.bufs && uc0 <= 0x10FFFF
    requires pos + Width(uc0) <= |h.mem.bufs[out]|
    modifies h`mem
    ensures h.mem.Valid() && ptr2 == pos + Width(uc0)
    ensures h.mem == WithBuffer(old(h.mem), out, Overwrite(old(h.mem).bufs[out], pos, Encode(uc0)))
  {
    ghost var m := h.mem;
    var uc, len := uc0, Width(uc0);
    ptr2 := pos + len;
    ghost var left, tail: bytes := len, [];
    EmitStart(m, out, pos, uc0);
    hide Encode, Overwrite, Emitting, LeadMark, Width, LeadByte;
    if len == 4 {
      ptr2 := ptr2 - 1;
      uc, tail := EmitContinuation(h, out, ptr2, uc, m, pos, uc0, left, tail);
      left := left - 1;
    }
    if len >= 3 {
      ptr2 := ptr2 - 1;
      uc, tail := EmitContinuation(h, out, ptr2, uc, m, pos, uc0, left, tail);
      left := left - 1;
    }
    if len >= 2 {
      ptr2 := ptr2 - 1;
      uc, tail := EmitContinuation(h, out, ptr2, uc, m, pos, uc0, left, tail);
      left := left - 1;
    }
    ptr2 := ptr2 - 1;
    EmitLast(m, h.mem, out, pos, uc0, uc, tail);
    h.Poke(out, ptr2, LeadByte(uc, len));
    ptr2 := ptr2 + len;
  }

  lemma EmitStart(m: Store, out: Ptr, pos: nat, uc0: nat)
    requires out in m.bufs && uc0 <= 0x10FFFF && pos + Width(uc0) <= |m.bufs[out]|
    ensures Emitting(m, m, out, pos, uc0, uc0, Width(uc0), [])
  {
    assert Overwrite(m.bufs[out], pos + Width(uc0), []) == m.bufs[out];
    assert WithBuffer(m, out, m.bufs[out]) == m;
    assert Peel(uc0, Width(uc0), Width(uc0)) + [] == Encode(uc0);
  }

  lemma EmitLast(m: Store, m': Store, out: Ptr, pos: nat, uc0: nat, uc: nat, tail: bytes)
    requires uc0 <= 0x10FFFF && Emitting(m, m', out, pos, uc0, uc, 1, tail)
    ensures uc + LeadMark(Width(uc0)) < 256 && out in m'.bufs && pos < |m'.bufs[out]|
    ensures out in m.bufs && pos + Width(uc0) <= |m.bufs[out]|
    ensures WithBuffer(m', out, m'.bufs[out][pos := (uc + LeadMark(Width(uc0))) as byte])
      == WithBuffer(m, out, Overwrite(m.bufs[out], pos, Encode(uc0)))
  {
    hide Encode;
    var b := (uc + LeadMark(Width(uc0))) as byte;
    assert Encode(uc0) == [b] + tail;
    OverwriteBack(m.bufs[out], pos, b, tail);
  }

  lemma PeelOne(uc: nat, width: nat, left: nat, tail: bytes)
    requires 2 <= left <= width <= 4
    requires left == 2 ==> uc < 0x40 * (0x100 - LeadMark(width))
    requires left == 3 ==> uc < 0x1000 * (0x100 - LeadMark(width))
    requires left == 4 ==> uc < 0x40000 * (0x100 - LeadMark(width))
    ensures left == 2 ==> uc / 64 < 0x100 - LeadMark(width)
    ensures left == 3 ==> uc / 64 < 0x40 * (0x100 - LeadMark(width))
    ensures left == 4 ==> uc / 64 < 0x1000 * (0x100 - LeadMark(width))
    ensures Peel(uc, width, left) + tail == Peel(uc / 64, width, left - 1) + ([(0x80 + uc % 64) as byte] + tail)
  {
  }

  lemma OverwriteNothing(m: Store, out: Ptr, pos: nat)
    requires out in m.bufs && pos <= |m.bufs[out]|
    ensures WithBuffer(m, out, Overwrite(m.bufs[out], pos, [])) == m
  {
    assert Overwrite(m.bufs[out], pos, []) == m.bufs[out];
  }

  /** case 'u': transcodes the escape whose `u` is at ptr0; ptr ends on its last character. */
  method TranscodeAt(h: Heap, out: Ptr, pos: nat, text: bytes, ptr0: nat) returns (ptr2: nat, ptr: nat)
    requires h.mem.Valid() && out in h.mem.bufs && ptr0 <= |text| && EscapeFits(text[ptr0..])
    requires pos + |Transcode(text[ptr0..]).out| <= |h.mem.bufs[out]|
    modifies h`mem
    ensures var t := Transcode(text[ptr0..]);
      && h.mem.Valid() && ptr2 == pos + |t.out| && ptr + 1 == ptr0 + t.used
      && h.mem == WithBuffer(old(h.mem), out, Overwrite(old(h.mem).bufs[out], pos, t.out))
  {
    hide Hex4, Encode, Overwrite, WithBuffer, PairPoint;
    ghost var s := text[ptr0..];
    OverwriteNothing(h.mem, out, pos);
    Later(text, ptr0, 1);
    var uc := Hex4(text[ptr0 + 1..]);
    ptr2, ptr := pos, ptr0 + 4;
    if LowSurrogate(uc) || uc == 0 { return; }
    if HighSurrogate(uc) {
      PairAt(text, ptr0);
      if At(text, ptr + 1) != BACKSLASH || At(text, ptr + 2) != LOWER_U { return; }
      Later(text, ptr0, 7);
      var uc2 := Hex4(text[ptr + 3..]);
      ptr := ptr + 6;
      if !LowSurrogate(uc2) { return; }
      uc := PairPoint(uc, uc2);
    }
    ptr2 := EmitUtf8(h, out, pos, uc);
  }

  lemma PairAt(text: bytes, ptr: nat)
    requires ptr + 5 <= |text|
    ensures PairFollows(text[ptr..]) ==
      (At(text, ptr + 5) == BACKSLASH && (ptr + 5 < |text| ==> At(text, ptr + 6) == LOWER_U))
  {
    var s := text[ptr..];
    if ptr + 5 < |text| { assert s[5] == text[ptr + 5]; }
    if ptr + 6 < |text| { assert s[6] == text[ptr + 6]; }
  }

  /** w is written, and what is left of the literal still fits. */
  ghost predicate Decoding(m0: Store, m: Store, out: Ptr, w: bytes, s: bytes, goal: bytes, end: bytes) {
    && out in m0.bufs && out in m.bufs && m == WithBuffer(m0, out, m.bufs[out])
    && |m.bufs[out]| == |m0.bufs[out]| && StartsWith(m.bufs[out], w)
    && Complete(s) && |w| + ScanLength(s) < |m0.bufs[out]|
    && w + Decode(s) == goal && ScanRest(s) == end
  }

  lemma StartsWithMore(buf: bytes, w: bytes, x: bytes)
    requires StartsWith(buf, w) && |w| + |x| <= |buf|
    ensures StartsWith(Overwrite(buf, |w|, x), w + x)
  {
  }

  /** Decoding one unit of the literal: its value x is written, n characters are read. */
  lemma DecodingStep(m0: Store, m: Store, m': Store, out: Ptr, w: bytes, text: bytes, at: nat, goal: bytes, end: bytes,
                     x: bytes, n: nat)
    requires at + n <= |text| && Decoding(m0, m, out, w, text[at..], goal, end)
    requires var s := text[at..];
      && Complete(s[n..]) && Decode(s) == x + Decode(s[n..])
      && ScanRest(s[n..]) == ScanRest(s) && ScanLength(s) >= |x| + ScanLength(s[n..])
    requires |w| + |x| <= |m.bufs[out]| && m' == WithBuffer(m, out, Overwrite(m.bufs[out], |w|, x))
    ensures Decoding(m0, m', out, w + x, text[at + n..], goal, end)
  {
    hide Complete, Decode, ScanLength, ScanRest, Overwrite;
    StartsWithMore(m.bufs[out], w, x);
    Later(text, at, n);
    var s' := text[at + n..];
    assert (w + x) + Decode(s') == w + (x + Decode(s'));
  }

  lemma PlainUnit(s: bytes)
    requires s != [] && Plain(s[0]) && Complete(s)
    ensures Complete(s[1..]) && Decode(s) == [s[0]] + Decode(s[1..]) && ScanRest(s[1..]) == ScanRest(s)
    ensures ScanLength(s) == 1 + ScanLength(s[1..])
  {
  }

  lemma EscapeUnit(s: bytes)
    requires s != [] && s[0] == BACKSLASH && Complete(s)
    ensures var t := EscapeAt(s);
      && Complete(s[t.used..]) && Decode(s) == t.out + Decode(s[t.used..])
      && ScanRest(s[t.used..]) == ScanRest(s) && ScanLength(s) >= |t.out| + ScanLength(s[t.used..])
    ensures |s| >= 2 && (s[1] != LOWER_U ==> EscapeAt(s) == Transcoded([Unescape(s[1])], 2))
    ensures s[1] == LOWER_U ==>
      EscapeFits(s[1..]) && EscapeAt(s) == Transcoded(Transcode(s[1..]).out, Transcode(s[1..]).used + 1)
  {
    ScanEscape(s);
  }

  /** One escape of the second pass, from its backslash on. */
  method DecodeEscape(h: Heap, out: Ptr, pos: nat, text: bytes, at: nat) returns (ptr2: nat, ptr: nat)
    requires h.mem.Valid() && out in h.mem.bufs && at < |text| && text[at] == BACKSLASH && Complete(text[at..])
    requires pos + |EscapeAt(text[at..]).out| <= |h.mem.bufs[out]|
    modifies h`mem
    ensures var t := EscapeAt(text[at..]);
      && h.mem.Valid() && ptr2 == pos + |t.out| && ptr == at + t.used
      && h.mem == WithBuffer(old(h.mem), out, Overwrite(old(h.mem).bufs[out], pos, t.out))
  {
    hide Complete, EscapeAt, Transcode, Decode, ScanLength, ScanRest;
    Next(text, at);
    EscapeUnit(text[at..]);
    Next(text, at + 1);
    ptr := at + 1;
    if text[ptr] == LOWER_U {
      ptr2, ptr := TranscodeAt(h, out, pos, text, ptr);
    } else {
      var b := Unescape(text[ptr]);
      h.Poke(out, pos, b);
      OverwriteOne(old(h.mem).bufs[out], pos, b);
      ptr2 := pos + 1;
    }
    ptr := ptr + 1;
  }

  lemma OverwriteOne(buf: bytes, pos: nat, b: byte)
    requires pos < |buf|
    ensures buf[pos := b] == Overwrite(buf, pos, [b])
  {
  }

  /** One turn of the loop of the second pass: a plain character. */
  method DecodePlain(h: Heap, out: Ptr, pos: nat, text: bytes, at: nat, ghost m: Store, ghost w: bytes,
                     ghost goal: bytes, ghost end: bytes)
    returns (ptr2: nat, ptr: nat, ghost w': bytes)
    requires h.mem.Valid() && at < |text| && Plain(text[at]) && pos == |w|
    requires Decoding(m, h.mem, out, w, text[at..], goal, end)
    modifies h`mem
    ensures h.mem.Valid() && at < ptr <= |text| && ptr2 == |w'| && Decoding(m, h.mem, out, w', text[ptr..], goal, end)
  {
    hide Complete, EscapeAt, Decode, ScanLength, ScanRest, Overwrite, Decoding, WithBuffer;
    Next(text, at);
    ghost var m1, s := h.mem, text[at..];
    DecodingFacts(m, m1, out, w, s, goal, end);
    PlainUnit(s);
    OverwriteOne(m1.bufs[out], pos, text[at]);
    h.Poke(out, pos, text[at]);
    DecodingStep(m, m1, h.mem, out, w, text, at, goal, end, [text[at]], 1);
    w' := w + [text[at]];
    ptr2, ptr := pos + 1, at + 1;
  }

  /** One turn of the loop of the second pass: an escape. */
  method DecodeEscaped(h: Heap, out: Ptr, pos: nat, text: bytes, at: nat, ghost m: Store, ghost w: bytes,
                       ghost goal: bytes, ghost end: bytes)
    returns (ptr2: nat, ptr: nat, ghost w': bytes)
    requires h.mem.Valid() && at < |text| && text[at] == BACKSLASH && pos == |w|
    requires Decoding(m, h.mem, out, w, text[at..], goal, end)
    modifies h`mem
    ensures h.mem.Valid() && at < ptr <= |text| && ptr2 == |w'| && Decoding(m, h.mem, out, w', text[ptr..], goal, end)
  {
    hide Complete, EscapeAt, Decode, ScanLength, ScanRest, Overwrite, Decoding, WithBuffer;
    Next(text, at);
    ghost var m1, s := h.mem, text[at..];
    DecodingFacts(m, m1, out, w, s, goal, end);
    EscapeUnit(s);
    ghost var t := EscapeAt(s);
    ptr2, ptr := DecodeEscape(h, out, pos, text, at);
    DecodingStep(m, m1, h.mem, out, w, text, at, goal, end, t.out, t.used);
    w' := w + t.out;
  }

  /** The second pass: fills the buffer and terminates it, and steps over the closing quote. */
  method DecodeLiteral(h: Heap, out: Ptr, text: bytes, i: nat) returns (ptr: nat)
    requires h.mem.Valid() && out in h.mem.bufs
    requires NulFree(text) && i <= |text| && Complete(text[i..]) && |h.mem.bufs[out]| == ScanLength(text[i..]) + 1
    modifies h`mem
    ensures h.mem.Valid() && out in h.mem.bufs && h.mem == WithBuffer(old(h.mem), out, h.mem.bufs[out])
    ensures CString(h.mem.bufs[out]) == Decode(text[i..]) && NUL in h.mem.bufs[out]
    ensures var r := ScanRest(text[i..]); i <= ptr <= |text| && text[ptr..] == if r == [] then [] else r[1..]
  {
    hide Complete, EscapeAt, Decode, ScanLength, ScanRest, Overwrite, CString, Decoding, WithBuffer;
    ghost var m, goal, end := h.mem, Decode(text[i..]), ScanRest(text[i..]);
    var ptr2 := 0;
    ptr := i;
    ghost var w: bytes := [];
    DecodingStart(m, out, text[i..]);
    while At(text, ptr) != QUOTE && At(text, ptr) != NUL
      invariant i <= ptr <= |text| && ptr2 == |w| && h.mem.Valid()
      invariant Decoding(m, h.mem, out, w, text[ptr..], goal, end)
      decreases |text| - ptr
    {
      if At(text, ptr) != BACKSLASH {
        ptr2, ptr, w := DecodePlain(h, out, ptr2, text, ptr, m, w, goal, end);
      } else {
        ptr2, ptr, w := DecodeEscaped(h, out, ptr2, text, ptr, m, w, goal, end);
      }
    }
    if ptr < |text| { Next(text, ptr); }
    DecodingFacts(m, h.mem, out, w, text[ptr..], goal, end);
    DecodeNulFree(text[i..]);
    DecodingEnd(m, h.mem, out, w, text[ptr..], goal, end);
    WithBufferTwice(m, out, h.mem.bufs[out], h.mem.bufs[out][ptr2 := NUL]);
    h.Poke(out, ptr2, NUL);
    if At(text, ptr) == QUOTE { ptr := ptr + 1; }
  }

  lemma DecodingStart(m: Store, out: Ptr, s: bytes)
    requires out in m.bufs && Complete(s) && |m.bufs[out]| == ScanLength(s) + 1
    ensures Decoding(m, m, out, [], s, Decode(s), ScanRest(s))
  {
    assert WithBuffer(m, out, m.bufs[out]) == m;
    assert [] + Decode(s) == Decode(s);
  }

  lemma DecodingFacts(m0: Store, m: Store, out: Ptr, w: bytes, s: bytes, goal: bytes, end: bytes)
    requires Decoding(m0, m, out, w, s, goal, end)
    ensures out in m0.bufs && out in m.bufs && m == WithBuffer(m0, out, m.bufs[out])
    ensures Complete(s) && |w| + ScanLength(s) < |m.bufs[out]| == |m0.bufs[out]| && ScanRest(s) == end
  {
    hide Complete, Decode, ScanLength, ScanRest;
  }

  lemma DecodingEnd(m0: Store, m: Store, out: Ptr, w: bytes, s: bytes, goal: bytes, end: bytes)
    requires Decoding(m0, m, out, w, s, goal, end) && (s == [] || s[0] == QUOTE) && NulFree(goal)
    ensures w == goal && |w| < |m.bufs[out]| && s == end
    ensures var buf := m.bufs[out][|w| := NUL]; CString(buf) == goal && NUL in buf
  {
    assert Decode(s) == [] && w + [] == w && ScanRest(s) == s;
    hide CString, Complete, Decode, ScanLength, ScanRest;
    Terminate(m.bufs[out], w);
  }

  lemma Terminate(buf: bytes, w: bytes)
    requires StartsWith(buf, w) && |w| < |buf| && NulFree(w)
    ensures var t := buf[|w| := NUL]; CString(t) == w && NUL in t
  {
    hide CString;
    var t := buf[|w| := NUL];
    assert t[..|w|] == w;
    assert t[|w|] == NUL;
    CStringIs(t, w);
  }
}
