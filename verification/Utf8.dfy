/** UTF-16 escapes and the UTF-8 bytes they become (RFC 2781 section 2, RFC 3629 sections 3 and 4). */
module Utf8 {
  import opened Bytes

  // ----- RFC 3629: the reference, independent of the C code -----

  predicate Scalar(cp: nat) {
    cp < 0xD800 || 0xE000 <= cp <= 0x10FFFF
  }

  predicate Tail(b: byte) {
    0x80 <= b <= 0xBF
  }

  /** The UTF8-char production of RFC 3629 section 4: one well-formed character. */
  predicate WellFormed(bs: bytes) {
    match |bs|
    case 1 => bs[0] <= 0x7F
    case 2 => 0xC2 <= bs[0] <= 0xDF && Tail(bs[1])
    case 3 =>
      && (|| (bs[0] == 0xE0 && 0xA0 <= bs[1] <= 0xBF)
          || (0xE1 <= bs[0] <= 0xEC && Tail(bs[1]))
          || (bs[0] == 0xED && 0x80 <= bs[1] <= 0x9F)
          || (0xEE <= bs[0] <= 0xEF && Tail(bs[1])))
      && Tail(bs[2])
    case 4 =>
      && (|| (bs[0] == 0xF0 && 0x90 <= bs[1] <= 0xBF)
          || (0xF1 <= bs[0] <= 0xF3 && Tail(bs[1]))
          || (bs[0] == 0xF4 && 0x80 <= bs[1] <= 0x8F))
      && Tail(bs[2]) && Tail(bs[3])
    case _ => false
  }

  /** The code point of a well-formed character. */
  function CodePoint(bs: bytes): nat
    requires WellFormed(bs)
  {
    match |bs|
    case 1 => bs[0] as nat
    case 2 => (bs[0] as nat - 0xC0) * 64 + (bs[1] as nat - 0x80)
    case 3 => (bs[0] as nat - 0xE0) * 4096 + (bs[1] as nat - 0x80) * 64 + (bs[2] as nat - 0x80)
    case _ => (bs[0] as nat - 0xF0) * 262144 + (bs[1] as nat - 0x80) * 4096
              + (bs[2] as nat - 0x80) * 64 + (bs[3] as nat - 0x80)
  }

  /** RFC 2781 section 2.1: the UTF-16 code units of a code point. */
  function Utf16(cp: nat): seq<nat>
    requires Scalar(cp)
  {
    if cp < 0x10000 then [cp]
    else [0xD800 + (cp - 0x10000) / 0x400, 0xDC00 + (cp - 0x10000) % 0x400]
  }

  // ----- what the parser does -----

  /** How many bytes the parser reserves for a code point. */
  function Width(uc: nat): (n: nat)
    ensures 1 <= n <= 4
  {
    if uc < 0x80 then 1 else if uc < 0x800 then 2 else if uc < 0x10000 then 3 else 4
  }

  /** firstByteMark */
  function LeadMark(width: nat): nat
    requires 1 <= width <= 4
  {
    match width case 1 => 0x00 case 2 => 0xC0 case 3 => 0xE0 case _ => 0xF0
  }

  /** The last `count` bytes of a sequence of `width`, peeling six bits per continuation byte. */
  function Peel(uc: nat, width: nat, left: nat): (bs: bytes)
    requires 1 <= left <= width <= 4
    requires left == 1 ==> uc < 0x100 - LeadMark(width)
    requires left == 2 ==> uc < 0x40 * (0x100 - LeadMark(width))
    requires left == 3 ==> uc < 0x1000 * (0x100 - LeadMark(width))
    requires left == 4 ==> uc < 0x40000 * (0x100 - LeadMark(width))
    ensures |bs| == left
  {
    if left == 1 then [(LeadMark(width) + uc) as byte]
    else Peel(uc / 64, width, left - 1) + [(0x80 + uc % 64) as byte]
  }

  function Encode(uc: nat): (bs: bytes)
    requires uc <= 0x10FFFF
    ensures |bs| == Width(uc)
  {
    Peel(uc, Width(uc), Width(uc))
  }

  function HexValue(b: byte): (v: int)
    ensures -1 <= v < 16
  {
    if 48 <= b <= 57 then b as int - 48
    else if 65 <= b <= 70 then b as int - 55
    else if 97 <= b <= 102 then b as int - 87
    else -1
  }

  /** parse_hex4: zero as soon as one of the four characters is no hex digit. */
  function Hex4(s: bytes): (h: nat)
    requires |s| >= 4
    ensures h <= 0xFFFF
  {
    if HexValue(s[0]) < 0 || HexValue(s[1]) < 0 || HexValue(s[2]) < 0 || HexValue(s[3]) < 0 then 0
    else ((HexValue(s[0]) * 16 + HexValue(s[1])) * 16 + HexValue(s[2])) * 16 + HexValue(s[3])
  }

  predicate HighSurrogate(uc: nat) { 0xD800 <= uc <= 0xDBFF }

  predicate LowSurrogate(uc: nat) { 0xDC00 <= uc <= 0xDFFF }

  /** Does a second `\u` follow the five characters of the escape s starts with? */
  predicate PairFollows(s: bytes) {
    |s| >= 7 && s[5] == BACKSLASH && s[6] == LOWER_U
  }

  /** s starts at the `u` of an escape, with room for the digits the parser reads. */
  predicate EscapeFits(s: bytes) {
    |s| >= 5 && s[0] == LOWER_U && (PairFollows(s) ==> |s| >= 11)
  }

  datatype Transcoded = Transcoded(out: bytes, used: nat)

  /** One pass through `case 'u'` of parse_string: the bytes emitted and the characters consumed. */
  function Transcode(s: bytes): (t: Transcoded)
    requires EscapeFits(s)
    ensures t.used == 5 || (t.used == 11 && PairFollows(s))
    ensures |t.out| < t.used
  {
    var uc := Hex4(s[1..]);
    if LowSurrogate(uc) || uc == 0 then Transcoded([], 5)
    else if HighSurrogate(uc) then
      if !PairFollows(s) then Transcoded([], 5)
      else
        var uc2 := Hex4(s[7..]);
        if !LowSurrogate(uc2) then Transcoded([], 11)
        else Transcoded(Encode(0x10000 + (uc - 0xD800) * 0x400 + (uc2 - 0xDC00)), 11)
    else Transcoded(Encode(uc), 5)
  }

  // ----- the theorems -----

  /** Encoding a code point gives the well-formed UTF-8 character of that code point. */
  lemma EncodeWellFormed(cp: nat)
    requires Scalar(cp)
    ensures WellFormed(Encode(cp)) && CodePoint(Encode(cp)) == cp
  {
    var w := Width(cp);
    if w >= 2 {
      assert Peel(cp, w, w) == Peel(cp / 64, w, w - 1) + [(0x80 + cp % 64) as byte];
    }
    if w >= 3 {
      assert Peel(cp / 64, w, w - 1) == Peel(cp / 64 / 64, w, w - 2) + [(0x80 + cp / 64 % 64) as byte];
    }
  }

  lemma Base64Digits(q: nat, r: nat)
    requires r < 64
    ensures (q * 64 + r) / 64 == q && (q * 64 + r) % 64 == r
  {
  }

  /** Peeling undoes shifting a six-bit group in. */
  lemma PeelGroup(q: nat, b: byte, width: nat, left: nat)
    requires 2 <= left <= width <= 4 && Tail(b)
    requires left == 2 ==> q < 0x100 - LeadMark(width)
    requires left == 3 ==> q < 0x40 * (0x100 - LeadMark(width))
    requires left == 4 ==> q < 0x1000 * (0x100 - LeadMark(width))
    ensures var cp := q * 64 + (b as nat - 0x80);
      && (left == 2 ==> cp < 0x40 * (0x100 - LeadMark(width)))
      && (left == 3 ==> cp < 0x1000 * (0x100 - LeadMark(width)))
      && (left == 4 ==> cp < 0x40000 * (0x100 - LeadMark(width)))
      && Peel(cp, width, left) == Peel(q, width, left - 1) + [b]
  {
    Base64Digits(q, b as nat - 0x80);
  }

  lemma DecodeThenEncode2(bs: bytes)
    requires |bs| == 2 && WellFormed(bs)
    ensures Scalar(CodePoint(bs)) && Encode(CodePoint(bs)) == bs
  {
    PeelGroup(bs[0] as nat - 0xC0, bs[1], 2, 2);
    assert Peel(bs[0] as nat - 0xC0, 2, 1) == [bs[0]];
  }

  lemma DecodeThenEncode3(bs: bytes)
    requires |bs| == 3 && WellFormed(bs)
    ensures Scalar(CodePoint(bs)) && Encode(CodePoint(bs)) == bs
  {
    var q := bs[0] as nat - 0xE0;
    var q' := q * 64 + (bs[1] as nat - 0x80);
    PeelGroup(q, bs[1], 3, 2);
    PeelGroup(q', bs[2], 3, 3);
    assert Peel(q, 3, 1) == [bs[0]];
    assert CodePoint(bs) == q' * 64 + (bs[2] as nat - 0x80);
  }

  lemma DecodeThenEncode4(bs: bytes)
    requires |bs| == 4 && WellFormed(bs)
    ensures Scalar(CodePoint(bs)) && Encode(CodePoint(bs)) == bs
  {
    var q := bs[0] as nat - 0xF0;
    var q' := q * 64 + (bs[1] as nat - 0x80);
    var q'' := q' * 64 + (bs[2] as nat - 0x80);
    PeelGroup(q, bs[1], 4, 2);
    PeelGroup(q', bs[2], 4, 3);
    PeelGroup(q'', bs[3], 4, 4);
    assert Peel(q, 4, 1) == [bs[0]];
    assert CodePoint(bs) == q'' * 64 + (bs[3] as nat - 0x80);
  }

  /** Only one byte sequence is well-formed for each code point, and it is the encoder's. */
  lemma DecodeThenEncode(bs: bytes)
    requires WellFormed(bs)
    ensures Scalar(CodePoint(bs)) && Encode(CodePoint(bs)) == bs
  {
    match |bs|
    case 2 => DecodeThenEncode2(bs);
    case 3 => DecodeThenEncode3(bs);
    case 4 => DecodeThenEncode4(bs);
    case _ =>
  }

  /** The UTF-16 code units an escape names: one, or two when it consumes a pair. */
  function Units(s: bytes): seq<nat>
    requires EscapeFits(s)
  {
    if HighSurrogate(Hex4(s[1..])) && PairFollows(s) then [Hex4(s[1..]), Hex4(s[7..])] else [Hex4(s[1..])]
  }

  /** The code units of a code point determine it. */
  lemma Utf16Injective(c: nat, d: nat)
    requires Scalar(c) && Scalar(d) && Utf16(c) == Utf16(d)
    ensures c == d
  {
    assert Utf16(c)[0] == Utf16(d)[0];
    if c >= 0x10000 {
      assert Utf16(c)[1] == Utf16(d)[1];
      assert c - 0x10000 == (c - 0x10000) / 0x400 * 0x400 + (c - 0x10000) % 0x400;
      assert d - 0x10000 == (d - 0x10000) / 0x400 * 0x400 + (d - 0x10000) % 0x400;
    }
  }

  lemma SurrogatePair(uc: nat, uc2: nat)
    requires HighSurrogate(uc) && LowSurrogate(uc2)
    ensures var cp := 0x10000 + (uc - 0xD800) * 0x400 + (uc2 - 0xDC00);
      Scalar(cp) && cp >= 0x10000 && Utf16(cp) == [uc, uc2]
  {
  }

  /** An escape that emits bytes emits exactly one well-formed character, the one its code units
      encode in UTF-16; and an escape naming a code point other than zero does emit it. */
  lemma TranscodeMeaning(s: bytes)
    requires EscapeFits(s)
    ensures var out := Transcode(s).out;
      out != [] ==> WellFormed(out) && Scalar(CodePoint(out)) && Utf16(CodePoint(out)) == Units(s)
    ensures forall cp: nat | Scalar(cp) && cp != 0 && Utf16(cp) == Units(s) :: Transcode(s).out == Encode(cp)
  {
    hide Hex4, Encode, WellFormed, CodePoint;
    var uc := Hex4(s[1..]);
    if HighSurrogate(uc) && PairFollows(s) && LowSurrogate(Hex4(s[7..])) {
      var cp := 0x10000 + (uc - 0xD800) * 0x400 + (Hex4(s[7..]) - 0xDC00);
      SurrogatePair(uc, Hex4(s[7..]));
      EncodeWellFormed(cp);
      forall c: nat | Scalar(c) && Utf16(c) == Units(s) ensures c == cp {
        Utf16Injective(c, cp);
      }
    } else if Scalar(uc) {
      EncodeWellFormed(uc);
      forall c: nat | Scalar(c) && Utf16(c) == Units(s) ensures c == uc {
        Utf16Injective(c, uc);
      }
    } else {
      forall c: nat | Scalar(c) ensures Utf16(c) != Units(s) {
        NoScalarHasUnits(c, s);
      }
    }
  }

  lemma NoScalarHasUnits(c: nat, s: bytes)
    requires EscapeFits(s) && Scalar(c) && !Scalar(Hex4(s[1..]))
    requires HighSurrogate(Hex4(s[1..])) && PairFollows(s) ==> !LowSurrogate(Hex4(s[7..]))
    ensures Utf16(c) != Units(s)
  {
    if c >= 0x10000 {
      assert HighSurrogate(Utf16(c)[0]) && LowSurrogate(Utf16(c)[1]);
    } else {
      assert Utf16(c)[0] == c;
    }
  }

  /** No NUL byte is ever emitted, so an escape cannot cut a string short. */
  lemma TranscodeNulFree(s: bytes)
    requires EscapeFits(s)
    ensures NulFree(Transcode(s).out)
  {
    TranscodeMeaning(s);
    var out := Transcode(s).out;
    if out != [] && |out| == 1 {
      assert out == Encode(Hex4(s[1..]));
    }
  }

  // ----- the C code's bit operations are the arithmetic above -----

  lemma ContinuationBits(uc: bv32)
    ensures ((uc | 0x80) & 0xBF) & 0xFF == 0x80 + uc % 64
    ensures uc >> 6 == uc / 64
  {
  }

  lemma LeadOfTwo(uc: bv32)
    ensures uc < 0x40 ==> uc | 0xC0 == 0xC0 + uc
    ensures (uc & 0x1F) | 0xC0 == 0xC0 + (uc & 0x1F)
  {
  }

  lemma LeadOfThree(uc: bv32)
    ensures uc < 0x20 ==> uc | 0xE0 == 0xE0 + uc
    ensures (uc & 0x0F) | 0xE0 == 0xE0 + (uc & 0x0F)
  {
  }

  lemma LeadOfFour(uc: bv32)
    ensures uc < 0x10 ==> uc | 0xF0 == 0xF0 + uc
    ensures (uc & 0x07) | 0xF0 == 0xF0 + (uc & 0x07)
  {
  }

  /** The marks do not overlap the bits that are left. */
  lemma LeadBits(uc: bv32)
    ensures (uc & 0x1F) | 0xC0 == 0xC0 + (uc & 0x1F)
    ensures (uc & 0x0F) | 0xE0 == 0xE0 + (uc & 0x0F)
    ensures (uc & 0x07) | 0xF0 == 0xF0 + (uc & 0x07)
    ensures uc < 0x40 ==> uc | 0xC0 == 0xC0 + uc
    ensures uc < 0x20 ==> uc | 0xE0 == 0xE0 + uc
    ensures uc < 0x10 ==> uc | 0xF0 == 0xF0 + uc
  {
    LeadOfTwo(uc);
    LeadOfThree(uc);
    LeadOfFour(uc);
  }

  lemma SurrogateBits(uc: bv32, uc2: bv32)
    requires 0xD800 <= uc <= 0xDBFF && 0xDC00 <= uc2 <= 0xDFFF
    ensures ((uc & 0x3FF) << 10) | (uc2 & 0x3FF) == ((uc - 0xD800) << 10) + (uc2 - 0xDC00)
  {
  }
}
