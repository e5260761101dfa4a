/** String literals: what print_string_ptr writes and what parse_string reads back. */
module Literal {
  import opened Bytes
  import opened Utf8

  // ----- printing -----

  /** The characters with a two-character escape. */
  predicate ShortEscape(c: byte) {
    c == 34 || c == 92 || c == 8 || c == 12 || c == 10 || c == 13 || c == 9
  }

  /** The test behind `flag`: does a text holding this character need the escaping path? */
  predicate NeedsEscape(c: byte) {
    0 < c < 32 || c == QUOTE || c == BACKSLASH
  }

  /** A lower-case hexadecimal digit, as "%x" prints it. */
  function HexDigit(n: nat): (b: byte)
    requires n < 16
    ensures HexValue(b) == n
  {
    if n < 10 then (48 + n) as byte else (87 + n) as byte
  }

  function EscapeChar(c: byte): (e: bytes)
    ensures |e| == (if ShortEscape(c) then 2 else if c < 32 then 6 else 1)
  {
    if c > 31 && c != QUOTE && c != BACKSLASH then [c]
    else if c == 92 || c == 34 then [BACKSLASH, c]
    else if c == 8 then [BACKSLASH, 98]
    else if c == 12 then [BACKSLASH, 102]
    else if c == 10 then [BACKSLASH, 110]
    else if c == 13 then [BACKSLASH, 114]
    else if c == 9 then [BACKSLASH, 116]
    else [BACKSLASH, LOWER_U, DIGIT_0, DIGIT_0, HexDigit(c as nat / 16), HexDigit(c as nat % 16)]
  }

  function Escape(s: bytes): bytes {
    if s == [] then [] else EscapeChar(s[0]) + Escape(s[1..])
  }

  /** The literal printed for a text. */
  function Quoted(s: bytes): bytes {
    [QUOTE] + Escape(s) + [QUOTE]
  }

  /** `len` after the measuring pass of the escaping path. */
  function Measure(s: bytes): nat {
    if s == [] then 0
    else (if ShortEscape(s[0]) then 2 else if s[0] < 32 then 6 else 1) + Measure(s[1..])
  }

  /** The measuring pass counts exactly the bytes the writing pass puts between the quotes, so with
      two quotes and the terminator the buffer of len+3 bytes is filled to its last byte. */
  lemma {:induction false} MeasureIsExact(s: bytes)
    ensures Measure(s) == |Escape(s)|
    ensures Measure(s) + 3 == |Quoted(s) + [NUL]|
  {
    if s != [] { MeasureIsExact(s[1..]); }
  }

  /** The fast path copies the text: that is also what escaping it would give. */
  lemma {:induction false} PlainIsItself(s: bytes)
    requires NulFree(s) && forall i | 0 <= i < |s| :: !NeedsEscape(s[i])
    ensures Escape(s) == s
  {
    if s != [] {
      assert s == [s[0]] + s[1..];
      PlainIsItself(s[1..]);
    }
  }

  lemma {:induction false} EscapeNulFree(s: bytes)
    ensures NulFree(Escape(s)) && NulFree(Quoted(s))
  {
    if s != [] { EscapeNulFree(s[1..]); }
  }

  /** Escaping distributes over concatenation: the writing pass may go character by character. */
  lemma {:induction false} EscapeAppend(s: bytes, t: bytes)
    ensures Escape(s + t) == Escape(s) + Escape(t)
  {
    if s == [] {
      assert s + t == t;
    } else {
      assert (s + t)[1..] == s[1..] + t;
      EscapeAppend(s[1..], t);
    }
  }

  lemma {:induction false} MeasureAppend(s: bytes, t: bytes)
    ensures Measure(s + t) == Measure(s) + Measure(t)
  {
    if s == [] {
      assert s + t == t;
    } else {
      assert (s + t)[1..] == s[1..] + t;
      MeasureAppend(s[1..], t);
    }
  }

  // ----- parsing: s is the text after the opening quote -----

  predicate Plain(c: byte) {
    c != QUOTE && c != BACKSLASH
  }

  /** Every backslash escapes a character, and every `\u` has four characters none of which is a quote
      or a backslash: the literals for which the pointer steps of parse_string stay in step. */
  predicate Complete(s: bytes) {
    if s == [] || s[0] == QUOTE then true
    else if s[0] != BACKSLASH then Complete(s[1..])
    else if |s| < 2 then false
    else if s[1] != LOWER_U then Complete(s[2..])
    else |s| >= 6 && Plain(s[2]) && Plain(s[3]) && Plain(s[4]) && Plain(s[5]) && Complete(s[6..])
  }

  /** `len` after the first pass. */
  function ScanLength(s: bytes): nat
    requires Complete(s)
  {
    if s == [] || s[0] == QUOTE then 0
    else if s[0] != BACKSLASH then 1 + ScanLength(s[1..])
    else
      assert Complete(s[2..]) by { EscapeThenComplete(s); }
      1 + ScanLength(s[2..])
  }

  /** Where the first pass stops: at the closing quote or at the end of the text. */
  function ScanRest(s: bytes): (r: bytes)
    requires Complete(s)
    ensures |r| <= |s|
    ensures r == [] || r[0] == QUOTE
  {
    if s == [] || s[0] == QUOTE then s
    else if s[0] != BACKSLASH then ScanRest(s[1..])
    else
      assert Complete(s[2..]) by { EscapeThenComplete(s); }
      ScanRest(s[2..])
  }

  /** The first pass stops at a suffix of the text. */
  lemma {:induction false} ScanRestSuffix(s: bytes)
    requires Complete(s)
    ensures s == s[..|s| - |ScanRest(s)|] + ScanRest(s)
    decreases |s|
  {
    if s != [] && s[0] == BACKSLASH {
      EscapeThenComplete(s);
      ScanRestSuffix(s[2..]);
    } else if s != [] && s[0] != QUOTE {
      ScanRestSuffix(s[1..]);
    }
  }

  lemma PlainThenComplete(s: bytes)
    requires s != [] && Plain(s[0])
    ensures Complete(s) == Complete(s[1..])
  {
  }

  /** The first pass knows nothing of `\u`: it steps over the two characters and reads on. */
  lemma EscapeThenComplete(s: bytes)
    requires s != [] && s[0] == BACKSLASH && Complete(s)
    ensures |s| >= 2 && Complete(s[2..])
  {
    if s[1] == LOWER_U {
      assert s[2..][1..] == s[3..] && s[3..][1..] == s[4..] && s[4..][1..] == s[5..] && s[5..][1..] == s[6..];
      PlainThenComplete(s[5..]);
      PlainThenComplete(s[4..]);
      PlainThenComplete(s[3..]);
      PlainThenComplete(s[2..]);
    }
  }

  function Unescape(c: byte): byte {
    match c
    case 98 => 8
    case 102 => 12
    case 110 => 10
    case 114 => 13
    case 116 => 9
    case _ => c
  }

  /** How far the escape at the start of s reaches, and what it stands for. */
  function EscapeAt(s: bytes): (t: Transcoded)
    requires s != [] && s[0] == BACKSLASH && Complete(s)
    ensures 2 <= t.used <= |s| && Complete(s[t.used..])
    ensures |t.out| < t.used
  {
    if s[1] != LOWER_U then Transcoded([Unescape(s[1])], 2)
    else
      assert PairFollows(s[1..]) ==> Complete(s[6..]) && |s| >= 12 && s[6..][6..] == s[12..];
      var t := Transcode(s[1..]);
      Transcoded(t.out, t.used + 1)
  }

  /** The bytes the second pass writes. */
  function Decode(s: bytes): bytes
    requires Complete(s)
    decreases |s|
  {
    if s == [] || s[0] == QUOTE then []
    else if s[0] != BACKSLASH then [s[0]] + Decode(s[1..])
    else EscapeAt(s).out + Decode(s[EscapeAt(s).used..])
  }

  /** Where the second pass stops. */
  function DecodeRest(s: bytes): bytes
    requires Complete(s)
    decreases |s|
  {
    if s == [] || s[0] == QUOTE then s
    else if s[0] != BACKSLASH then DecodeRest(s[1..])
    else DecodeRest(s[EscapeAt(s).used..])
  }

  lemma ScanOne(s: bytes)
    requires s != [] && Plain(s[0]) && Complete(s)
    ensures Complete(s[1..]) && ScanLength(s) == 1 + ScanLength(s[1..]) && ScanRest(s) == ScanRest(s[1..])
  {
  }

  /** Four plain characters scan one by one. */
  lemma ScanFour(s: bytes)
    requires |s| >= 4 && Plain(s[0]) && Plain(s[1]) && Plain(s[2]) && Plain(s[3]) && Complete(s)
    ensures Complete(s[4..]) && ScanLength(s) == 4 + ScanLength(s[4..]) && ScanRest(s) == ScanRest(s[4..])
  {
    assert s[1..][1..] == s[2..] && s[2..][1..] == s[3..] && s[3..][1..] == s[4..];
    ScanOne(s);
    ScanOne(s[1..]);
    ScanOne(s[2..]);
    ScanOne(s[3..]);
  }

  lemma ScanBackslash(s: bytes)
    requires s != [] && s[0] == BACKSLASH && Complete(s)
    ensures |s| >= 2 && Complete(s[2..])
    ensures ScanLength(s) == 1 + ScanLength(s[2..]) && ScanRest(s) == ScanRest(s[2..])
  {
    EscapeThenComplete(s);
  }

  lemma UnicodeDigits(s: bytes)
    requires |s| >= 2 && s[0] == BACKSLASH && s[1] == LOWER_U && Complete(s)
    ensures |s| >= 6 && Plain(s[2]) && Plain(s[3]) && Plain(s[4]) && Plain(s[5])
  {
  }

  lemma UnicodeUsed(s: bytes)
    requires s != [] && s[0] == BACKSLASH && Complete(s) && |s| >= 2 && s[1] == LOWER_U
    ensures EscapeFits(s[1..]) && EscapeAt(s) == Transcoded(Transcode(s[1..]).out, Transcode(s[1..]).used + 1)
    ensures HighSurrogate(Hex4(s[1..][1..])) && PairFollows(s[1..]) ==> Transcode(s[1..]).used == 11
  {
    hide Hex4, Encode;
    UnicodeDigits(s);
    assert PairFollows(s[1..]) ==> Complete(s[6..]) && |s| >= 12;
  }

  lemma ScanUnicode(s: bytes)
    requires |s| >= 2 && s[0] == BACKSLASH && s[1] == LOWER_U && Complete(s)
    ensures |s| >= 6 && Complete(s[6..])
    ensures ScanLength(s) == 5 + ScanLength(s[6..]) && ScanRest(s) == ScanRest(s[6..])
  {
    UnicodeDigits(s);
    ScanBackslash(s);
    var r := s[2..];
    assert r[4..] == s[6..];
    ScanFour(r);
  }

  /** One escape, seen by the first pass: a `\u` counts five, a pair of them ten. */
  lemma ScanEscape(s: bytes)
    requires s != [] && s[0] == BACKSLASH && Complete(s)
    ensures var t := EscapeAt(s);
      && ScanRest(s) == ScanRest(s[t.used..])
      && ScanLength(s) >= |t.out| + ScanLength(s[t.used..])
  {
    var t := EscapeAt(s);
    if s[1] == LOWER_U {
      ScanUnicode(s);
      if t.used == 12 {
        ScanUnicode(s[6..]);
        assert s[6..][6..] == s[12..];
      }
    }
  }

  /** Both passes of parse_string stop at the same place, and the second never writes more bytes
      than the first counted, so the buffer of len+1 bytes holds them and the terminator. */
  lemma {:induction false} PassesAgree(s: bytes)
    requires Complete(s)
    ensures DecodeRest(s) == ScanRest(s)
    ensures |Decode(s)| <= ScanLength(s)
    decreases |s|
  {
    if s == [] || s[0] == QUOTE {
    } else if s[0] != BACKSLASH {
      PassesAgree(s[1..]);
    } else {
      ScanEscape(s);
      PassesAgree(s[EscapeAt(s).used..]);
    }
  }

  /** A decoded string holds no NUL byte, so its C string is the whole of it. */
  lemma {:induction false} DecodeNulFree(s: bytes)
    requires NulFree(s) && Complete(s)
    ensures NulFree(Decode(s))
    decreases |s|
  {
    if s == [] || s[0] == QUOTE {
    } else if s[0] != BACKSLASH {
      DecodeNulFree(s[1..]);
    } else {
      var t := EscapeAt(s);
      if s[1] == LOWER_U { TranscodeNulFree(s[1..]); }
      DecodeNulFree(s[t.used..]);
    }
  }

  // ----- the round trip -----

  /** One escaped character decodes to itself, whatever follows it. */
  lemma DecodeEscapedChar(c: byte, r: bytes)
    requires c != NUL && Complete(r)
    ensures var s := EscapeChar(c) + r;
      Complete(s) && Decode(s) == [c] + Decode(r) && DecodeRest(s) == DecodeRest(r)
  {
    var e := EscapeChar(c);
    var s := e + r;
    assert s[|e|..] == r;
    if |e| == 6 {
      assert s[1..][1..] == s[2..] && s[2] == DIGIT_0;
      assert Complete(s);
      assert Hex4(s[1..][1..]) == c as nat;
      assert Encode(c as nat) == [c];
      assert Transcode(s[1..]) == Transcoded([c], 5);
      assert EscapeAt(s) == Transcoded([c], 6);
    } else if |e| == 2 {
      assert Complete(s) && EscapeAt(s) == Transcoded([c], 2);
    }
  }

  /** parse_string recovers every NUL-free text from the literal printed for it. */
  lemma {:induction false} StringRoundTrip(s: bytes, r: bytes)
    requires NulFree(s)
    ensures var text := Escape(s) + ([QUOTE] + r);
      Complete(text) && Decode(text) == s && DecodeRest(text) == [QUOTE] + r
  {
    var tail := [QUOTE] + r;
    if s == [] {
      assert Escape(s) + tail == tail;
    } else {
      StringRoundTrip(s[1..], r);
      DecodeEscapedChar(s[0], Escape(s[1..]) + tail);
      assert Escape(s) + tail == EscapeChar(s[0]) + (Escape(s[1..]) + tail);
    }
  }
}
