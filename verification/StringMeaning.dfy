/** What the characters of a string literal stand for, after RFC 8259 section 7, and that parse_string and
    print_string_ptr agree with it. */
module StringMeaning {
  import opened Bytes
  import opened Spelling
  import opened Utf8
  import opened Literal
  import opened Json

  // ----- hexadecimal digits -----

  /** d is the n-th hexadecimal digit, in either case. */
  predicate HexSpells(d: byte, n: nat) {
    n < 16 && (d == HEX_LOWER[n] || d == HEX_UPPER[n])
  }

  lemma HexTable(d: byte, n: nat)
    ensures HexSpells(d, n) <==> HexValue(d) == n
  {
    if n < 16 { HexRow(n); }
  }

  lemma HexRow(n: nat)
    requires n < 16
    ensures n < 10 ==> HEX_LOWER[n] as int == 48 + n && HEX_UPPER[n] as int == 48 + n
    ensures n >= 10 ==> HEX_LOWER[n] as int == 87 + n && HEX_UPPER[n] as int == 55 + n
  {
  }

  /** s starts with the four hexadecimal digits of n. */
  predicate FourSpell(s: bytes, n: nat) {
    && |s| >= 4 && n <= 0xFFFF
    && HexSpells(s[0], n / 4096) && HexSpells(s[1], n / 256 % 16) && HexSpells(s[2], n / 16 % 16)
    && HexSpells(s[3], n % 16)
  }

  predicate IsHex(d: byte) {
    d in HEX_LOWER || d in HEX_UPPER
  }

  lemma IsHexIs(d: byte)
    ensures IsHex(d) <==> HexValue(d) >= 0
  {
    if d in HEX_LOWER {
      var n :| 0 <= n < 16 && d == HEX_LOWER[n];
      HexTable(d, n);
    } else if d in HEX_UPPER {
      var n :| 0 <= n < 16 && d == HEX_UPPER[n];
      HexTable(d, n);
    } else if HexValue(d) >= 0 {
      HexTable(d, HexValue(d));
    }
  }

  /** parse_hex4: the number the four digits spell; zero exactly when they spell zero or nothing. */
  lemma HexFour(s: bytes, n: nat)
    requires |s| >= 4
    ensures FourSpell(s, n) ==> Hex4(s) == n
    ensures IsHex(s[0]) && IsHex(s[1]) && IsHex(s[2]) && IsHex(s[3]) ==> FourSpell(s, Hex4(s))
    ensures !(IsHex(s[0]) && IsHex(s[1]) && IsHex(s[2]) && IsHex(s[3])) ==> Hex4(s) == 0
  {
    hide HexSpells, IsHex, HexValue, Hex4, FourSpell;
    if FourSpell(s, n) { HexRead(s, n); }
    IsHexIs(s[0]);
    IsHexIs(s[1]);
    IsHexIs(s[2]);
    IsHexIs(s[3]);
    HexZero(s);
    if HexValue(s[0]) >= 0 && HexValue(s[1]) >= 0 && HexValue(s[2]) >= 0 && HexValue(s[3]) >= 0 { HexSpelled(s); }
  }

  lemma HexZero(s: bytes)
    requires |s| >= 4
    ensures HexValue(s[0]) < 0 || HexValue(s[1]) < 0 || HexValue(s[2]) < 0 || HexValue(s[3]) < 0 ==> Hex4(s) == 0
  {
    hide HexValue;
  }

  lemma HexRead(s: bytes, n: nat)
    requires FourSpell(s, n)
    ensures Hex4(s) == n
  {
    hide HexSpells, HexValue;
    HexTable(s[0], n / 4096);
    HexTable(s[1], n / 256 % 16);
    HexTable(s[2], n / 16 % 16);
    HexTable(s[3], n % 16);
    hide FourSpell;
    Recombined(n);
  }

  lemma Recombined(n: nat)
    ensures ((n / 4096 * 16 + n / 256 % 16) * 16 + n / 16 % 16) * 16 + n % 16 == n
  {
    assert n / 16 == 16 * (n / 256) + n / 16 % 16;
    assert n / 256 == 16 * (n / 4096) + n / 256 % 16;
  }

  lemma HexSpelled(s: bytes)
    requires |s| >= 4 && HexValue(s[0]) >= 0 && HexValue(s[1]) >= 0 && HexValue(s[2]) >= 0 && HexValue(s[3]) >= 0
    ensures FourSpell(s, Hex4(s))
  {
    hide HexSpells, HexValue;
    var a, b, c, d := HexValue(s[0]), HexValue(s[1]), HexValue(s[2]), HexValue(s[3]);
    HexTable(s[0], a);
    HexTable(s[1], b);
    HexTable(s[2], c);
    HexTable(s[3], d);
    Nibbles(a, b, c, d);
  }

  lemma Nibbles(a: nat, b: nat, c: nat, d: nat)
    requires a < 16 && b < 16 && c < 16 && d < 16
    ensures var n := ((a * 16 + b) * 16 + c) * 16 + d;
      n <= 0xFFFF && n / 4096 == a && n / 256 % 16 == b && n / 16 % 16 == c && n % 16 == d
  {
  }

  // ----- the units of a literal -----

  /** The two-character escapes of RFC 8259 section 7: their letters, and what they stand for. */
  const LETTERS := Ascii("\"\\/bfnrt")
  const MEANT: bytes := [0x22, 0x5C, 0x2F, 0x08, 0x0C, 0x0A, 0x0D, 0x09]

  predicate ShortForm(letter: byte, c: byte) {
    exists k: nat | k < 8 :: letter == LETTERS[k] && c == MEANT[k]
  }

  /** s starts with the escape of one UTF-16 code unit. */
  predicate UnitEscape(s: bytes, n: nat) {
    |s| >= 6 && s[0] == BACKSLASH && s[1] == LOWER_U && FourSpell(s[2..], n)
  }

  /** bs is the UTF-8 character of the code point. */
  predicate CharacterOf(cp: nat, bs: bytes) {
    Scalar(cp) && WellFormed(bs) && CodePoint(bs) == cp
  }

  /** The first `used` characters of s are a unit of a literal that stands for `out`: a character that needs no
      escape, a two-character escape, or a code point written as one code unit or as two. */
  ghost predicate Stands(s: bytes, used: nat, out: bytes) {
    || (used == 1 <= |s| && Plain(s[0]) && out == [s[0]])
    || (used == 2 <= |s| && s[0] == BACKSLASH && |out| == 1 && ShortForm(s[1], out[0]))
    || (used == 6 && exists cp: nat :: UnitEscape(s, cp) && cp != 0 && CharacterOf(cp, out))
    || (used == 12 && exists cp: nat :: PairEscape(s, cp) && CharacterOf(cp, out))
  }

  /** The escapes of both code units of a code point above the first plane. */
  predicate PairEscape(s: bytes, cp: nat) {
    && |s| >= 12 && 0x10000 <= cp <= 0x10FFFF
    && UnitEscape(s, Utf16(cp)[0]) && UnitEscape(s[6..], Utf16(cp)[1])
  }

  /** What the standard does not cover: an escaped character without a meaning of its own stands for itself; a
      code unit that is zero, no hexadecimal number or half a pair stands for nothing, and takes the escape
      behind it along when it is a first half. */
  ghost predicate Tolerated(s: bytes, used: nat, out: bytes) {
    || (used == 2 <= |s| && s[0] == BACKSLASH && s[1] != LOWER_U && s[1] !in LETTERS && out == [s[1]])
    || (used == 6 <= |s| && s[0] == BACKSLASH && s[1] == LOWER_U && out == []
        && forall n: nat | UnitEscape(s, n) :: n == 0 || LowSurrogate(n) || (HighSurrogate(n) && !UnitFollows(s)))
    || (used == 12 <= |s| && UnitFollows(s) && out == [] && (exists n: nat :: UnitEscape(s, n) && HighSurrogate(n))
        && forall n: nat | UnitEscape(s[6..], n) :: !LowSurrogate(n))
  }

  predicate UnitFollows(s: bytes) {
    |s| >= 8 && s[6] == BACKSLASH && s[7] == LOWER_U
  }

  lemma ShortFormIs(letter: byte, c: byte)
    ensures ShortForm(letter, c) <==> letter in LETTERS && Unescape(letter) == c
  {
    LettersAre();
    if letter in LETTERS {
      var k :| 0 <= k < 8 && letter == LETTERS[k];
      assert Unescape(letter) == MEANT[k];
    }
  }

  lemma LettersAre()
    ensures forall k | 0 <= k < 8 :: Unescape(LETTERS[k]) == MEANT[k] && LETTERS[k] != LOWER_U
    ensures forall b: byte | b !in LETTERS :: Unescape(b) == b
  {
    assert LETTERS == [34, 92, 47, 98, 102, 110, 114, 116];
    forall b: byte | b !in LETTERS ensures Unescape(b) == b {
      assert b != LETTERS[3] && b != LETTERS[4] && b != LETTERS[5] && b != LETTERS[6] && b != LETTERS[7];
    }
  }

  /** The escape at the start of s, in terms of the code units spelled. */
  lemma EscapeUnit(s: bytes, n: nat)
    requires s != [] && s[0] == BACKSLASH && Complete(s) && UnitEscape(s, n)
    ensures var t := EscapeAt(s);
      && (n == 0 || LowSurrogate(n) ==> t == Transcoded([], 6))
      && (Scalar(n) && n != 0 ==> t == Transcoded(Encode(n), 6))
      && (HighSurrogate(n) && !UnitFollows(s) ==> t == Transcoded([], 6))
      && (HighSurrogate(n) && UnitFollows(s) ==> t.used == 12 <= |s| && Complete(s[6..]))
  {
    hide Encode, FourSpell, Hex4;
    HexFour(s[2..], n);
    assert s[1..][1..] == s[2..];
  }

  lemma EscapeNoUnit(s: bytes)
    requires s != [] && s[0] == BACKSLASH && Complete(s) && |s| >= 2 && s[1] == LOWER_U
    requires forall n: nat :: !UnitEscape(s, n)
    ensures EscapeAt(s) == Transcoded([], 6)
  {
    hide Encode, FourSpell, Hex4, IsHex;
    UnicodeDigits(s);
    HexFour(s[2..], 0);
    assert s[1..][1..] == s[2..];
    assert !UnitEscape(s, Hex4(s[2..]));
  }

  lemma EscapePair(s: bytes, n: nat, n2: nat)
    requires s != [] && s[0] == BACKSLASH && Complete(s) && UnitEscape(s, n) && HighSurrogate(n) && UnitFollows(s)
    requires |s| >= 12 && UnitEscape(s[6..], n2)
    ensures EscapeAt(s)
         == Transcoded(if LowSurrogate(n2) then Encode(0x10000 + (n - 0xD800) * 0x400 + (n2 - 0xDC00)) else [], 12)
  {
    hide Encode, FourSpell, Hex4, Transcode;
    HexFour(s[2..], n);
    HexFour(s[6..][2..], n2);
    assert s[1..][1..] == s[2..] && s[1..][7..] == s[8..] && s[6..][2..] == s[8..];
    UnicodeUsed(s);
    hide EscapeAt, Complete;
    TranscodePair(s[1..], n, n2);
  }

  lemma TranscodePair(t: bytes, n: nat, n2: nat)
    requires EscapeFits(t) && PairFollows(t) && Hex4(t[1..]) == n && Hex4(t[7..]) == n2 && HighSurrogate(n)
    ensures Transcode(t)
         == Transcoded(if LowSurrogate(n2) then Encode(0x10000 + (n - 0xD800) * 0x400 + (n2 - 0xDC00)) else [], 11)
  {
    hide Encode, Hex4;
  }

  lemma EscapeHalf(s: bytes, n: nat)
    requires s != [] && s[0] == BACKSLASH && Complete(s) && UnitEscape(s, n) && HighSurrogate(n) && UnitFollows(s)
    requires |s| >= 12 && forall n2: nat | UnitEscape(s[6..], n2) :: !LowSurrogate(n2)
    ensures EscapeAt(s) == Transcoded([], 12)
  {
    hide Encode, FourSpell, Hex4, IsHex;
    HexFour(s[2..], n);
    HexFour(s[6..][2..], 0);
    assert s[1..][1..] == s[2..] && s[1..][7..] == s[8..] && s[6..][2..] == s[8..];
    assert UnitEscape(s[6..], Hex4(s[8..])) ==> !LowSurrogate(Hex4(s[8..]));
    assert s[6..][0] == BACKSLASH && s[6..][1] == LOWER_U;
    UnicodeUsed(s);
    hide EscapeAt, Complete;
  }

  lemma OneCharacter(cp: nat, bs: bytes)
    requires CharacterOf(cp, bs)
    ensures bs == Encode(cp)
  {
    DecodeThenEncode(bs);
  }

  /** What the parser reads for a unit is what it stands for. */
  lemma UnitRead(s: bytes, used: nat, out: bytes)
    requires s != [] && s[0] != QUOTE && Complete(s) && (Stands(s, used, out) || Tolerated(s, used, out))
    ensures if s[0] != BACKSLASH then used == 1 && out == [s[0]] else EscapeAt(s) == Transcoded(out, used)
  {
    hide Encode, WellFormed, CodePoint, ShortForm, FourSpell, Transcode, Unescape;
    if s[0] == BACKSLASH {
      if used == 2 {
        if |out| == 1 { ShortFormIs(s[1], out[0]); }
        LettersAre();
      } else if used == 6 && Stands(s, used, out) {
        var cp: nat :| UnitEscape(s, cp) && cp != 0 && CharacterOf(cp, out);
        OneCharacter(cp, out);
        EscapeUnit(s, cp);
      } else if used == 12 && Stands(s, used, out) {
        PairRead(s, out);
      } else {
        LostRead(s, used);
      }
    }
  }

  lemma PairRead(s: bytes, out: bytes)
    requires s != [] && s[0] == BACKSLASH && Complete(s)
    requires exists cp: nat :: PairEscape(s, cp) && CharacterOf(cp, out)
    ensures EscapeAt(s) == Transcoded(out, 12)
  {
    hide Encode, WellFormed, CodePoint, FourSpell, Transcode, Complete, EscapeAt;
    var cp: nat :| PairEscape(s, cp) && CharacterOf(cp, out);
    OneCharacter(cp, out);
    var hi, lo := Utf16(cp)[0], Utf16(cp)[1];
    assert cp - 0x10000 == (cp - 0x10000) / 0x400 * 0x400 + (cp - 0x10000) % 0x400;
    assert s[6..][0] == BACKSLASH && s[6..][1] == LOWER_U;
    EscapePair(s, hi, lo);
  }

  lemma LostRead(s: bytes, used: nat)
    requires s != [] && s[0] == BACKSLASH && Complete(s) && used != 2 && Tolerated(s, used, [])
    ensures EscapeAt(s) == Transcoded([], used)
  {
    hide Encode, FourSpell, Transcode, Complete, EscapeAt;
    if used == 12 {
      var n: nat :| UnitEscape(s, n) && HighSurrogate(n);
      EscapeHalf(s, n);
    } else if n: nat :| UnitEscape(s, n) {
      EscapeUnit(s, n);
    } else {
      EscapeNoUnit(s);
    }
  }

  /** Every complete literal starts with a unit, unless it ends. */
  lemma SomeUnit(s: bytes) returns (used: nat, out: bytes)
    requires s != [] && s[0] != QUOTE && Complete(s)
    ensures Stands(s, used, out) || Tolerated(s, used, out)
  {
    hide Encode, WellFormed, CodePoint, ShortForm, FourSpell, Transcode, Unescape, PairEscape;
    if s[0] != BACKSLASH {
      used, out := 1, [s[0]];
    } else if s[1] != LOWER_U {
      used, out := 2, [Unescape(s[1])];
      ShortFormIs(s[1], out[0]);
      LettersAre();
    } else {
      used, out := SomeUnicode(s);
    }
  }

  lemma SomeUnicode(s: bytes) returns (used: nat, out: bytes)
    requires |s| >= 2 && s[0] == BACKSLASH && s[1] == LOWER_U && Complete(s)
    ensures Stands(s, used, out) || Tolerated(s, used, out)
  {
    UnicodeDigits(s);
    hide Encode, WellFormed, CodePoint, ShortForm, FourSpell, Transcode, Complete;
    used, out := 6, [];
    if n: nat :| UnitEscape(s, n) {
      OnlyUnit(s, n);
      if Scalar(n) && n != 0 {
        out := Encode(n);
        EncodeWellFormed(n);
        assert CharacterOf(n, out);
      } else if HighSurrogate(n) && UnitFollows(s) {
        EscapeUnit(s, n);
        used, out := SomePair(s, n);
      }
    }
  }

  lemma OnlyUnit(s: bytes, n: nat)
    requires UnitEscape(s, n)
    ensures forall n': nat | UnitEscape(s, n') :: n' == n
  {
    hide FourSpell, Hex4;
    HexFour(s[2..], n);
    forall n': nat | UnitEscape(s, n') ensures n' == n { HexFour(s[2..], n'); }
  }

  lemma SomePair(s: bytes, n: nat) returns (used: nat, out: bytes)
    requires |s| >= 12 && UnitEscape(s, n) && HighSurrogate(n) && UnitFollows(s)
    ensures Stands(s, used, out) || Tolerated(s, used, out)
  {
    hide Encode, WellFormed, CodePoint, ShortForm, FourSpell;
    used, out := 12, [];
    if n2: nat :| UnitEscape(s[6..], n2) && LowSurrogate(n2) {
      var cp := 0x10000 + (n - 0xD800) * 0x400 + (n2 - 0xDC00);
      SurrogatePair(n, n2);
      EncodeWellFormed(cp);
      out := Encode(cp);
      assert PairEscape(s, cp) && CharacterOf(cp, out);
    }
  }

  // ----- whole literals -----

  /** The literal that starts behind its quote with s stands for `out`, unit by unit, and ends before `rest`:
      at its closing quote, or at the end of the text. */
  ghost predicate Reads(s: bytes, out: bytes, rest: bytes)
    decreases |s|
  {
    if s == [] || s[0] == QUOTE then out == [] && rest == s
    else exists used: nat, k: nat :: Begins(s, used, out, k) && Reads(s[used..], out[k..], rest)
  }

  ghost predicate Begins(s: bytes, used: nat, out: bytes, k: nat) {
    && 0 < used <= |s| && k <= |out| && (Stands(s, used, out[..k]) || Tolerated(s, used, out[..k]))
  }

  /** What the parser gives is what the literal stands for, and it stops where the literal ends. */
  lemma {:induction false} DecodedReads(s: bytes)
    requires Complete(s)
    ensures Reads(s, Decode(s), DecodeRest(s))
    decreases |s|
  {
    hide Stands, Tolerated;
    if s != [] && s[0] != QUOTE {
      var used, out := SomeUnit(s);
      UnitRead(s, used, out);
      DecodeUnit(s, used, out);
      hide Complete, Decode, DecodeRest, EscapeAt;
      DecodedReads(s[used..]);
      var all := Decode(s);
      assert all[..|out|] == out && all[|out|..] == Decode(s[used..]);
      assert Begins(s, used, all, |out|);
    }
  }

  lemma BeginsRead(s: bytes, used: nat, out: bytes, k: nat)
    requires s != [] && s[0] != QUOTE && Complete(s) && Begins(s, used, out, k)
    ensures 0 < used <= |s| && k <= |out| && Complete(s[used..])
    ensures Decode(s) == out[..k] + Decode(s[used..]) && DecodeRest(s) == DecodeRest(s[used..])
  {
    hide Stands, Tolerated;
    UnitRead(s, used, out[..k]);
    DecodeUnit(s, used, out[..k]);
  }

  lemma FirstUnit(s: bytes, out: bytes, rest: bytes) returns (used: nat, k: nat)
    requires s != [] && s[0] != QUOTE && Reads(s, out, rest)
    ensures 0 < used <= |s| && k <= |out| && Begins(s, used, out, k) && Reads(s[used..], out[k..], rest)
  {
    hide Stands, Tolerated;
    used, k :| Begins(s, used, out, k) && Reads(s[used..], out[k..], rest);
  }

  /** It stands for nothing else. */
  lemma {:induction false} ReadsOnly(s: bytes, out: bytes, rest: bytes)
    requires Complete(s) && Reads(s, out, rest)
    ensures out == Decode(s) && rest == DecodeRest(s)
    decreases |s|
  {
    if s != [] && s[0] != QUOTE {
      hide Complete, Decode, DecodeRest, Begins, Reads;
      var used, k := FirstUnit(s, out, rest);
      BeginsRead(s, used, out, k);
      ReadsOnly(s[used..], out[k..], rest);
      assert out == out[..k] + out[k..];
    }
  }

  /** parse_string, for every literal with complete escapes. */
  lemma StringMeans(s: bytes, out: bytes, rest: bytes)
    requires s != [] && s[0] == QUOTE && Complete(s[1..])
    ensures Reads(s[1..], out, rest) <==> out == Decode(s[1..]) && rest == DecodeRest(s[1..])
    ensures Reads(s[1..], out, rest) ==> ParseString(s) == Ok(out, if rest == [] then [] else rest[1..])
  {
    hide Reads, Complete, Decode, DecodeRest, ScanRest;
    DecodedReads(s[1..]);
    PassesAgree(s[1..]);
    if Reads(s[1..], out, rest) { ReadsOnly(s[1..], out, rest); }
  }

  lemma DecodeUnit(s: bytes, used: nat, out: bytes)
    requires s != [] && s[0] != QUOTE && Complete(s)
    requires if s[0] != BACKSLASH then used == 1 && out == [s[0]] else EscapeAt(s) == Transcoded(out, used)
    ensures 0 < used <= |s| && Complete(s[used..])
    ensures Decode(s) == out + Decode(s[used..]) && DecodeRest(s) == DecodeRest(s[used..])
  {
  }

  /** Which literals are complete: every backslash has a character behind it, and every `\u` four of which none
      is a quote or a backslash. */
  lemma CompleteUnits(c: byte, four: bytes, r: bytes)
    requires |four| == 4
    ensures Complete([]) && Complete([QUOTE] + r) && !Complete([BACKSLASH])
    ensures Plain(c) ==> Complete([c] + r) == Complete(r)
    ensures c != LOWER_U ==> Complete([BACKSLASH, c] + r) == Complete(r)
    ensures Complete([BACKSLASH, LOWER_U] + four + r)
      == (QUOTE !in four && BACKSLASH !in four && Complete(r))
    ensures forall t: bytes | |t| < 4 :: !Complete([BACKSLASH, LOWER_U] + t)
  {
    assert ([c] + r)[1..] == r && ([BACKSLASH, c] + r)[2..] == r;
    var s := [BACKSLASH, LOWER_U] + four + r;
    assert s[6..] == r && s[2] == four[0] && s[3] == four[1] && s[4] == four[2] && s[5] == four[3];
    assert four == [four[0], four[1], four[2], four[3]];
  }

  // ----- code points -----

  /** e is the escape of a code point: one code unit, or the two of a pair, in any spelling of the digits. */
  predicate SpelledAs(e: bytes, cp: nat) {
    if cp < 0x10000 then |e| == 6 && UnitEscape(e, cp) else |e| == 12 && PairEscape(e, cp)
  }

  lemma HexPlain(d: byte, n: nat)
    requires HexSpells(d, n)
    ensures Plain(d)
  {
    HexRow(n);
  }

  lemma UnitComplete(s: bytes, n: nat)
    requires UnitEscape(s, n) && Complete(s[6..])
    ensures Complete(s)
  {
    hide HexSpells, Plain;
    HexPlain(s[2], n / 4096);
    HexPlain(s[3], n / 256 % 16);
    HexPlain(s[4], n / 16 % 16);
    HexPlain(s[5], n % 16);
  }

  /** Inside a literal, the escape of any code point but zero becomes its UTF-8 character. */
  lemma EscapeInside(cp: nat, e: bytes, r: bytes)
    requires Scalar(cp) && cp != 0 && SpelledAs(e, cp) && Complete(r)
    ensures CharacterOf(cp, Encode(cp))
    ensures Complete(e + r) && Decode(e + r) == Encode(cp) + Decode(r) && DecodeRest(e + r) == DecodeRest(r)
  {
    hide Encode, WellFormed, CodePoint, FourSpell, Complete, Decode, DecodeRest;
    EncodeWellFormed(cp);
    assert CharacterOf(cp, Encode(cp));
    var s := e + r;
    if cp < 0x10000 {
      SamePrefix(s[2..], e[2..], cp);
      assert s[6..] == r && UnitEscape(s, cp);
      UnitComplete(s, cp);
      assert Stands(s, 6, Encode(cp));
      UnitRead(s, 6, Encode(cp));
      DecodeUnit(s, 6, Encode(cp));
    } else {
      var hi, lo := Utf16(cp)[0], Utf16(cp)[1];
      SamePrefix(s[2..], e[2..], hi);
      SamePrefix(s[6..][2..], e[6..][2..], lo);
      assert s[12..] == r && s[6..][6..] == r && s[6..][0] == e[6..][0] && s[6..][1] == e[6..][1];
      assert UnitEscape(s, hi) && UnitEscape(s[6..], lo);
      UnitComplete(s[6..], lo);
      UnitComplete(s, hi);
      assert Stands(s, 12, Encode(cp));
      UnitRead(s, 12, Encode(cp));
      DecodeUnit(s, 12, Encode(cp));
    }
  }

  lemma SamePrefix(s: bytes, t: bytes, n: nat)
    requires FourSpell(t, n) && |s| >= |t| && s[..|t|] == t
    ensures FourSpell(s, n)
  {
    hide HexSpells;
    assert forall i | 0 <= i < |t| :: s[i] == s[..|t|][i];
  }

  /** The quoted escape of a code point parses to its UTF-8 character. */
  lemma ScalarParsed(cp: nat, e: bytes, r: bytes)
    requires Scalar(cp) && cp != 0 && SpelledAs(e, cp)
    ensures ParseString([QUOTE] + (e + ([QUOTE] + r))) == Ok(Encode(cp), r) && CharacterOf(cp, Encode(cp))
  {
    hide Encode, CharacterOf, SpelledAs;
    var tail := [QUOTE] + r;
    var s := [QUOTE] + (e + tail);
    EscapeInside(cp, e, tail);
    assert s[1..] == e + tail && tail[1..] == r;
    assert Encode(cp) + [] == Encode(cp);
    PassesAgree(s[1..]);
  }

  // ----- printing -----

  /** The escapes print_string_ptr chooses: the two-character ones of the standard except that of the slash,
      four lower-case digits for the other control characters, and none for all other characters. */
  lemma EscapeCharIs(c: byte, k: nat)
    ensures k < 8 && k != 2 && c == MEANT[k] ==> EscapeChar(c) == [BACKSLASH, LETTERS[k]]
    ensures c < 32 && c !in MEANT ==>
      EscapeChar(c) == Ascii("\\u00") + [HEX_LOWER[c as nat / 16], HEX_LOWER[c as nat % 16]]
    ensures c >= 32 && (c == MEANT[2] || c !in MEANT) ==> EscapeChar(c) == [c]
  {
    assert LETTERS == [34, 92, 47, 98, 102, 110, 114, 116];
    if c < 32 && c !in MEANT {
      assert c != MEANT[3] && c != MEANT[4] && c != MEANT[5] && c != MEANT[6] && c != MEANT[7];
      HexRow(c as nat / 16);
      HexRow(c as nat % 16);
    }
    if c >= 32 && (c == MEANT[2] || c !in MEANT) { assert c != MEANT[0] && c != MEANT[1]; }
  }

  /** Every printed character stands for itself. */
  lemma EscapeCharStands(c: byte, r: bytes)
    requires c != NUL
    ensures Stands(EscapeChar(c) + r, |EscapeChar(c)|, [c])
  {
    var s := EscapeChar(c) + r;
    if |EscapeChar(c)| == 2 {
      LettersAre();
      assert s[1] in LETTERS by {
        assert s[1] == LETTERS[0] || s[1] == LETTERS[1] || s[1] == LETTERS[3] || s[1] == LETTERS[4]
            || s[1] == LETTERS[5] || s[1] == LETTERS[6] || s[1] == LETTERS[7];
      }
      ShortFormIs(s[1], c);
    } else if |EscapeChar(c)| == 6 {
      hide Ascii;
      HexRow(0);
      HexRow(c as nat / 16);
      HexRow(c as nat % 16);
      assert FourSpell(s[2..], c as nat);
      assert UnitEscape(s, c as nat) && CharacterOf(c as nat, [c]);
    }
  }
}
