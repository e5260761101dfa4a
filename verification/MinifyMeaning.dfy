/** Minifying a text leaves the tree it denotes alone, and turns formatted text into unformatted text. */
module MinifyMeaning {
  import opened Bytes
  import opened Utf8
  import opened Literal
  import opened Json
  import opened RoundTrip
  import opened Minify

  // ----- copying -----

  /** The characters the minifier copies one by one. */
  predicate Copied(b: byte) {
    !White(b) && b != SLASH && b != QUOTE
  }

  lemma {:induction false} CopyRun(c: bytes, r: bytes)
    requires Minifiable(r) && forall i | 0 <= i < |c| :: Copied(c[i])
    ensures Minifiable(c + r) && Minified(c + r) == c + Minified(r)
  {
    hide Minifiable, Minified;
    if c == [] {
      assert c + r == r && c + Minified(r) == Minified(r);
    } else {
      assert (c + r)[1..] == c[1..] + r;
      CopyRun(c[1..], r);
      CopyOne(c + r);
      assert [c[0]] + (c[1..] + Minified(r)) == c + Minified(r);
    }
  }

  lemma CopyOne(s: bytes)
    requires s != [] && Copied(s[0]) && Minifiable(s[1..])
    ensures Minifiable(s) && Minified(s) == [s[0]] + Minified(s[1..])
  {
    hide LiteralMinifiable, MinifiedLiteral, AfterLine, AfterComment, CommentCloses;
  }

  lemma DropWhites(w: bytes, r: bytes)
    requires Minifiable(r) && forall i | 0 <= i < |w| :: White(w[i])
    ensures Minifiable(w + r) && Minified(w + r) == Minified(r)
  {
    if w == [] {
      assert w + r == r;
    } else {
      assert (w + r)[1..] == w[1..] + r;
      DropWhites(w[1..], r);
    }
  }

  lemma BlankStep(s: bytes)
    requires s != [] && Blank(s[0])
    ensures Minifiable(s) == Minifiable(s[1..])
    ensures Minifiable(s) ==> Minified(s) == (if White(s[0]) then [] else [s[0]]) + Minified(s[1..])
  {
    hide LiteralMinifiable, MinifiedLiteral, AfterLine, AfterComment, CommentCloses;
  }

  lemma FirstKept(s: bytes)
    requires s != [] && !Blank(s[0]) && s[0] != SLASH && Minifiable(s)
    ensures Minified(s) != [] && Minified(s)[0] == s[0]
  {
    hide LiteralMinifiable, MinifiedLiteral, AfterLine, AfterComment, CommentCloses;
  }

  /** Skipping blanks commutes with minifying, unless a comment follows them. */
  lemma {:induction false} SkipMinified(s: bytes)
    requires Minifiable(Skip(s)) && (Skip(s) != [] ==> Skip(s)[0] != SLASH)
    ensures Minifiable(s) && Skip(Minified(s)) == Minified(Skip(s))
  {
    if s == [] {
      MinifiedEmpty(s);
    } else {
      hide Minified, Minifiable;
      if Blank(s[0]) {
        BlankStep(s);
        SkipMinified(s[1..]);
        SkipBlanks(if White(s[0]) then [] else [s[0]], Minified(s[1..]));
      } else {
        FirstKept(s);
      }
    }
  }

  // ----- string literals -----

  /** An escape depends only on the characters up to a closing quote behind it. */
  lemma EscapeLocal(s: bytes, s': bytes, k: nat)
    requires s != [] && s[0] == BACKSLASH && Complete(s)
    requires EscapeAt(s).used < k <= |s| && k <= |s'| && s[..k] == s'[..k]
    requires |s| >= 7 && s[1] == LOWER_U && s[6] == BACKSLASH ==> k >= 8
    requires Complete(s'[EscapeAt(s).used..])
    ensures Complete(s') && EscapeAt(s') == EscapeAt(s)
  {
    hide Hex4, Encode, ShortEscape, Transcode;
    assert forall i | 0 <= i < k :: s'[i] == s[..k][i] == s[i];
    if s[1] == LOWER_U { EscapeLocalUnicode(s, s', k); }
  }

  lemma EscapeLocalUnicode(s: bytes, s': bytes, k: nat)
    requires s != [] && s[0] == BACKSLASH && Complete(s) && |s| >= 2 && s[1] == LOWER_U
    requires EscapeAt(s).used < k <= |s| && k <= |s'| && forall i | 0 <= i < k :: s'[i] == s[i]
    requires |s| >= 7 && s[6] == BACKSLASH ==> k >= 8
    requires Complete(s'[EscapeAt(s).used..])
    ensures Complete(s') && EscapeAt(s') == EscapeAt(s)
  {
    hide Hex4, Encode, ShortEscape, HexValue, HighSurrogate, LowSurrogate;
    UnicodeDigits(s);
    HexLocal(s'[1..][1..], s[1..][1..]);
    if EscapeAt(s).used == 12 { EscapeLocalPair(s, s', k); }
    hide Transcode;
    assert Complete(s');
    UnicodeUsed(s);
    UnicodeUsed(s');
    TranscodeLocal(s[1..], s'[1..]);
  }

  lemma TranscodeLocal(t: bytes, t': bytes)
    requires EscapeFits(t) && EscapeFits(t') && Hex4(t[1..]) == Hex4(t'[1..]) && (PairFollows(t) <==> PairFollows(t'))
    requires HighSurrogate(Hex4(t[1..])) && PairFollows(t) ==> Hex4(t[7..]) == Hex4(t'[7..])
    ensures Transcode(t) == Transcode(t')
  {
    hide Hex4, Encode;
  }

  lemma EscapeLocalPair(s: bytes, s': bytes, k: nat)
    requires s != [] && s[0] == BACKSLASH && Complete(s) && |s| >= 2 && s[1] == LOWER_U && EscapeAt(s).used == 12
    requires 12 < k <= |s| && k <= |s'| && (forall i | 0 <= i < k :: s'[i] == s[i]) && Complete(s'[12..])
    ensures Complete(s'[6..]) && Hex4(s'[1..][7..]) == Hex4(s[1..][7..])
  {
    hide Hex4, Encode, ShortEscape;
    UnicodeDigits(s);
    UnicodeDigits(s[6..]);
    assert s'[6..][6..] == s'[12..];
    HexLocal(s'[1..][7..], s[1..][7..]);
  }

  lemma HexLocal(s: bytes, s': bytes)
    requires |s| >= 4 && |s'| >= 4 && s[0] == s'[0] && s[1] == s'[1] && s[2] == s'[2] && s[3] == s'[3]
    ensures Hex4(s) == Hex4(s')
  {
  }

  lemma EndStep(s: bytes)
    requires s != [] && s[0] == QUOTE
    ensures Complete(s) && Decode(s) == [] && ScanRest(s) == s
  {
  }

  lemma PlainStep(s: bytes)
    requires s != [] && Plain(s[0]) && Complete(s[1..])
    ensures Complete(s) && Decode(s) == [s[0]] + Decode(s[1..]) && ScanRest(s) == ScanRest(s[1..])
  {
  }

  lemma EscapeStep(s: bytes)
    requires s != [] && s[0] == BACKSLASH && Complete(s)
    ensures var t := EscapeAt(s); Decode(s) == t.out + Decode(s[t.used..]) && ScanRest(s) == ScanRest(s[t.used..])
  {
    ScanEscape(s);
  }

  lemma EscapeInside(s: bytes)
    requires s != [] && s[0] == BACKSLASH && Complete(s) && ScanRest(s) != []
    ensures EscapeAt(s).used <= |s| - |ScanRest(s)|
    ensures |s| >= 7 && s[1] == LOWER_U && s[6] == BACKSLASH ==> |s| - |ScanRest(s)| >= 8
  {
    ScanEscape(s);
    if |s| >= 7 && s[1] == LOWER_U && s[6] == BACKSLASH {
      ScanUnicode(s);
      ScanBackslash(s[6..]);
    }
  }

  /** The text before the closing quote starts with the unit the scan steps over. */
  lemma FirstUnit(x: bytes, q: bytes, n: nat)
    requires n <= |x|
    ensures (x + q)[n..] == x[n..] + q
    ensures x == x[..n] + x[n..]
  {
  }

  lemma LiteralNonEmpty(x: bytes, q: bytes)
    requires x != [] && Complete(x + q) && ScanRest(x + q) == q
    ensures x[0] != QUOTE
  {
    if x[0] == QUOTE { EndStep(x + q); }
  }

  lemma EscapeUnit(x: bytes, q: bytes)
    requires x != [] && q != [] && x[0] == BACKSLASH && Complete(x + q) && ScanRest(x + q) == q
    ensures var n := EscapeAt(x + q).used; n <= |x| && (x + q)[n..] == x[n..] + q && ScanRest(x[n..] + q) == q
    ensures |x + q| >= 7 && (x + q)[1] == LOWER_U && (x + q)[6] == BACKSLASH ==> |x| >= 8
  {
    hide Complete, Decode, ScanRest, EscapeAt;
    EscapeStep(x + q);
    EscapeInside(x + q);
    FirstUnit(x, q, EscapeAt(x + q).used);
  }

  lemma LiteralSameEscape(x: bytes, q: bytes, q': bytes)
    requires x != [] && q != [] && q' != [] && q[0] == QUOTE == q'[0] && x[0] == BACKSLASH
    requires Complete(x + q) && ScanRest(x + q) == q
    ensures var n := EscapeAt(x + q).used;
      && n <= |x| && (x + q)[n..] == x[n..] + q && (x + q')[n..] == x[n..] + q'
      && ScanRest(x[n..] + q) == q
      && (Complete(x[n..] + q') ==> Complete(x + q') && EscapeAt(x + q') == EscapeAt(x + q))
  {
    hide Complete, Decode, ScanRest, EscapeAt;
    var n := EscapeAt(x + q).used;
    EscapeUnit(x, q);
    FirstUnit(x, q, n);
    FirstUnit(x, q', n);
    if Complete(x[n..] + q') {
      assert (x + q)[..|x| + 1] == x + [QUOTE] == (x + q')[..|x| + 1];
      EscapeLocal(x + q, x + q', |x| + 1);
    }
  }

  /** A literal x with a closing quote is read the same whatever follows the quote. */
  lemma {:induction false} LiteralSame(x: bytes, q: bytes, q': bytes)
    requires q != [] && q' != [] && q[0] == QUOTE == q'[0]
    requires Complete(x + q) && ScanRest(x + q) == q
    ensures Complete(x + q') && Decode(x + q') == Decode(x + q) && ScanRest(x + q') == q'
    decreases |x|
  {
    hide Complete, Decode, ScanRest, EscapeAt;
    if x == [] {
      assert x + q == q && x + q' == q';
      EndStep(q);
      EndStep(q');
    } else {
      LiteralNonEmpty(x, q);
      if x[0] != BACKSLASH {
        FirstUnit(x, q, 1);
        FirstUnit(x, q', 1);
        ScanOne(x + q);
        PlainStep(x + q);
        LiteralSame(x[1..], q, q');
        PlainStep(x + q');
      } else {
        LiteralSameEscape(x, q, q');
        EscapeStep(x + q);
        LiteralSame(x[EscapeAt(x + q).used..], q, q');
        EscapeStep(x + q');
      }
    }
  }

  lemma LiteralCopyStep(x: bytes, q: bytes, n: nat)
    requires x != [] && x[0] != QUOTE && n == (if x[0] == BACKSLASH then 2 else 1) <= |x|
    requires LiteralMinifiable(x[n..] + q)
    ensures LiteralMinifiable(x + q) && MinifiedLiteral(x + q) == x[..n] + MinifiedLiteral(x[n..] + q)
  {
    hide Minified, Minifiable;
    FirstUnit(x, q, n);
  }

  lemma LiteralCopyEnd(s: bytes)
    requires s != [] && s[0] == QUOTE && Minifiable(s[1..])
    ensures LiteralMinifiable(s) && MinifiedLiteral(s) == [QUOTE] + Minified(s[1..])
  {
    hide Minified, Minifiable;
  }

  lemma ScanUnit(x: bytes, q: bytes, n: nat)
    requires x != [] && Complete(x + q) && ScanRest(x + q) == q && n == if x[0] == BACKSLASH then 2 else 1
    ensures x[0] != QUOTE && n <= |x| && Complete(x[n..] + q) && ScanRest(x[n..] + q) == q
  {
    hide Complete, ScanRest;
    LiteralNonEmpty(x, q);
    if n == 2 { ScanBackslash(x + q); } else { ScanOne(x + q); }
    FirstUnit(x, q, n);
  }

  /** The minifier's scanner finds the same closing quote as the parser's. */
  lemma {:induction false} LiteralCopied(x: bytes, q: bytes)
    requires q != [] && q[0] == QUOTE && Complete(x + q) && ScanRest(x + q) == q && Minifiable(q[1..])
    ensures LiteralMinifiable(x + q) && MinifiedLiteral(x + q) == x + ([QUOTE] + Minified(q[1..]))
    decreases |x|
  {
    hide Minified, Minifiable, LiteralMinifiable, MinifiedLiteral, Complete, ScanRest;
    if x == [] {
      assert x + q == q;
      LiteralCopyEnd(q);
    } else {
      var n := if x[0] == BACKSLASH then 2 else 1;
      ScanUnit(x, q, n);
      LiteralCopied(x[n..], q);
      LiteralCopyStep(x, q, n);
      Shift(x[..n], x[n..], [QUOTE] + Minified(q[1..]));
      FirstUnit(x, q, n);
    }
  }

  /** parse_string on a terminated literal and on its minified text. */
  lemma StringMinified(s: bytes)
    requires ParseString(s).Ok? && ScanRest(s[1..]) != [] && Minifiable(ParseString(s).rest)
    ensures Minifiable(s) && Minified(s) != []
    ensures ParseString(Minified(s)) == Ok(ParseString(s).value, Minified(ParseString(s).rest))
    ensures Minified(s)[0] == QUOTE
  {
    hide Complete, Decode, ScanRest, Minified, Minifiable, LiteralMinifiable, MinifiedLiteral;
    var b := s[1..];
    var q := ScanRest(b);
    var x := b[..|b| - |q|];
    var q' := [QUOTE] + Minified(q[1..]);
    ScanRestSuffix(b);
    assert b == x + q && q'[1..] == Minified(q[1..]);
    LiteralSame(x, q, q');
    LiteralCopied(x, q);
    QuoteStep(s);
    assert Minified(s)[1..] == x + q';
  }

  lemma QuoteStep(s: bytes)
    requires s != [] && s[0] == QUOTE && LiteralMinifiable(s[1..])
    ensures Minifiable(s) && Minified(s) == [QUOTE] + MinifiedLiteral(s[1..])
  {
    hide LiteralMinifiable, MinifiedLiteral;
  }

  // ----- numbers -----

  /** The characters parse_number can consume. */
  predicate NumberChar(b: byte) {
    Digit(b) || b == PLUS || b == MINUS || b == DOT || b == 101 || b == 69
  }

  predicate NoNumber(q: bytes) {
    q == [] || !NumberChar(q[0])
  }

  predicate AllNumber(c: bytes) {
    forall i | 0 <= i < |c| :: NumberChar(c[i])
  }

  lemma {:induction false} DigitsAppend(c: bytes, q: bytes, n: nat)
    requires NoNumber(q)
    ensures DigitsValue(c + q, n) == DigitsValue(c, n) && DigitsRest(c + q) == DigitsRest(c) + q
    ensures AllNumber(c) ==> AllNumber(DigitsRest(c))
  {
    if c == [] {
      assert c + q == q;
    } else {
      assert (c + q)[1..] == c[1..] + q;
      if Digit(c[0]) { DigitsAppend(c[1..], q, n * 10 + (c[0] as nat - 48)); }
    }
  }

  lemma IntegerAppend(c: bytes, q: bytes)
    requires NoNumber(q) && AllNumber(c)
    ensures LexInteger(c + q) == Lexed(LexInteger(c).num, LexInteger(c).rest + q)
    ensures AllNumber(LexInteger(c).rest)
  {
    if c == [] {
      assert c + q == q;
    } else {
      var r := if c[0] == DIGIT_0 then c[1..] else c;
      assert (c + q)[1..] == c[1..] + q;
      if r == [] { assert r + q == q; }
      DigitsAppend(r, q, 0);
    }
  }

  lemma FractionAppend(d: Decimal, c: bytes, q: bytes)
    requires NoNumber(q) && AllNumber(c) && d.mant >= 0
    ensures LexFraction(Lexed(d, c + q)) == Lexed(LexFraction(Lexed(d, c)).num, LexFraction(Lexed(d, c)).rest + q)
    ensures AllNumber(LexFraction(Lexed(d, c)).rest)
  {
    if c == [] {
      assert c + q == q;
    } else {
      assert (c + q)[1..] == c[1..] + q;
      if |c| >= 2 { assert (c + q)[1] == c[1]; }
      DigitsAppend(c[1..], q, d.mant);
    }
  }

  lemma ExponentAppend(d: Decimal, c: bytes, q: bytes)
    requires NoNumber(q) && AllNumber(c)
    ensures LexExponent(Lexed(d, c + q)) == Lexed(LexExponent(Lexed(d, c)).num, LexExponent(Lexed(d, c)).rest + q)
    ensures AllNumber(LexExponent(Lexed(d, c)).rest)
  {
    hide DigitsValue, DigitsRest;
    if c == [] {
      assert c + q == q;
    } else {
      var r := c[1..];
      assert (c + q)[1..] == r + q;
      if r == [] {
        assert r + q == q;
        DigitsAppend(r, q, 0);
      } else {
        assert (r + q)[1..] == r[1..] + q;
        DigitsAppend(r, q, 0);
        DigitsAppend(r[1..], q, 0);
      }
    }
  }

  /** Text that cannot continue a number is simply left behind. */
  lemma NumberAppend(c: bytes, q: bytes)
    requires NoNumber(q) && AllNumber(c) && c != []
    ensures LexNumber(c + q) == Lexed(LexNumber(c).num, LexNumber(c).rest + q)
    ensures AllNumber(LexNumber(c).rest)
  {
    hide LexInteger, LexFraction, LexExponent;
    assert (c + q)[1..] == c[1..] + q;
    var r := if c[0] == MINUS then c[1..] else c;
    IntegerAppend(r, q);
    var l := LexInteger(r);
    FractionAppend(l.num, l.rest, q);
    var f := LexFraction(l);
    ExponentAppend(f.num, f.rest, q);
  }

  function NumberPrefix(s: bytes): (n: nat)
    ensures n <= |s| && AllNumber(s[..n]) && NoNumber(s[n..])
  {
    if s == [] || !NumberChar(s[0]) then 0
    else
      var n := NumberPrefix(s[1..]);
      assert s[..n + 1] == [s[0]] + s[1..][..n] && s[n + 1..] == s[1..][n..];
      n + 1
  }

  /** parse_number on a number and on its minified text. */
  lemma NumberMinified(s: bytes)
    requires s != [] && (s[0] == MINUS || Digit(s[0]))
    requires var r := LexNumber(s).rest; NoNumber(r) && Minifiable(r) && NoNumber(Minified(r))
    ensures Minifiable(s) && Minified(s) != [] && Minified(s)[0] == s[0]
    ensures LexNumber(Minified(s)) == Lexed(LexNumber(s).num, Minified(LexNumber(s).rest))
  {
    hide LexNumber, Minified, Minifiable;
    var n := NumberPrefix(s);
    var c, q := s[..n], s[n..];
    assert s == c + q && c[0] == s[0];
    NumberAppend(c, q);
    var left := LexNumber(c).rest;
    assert left == [] && left + q == q;
    CopyRun(c, q);
    NumberAppend(c, Minified(q));
    assert left + Minified(q) == Minified(q);
  }

  // ----- the theorem -----

  /** What may follow a value in accepted text, blanks aside. */
  predicate Stops(r: bytes) {
    Skip(r) == [] || Skip(r)[0] == COMMA || Skip(r)[0] == RBRACKET || Skip(r)[0] == RBRACE
  }

  lemma StopsNumber(r: bytes)
    requires Stops(r) && Minifiable(r)
    ensures NoNumber(r) && NoNumber(Minified(r))
    decreases |r|
  {
    hide Minified, Minifiable;
    if r != [] && Blank(r[0]) {
      BlankStep(r);
      StopsNumber(r[1..]);
    } else if r != [] {
      FirstKept(r);
      assert Minified(r)[0] == r[0];
    } else {
      MinifiedEmpty(r);
    }
  }

  /** Does s start with a literal that never closes? The parser accepts it at the end of a text. */
  predicate Unterminated(s: bytes) {
    s != [] && s[0] == QUOTE && Complete(s[1..]) && ScanRest(s[1..]) == []
  }

  lemma KeywordMinified(s: bytes, k: bytes)
    requires k == NULL_TEXT || k == FALSE_TEXT || k == TRUE_TEXT
    requires k <= s && Minifiable(s[|k|..])
    ensures Minifiable(s) && Minified(s) == k + Minified(s[|k|..])
  {
    hide Minified, Minifiable;
    assert s == k + s[|k|..];
    CopyRun(k, s[|k|..]);
  }

  lemma StructureMinified(s: bytes)
    requires s != [] && Minifiable(s[1..])
    requires s[0] == LBRACKET || s[0] == LBRACE || s[0] == RBRACKET || s[0] == RBRACE || s[0] == COMMA || s[0] == COLON
    ensures Minifiable(s) && Minified(s) == [s[0]] + Minified(s[1..])
  {
    CopyOne(s);
  }

  /** No value starts with a slash, so skipping blanks before one commutes with minifying. */
  lemma ValueStart(s: bytes)
    requires ParseValue(s).Ok?
    ensures s != [] && s[0] != SLASH && s[0] != RBRACKET && s[0] != RBRACE
  {
    hide ParseString, ParseArray, ParseObject, LexNumber;
    KeywordFirst(s);
  }

  /** An accepted value, minified, is still accepted as the same value, and what is left of the text
      is what minifying leaves of the rest. */
  lemma {:induction false} ValueMinified(s: bytes)
    requires var o := ParseValue(s); o.Ok? && Stops(o.rest) && Minifiable(o.rest)
    requires !Unterminated(s)
    ensures Minifiable(s)
    ensures ParseValue(Minified(s)) == Ok(ParseValue(s).value, Minified(ParseValue(s).rest))
    decreases |s|, 0
  {
    hide Minified, Minifiable, ParseValue;
    var o := ParseValue(s);
    ValueStart(s);
    DispatchKeyword(s);
    Dispatch(s);
    if NULL_TEXT <= s {
      KeywordMinified(s, NULL_TEXT);
      DispatchKeyword(Minified(s));
    } else if FALSE_TEXT <= s {
      KeywordMinified(s, FALSE_TEXT);
      DispatchKeyword(Minified(s));
    } else if TRUE_TEXT <= s {
      KeywordMinified(s, TRUE_TEXT);
      DispatchKeyword(Minified(s));
    } else if s[0] == QUOTE {
      ValueString(s);
      StringMinified(s);
      Dispatch(Minified(s));
    } else if s[0] == MINUS || Digit(s[0]) {
      StopsNumber(o.rest);
      NumberMinified(s);
      Dispatch(Minified(s));
    } else if s[0] == LBRACKET {
      ArrayMinified(s);
      Dispatch(Minified(s));
    } else {
      ValueObject(s);
      ObjectMinified(s);
      Dispatch(Minified(s));
    }
  }

  lemma ValueString(s: bytes)
    requires s != [] && s[0] == QUOTE && ParseValue(s).Ok?
    ensures ParseString(s).Ok?
  {
    hide ParseString;
    KeywordFirst(s);
  }

  lemma ValueObject(s: bytes)
    requires s != [] && ParseValue(s).Ok? && !(NULL_TEXT <= s) && !(FALSE_TEXT <= s) && !(TRUE_TEXT <= s)
    requires s[0] != QUOTE && s[0] != MINUS && !Digit(s[0]) && s[0] != LBRACKET
    ensures s[0] == LBRACE
  {
    hide ParseString, ParseArray, ParseObject, LexNumber;
  }

  lemma {:induction false} ArrayMinified(s: bytes)
    requires s != [] && s[0] == LBRACKET && ParseArray(s).Ok? && Minifiable(ParseArray(s).rest)
    ensures Minifiable(s) && Minified(s) != [] && Minified(s)[0] == LBRACKET
    ensures ParseArray(Minified(s)) == Ok(ParseArray(s).value, Minified(ParseArray(s).rest))
    decreases |s| - 1, 4
  {
    hide Minified, Minifiable, ParseItems;
    var r := Skip(s[1..]);
    if r != [] && r[0] == RBRACKET {
      StructureMinified(r);
      SkipMinified(s[1..]);
    } else {
      ItemsMinified(r);
      ItemsStart(r);
      SkipMinified(s[1..]);
      FirstKept(r);
    }
    StructureMinified(s);
    assert Minified(s)[1..] == Minified(s[1..]);
  }

  lemma ItemsStart(s: bytes)
    requires s == Skip(s) && ParseItems(s).Ok?
    ensures s != [] && s[0] != SLASH && s[0] != RBRACKET
  {
    hide ParseValue;
    ValueStart(s);
  }

  lemma {:induction false} ObjectMinified(s: bytes)
    requires s != [] && s[0] == LBRACE && ParseObject(s).Ok? && Minifiable(ParseObject(s).rest)
    ensures Minifiable(s) && Minified(s) != [] && Minified(s)[0] == LBRACE
    ensures ParseObject(Minified(s)) == Ok(ParseObject(s).value, Minified(ParseObject(s).rest))
    decreases |s| - 1, 4
  {
    hide Minified, Minifiable, ParseMembers;
    var r := Skip(s[1..]);
    if r != [] && r[0] == RBRACE {
      StructureMinified(r);
      SkipMinified(s[1..]);
    } else {
      MembersMinified(r);
      MembersStart(r);
      SkipMinified(s[1..]);
      FirstKept(r);
    }
    StructureMinified(s);
    assert Minified(s)[1..] == Minified(s[1..]);
  }

  lemma MembersStart(s: bytes)
    requires s == Skip(s) && ParseMembers(s).Ok?
    ensures s != [] && s[0] == QUOTE
  {
    hide ParseValue, Complete, Decode, ScanRest;
  }

  /** After a value: its separator, and the text behind it. */
  lemma SeparatorMinified(rest: bytes)
    requires Skip(rest) != [] && Minifiable(Skip(rest)[1..])
    requires Skip(rest)[0] in [COMMA, RBRACKET, RBRACE, COLON]
    ensures Minifiable(rest)
    ensures Skip(Minified(rest)) == [Skip(rest)[0]] + Minified(Skip(rest)[1..])
  {
    hide Minified, Minifiable;
    StructureMinified(Skip(rest));
    SkipMinified(rest);
  }

  lemma SkipTerminated(s: bytes)
    requires ParseString(s).Ok? && ParseString(s).rest != []
    ensures !Unterminated(s)
  {
    hide Complete, Decode, ScanRest;
  }

  /** A value behind blanks that is followed by more text. */
  lemma {:induction false} InnerValueMinified(s: bytes)
    requires var o := ParseValue(Skip(s)); o.Ok? && Stops(o.rest) && Minifiable(o.rest) && o.rest != []
    ensures Minifiable(s)
    ensures ParseValue(Skip(Minified(s))) == Ok(ParseValue(Skip(s)).value, Minified(ParseValue(Skip(s)).rest))
    decreases |s|, 1
  {
    hide Minified, Minifiable, ParseValue, ParseString;
    var u := Skip(s);
    ValueStart(u);
    if u[0] == QUOTE {
      ValueString(u);
      Dispatch(u);
      SkipTerminated(u);
    }
    ValueMinified(u);
    SkipMinified(s);
  }

  lemma {:induction false} ItemsMinified(s: bytes)
    requires ParseItems(s).Ok? && Minifiable(ParseItems(s).rest)
    ensures Minifiable(s)
    ensures ParseItems(Minified(s)) == Ok(ParseItems(s).value, Minified(ParseItems(s).rest))
    decreases |s|, 2
  {
    hide Minified, Minifiable, ParseValue;
    var o := ParseValue(Skip(s));
    var r := Skip(o.rest);
    if r[0] == COMMA { ItemsMinified(r[1..]); }
    SeparatorMinified(o.rest);
    InnerValueMinified(s);
    assert ([r[0]] + Minified(r[1..]))[1..] == Minified(r[1..]);
  }

  lemma {:induction false} MemberMinified(s: bytes)
    requires var o := ParseMember(s); o.Ok? && Stops(o.rest) && Minifiable(o.rest) && o.rest != []
    ensures Minifiable(s)
    ensures ParseMember(Minified(s)) == Ok(ParseMember(s).value, Minified(ParseMember(s).rest))
    decreases |s|, 2
  {
    hide Minified, Minifiable, ParseValue, ParseString, Stops;
    var n := ParseString(Skip(s));
    var c := Skip(n.rest);
    InnerValueMinified(c[1..]);
    hide Skip;
    SeparatorMinified(n.rest);
    NameMinified(s);
    assert ([c[0]] + Minified(c[1..]))[1..] == Minified(c[1..]);
  }

  lemma NameMinified(s: bytes)
    requires var n := ParseString(Skip(s)); n.Ok? && n.rest != [] && Minifiable(n.rest)
    ensures Minifiable(s)
    ensures ParseString(Skip(Minified(s))) == Ok(ParseString(Skip(s)).value, Minified(ParseString(Skip(s)).rest))
  {
    var u := Skip(s);
    SkipTerminated(u);
    assert u[0] == QUOTE && ScanRest(u[1..]) != [];
    hide Minified, Minifiable, ParseString;
    StringMinified(u);
    SkipMinified(s);
  }

  lemma {:induction false} MembersMinified(s: bytes)
    requires ParseMembers(s).Ok? && Minifiable(ParseMembers(s).rest)
    ensures Minifiable(s)
    ensures ParseMembers(Minified(s)) == Ok(ParseMembers(s).value, Minified(ParseMembers(s).rest))
    decreases |s|, 3
  {
    hide Minified, Minifiable, ParseMember;
    var o := ParseMember(s);
    var r := Skip(o.rest);
    if r[0] == COMMA { MembersMinified(r[1..]); }
    SeparatorMinified(o.rest);
    MemberMinified(s);
    assert ([r[0]] + Minified(r[1..]))[1..] == Minified(r[1..]);
  }

  /** Minifying preserves the meaning of every text the parser accepts, unless the text is a string
      literal without closing quote: that one the parser accepts, but the minifier reads past its end. */
  lemma MinifyPreserves(s: bytes)
    requires Parse(s).Ok?
    ensures Minifiable(s) <==> !Unterminated(Skip(s))
    ensures Minifiable(s) ==> Parse(Minified(s)) == Parse(s)
  {
    hide Minified, Minifiable, ParseValue;
    var u := Skip(s);
    var rest := ParseValue(u).rest;
    MinifiedEmpty([]);
    ValueStart(u);
    if Unterminated(u) {
      UnterminatedOverruns(s);
    } else {
      SkipMinified(rest);
      ValueMinified(u);
      SkipMinified(s);
    }
  }

  lemma {:induction false} UnterminatedOverruns(s: bytes)
    requires Unterminated(Skip(s))
    ensures !Minifiable(s)
  {
    if Blank(s[0]) {
      BlankStep(s);
      UnterminatedOverruns(s[1..]);
    } else {
      UnterminatedLiteral(s[1..]);
    }
  }

  lemma {:induction false} UnterminatedLiteral(s: bytes)
    requires Complete(s) && ScanRest(s) == []
    ensures !LiteralMinifiable(s)
    decreases |s|
  {
    if s == [] {
    } else if s[0] == BACKSLASH {
      ScanBackslash(s);
      UnterminatedLiteral(s[2..]);
    } else {
      ScanOne(s);
      UnterminatedLiteral(s[1..]);
    }
  }

  /** The exception is real: `"` alone is accepted as the empty string. */
  lemma LoneQuote()
    ensures Parse([QUOTE]) == Ok(String([]), []) && !Minifiable([QUOTE])
  {
    var s := [QUOTE];
    assert Skip(s) == s && s[1..] == [];
    ValueStartsNoKeyword(s);
  }

  lemma ValueStartsNoKeyword(s: bytes)
    requires s == [QUOTE]
    ensures ParseValue(s) == Ok(String([]), [])
  {
    hide LexNumber, ParseArray, ParseObject;
    assert s[1..] == [];
    KeywordFirst(s);
  }

  // ----- minified print -----

  lemma {:induction false} PlainCopied(x: bytes, y: bytes)
    requires LiteralMinifiable(y) && forall i | 0 <= i < |x| :: Plain(x[i])
    ensures LiteralMinifiable(x + y) && MinifiedLiteral(x + y) == x + MinifiedLiteral(y)
  {
    hide LiteralMinifiable, MinifiedLiteral;
    if x == [] {
      assert x + y == y;
    } else {
      PlainCopied(x[1..], y);
      LiteralCopyStep(x, y, 1);
      assert x == x[..1] + x[1..];
    }
  }

  lemma EscapeCharCopied(c: byte, y: bytes)
    requires LiteralMinifiable(y)
    ensures LiteralMinifiable(EscapeChar(c) + y)
      && MinifiedLiteral(EscapeChar(c) + y) == EscapeChar(c) + MinifiedLiteral(y)
  {
    hide LiteralMinifiable, MinifiedLiteral;
    var e := EscapeChar(c);
    if |e| == 1 {
      PlainCopied(e, y);
    } else {
      PlainCopied(e[2..], y);
      LiteralCopyStep(e, y, 2);
      assert e == e[..2] + e[2..];
    }
  }

  lemma {:induction false} EscapeCopied(x: bytes, y: bytes)
    requires LiteralMinifiable(y)
    ensures LiteralMinifiable(Escape(x) + y) && MinifiedLiteral(Escape(x) + y) == Escape(x) + MinifiedLiteral(y)
  {
    hide LiteralMinifiable, MinifiedLiteral, EscapeChar;
    if x == [] {
      assert Escape(x) + y == y;
    } else {
      EscapeCopied(x[1..], y);
      EscapeCharCopied(x[0], Escape(x[1..]) + y);
      assert Escape(x) + y == EscapeChar(x[0]) + (Escape(x[1..]) + y);
    }
  }

  /** In front of any text, the minifier turns x into y. */
  ghost predicate Becomes(x: bytes, y: bytes) {
    forall r: bytes | Minifiable(r) :: Minifiable(x + r) && Minified(x + r) == y + Minified(r)
  }

  lemma BecomesCompose(x: bytes, y: bytes, x': bytes, y': bytes)
    requires Becomes(x, y) && Becomes(x', y')
    ensures Becomes(x + x', y + y')
  {
    hide Minified, Minifiable;
    forall r: bytes | Minifiable(r)
      ensures Minifiable(x + x' + r) && Minified(x + x' + r) == y + y' + Minified(r)
    {
      assert x + x' + r == x + (x' + r);
      Shift(y, y', Minified(r));
      assert Minifiable(x' + r);
    }
  }

  lemma BecomesItself(c: bytes)
    requires forall i | 0 <= i < |c| :: Copied(c[i])
    ensures Becomes(c, c)
  {
    hide Minified, Minifiable;
    forall r: bytes | Minifiable(r) ensures Minifiable(c + r) && Minified(c + r) == c + Minified(r) {
      CopyRun(c, r);
    }
  }

  lemma BecomesNothing(w: bytes)
    requires forall i | 0 <= i < |w| :: White(w[i])
    ensures Becomes(w, [])
  {
    hide Minified, Minifiable;
    forall r: bytes | Minifiable(r) ensures Minifiable(w + r) && Minified(w + r) == [] + Minified(r) {
      DropWhites(w, r);
    }
  }

  lemma QuotedBecomes(x: bytes)
    ensures Becomes(Quoted(x), Quoted(x))
  {
    hide LiteralMinifiable, MinifiedLiteral, Minified, Minifiable, Escape;
    forall r: bytes | Minifiable(r)
      ensures Minifiable(Quoted(x) + r) && Minified(Quoted(x) + r) == Quoted(x) + Minified(r)
    {
      var q := [QUOTE] + r;
      assert q[1..] == r;
      LiteralCopyEnd(q);
      EscapeCopied(x, q);
      var s := Quoted(x) + r;
      assert s[1..] == Escape(x) + q;
      QuoteStep(s);
    }
  }

  /** A separator: whitespace, one structural character, whitespace, each optional. */
  lemma SeparatorBecomes(w: bytes, c: bytes, w': bytes)
    requires forall i | 0 <= i < |w| :: White(w[i])
    requires forall i | 0 <= i < |c| :: Copied(c[i])
    requires forall i | 0 <= i < |w'| :: White(w'[i])
    ensures Becomes(w + c + w', c)
  {
    hide Becomes;
    BecomesNothing(w);
    BecomesItself(c);
    BecomesNothing(w');
    BecomesCompose(w, [], c, c);
    BecomesCompose(w + c, [] + c, w', []);
    assert [] + c + [] == c;
  }

  lemma ScalarBecomes(t: Json)
    requires Printable(t) && !t.Array? && !t.Object?
    ensures Becomes(Print(t, 0, false), Print(t, 0, false))
  {
    hide Becomes, Quoted, IntText;
    match t
    case String(x) => QuotedBecomes(x);
    case Number(d) =>
      IntTextCopied(d.mant);
      BecomesItself(Print(t, 0, false));
    case Null => BecomesItself(NULL_TEXT);
    case False => BecomesItself(FALSE_TEXT);
    case True => BecomesItself(TRUE_TEXT);
  }

  lemma IntTextCopied(n: int)
    ensures forall i | 0 <= i < |IntText(n)| :: Copied(IntText(n)[i])
  {
  }

  /** Minifying printed text, whatever its format and depth, gives the unformatted text. */
  lemma {:induction false} PrintBecomes(t: Json, depth: nat, d: nat, fmt: bool)
    requires Printable(t)
    ensures Becomes(Print(t, depth, fmt), Print(t, d, false))
    decreases t, 1
  {
    hide Becomes, PrintItems, PrintMembers, PrintableItems, Quoted, IntText;
    match t
    case Array(items) =>
      BecomesItself([LBRACKET]);
      PrintItemsBecomes(items, depth + 1, d + 1, fmt);
      BecomesItself([RBRACKET]);
      var p, q := PrintItems(items, depth + 1, fmt), PrintItems(items, d + 1, false);
      BecomesCompose([LBRACKET], [LBRACKET], p, q);
      BecomesCompose([LBRACKET] + p, [LBRACKET] + q, [RBRACKET], [RBRACKET]);
    case Object(items) => PrintObjectBecomes(items, depth, d, fmt);
    case _ => ScalarBecomes(t);
  }

  lemma {:induction false} PrintItemsBecomes(c: Chain, depth: nat, d: nat, fmt: bool)
    requires PrintableItems(c, false)
    ensures Becomes(PrintItems(c, depth, fmt), PrintItems(c, d, false))
    decreases c, 0
  {
    hide Becomes, Print;
    if c.Nil? {
      BecomesItself([]);
    } else {
      var p, q := Print(c.value, depth, fmt), Print(c.value, d, false);
      var sep, sep' := ItemSeparator(c.next.Nil?, fmt), ItemSeparator(c.next.Nil?, false);
      PrintBecomes(c.value, depth, d, fmt);
      SeparatorBecomes([], sep', if fmt && !c.next.Nil? then [SPACE] else []);
      assert [] + sep' + (if fmt && !c.next.Nil? then [SPACE] else []) == sep;
      PrintItemsBecomes(c.next, depth, d, fmt);
      BecomesCompose(p, q, sep, sep');
      BecomesCompose(p + sep, q + sep', PrintItems(c.next, depth, fmt), PrintItems(c.next, d, false));
    }
  }

  lemma {:induction false} PrintObjectBecomes(items: Chain, depth: nat, d: nat, fmt: bool)
    requires PrintableItems(items, true)
    ensures Becomes(Print(Object(items), depth, fmt), Print(Object(items), d, false))
    decreases items, 2
  {
    hide Becomes, PrintMembers, PrintableItems;
    var line := if fmt then [NEWLINE] else [];
    var close := if !fmt then [] else if items.Nil? then Tabs(if depth > 0 then depth - 1 else 0) else Tabs(depth);
    SeparatorBecomes([], [LBRACE], line);
    assert [] + [LBRACE] + line == [LBRACE] + line;
    SeparatorBecomes(close, [RBRACE], []);
    assert close + [RBRACE] + [] == close + [RBRACE];
    var open := [LBRACE] + line;
    if items.Nil? {
      BecomesCompose(open, [LBRACE], close + [RBRACE], [RBRACE]);
      assert Print(Object(items), depth, fmt) == open + (close + [RBRACE]);
      assert [LBRACE] + [RBRACE] == Print(Object(items), d, false);
    } else {
      var p, q := PrintMembers(items, depth + 1, fmt), PrintMembers(items, d + 1, false);
      PrintMembersBecomes(items, depth + 1, d + 1, fmt);
      BecomesCompose(open, [LBRACE], p, q);
      BecomesCompose(open + p, [LBRACE] + q, close + [RBRACE], [RBRACE]);
      assert Print(Object(items), depth, fmt) == open + p + (close + [RBRACE]);
      assert Print(Object(items), d, false) == [LBRACE] + q + [RBRACE];
    }
  }

  lemma {:induction false} PrintMemberBecomes(n: Name, v: Json, last: bool, depth: nat, d: nat, fmt: bool)
    requires n.Named? && Printable(v)
    ensures Becomes(PrintMember(n, v, last, depth, fmt), PrintMember(n, v, last, d, false))
    decreases v, 2
  {
    hide Becomes, Print, Quoted;
    var tabs := if fmt then Tabs(depth) else [];
    var name, p, q := Quoted(n.text), Print(v, depth, fmt), Print(v, d, false);
    var line, tab := if fmt then [NEWLINE] else [], if fmt then [TAB] else [];
    var comma := if last then [] else [COMMA];
    BecomesNothing(tabs);
    QuotedBecomes(n.text);
    SeparatorBecomes([], [COLON], tab);
    assert [] + [COLON] + tab == KeySeparator(fmt);
    PrintBecomes(v, depth, d, fmt);
    SeparatorBecomes([], comma, line);
    assert [] + comma + line == MemberSeparator(last, fmt);
    assert comma == MemberSeparator(last, false);
    BecomesCompose(tabs, [], name, name);
    BecomesCompose(tabs + name, [] + name, KeySeparator(fmt), KeySeparator(false));
    BecomesCompose(tabs + name + KeySeparator(fmt), [] + name + KeySeparator(false), p, q);
    BecomesCompose(tabs + name + KeySeparator(fmt) + p, [] + name + KeySeparator(false) + q,
                   MemberSeparator(last, fmt), MemberSeparator(last, false));
  }

  lemma {:induction false} PrintMembersBecomes(c: Chain, depth: nat, d: nat, fmt: bool)
    requires PrintableItems(c, true)
    ensures Becomes(PrintMembers(c, depth, fmt), PrintMembers(c, d, false))
    decreases c, 0
  {
    hide Becomes, PrintMember;
    if c.Nil? {
      BecomesItself([]);
    } else {
      PrintMemberBecomes(c.name, c.value, c.next.Nil?, depth, d, fmt);
      PrintMembersBecomes(c.next, depth, d, fmt);
      BecomesCompose(PrintMember(c.name, c.value, c.next.Nil?, depth, fmt),
                     PrintMember(c.name, c.value, c.next.Nil?, d, false),
                     PrintMembers(c.next, depth, fmt), PrintMembers(c.next, d, false));
    }
  }

  /** cJSON_Minify after cJSON_Print is cJSON_PrintUnformatted. */
  lemma MinifyPrint(t: Json, depth: nat, fmt: bool)
    requires Printable(t)
    ensures Minifiable(Print(t, depth, fmt)) && Minified(Print(t, depth, fmt)) == Print(t, 0, false)
  {
    hide Minified, Minifiable, Print;
    MinifiedEmpty([]);
    PrintBecomes(t, depth, 0, fmt);
    assert Print(t, depth, fmt) + [] == Print(t, depth, fmt);
    assert Print(t, 0, false) + [] == Print(t, 0, false);
  }
}
