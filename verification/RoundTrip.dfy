/** Parsing undoes printing, formatted or not, and any blanks between tokens are immaterial. */
module RoundTrip {
  import opened Bytes
  import opened Literal
  import opened Json

  // ----- a text as tokens with blanks between them -----

  datatype Tokens = Done | Token(text: bytes, next: Tokens)

  /** The tokens of a tree, followed by k. */
  function Emit(t: Json, k: Tokens): Tokens
    requires Printable(t)
    decreases t
  {
    match t
    case Null => Token(NULL_TEXT, k)
    case False => Token(FALSE_TEXT, k)
    case True => Token(TRUE_TEXT, k)
    case Number(d) => Token(if d.mant == 0 then [DIGIT_0] else IntText(d.mant), k)
    case String(s) => Token(Quoted(s), k)
    case Array(items) => Token([LBRACKET], EmitItems(items, false, Token([RBRACKET], k)))
    case Object(items) => Token([LBRACE], EmitItems(items, true, Token([RBRACE], k)))
  }

  function EmitItems(c: Chain, named: bool, k: Tokens): Tokens
    requires PrintableItems(c, named)
    decreases c
  {
    match c
    case Nil => k
    case Cons(n, v, next) =>
      var k' := Emit(v, if next.Nil? then k else Token([COMMA], EmitItems(next, named, k)));
      if named then Token(Quoted(n.text), Token([COLON], k')) else k'
  }

  /** s consists of the given tokens, in order, with any bytes 1 to 32 before, between and after them. */
  predicate Woven(s: bytes, k: Tokens)
    decreases k
  {
    match k
    case Done => Skip(s) == []
    case Token(text, next) => text <= Skip(s) && Woven(Skip(s)[|text|..], next)
  }

  lemma SkipTwice(s: bytes)
    ensures Skip(Skip(s)) == Skip(s)
  {
  }

  lemma WovenSkip(s: bytes, k: Tokens)
    ensures Woven(Skip(s), k) == Woven(s, k)
  {
    SkipTwice(s);
  }

  /** What may follow a value: a comma, a closing bracket or the end. */
  predicate Closes(k: Tokens) {
    k.Done? || k.text == [COMMA] || k.text == [RBRACKET] || k.text == [RBRACE]
  }

  lemma ClosesStops(s: bytes, k: Tokens)
    requires Closes(k) && Woven(s, k)
    ensures s == [] || Blank(s[0]) || s[0] == COMMA || s[0] == RBRACKET || s[0] == RBRACE
  {
    if k.Token? { assert Skip(s)[..|k.text|] == k.text; }
  }

  // ----- numbers -----

  function Fold(ds: bytes, n: nat): nat
    requires forall i | 0 <= i < |ds| :: Digit(ds[i])
  {
    if ds == [] then n else assert Digit(ds[0]); Fold(ds[1..], n * 10 + (ds[0] as nat - 48))
  }

  lemma {:induction false} FoldSnoc(ds: bytes, d: byte, n: nat)
    requires Digit(d) && forall i | 0 <= i < |ds| :: Digit(ds[i])
    ensures Fold(ds + [d], n) == Fold(ds, n) * 10 + (d as nat - 48)
  {
    if ds == [] {
      assert (ds + [d])[1..] == [];
    } else {
      assert (ds + [d])[1..] == ds[1..] + [d];
      FoldSnoc(ds[1..], d, n * 10 + (ds[0] as nat - 48));
    }
  }

  lemma {:induction false} FoldNatText(n: nat)
    ensures Fold(NatText(n), 0) == n
  {
    if n < 10 {
      assert NatText(n)[1..] == [];
    } else {
      FoldNatText(n / 10);
      FoldSnoc(NatText(n / 10), (48 + n % 10) as byte, 0);
    }
  }

  lemma {:induction false} DigitsOf(ds: bytes, r: bytes, n: nat)
    requires forall i | 0 <= i < |ds| :: Digit(ds[i])
    requires r == [] || !Digit(r[0])
    ensures DigitsValue(ds + r, n) == Fold(ds, n) && DigitsRest(ds + r) == r
  {
    if ds == [] {
      assert ds + r == r;
    } else {
      assert (ds + r)[1..] == ds[1..] + r;
      DigitsOf(ds[1..], r, n * 10 + (ds[0] as nat - 48));
    }
  }

  predicate NumberStops(r: bytes) {
    r == [] || (!Digit(r[0]) && r[0] != DOT && r[0] != 101 && r[0] != 69)
  }

  lemma LexIntegerNatText(n: nat, r: bytes)
    requires r == [] || !Digit(r[0])
    ensures LexInteger(NatText(n) + r) == Lexed(Decimal(n, 0), r)
  {
    var ds := NatText(n);
    var s := ds + r;
    if n == 0 {
      assert s[1..] == r;
    } else {
      assert s[0] == ds[0];
      DigitsOf(ds, r, 0);
      FoldNatText(n);
    }
  }

  lemma LexIntText(n: int, r: bytes)
    requires NumberStops(r)
    ensures LexNumber(IntText(n) + r) == Lexed(Decimal(n, 0), r)
    ensures IntText(n) != [] && (IntText(n)[0] == MINUS || Digit(IntText(n)[0]))
  {
    hide LexInteger, NatText, DigitsValue, DigitsRest;
    if n < 0 {
      assert (IntText(n) + r)[1..] == NatText(-n) + r;
      LexIntegerNatText(-n, r);
      NoMore(-n, r);
    } else {
      LexIntegerNatText(n, r);
      assert (NatText(n) + r)[0] == NatText(n)[0];
      NoMore(n, r);
    }
  }

  /** Neither a fraction nor an exponent follows. */
  lemma NoMore(n: nat, r: bytes)
    requires NumberStops(r)
    ensures LexExponent(LexFraction(Lexed(Decimal(n, 0), r))) == Lexed(Decimal(n, 0), r)
  {
    hide DigitsValue, DigitsRest;
  }

  // ----- parsing woven text -----

  lemma ParseStringQuoted(s: bytes, text: bytes)
    requires NulFree(text) && Quoted(text) <= s
    ensures ParseString(s) == Ok(text, s[|Quoted(text)|..])
  {
    var r := s[|Quoted(text)|..];
    assert s == Quoted(text) + r;
    assert s[1..] == Escape(text) + ([QUOTE] + r);
    StringRoundTrip(text, r);
    PassesAgree(s[1..]);
  }

  /** The first byte of a value's first token tells the parser what the value is. */
  lemma FirstByte(t: Json, k: Tokens)
    requires Printable(t)
    ensures var e := Emit(t, k);
      && e.Token? && e.text != [] && e.text[0] != RBRACKET && e.text[0] != RBRACE
      && (t.Number? ==> e.text[0] == MINUS || Digit(e.text[0]))
  {
    if t.Number? { LexIntText(t.num.mant, []); }
  }

  lemma KeywordFirst(s: bytes)
    ensures NULL_TEXT <= s ==> s[0] == 110
    ensures FALSE_TEXT <= s ==> s[0] == 102
    ensures TRUE_TEXT <= s ==> s[0] == 116
  {
    assert NULL_TEXT <= s ==> s[0] == NULL_TEXT[0];
    assert FALSE_TEXT <= s ==> s[0] == FALSE_TEXT[0];
    assert TRUE_TEXT <= s ==> s[0] == TRUE_TEXT[0];
  }

  /** The parser chooses by the first byte. */
  lemma Dispatch(u: bytes)
    requires u != []
    ensures u[0] == QUOTE && ParseString(u).Ok? ==>
      ParseValue(u) == Ok(String(ParseString(u).value), ParseString(u).rest)
    ensures u[0] == MINUS || Digit(u[0]) ==> ParseValue(u) == Ok(Number(LexNumber(u).num), LexNumber(u).rest)
    ensures u[0] == LBRACKET ==> ParseValue(u) == ParseArray(u)
    ensures u[0] == LBRACE ==> ParseValue(u) == ParseObject(u)
  {
    hide LexNumber, ParseArray, ParseObject, ParseString;
    KeywordFirst(u);
  }

  lemma ParseNumberToken(s: bytes, d: Decimal, k: Tokens)
    requires Canonical(Number(d)) && Closes(k) && Woven(s, Emit(Number(d), k))
    ensures var o := ParseValue(Skip(s)); o.Ok? && o.value == Number(d) && Woven(o.rest, k)
  {
    hide LexNumber, ParseValue;
    var text := IntText(d.mant);
    assert text == Emit(Number(d), k).text;
    hide IntText;
    var r := Skip(s)[|text|..];
    assert Skip(s) == text + r;
    ClosesStops(r, k);
    LexIntText(d.mant, r);
    assert Skip(s)[0] == text[0];
    Dispatch(Skip(s));
  }

  lemma ParseStringToken(s: bytes, x: bytes, k: Tokens)
    requires NulFree(x) && Woven(s, Token(Quoted(x), k))
    ensures var o := ParseValue(Skip(s)); o.Ok? && o.value == String(x) && Woven(o.rest, k)
  {
    hide Escape, ParseValue, ParseString;
    var u := Skip(s);
    ParseStringQuoted(u, x);
    assert u[0] == Quoted(x)[0];
    Dispatch(u);
  }

  lemma DispatchKeyword(u: bytes)
    ensures NULL_TEXT <= u ==> ParseValue(u) == Ok(Null, u[4..])
    ensures FALSE_TEXT <= u ==> ParseValue(u) == Ok(False, u[5..])
    ensures TRUE_TEXT <= u ==> ParseValue(u) == Ok(True, u[4..])
  {
    hide LexNumber, ParseArray, ParseObject, ParseString;
    KeywordFirst(u);
  }

  /** The parser reads back any canonical tree from its tokens, with any blanks between them. */
  lemma {:induction false} ParseWoven(s: bytes, t: Json, k: Tokens)
    requires Canonical(t) && Printable(t) && Closes(k) && Woven(s, Emit(t, k))
    ensures var o := ParseValue(Skip(s)); o.Ok? && o.value == t && Woven(o.rest, k)
    decreases t, 1
  {
    hide ParseValue, IntText, Quoted, Skip, EmitItems, CanonicalItems, PrintableItems;
    match t
    case Null => DispatchKeyword(Skip(s));
    case False => DispatchKeyword(Skip(s));
    case True => DispatchKeyword(Skip(s));
    case Number(d) => ParseNumberToken(s, d, k);
    case String(x) => ParseStringToken(s, x, k);
    case Array(items) => ParseWovenArray(s, items, k);
    case Object(items) => ParseWovenObject(s, items, k);
  }

  lemma {:induction false} ParseWovenArray(s: bytes, items: Chain, k: Tokens)
    requires CanonicalItems(items, false) && PrintableItems(items, false) && Closes(k)
    requires Woven(s, Token([LBRACKET], EmitItems(items, false, Token([RBRACKET], k))))
    ensures var o := ParseValue(Skip(s)); o.Ok? && o.value == Array(items) && Woven(o.rest, k)
    decreases items, 3
  {
    hide ParseValue, ParseItems, Emit, Canonical, CanonicalItems, Printable, PrintableItems;
    var u := Skip(s);
    var k' := Token([RBRACKET], k);
    Dispatch(u);
    WovenSkip(u[1..], EmitItems(items, false, k'));
    if items.Cons? {
      FirstItem(items, k');
      ParseWovenItems(Skip(u[1..]), items, k);
    }
  }

  lemma FirstItem(c: Chain, k: Tokens)
    requires c.Cons? && PrintableItems(c, false)
    ensures var e := EmitItems(c, false, k); e.Token? && e.text != [] && e.text[0] != RBRACKET
  {
    hide Emit, EmitItems, Printable;
    var k' := if c.next.Nil? then k else Token([COMMA], EmitItems(c.next, false, k));
    FirstByte(c.value, k');
    EmitOne(c, false, k);
  }

  lemma FirstMember(c: Chain, k: Tokens)
    requires c.Cons? && PrintableItems(c, true)
    ensures var e := EmitItems(c, true, k); e.Token? && e.text != [] && e.text[0] == QUOTE
  {
    hide Emit, EmitItems, Printable;
    EmitOne(c, true, k);
  }

  lemma EmitOne(c: Chain, named: bool, k: Tokens)
    requires c.Cons? && PrintableItems(c, named)
    ensures var k' := Emit(c.value, if c.next.Nil? then k else Token([COMMA], EmitItems(c.next, named, k)));
      EmitItems(c, named, k) == if named then Token(Quoted(c.name.text), Token([COLON], k')) else k'
  {
    hide Emit, Printable;
  }

  lemma {:induction false} ParseWovenObject(s: bytes, items: Chain, k: Tokens)
    requires CanonicalItems(items, true) && PrintableItems(items, true) && Closes(k)
    requires Woven(s, Token([LBRACE], EmitItems(items, true, Token([RBRACE], k))))
    ensures var o := ParseValue(Skip(s)); o.Ok? && o.value == Object(items) && Woven(o.rest, k)
    decreases items, 3
  {
    hide ParseValue, ParseMembers, Emit, Canonical, CanonicalItems, Printable, PrintableItems;
    var u := Skip(s);
    var k' := Token([RBRACE], k);
    Dispatch(u);
    WovenSkip(u[1..], EmitItems(items, true, k'));
    if items.Cons? {
      FirstMember(items, k');
      ParseWovenMembers(Skip(u[1..]), items, k);
    }
  }

  lemma {:induction false} ParseWovenItems(s: bytes, c: Chain, k: Tokens)
    requires c.Cons? && CanonicalItems(c, false) && PrintableItems(c, false)
    requires Woven(s, EmitItems(c, false, Token([RBRACKET], k)))
    ensures var o := ParseItems(s); o.Ok? && o.value == c && Woven(o.rest, k)
    decreases c, 0
  {
    var k' := Token([RBRACKET], k);
    if c.next.Nil? {
      ParseWoven(s, c.value, k');
    } else {
      var next := EmitItems(c.next, false, k');
      ParseWoven(s, c.value, Token([COMMA], next));
      ParseWovenItems(Skip(ParseValue(Skip(s)).rest)[1..], c.next, k);
    }
  }

  lemma {:induction false} ParseWovenMember(s: bytes, n: bytes, v: Json, k: Tokens)
    requires NulFree(n) && Canonical(v) && Printable(v) && Closes(k)
    requires Woven(s, Token(Quoted(n), Token([COLON], Emit(v, k))))
    ensures var o := ParseMember(s); o.Ok? && o.value == Member(n, v) && Woven(o.rest, k)
    decreases v, 2
  {
    hide LexNumber, IntText, ParseString, Quoted, ParseValue, Emit;
    ParseStringQuoted(Skip(s), n);
    var c := Skip(ParseString(Skip(s)).rest);
    ParseWoven(c[1..], v, k);
  }

  lemma {:induction false} ParseWovenMembers(s: bytes, c: Chain, k: Tokens)
    requires c.Cons? && CanonicalItems(c, true) && PrintableItems(c, true)
    requires Woven(s, EmitItems(c, true, Token([RBRACE], k)))
    ensures var o := ParseMembers(s); o.Ok? && o.value == c && Woven(o.rest, k)
    decreases c, 0
  {
    hide ParseMember, Quoted, Emit, Canonical, Printable, EmitItems;
    var k' := Token([RBRACE], k);
    EmitOne(c, true, k');
    if c.next.Nil? {
      ParseWovenMember(s, c.name.text, c.value, k');
    } else {
      var next := EmitItems(c.next, true, k');
      ParseWovenMember(s, c.name.text, c.value, Token([COMMA], next));
      ParseWovenMembers(Skip(ParseMember(s).rest)[1..], c.next, k);
    }
  }

  /** Any rendering of a canonical tree, which is printable, parses to that tree, consuming all the text. */
  lemma ParseAnyBlanks(s: bytes, t: Json)
    requires Canonical(t) && Printable(t) && Woven(s, Emit(t, Done))
    ensures Parse(s) == Ok(t, [])
  {
    ParseWoven(s, t, Done);
  }

  // ----- printed text is woven -----

  lemma WovenToken(text: bytes, r: bytes, k: Tokens)
    requires text != [] && !Blank(text[0]) && Woven(r, k)
    ensures Woven(text + r, Token(text, k))
  {
    assert (text + r)[|text|..] == r;
  }

  lemma WovenBlanks(w: bytes, r: bytes, k: Tokens)
    requires Woven(r, k) && forall i | 0 <= i < |w| :: Blank(w[i])
    ensures Woven(w + r, k)
  {
    SkipBlanks(w, r);
  }

  lemma {:induction false} PrintWoven(t: Json, depth: nat, fmt: bool, r: bytes, k: Tokens)
    requires Printable(t) && Woven(r, k)
    ensures Woven(Print(t, depth, fmt) + r, Emit(t, k))
    decreases t, 1
  {
    hide IntText, Skip, Woven, Escape, PrintItems, PrintMembers;
    var p := Print(t, depth, fmt);
    match t
    case Array(items) =>
      PrintArrayWoven(items, depth, fmt, r, k);
    case Object(items) =>
      PrintObjectWoven(items, depth, fmt, r, k);
    case Number(d) =>
      LexIntText(d.mant, []);
      WovenToken(p, r, k);
    case _ =>
      WovenToken(p, r, k);
  }

  lemma {:induction false} PrintArrayWoven(items: Chain, depth: nat, fmt: bool, r: bytes, k: Tokens)
    requires PrintableItems(items, false) && Woven(r, k)
    ensures Woven(Print(Array(items), depth, fmt) + r, Emit(Array(items), k))
    decreases items, 2
  {
    hide Skip, Woven, PrintItems, EmitItems;
    var k' := Token([RBRACKET], k);
    var body := PrintItems(items, depth + 1, fmt);
    WovenToken([RBRACKET], r, k);
    PrintItemsWoven(items, depth + 1, fmt, [RBRACKET] + r, k');
    WovenToken([LBRACKET], body + ([RBRACKET] + r), EmitItems(items, false, k'));
    assert Print(Array(items), depth, fmt) + r == [LBRACKET] + (body + ([RBRACKET] + r));
  }

  lemma {:induction false} PrintObjectWoven(items: Chain, depth: nat, fmt: bool, r: bytes, k: Tokens)
    requires PrintableItems(items, true) && Woven(r, k)
    ensures Woven(Print(Object(items), depth, fmt) + r, Emit(Object(items), k))
    decreases items, 2
  {
    hide Skip, Woven, PrintMembers, Print, Closing, EmitItems;
    var k' := Token([RBRACE], k);
    var close, open := Closing(items, depth, fmt), if fmt then [NEWLINE] else [];
    var body := PrintMembers(items, depth + 1, fmt);
    var end := close + ([RBRACE] + r);
    WovenToken([RBRACE], r, k);
    WovenBlanks(close, [RBRACE] + r, k');
    if items.Cons? {
      PrintMembersWoven(items, depth + 1, fmt, end, k');
    } else {
      NoMembers(depth, fmt, end, k');
    }
    WovenBlanks(open, body + end, EmitItems(items, true, k'));
    WovenToken([LBRACE], open + (body + end), EmitItems(items, true, k'));
    ObjectText(items, depth, fmt, r);
  }

  /** The tabs before the closing brace. */
  function Closing(items: Chain, depth: nat, fmt: bool): (s: bytes)
    ensures forall i | 0 <= i < |s| :: Blank(s[i])
  {
    if !fmt then [] else if items.Nil? then Tabs(if depth > 0 then depth - 1 else 0) else Tabs(depth)
  }

  lemma NoMembers(depth: nat, fmt: bool, end: bytes, k: Tokens)
    requires Woven(end, k)
    ensures Woven(PrintMembers(Nil, depth + 1, fmt) + end, EmitItems(Nil, true, k))
  {
    hide Woven;
    assert [] + end == end;
  }

  lemma ObjectText(items: Chain, depth: nat, fmt: bool, r: bytes)
    requires PrintableItems(items, true)
    ensures var open := if fmt then [NEWLINE] else [];
      Print(Object(items), depth, fmt) + r
      == [LBRACE] + (open + (PrintMembers(items, depth + 1, fmt) + (Closing(items, depth, fmt) + ([RBRACE] + r))))
  {
    hide PrintMembers;
    var open := if fmt then [NEWLINE] else [];
    var body, close := PrintMembers(items, depth + 1, fmt), Closing(items, depth, fmt);
    assert items.Nil? ==> body == [] by { NoText(depth, fmt); }
    assert Print(Object(items), depth, fmt) == [LBRACE] + open + body + close + [RBRACE];
  }

  lemma NoText(depth: nat, fmt: bool)
    ensures PrintMembers(Nil, depth + 1, fmt) == []
  {
  }

  lemma {:induction false} PrintItemsWoven(c: Chain, depth: nat, fmt: bool, r: bytes, k: Tokens)
    requires PrintableItems(c, false) && Woven(r, k)
    ensures Woven(PrintItems(c, depth, fmt) + r, EmitItems(c, false, k))
    decreases c, 0
  {
    hide Skip, Woven, Print, Emit;
    match c
    case Nil =>
      assert PrintItems(c, depth, fmt) + r == r;
    case Cons(n, v, next) =>
      var rest := PrintItems(next, depth, fmt) + r;
      PrintItemsWoven(next, depth, fmt, r, k);
      var k' := EmitItems(next, false, k);
      var tail := ItemSeparator(next.Nil?, fmt) + rest;
      ItemTail(next.Nil?, fmt, rest, k, k');
      PrintWoven(v, depth, fmt, tail, if next.Nil? then k else Token([COMMA], k'));
      assert PrintItems(c, depth, fmt) + r == Print(v, depth, fmt) + tail;
  }

  /** What follows an element. */
  lemma ItemTail(last: bool, fmt: bool, rest: bytes, k: Tokens, k': Tokens)
    requires Woven(rest, k') && (last ==> k' == k)
    ensures Woven(ItemSeparator(last, fmt) + rest, if last then k else Token([COMMA], k'))
  {
    hide Skip, Woven;
    if last {
      assert [] + rest == rest;
    } else {
      var gap := if fmt then [SPACE] else [];
      WovenBlanks(gap, rest, k');
      WovenToken([COMMA], gap + rest, k');
      assert ItemSeparator(last, fmt) + rest == [COMMA] + (gap + rest);
    }
  }

  lemma {:induction false} PrintMemberWoven(n: Name, v: Json, depth: nat, fmt: bool, r: bytes, k: Tokens)
    requires n.Named? && Printable(v) && Woven(r, k)
    ensures Woven((if fmt then Tabs(depth) else []) + Quoted(n.text) + KeySeparator(fmt) + Print(v, depth, fmt) + r,
                  Token(Quoted(n.text), Token([COLON], Emit(v, k))))
    decreases v, 2
  {
    hide Skip, Woven, Print, Emit, Escape;
    var gap := if fmt then [TAB] else [];
    var tabs := if fmt then Tabs(depth) else [];
    var value := Print(v, depth, fmt) + r;
    PrintWoven(v, depth, fmt, r, k);
    WovenBlanks(gap, value, Emit(v, k));
    WovenToken([COLON], gap + value, Emit(v, k));
    WovenToken(Quoted(n.text), [COLON] + (gap + value), Token([COLON], Emit(v, k)));
    var text := Quoted(n.text) + ([COLON] + (gap + value));
    WovenBlanks(tabs, text, Token(Quoted(n.text), Token([COLON], Emit(v, k))));
    assert tabs + Quoted(n.text) + KeySeparator(fmt) + Print(v, depth, fmt) + r == tabs + text;
  }

  lemma {:induction false} PrintMembersWoven(c: Chain, depth: nat, fmt: bool, r: bytes, k: Tokens)
    requires PrintableItems(c, true) && Woven(r, k)
    ensures Woven(PrintMembers(c, depth, fmt) + r, EmitItems(c, true, k))
    decreases c, 0
  {
    hide Skip, Woven, Print, Emit, Quoted;
    match c
    case Nil =>
      assert PrintMembers(c, depth, fmt) + r == r;
    case Cons(n, v, next) =>
      var rest := PrintMembers(next, depth, fmt) + r;
      PrintMembersWoven(next, depth, fmt, r, k);
      var k' := EmitItems(next, true, k);
      var tail := MemberSeparator(next.Nil?, fmt) + rest;
      MemberTail(next.Nil?, fmt, rest, k, k');
      PrintMemberWoven(n, v, depth, fmt, tail, if next.Nil? then k else Token([COMMA], k'));
      hide KeySeparator, MemberSeparator, Tabs;
      var head := (if fmt then Tabs(depth) else []) + Quoted(n.text) + KeySeparator(fmt) + Print(v, depth, fmt);
      assert PrintMembers(c, depth, fmt) + r == head + tail;
  }

  /** What follows a member. */
  lemma MemberTail(last: bool, fmt: bool, rest: bytes, k: Tokens, k': Tokens)
    requires Woven(rest, k') && (last ==> k' == k)
    ensures Woven(MemberSeparator(last, fmt) + rest, if last then k else Token([COMMA], k'))
  {
    hide Skip, Woven;
    var gap := if fmt then [NEWLINE] else [];
    WovenBlanks(gap, rest, k');
    if last {
      assert MemberSeparator(last, fmt) + rest == gap + rest;
    } else {
      WovenToken([COMMA], gap + rest, k');
      assert MemberSeparator(last, fmt) + rest == [COMMA] + (gap + rest);
    }
  }

  /** Printing a canonical tree, formatted or not, and parsing the text gives the tree back. */
  lemma ParsePrint(t: Json, depth: nat, fmt: bool)
    requires Canonical(t)
    ensures Printable(t) && Parse(Print(t, depth, fmt)) == Ok(t, [])
  {
    CanonicalPrintable(t);
    var p := Print(t, depth, fmt);
    PrintWoven(t, depth, fmt, [], Done);
    assert p + [] == p;
    ParseAnyBlanks(p, t);
  }

  /** Two canonical trees with the same text are the same tree. */
  lemma PrintInjective(t: Json, u: Json, depth: nat, fmt: bool)
    requires Canonical(t) && Canonical(u)
    ensures Printable(t) && Printable(u) && (Print(t, depth, fmt) == Print(u, depth, fmt) <==> t == u)
  {
    ParsePrint(t, depth, fmt);
    ParsePrint(u, depth, fmt);
  }
}
