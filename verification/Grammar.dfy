/** The texts the parser accepts and the trees they denote, as a grammar: RFC 8259 with every byte from 1 to 32
    as a blank, the numbers of parse_number and the literals of parse_string. */
module Grammar {
  import opened Bytes
  import opened Spelling
  import opened Literal
  import opened Json
  import opened Numerals
  import opened StringMeaning

  /** The first k characters are blanks. */
  predicate Lead(s: bytes, k: nat) {
    k <= |s| && forall i | 0 <= i < k :: 1 <= s[i] <= 32
  }

  /** The text s is a value t with `rest` behind it. */
  ghost predicate Value(s: bytes, t: Json, rest: bytes)
    decreases |s|, 0
  {
    match t
    case Null => s == Ascii("null") + rest
    case False => s == Ascii("false") + rest
    case True => s == Ascii("true") + rest
    case Number(d) => exists p: NumberParts :: NumberText(s, p, rest) && ValueOf(p) == d
    case String(x) => Text(s, x, rest)
    case Array(items) => s != [] && s[0] == LBRACKET && Elements(s[1..], items, rest)
    case Object(items) => s != [] && s[0] == LBRACE && Members(s[1..], items, rest)
  }

  predicate NumberText(s: bytes, p: NumberParts, rest: bytes) {
    IsNumber(p) && (p.minus || p.zero || p.whole != []) && EndsBefore(p, rest) && s == AndThen(p, rest)
  }

  /** A literal, which may lack its closing quote at the end of the text. */
  ghost predicate Text(s: bytes, x: bytes, rest: bytes) {
    s != [] && s[0] == QUOTE && exists r: bytes :: Reads(s[1..], x, r) && rest == if r == [] then [] else r[1..]
  }

  /** Behind an opening bracket. */
  ghost predicate Elements(s: bytes, items: Chain, rest: bytes)
    decreases |s|, 2
  {
    if items == Nil then exists k: nat :: Lead(s, k) && s[k..] == [RBRACKET] + rest else Items(s, items, rest)
  }

  /** One value, and behind a comma more of them, up to the closing bracket. */
  ghost predicate Items(s: bytes, items: Chain, rest: bytes)
    requires items != Nil
    decreases |s|, 1
  {
    items.name == NoName
    && exists k: nat, r: bytes ::
      Lead(s, k) && |r| < |s| && Value(s[k..], items.value, r) && MoreItems(r, items.next, rest)
  }

  ghost predicate MoreItems(r: bytes, items: Chain, rest: bytes)
    decreases |r|, 2
  {
    exists j: nat :: Lead(r, j) && j < |r|
      && if items == Nil then r[j..] == [RBRACKET] + rest else r[j] == COMMA && Items(r[j + 1..], items, rest)
  }

  /** Behind an opening brace. */
  ghost predicate Members(s: bytes, items: Chain, rest: bytes)
    decreases |s|, 2
  {
    if items == Nil then exists k: nat :: Lead(s, k) && s[k..] == [RBRACE] + rest else Pairs(s, items, rest)
  }

  /** One name and its value, and behind a comma more of them, up to the closing brace. */
  ghost predicate Pairs(s: bytes, items: Chain, rest: bytes)
    requires items != Nil
    decreases |s|, 1
  {
    items.name.Named?
    && exists k: nat, c: bytes :: Lead(s, k) && |c| < |s| && Text(s[k..], items.name.text, c) && Colon(c, items, rest)
  }

  ghost predicate Colon(c: bytes, items: Chain, rest: bytes)
    requires items != Nil
    decreases |c|, 3
  {
    exists j: nat :: Lead(c, j) && j < |c| && c[j] == COLON && PairValue(c[j + 1..], items, rest)
  }

  ghost predicate PairValue(s: bytes, items: Chain, rest: bytes)
    requires items != Nil
    decreases |s|, 1
  {
    exists k: nat, r: bytes ::
      Lead(s, k) && |r| < |s| && Value(s[k..], items.value, r) && MorePairs(r, items.next, rest)
  }

  ghost predicate MorePairs(r: bytes, items: Chain, rest: bytes)
    decreases |r|, 2
  {
    exists j: nat :: Lead(r, j) && j < |r|
      && if items == Nil then r[j..] == [RBRACE] + rest else r[j] == COMMA && Pairs(r[j + 1..], items, rest)
  }

  // ----- blanks -----

  lemma {:induction false} SkipSplits(s: bytes) returns (k: nat)
    ensures Lead(s, k) && Skip(s) == s[k..] && (k < |s| ==> !(1 <= s[k] <= 32))
  {
    if s != [] && Blank(s[0]) {
      k := SkipSplits(s[1..]);
      assert s[1..][k..] == s[k + 1..];
      forall i | 0 <= i < k + 1 ensures 1 <= s[i] <= 32 {
        if i > 0 { assert s[1..][i - 1] == s[i]; }
      }
      k := k + 1;
    } else {
      k := 0;
    }
  }

  lemma {:induction false} SkipIs(s: bytes, k: nat)
    requires Lead(s, k) && (k < |s| ==> !(1 <= s[k] <= 32))
    ensures Skip(s) == s[k..]
  {
    if k > 0 {
      SkipIs(s[1..], k - 1);
      assert s[1..][k - 1..] == s[k..];
    }
  }

  // ----- leaves -----

  lemma WordIs(s: bytes, rest: bytes)
    ensures s == Ascii("null") + rest <==> NULL_TEXT <= s && rest == s[4..]
    ensures s == Ascii("false") + rest <==> FALSE_TEXT <= s && rest == s[5..]
    ensures s == Ascii("true") + rest <==> TRUE_TEXT <= s && rest == s[4..]
  {
    assert Ascii("null") == NULL_TEXT && Ascii("false") == FALSE_TEXT && Ascii("true") == TRUE_TEXT;
    hide Ascii;
    if NULL_TEXT <= s { assert s == NULL_TEXT + s[4..]; }
    if FALSE_TEXT <= s { assert s == FALSE_TEXT + s[5..]; }
    if TRUE_TEXT <= s { assert s == TRUE_TEXT + s[4..]; }
  }

  lemma TextIs(s: bytes, x: bytes, rest: bytes)
    requires !ParseString(s).Wild?
    ensures Text(s, x, rest) <==> ParseString(s) == Ok(x, rest)
    ensures Text(s, x, rest) ==> s != [] && s[0] == QUOTE && |rest| < |s|
  {
    hide Reads, Decode, DecodeRest, ScanRest, Complete;
    if s != [] && s[0] == QUOTE {
      PassesAgree(s[1..]);
      StringMeans(s, Decode(s[1..]), DecodeRest(s[1..]));
      if Text(s, x, rest) {
        var r: bytes :| Reads(s[1..], x, r) && rest == if r == [] then [] else r[1..];
        StringMeans(s, x, r);
      }
    }
  }

  lemma NumberIs(s: bytes, d: Decimal, rest: bytes)
    requires s != [] && (s[0] == MINUS || Digit(s[0]))
    ensures (exists p: NumberParts :: NumberText(s, p, rest) && ValueOf(p) == d) <==> LexNumber(s) == Lexed(d, rest)
  {
    hide LexNumber, EndsBefore, ValueOf;
    if p: NumberParts :| NumberText(s, p, rest) && ValueOf(p) == d {
      NumberReads(p, rest);
    }
    if LexNumber(s) == Lexed(d, rest) {
      var p, r := NumberSplits(s);
      assert NumberText(s, p, rest);
    }
  }

  lemma NumberStarts(s: bytes, p: NumberParts, rest: bytes)
    requires NumberText(s, p, rest)
    ensures s != [] && (s[0] == MINUS || Digit(s[0]))
  {
    hide EndsBefore, AfterWhole;
    if !p.minus {
      assert s == AfterSign(p, rest);
      if !p.zero { FirstDigit(p.whole, AfterWhole(p, rest)); }
    }
  }

  /** What a value starts with. */
  lemma ValueStarts(s: bytes, t: Json, rest: bytes)
    requires Value(s, t, rest)
    ensures s != [] && !(1 <= s[0] <= 32) && s[0] != RBRACKET && s[0] != RBRACE && s[0] != COMMA
    ensures s[0] == QUOTE <==> t.String?
    ensures s[0] == LBRACKET <==> t.Array?
    ensures s[0] == LBRACE <==> t.Object?
    ensures s[0] == MINUS || Digit(s[0]) <==> t.Number?
    ensures s[0] == 110 <==> t.Null?
    ensures s[0] == 102 <==> t.False?
    ensures s[0] == 116 <==> t.True?
  {
    hide Text, Elements, Members, NumberText, ValueOf;
    WordIs(s, rest);
    match t
    case Number(d) =>
      var p: NumberParts :| NumberText(s, p, rest) && ValueOf(p) == d;
      NumberStarts(s, p, rest);
    case String(x) => TextStarts(s, x, rest);
    case _ =>
  }

  lemma TextStarts(s: bytes, x: bytes, rest: bytes)
    requires Text(s, x, rest)
    ensures s != [] && s[0] == QUOTE
  {
  }

  // ----- the parser accepts just this -----

  /** parse_value, by the first character. */
  lemma ParseCases(s: bytes)
    ensures s == [] ==> ParseValue(s) == Fail
    ensures s != [] && s[0] == QUOTE ==>
      (match ParseString(s)
       case Ok(x, rest) => ParseValue(s) == Ok(String(x), rest)
       case Fail => ParseValue(s) == Fail
       case Wild => ParseValue(s) == Wild)
    ensures s != [] && (s[0] == MINUS || Digit(s[0])) ==>
      ParseValue(s) == Ok(Number(LexNumber(s).num), LexNumber(s).rest)
    ensures s != [] && s[0] == LBRACKET ==> ParseValue(s) == ParseArray(s)
    ensures s != [] && s[0] == LBRACE ==> ParseValue(s) == ParseObject(s)
    ensures s != [] && s[0] == 110 ==> ParseValue(s) == if NULL_TEXT <= s then Ok(Null, s[4..]) else Fail
    ensures s != [] && s[0] == 102 ==> ParseValue(s) == if FALSE_TEXT <= s then Ok(False, s[5..]) else Fail
    ensures s != [] && s[0] == 116 ==> ParseValue(s) == if TRUE_TEXT <= s then Ok(True, s[4..]) else Fail
    ensures s != [] && s[0] !in {QUOTE, MINUS, LBRACKET, LBRACE, 110, 102, 116} && !Digit(s[0]) ==>
      ParseValue(s) == Fail
  {
    hide ParseString, LexNumber, ParseArray, ParseObject;
  }

  /** A text that steps outside no literal is a value with the rest behind it exactly when it is parsed so. */
  lemma {:induction false} ValueIs(s: bytes, t: Json, rest: bytes)
    requires !ParseValue(s).Wild?
    ensures Value(s, t, rest) <==> ParseValue(s) == Ok(t, rest)
    decreases |s|, 0
  {
    ParseCases(s);
    hide ParseValue, ParseString, LexNumber, ParseArray, ParseObject, Text, Elements, Members, NumberText, ValueOf,
      Digit;
    if Value(s, t, rest) { ValueStarts(s, t, rest); }
    if s != [] {
      if s[0] == QUOTE {
        if t.String? { TextIs(s, t.text, rest); }
      } else if s[0] == MINUS || Digit(s[0]) {
        if t.Number? { NumberIs(s, t.num, rest); }
      } else if s[0] == LBRACKET {
        if t.Array? { ElementsIs(s, t.items, rest); }
        if ParseArray(s).Ok? { ArrayKind(s); }
      } else if s[0] == LBRACE {
        if t.Object? { MembersIs(s, t.items, rest); }
        if ParseObject(s).Ok? { ObjectKind(s); }
      } else {
        WordIs(s, rest);
      }
    }
  }

  lemma ArrayKind(s: bytes)
    requires s != [] && s[0] == LBRACKET && ParseArray(s).Ok?
    ensures ParseArray(s).value.Array?
  {
  }

  lemma ObjectKind(s: bytes)
    requires s != [] && s[0] == LBRACE && ParseObject(s).Ok?
    ensures ParseObject(s).value.Object?
  {
  }

  // ----- arrays -----

  predicate MoreParsed(r: bytes, items: Chain, rest: bytes) {
    var c := Skip(r);
    c != []
    && if items == Nil then c[0] == RBRACKET && rest == c[1..]
       else c[0] == COMMA && ParseItems(c[1..]) == Ok(items, rest)
  }

  /** ParseItems, one element deep. */
  lemma ParseItemsIs(s: bytes, items: Chain, rest: bytes)
    ensures var o := ParseValue(Skip(s));
      ParseItems(s) == Ok(items, rest) <==>
      items.Cons? && items.name == NoName && o.Ok? && o.value == items.value && MoreParsed(o.rest, items.next, rest)
    ensures ParseItems(s).Ok? ==> ParseItems(s).value.Cons?
    ensures !ParseItems(s).Wild? ==> !ParseValue(Skip(s)).Wild?
    ensures var o := ParseValue(Skip(s));
      o.Ok? && !ParseItems(s).Wild? ==>
      Skip(o.rest) != [] && Skip(o.rest)[0] == COMMA ==> !ParseItems(Skip(o.rest)[1..]).Wild?
  {
    hide ParseValue, Skip;
    var o := ParseValue(Skip(s));
    if o.Ok? && Skip(o.rest) != [] && Skip(o.rest)[0] == COMMA { ItemsCons(Skip(o.rest)[1..]); }
  }

  lemma ItemsCons(s: bytes)
    ensures ParseItems(s).Ok? ==> ParseItems(s).value.Cons?
  {
    hide ParseValue, Skip;
  }

  lemma FirstItem(s: bytes, items: Chain, rest: bytes) returns (k: nat, r: bytes)
    requires items != Nil && Items(s, items, rest)
    ensures k <= |s| && Lead(s, k) && |r| < |s| && Value(s[k..], items.value, r) && MoreItems(r, items.next, rest)
    ensures items.name == NoName
  {
    hide Value, MoreItems;
    k, r :| Lead(s, k) && |r| < |s| && Value(s[k..], items.value, r) && MoreItems(r, items.next, rest);
  }

  lemma {:induction false} ItemsIs(s: bytes, items: Chain, rest: bytes)
    requires items != Nil && !ParseItems(s).Wild?
    ensures Items(s, items, rest) <==> ParseItems(s) == Ok(items, rest)
    decreases |s|, 1
  {
    ParseItemsIs(s, items, rest);
    var k := SkipSplits(s);
    hide ParseItems, ParseValue, Skip, Value, Lead, MoreItems, MoreParsed;
    var o := ParseValue(Skip(s));
    if ParseItems(s) == Ok(items, rest) {
      ValueIs(Skip(s), items.value, o.rest);
      MoreIs(o.rest, items.next, rest);
      assert Lead(s, k) && Value(s[k..], items.value, o.rest) && MoreItems(o.rest, items.next, rest);
    }
    if Items(s, items, rest) {
      var k', r := FirstItem(s, items, rest);
      ValueStarts(s[k'..], items.value, r);
      SkipIs(s, k');
      ValueIs(Skip(s), items.value, r);
      MoreIs(r, items.next, rest);
    }
  }

  lemma {:induction false} MoreIs(r: bytes, items: Chain, rest: bytes)
    requires Skip(r) != [] && Skip(r)[0] == COMMA ==> !ParseItems(Skip(r)[1..]).Wild?
    ensures MoreItems(r, items, rest) <==> MoreParsed(r, items, rest)
    decreases |r|, 2
  {
    var j := SkipSplits(r);
    hide ParseItems, Skip, Items;
    if MoreParsed(r, items, rest) {
      if items != Nil {
        ItemsIs(r[j + 1..], items, rest);
        assert Skip(r)[1..] == r[j + 1..];
      } else {
        assert r[j..] == [RBRACKET] + rest;
      }
    }
    if MoreItems(r, items, rest) {
      var j': nat :| Lead(r, j') && j' < |r|
        && if items == Nil then r[j'..] == [RBRACKET] + rest else r[j'] == COMMA && Items(r[j' + 1..], items, rest);
      assert r[j'] == r[j'..][0];
      SkipIs(r, j');
      if items != Nil {
        assert Skip(r)[1..] == r[j' + 1..];
        ItemsIs(r[j' + 1..], items, rest);
      }
    }
  }

  lemma ItemsSkip(s: bytes)
    ensures ParseItems(Skip(s)) == ParseItems(s)
  {
    SkipTwice(s);
    hide Skip, ParseValue;
  }

  lemma SkipTwice(s: bytes)
    ensures Skip(Skip(s)) == Skip(s)
  {
  }

  lemma {:induction false} ElementsIs(s: bytes, items: Chain, rest: bytes)
    requires s != [] && s[0] == LBRACKET && !ParseArray(s).Wild?
    ensures Elements(s[1..], items, rest) <==> ParseArray(s) == Ok(Array(items), rest)
    decreases |s| - 1, 2
  {
    var x := s[1..];
    var r := Skip(x);
    var k := SkipSplits(x);
    ItemsSkip(x);
    ItemsCons(x);
    ArrayCases(s);
    hide ParseArray, ParseItems, Skip, Items;
    if r != [] && r[0] == RBRACKET {
      if items == Nil {
        if rest == r[1..] { assert x[k..] == [RBRACKET] + rest; }
        EmptyOnly(x, rest);
      } else if Items(x, items, rest) {
        NotEmpty(x, items, rest);
      }
    } else {
      if items != Nil { ItemsIs(x, items, rest); }
      EmptyOnly(x, rest);
    }
  }

  lemma ArrayCases(s: bytes)
    requires s != [] && s[0] == LBRACKET
    ensures var r := Skip(s[1..]);
      if r != [] && r[0] == RBRACKET then ParseArray(s) == Ok(Array(Nil), r[1..])
      else match ParseItems(r)
        case Ok(items, rest) => ParseArray(s) == Ok(Array(items), rest)
        case Fail => ParseArray(s) == Fail
        case Wild => ParseArray(s) == Wild
  {
    hide ParseItems, Skip;
  }

  lemma EmptyOnly(x: bytes, rest: bytes)
    ensures (exists k: nat :: Lead(x, k) && x[k..] == [RBRACKET] + rest) ==>
      Skip(x) != [] && Skip(x)[0] == RBRACKET && rest == Skip(x)[1..]
  {
    if k: nat :| Lead(x, k) && x[k..] == [RBRACKET] + rest {
      assert x[k] == x[k..][0];
      SkipIs(x, k);
    }
  }

  lemma NotEmpty(x: bytes, items: Chain, rest: bytes)
    requires items != Nil && Items(x, items, rest)
    ensures Skip(x) != [] && Skip(x)[0] != RBRACKET
  {
    hide Value, MoreItems, Items;
    var k, r := FirstItem(x, items, rest);
    ValueStarts(x[k..], items.value, r);
    SkipIs(x, k);
  }

  // ----- objects -----

  /** ParseMember, step by step. */
  lemma ParseMemberIs(s: bytes, x: bytes, v: Json, r: bytes)
    ensures var n := ParseString(Skip(s));
      ParseMember(s) == Ok(Member(x, v), r) <==>
      n.Ok? && n.value == x && Skip(n.rest) != [] && Skip(n.rest)[0] == COLON
      && ParseValue(Skip(Skip(n.rest)[1..])) == Ok(v, r)
    ensures !ParseMember(s).Wild? ==> !ParseString(Skip(s)).Wild?
    ensures var n := ParseString(Skip(s));
      n.Ok? && Skip(n.rest) != [] && Skip(n.rest)[0] == COLON && !ParseMember(s).Wild? ==>
      !ParseValue(Skip(Skip(n.rest)[1..])).Wild?
  {
    hide ParseValue, ParseString, Skip;
  }

  predicate MoreParsedPairs(r: bytes, items: Chain, rest: bytes) {
    var c := Skip(r);
    c != []
    && if items == Nil then c[0] == RBRACE && rest == c[1..]
       else c[0] == COMMA && ParseMembers(c[1..]) == Ok(items, rest)
  }

  /** ParseMembers, one member deep. */
  lemma ParseMembersIs(s: bytes, items: Chain, rest: bytes)
    ensures var o := ParseMember(s);
      ParseMembers(s) == Ok(items, rest) <==>
      items.Cons? && items.name.Named? && o.Ok? && o.value == Member(items.name.text, items.value)
      && MoreParsedPairs(o.rest, items.next, rest)
    ensures ParseMembers(s).Ok? ==> ParseMembers(s).value.Cons?
    ensures !ParseMembers(s).Wild? ==> !ParseMember(s).Wild?
    ensures var o := ParseMember(s);
      o.Ok? && !ParseMembers(s).Wild? ==>
      Skip(o.rest) != [] && Skip(o.rest)[0] == COMMA ==> !ParseMembers(Skip(o.rest)[1..]).Wild?
  {
    hide ParseMember, Skip;
    var o := ParseMember(s);
    if o.Ok? && Skip(o.rest) != [] && Skip(o.rest)[0] == COMMA { MembersCons(Skip(o.rest)[1..]); }
  }

  lemma MembersCons(s: bytes)
    ensures ParseMembers(s).Ok? ==> ParseMembers(s).value.Cons?
  {
    hide ParseMember, Skip;
  }

  lemma FirstName(s: bytes, items: Chain, rest: bytes) returns (k: nat, c: bytes)
    requires items != Nil && Pairs(s, items, rest)
    ensures items.name.Named?
    ensures k < |s| && Lead(s, k) && |c| < |s| && Text(s[k..], items.name.text, c) && Colon(c, items, rest)
  {
    hide Text, Colon;
    k, c :| Lead(s, k) && |c| < |s| && Text(s[k..], items.name.text, c) && Colon(c, items, rest);
    TextStarts(s[k..], items.name.text, c);
  }

  lemma FirstColon(c: bytes, items: Chain, rest: bytes) returns (j: nat)
    requires items != Nil && Colon(c, items, rest)
    ensures j < |c| && Lead(c, j) && c[j] == COLON && PairValue(c[j + 1..], items, rest)
  {
    hide PairValue;
    j :| Lead(c, j) && j < |c| && c[j] == COLON && PairValue(c[j + 1..], items, rest);
  }

  lemma FirstValue(s: bytes, items: Chain, rest: bytes) returns (k: nat, r: bytes)
    requires items != Nil && PairValue(s, items, rest)
    ensures k <= |s| && Lead(s, k) && |r| < |s| && Value(s[k..], items.value, r) && MorePairs(r, items.next, rest)
  {
    hide Value, MorePairs;
    k, r :| Lead(s, k) && |r| < |s| && Value(s[k..], items.value, r) && MorePairs(r, items.next, rest);
  }

  /** Where the colon of the first member is, and what follows it. */
  lemma NameAndColon(s: bytes, items: Chain, rest: bytes)
    requires items != Nil && Pairs(s, items, rest) && !ParseString(Skip(s)).Wild?
    ensures items.name.Named? && ParseString(Skip(s)).Ok? && ParseString(Skip(s)).value == items.name.text
    ensures var c := Skip(ParseString(Skip(s)).rest);
      c != [] && c[0] == COLON && |c| < |s| && PairValue(c[1..], items, rest)
  {
    hide Pairs, Text, Colon, PairValue, ParseString, Skip, Lead;
    var k, c := FirstName(s, items, rest);
    TextStarts(s[k..], items.name.text, c);
    assert s[k] == s[k..][0];
    SkipIs(s, k);
    TextIs(Skip(s), items.name.text, c);
    var j := FirstColon(c, items, rest);
    SkipIs(c, j);
    assert Skip(c)[1..] == c[j + 1..];
  }

  lemma {:induction false} PairsIs(s: bytes, items: Chain, rest: bytes)
    requires items != Nil && !ParseMembers(s).Wild?
    ensures Pairs(s, items, rest) <==> ParseMembers(s) == Ok(items, rest)
    decreases |s|, 1
  {
    var o := ParseMember(s);
    ParseMembersIs(s, items, rest);
    if o.Ok? { ParseMemberIs(s, o.value.name, o.value.value, o.rest); }
    ParseMemberIs(s, [], Null, []);
    hide ParseMembers, ParseMember, ParseString, ParseValue, Skip, Pairs, PairValue, MoreParsedPairs;
    if ParseMembers(s) == Ok(items, rest) {
      var n := ParseString(Skip(s));
      var c := Skip(n.rest);
      MorePairsIs(o.rest, items.next, rest);
      StringShorter(Skip(s));
      PairValueIs(c[1..], items, o.rest, rest);
      PairsFrom(s, items, rest);
    }
    if Pairs(s, items, rest) {
      NameAndColon(s, items, rest);
      var c := Skip(ParseString(Skip(s)).rest);
      var r := ValueOfPair(c[1..], items, rest);
      ParseMemberIs(s, items.name.text, items.value, r);
      MorePairsIs(r, items.next, rest);
    }
  }

  lemma StringShorter(s: bytes)
    ensures ParseString(s).Ok? ==> |ParseString(s).rest| < |s|
  {
    hide Decode, Complete, ScanRest;
  }

  /** The name, the colon and what follows make a member. */
  lemma PairsFrom(s: bytes, items: Chain, rest: bytes)
    requires items != Nil && items.name.Named? && ParseString(Skip(s)).Ok?
    requires ParseString(Skip(s)).value == items.name.text
    requires var c := Skip(ParseString(Skip(s)).rest); c != [] && c[0] == COLON && PairValue(c[1..], items, rest)
    ensures Pairs(s, items, rest)
  {
    var n := ParseString(Skip(s));
    var k := SkipSplits(s);
    var j := SkipSplits(n.rest);
    TextIs(Skip(s), n.value, n.rest);
    hide Text, PairValue, ParseString, Skip;
    assert Skip(n.rest)[1..] == n.rest[j + 1..];
    assert Colon(n.rest, items, rest);
    assert Lead(s, k) && Text(s[k..], items.name.text, n.rest) && Colon(n.rest, items, rest);
  }

  lemma {:induction false} PairValueIs(s: bytes, items: Chain, r: bytes, rest: bytes)
    requires items != Nil && ParseValue(Skip(s)) == Ok(items.value, r) && MorePairs(r, items.next, rest)
    ensures PairValue(s, items, rest)
    decreases |s|, 1
  {
    var k := SkipSplits(s);
    hide ParseValue, Skip, Value, MorePairs;
    ValueIs(Skip(s), items.value, r);
    assert Lead(s, k) && Value(s[k..], items.value, r) && MorePairs(r, items.next, rest);
  }

  lemma {:induction false} ValueOfPair(s: bytes, items: Chain, rest: bytes) returns (r: bytes)
    requires items != Nil && PairValue(s, items, rest) && !ParseValue(Skip(s)).Wild?
    ensures |r| < |s| && ParseValue(Skip(s)) == Ok(items.value, r) && MorePairs(r, items.next, rest)
    decreases |s|, 1
  {
    hide ParseValue, Skip, Value, MorePairs, PairValue;
    var k;
    k, r := FirstValue(s, items, rest);
    ValueStarts(s[k..], items.value, r);
    SkipIs(s, k);
    ValueIs(Skip(s), items.value, r);
  }

  lemma {:induction false} MorePairsIs(r: bytes, items: Chain, rest: bytes)
    requires Skip(r) != [] && Skip(r)[0] == COMMA ==> !ParseMembers(Skip(r)[1..]).Wild?
    ensures MorePairs(r, items, rest) <==> MoreParsedPairs(r, items, rest)
    decreases |r|, 2
  {
    var j := SkipSplits(r);
    hide ParseMembers, Skip, Pairs;
    if MoreParsedPairs(r, items, rest) {
      if items != Nil {
        PairsIs(r[j + 1..], items, rest);
        assert Skip(r)[1..] == r[j + 1..];
      } else {
        assert r[j..] == [RBRACE] + rest;
      }
    }
    if MorePairs(r, items, rest) {
      var j': nat :| Lead(r, j') && j' < |r|
        && if items == Nil then r[j'..] == [RBRACE] + rest else r[j'] == COMMA && Pairs(r[j' + 1..], items, rest);
      assert r[j'] == r[j'..][0];
      SkipIs(r, j');
      if items != Nil {
        assert Skip(r)[1..] == r[j' + 1..];
        PairsIs(r[j' + 1..], items, rest);
      }
    }
  }

  lemma MembersSkip(s: bytes)
    ensures ParseMembers(Skip(s)) == ParseMembers(s)
  {
    SkipTwice(s);
    assert ParseMember(Skip(s)) == ParseMember(s) by { hide Skip, ParseString, ParseValue; }
    hide Skip, ParseMember;
  }

  lemma {:induction false} MembersIs(s: bytes, items: Chain, rest: bytes)
    requires s != [] && s[0] == LBRACE && !ParseObject(s).Wild?
    ensures Members(s[1..], items, rest) <==> ParseObject(s) == Ok(Object(items), rest)
    decreases |s| - 1, 2
  {
    var x := s[1..];
    var r := Skip(x);
    var k := SkipSplits(x);
    MembersSkip(x);
    MembersCons(x);
    ObjectCases(s);
    hide ParseObject, ParseMembers, Skip, Pairs;
    if r != [] && r[0] == RBRACE {
      if items == Nil {
        if rest == r[1..] { assert x[k..] == [RBRACE] + rest; }
        NoMembers(x, rest);
      } else if Pairs(x, items, rest) {
        SomeMembers(x, items, rest);
      }
    } else {
      if items != Nil { PairsIs(x, items, rest); }
      NoMembers(x, rest);
    }
  }

  lemma ObjectCases(s: bytes)
    requires s != [] && s[0] == LBRACE
    ensures var r := Skip(s[1..]);
      if r != [] && r[0] == RBRACE then ParseObject(s) == Ok(Object(Nil), r[1..])
      else match ParseMembers(r)
        case Ok(items, rest) => ParseObject(s) == Ok(Object(items), rest)
        case Fail => ParseObject(s) == Fail
        case Wild => ParseObject(s) == Wild
  {
    hide ParseMembers, Skip;
  }

  lemma NoMembers(x: bytes, rest: bytes)
    ensures (exists k: nat :: Lead(x, k) && x[k..] == [RBRACE] + rest) ==>
      Skip(x) != [] && Skip(x)[0] == RBRACE && rest == Skip(x)[1..]
  {
    if k: nat :| Lead(x, k) && x[k..] == [RBRACE] + rest {
      assert x[k] == x[k..][0];
      SkipIs(x, k);
    }
  }

  lemma SomeMembers(x: bytes, items: Chain, rest: bytes)
    requires items != Nil && Pairs(x, items, rest)
    ensures Skip(x) != [] && Skip(x)[0] != RBRACE
  {
    hide Text, Colon, Pairs;
    var k, c := FirstName(x, items, rest);
    TextStarts(x[k..], items.name.text, c);
    assert x[k] == x[k..][0];
    SkipIs(x, k);
  }

  // ----- the whole text -----

  /** cJSON_Parse: a value between blanks, and nothing else. */
  lemma ParseIs(s: bytes, t: Json)
    requires !Parse(s).Wild?
    ensures Parse(s) == Ok(t, []) <==>
      exists k: nat, rest: bytes :: Lead(s, k) && Value(s[k..], t, rest) && Lead(rest, |rest|)
  {
    var k := SkipSplits(s);
    hide ParseValue, Value;
    if Parse(s) == Ok(t, []) {
      var rest := ParseValue(Skip(s)).rest;
      ValueIs(Skip(s), t, rest);
      var j := SkipSplits(rest);
      assert Lead(s, k) && Value(s[k..], t, rest) && Lead(rest, |rest|);
    }
    if k': nat, rest: bytes :| Lead(s, k') && Value(s[k'..], t, rest) && Lead(rest, |rest|) {
      ValueStarts(s[k'..], t, rest);
      SkipIs(s, k');
      ValueIs(Skip(s), t, rest);
      SkipIs(rest, |rest|);
    }
  }
}
