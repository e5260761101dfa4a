/** How a printed tree is laid out: the fixed words, the separators, and where line ends and tabs go. */
module Layout {
  import opened Bytes
  import opened Spelling
  import opened Literal
  import opened Json

  /** The parts with the separator between them. */
  function Joined(parts: seq<bytes>, separator: bytes): bytes {
    if parts == [] then []
    else if |parts| == 1 then parts[0]
    else parts[0] + (separator + Joined(parts[1..], separator))
  }

  /** The layout of a tree inside `depth` containers. Formatted, elements are separated by a comma and a blank;
      every member stands on a line of its own, one tab further in than its object, with a tab behind its
      colon; and the closing brace stands on a line of its own. */
  function Laid(t: Json, depth: nat, fmt: bool): bytes
    requires Printable(t)
    decreases t, 0
  {
    match t
    case Null => Ascii("null")
    case False => Ascii("false")
    case True => Ascii("true")
    case Number(d) => if d.mant == 0 then Ascii("0") else IntText(d.mant)
    case String(s) => Quoted(s)
    case Array(items) =>
      Ascii("[") + Joined(Elements(items, depth + 1, fmt), if fmt then Ascii(", ") else Ascii(",")) + Ascii("]")
    case Object(Nil) =>
      if fmt then Ascii("{\n") + Tabs(if depth == 0 then 0 else depth - 1) + Ascii("}") else Ascii("{}")
    case Object(items) =>
      var members := Members(items, depth + 1, fmt);
      if fmt then Ascii("{\n") + Joined(members, Ascii(",\n")) + Ascii("\n") + Tabs(depth) + Ascii("}")
      else Ascii("{") + Joined(members, Ascii(",")) + Ascii("}")
  }

  function Elements(c: Chain, depth: nat, fmt: bool): seq<bytes>
    requires PrintableItems(c, false)
    decreases c
  {
    match c
    case Nil => []
    case Cons(_, v, next) => [Laid(v, depth, fmt)] + Elements(next, depth, fmt)
  }

  function Members(c: Chain, depth: nat, fmt: bool): seq<bytes>
    requires PrintableItems(c, true)
    decreases c
  {
    match c
    case Nil => []
    case Cons(n, v, next) => [MemberLine(n.text, Laid(v, depth, fmt), depth, fmt)] + Members(next, depth, fmt)
  }

  function MemberLine(name: bytes, value: bytes, depth: nat, fmt: bool): bytes {
    if fmt then Tabs(depth) + Quoted(name) + Ascii(":\t") + value else Quoted(name) + Ascii(":") + value
  }

  lemma Words()
    ensures Ascii("null") == NULL_TEXT && Ascii("false") == FALSE_TEXT && Ascii("true") == TRUE_TEXT
    ensures Ascii("[") == [LBRACKET] && Ascii("]") == [RBRACKET] && Ascii("{") == [LBRACE] && Ascii("}") == [RBRACE]
    ensures Ascii(", ") == [COMMA, SPACE] && Ascii(",") == [COMMA] && Ascii(",\n") == [COMMA, NEWLINE]
    ensures Ascii("{\n") == [LBRACE, NEWLINE] && Ascii("{}") == [LBRACE, RBRACE] && Ascii("\n") == [NEWLINE]
    ensures Ascii(":\t") == [COLON, TAB] && Ascii(":") == [COLON] && Ascii("0") == [DIGIT_0]
  {
  }

  /** The printers lay every tree out like that. */
  lemma {:induction false} PrintIsLaid(t: Json, depth: nat, fmt: bool)
    requires Printable(t)
    ensures Print(t, depth, fmt) == Laid(t, depth, fmt)
    decreases t, 0
  {
    Words();
    hide Ascii, Quoted, IntText, Tabs, Joined;
    match t
    case Array(items) =>
      ItemsAreLaid(items, depth + 1, fmt);
    case Object(items) =>
      if items != Nil {
        MembersAreLaid(items, depth + 1, fmt);
        ObjectIsLaid(items, depth, fmt);
      }
    case _ =>
  }

  lemma ObjectIsLaid(items: Chain, depth: nat, fmt: bool)
    requires items != Nil && PrintableItems(items, true)
    requires PrintMembers(items, depth + 1, fmt)
      == Joined(Members(items, depth + 1, fmt), Between(fmt)) + Behind(fmt)
    ensures Print(Object(items), depth, fmt) == Laid(Object(items), depth, fmt)
  {
    Words();
    hide Ascii, Quoted, IntText, Tabs, Joined, PrintMembers, Members;
    if !fmt {
      var j := Joined(Members(items, depth + 1, false), Ascii(","));
      assert j + [] == j;
      assert [LBRACE] + j + [] + [RBRACE] == [LBRACE] + j + [RBRACE];
    } else {
      var j := Joined(Members(items, depth + 1, true), Ascii(",\n"));
      assert [LBRACE, NEWLINE] + (j + [NEWLINE]) + Tabs(depth) == [LBRACE, NEWLINE] + j + [NEWLINE] + Tabs(depth);
    }
  }

  lemma {:induction false} ItemsAreLaid(c: Chain, depth: nat, fmt: bool)
    requires PrintableItems(c, false)
    ensures PrintItems(c, depth, fmt) == Joined(Elements(c, depth, fmt), if fmt then Ascii(", ") else Ascii(","))
    decreases c, 1
  {
    Words();
    hide Ascii, Print, Laid;
    match c
    case Nil =>
    case Cons(_, v, next) =>
      PrintIsLaid(v, depth, fmt);
      ItemsAreLaid(next, depth, fmt);
      var x := Laid(v, depth, fmt);
      assert ([x] + Elements(next, depth, fmt))[1..] == Elements(next, depth, fmt);
      if next == Nil { assert x + [] + [] == x; }
  }

  lemma MemberIsLaid(n: Name, v: Json, last: bool, depth: nat, fmt: bool)
    requires n.Named? && Printable(v)
    ensures PrintMember(n, v, last, depth, fmt)
         == MemberLine(n.text, Print(v, depth, fmt), depth, fmt) + MemberSeparator(last, fmt)
  {
    Words();
    hide Ascii, Print, Quoted, Tabs;
    var q, x := Quoted(n.text), Print(v, depth, fmt);
    if !fmt { assert [] + q + [COLON] + x == q + [COLON] + x; }
  }

  /** The separator of members, and what the last one has instead. */
  function Between(fmt: bool): bytes {
    if fmt then Ascii(",\n") else Ascii(",")
  }

  function Behind(fmt: bool): bytes {
    if fmt then [NEWLINE] else []
  }

  lemma SeparatorIs(last: bool, fmt: bool)
    ensures MemberSeparator(last, fmt) == if last then Behind(fmt) else Between(fmt)
  {
    Words();
    hide Ascii;
    assert [] + [NEWLINE] == [NEWLINE] && [COMMA] + [NEWLINE] == [COMMA, NEWLINE] && [COMMA] + [] == [COMMA];
  }

  lemma {:induction false} MembersAreLaid(c: Chain, depth: nat, fmt: bool)
    requires PrintableItems(c, true) && c != Nil
    ensures PrintMembers(c, depth, fmt) == Joined(Members(c, depth, fmt), Between(fmt)) + Behind(fmt)
    decreases c, 1
  {
    match c
    case Cons(n, v, next) =>
      PrintIsLaid(v, depth, fmt);
      MemberIsLaid(n, v, next.Nil?, depth, fmt);
      SeparatorIs(next.Nil?, fmt);
      hide Ascii, Print, Laid, PrintMember, MemberLine, MemberSeparator, Between, Behind;
      var x := MemberLine(n.text, Laid(v, depth, fmt), depth, fmt);
      if next == Nil {
        assert x + Behind(fmt) + [] == x + Behind(fmt);
      } else {
        MembersAreLaid(next, depth, fmt);
        var more := Members(next, depth, fmt);
        assert ([x] + more)[1..] == more;
        NotEmpty(next, depth, fmt);
        Regroup(x, Between(fmt), Joined(more, Between(fmt)), Behind(fmt));
      }
  }

  lemma NotEmpty(c: Chain, depth: nat, fmt: bool)
    requires PrintableItems(c, true) && c != Nil
    ensures |Members(c, depth, fmt)| > 0
  {
  }

  lemma Regroup(a: bytes, b: bytes, c: bytes, d: bytes)
    ensures (a + b) + (c + d) == (a + (b + c)) + d
  {
  }
}
