/** The recursive-descent parser on the heap: it agrees with the parsing functions, whatever allocations
    fail, and a failed parse leaves the heap as it was. */
module Parser {
  import opened Bytes
  import opened Literal
  import opened Json
  import opened CHeap
  import opened Items
  import opened Growing
  import opened Ownership
  import opened ParserScan

  // ----- strings -----

  /** parse_string: on success the item is a string item with a new valuestring. */
  method ReadString(h: Heap, item: Ptr, text: bytes, i: nat, ghost n: Node)
    returns (ok: bool, end: nat, ghost n': Node)
    requires h.mem.Valid() && item == n.p && NodeFits(h.mem, n) && Sep(n) && n.vs == NULL
    requires NulFree(text) && i <= |text| && !ParseString(text[i..]).Wild?
    modifies h
    ensures h.mem.Valid()
    ensures !ok ==> h.mem == old(h.mem) && (ParseString(text[i..]).Fail? || h.failed)
    ensures ok ==> h.failed == old(h.failed) && Filled(old(h.mem), h.mem, n, n')
    ensures ok ==> n'.vs != NULL && n' == n.(vs := n'.vs) && NameAt(h.mem, n.nm) == NameAt(old(h.mem), n.nm)
    ensures ok ==> i < end <= |text| && ParseString(text[i..]) == Ok(TextAt(h.mem, n'.vs), text[end..])
    ensures ok ==> item in h.mem.cells && h.mem.cells[item].kind == KString
  {
    hide NodeFits, Sep, Foot, CString, Complete, Decode, ScanLength, ScanRest, Grown, Filled, DenoteList, AllProper;
    ghost var m := h.mem;
    n' := n;
    end := i;
    if i < |text| { Next(text, i); }
    if At(text, i) != QUOTE { return false, end, n; }
    var len := MeasureLiteral(text, i + 1);
    var out := h.Malloc(len + 1);
    if out == NULL { return false, end, n; }
    ghost var junk := h.mem.bufs[out];
    end := DecodeLiteral(h, out, text, i + 1);
    ghost var m1 := h.mem;
    WithBufferTwice(m, out, junk, h.mem.bufs[out]);
    BufferAdded(m, out, h.mem.bufs[out]);
    NodeLive(m, n);
    GrownCells(m, m1, {out}, item);
    SetString(m, m1, n, out, false);
    h.SetCell(item, h.mem.cells[item].(valuestring := out));
    n' := n.(vs := out);
    ghost var m2 := h.mem;
    FilledLinks(m, m2, n, n');
    SetScalars(m2, n', m2.cells[item].(kind := KString));
    h.SetCell(item, h.mem.cells[item].(kind := KString));
    FilledTwice(m, m2, h.mem, n, n', n');
    ok := true;
  }

  /** What a failed parse leaves: a partial tree in place of n. */
  ghost predicate Partial(m0: Store, m: Store, n: Node, built: Node) {
    Filled(m0, m, n, built) && built.nm == n.nm && NameAt(m, n.nm) == NameAt(m0, n.nm)
  }

  // ----- values -----

  /** The item gets its kind and its number, as an int and as a double. */
  method SetType(h: Heap, item: Ptr, kind: Kind, whole: int, num: Decimal, ghost n: Node)
    requires h.mem.Valid() && item == n.p && NodeFits(h.mem, n) && Sep(n)
    modifies h`mem
    ensures h.mem.Valid() && Filled(old(h.mem), h.mem, n, n) && NameAt(h.mem, n.nm) == NameAt(old(h.mem), n.nm)
    ensures item in h.mem.cells && h.mem.cells[item].kind == kind
    ensures h.mem.cells[item].valueint == whole && h.mem.cells[item].valuedouble == num
  {
    hide NodeFits, Sep, Foot, Filled, DenoteList, AllProper;
    NodeLive(h.mem, n);
    SetScalars(h.mem, n, h.mem.cells[item].(kind := kind, valueint := whole, valuedouble := num));
    h.SetCell(item, h.mem.cells[item].(kind := kind, valueint := whole, valuedouble := num));
  }

  /** The value of an item without children. */
  lemma LeafDenotes(m: Store, n: Node)
    requires NodeFits(m, n) && n.kids == []
    ensures n.p in m.cells
    ensures Denote(m, n) ==
      match m.cells[n.p].kind
      case KNull => Null
      case KFalse => False
      case KTrue => True
      case KNumber => Number(m.cells[n.p].valuedouble)
      case KString => String(TextAt(m, n.vs))
      case KArray => Array(Nil)
      case KObject => Object(Nil)
    ensures Proper(m, n) == ((m.cells[n.p].kind == KString ==> n.vs != NULL) && IntFits(m.cells[n.p]))
  {
  }

  /** Did a value get parsed into the item n, up to end? */
  ghost predicate ValueRead(m: Store, text: bytes, i: nat, n: Node, end: nat) {
    && i < end <= |text| && NodeFits(m, n) && Proper(m, n)
    && ParseValue(text[i..]) == Ok(Denote(m, n), text[end..])
  }

  /** parse_value */
  method ReadValue(h: Heap, item: Ptr, text: bytes, i: nat, ghost n: Node)
    returns (ok: bool, end: nat, ghost n': Node)
    requires h.mem.Valid() && item == n.p && NodeFits(h.mem, n) && Sep(n) && n.vs == NULL && n.kids == []
    requires NulFree(text) && i <= |text| && !ParseValue(text[i..]).Wild?
    modifies h
    ensures Partial(old(h.mem), h.mem, n, n')
    ensures ok ==> h.failed == old(h.failed) && ValueRead(h.mem, text, i, n', end)
    ensures !ok ==> ParseValue(text[i..]).Fail? || h.failed
    decreases |text| - i, 0
  {
    hide NodeFits, Sep, Foot, CString, Grown, Filled, DenoteList, AllProper;
    hide ParseString, LexNumber, ParseArray, ParseObject, TextAt, NameAt, Denote, Proper;
    ghost var m := h.mem;
    ok, end, n' := false, i, n;
    FilledSelf(m, n);
    ValueCases(text[i..]);
    if i < |text| { Next(text, i); }
    if NULL_TEXT <= text[i..] {
      SetType(h, item, KNull, h.mem.cells[item].valueint, h.mem.cells[item].valuedouble, n);
      ok, end := true, i + 4;
      Later(text, i, 4);
    } else if FALSE_TEXT <= text[i..] {
      SetType(h, item, KFalse, h.mem.cells[item].valueint, h.mem.cells[item].valuedouble, n);
      ok, end := true, i + 5;
      Later(text, i, 5);
    } else if TRUE_TEXT <= text[i..] {
      SetType(h, item, KTrue, 1, h.mem.cells[item].valuedouble, n);
      ok, end := true, i + 4;
      Later(text, i, 4);
    } else if At(text, i) == QUOTE {
      ok, end, n' := ReadString(h, item, text, i, n);
      if !ok { n' := n; }
    } else if At(text, i) == MINUS || Digit(At(text, i)) {
      var num, whole;
      num, whole, end := ReadNumber(text, i);
      SetType(h, item, KNumber, whole, num, n);
      ok := true;
    } else if At(text, i) == LBRACKET {
      ok, end, n' := ReadArray(h, item, text, i, n);
      return;
    } else if At(text, i) == LBRACE {
      ok, end, n' := ReadObject(h, item, text, i, n);
      return;
    }
    if ok {
      FilledLinks(m, h.mem, n, n');
      LeafDenotes(h.mem, n');
    }
  }

  /** parse_value, case by case. */
  lemma ValueCases(s: bytes)
    ensures ParseValue(s) ==
      if NULL_TEXT <= s then Ok(Null, s[4..])
      else if FALSE_TEXT <= s then Ok(False, s[5..])
      else if TRUE_TEXT <= s then Ok(True, s[4..])
      else if s == [] then Fail
      else if s[0] == QUOTE then
        (match ParseString(s) case Ok(x, rest) => Ok(String(x), rest) case Fail => Fail case Wild => Wild)
      else if s[0] == MINUS || Digit(s[0]) then Ok(Number(LexNumber(s).num), LexNumber(s).rest)
      else if s[0] == LBRACKET then ParseArray(s)
      else if s[0] == LBRACE then ParseObject(s)
      else Fail
  {
    hide ParseString, LexNumber, ParseArray, ParseObject;
  }

  // ----- elements -----

  /** The tree built grew into built', its own fields the same; not necessarily completely. */
  ghost predicate Extended(m: Store, m': Store, built: Node, built': Node) {
    && Filled(m, m', built, built') && built'.nm == built.nm && built'.vs == built.vs
    && NameAt(m', built.nm) == NameAt(m, built.nm)
    && built.p in m.cells && built.p in m'.cells && m'.cells[built.p].kind == m.cells[built.p].kind
  }

  /** A tree with complete children, and their values. */
  ghost predicate Kids(m: Store, built: Node, c: Chain) {
    && NodeFits(m, built) && Sep(built) && AllFit(m, built.kids)
    && AllProper(m, built.kids) && DenoteList(m, built.kids) == c
  }

  /** Linking a zeroed item as last child. */
  method AddItem(h: Heap, par: Ptr, last: Ptr, ghost built: Node, ghost acc: Chain) returns (c: Ptr, ghost built': Node)
    requires h.mem.Valid() && par == built.p && last == LastKid(built) && Kids(h.mem, built, acc)
    modifies h
    ensures h.mem.Valid()
    ensures c == NULL ==> h.mem == old(h.mem) && h.failed
    ensures c != NULL ==> h.failed == old(h.failed) && Extended(old(h.mem), h.mem, built, built')
    ensures c != NULL ==> var leaf := Node(c, NULL, NULL, []);
      && built' == WithKid(built, leaf) && NodeFits(h.mem, built') && Sep(built')
      && NodeFits(h.mem, leaf) && Sep(leaf) && AllFit(h.mem, built.kids)
      && AllProper(h.mem, built.kids) && DenoteList(h.mem, built.kids) == acc
  {
    hide NodeFits, Sep, Foot, Filled, DenoteList, AllProper, NameAt, TextAt, Attached, AllFit, Grown;
    ghost var m := h.mem;
    built' := built;
    c := h.NewItem();
    if c == NULL { return; }
    ghost var leaf := Node(c, NULL, NULL, []);
    NewLeaf(m, c);
    DetachedFacts(m, h.mem, leaf);
    ghost var m1 := h.mem;
    AddKid(m, m1, built, leaf);
    LinkChild(h, par, last, c);
    built' := WithKid(built, leaf);
    FilledLinks(m, h.mem, built, built');
    AllFitInit(h.mem, built.kids, leaf);
    AllFitSnoc(h.mem, built.kids, leaf);
    LeafProper(m1, c);
    DenoteSnoc(h.mem, built.kids, leaf);
    AppendInjective(DenoteList(h.mem, built.kids), acc, Cons(NameAt(h.mem, NULL), Denote(h.mem, leaf), Nil),
                    Cons(NameAt(m1, NULL), Denote(m1, leaf), Nil));
  }

  lemma LeafProper(m: Store, c: Ptr)
    requires NodeFits(m, Node(c, NULL, NULL, [])) && c in m.cells && m.cells[c] == ZERO_CELL
    ensures Proper(m, Node(c, NULL, NULL, []))
  {
  }

  /** The last child was parsed: the list of children is one longer. */
  lemma ElementDone(m0: Store, m: Store, m': Store, built: Node, par: Node, leaf: Node, leaf': Node, acc: Chain)
    requires Kids(m0, built, acc) && Extended(m0, m, built, par) && par == WithKid(built, leaf)
    requires NodeFits(m, par) && Sep(par) && AllFit(m, built.kids)
    requires AllProper(m, built.kids) && DenoteList(m, built.kids) == acc
    requires Filled(m, m', leaf, leaf')
    ensures Extended(m0, m', built, WithKid(built, leaf'))
    ensures NodeFits(m', leaf') && (Proper(m', leaf') ==>
      Kids(m', WithKid(built, leaf'), Append(acc, Cons(NameAt(m', leaf'.nm), Denote(m', leaf'), Nil))))
  {
    hide NodeFits, Sep, Foot, Filled, DenoteList, AllProper, NameAt, TextAt, AllFit, Denote, Proper;
    FillLast(m, m', par, built.kids, leaf, leaf');
    var par' := WithKid(built, leaf');
    assert par.(kids := built.kids + [leaf']) == par';
    FilledTwice(m0, m, m', built, par, par');
    FilledLinks(m0, m', built, par');
    FilledLinks(m, m', leaf, leaf');
  }

  /** A new child and the value parsed into it. */
  method ReadElement(h: Heap, par: Ptr, last: Ptr, text: bytes, i: nat, ghost built: Node, ghost acc: Chain)
    returns (ok: bool, end: nat, c: Ptr, ghost built': Node)
    requires h.mem.Valid() && par == built.p && last == LastKid(built) && Kids(h.mem, built, acc)
    requires NulFree(text) && i <= |text| && !ParseValue(text[i..]).Wild?
    modifies h
    ensures h.mem.Valid() && Extended(old(h.mem), h.mem, built, built')
    ensures !ok ==> ParseValue(text[i..]).Fail? || h.failed
    ensures ok ==> h.failed == old(h.failed) && i < end <= |text| && c == LastKid(built')
    ensures ok ==> ParseValue(text[i..]).Ok? && ParseValue(text[i..]).rest == text[end..]
    ensures ok ==> Kids(h.mem, built', Append(acc, Cons(NoName, ParseValue(text[i..]).value, Nil)))
    decreases |text| - i, 1
  {
    hide NodeFits, Sep, Foot, Filled, DenoteList, AllProper, NameAt, TextAt, AllFit, Denote, Proper, ParseValue, Kids;
    hide Extended;
    ghost var m := h.mem;
    ok, end, built' := false, i, built;
    ghost var par1;
    c, par1 := AddItem(h, par, last, built, acc);
    if c == NULL {
      ExtendedSelf(m, built, acc);
      return;
    }
    ghost var m1 := h.mem;
    ghost var leaf, leaf' := Node(c, NULL, NULL, []), built;
    ok, end, leaf' := ReadValue(h, c, text, i, leaf);
    built' := WithKid(built, leaf');
    ElementDone(m, m1, h.mem, built, par1, leaf, leaf', acc);
    FilledLinks(m1, h.mem, leaf, leaf');
    assert LastKid(built') == c;
    NameNull(h.mem);
  }

  lemma NameNull(m: Store)
    ensures NameAt(m, NULL) == NoName
  {
  }

  lemma ExtendedSelf(m: Store, built: Node, acc: Chain)
    requires m.Valid() && Kids(m, built, acc)
    ensures Extended(m, m, built, built)
  {
    hide NodeFits, Sep, Foot;
    FilledSelf(m, built);
    NodeLive(m, built);
  }

  // ----- arrays -----

  /** The outcome for a list of elements read so far, with the text behind the last one and its blanks. */
  function ContinueItems(acc: Chain, r: bytes): Outcome<Chain> {
    if r == [] then Fail
    else if r[0] == COMMA then
      match ParseItems(r[1..])
      case Ok(items, end) => Ok(Append(acc, items), end)
      case Fail => Fail
      case Wild => Wild
    else if r[0] == RBRACKET then Ok(acc, r[1..])
    else Fail
  }

  /** The outcome once the next element was read. */
  function AfterItem(acc: Chain, o: Outcome<Json>): Outcome<Chain> {
    if o.Ok? then ContinueItems(Append(acc, Cons(NoName, o.value, Nil)), Skip(o.rest))
    else if o.Fail? then Fail
    else Wild
  }

  lemma AfterItemCases(acc: Chain, o: Outcome<Json>)
    ensures o.Wild? <==> AfterItem(acc, o).Wild? && !o.Ok?
    ensures o.Fail? ==> AfterItem(acc, o).Fail?
    ensures o.Ok? ==> AfterItem(acc, o) == ContinueItems(Append(acc, Cons(NoName, o.value, Nil)), Skip(o.rest))
  {
  }

  /** ParseItems reads a value, then continues. */
  lemma ItemsUnfold(s: bytes)
    ensures ParseItems(s) == AfterItem(Nil, ParseValue(Skip(s)))
  {
    hide ParseValue, Skip;
    var o := ParseValue(Skip(s));
    if o.Ok? {
      var one := Cons(NoName, o.value, Nil);
      assert Append(Nil, one) == one;
      assert forall items :: Append(one, items) == Cons(NoName, o.value, Append(Nil, items));
    }
  }

  /** After a comma, reading one more value continues with a longer list. */
  lemma ItemsNext(acc: Chain, r: bytes)
    requires r != [] && r[0] == COMMA
    ensures ContinueItems(acc, r) == AfterItem(acc, ParseValue(Skip(r[1..])))
  {
    hide ParseValue, Skip;
    var o := ParseValue(Skip(r[1..]));
    if o.Ok? {
      var r' := Skip(o.rest);
      if r' != [] && r'[0] == COMMA && ParseItems(r'[1..]).Ok? {
        AppendAssociative(acc, Cons(NoName, o.value, Nil), ParseItems(r'[1..]).value);
      }
    }
  }

  /** The state of parse_array and parse_object: n has become built, whose children so far are acc. */
  ghost predicate Building(m0: Store, m: Store, n: Node, built: Node, kind: Kind, acc: Chain) {
    && Filled(m0, m, n, built) && built.nm == n.nm && built.vs == NULL && NameAt(m, n.nm) == NameAt(m0, n.nm)
    && built.p in m.cells && m.cells[built.p].kind == kind && Kids(m, built, acc)
  }

  lemma BuildingStep(m0: Store, m: Store, m': Store, n: Node, built: Node, built': Node, kind: Kind, acc: Chain,
                     acc': Chain)
    requires Building(m0, m, n, built, kind, acc) && Extended(m, m', built, built')
    ensures Partial(m0, m', n, built')
    ensures Kids(m', built', acc') ==> Building(m0, m', n, built', kind, acc')
  {
    hide Filled, Kids, NameAt;
    FilledTwice(m0, m, m', n, built, built');
    FilledLinks(m, m', built, built');
  }

  lemma BuildingFacts(m0: Store, m: Store, n: Node, built: Node, kind: Kind, acc: Chain)
    requires Building(m0, m, n, built, kind, acc)
    ensures m.Valid() && NodeFits(m, built) && Sep(built) && Kids(m, built, acc) && built.p == n.p
    ensures Filled(m0, m, n, built) && built.nm == n.nm && built.vs == NULL && NameAt(m, n.nm) == NameAt(m0, n.nm)
  {
    hide NodeFits, Sep, Foot, Kids, NameAt;
  }

  lemma BuildingDone(m0: Store, m: Store, n: Node, built: Node, kind: Kind, acc: Chain)
    requires Building(m0, m, n, built, kind, acc) && (kind == KArray || kind == KObject)
    ensures NodeFits(m, built) && Proper(m, built)
    ensures Denote(m, built) == if kind == KArray then Array(acc) else Object(acc)
  {
    hide Sep, Foot, NameAt, Filled, DenoteList;
  }

  /** The container's type set on a zeroed or renamed item. */
  method StartContainer(h: Heap, item: Ptr, kind: Kind, ghost n: Node)
    requires h.mem.Valid() && item == n.p && NodeFits(h.mem, n) && Sep(n) && n.vs == NULL && n.kids == []
    modifies h`mem
    ensures h.mem.Valid() && Building(old(h.mem), h.mem, n, n, kind, Nil)
  {
    hide NodeFits, Sep, Foot, Filled, NameAt;
    NodeLive(h.mem, n);
    SetType(h, item, kind, h.mem.cells[item].valueint, h.mem.cells[item].valuedouble, n);
    FilledLinks(old(h.mem), h.mem, n, n);
    NoKids(h.mem);
  }

  /** Blanks, one more element, blanks. */
  method ReadItem(h: Heap, item: Ptr, last: Ptr, text: bytes, i: nat, ghost m0: Store, ghost n: Node, ghost built: Node,
                  ghost acc: Chain)
    returns (ok: bool, end: nat, child: Ptr, ghost built': Node, ghost acc': Chain)
    requires Building(m0, h.mem, n, built, KArray, acc) && item == built.p && last == LastKid(built)
    requires NulFree(text) && i <= |text| && !ParseValue(Skip(text[i..])).Wild?
    modifies h
    ensures h.mem.Valid() && Partial(m0, h.mem, n, built')
    ensures !ok ==> ParseValue(Skip(text[i..])).Fail? || h.failed
    ensures ok ==> h.failed == old(h.failed) && Building(m0, h.mem, n, built', KArray, acc')
    ensures ok ==> child == LastKid(built') && i < end <= |text|
    ensures ok ==> var o := ParseValue(Skip(text[i..]));
      o.Ok? && acc' == Append(acc, Cons(NoName, o.value, Nil)) && text[end..] == Skip(o.rest)
    decreases |text| - i, 2
  {
    hide NodeFits, Sep, Foot, Filled, NameAt, Building, Extended, Kids, ParseValue, ContinueItems, Skip, Partial,
      Append;
    ghost var m := h.mem;
    BuildingFacts(m0, m, n, built, KArray, acc);
    ghost var o := ParseValue(Skip(text[i..]));
    var start := SkipFrom(text, i);
    ok, end, child, built' := ReadElement(h, item, last, text, start, built, acc);
    if !ok {
      acc' := acc;
      BuildingStep(m0, m, h.mem, n, built, built', KArray, acc, acc');
      return;
    }
    acc' := Append(acc, Cons(NoName, o.value, Nil));
    BuildingStep(m0, m, h.mem, n, built, built', KArray, acc, acc');
    end := SkipFrom(text, end);
  }

  /** The elements of an array up to and including its closing bracket. */
  method ReadItems(h: Heap, item: Ptr, text: bytes, i: nat, ghost m0: Store, ghost n: Node)
    returns (ok: bool, end: nat, ghost built: Node, ghost acc: Chain)
    requires Building(m0, h.mem, n, n, KArray, Nil) && item == n.p && n.kids == []
    requires NulFree(text) && i <= |text| && !ParseItems(text[i..]).Wild?
    modifies h
    ensures h.mem.Valid() && Partial(m0, h.mem, n, built)
    ensures !ok ==> ParseItems(text[i..]).Fail? || h.failed
    ensures ok ==> h.failed == old(h.failed) && Building(m0, h.mem, n, built, KArray, acc)
    ensures ok ==> i < end <= |text| && ParseItems(text[i..]) == Ok(acc, text[end..])
    decreases |text| - i, 3
  {
    hide NodeFits, Sep, Foot, Filled, NameAt, Building, ParseValue, ParseItems, ContinueItems, AfterItem, Skip;
    ghost var goal := ParseItems(text[i..]);
    ItemsUnfold(text[i..]);
    AfterItemCases(Nil, ParseValue(Skip(text[i..])));
    var child;
    ok, end, child, built, acc := ReadItem(h, item, NULL, text, i, m0, n, n, Nil);
    if !ok { return; }
    while At(text, end) == COMMA
      invariant i < end <= |text| && h.failed == old(h.failed) && child == LastKid(built)
      invariant Building(m0, h.mem, n, built, KArray, acc) && goal == ContinueItems(acc, text[end..])
      decreases |text| - end
    {
      Next(text, end);
      ItemsNext(acc, text[end..]);
      AfterItemCases(acc, ParseValue(Skip(text[end + 1..])));
      BuildingFacts(m0, h.mem, n, built, KArray, acc);
      ok, end, child, built, acc := ReadItem(h, item, child, text, end + 1, m0, n, built, acc);
      if !ok { return; }
    }
    BuildingFacts(m0, h.mem, n, built, KArray, acc);
    ContinueEnd(acc, text, end);
    ok := At(text, end) == RBRACKET;
    if ok { end := end + 1; }
  }

  /** parse_array */
  method ReadArray(h: Heap, item: Ptr, text: bytes, i: nat, ghost n: Node)
    returns (ok: bool, end: nat, ghost n': Node)
    requires h.mem.Valid() && item == n.p && NodeFits(h.mem, n) && Sep(n) && n.vs == NULL && n.kids == []
    requires NulFree(text) && i < |text| && text[i] == LBRACKET && !ParseArray(text[i..]).Wild?
    requires ParseValue(text[i..]) == ParseArray(text[i..])
    modifies h
    ensures Partial(old(h.mem), h.mem, n, n')
    ensures ok ==> h.failed == old(h.failed) && ValueRead(h.mem, text, i, n', end)
    ensures !ok ==> ParseArray(text[i..]).Fail? || h.failed
    decreases |text| - i - 1, 4
  {
    hide NodeFits, Sep, Foot, Filled, NameAt, Building, Kids, ParseValue, ParseItems, Denote, Proper, Skip;
    ghost var m := h.mem;
    StartContainer(h, item, KArray, n);
    BuildingFacts(m, h.mem, n, n, KArray, Nil);
    ok, n' := true, n;
    Next(text, i);
    end := SkipFrom(text, i + 1);
    if end < |text| { Next(text, end); }
    ghost var acc := Nil;
    if At(text, end) == RBRACKET {
      end := end + 1;
    } else {
      ok, end, n', acc := ReadItems(h, item, text, end, m, n);
    }
    if ok {
      BuildingFacts(m, h.mem, n, n', KArray, acc);
      BuildingDone(m, h.mem, n, n', KArray, acc);
    }
  }

  lemma ContinueEnd(acc: Chain, text: bytes, end: nat)
    requires end <= |text| && At(text, end) != COMMA
    ensures ContinueItems(acc, text[end..]) == if At(text, end) == RBRACKET then Ok(acc, text[end + 1..]) else Fail
  {
    if end < |text| { Next(text, end); }
  }

  // ----- objects -----

  /** A key with the blanks around it, moved to the name of the new member. */
  method ReadKey(h: Heap, child: Ptr, text: bytes, i: nat, ghost leaf: Node)
    returns (ok: bool, end: nat, ghost leaf': Node)
    requires h.mem.Valid() && child == leaf.p && NodeFits(h.mem, leaf) && Sep(leaf)
    requires leaf.vs == NULL && leaf.nm == NULL && leaf.kids == []
    requires NulFree(text) && i <= |text| && !ParseString(Skip(text[i..])).Wild?
    modifies h
    ensures h.mem.Valid() && Filled(old(h.mem), h.mem, leaf, leaf') && leaf'.kids == [] && leaf'.vs == NULL
    ensures !ok ==> ParseString(Skip(text[i..])).Fail? || h.failed
    ensures ok ==> h.failed == old(h.failed) && i < end <= |text|
    ensures ok ==> var o := ParseString(Skip(text[i..]));
      o.Ok? && text[end..] == Skip(o.rest) && NameAt(h.mem, leaf'.nm) == Named(o.value)
  {
    hide NodeFits, Sep, Foot, Filled, TextAt, ParseString, Skip;
    ghost var m := h.mem;
    var start := SkipFrom(text, i);
    ok, end, leaf' := ReadString(h, child, text, start, leaf);
    if !ok {
      leaf' := leaf;
      FilledSelf(m, leaf);
      return;
    }
    end := SkipFrom(text, end);
    ghost var m1, vs := h.mem, leaf'.vs;
    FilledLinks(m, m1, leaf, leaf');
    Fields(m1, leaf');
    MoveName(m1, leaf');
    h.SetCell(child, h.mem.cells[child].(name := h.mem.cells[child].valuestring, valuestring := NULL));
    FilledTwice(m, m1, h.mem, leaf, leaf', leaf'.(nm := vs, vs := NULL));
    leaf' := leaf'.(nm := vs, vs := NULL);
    FilledLinks(m, h.mem, leaf, leaf');
  }

  /** A key, a colon and a value, parsed into a new member. */
  method ReadPair(h: Heap, child: Ptr, text: bytes, i: nat, ghost leaf: Node)
    returns (ok: bool, end: nat, ghost leaf': Node)
    requires h.mem.Valid() && child == leaf.p && NodeFits(h.mem, leaf) && Sep(leaf)
    requires leaf.vs == NULL && leaf.nm == NULL && leaf.kids == []
    requires NulFree(text) && i <= |text| && !ParseMember(text[i..]).Wild?
    modifies h
    ensures h.mem.Valid() && Filled(old(h.mem), h.mem, leaf, leaf')
    ensures !ok ==> ParseMember(text[i..]).Fail? || h.failed
    ensures ok ==> h.failed == old(h.failed) && i < end <= |text| && NodeFits(h.mem, leaf') && Proper(h.mem, leaf')
    ensures ok ==> var o := ParseMember(text[i..]);
      && o.Ok? && text[end..] == o.rest && NameAt(h.mem, leaf'.nm) == Named(o.value.name)
      && Denote(h.mem, leaf') == o.value.value
    decreases |text| - i, 0
  {
    hide NodeFits, Sep, Foot, Filled, NameAt, Denote, Proper, ParseString, ParseValue, Skip;
    ghost var m := h.mem;
    ok, end, leaf' := ReadKey(h, child, text, i, leaf);
    if !ok { return; }
    if end < |text| { Next(text, end); }
    if At(text, end) != COLON { return false, end, leaf'; }
    ghost var m1, leaf1 := h.mem, leaf';
    FilledLinks(m, m1, leaf, leaf1);
    var start := SkipFrom(text, end + 1);
    ok, end, leaf' := ReadValue(h, child, text, start, leaf1);
    FilledTwice(m, m1, h.mem, leaf, leaf1, leaf');
    FilledLinks(m, h.mem, leaf, leaf');
  }

  /** A new child and the member parsed into it. */
  method ReadMember(h: Heap, par: Ptr, last: Ptr, text: bytes, i: nat, ghost built: Node, ghost acc: Chain)
    returns (ok: bool, end: nat, c: Ptr, ghost built': Node)
    requires h.mem.Valid() && par == built.p && last == LastKid(built) && Kids(h.mem, built, acc)
    requires NulFree(text) && i <= |text| && !ParseMember(text[i..]).Wild?
    modifies h
    ensures h.mem.Valid() && Extended(old(h.mem), h.mem, built, built')
    ensures !ok ==> ParseMember(text[i..]).Fail? || h.failed
    ensures ok ==> h.failed == old(h.failed) && i < end <= |text| && c == LastKid(built')
    ensures ok ==> var o := ParseMember(text[i..]);
      && o.Ok? && o.rest == text[end..]
      && Kids(h.mem, built', Append(acc, Cons(Named(o.value.name), o.value.value, Nil)))
    decreases |text| - i, 1
  {
    hide NodeFits, Sep, Foot, Filled, DenoteList, AllProper, NameAt, TextAt, AllFit, Denote, Proper, ParseMember, Kids;
    hide Extended;
    ghost var m := h.mem;
    ok, end, built' := false, i, built;
    ghost var par1;
    c, par1 := AddItem(h, par, last, built, acc);
    if c == NULL {
      ExtendedSelf(m, built, acc);
      return;
    }
    ghost var m1 := h.mem;
    ghost var leaf, leaf' := Node(c, NULL, NULL, []), built;
    ok, end, leaf' := ReadPair(h, c, text, i, leaf);
    built' := WithKid(built, leaf');
    ElementDone(m, m1, h.mem, built, par1, leaf, leaf', acc);
    FilledLinks(m1, h.mem, leaf, leaf');
    assert LastKid(built') == c;
  }

  /** The outcome for a list of members read so far, with the text behind the last one and its blanks. */
  function ContinueMembers(acc: Chain, r: bytes): Outcome<Chain> {
    if r == [] then Fail
    else if r[0] == COMMA then
      match ParseMembers(r[1..])
      case Ok(items, end) => Ok(Append(acc, items), end)
      case Fail => Fail
      case Wild => Wild
    else if r[0] == RBRACE then Ok(acc, r[1..])
    else Fail
  }

  function AfterMember(acc: Chain, o: Outcome<Member>): Outcome<Chain> {
    if o.Ok? then ContinueMembers(Append(acc, Cons(Named(o.value.name), o.value.value, Nil)), Skip(o.rest))
    else if o.Fail? then Fail
    else Wild
  }

  lemma AfterMemberCases(acc: Chain, o: Outcome<Member>)
    ensures o.Wild? ==> AfterMember(acc, o).Wild?
    ensures o.Fail? ==> AfterMember(acc, o).Fail?
    ensures o.Ok? ==>
      AfterMember(acc, o) == ContinueMembers(Append(acc, Cons(Named(o.value.name), o.value.value, Nil)), Skip(o.rest))
  {
  }

  /** ParseMembers reads a member, then continues. */
  lemma MembersUnfold(s: bytes)
    ensures ParseMembers(s) == AfterMember(Nil, ParseMember(s))
  {
    hide ParseMember, Skip;
    var o := ParseMember(s);
    if o.Ok? {
      var one := Cons(Named(o.value.name), o.value.value, Nil);
      assert Append(Nil, one) == one;
      assert forall items :: Append(one, items) == Cons(one.name, one.value, Append(Nil, items));
    }
  }

  /** After a comma, reading one more member continues with a longer list. */
  lemma MembersNext(acc: Chain, r: bytes)
    requires r != [] && r[0] == COMMA
    ensures ContinueMembers(acc, r) == AfterMember(acc, ParseMember(r[1..]))
  {
    hide ParseMember, Skip;
    var o := ParseMember(r[1..]);
    if o.Ok? {
      var r' := Skip(o.rest);
      if r' != [] && r'[0] == COMMA && ParseMembers(r'[1..]).Ok? {
        AppendAssociative(acc, Cons(Named(o.value.name), o.value.value, Nil), ParseMembers(r'[1..]).value);
      }
    }
  }

  lemma MembersEnd(acc: Chain, text: bytes, end: nat)
    requires end <= |text| && At(text, end) != COMMA
    ensures ContinueMembers(acc, text[end..]) == if At(text, end) == RBRACE then Ok(acc, text[end + 1..]) else Fail
  {
    if end < |text| { Next(text, end); }
  }

  /** One more member and the blanks behind it. */
  method ReadNextMember(h: Heap, item: Ptr, last: Ptr, text: bytes, i: nat, ghost m0: Store, ghost n: Node,
                        ghost built: Node, ghost acc: Chain)
    returns (ok: bool, end: nat, child: Ptr, ghost built': Node, ghost acc': Chain)
    requires Building(m0, h.mem, n, built, KObject, acc) && item == built.p && last == LastKid(built)
    requires NulFree(text) && i <= |text| && !ParseMember(text[i..]).Wild?
    modifies h
    ensures h.mem.Valid() && Partial(m0, h.mem, n, built')
    ensures !ok ==> ParseMember(text[i..]).Fail? || h.failed
    ensures ok ==> h.failed == old(h.failed) && Building(m0, h.mem, n, built', KObject, acc')
    ensures ok ==> child == LastKid(built') && i < end <= |text|
    ensures ok ==> var o := ParseMember(text[i..]);
      && o.Ok? && acc' == Append(acc, Cons(Named(o.value.name), o.value.value, Nil))
      && text[end..] == Skip(o.rest)
    decreases |text| - i, 2
  {
    hide NodeFits, Sep, Foot, Filled, NameAt, Building, Extended, Kids, ParseMember, Skip, Partial, Append;
    ghost var m := h.mem;
    BuildingFacts(m0, m, n, built, KObject, acc);
    ghost var o := ParseMember(text[i..]);
    ok, end, child, built' := ReadMember(h, item, last, text, i, built, acc);
    if !ok {
      acc' := acc;
      BuildingStep(m0, m, h.mem, n, built, built', KObject, acc, acc');
      return;
    }
    acc' := Append(acc, Cons(Named(o.value.name), o.value.value, Nil));
    BuildingStep(m0, m, h.mem, n, built, built', KObject, acc, acc');
    end := SkipFrom(text, end);
  }

  /** The members of an object up to and including its closing brace. */
  method ReadMembers(h: Heap, item: Ptr, text: bytes, i: nat, ghost m0: Store, ghost n: Node)
    returns (ok: bool, end: nat, ghost built: Node, ghost acc: Chain)
    requires Building(m0, h.mem, n, n, KObject, Nil) && item == n.p && n.kids == []
    requires NulFree(text) && i <= |text| && !ParseMembers(text[i..]).Wild?
    modifies h
    ensures h.mem.Valid() && Partial(m0, h.mem, n, built)
    ensures !ok ==> ParseMembers(text[i..]).Fail? || h.failed
    ensures ok ==> h.failed == old(h.failed) && Building(m0, h.mem, n, built, KObject, acc)
    ensures ok ==> i < end <= |text| && ParseMembers(text[i..]) == Ok(acc, text[end..])
    decreases |text| - i, 3
  {
    hide NodeFits, Sep, Foot, Filled, NameAt, Building, ParseMember, ParseMembers, ContinueMembers, AfterMember, Skip;
    ghost var goal := ParseMembers(text[i..]);
    MembersUnfold(text[i..]);
    AfterMemberCases(Nil, ParseMember(text[i..]));
    var child;
    ok, end, child, built, acc := ReadNextMember(h, item, NULL, text, i, m0, n, n, Nil);
    if !ok { return; }
    while At(text, end) == COMMA
      invariant i < end <= |text| && h.failed == old(h.failed) && child == LastKid(built)
      invariant Building(m0, h.mem, n, built, KObject, acc) && goal == ContinueMembers(acc, text[end..])
      decreases |text| - end
    {
      Next(text, end);
      MembersNext(acc, text[end..]);
      AfterMemberCases(acc, ParseMember(text[end + 1..]));
      BuildingFacts(m0, h.mem, n, built, KObject, acc);
      ok, end, child, built, acc := ReadNextMember(h, item, child, text, end + 1, m0, n, built, acc);
      if !ok { return; }
    }
    BuildingFacts(m0, h.mem, n, built, KObject, acc);
    MembersEnd(acc, text, end);
    ok := At(text, end) == RBRACE;
    if ok { end := end + 1; }
  }

  /** parse_object */
  method ReadObject(h: Heap, item: Ptr, text: bytes, i: nat, ghost n: Node)
    returns (ok: bool, end: nat, ghost n': Node)
    requires h.mem.Valid() && item == n.p && NodeFits(h.mem, n) && Sep(n) && n.vs == NULL && n.kids == []
    requires NulFree(text) && i < |text| && text[i] == LBRACE && !ParseObject(text[i..]).Wild?
    requires ParseValue(text[i..]) == ParseObject(text[i..])
    modifies h
    ensures Partial(old(h.mem), h.mem, n, n')
    ensures ok ==> h.failed == old(h.failed) && ValueRead(h.mem, text, i, n', end)
    ensures !ok ==> ParseObject(text[i..]).Fail? || h.failed
    decreases |text| - i - 1, 4
  {
    hide NodeFits, Sep, Foot, Filled, NameAt, Building, Kids, ParseValue, ParseMembers, Denote, Proper, Skip;
    ghost var m := h.mem;
    StartContainer(h, item, KObject, n);
    BuildingFacts(m, h.mem, n, n, KObject, Nil);
    ok, n' := true, n;
    Next(text, i);
    end := SkipFrom(text, i + 1);
    if end < |text| { Next(text, end); }
    ghost var acc := Nil;
    if At(text, end) == RBRACE {
      end := end + 1;
    } else {
      ok, end, n', acc := ReadMembers(h, item, text, end, m, n);
    }
    if ok {
      BuildingFacts(m, h.mem, n, n', KObject, acc);
      BuildingDone(m, h.mem, n, n', KObject, acc);
    }
  }

  // ----- cJSON_ParseWithOpts -----

  /** Parses a C string. On success a detached tree with the value of the text came into being; on
      failure, be it of the text or of an allocation, the heap is as before. With no failed allocation
      the outcome is exactly that of the parsing functions. */
  method ParseWithOpts(h: Heap, text: bytes, requireNullTerminated: bool)
    returns (c: Ptr, end: nat, ghost n: Node)
    requires h.mem.Valid() && NulFree(text) && !ParseValue(Skip(text)).Wild?
    modifies h
    ensures h.mem.Valid()
    ensures c == NULL ==> h.mem == old(h.mem)
    ensures c != NULL ==> h.failed == old(h.failed) && c == n.p && Detached(old(h.mem), h.mem, n)
    ensures c != NULL ==> NodeFits(h.mem, n) && Proper(h.mem, n)
    ensures c != NULL ==> end <= |text| && var o := ParseValue(Skip(text));
      && o.Ok? && o.value == Denote(h.mem, n)
      && text[end..] == if requireNullTerminated then [] else o.rest
    ensures c != NULL && requireNullTerminated ==> Parse(text) == Ok(Denote(h.mem, n), [])
    ensures c == NULL && !h.failed ==> if requireNullTerminated then Parse(text).Fail? else ParseValue(Skip(text)).Fail?
  {
    hide NodeFits, Sep, Foot, Filled, NameAt, Detached, Denote, Proper, ParseValue, Skip;
    ghost var m := h.mem;
    end := 0;
    c := h.NewItem();
    if c == NULL { n := Node(c, NULL, NULL, []); return; }
    ghost var leaf := Node(c, NULL, NULL, []);
    NewLeaf(m, c);
    ghost var m1 := h.mem;
    DetachedFacts(m, m1, leaf);
    assert text[0..] == text;
    var start := SkipFrom(text, 0);
    var ok;
    ok, end, n := ReadValue(h, c, text, start, leaf);
    DetachedFilled(m, m1, h.mem, leaf, n);
    FilledLinks(m1, h.mem, leaf, n);
    if !ok {
      Discard(h, c, m, n);
      return NULL, end, n;
    }
    if requireNullTerminated {
      end := SkipFrom(text, end);
      if At(text, end) != NUL {
        Discard(h, c, m, n);
        return NULL, end, n;
      }
    }
  }

  /** cJSON_Parse and cJSON_Delete in sequence: the heap is as before, whatever happens in between. */
  method ParseThenDelete(h: Heap, text: bytes, requireNullTerminated: bool)
    requires h.mem.Valid() && NulFree(text) && !ParseValue(Skip(text)).Wild?
    modifies h
    ensures h.mem == old(h.mem)
  {
    ghost var m := h.mem;
    var c, end;
    ghost var n;
    c, end, n := ParseWithOpts(h, text, requireNullTerminated);
    if c != NULL { Discard(h, c, m, n); }
  }
}
