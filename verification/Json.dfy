/** JSON trees, the language the parser accepts and the text the printers produce. */
module Json {
  import opened Bytes
  import opened Literal

  // ----- trees -----

  /** A number as parse_number computes it: mant * 10^exp. */
  datatype Decimal = Decimal(mant: int, exp: int)

  /** The `string` field of an item: only members of an object have one. */
  datatype Name = NoName | Named(text: bytes)

  datatype Json =
    | Null
    | False
    | True
    | Number(num: Decimal)
    | String(text: bytes)
    | Array(items: Chain)
    | Object(items: Chain)

  /** The children of an item, in the order of their `next` links. */
  datatype Chain = Nil | Cons(name: Name, value: Json, next: Chain)

  function Append(c: Chain, d: Chain): Chain {
    match c
    case Nil => d
    case Cons(n, v, next) => Cons(n, v, Append(next, d))
  }

  lemma AppendAssociative(c: Chain, d: Chain, e: Chain)
    ensures Append(Append(c, d), e) == Append(c, Append(d, e))
  {
  }

  lemma {:induction false} AppendInjective(c: Chain, d: Chain, x: Chain, y: Chain)
    requires x.Cons? && y.Cons? && x.next.Nil? && y.next.Nil? && Append(c, x) == Append(d, y)
    ensures c == d && x == y
    decreases c
  {
    match (c, d)
    case (Cons(_, _, c'), Cons(_, _, d')) => AppendInjective(c', d', x, y);
    case _ =>
  }

  predicate Int32(n: int) {
    -0x8000_0000 <= n <= 0x7FFF_FFFF
  }

  function Ten(k: nat): (r: nat)
    ensures r >= 1
  {
    if k == 0 then 1 else 10 * Ten(k - 1)
  }

  /** A decimal without its fraction. */
  function Truncated(d: Decimal): int {
    if d.exp >= 0 then d.mant * Ten(d.exp)
    else if d.mant >= 0 then d.mant / Ten(-d.exp)
    else -(-d.mant / Ten(-d.exp))
  }

  /** i is the conversion of d to int, which is undefined when the result does not fit. */
  predicate Converted(i: int, d: Decimal) {
    Int32(Truncated(d)) ==> i == Truncated(d)
  }

  lemma ConvertedWhole(i: int, d: Decimal)
    requires d.exp == 0 && Int32(d.mant)
    ensures Converted(i, d) <==> i == d.mant
  {
    assert Ten(0) == 1;
  }

  /** What the printers need of a tree: numbers they print with "%d" (or as "0"), and a name on every
      member, which print_string_ptr dereferences. */
  predicate Printable(t: Json) {
    match t
    case Number(d) => d.mant == 0 || (d.exp == 0 && Int32(d.mant))
    case Array(items) => PrintableItems(items, false)
    case Object(items) => PrintableItems(items, true)
    case _ => true
  }

  predicate PrintableItems(c: Chain, named: bool) {
    match c
    case Nil => true
    case Cons(n, v, next) => (named ==> n.Named?) && Printable(v) && PrintableItems(next, named)
  }

  /** A tree of null, booleans, 32-bit numbers, NUL-free strings, arrays and objects. */
  predicate Canonical(t: Json) {
    match t
    case Number(d) => d.exp == 0 && Int32(d.mant)
    case String(s) => NulFree(s)
    case Array(items) => CanonicalItems(items, false)
    case Object(items) => CanonicalItems(items, true)
    case _ => true
  }

  predicate CanonicalItems(c: Chain, named: bool) {
    match c
    case Nil => true
    case Cons(n, v, next) =>
      && (if named then n.Named? && NulFree(n.text) else n == NoName)
      && Canonical(v) && CanonicalItems(next, named)
  }

  lemma CanonicalPrintable(t: Json)
    requires Canonical(t)
    ensures Printable(t)
    decreases t
  {
    match t
    case Array(items) => CanonicalItemsPrintable(items, false);
    case Object(items) => CanonicalItemsPrintable(items, true);
    case _ =>
  }

  lemma CanonicalItemsPrintable(c: Chain, named: bool)
    requires CanonicalItems(c, named)
    ensures PrintableItems(c, named)
    decreases c
  {
    if c.Cons? {
      CanonicalPrintable(c.value);
      CanonicalItemsPrintable(c.next, named);
    }
  }

  // ----- the fixed texts -----

  const NULL_TEXT: bytes := [110, 117, 108, 108]
  const FALSE_TEXT: bytes := [102, 97, 108, 115, 101]
  const TRUE_TEXT: bytes := [116, 114, 117, 101]

  // ----- numbers -----

  /** The digits at the start of s, appended to n. */
  function DigitsValue(s: bytes, n: nat): nat {
    if s != [] && Digit(s[0]) then DigitsValue(s[1..], n * 10 + (s[0] as nat - 48)) else n
  }

  function DigitsRest(s: bytes): (r: bytes)
    ensures |r| <= |s| && (s != [] && Digit(s[0]) ==> |r| < |s|)
    ensures r != [] ==> !Digit(r[0])
  {
    if s != [] && Digit(s[0]) then DigitsRest(s[1..]) else s
  }

  predicate StartsInteger(s: bytes) {
    s != [] && 49 <= s[0] <= 57
  }

  predicate StartsFraction(s: bytes) {
    |s| >= 2 && s[0] == DOT && Digit(s[1])
  }

  predicate StartsExponent(s: bytes) {
    s != [] && (s[0] == 101 || s[0] == 69)
  }

  /** A decimal read so far and the text after it. */
  datatype Lexed = Lexed(num: Decimal, rest: bytes)

  /** An optional zero, then digits that must not start with another one. */
  function LexInteger(s: bytes): (l: Lexed)
    ensures |l.rest| <= |s|
    ensures s != [] && Digit(s[0]) ==> |l.rest| < |s|
    ensures l.num.mant >= 0 && l.num.exp == 0
  {
    var r := if s != [] && s[0] == DIGIT_0 then s[1..] else s;
    if StartsInteger(r) then Lexed(Decimal(DigitsValue(r, 0), 0), DigitsRest(r)) else Lexed(Decimal(0, 0), r)
  }

  /** A point and digits, each of which shifts the decimal by one place. */
  function LexFraction(l: Lexed): (l': Lexed)
    requires l.num.mant >= 0
    ensures |l'.rest| <= |l.rest| && l'.num.mant >= 0
  {
    if StartsFraction(l.rest) then
      var digits := l.rest[1..];
      Lexed(Decimal(DigitsValue(digits, l.num.mant), |DigitsRest(digits)| - |digits|), DigitsRest(digits))
    else l
  }

  /** An exponent, which may lack its digits. */
  function LexExponent(l: Lexed): (l': Lexed)
    ensures |l'.rest| <= |l.rest|
  {
    if StartsExponent(l.rest) then
      var r := l.rest[1..];
      var signed := r != [] && (r[0] == PLUS || r[0] == MINUS);
      var digits := if signed then r[1..] else r;
      var e: int := DigitsValue(digits, 0);
      var minus := signed && r[0] == MINUS;
      Lexed(Decimal(l.num.mant, l.num.exp + if minus then -e else e), DigitsRest(digits))
    else l
  }

  /** parse_number: a sign, an integer, a fraction, an exponent, each optional. */
  function LexNumber(s: bytes): (l: Lexed)
    ensures |l.rest| <= |s|
    ensures s != [] && (s[0] == MINUS || Digit(s[0])) ==> |l.rest| < |s|
  {
    var minus := s != [] && s[0] == MINUS;
    var l := LexExponent(LexFraction(LexInteger(if minus then s[1..] else s)));
    if minus then Lexed(Decimal(-l.num.mant, l.num.exp), l.rest) else l
  }

  function NatText(n: nat): (s: bytes)
    ensures s != [] && forall i | 0 <= i < |s| :: Digit(s[i])
    ensures n > 0 ==> s[0] != DIGIT_0
  {
    if n < 10 then [(48 + n) as byte] else NatText(n / 10) + [(48 + n % 10) as byte]
  }

  /** The decimal text of an integer, as the format %d gives it. */
  function IntText(n: int): bytes {
    if n < 0 then [MINUS] + NatText(-n) else NatText(n)
  }

  // ----- the parser -----

  /** Ok: the value and the unread text. Fail: a null pointer. Wild: the text holds a string literal
      with an incomplete escape, for which the C code leaves its own buffers. */
  datatype Outcome<+T> = Ok(value: T, rest: bytes) | Fail | Wild

  predicate Shorter<T>(o: Outcome<T>, s: bytes) {
    o.Ok? ==> |o.rest| < |s|
  }

  function ParseString(s: bytes): (o: Outcome<bytes>)
    ensures Shorter(o, s)
  {
    if s == [] || s[0] != QUOTE then Fail
    else if !Complete(s[1..]) then Wild
    else
      var r := ScanRest(s[1..]);
      Ok(Decode(s[1..]), if r == [] then [] else r[1..])
  }

  function ParseValue(s: bytes): (o: Outcome<Json>)
    ensures Shorter(o, s)
    decreases |s|, 0
  {
    if NULL_TEXT <= s then Ok(Null, s[4..])
    else if FALSE_TEXT <= s then Ok(False, s[5..])
    else if TRUE_TEXT <= s then Ok(True, s[4..])
    else if s == [] then Fail
    else if s[0] == QUOTE then
      match ParseString(s)
      case Ok(text, rest) => Ok(String(text), rest)
      case Fail => Fail
      case Wild => Wild
    else if s[0] == MINUS || Digit(s[0]) then Ok(Number(LexNumber(s).num), LexNumber(s).rest)
    else if s[0] == LBRACKET then ParseArray(s)
    else if s[0] == LBRACE then ParseObject(s)
    else Fail
  }

  function ParseArray(s: bytes): (o: Outcome<Json>)
    requires s != [] && s[0] == LBRACKET
    ensures Shorter(o, s)
    decreases |s| - 1, 2
  {
    var r := Skip(s[1..]);
    if r != [] && r[0] == RBRACKET then Ok(Array(Nil), r[1..])
    else
      match ParseItems(r)
      case Ok(items, rest) => Ok(Array(items), rest)
      case Fail => Fail
      case Wild => Wild
  }

  function ParseObject(s: bytes): (o: Outcome<Json>)
    requires s != [] && s[0] == LBRACE
    ensures Shorter(o, s)
    decreases |s| - 1, 2
  {
    var r := Skip(s[1..]);
    if r != [] && r[0] == RBRACE then Ok(Object(Nil), r[1..])
    else
      match ParseMembers(r)
      case Ok(items, rest) => Ok(Object(items), rest)
      case Fail => Fail
      case Wild => Wild
  }

  /** One element, then after a comma more of them, then the closing bracket. */
  function ParseItems(s: bytes): (o: Outcome<Chain>)
    ensures Shorter(o, s)
    decreases |s|, 1
  {
    match ParseValue(Skip(s))
    case Fail => Fail
    case Wild => Wild
    case Ok(v, rest) =>
      var r := Skip(rest);
      if r == [] then Fail
      else if r[0] == COMMA then
        match ParseItems(r[1..])
        case Ok(items, end) => Ok(Cons(NoName, v, items), end)
        case Fail => Fail
        case Wild => Wild
      else if r[0] == RBRACKET then Ok(Cons(NoName, v, Nil), r[1..])
      else Fail
  }

  /** One member, then after a comma more of them, then the closing brace. */
  function ParseMembers(s: bytes): (o: Outcome<Chain>)
    ensures Shorter(o, s)
    decreases |s|, 1
  {
    match ParseMember(s)
    case Fail => Fail
    case Wild => Wild
    case Ok(m, rest) =>
      var r := Skip(rest);
      if r == [] then Fail
      else if r[0] == COMMA then
        match ParseMembers(r[1..])
        case Ok(items, end) => Ok(Cons(Named(m.name), m.value, items), end)
        case Fail => Fail
        case Wild => Wild
      else if r[0] == RBRACE then Ok(Cons(Named(m.name), m.value, Nil), r[1..])
      else Fail
  }

  datatype Member = Member(name: bytes, value: Json)

  /** A name, a colon, a value. */
  function ParseMember(s: bytes): (o: Outcome<Member>)
    ensures Shorter(o, s)
    decreases |s|, 0
  {
    match ParseString(Skip(s))
    case Fail => Fail
    case Wild => Wild
    case Ok(name, rest) =>
      var c := Skip(rest);
      if c == [] || c[0] != COLON then Fail
      else
        match ParseValue(Skip(c[1..]))
        case Fail => Fail
        case Wild => Wild
        case Ok(v, end) => Ok(Member(name, v), end)
  }

  /** cJSON_ParseWithOpts with require_null_terminated: nothing but blanks may follow the value. */
  function Parse(s: bytes): Outcome<Json> {
    match ParseValue(Skip(s))
    case Ok(t, rest) => if Skip(rest) == [] then Ok(t, []) else Fail
    case Fail => Fail
    case Wild => Wild
  }

  // ----- the printer -----

  function Tabs(n: nat): bytes { Repeat(TAB, n) }

  /** The text of a tree, formatted or not; depth counts the enclosing containers. */
  function Print(t: Json, depth: nat, fmt: bool): bytes
    requires Printable(t)
    decreases t, 0
  {
    match t
    case Null => NULL_TEXT
    case False => FALSE_TEXT
    case True => TRUE_TEXT
    case Number(d) => if d.mant == 0 then [DIGIT_0] else IntText(d.mant)
    case String(s) => Quoted(s)
    case Array(items) => [LBRACKET] + PrintItems(items, depth + 1, fmt) + [RBRACKET]
    case Object(Nil) =>
      if fmt then [LBRACE, NEWLINE] + Tabs(if depth > 0 then depth - 1 else 0) + [RBRACE] else [LBRACE, RBRACE]
    case Object(items) =>
      (if fmt then [LBRACE, NEWLINE] else [LBRACE])
      + PrintMembers(items, depth + 1, fmt)
      + (if fmt then Tabs(depth) else []) + [RBRACE]
  }

  function ItemSeparator(last: bool, fmt: bool): bytes {
    if last then [] else if fmt then [COMMA, SPACE] else [COMMA]
  }

  function PrintItems(c: Chain, depth: nat, fmt: bool): bytes
    requires PrintableItems(c, false)
    decreases c
  {
    match c
    case Nil => []
    case Cons(_, v, next) => Print(v, depth, fmt) + ItemSeparator(next.Nil?, fmt) + PrintItems(next, depth, fmt)
  }

  function KeySeparator(fmt: bool): bytes {
    if fmt then [COLON, TAB] else [COLON]
  }

  function MemberSeparator(last: bool, fmt: bool): bytes {
    (if last then [] else [COMMA]) + (if fmt then [NEWLINE] else [])
  }

  function PrintMember(n: Name, v: Json, last: bool, depth: nat, fmt: bool): bytes
    requires n.Named? && Printable(v)
    decreases v, 1
  {
    (if fmt then Tabs(depth) else []) + Quoted(n.text) + KeySeparator(fmt)
    + Print(v, depth, fmt) + MemberSeparator(last, fmt)
  }

  function PrintMembers(c: Chain, depth: nat, fmt: bool): bytes
    requires PrintableItems(c, true)
    decreases c, 0
  {
    match c
    case Nil => []
    case Cons(n, v, next) => PrintMember(n, v, next.Nil?, depth, fmt) + PrintMembers(next, depth, fmt)
  }
}
