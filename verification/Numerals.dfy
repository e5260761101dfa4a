/** Decimal numerals: what a run of digits means, and that the code reads and writes just that. */
module Numerals {
  import opened Bytes
  import opened Spelling
  import opened Json

  /** bs is the numeral with the digits ds, from the table of digits. */
  predicate Spells(bs: bytes, ds: seq<nat>) {
    |bs| == |ds| && forall i | 0 <= i < |ds| :: ds[i] < 10 && bs[i] == DIGITS[ds[i]]
  }

  /** The value of a numeral: its last digit has weight one, and those before it ten times their own. */
  function PlaceValue(ds: seq<nat>): nat {
    if ds == [] then 0 else 10 * PlaceValue(ds[..|ds| - 1]) + ds[|ds| - 1]
  }

  lemma DigitIs(b: byte)
    ensures Digit(b) <==> exists v: nat :: v < 10 && b == DIGITS[v]
    ensures Digit(b) ==> b as int - 48 < 10 && b == DIGITS[b as nat - 48]
  {
    if Digit(b) {
      var v := b as nat - 48;
      assert b == DIGITS[v];
    }
  }

  predicate StartsWithDigit(s: bytes) {
    s != [] && s[0] in DIGITS
  }

  lemma StartsIs(s: bytes)
    ensures StartsWithDigit(s) <==> s != [] && Digit(s[0])
  {
    if s != [] { DigitIs(s[0]); }
  }

  lemma PlaceValueSnoc(ds: seq<nat>, d: nat)
    ensures PlaceValue(ds + [d]) == 10 * PlaceValue(ds) + d
  {
    assert (ds + [d])[..|ds|] == ds;
  }

  /** The digit loops read a numeral up to its end, behind digits read before. */
  lemma {:induction false} DigitsRead(before: seq<nat>, bs: bytes, ds: seq<nat>, r: bytes)
    requires Spells(bs, ds) && !StartsWithDigit(r)
    ensures DigitsValue(bs + r, PlaceValue(before)) == PlaceValue(before + ds) && DigitsRest(bs + r) == r
    decreases |bs|
  {
    if bs == [] {
      StartsIs(r);
      assert bs + r == r && before + ds == before;
    } else {
      var d := ds[0];
      assert bs[0] as nat == 48 + d;
      assert (bs + r)[1..] == bs[1..] + r && before + ds == before + [d] + ds[1..];
      PlaceValueSnoc(before, d);
      DigitsRead(before + [d], bs[1..], ds[1..], r);
    }
  }

  /** Every run of digits is a numeral. */
  lemma {:induction false} DigitRun(s: bytes) returns (bs: bytes, ds: seq<nat>)
    ensures Spells(bs, ds) && s == bs + DigitsRest(s) && !StartsWithDigit(DigitsRest(s))
    decreases |s|
  {
    StartsIs(s);
    if s != [] && Digit(s[0]) {
      bs, ds := DigitRun(s[1..]);
      DigitIs(s[0]);
      bs, ds := [s[0]] + bs, [s[0] as nat - 48] + ds;
    } else {
      bs, ds := [], [];
    }
  }

  /** What %d prints for a natural number: the numeral of that value without a leading zero. */
  lemma {:induction false} NatTextSpells(n: nat) returns (ds: seq<nat>)
    ensures Spells(NatText(n), ds) && PlaceValue(ds) == n && ds != [] && (ds[0] == 0 ==> n == 0 && |ds| == 1)
    decreases n
  {
    if n < 10 {
      ds := [n];
      assert ds[..0] == [];
      assert DIGITS[n] as int == 48 + n;
    } else {
      var high := NatTextSpells(n / 10);
      ds := high + [n % 10];
      PlaceValueSnoc(high, n % 10);
      assert DIGITS[n % 10] as int == 48 + n % 10;
    }
  }

  /** The same for an integer, with a minus sign when it is negative. */
  lemma IntTextSpells(n: int) returns (bs: bytes, ds: seq<nat>)
    ensures IntText(n) == (if n < 0 then [MINUS] + bs else bs)
    ensures Spells(bs, ds) && PlaceValue(ds) == (if n < 0 then -n else n)
    ensures ds != [] && (ds[0] == 0 ==> n == 0 && |ds| == 1)
  {
    hide NatText, PlaceValue;
    bs := NatText(if n < 0 then -n else n);
    ds := NatTextSpells(if n < 0 then -n else n);
  }

  // ----- numbers -----

  predicate AllDigits(ds: seq<nat>) {
    forall i | 0 <= i < |ds| :: ds[i] < 10
  }

  function DigitText(ds: seq<nat>): (bs: bytes)
    requires AllDigits(ds)
    ensures Spells(bs, ds)
  {
    seq(|ds|, i requires 0 <= i < |ds| => DIGITS[ds[i]])
  }

  const MARKS := Ascii("eE")

  predicate IsMark(b: byte) {
    b == MARKS[0] || b == MARKS[1]
  }

  lemma MarkIs(b: byte)
    ensures IsMark(b) <==> b == 101 || b == 69
  {
  }

  datatype Sign = NoSign | Plus | Minus

  function SignText(sign: Sign): bytes {
    match sign
    case NoSign => []
    case Plus => [PLUS]
    case Minus => [MINUS]
  }

  datatype Exponent = NoExponent | Exponent(mark: byte, sign: Sign, digits: seq<nat>)

  /** What parse_number accepts: a minus sign, a zero, digits that start with no zero, a fraction, an exponent,
      each of them optional. The numbers of RFC 8259 section 6 are those with a zero or a whole part, not
      both, and an exponent with digits. */
  datatype NumberParts = NumberParts(minus: bool, zero: bool, whole: seq<nat>, frac: seq<nat>, exp: Exponent)

  predicate IsNumber(t: NumberParts) {
    && AllDigits(t.whole) && AllDigits(t.frac) && (t.whole != [] ==> t.whole[0] != 0)
    && (t.exp.Exponent? ==> AllDigits(t.exp.digits) && IsMark(t.exp.mark))
  }

  function ExponentText(e: Exponent): bytes
    requires e.Exponent? ==> AllDigits(e.digits)
  {
    if e.NoExponent? then [] else [e.mark] + (SignText(e.sign) + DigitText(e.digits))
  }

  function FractionText(frac: seq<nat>): bytes
    requires AllDigits(frac)
  {
    if frac == [] then [] else [DOT] + DigitText(frac)
  }

  /** The text of a number, and r behind it. */
  function AndThen(t: NumberParts, r: bytes): bytes
    requires IsNumber(t)
  {
    (if t.minus then [MINUS] else []) + AfterSign(t, r)
  }

  function AfterSign(t: NumberParts, r: bytes): bytes
    requires IsNumber(t)
  {
    (if t.zero then [DIGIT_0] else []) + (DigitText(t.whole) + AfterWhole(t, r))
  }

  function AfterWhole(t: NumberParts, r: bytes): bytes
    requires IsNumber(t)
  {
    FractionText(t.frac) + (ExponentText(t.exp) + r)
  }

  /** No part of the number goes on in r, and no part that is missing starts there. */
  predicate EndsBefore(t: NumberParts, r: bytes)
    requires IsNumber(t)
  {
    && WholeEnds(t, AfterWhole(t, r)) && FractionEnds(t.frac, ExponentText(t.exp) + r) && ExponentEnds(t.exp, r)
    && (!t.minus ==> AfterSign(t, r) == [] || AfterSign(t, r)[0] != MINUS)
  }

  predicate WholeEnds(t: NumberParts, u: bytes) {
    StartsWithDigit(u) ==> t.whole == [] && t.zero && u[0] == DIGITS[0]
  }

  predicate FractionEnds(frac: seq<nat>, u: bytes) {
    if frac != [] then !StartsWithDigit(u) else !(u != [] && u[0] == DOT && StartsWithDigit(u[1..]))
  }

  predicate ExponentEnds(e: Exponent, r: bytes) {
    if e.NoExponent? then r == [] || !IsMark(r[0])
    else
      !StartsWithDigit(r) && (e.sign == NoSign && e.digits == [] ==> r == [] || (r[0] != PLUS && r[0] != MINUS))
  }

  /** The value of a number: the digits before and behind the point, shifted by the fraction and the exponent. */
  function ValueOf(t: NumberParts): Decimal {
    var mant: int := PlaceValue(t.whole + t.frac);
    Decimal(if t.minus then -mant else mant, Shift(t.exp) - |t.frac|)
  }

  function Shift(e: Exponent): int {
    if e.NoExponent? then 0 else if e.sign == Minus then -(PlaceValue(e.digits) as int) else PlaceValue(e.digits)
  }

  lemma NoDigits()
    ensures PlaceValue([]) == 0
  {
  }

  lemma WholeReads(t: NumberParts, u: bytes)
    requires IsNumber(t) && WholeEnds(t, u)
    ensures LexInteger((if t.zero then [DIGIT_0] else []) + (DigitText(t.whole) + u))
         == Lexed(Decimal(PlaceValue(t.whole), 0), u)
  {
    hide DigitsValue, DigitsRest, PlaceValue, DigitText, StartsWithDigit;
    var d := DigitText(t.whole) + u;
    var s := (if t.zero then [DIGIT_0] else []) + d;
    NoDigits();
    StartsIs(u);
    assert (if t.zero then s[1..] else s) == d;
    if t.whole == [] {
      assert d == u;
    } else {
      assert d[0] == DIGITS[t.whole[0]] && d[0] as int == 48 + t.whole[0];
      assert [] + t.whole == t.whole;
      DigitsRead([], DigitText(t.whole), t.whole, u);
    }
  }

  lemma FractionShape(l: Lexed, d: bytes)
    requires l.num.mant >= 0 && l.rest == [DOT] + d && d != [] && Digit(d[0])
    ensures LexFraction(l) == Lexed(Decimal(DigitsValue(d, l.num.mant), |DigitsRest(d)| - |d|), DigitsRest(d))
  {
    hide DigitsValue, DigitsRest;
    assert l.rest[1..] == d;
  }

  lemma FractionNone(l: Lexed)
    requires l.num.mant >= 0 && FractionEnds([], l.rest)
    ensures LexFraction(l) == l
  {
    if l.rest != [] { StartsIs(l.rest[1..]); }
  }

  lemma FirstDigit(ds: seq<nat>, u: bytes)
    requires AllDigits(ds) && ds != []
    ensures (DigitText(ds) + u)[0] as int == 48 + ds[0] && Digit((DigitText(ds) + u)[0])
  {
    assert DigitText(ds)[0] == DIGITS[ds[0]];
  }

  lemma FractionReads(before: seq<nat>, frac: seq<nat>, u: bytes)
    requires AllDigits(frac) && FractionEnds(frac, u)
    ensures LexFraction(Lexed(Decimal(PlaceValue(before), 0), FractionText(frac) + u))
         == Lexed(Decimal(PlaceValue(before + frac), -|frac|), u)
  {
    hide DigitsValue, DigitsRest, PlaceValue, DigitText, StartsWithDigit, Spells, LexFraction;
    var s := FractionText(frac) + u;
    var l := Lexed(Decimal(PlaceValue(before), 0), s);
    if frac == [] {
      assert s == u && before + frac == before;
      FractionNone(l);
    } else {
      var bs := DigitText(frac);
      assert Spells(bs, frac) && |bs| == |frac| by { Spelled(frac); }
      assert s == [DOT] + (bs + u);
      FirstDigit(frac, u);
      FractionShape(l, bs + u);
      DigitsRead(before, bs, frac, u);
    }
  }

  lemma Spelled(ds: seq<nat>)
    requires AllDigits(ds)
    ensures Spells(DigitText(ds), ds) && |DigitText(ds)| == |ds|
  {
  }

  lemma ExponentShape(l: Lexed, mark: byte, sign: Sign, d: bytes)
    requires IsMark(mark) && l.rest == [mark] + (SignText(sign) + d)
    requires sign == NoSign ==> d == [] || (d[0] != PLUS && d[0] != MINUS)
    ensures var e: int := DigitsValue(d, 0);
      LexExponent(l) == Lexed(Decimal(l.num.mant, l.num.exp + if sign == Minus then -e else e), DigitsRest(d))
  {
    hide DigitsValue, DigitsRest, IsMark;
    MarkIs(mark);
    var t := SignText(sign) + d;
    assert l.rest[1..] == t;
    if sign == NoSign { assert t == d; } else { assert t[1..] == d; }
  }

  lemma ExponentReads(e: Exponent, num: Decimal, r: bytes)
    requires e.Exponent? ==> AllDigits(e.digits) && IsMark(e.mark)
    requires ExponentEnds(e, r)
    ensures LexExponent(Lexed(num, ExponentText(e) + r)) == Lexed(Decimal(num.mant, num.exp + Shift(e)), r)
  {
    hide DigitsValue, DigitsRest, PlaceValue, DigitText, StartsWithDigit, IsMark, SignText, Spells;
    var s := ExponentText(e) + r;
    if e.NoExponent? {
      assert s == r;
      if r != [] { MarkIs(r[0]); }
    } else {
      hide LexExponent;
      var bs := DigitText(e.digits);
      assert Spells(bs, e.digits) by { Spelled(e.digits); }
      assert s == [e.mark] + (SignText(e.sign) + (bs + r));
      if e.digits != [] { FirstDigit(e.digits, r); } else { assert bs + r == r by { Spelled(e.digits); } }
      ExponentShape(Lexed(num, s), e.mark, e.sign, bs + r);
      NoDigits();
      assert [] + e.digits == e.digits;
      DigitsRead([], bs, e.digits, r);
    }
  }

  /** parse_number reads every number it accepts with its value, up to its end. */
  lemma NumberReads(t: NumberParts, r: bytes)
    requires IsNumber(t) && EndsBefore(t, r)
    ensures LexNumber(AndThen(t, r)) == Lexed(ValueOf(t), r)
  {
    var s, d := AndThen(t, r), AfterSign(t, r);
    var u := ExponentText(t.exp) + r;
    SignReads(t, r);
    UnsignedReads(t, r);
    hide LexInteger, LexFraction, LexExponent, DigitText, PlaceValue, ExponentText, FractionText, WholeEnds,
      FractionEnds, ExponentEnds, IsMark, AndThen, AfterSign, Shift;
  }

  lemma UnsignedReads(t: NumberParts, r: bytes)
    requires IsNumber(t) && EndsBefore(t, r)
    ensures LexExponent(LexFraction(LexInteger(AfterSign(t, r))))
         == Lexed(Decimal(PlaceValue(t.whole + t.frac), Shift(t.exp) - |t.frac|), r)
  {
    var u := ExponentText(t.exp) + r;
    hide LexInteger, LexFraction, LexExponent, DigitText, PlaceValue, ExponentText, FractionText, WholeEnds,
      FractionEnds, ExponentEnds, IsMark, Shift;
    WholeReads(t, AfterWhole(t, r));
    FractionReads(t.whole, t.frac, u);
    ExponentReads(t.exp, Decimal(PlaceValue(t.whole + t.frac), -|t.frac|), r);
  }

  lemma SignReads(t: NumberParts, r: bytes)
    requires IsNumber(t) && EndsBefore(t, r)
    ensures var s := AndThen(t, r);
      && (t.minus <==> s != [] && s[0] == MINUS)
      && (if t.minus then s[1..] else s) == AfterSign(t, r)
  {
    hide AfterSign, WholeEnds, FractionEnds, ExponentEnds;
    var s := AndThen(t, r);
    assert (if t.minus then s[1..] else s) == AfterSign(t, r);
  }

  // ----- every text starts with one such number -----

  lemma RunOf(s: bytes) returns (ds: seq<nat>, r: bytes)
    ensures AllDigits(ds) && s == DigitText(ds) + r && !StartsWithDigit(r)
    ensures StartsWithDigit(s) ==> ds != [] && s[0] == DIGITS[ds[0]]
  {
    var bs;
    bs, ds := DigitRun(s);
    r := DigitsRest(s);
    Spelled(ds);
    assert bs == DigitText(ds);
    if ds == [] { assert s == r; }
  }

  lemma WholeSplits(s: bytes) returns (zero: bool, whole: seq<nat>, u: bytes)
    ensures AllDigits(whole) && (whole != [] ==> whole[0] != 0)
    ensures s == (if zero then [DIGIT_0] else []) + (DigitText(whole) + u)
    ensures StartsWithDigit(u) ==> whole == [] && zero && u[0] == DIGITS[0]
    ensures StartsWithDigit(s) ==> zero || whole != []
  {
    assert DIGITS[0] == DIGIT_0;
    zero := s != [] && s[0] == DIGIT_0;
    var d := if zero then s[1..] else s;
    StartsIs(d);
    assert s == (if zero then [DIGIT_0] else []) + d;
    if StartsWithDigit(d) && d[0] != DIGITS[0] {
      whole, u := RunOf(d);
    } else {
      Spelled([]);
      whole, u := [], d;
      assert DigitText([]) + d == d;
    }
  }

  lemma FractionSplits(u: bytes) returns (frac: seq<nat>, v: bytes)
    ensures AllDigits(frac) && u == FractionText(frac) + v && FractionEnds(frac, v)
  {
    if u != [] && u[0] == DOT && StartsWithDigit(u[1..]) {
      frac, v := RunOf(u[1..]);
      assert u == [DOT] + (DigitText(frac) + v);
      assert u == [DOT] + DigitText(frac) + v;
    } else {
      frac, v := [], u;
    }
  }

  lemma Regroup(a: bytes, b: bytes, c: bytes, d: bytes)
    ensures a + (b + (c + d)) == a + (b + c) + d
  {
  }

  lemma ExponentSplits(v: bytes) returns (e: Exponent, r: bytes)
    ensures e.Exponent? ==> AllDigits(e.digits) && IsMark(e.mark)
    ensures v == ExponentText(e) + r && ExponentEnds(e, r)
  {
    hide StartsWithDigit, IsMark, DigitText;
    if v != [] && IsMark(v[0]) {
      var sign := if |v| >= 2 && v[1] == PLUS then Plus else if |v| >= 2 && v[1] == MINUS then Minus else NoSign;
      var d := if sign == NoSign then v[1..] else v[2..];
      assert v == [v[0]] + (SignText(sign) + d);
      var ds;
      ds, r := RunOf(d);
      e := Exponent(v[0], sign, ds);
      Regroup([v[0]], SignText(sign), DigitText(ds), r);
      if ds == [] {
        Spelled(ds);
        assert d == r;
      }
    } else {
      e, r := NoExponent, v;
    }
  }

  /** So parse_number is determined: whatever it is given, it reads the number the text starts with. */
  lemma NumberSplits(s: bytes) returns (t: NumberParts, r: bytes)
    ensures IsNumber(t) && EndsBefore(t, r) && s == AndThen(t, r)
    ensures LexNumber(s) == Lexed(ValueOf(t), r)
    ensures s != [] && (s[0] == MINUS || Digit(s[0])) ==> t.minus || t.zero || t.whole != []
  {
    StartsIs(s);
    hide StartsWithDigit, IsMark, DigitText, FractionText, ExponentText, FractionEnds, ExponentEnds;
    var minus := s != [] && s[0] == MINUS;
    var d := if minus then s[1..] else s;
    assert s == (if minus then [MINUS] else []) + d;
    var zero, whole, u := WholeSplits(d);
    var frac, v := FractionSplits(u);
    var e;
    e, r := ExponentSplits(v);
    t := NumberParts(minus, zero, whole, frac, e);
    assert AfterWhole(t, r) == u && AfterSign(t, r) == d;
    NumberReads(t, r);
  }

  // ----- the conversion to int -----

  function Magnitude(i: int): nat {
    if i < 0 then -i else i
  }

  /** Converting a number to an int cuts its fraction off, towards zero. */
  lemma TruncatedIs(d: Decimal)
    ensures d.exp >= 0 ==> Truncated(d) == d.mant * Ten(d.exp)
    ensures d.exp < 0 ==> TowardsZero(d.mant, Ten(-d.exp), Truncated(d))
  {
    hide Ten;
    if d.exp < 0 {
      var p := Ten(-d.exp);
      Quotient(Magnitude(d.mant), p);
      assert Truncated(d) == if d.mant >= 0 then Magnitude(d.mant) / p else -(Magnitude(d.mant) / p);
      hide Truncated;
      Signed(d.mant, Magnitude(d.mant) / p, p, Truncated(d));
    }
  }

  /** t is the quotient of i by p without its fraction. */
  predicate TowardsZero(i: int, p: nat, t: int) {
    && Magnitude(t) * p <= Magnitude(i) < (Magnitude(t) + 1) * p
    && (t > 0 ==> i > 0) && (t < 0 ==> i < 0)
  }

  lemma Signed(i: int, q: int, p: nat, t: int)
    requires q >= 0 && q * p <= Magnitude(i) < (q + 1) * p && t == if i >= 0 then q else -q
    ensures TowardsZero(i, p, t)
  {
    AtLeast(q, p);
  }

  lemma AtLeast(q: int, p: nat)
    ensures q >= 1 ==> q * p >= p
  {
  }

  lemma Quotient(a: nat, b: nat)
    requires b > 0
    ensures a / b * b <= a < (a / b + 1) * b
  {
  }
}
