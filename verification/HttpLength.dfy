/** Content-length values as they are spelled: signs, white space, and what a negative or missing length means. */
module HttpLength {
  import opened Bytes
  import opened Spelling
  import opened Json
  import opened Numerals
  import opened HttpSegment

  /** The white space of section 7.4.1.10 of ISO/IEC 9899: blank, tab, line feed, vertical tab, form feed,
      carriage return. */
  const SPACES: bytes := [32, 9, 10, 11, 12, 13]

  predicate IsSpace(b: byte) {
    exists k: nat | k < 6 :: b == SPACES[k]
  }

  predicate AllSpace(w: bytes) {
    forall i | 0 <= i < |w| :: IsSpace(w[i])
  }

  lemma SpaceIs(b: byte)
    ensures Space(b) <==> IsSpace(b)
  {
    assert b == SPACE ==> b == SPACES[0];
    assert b == 9 ==> b == SPACES[1];
    assert b == 10 ==> b == SPACES[2];
    assert b == 11 ==> b == SPACES[3];
    assert b == 12 ==> b == SPACES[4];
    assert b == 13 ==> b == SPACES[5];
  }

  lemma {:induction false} SpacesSkipped(w: bytes, s: bytes)
    requires AllSpace(w) && (s == [] || !IsSpace(s[0]))
    ensures SkipSpaces(w + s) == s
  {
    if w == [] {
      assert w + s == s;
      if s != [] { SpaceIs(s[0]); }
    } else {
      SpaceIs(w[0]);
      assert (w + s)[1..] == w[1..] + s;
      SpacesSkipped(w[1..], s);
    }
  }

  /** Blanks and tabs are white space that atoi skips anyway. */
  lemma {:induction false} TabsAreSpaces(s: bytes)
    ensures Atoi(SkipTabs(s)) == Atoi(s)
  {
    hide DigitsValue;
    if s != [] && (s[0] == SPACE || s[0] == TAB) {
      TabsAreSpaces(s[1..]);
    }
  }

  // ----- atoi -----

  predicate IsSign(b: byte) {
    b == Ascii("-")[0] || b == Ascii("+")[0]
  }

  /** White space, a sign, digits: the number with that sign; without digits it is 0. */
  lemma AtoiSigned(w: bytes, sign: byte, ds: seq<nat>, r: bytes)
    requires AllSpace(w) && IsSign(sign) && AllDigits(ds) && !StartsWithDigit(r)
    ensures Atoi(w + ([sign] + (DigitText(ds) + r)))
         == if sign == Ascii("-")[0] then -(PlaceValue(ds) as int) else PlaceValue(ds)
  {
    var t := DigitText(ds) + r;
    SpaceIs(sign);
    SpacesSkipped(w, [sign] + t);
    assert ([sign] + t)[1..] == t;
    NumberRead(ds, r);
    hide DigitsValue, DigitText, PlaceValue, SkipSpaces;
  }

  /** White space, digits: the number. */
  lemma AtoiUnsigned(w: bytes, ds: seq<nat>, r: bytes)
    requires AllSpace(w) && ds != [] && AllDigits(ds) && !StartsWithDigit(r)
    ensures Atoi(w + (DigitText(ds) + r)) == PlaceValue(ds)
  {
    var t := DigitText(ds) + r;
    FirstDigit(ds, r);
    SpaceIs(t[0]);
    SpacesSkipped(w, t);
    NumberRead(ds, r);
    hide DigitsValue, DigitText, PlaceValue, SkipSpaces;
  }

  /** White space and anything else: zero. */
  lemma AtoiNone(w: bytes, s: bytes)
    requires AllSpace(w) && !StartsWithDigit(s) && (s != [] ==> !IsSpace(s[0]) && !IsSign(s[0]))
    ensures Atoi(w + s) == 0
  {
    SpacesSkipped(w, s);
    StartsIs(s);
  }

  lemma NumberRead(ds: seq<nat>, r: bytes)
    requires AllDigits(ds) && !StartsWithDigit(r)
    ensures DigitsValue(DigitText(ds) + r, 0) == PlaceValue(ds)
  {
    hide DigitsValue, DigitsRest;
    NoDigits();
    assert [] + ds == ds;
    DigitsRead([], DigitText(ds), ds, r);
  }

  // ----- messages -----

  /** The answer for a message, whatever its length line says: only the first such line counts, and only among
      the first 128 lines; without one the body is empty, and a negative length is no message. */
  lemma SegmentOfMessage(ls: seq<bytes>, k: nat, body: bytes)
    requires HeaderLines(ls) && k <= |ls| && (forall i | 0 <= i < k :: !IsField(ls[i])) && (k < |ls| ==> IsField(ls[k]))
    ensures var value := if k < |ls| && k < 128 then Atoi(ls[k][|FIELD|..]) else 0;
      Segment(Message(ls, body)) == if value >= 0 then |Join(ls)| + 4 + value else -1
  {
    hide IsField, SkipTabs, Atoi, FieldValue, ContentLength, HeaderLine, Segment, Join;
    var m, i := Message(ls, body), |Join(ls)|;
    HeadOfMessage(ls, body);
    JoinedLength(ls);
    var counted := Take(ls, MAX_LINES);
    var j := if k < |counted| then k else |counted|;
    FieldFirst(counted, j);
    if k < |ls| {
      FieldIsLong(ls[k]);
      TabsAreSpaces(ls[k][|FIELD|..]);
    }
    assert m[..i] == Join(ls);
    SegmentIs(m, i);
  }

  lemma FieldIsLong(line: bytes)
    requires IsField(line)
    ensures |line| >= |FIELD|
  {
  }

  /** A message whose first length line states a negative number is none, whatever follows. */
  lemma NegativeLength(ls: seq<bytes>, k: nat, w: bytes, ds: seq<nat>, r: bytes, body: bytes)
    requires HeaderLines(ls) && k < |ls| && k < 128 && (forall i | 0 <= i < k :: !IsField(ls[i])) && IsField(ls[k])
    requires AllSpace(w) && AllDigits(ds) && !StartsWithDigit(r) && PlaceValue(ds) > 0
    requires ls[k][|FIELD|..] == w + (Ascii("-") + (DigitText(ds) + r))
    ensures Segment(Message(ls, body)) == -1
  {
    hide IsField, Atoi, Segment, HeaderLine, PlaceValue, DigitText;
    assert Ascii("-") == [Ascii("-")[0]];
    AtoiSigned(w, Ascii("-")[0], ds, r);
    SegmentOfMessage(ls, k, body);
  }
}
