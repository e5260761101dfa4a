/** What cJSON_Minify drops and keeps, piece by piece: white space, comments, literals and everything else. */
module MinifyPieces {
  import opened Bytes
  import opened Spelling
  import opened Minify

  const WHITE := Ascii(" \t\r\n")

  predicate IsWhite(b: byte) {
    b in WHITE
  }

  lemma WhiteIs(b: byte)
    ensures White(b) <==> IsWhite(b)
  {
    assert WHITE == [SPACE, TAB, RETURN, NEWLINE];
  }

  predicate Starts(s: bytes, t: bytes) {
    |t| <= |s| && s[..|t|] == t
  }

  /** The text between the quotes of a literal: characters, and backslashes with a character behind them. */
  predicate LiteralBody(b: bytes)
    decreases |b|
  {
    b == [] || (if b[0] == BACKSLASH then |b| >= 2 && LiteralBody(b[2..]) else b[0] != QUOTE && LiteralBody(b[1..]))
  }

  /** The first `used` characters of s are a piece of which `kept` is left. */
  predicate Piece(s: bytes, used: nat, kept: bytes) {
    && 0 < used <= |s|
    && if IsWhite(s[0]) then used == 1 && kept == []
       else if Starts(s, Ascii("//")) then LineUpTo(s, used) && kept == []
       else if Starts(s, Ascii("/*")) then CommentUpTo(s, used) && kept == []
       else if s[0] == QUOTE then LiteralUpTo(s, used) && kept == s[..used]
       else used == 1 && kept == s[..1]
  }

  /** A line comment ends before its line end, or with the text. */
  predicate LineUpTo(s: bytes, used: nat)
    requires used <= |s|
  {
    (used < |s| ==> s[used] == NEWLINE) && forall i | 0 <= i < used :: s[i] != NEWLINE
  }

  /** A block comment ends with the first star and slash behind its slash. */
  predicate CommentUpTo(s: bytes, used: nat)
    requires used <= |s|
  {
    used >= 2 && StarSlash(s, used - 2) && forall i | 0 <= i < used - 2 :: !StarSlash(s, i)
  }

  predicate StarSlash(s: bytes, i: nat) {
    i + 2 <= |s| && s[i] == STAR && s[i + 1] == SLASH
  }

  predicate LiteralUpTo(s: bytes, used: nat)
    requires used <= |s|
  {
    used >= 2 && s[used - 1] == QUOTE && LiteralBody(s[1..used - 1])
  }

  /** The text s consists of pieces of which `out` is left. */
  ghost predicate Strips(s: bytes, out: bytes)
    decreases |s|
  {
    if s == [] then out == []
    else exists used: nat, k: nat :: Leads(s, used, out, k) && Strips(s[used..], out[k..])
  }

  predicate Leads(s: bytes, used: nat, out: bytes, k: nat) {
    0 < used <= |s| && k <= |out| && Piece(s, used, out[..k])
  }

  // ----- the pieces of the specification -----

  lemma StartsIs(s: bytes)
    ensures Starts(s, Ascii("//")) <==> StartsLineComment(s)
    ensures Starts(s, Ascii("/*")) <==> StartsBlockComment(s)
  {
    assert Ascii("//") == [SLASH, SLASH] && Ascii("/*") == [SLASH, STAR];
    if |s| >= 2 { assert s[..2] == [s[0], s[1]]; }
  }

  lemma {:induction false} LineIs(s: bytes, used: nat)
    requires used <= |s| && LineUpTo(s, used)
    ensures AfterLine(s) == s[used..]
  {
    if used > 0 {
      LineIs(s[1..], used - 1);
      assert s[1..][used - 1..] == s[used..];
    }
  }

  lemma {:induction false} SomeLine(s: bytes) returns (used: nat)
    ensures used <= |s| && LineUpTo(s, used)
  {
    if s == [] || s[0] == NEWLINE {
      used := 0;
    } else {
      used := SomeLine(s[1..]);
      used := used + 1;
    }
  }

  lemma {:induction false} CommentIs(s: bytes, used: nat)
    requires used <= |s| && CommentUpTo(s, used)
    ensures CommentCloses(s) && AfterComment(s) == s[used..]
  {
    if used == 2 {
      assert StarSlash(s, 0);
    } else {
      assert !StarSlash(s, 0);
      forall i | 0 <= i < used - 3 ensures !StarSlash(s[1..], i) { assert !StarSlash(s, i + 1); }
      assert StarSlash(s, used - 2);
      CommentIs(s[1..], used - 1);
      assert s[1..][used - 1..] == s[used..];
    }
  }

  lemma {:induction false} SomeComment(s: bytes) returns (used: nat)
    requires CommentCloses(s)
    ensures used <= |s| && CommentUpTo(s, used)
  {
    if StarSlash(s, 0) {
      used := 2;
    } else {
      used := SomeComment(s[1..]);
      used := used + 1;
      forall i | 0 <= i < used - 2 ensures !StarSlash(s, i) {
        if i > 0 { assert !StarSlash(s[1..], i - 1); }
      }
    }
  }

  lemma {:induction false} BodyIs(b: bytes, r: bytes)
    requires LiteralBody(b)
    ensures LiteralMinifiable(b + ([QUOTE] + r)) == Minifiable(r)
    ensures Minifiable(r) ==> MinifiedLiteral(b + ([QUOTE] + r)) == b + ([QUOTE] + Minified(r))
    decreases |b|
  {
    hide Minifiable, Minified;
    var tail := [QUOTE] + r;
    var s := b + tail;
    if b == [] {
      assert s == tail && tail[1..] == r;
      if Minifiable(r) { assert [] + ([QUOTE] + Minified(r)) == [QUOTE] + Minified(r); }
    } else if b[0] == BACKSLASH {
      assert s[2..] == b[2..] + tail && s[..2] == b[..2];
      BodyIs(b[2..], r);
      if Minifiable(r) { assert b[..2] + (b[2..] + ([QUOTE] + Minified(r))) == b + ([QUOTE] + Minified(r)); }
    } else {
      assert s[1..] == b[1..] + tail;
      BodyIs(b[1..], r);
      if Minifiable(r) { assert [b[0]] + (b[1..] + ([QUOTE] + Minified(r))) == b + ([QUOTE] + Minified(r)); }
    }
  }

  lemma {:induction false} SomeBody(s: bytes) returns (n: nat)
    requires LiteralMinifiable(s)
    ensures n < |s| && s[n] == QUOTE && LiteralBody(s[..n])
    decreases |s|
  {
    hide Minifiable;
    if s[0] == QUOTE {
      n := 0;
    } else if s[0] == BACKSLASH {
      n := SomeBody(s[2..]);
      assert s[..n + 2][2..] == s[2..][..n];
      n := n + 2;
    } else {
      n := SomeBody(s[1..]);
      assert s[..n + 1][1..] == s[1..][..n];
      n := n + 1;
    }
  }

  lemma LiteralIs(s: bytes, used: nat)
    requires used <= |s| && LiteralUpTo(s, used) && s[0] == QUOTE
    ensures Minifiable(s) == Minifiable(s[used..])
    ensures Minifiable(s) ==> Minified(s) == s[..used] + Minified(s[used..])
  {
    hide LiteralMinifiable, MinifiedLiteral, LiteralBody, Minifiable, Minified;
    var b, r := s[1..used - 1], s[used..];
    BodyIs(b, r);
    Cut(s, used);
    LiteralStep(s);
    if Minifiable(r) { Regroup(b, Minified(r)); }
  }

  lemma Cut(s: bytes, used: nat)
    requires 2 <= used <= |s| && s[0] == QUOTE && s[used - 1] == QUOTE
    ensures s[1..] == s[1..used - 1] + ([QUOTE] + s[used..])
    ensures s[..used] == [QUOTE] + s[1..used - 1] + [QUOTE]
  {
  }

  lemma Regroup(b: bytes, x: bytes)
    ensures [QUOTE] + (b + ([QUOTE] + x)) == [QUOTE] + b + [QUOTE] + x
  {
  }

  lemma LiteralStep(s: bytes)
    requires s != [] && s[0] == QUOTE
    ensures Minifiable(s) == LiteralMinifiable(s[1..])
    ensures Minifiable(s) ==> Minified(s) == [QUOTE] + MinifiedLiteral(s[1..])
  {
    hide LiteralMinifiable, MinifiedLiteral;
  }

  /** A piece is minified to what is kept of it. */
  lemma PieceIs(s: bytes, used: nat, kept: bytes)
    requires Piece(s, used, kept)
    ensures Minifiable(s) == Minifiable(s[used..])
    ensures Minifiable(s) ==> Minified(s) == kept + Minified(s[used..])
  {
    hide IsWhite, Starts, LineUpTo, CommentUpTo, LiteralUpTo;
    WhiteIs(s[0]);
    StartsIs(s);
    if !White(s[0]) && StartsLineComment(s) {
      LineIs(s, used);
    } else if !White(s[0]) && StartsBlockComment(s) {
      CommentIs(s, used);
    } else if s[0] == QUOTE {
      LiteralIs(s, used);
    }
    hide AfterLine, AfterComment, CommentCloses, LiteralMinifiable, MinifiedLiteral;
  }

  /** Every text that can be minified starts with a piece. */
  lemma SomePiece(s: bytes) returns (used: nat, kept: bytes)
    requires s != [] && Minifiable(s)
    ensures Piece(s, used, kept)
  {
    WhiteIs(s[0]);
    StartsIs(s);
    hide IsWhite, Starts;
    if White(s[0]) {
      used, kept := 1, [];
    } else if StartsLineComment(s) {
      kept := [];
      used := SomeLine(s);
      assert used > 0;
    } else if StartsBlockComment(s) {
      kept := [];
      used := SomeComment(s);
    } else if s[0] == QUOTE {
      var n := SomeBody(s[1..]);
      used, kept := n + 2, s[..n + 2];
      assert s[1..n + 1] == s[1..][..n];
    } else {
      used, kept := 1, s[..1];
    }
  }

  // ----- whole texts -----

  /** A text can be minified exactly when it consists of pieces, and what is left of them is the result. */
  lemma {:induction false} MinifiedStrips(s: bytes)
    requires Minifiable(s)
    ensures Strips(s, Minified(s))
    decreases |s|
  {
    hide Piece, Minifiable, Minified;
    if s == [] {
      NothingLeft();
    } else {
      var used, kept := SomePiece(s);
      UsedIs(s, used, kept);
      PieceIs(s, used, kept);
      MinifiedStrips(s[used..]);
      var out := Minified(s);
      assert out[..|kept|] == kept && out[|kept|..] == Minified(s[used..]);
      assert Leads(s, used, out, |kept|);
    }
  }

  lemma NothingLeft()
    ensures Minifiable([]) && Minified([]) == []
  {
  }

  lemma UsedIs(s: bytes, used: nat, kept: bytes)
    requires Piece(s, used, kept)
    ensures 0 < used <= |s|
  {
  }

  lemma FirstPiece(s: bytes, out: bytes) returns (used: nat, k: nat)
    requires s != [] && Strips(s, out)
    ensures 0 < used <= |s| && k <= |out| && Piece(s, used, out[..k]) && Strips(s[used..], out[k..])
  {
    hide Piece;
    used, k :| Leads(s, used, out, k) && Strips(s[used..], out[k..]);
  }

  lemma {:induction false} StripsMinified(s: bytes, out: bytes)
    requires Strips(s, out)
    ensures Minifiable(s) && Minified(s) == out
    decreases |s|
  {
    if s == [] {
      NothingLeft();
    } else {
      hide Piece, Minifiable, Minified, Strips;
      var used, k := FirstPiece(s, out);
      StripsMinified(s[used..], out[k..]);
      PieceIs(s, used, out[..k]);
      assert out == out[..k] + out[k..];
    }
  }
}
