/** cJSON_Minify: what it removes, in place, and why the tree does not change. */
module Minify {
  import opened Bytes

  // ----- the specification -----

  /** The four whitespace characters the minifier drops. */
  predicate White(b: byte) {
    b == SPACE || b == TAB || b == RETURN || b == NEWLINE
  }

  predicate StartsLineComment(s: bytes) {
    |s| >= 2 && s[0] == SLASH && s[1] == SLASH
  }

  predicate StartsBlockComment(s: bytes) {
    |s| >= 2 && s[0] == SLASH && s[1] == STAR
  }

  function AfterLine(s: bytes): (r: bytes)
    ensures |r| <= |s| && (s != [] && s[0] != NEWLINE ==> |r| < |s|)
  {
    if s == [] || s[0] == NEWLINE then s else AfterLine(s[1..])
  }

  predicate CommentCloses(s: bytes) {
    |s| >= 2 && ((s[0] == STAR && s[1] == SLASH) || CommentCloses(s[1..]))
  }

  function AfterComment(s: bytes): (r: bytes)
    requires CommentCloses(s)
    ensures |r| < |s|
  {
    if s[0] == STAR && s[1] == SLASH then s[2..] else AfterComment(s[1..])
  }

  /** Every literal and block comment the minifier enters is terminated: it reads no byte past the NUL. */
  predicate Minifiable(s: bytes)
    decreases |s|
  {
    if s == [] then true
    else if White(s[0]) then Minifiable(s[1..])
    else if StartsLineComment(s) then Minifiable(AfterLine(s))
    else if StartsBlockComment(s) then CommentCloses(s) && Minifiable(AfterComment(s))
    else if s[0] == QUOTE then LiteralMinifiable(s[1..])
    else Minifiable(s[1..])
  }

  /** The same inside a literal. */
  predicate LiteralMinifiable(s: bytes)
    decreases |s|
  {
    if s == [] then false
    else if s[0] == QUOTE then Minifiable(s[1..])
    else if s[0] == BACKSLASH then |s| >= 2 && LiteralMinifiable(s[2..])
    else LiteralMinifiable(s[1..])
  }

  /** The text the minifier leaves. */
  function Minified(s: bytes): bytes
    requires Minifiable(s)
    decreases |s|
  {
    if s == [] then []
    else if White(s[0]) then Minified(s[1..])
    else if StartsLineComment(s) then Minified(AfterLine(s))
    else if StartsBlockComment(s) then Minified(AfterComment(s))
    else if s[0] == QUOTE then [QUOTE] + MinifiedLiteral(s[1..])
    else [s[0]] + Minified(s[1..])
  }

  function MinifiedLiteral(s: bytes): bytes
    requires LiteralMinifiable(s)
    decreases |s|
  {
    if s[0] == QUOTE then [QUOTE] + Minified(s[1..])
    else if s[0] == BACKSLASH then s[..2] + MinifiedLiteral(s[2..])
    else [s[0]] + MinifiedLiteral(s[1..])
  }

  // ----- the algorithm -----

  /** From the read cursor on, the array still holds the text and its terminator. */
  ghost predicate Unread(a: array<byte>, s: bytes, json: nat)
    reads a
  {
    |s| < a.Length && json <= |s| && a[|s|] == NUL && forall k | json <= k < |s| :: a[k] == s[k]
  }

  method PassLine(a: array<byte>, ghost s: bytes, start: nat) returns (json: nat)
    requires NulFree(s) && Unread(a, s, start)
    ensures start <= json <= |s| && s[json..] == AfterLine(s[start..])
  {
    json := start;
    while a[json] != NUL && a[json] != NEWLINE
      invariant start <= json <= |s|
      invariant AfterLine(s[json..]) == AfterLine(s[start..])
      decreases |s| - json
    {
      assert s[json..][1..] == s[json + 1..];
      json := json + 1;
    }
  }

  method PassComment(a: array<byte>, ghost s: bytes, start: nat) returns (json: nat)
    requires NulFree(s) && Unread(a, s, start) && CommentCloses(s[start..])
    ensures start <= json <= |s| && s[json..] == AfterComment(s[start..])
  {
    json := start;
    while a[json] != NUL && !(a[json] == STAR && a[json + 1] == SLASH)
      invariant start <= json <= |s| && CommentCloses(s[json..])
      invariant AfterComment(s[json..]) == AfterComment(s[start..])
      decreases |s| - json
    {
      assert s[json..][1..] == s[json + 1..];
      json := json + 1;
    }
    assert s[json..][2..] == s[json + 2..];
    json := json + 2;
  }

  /** The array starts with the text written so far. */
  ghost predicate Written(a: array<byte>, out: bytes)
    reads a
  {
    |out| <= a.Length && forall k | 0 <= k < |out| :: a[k] == out[k]
  }

  lemma Shift(out: bytes, moved: bytes, rest: bytes)
    ensures (out + moved) + rest == out + (moved + rest)
  {
  }

  /** Copies one byte down; both cursors move on in the caller. */
  method CopyByte(a: array<byte>, ghost s: bytes, into: nat, json: nat, ghost out: bytes)
    requires |out| == into <= json < |s| && Unread(a, s, json) && Written(a, out)
    modifies a
    ensures Unread(a, s, json + 1) && Written(a, out + [s[json]])
    ensures forall k | |s| < k < a.Length :: a[k] == old(a[k])
  {
    a[into] := a[json];
  }

  /** Copies a literal down, quotes included. */
  method CopyLiteral(a: array<byte>, ghost s: bytes, into0: nat, json0: nat, ghost out0: bytes)
    returns (into: nat, json: nat, ghost out: bytes)
    requires NulFree(s) && |out0| == into0 <= json0 < |s| && Unread(a, s, json0) && Written(a, out0)
    requires s[json0] == QUOTE && LiteralMinifiable(s[json0 + 1..])
    modifies a
    ensures |out| == into <= json <= |s| && json0 < json && Unread(a, s, json) && Written(a, out)
    ensures forall k | |s| < k < a.Length :: a[k] == old(a[k])
    ensures Minifiable(s[json..])
    ensures out + Minified(s[json..]) == out0 + ([QUOTE] + MinifiedLiteral(s[json0 + 1..]))
  {
    hide Minified, Minifiable, MinifiedLiteral, LiteralMinifiable, Written;
    ghost var goal := out0 + ([QUOTE] + MinifiedLiteral(s[json0 + 1..]));
    CopyByte(a, s, into0, json0, out0);
    into, json, out := into0 + 1, json0 + 1, out0 + [QUOTE];
    Shift(out0, [QUOTE], MinifiedLiteral(s[json..]));
    LiteralEnds(s[json..]);
    while a[json] != NUL && a[json] != QUOTE
      invariant |out| == into <= json < |s| && json0 < json && Unread(a, s, json) && Written(a, out)
      invariant forall k | |s| < k < a.Length :: a[k] == old(a[k])
      invariant LiteralMinifiable(s[json..])
      invariant out + MinifiedLiteral(s[json..]) == goal
      decreases |s| - json
    {
      ghost var n, rest := if s[json] == BACKSLASH then 2 else 1, s[json..];
      LiteralStep(s, json, n);
      Shift(out, rest[..n], MinifiedLiteral(s[json + n..]));
      UnitTaken(s, json, n, out);
      if a[json] == BACKSLASH {
        CopyByte(a, s, into, json, out);
        out := out + [s[json]];
        into, json := into + 1, json + 1;
      }
      CopyByte(a, s, into, json, out);
      out := out + [s[json]];
      into, json := into + 1, json + 1;
      LiteralEnds(s[json..]);
    }
    LiteralStep(s, json, 1);
    Shift(out, [QUOTE], Minified(s[json + 1..]));
    CopyByte(a, s, into, json, out);
    out := out + [QUOTE];
    into, json := into + 1, json + 1;
  }

  /** The characters of one step, one by one. */
  lemma UnitTaken(s: bytes, json: nat, n: nat, out: bytes)
    requires json + n <= |s| && 1 <= n <= 2
    ensures out + s[json..][..n] == if n == 2 then out + [s[json]] + [s[json + 1]] else out + [s[json]]
  {
  }

  lemma LiteralEnds(s: bytes)
    requires LiteralMinifiable(s)
    ensures s != []
  {
  }

  /** One step of the minifier's scan through a literal. */
  lemma LiteralStep(s: bytes, json: nat, n: nat)
    requires json < |s| && LiteralMinifiable(s[json..])
    requires n == if s[json] == BACKSLASH then 2 else 1
    ensures json + n <= |s|
    ensures var rest := s[json..];
      if s[json] == QUOTE then
        Minifiable(s[json + n..]) && MinifiedLiteral(rest) == [QUOTE] + Minified(s[json + n..])
      else
        LiteralMinifiable(s[json + n..]) && MinifiedLiteral(rest) == rest[..n] + MinifiedLiteral(s[json + n..])
  {
    hide Minified, Minifiable;
    assert s[json..][n..] == s[json + n..];
  }

  /** One step of the minifier outside literals. */
  lemma TextStep(s: bytes, json: nat)
    requires json < |s| && Minifiable(s[json..])
    ensures var rest := s[json..];
      if White(s[json]) then Minifiable(s[json + 1..]) && Minified(rest) == Minified(s[json + 1..])
      else if StartsLineComment(rest) then
        Minifiable(AfterLine(rest)) && Minified(rest) == Minified(AfterLine(rest))
      else if StartsBlockComment(rest) then
        CommentCloses(rest) && Minifiable(AfterComment(rest)) && Minified(rest) == Minified(AfterComment(rest))
      else if s[json] == QUOTE then
        LiteralMinifiable(s[json + 1..]) && Minified(rest) == [QUOTE] + MinifiedLiteral(s[json + 1..])
      else Minifiable(s[json + 1..]) && Minified(rest) == [s[json]] + Minified(s[json + 1..])
  {
    hide AfterLine, CommentCloses, AfterComment, MinifiedLiteral, LiteralMinifiable;
    assert s[json..][1..] == s[json + 1..];
  }

  /** Rewrites the C string in a; the write cursor never passes the read cursor. */
  method MinifyInPlace(a: array<byte>, ghost s: bytes)
    requires NulFree(s) && Minifiable(s) && Unread(a, s, 0)
    modifies a
    ensures CString(a[..]) == Minified(s)
    ensures forall k | |s| < k < a.Length :: a[k] == old(a[k])
  {
    hide Minified, Minifiable, MinifiedLiteral, LiteralMinifiable;
    var into, json := 0, 0;
    ghost var out: bytes := [];
    assert s[0..] == s;
    while a[json] != NUL
      invariant |out| == into <= json <= |s| && Unread(a, s, json) && Written(a, out)
      invariant forall k | |s| < k < a.Length :: a[k] == old(a[k])
      invariant Minifiable(s[json..])
      invariant out + Minified(s[json..]) == Minified(s)
      decreases |s| - json
    {
      TextStep(s, json);
      if a[json] == SPACE || a[json] == TAB || a[json] == RETURN || a[json] == NEWLINE {
        json := json + 1;
      } else if a[json] == SLASH && a[json + 1] == SLASH {
        assert json + 1 < |s|;
        json := PassLine(a, s, json);
      } else if a[json] == SLASH && a[json + 1] == STAR {
        assert json + 1 < |s|;
        json := PassComment(a, s, json);
      } else if a[json] == QUOTE {
        into, json, out := CopyLiteral(a, s, into, json, out);
      } else {
        Shift(out, [s[json]], Minified(s[json + 1..]));
        out := out + [s[json]];
        a[into] := a[json];
        into, json := into + 1, json + 1;
      }
    }
    MinifiedEmpty(s[json..]);
    assert out == Minified(s);
    a[into] := NUL;
    MinifiedNulFree(s);
    CStringIs(a[..], out);
  }

  lemma MinifiedEmpty(s: bytes)
    requires s == []
    ensures Minifiable(s) && Minified(s) == []
  {
  }

  lemma {:induction false} MinifiedNulFree(s: bytes)
    requires NulFree(s) && Minifiable(s)
    ensures NulFree(Minified(s))
    decreases |s|
  {
    if s == [] {
    } else if White(s[0]) {
      MinifiedNulFree(s[1..]);
    } else if StartsLineComment(s) {
      AfterLineNulFree(s);
      MinifiedNulFree(AfterLine(s));
    } else if StartsBlockComment(s) {
      AfterCommentNulFree(s);
      MinifiedNulFree(AfterComment(s));
    } else if s[0] == QUOTE {
      MinifiedLiteralNulFree(s[1..]);
    } else {
      MinifiedNulFree(s[1..]);
    }
  }

  lemma {:induction false} MinifiedLiteralNulFree(s: bytes)
    requires NulFree(s) && LiteralMinifiable(s)
    ensures NulFree(MinifiedLiteral(s))
    decreases |s|
  {
    if s[0] == QUOTE {
      MinifiedNulFree(s[1..]);
    } else if s[0] == BACKSLASH {
      MinifiedLiteralNulFree(s[2..]);
    } else {
      MinifiedLiteralNulFree(s[1..]);
    }
  }

  lemma {:induction false} AfterLineNulFree(s: bytes)
    requires NulFree(s)
    ensures NulFree(AfterLine(s))
  {
    if s != [] && s[0] != NEWLINE { AfterLineNulFree(s[1..]); }
  }

  lemma {:induction false} AfterCommentNulFree(s: bytes)
    requires NulFree(s) && CommentCloses(s)
    ensures NulFree(AfterComment(s))
  {
    if !(s[0] == STAR && s[1] == SLASH) { AfterCommentNulFree(s[1..]); }
  }
}
