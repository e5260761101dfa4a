/** Bytes, C strings and the characters the JSON code tests for. */
module Bytes {

  newtype byte = x: int | 0 <= x < 256

  type bytes = seq<byte>

  const NUL: byte := 0
  const TAB: byte := 9
  const NEWLINE: byte := 10
  const RETURN: byte := 13
  const SPACE: byte := 32
  const QUOTE: byte := 34       // "
  const STAR: byte := 42        // *
  const PLUS: byte := 43        // +
  const COMMA: byte := 44       // ,
  const MINUS: byte := 45       // -
  const DOT: byte := 46         // .
  const SLASH: byte := 47       // /
  const DIGIT_0: byte := 48     // 0
  const COLON: byte := 58       // :
  const LBRACKET: byte := 91    // [
  const BACKSLASH: byte := 92   // \
  const RBRACKET: byte := 93    // ]
  const LOWER_U: byte := 117    // u
  const LBRACE: byte := 123     // {
  const RBRACE: byte := 125     // }

  /** The byte a C program reads at index i of the NUL-terminated text s. */
  function At(s: bytes, i: nat): byte
    requires i <= |s|
  {
    if i < |s| then s[i] else NUL
  }

  predicate NulFree(s: bytes) {
    forall i | 0 <= i < |s| :: s[i] != NUL
  }

  /** The text of the C string stored in a buffer: its bytes up to the first NUL. */
  function CString(buf: bytes): (s: bytes)
    ensures NulFree(s)
    ensures s <= buf
    ensures NUL in buf ==> |s| < |buf| && buf[|s|] == NUL
  {
    if buf == [] || buf[0] == NUL then []
    else
      var t := CString(buf[1..]);
      [buf[0]] + t
  }

  /** A buffer that holds a NUL-free text followed by a NUL reads back as that text. */
  lemma {:induction false} CStringIs(buf: bytes, s: bytes)
    requires NulFree(s)
    requires |s| < |buf| && buf[..|s|] == s && buf[|s|] == NUL
    ensures CString(buf) == s
  {
    if s != [] {
      assert buf[1..][..|s| - 1] == s[1..] by { assert buf[..|s|][1..] == s[1..]; }
      assert buf[0] == s[0];
      CStringIs(buf[1..], s[1..]);
    }
  }

  /** The bytes `skip` jumps over: 1 to 32. */
  predicate Blank(b: byte) {
    0 < b <= 32
  }

  predicate Digit(b: byte) {
    48 <= b <= 57
  }

  /** tolower in the C locale. */
  function Lower(b: byte): byte {
    if 65 <= b <= 90 then b + 32 else b
  }

  /** The text from its first non-blank byte on. */
  function Skip(s: bytes): (r: bytes)
    ensures |r| <= |s|
    ensures r != [] ==> !Blank(r[0])
  {
    if s != [] && Blank(s[0]) then Skip(s[1..]) else s
  }

  lemma {:induction false} SkipBlanks(w: bytes, s: bytes)
    requires forall i | 0 <= i < |w| :: Blank(w[i])
    ensures Skip(w + s) == Skip(s)
  {
    if w == [] {
      assert w + s == s;
    } else {
      assert (w + s)[1..] == w[1..] + s;
      SkipBlanks(w[1..], s);
    }
  }

  /** n copies of the byte b. */
  function Repeat(b: byte, n: nat): (r: bytes)
    ensures |r| == n && forall i | 0 <= i < n :: r[i] == b
  {
    seq(n, _ => b)
  }
}
