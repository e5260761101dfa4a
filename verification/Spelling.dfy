/** Characters as they are written in the standards: the tables that say what the code's character tests and
    conversions mean, independently of how it computes them. */
module Spelling {
  import opened Bytes

  /** The bytes of a text of ASCII characters. */
  function Ascii(s: string): (r: bytes)
    requires forall i | 0 <= i < |s| :: s[i] as int < 128
    ensures |r| == |s| && forall i | 0 <= i < |s| :: r[i] as int == s[i] as int
  {
    seq(|s|, i requires 0 <= i < |s| => s[i] as int as byte)
  }

  const DIGITS := Ascii("0123456789")
  const HEX_LOWER := Ascii("0123456789abcdef")
  const HEX_UPPER := Ascii("0123456789ABCDEF")
  const LETTERS_LOWER := Ascii("abcdefghijklmnopqrstuvwxyz")
  const LETTERS_UPPER := Ascii("ABCDEFGHIJKLMNOPQRSTUVWXYZ")

  /** The characters the code tests for. */
  lemma Characters()
    ensures [TAB, NEWLINE, RETURN, SPACE] == Ascii("\t\n\r ") && [BACKSLASH, QUOTE] == Ascii("\\\"")
    ensures [STAR, PLUS, COMMA, MINUS, DOT, SLASH, COLON] == Ascii("*+,-./:")
    ensures [LBRACKET, RBRACKET, LBRACE, RBRACE, DIGIT_0, LOWER_U] == Ascii("[]{}0u")
  {
  }

  // ----- letters -----

  /** b and c are the two cases of the k-th letter. */
  predicate TwoCases(k: nat, b: byte, c: byte) {
    k < 26 && ((b == LETTERS_UPPER[k] && c == LETTERS_LOWER[k]) || (b == LETTERS_LOWER[k] && c == LETTERS_UPPER[k]))
  }

  /** The same character, ignoring case. */
  predicate SameLetter(b: byte, c: byte) {
    b == c || exists k: nat | k < 26 :: TwoCases(k, b, c)
  }

  lemma Alphabet(k: nat)
    requires k < 26
    ensures LETTERS_UPPER[k] as int == 65 + k && LETTERS_LOWER[k] as int == 97 + k
  {
  }

  /** tolower folds the 26 pairs of letters, and nothing else. */
  lemma LowerFolds(b: byte, c: byte)
    ensures Lower(b) == Lower(c) <==> SameLetter(b, c)
  {
    if k: nat :| k < 26 && TwoCases(k, b, c) {
      Alphabet(k);
    }
    if Lower(b) == Lower(c) && b != c {
      var k := (if b < c then b else c) as nat - 65;
      Alphabet(k);
      assert TwoCases(k, b, c);
    }
  }
}
