/** The bit operations of parse_string on code points, and what they compute. */
module Utf8Bits {
  import opened Bytes
  import opened Bits
  import opened Utf8

  /** A trailing byte: of the bits that are left the low six, with bit 7 set and bit 6 cleared. */
  function TrailingByte(uc: nat): (b: byte)
    ensures b as int == 0x80 + uc % 64
  {
    TrailingBits(uc);
    And(Or(uc, 0x80), 0xBF) as byte
  }

  /** The bits that are left after that. */
  function SixLess(uc: nat): (r: nat)
    ensures r == uc / 64
  {
    ShiftDivides(uc, 6);
    Powers();
    Shift(uc, 6)
  }

  /** The first byte: the bits that are left, or-ed with the mark of the width. */
  function LeadByte(uc: nat, width: nat): (b: byte)
    requires 1 <= width <= 4 && uc < 0x100 - LeadMark(width)
    ensures b as int == uc + LeadMark(width)
  {
    MarkAdds(uc, width);
    Or(uc, LeadMark(width)) as byte
  }

  /** The marks do not overlap the bits that are left. */
  lemma MarkAdds(uc: nat, width: nat)
    requires 1 <= width <= 4 && uc < 0x100 - LeadMark(width)
    ensures Or(uc, LeadMark(width)) == uc + LeadMark(width)
  {
    Powers();
    hide Power;
    if width == 2 {
      OrApart(uc, 3, 6);
    } else if width == 3 {
      OrApart(uc, 7, 5);
    } else if width == 4 {
      OrApart(uc, 15, 4);
    }
  }

  /** The code point of a surrogate pair: ten bits of each. */
  function PairPoint(uc: nat, uc2: nat): (r: nat)
    requires HighSurrogate(uc) && LowSurrogate(uc2)
    ensures r == 0x10000 + (uc - 0xD800) * 0x400 + (uc2 - 0xDC00)
  {
    PairAdds(uc, uc2);
    0x10000 + Or(And(uc, 0x3FF) * 0x400, And(uc2, 0x3FF))
  }

  lemma PairAdds(uc: nat, uc2: nat)
    requires HighSurrogate(uc) && LowSurrogate(uc2)
    ensures Or(And(uc, 0x3FF) * 0x400, And(uc2, 0x3FF)) == (uc - 0xD800) * 0x400 + (uc2 - 0xDC00)
  {
    Powers();
    hide Power, Or, And;
    TenBits(uc);
    TenBits(uc2);
    assert uc % 0x400 == uc - 0xD800 && uc2 % 0x400 == uc2 - 0xDC00;
    OrApart(uc2 - 0xDC00, uc - 0xD800, 10);
    OrCommutes((uc - 0xD800) * 0x400, uc2 - 0xDC00);
  }
}
