/** The texts of the children of a container, and how the printers join them. */
module Joining {
  import opened Bytes
  import opened Literal
  import opened Json

  /** The printed children, in order. */
  function Texts(c: Chain, named: bool, depth: nat, fmt: bool): (ts: seq<bytes>)
    requires PrintableItems(c, named)
  {
    if c.Nil? then [] else [Print(c.value, depth, fmt)] + Texts(c.next, named, depth, fmt)
  }

  /** The printed keys, in order. */
  function Keys(c: Chain): (ts: seq<bytes>)
    requires PrintableItems(c, true)
  {
    if c.Nil? then [] else [Quoted(c.name.text)] + Keys(c.next)
  }

  /** The first k elements of an array with what follows each of them. */
  function ItemsTo(ts: seq<bytes>, k: nat, fmt: bool): bytes
    requires k <= |ts|
  {
    if k == 0 then [] else ItemsTo(ts, k - 1, fmt) + ts[k - 1] + ItemSeparator(k == |ts|, fmt)
  }

  /** The space print_array reserves for them. */
  function ItemsLength(ts: seq<bytes>, k: nat, fmt: bool): nat
    requires k <= |ts|
  {
    if k == 0 then 0 else ItemsLength(ts, k - 1, fmt) + |ts[k - 1]| + 2 + (if fmt then 1 else 0)
  }

  lemma {:induction false} ItemsFit(ts: seq<bytes>, k: nat, fmt: bool)
    requires k <= |ts|
    ensures |ItemsTo(ts, k, fmt)| <= ItemsLength(ts, k, fmt)
  {
    if k > 0 { ItemsFit(ts, k - 1, fmt); }
  }

  lemma {:induction false} ItemsGrow(ts: seq<bytes>, k: nat, fmt: bool)
    requires k <= |ts|
    ensures |ItemsTo(ts, k, fmt)| <= |ItemsTo(ts, |ts|, fmt)|
    decreases |ts| - k
  {
    if k < |ts| { ItemsGrow(ts, k + 1, fmt); }
  }

  /** The k-th member of an object with its indentation and what follows it. */
  function MemberText(key: bytes, value: bytes, last: bool, depth: nat, fmt: bool): bytes {
    KeyText(key, depth, fmt) + value + MemberSeparator(last, fmt)
  }

  function KeyText(key: bytes, depth: nat, fmt: bool): bytes {
    (if fmt then Tabs(depth) else []) + key + KeySeparator(fmt)
  }

  function MembersTo(ns: seq<bytes>, ts: seq<bytes>, k: nat, depth: nat, fmt: bool): bytes
    requires k <= |ts| == |ns|
  {
    if k == 0 then []
    else MembersTo(ns, ts, k - 1, depth, fmt) + MemberText(ns[k - 1], ts[k - 1], k == |ts|, depth, fmt)
  }

  /** The space print_object reserves for them. */
  function MembersLength(ns: seq<bytes>, ts: seq<bytes>, k: nat, depth: nat, fmt: bool): nat
    requires k <= |ts| && k <= |ns|
  {
    if k == 0 then 0
    else MembersLength(ns, ts, k - 1, depth, fmt) + |ts[k - 1]| + |ns[k - 1]| + 2 + (if fmt then 2 + depth else 0)
  }

  lemma {:induction false} MembersFit(ns: seq<bytes>, ts: seq<bytes>, k: nat, depth: nat, fmt: bool)
    requires k <= |ts| == |ns|
    ensures |MembersTo(ns, ts, k, depth, fmt)| <= MembersLength(ns, ts, k, depth, fmt)
  {
    if k > 0 { MembersFit(ns, ts, k - 1, depth, fmt); }
  }

  lemma {:induction false} MembersGrow(ns: seq<bytes>, ts: seq<bytes>, k: nat, depth: nat, fmt: bool)
    requires k <= |ts| == |ns|
    ensures |MembersTo(ns, ts, k, depth, fmt)| <= |MembersTo(ns, ts, |ts|, depth, fmt)|
    decreases |ts| - k
  {
    if k < |ts| { MembersGrow(ns, ts, k + 1, depth, fmt); }
  }

  // ----- joining is printing -----

  function ItemsFrom(ts: seq<bytes>, k: nat, fmt: bool): bytes
    requires k <= |ts|
    decreases |ts| - k
  {
    if k == |ts| then [] else ts[k] + ItemSeparator(k + 1 == |ts|, fmt) + ItemsFrom(ts, k + 1, fmt)
  }

  lemma {:induction false} ItemsMeet(ts: seq<bytes>, k: nat, fmt: bool)
    requires k <= |ts|
    ensures ItemsTo(ts, k, fmt) + ItemsFrom(ts, k, fmt) == ItemsTo(ts, |ts|, fmt)
    decreases |ts| - k
  {
    if k == |ts| {
      assert ItemsTo(ts, k, fmt) + [] == ItemsTo(ts, k, fmt);
    } else {
      ItemsMeet(ts, k + 1, fmt);
      var a, b, c, d := ItemsTo(ts, k, fmt), ts[k], ItemSeparator(k + 1 == |ts|, fmt), ItemsFrom(ts, k + 1, fmt);
      assert a + (b + c + d) == a + b + c + d;
    }
  }

  lemma {:induction false} ItemsTail(t: bytes, ts: seq<bytes>, k: nat, fmt: bool)
    requires k <= |ts|
    ensures ItemsFrom([t] + ts, k + 1, fmt) == ItemsFrom(ts, k, fmt)
    decreases |ts| - k
  {
    if k < |ts| { ItemsTail(t, ts, k + 1, fmt); }
  }

  lemma {:induction false} TextsLength(c: Chain, named: bool, depth: nat, fmt: bool)
    requires PrintableItems(c, named)
    ensures |Texts(c, named, depth, fmt)| == Length(c)
  {
    if c.Cons? { TextsLength(c.next, named, depth, fmt); }
  }

  function Length(c: Chain): nat {
    if c.Nil? then 0 else 1 + Length(c.next)
  }

  lemma {:induction false} ItemsPrint(c: Chain, depth: nat, fmt: bool)
    requires PrintableItems(c, false)
    ensures PrintItems(c, depth, fmt) == ItemsFrom(Texts(c, false, depth, fmt), 0, fmt)
    decreases c
  {
    hide Print;
    if c.Cons? {
      var t, ts := Print(c.value, depth, fmt), Texts(c.next, false, depth, fmt);
      ItemsPrint(c.next, depth, fmt);
      TextsLength(c.next, false, depth, fmt);
      ItemsTail(t, ts, 0, fmt);
      var all := Texts(c, false, depth, fmt);
      assert all == [t] + ts && all[0] == t;
      assert c.next.Nil? <==> |ts| == 0;
      assert ItemsFrom(all, 0, fmt) == t + ItemSeparator(1 == |all|, fmt) + ItemsFrom(all, 1, fmt);
    }
  }

  /** The elements joined by print_array are the text of the array. */
  lemma ArrayPrint(c: Chain, depth: nat, fmt: bool)
    requires PrintableItems(c, false)
    ensures var ts := Texts(c, false, depth + 1, fmt);
      Print(Array(c), depth, fmt) == [LBRACKET] + ItemsTo(ts, |ts|, fmt) + [RBRACKET]
  {
    hide PrintItems, Texts;
    var ts := Texts(c, false, depth + 1, fmt);
    ItemsPrint(c, depth + 1, fmt);
    ItemsMeet(ts, 0, fmt);
    assert ItemsTo(ts, 0, fmt) + ItemsFrom(ts, 0, fmt) == ItemsFrom(ts, 0, fmt);
  }

  function MembersFrom(ns: seq<bytes>, ts: seq<bytes>, k: nat, depth: nat, fmt: bool): bytes
    requires k <= |ts| == |ns|
    decreases |ts| - k
  {
    if k == |ts| then []
    else MemberText(ns[k], ts[k], k + 1 == |ts|, depth, fmt) + MembersFrom(ns, ts, k + 1, depth, fmt)
  }

  lemma {:induction false} MembersMeet(ns: seq<bytes>, ts: seq<bytes>, k: nat, depth: nat, fmt: bool)
    requires k <= |ts| == |ns|
    ensures MembersTo(ns, ts, k, depth, fmt) + MembersFrom(ns, ts, k, depth, fmt) == MembersTo(ns, ts, |ts|, depth, fmt)
    decreases |ts| - k
  {
    hide MemberText;
    if k == |ts| {
      assert MembersTo(ns, ts, k, depth, fmt) + [] == MembersTo(ns, ts, k, depth, fmt);
    } else {
      MembersMeet(ns, ts, k + 1, depth, fmt);
      var a, b := MembersTo(ns, ts, k, depth, fmt), MemberText(ns[k], ts[k], k + 1 == |ts|, depth, fmt);
      assert a + (b + MembersFrom(ns, ts, k + 1, depth, fmt)) == a + b + MembersFrom(ns, ts, k + 1, depth, fmt);
    }
  }

  lemma {:induction false} MembersTail(n: bytes, ns: seq<bytes>, t: bytes, ts: seq<bytes>, k: nat, depth: nat,
                                       fmt: bool)
    requires k <= |ts| == |ns|
    ensures MembersFrom([n] + ns, [t] + ts, k + 1, depth, fmt) == MembersFrom(ns, ts, k, depth, fmt)
    decreases |ts| - k
  {
    hide MemberText;
    assert ([n] + ns)[1..] == ns && ([t] + ts)[1..] == ts;
    if k < |ts| {
      MembersTail(n, ns, t, ts, k + 1, depth, fmt);
      assert ([n] + ns)[k + 1] == ns[k] && ([t] + ts)[k + 1] == ts[k];
    }
  }

  lemma {:induction false} KeysLength(c: Chain)
    requires PrintableItems(c, true)
    ensures |Keys(c)| == Length(c)
  {
    if c.Cons? { KeysLength(c.next); }
  }

  lemma {:induction false} MembersPrint(c: Chain, depth: nat, fmt: bool)
    requires PrintableItems(c, true)
    ensures |Keys(c)| == |Texts(c, true, depth, fmt)|
    ensures PrintMembers(c, depth, fmt) == MembersFrom(Keys(c), Texts(c, true, depth, fmt), 0, depth, fmt)
    decreases c
  {
    hide Print, Quoted;
    KeysLength(c);
    TextsLength(c, true, depth, fmt);
    if c.Cons? {
      var n, t := Quoted(c.name.text), Print(c.value, depth, fmt);
      var ns, ts := Keys(c.next), Texts(c.next, true, depth, fmt);
      MembersPrint(c.next, depth, fmt);
      KeysLength(c.next);
      TextsLength(c.next, true, depth, fmt);
      MembersTail(n, ns, t, ts, 0, depth, fmt);
      var all, all' := Keys(c), Texts(c, true, depth, fmt);
      assert all == [n] + ns && all[0] == n && all' == [t] + ts && all'[0] == t;
      assert MembersFrom(all, all', 0, depth, fmt)
          == MemberText(n, t, 1 == |all'|, depth, fmt) + MembersFrom(all, all', 1, depth, fmt);
    }
  }

  /** The members joined by print_object are the text of the object. */
  lemma ObjectPrint(c: Chain, depth: nat, fmt: bool)
    requires PrintableItems(c, true) && c.Cons?
    ensures var ns, ts := Keys(c), Texts(c, true, depth + 1, fmt);
      && |ns| == |ts|
      && Print(Object(c), depth, fmt) ==
        (if fmt then [LBRACE, NEWLINE] else [LBRACE]) + MembersTo(ns, ts, |ts|, depth + 1, fmt)
        + (if fmt then Tabs(depth) else []) + [RBRACE]
  {
    hide PrintMembers, Texts, Keys, MemberText;
    var ns, ts := Keys(c), Texts(c, true, depth + 1, fmt);
    MembersPrint(c, depth + 1, fmt);
    MembersMeet(ns, ts, 0, depth + 1, fmt);
    assert MembersTo(ns, ts, 0, depth + 1, fmt) + MembersFrom(ns, ts, 0, depth + 1, fmt)
        == MembersFrom(ns, ts, 0, depth + 1, fmt);
  }

  /** The text of an array never needs more than print_array allocates. */
  lemma ArrayFits(c: Chain, depth: nat, fmt: bool)
    requires PrintableItems(c, false)
    ensures var ts := Texts(c, false, depth + 1, fmt);
      |Print(Array(c), depth, fmt)| + 1 <= 5 + ItemsLength(ts, |ts|, fmt)
  {
    hide Texts, Print, ItemsLength;
    var ts := Texts(c, false, depth + 1, fmt);
    ArrayPrint(c, depth, fmt);
    ItemsFit(ts, |ts|, fmt);
  }

  /** The text of an object never needs more than print_object allocates. */
  lemma ObjectFits(c: Chain, depth: nat, fmt: bool)
    requires PrintableItems(c, true) && c.Cons?
    ensures var ns, ts := Keys(c), Texts(c, true, depth + 1, fmt);
      && |ns| == |ts|
      && |Print(Object(c), depth, fmt)| + 1
        <= 7 + (if fmt then depth + 1 else 0) + MembersLength(ns, ts, |ts|, depth + 1, fmt)
  {
    hide Texts, Keys, Print, MembersLength;
    var ns, ts := Keys(c), Texts(c, true, depth + 1, fmt);
    ObjectPrint(c, depth, fmt);
    MembersFit(ns, ts, |ts|, depth + 1, fmt);
  }

  // ----- growing the list of texts -----

  lemma {:induction false} ItemsLengthSnoc(ts: seq<bytes>, t: bytes, k: nat, fmt: bool)
    requires k <= |ts|
    ensures ItemsLength(ts + [t], k, fmt) == ItemsLength(ts, k, fmt)
  {
    if k > 0 { ItemsLengthSnoc(ts, t, k - 1, fmt); }
  }

  lemma {:induction false} MembersLengthSnoc(ns: seq<bytes>, n: bytes, ts: seq<bytes>, t: bytes, k: nat, depth: nat,
                                             fmt: bool)
    requires k <= |ts| && k <= |ns|
    ensures MembersLength(ns + [n], ts + [t], k, depth, fmt) == MembersLength(ns, ts, k, depth, fmt)
  {
    if k > 0 { MembersLengthSnoc(ns, n, ts, t, k - 1, depth, fmt); }
  }

  lemma NulFreeAppend(s: bytes, t: bytes)
    requires NulFree(s) && NulFree(t)
    ensures NulFree(s + t)
  {
  }

  lemma {:induction false} ItemsNulFree(ts: seq<bytes>, k: nat, fmt: bool)
    requires k <= |ts| && forall i | 0 <= i < |ts| :: NulFree(ts[i])
    ensures NulFree(ItemsTo(ts, k, fmt))
  {
    hide NulFree;
    if k == 0 {
      assert NulFree([]) by { NulFreeEmpty(); }
    } else {
      ItemsNulFree(ts, k - 1, fmt);
      SeparatorsNulFree(k == |ts|, fmt, 0);
      NulFreeAppend(ItemsTo(ts, k - 1, fmt), ts[k - 1]);
      NulFreeAppend(ItemsTo(ts, k - 1, fmt) + ts[k - 1], ItemSeparator(k == |ts|, fmt));
    }
  }

  lemma NulFreeEmpty()
    ensures NulFree([])
  {
  }

  lemma SeparatorsNulFree(last: bool, fmt: bool, depth: nat)
    ensures NulFree(ItemSeparator(last, fmt)) && NulFree(MemberSeparator(last, fmt)) && NulFree(KeySeparator(fmt))
    ensures NulFree(Tabs(depth))
  {
  }

  lemma {:induction false} MembersNulFree(ns: seq<bytes>, ts: seq<bytes>, k: nat, depth: nat, fmt: bool)
    requires k <= |ts| == |ns|
    requires (forall i | 0 <= i < |ts| :: NulFree(ts[i])) && (forall i | 0 <= i < |ns| :: NulFree(ns[i]))
    ensures NulFree(MembersTo(ns, ts, k, depth, fmt))
  {
    if k > 0 {
      MembersNulFree(ns, ts, k - 1, depth, fmt);
      MemberNulFree(ns[k - 1], ts[k - 1], k == |ts|, depth, fmt);
      NulFreeAppend(MembersTo(ns, ts, k - 1, depth, fmt), MemberText(ns[k - 1], ts[k - 1], k == |ts|, depth, fmt));
    }
  }

  lemma MemberNulFree(key: bytes, value: bytes, last: bool, depth: nat, fmt: bool)
    requires NulFree(key) && NulFree(value)
    ensures NulFree(MemberText(key, value, last, depth, fmt))
  {
    hide NulFree;
    SeparatorsNulFree(last, fmt, depth);
    NulFreeEmpty();
    var tabs := if fmt then Tabs(depth) else [];
    NulFreeAppend(tabs, key);
    NulFreeAppend(tabs + key, KeySeparator(fmt));
    NulFreeAppend(tabs + key + KeySeparator(fmt), value);
    NulFreeAppend(tabs + key + KeySeparator(fmt) + value, MemberSeparator(last, fmt));
  }
}
