/** Cutting a byte stream into HTTP messages: the head search, the split into lines, the Content-length
    lookup and the segment check. */
module HttpSegment {
  import opened Bytes
  import opened Spelling
  import opened Json
  import opened ParserScan
  import RoundTrip

  const CR: byte := 13
  const LF: byte := 10

  /** HTTP_HEAD_MAX_NUM */
  const MAX_LINES: nat := 128

  // ----- the head -----

  /** The blank line that ends a head stands at i. */
  predicate BlankLineAt(data: bytes, i: nat) {
    i + 4 <= |data| && data[i] == CR && data[i + 1] == LF && data[i + 2] == CR && data[i + 3] == LF
  }

  /** i is the place of the first blank line. */
  predicate HeadEndsAt(data: bytes, i: nat) {
    BlankLineAt(data, i) && forall j | 0 <= j < i :: !BlankLineAt(data, j)
  }

  /** find_http_head, from the start of the data. */
  method FindHead(data: bytes) returns (index: int)
    ensures index == -1 <==> forall i: nat :: !BlankLineAt(data, i)
    ensures index != -1 ==> index >= 0 && HeadEndsAt(data, index)
  {
    index := 0;
    while index < |data| - 3
      invariant index >= 0 && forall j | 0 <= j < index :: !BlankLineAt(data, j)
    {
      if data[index] == CR && data[index + 1] == LF && data[index + 2] == CR && data[index + 3] == LF {
        assert BlankLineAt(data, index);
        return;
      }
      index := index + 1;
    }
    index := -1;
  }

  // ----- lines -----

  predicate Separator(b: byte) {
    b == CR || b == LF
  }

  /** The text without the separators it starts with. */
  function SkipSeparators(s: bytes): (r: bytes)
    ensures |r| <= |s| && (r != [] ==> !Separator(r[0]))
  {
    if s != [] && Separator(s[0]) then SkipSeparators(s[1..]) else s
  }

  /** The length of the run of other bytes it starts with. */
  function RunLength(s: bytes): (n: nat)
    ensures n <= |s| && (n < |s| ==> Separator(s[n])) && forall i | 0 <= i < n :: !Separator(s[i])
  {
    if s == [] || Separator(s[0]) then 0 else 1 + RunLength(s[1..])
  }

  /** The lines strtok finds: the maximal runs of bytes other than CR and LF. */
  function Lines(s: bytes): (ls: seq<bytes>)
    decreases |s|
  {
    var r := SkipSeparators(s);
    if r == [] then []
    else
      var n := RunLength(r);
      [r[..n]] + Lines(r[n..])
  }

  function Take(ls: seq<bytes>, n: nat): seq<bytes> {
    if |ls| <= n then ls else ls[..n]
  }

  // ----- Content-length -----

  /** The name of the field with its colon. */
  const FIELD := Ascii("Content-length:")

  /** The line starts with the name of the field and a colon, ignoring case. */
  predicate IsField(line: bytes) {
    |line| >= |FIELD| && forall i | 0 <= i < |FIELD| :: SameLetter(line[i], FIELD[i])
  }

  /** isspace */
  predicate Space(b: byte) {
    b == SPACE || 9 <= b <= 13
  }

  function SkipSpaces(s: bytes): (r: bytes)
    ensures |r| <= |s|
  {
    if s != [] && Space(s[0]) then SkipSpaces(s[1..]) else s
  }

  /** The blanks and tabs strspn counts. */
  function SkipTabs(s: bytes): (r: bytes)
    ensures |r| <= |s|
  {
    if s != [] && (s[0] == SPACE || s[0] == TAB) then SkipTabs(s[1..]) else s
  }

  /** The value of the number that atoi reads. */
  function Atoi(s: bytes): int {
    var t := SkipSpaces(s);
    if t != [] && t[0] == MINUS then -(DigitsValue(t[1..], 0) as int)
    else if t != [] && t[0] == PLUS then DigitsValue(t[1..], 0)
    else DigitsValue(t, 0)
  }

  /** The value of the first Content-length line, 0 without one. */
  function FieldValue(ls: seq<bytes>): int {
    if ls == [] then 0
    else if IsField(ls[0]) then Atoi(SkipTabs(ls[0][|FIELD|..]))
    else FieldValue(ls[1..])
  }

  /** What get_content_length finds in a head: only its first MAX_LINES lines count, and only up to a NUL. */
  function ContentLength(head: bytes): int {
    FieldValue(Take(Lines(CString(head + [NUL])), MAX_LINES))
  }

  // ----- the segment check -----

  /** The length of the message at the start of the data, or -1: no complete head, or a negative length. */
  ghost function Segment(data: bytes): (n: int)
    ensures n >= -1
  {
    if exists i: nat :: HeadEndsAt(data, i) then
      var i: nat :| HeadEndsAt(data, i);
      var c := ContentLength(data[..i]);
      if c >= 0 then i + 4 + c else -1
    else -1
  }

  lemma HeadUnique(data: bytes, i: nat, j: nat)
    requires HeadEndsAt(data, i) && HeadEndsAt(data, j)
    ensures i == j
  {
  }

  lemma SegmentIs(data: bytes, i: nat)
    requires HeadEndsAt(data, i)
    ensures var c := ContentLength(data[..i]); Segment(data) == if c >= 0 then i + 4 + c else -1
  {
    hide ContentLength;
    forall j: nat | HeadEndsAt(data, j) ensures j == i { HeadUnique(data, i, j); }
  }

  /** More data after the head, or less, does not move its end. */
  lemma HeadStable(data: bytes, data': bytes, i: nat)
    requires HeadEndsAt(data, i) && i + 4 <= |data'| && data'[..i + 4] == data[..i + 4]
    ensures HeadEndsAt(data', i)
  {
    forall k | 0 <= k < i + 4 ensures data'[k] == data[k] {
      assert data'[..i + 4][k] == data[..i + 4][k];
    }
    forall j | 0 <= j < i ensures !BlankLineAt(data', j) {
      assert !BlankLineAt(data, j);
    }
  }

  /** While data arrives: no length until the head is complete, and from then on always the same one. */
  lemma {:induction false} PrefixStable(data: bytes, i: nat, n: nat)
    requires HeadEndsAt(data, i) && n <= |data|
    ensures Segment(data[..n]) == if n < i + 4 then -1 else Segment(data)
  {
    hide ContentLength;
    var d := data[..n];
    if n < i + 4 {
      forall j: nat ensures !HeadEndsAt(d, j) {
        assert BlankLineAt(d, j) ==> BlankLineAt(data, j);
      }
    } else {
      assert d[..i + 4] == data[..i + 4];
      HeadStable(data, d, i);
      SegmentIs(data, i);
      SegmentIs(d, i);
      assert d[..i] == data[..i];
    }
  }

  /** The result of C code that calculates with int. */
  datatype Answer = Int(n: int) | Undefined

  /** Every int calculated for the data is in range: the value of the field, which atoi needs to fit an int,
      and the sum with the length of the head. */
  ghost predicate InRange(data: bytes) {
    forall i: nat | HeadEndsAt(data, i) ::
      Int32(ContentLength(data[..i])) && Int32(i + 4 + ContentLength(data[..i]))
  }

  /** That is no restriction for a message that has arrived completely. */
  lemma CompleteInRange(data: bytes)
    requires |data| <= 0x7FFF_FFFF && 0 <= Segment(data) <= |data|
    ensures InRange(data)
  {
    hide ContentLength;
    forall i: nat | HeadEndsAt(data, i)
      ensures 0 <= ContentLength(data[..i]) && i + 4 + ContentLength(data[..i]) <= |data|
    {
      SegmentIs(data, i);
    }
  }

  // ----- messages and streams -----

  /** A message is as long as its head says. */
  ghost predicate Framed(m: bytes) {
    exists i: nat :: HeadEndsAt(m, i) && ContentLength(m[..i]) == |m| - i - 4
  }

  /** Whatever follows, the check gives the length of the first message, and it gives that length for no
      other beginning of the data. */
  lemma {:induction false} SegmentExact(m: bytes, rest: bytes)
    ensures m != [] ==> (Segment(m + rest) == |m| <==> Framed(m))
  {
    hide ContentLength;
    var data := m + rest;
    if Framed(m) {
      var i: nat :| HeadEndsAt(m, i) && ContentLength(m[..i]) == |m| - i - 4;
      assert data[..i + 4] == m[..i + 4];
      HeadStable(m, data, i);
      SegmentIs(data, i);
      assert data[..i] == m[..i];
    }
    if m != [] && Segment(data) == |m| {
      var i: nat :| HeadEndsAt(data, i);
      SegmentIs(data, i);
      assert m[..i + 4] == data[..i + 4];
      HeadStable(data, m, i);
      assert data[..i] == m[..i];
    }
  }

  lemma FramedNonempty(m: bytes)
    requires Framed(m)
    ensures |m| >= 4
  {
  }

  /** Repeated application of the check: the messages at the start of a stream. */
  ghost function Segments(stream: bytes): seq<bytes>
    decreases |stream|
  {
    var n := Segment(stream);
    if 0 < n <= |stream| then [stream[..n]] + Segments(stream[n..]) else []
  }

  function Concat(ms: seq<bytes>): bytes {
    if ms == [] then [] else ms[0] + Concat(ms[1..])
  }

  lemma SegmentsStep(stream: bytes, m: bytes, tail: bytes)
    requires stream == m + tail && m != [] && Segment(stream) == |m|
    ensures Segments(stream) == [m] + Segments(tail)
  {
    hide Segment;
    assert stream[..|m|] == m && stream[|m|..] == tail;
  }

  /** A concatenation of messages is cut back into exactly these messages, whatever follows them. */
  lemma {:induction false} SegmentsOfConcat(ms: seq<bytes>, rest: bytes)
    requires forall k | 0 <= k < |ms| :: Framed(ms[k])
    ensures Segments(Concat(ms) + rest) == ms + Segments(rest)
    decreases |ms|
  {
    hide Framed, Segment, Segments;
    if ms == [] {
      assert Concat(ms) + rest == rest;
      assert ms + Segments(rest) == Segments(rest);
    } else {
      var m, tail := ms[0], Concat(ms[1..]) + rest;
      var stream := Concat(ms) + rest;
      assert stream == m + tail;
      assert Framed(m);
      FramedNonempty(m);
      SegmentExact(m, tail);
      SegmentsStep(stream, m, tail);
      SegmentsOfConcat(ms[1..], rest);
      assert [m] + (ms[1..] + Segments(rest)) == ms + Segments(rest);
    }
  }

  /** So a stream is a concatenation of messages in one way only. */
  lemma {:induction false} FramingUnique(ms: seq<bytes>, ms': seq<bytes>)
    requires (forall k | 0 <= k < |ms| :: Framed(ms[k])) && (forall k | 0 <= k < |ms'| :: Framed(ms'[k]))
    requires Concat(ms) == Concat(ms')
    ensures ms == ms'
  {
    hide Framed, Segment;
    SegmentsOfConcat(ms, []);
    SegmentsOfConcat(ms', []);
    assert Segments([]) == [] by { NoSegments(); }
    assert ms + [] == ms && ms' + [] == ms';
  }

  lemma NoSegments()
    ensures Segments([]) == []
  {
    assert forall i: nat :: !BlankLineAt([], i);
  }

  // ----- the code -----

  lemma LinesStep(s: bytes)
    ensures var r := SkipSeparators(s); var n := RunLength(r);
      && Lines(s) == (if r == [] then [] else [r[..n]] + Lines(r[n..]))
      && (r != [] ==> n > 0)
  {
  }

  lemma SkipOne(s: bytes)
    requires s != [] && Separator(s[0])
    ensures SkipSeparators(s) == SkipSeparators(s[1..]) && Lines(s) == Lines(s[1..])
  {
    LinesStep(s);
    LinesStep(s[1..]);
  }

  lemma {:induction false} RunIs(s: bytes, n: nat)
    requires n <= |s| && (forall i | 0 <= i < n :: !Separator(s[i])) && (n < |s| ==> Separator(s[n]))
    ensures RunLength(s) == n
  {
    if n > 0 { RunIs(s[1..], n - 1); }
  }

  /** The buffer from `from` on is still the text, and its terminator. */
  ghost predicate Rest(buf: seq<byte>, text: bytes, from: nat) {
    && from <= |text| < |buf| && NulFree(text)
    && forall i | from <= i <= |text| :: buf[i] == At(text, i)
  }

  /** A line at p, terminated. */
  ghost predicate LineAt(buf: seq<byte>, p: nat, line: bytes) {
    && p + |line| < |buf| && buf[p + |line|] == NUL
    && forall j | 0 <= j < |line| :: buf[p + j] == line[j]
  }

  /** The part of strtok that passes over separators. */
  method PassSeparators(buf: array<byte>, from: nat, ghost text: bytes) returns (start: nat)
    requires Rest(buf[..], text, from)
    ensures from <= start <= |text| && SkipSeparators(text[from..]) == text[start..]
  {
    hide SkipSeparators;
    start := from;
    while Separator(buf[start])
      invariant from <= start <= |text| && SkipSeparators(text[start..]) == SkipSeparators(text[from..])
      decreases |text| - start
    {
      assert buf[..][start] == At(text, start);
      Next(text, start);
      SkipStep(text[start..]);
      start := start + 1;
    }
    assert buf[..][start] == At(text, start);
    if start < |text| { Next(text, start); }
    SkipStep(text[start..]);
  }

  lemma SkipStep(s: bytes)
    ensures SkipSeparators(s) == if s != [] && Separator(s[0]) then SkipSeparators(s[1..]) else s
  {
  }

  /** The part of strtok that passes over the line. */
  method PassLine(buf: array<byte>, start: nat, ghost text: bytes) returns (end: nat)
    requires Rest(buf[..], text, start)
    ensures start <= end <= |text| && RunLength(text[start..]) == end - start && buf[end] == At(text, end)
    ensures end < |text| ==> Separator(text[end])
  {
    hide RunLength;
    end := start;
    while buf[end] != NUL && !Separator(buf[end])
      invariant start <= end <= |text| && forall i | 0 <= i < end - start :: !Separator(text[start..][i])
      decreases |text| - end
    {
      assert buf[..][end] == At(text, end);
      end := end + 1;
    }
    assert buf[..][end] == At(text, end);
    RunIs(text[start..], end - start);
  }

  /** One call of strtok: the start of the next line, which is terminated in place, and where the search
      goes on; at the end of the text there is no line. */
  method NextLine(buf: array<byte>, from: nat, ghost text: bytes)
    returns (found: bool, start: nat, ghost end: nat, next: nat)
    requires Rest(buf[..], text, from)
    modifies buf
    ensures from <= start <= end <= next <= |text| && Rest(buf[..], text, next)
    ensures forall i | 0 <= i < buf.Length && i != end :: buf[i] == old(buf[i])
    ensures !found ==> Lines(text[from..]) == [] && buf[..] == old(buf[..])
    ensures found ==> start < end && LineAt(buf[..], start, text[start..end])
    ensures found ==> Lines(text[from..]) == [text[start..end]] + Lines(text[next..])
    ensures buf[end] == NUL || buf[end] == old(buf[end])
  {
    hide SkipSeparators, RunLength, Lines;
    start := PassSeparators(buf, from, text);
    LinesStep(text[from..]);
    end, next := start, start;
    found := buf[start] != NUL;
    if !found {
      assert buf[..][start] == At(text, start);
      return;
    }
    assert buf[..][start] == At(text, start);
    var stop := PassLine(buf, start, text);
    end, next := stop, stop;
    Middle(text, start, stop);
    if buf[stop] != NUL {
      Next(text, stop);
      SkipOne(text[stop..]);
      buf[stop] := NUL;
      next := stop + 1;
    }
  }

  lemma Middle(text: bytes, start: nat, end: nat)
    requires start <= end <= |text|
    ensures text[start..][..end - start] == text[start..end] && text[start..][end - start..] == text[end..]
  {
  }

  /** The first lines are found, and each is a C string at its place in the buffer. */
  ghost predicate Found(buf: seq<byte>, dest: seq<nat>, ls: seq<bytes>, limit: nat) {
    |ls| <= |dest| && forall k | 0 <= k < |ls| :: LineAt(buf, dest[k], ls[k]) && dest[k] + |ls[k]| <= limit
  }

  /** split with "\r\n" on a terminated buffer, for the MAX_LINES places of `dest`: the first lines, each
      terminated in place. */
  method Split(buf: array<byte>, dest: array<nat>) returns (num: nat)
    requires NUL in buf[..] && dest.Length == MAX_LINES
    modifies buf, dest
    ensures num <= MAX_LINES && Found(buf[..], dest[..], Take(Lines(CString(old(buf[..]))), MAX_LINES), buf.Length)
    ensures num == |Take(Lines(CString(old(buf[..]))), MAX_LINES)|
  {
    hide CString, Lines, LineAt, Rest;
    ghost var text := CString(buf[..]);
    ghost var all := Lines(text);
    ghost var ls: seq<bytes> := [];
    AtStart(buf[..]);
    num := 0;
    var next := 0;
    ghost var left := all;
    assert ls + left == all && text[0..] == text;
    while true
      invariant Rest(buf[..], text, next) && next <= |text| < buf.Length && num == |ls| < MAX_LINES
      invariant Found(buf[..], dest[..], ls, next) && left == Lines(text[next..]) && ls + left == all
      decreases MAX_LINES - num
    {
      ghost var buf0, dest0, next0 := buf[..], dest[..], next;
      var found, start;
      ghost var end;
      found, start, end, next := NextLine(buf, next, text);
      if !found { break; }
      dest[num] := start;
      num := num + 1;
      FoundMore(buf0, buf[..], dest0, ls, next0, start, end, next, text[start..end]);
      assert dest[..] == dest0[num - 1 := start];
      assert ls + ([text[start..end]] + Lines(text[next..])) == ls + [text[start..end]] + Lines(text[next..]);
      ls, left := ls + [text[start..end]], Lines(text[next..]);
      if num == MAX_LINES { break; }
    }
    LinesTaken(ls, left, all);
    FoundLess(buf[..], dest[..], ls, next, buf.Length);
  }

  /** One more line. */
  lemma FoundMore(buf: seq<byte>, buf': seq<byte>, dest: seq<nat>, ls: seq<bytes>, limit: nat, start: nat, end: nat,
                  limit': nat, line: bytes)
    requires Found(buf, dest, ls, limit) && |ls| < |dest| && |buf'| == |buf| && limit <= start
      && start + |line| == end <= limit' && end < |buf|
    requires forall i | 0 <= i < |buf| && i != end :: buf'[i] == buf[i]
    requires (buf[end] == NUL ==> buf'[end] == NUL) && LineAt(buf', start, line)
    ensures Found(buf', dest[|ls| := start], ls + [line], limit')
  {
    var ls', dest' := ls + [line], dest[|ls| := start];
    forall k | 0 <= k < |ls| ensures LineAt(buf', dest'[k], ls'[k]) {
      assert LineAt(buf, dest[k], ls[k]);
    }
  }

  lemma FoundLess(buf: seq<byte>, dest: seq<nat>, ls: seq<bytes>, limit: nat, limit': nat)
    requires Found(buf, dest, ls, limit) && limit <= limit'
    ensures Found(buf, dest, ls, limit')
  {
    hide LineAt;
  }

  lemma LinesTaken(ls: seq<bytes>, more: seq<bytes>, all: seq<bytes>)
    requires ls + more == all && |ls| <= MAX_LINES && (|ls| == MAX_LINES || more == [])
    ensures ls == Take(all, MAX_LINES)
  {
  }

  lemma AtStart(buf: seq<byte>)
    requires NUL in buf
    ensures Rest(buf, CString(buf), 0)
  {
    hide CString;
  }

  /** strncasecmp with the name of the field, for a line in the buffer. */
  method IsFieldAt(buf: array<byte>, p: nat, ghost line: bytes) returns (same: bool)
    requires LineAt(buf[..], p, line) && NulFree(line)
    ensures same == IsField(line)
  {
    var j := 0;
    while j < |FIELD|
      invariant j <= |line| && j <= |FIELD| && forall i | 0 <= i < j :: SameLetter(line[i], FIELD[i])
    {
      assert buf[..][p + j] == At(line, j);
      LowerFolds(buf[p + j], FIELD[j]);
      if Lower(buf[p + j]) != Lower(FIELD[j]) { return false; }
      j := j + 1;
    }
    same := true;
  }

  /** The strspn of blanks and tabs. */
  method PassTabs(s: bytes, i: nat) returns (j: nat)
    requires NulFree(s) && i <= |s|
    ensures i <= j <= |s| && s[j..] == SkipTabs(s[i..])
  {
    hide SkipTabs;
    j := i;
    while At(s, j) == SPACE || At(s, j) == TAB
      invariant i <= j <= |s| && SkipTabs(s[j..]) == SkipTabs(s[i..])
      decreases |s| - j
    {
      Next(s, j);
      TabsStep(s[j..]);
      j := j + 1;
    }
    if j < |s| { Next(s, j); }
    TabsStep(s[j..]);
  }

  lemma TabsStep(s: bytes)
    ensures SkipTabs(s) == if s != [] && (s[0] == SPACE || s[0] == TAB) then SkipTabs(s[1..]) else s
    ensures SkipSpaces(s) == if s != [] && Space(s[0]) then SkipSpaces(s[1..]) else s
  {
  }

  /** atoi */
  method ReadInt(s: bytes, i: nat) returns (n: int)
    requires NulFree(s) && i <= |s|
    ensures n == Atoi(s[i..])
  {
    hide SkipSpaces, DigitsValue;
    var j := i;
    while Space(At(s, j))
      invariant i <= j <= |s| && SkipSpaces(s[j..]) == SkipSpaces(s[i..])
      decreases |s| - j
    {
      Next(s, j);
      TabsStep(s[j..]);
      j := j + 1;
    }
    if j < |s| { Next(s, j); }
    TabsStep(s[j..]);
    var minus := At(s, j) == MINUS;
    if minus || At(s, j) == PLUS { j := j + 1; }
    var m, end := ReadDigits(s, j, 0);
    n := if minus then -(m as int) else m;
  }

  /** get_content_length of the first `index` bytes; `memory` says whether malloc has room for a copy of
      them. atoi is undefined for a number outside the range of int. */
  method GetContentLength(data: bytes, index: nat, memory: bool) returns (r: Answer)
    requires index <= |data|
    ensures r ==
      if !memory then Int(-1)
      else if Int32(ContentLength(data[..index])) then Int(ContentLength(data[..index]))
      else Undefined
  {
    hide Lines, CString, Take, FieldValue, LineAt, IsField;
    if !memory { return Int(-1); }
    ghost var head := data[..index] + [NUL];
    var buf := new byte[index + 1](i => if 0 <= i < index && i < |data| then data[i] else NUL);
    assert buf[..] == head && head[index] == NUL;
    var dest := new nat[MAX_LINES](_ => 0);
    var num := Split(buf, dest);
    ghost var ls := Take(Lines(CString(head)), MAX_LINES);
    LinesNulFree(CString(head));
    TakenNulFree(Lines(CString(head)), MAX_LINES);
    r := Int(0);
    var i := 0;
    assert ls[0..] == ls;
    while i < num
      invariant r == Int(0) && i <= num == |ls| && FieldValue(ls) == FieldValue(ls[i..])
      invariant Found(buf[..], dest[..], ls, buf.Length)
    {
      ValueStep(ls[i..]);
      assert ls[i..][0] == ls[i] && ls[i..][1..] == ls[i + 1..];
      var same := IsFieldAt(buf, dest[i], ls[i]);
      if same {
        var s := CString(buf[dest[i]..]);
        LineReads(buf[..], dest[i], ls[i]);
        FieldLong(ls[i]);
        var j := PassTabs(s, |FIELD|);
        var n := ReadInt(s, j);
        r := if Int32(n) then Int(n) else Undefined;
        return;
      }
      i := i + 1;
    }
    ValueStep(ls[i..]);
  }

  lemma ValueStep(ls: seq<bytes>)
    ensures ls == [] ==> FieldValue(ls) == 0
    ensures ls != [] ==>
      FieldValue(ls) == if IsField(ls[0]) then Atoi(SkipTabs(ls[0][|FIELD|..])) else FieldValue(ls[1..])
    ensures ls != [] && IsField(ls[0]) ==> |ls[0]| >= |FIELD|
  {
  }

  lemma FieldLong(line: bytes)
    requires IsField(line)
    ensures |line| >= |FIELD|
  {
  }

  lemma LineReads(buf: bytes, p: nat, line: bytes)
    requires LineAt(buf, p, line) && NulFree(line)
    ensures CString(buf[p..]) == line
  {
    hide CString;
    assert buf[p..][..|line|] == line;
    CStringIs(buf[p..], line);
  }

  lemma {:induction false} LinesNulFree(s: bytes)
    requires NulFree(s)
    ensures forall k | 0 <= k < |Lines(s)| :: NulFree(Lines(s)[k])
    decreases |s|
  {
    SkippedNulFree(s);
    var r := SkipSeparators(s);
    if r != [] {
      var n := RunLength(r);
      LinesNulFree(r[n..]);
    }
  }

  lemma {:induction false} SkippedNulFree(s: bytes)
    requires NulFree(s)
    ensures NulFree(SkipSeparators(s))
  {
    if s != [] && Separator(s[0]) { SkippedNulFree(s[1..]); }
  }

  lemma TakenNulFree(ls: seq<bytes>, n: nat)
    requires forall k | 0 <= k < |ls| :: NulFree(ls[k])
    ensures forall k | 0 <= k < |Take(ls, n)| :: NulFree(Take(ls, n)[k])
  {
    hide NulFree;
  }

  /** http_segment_check of data whose length is an int; `memory` is the answer of malloc to the copy of the
      head. */
  method SegmentCheck(data: bytes, memory: bool) returns (r: Answer)
    requires |data| <= 0x7FFF_FFFF
    ensures r == if !memory then Int(-1) else if InRange(data) then Int(Segment(data)) else Undefined
  {
    hide ContentLength;
    var index := FindHead(data);
    if index == -1 { return Int(-1); }
    SegmentIs(data, index);
    forall j: nat | HeadEndsAt(data, j) ensures j == index { HeadUnique(data, index, j); }
    assert HeadEndsAt(data, index);
    var length := GetContentLength(data, index, memory);
    if length == Undefined { return Undefined; }
    if length.n >= 0 {
      var sum := index + 4 + length.n;
      r := if Int32(sum) then Int(sum) else Undefined;
    } else {
      r := Int(-1);
    }
  }

  // ----- messages as their senders write them -----

  const CRLF: bytes := [CR, LF]

  lemma LineEnd()
    ensures CRLF == Ascii("\r\n")
  {
  }

  /** A header line: not empty, and without line ends and NUL. */
  predicate HeaderLine(l: bytes) {
    l != [] && forall i | 0 <= i < |l| :: l[i] != CR && l[i] != LF && l[i] != NUL
  }

  predicate HeaderLines(ls: seq<bytes>) {
    forall k | 0 <= k < |ls| :: HeaderLine(ls[k])
  }

  /** The lines with a line end between them. */
  function Join(ls: seq<bytes>): bytes {
    if ls == [] then [] else if |ls| == 1 then ls[0] else ls[0] + CRLF + Join(ls[1..])
  }

  /** The name of the field as senders write it, with the colon and a blank. */
  const FIELD_NAME := Ascii("Content-Length: ")

  /** The line that states a length of n. */
  function FieldLine(n: nat): bytes {
    FIELD_NAME + NatText(n)
  }

  function Message(ls: seq<bytes>, body: bytes): bytes {
    Join(ls) + CRLF + CRLF + body
  }

  lemma LineThenSeparators(l: bytes, seps: bytes, s: bytes)
    requires HeaderLine(l) && (forall i | 0 <= i < |seps| :: Separator(seps[i])) && (seps == [] ==> s == [])
    ensures Lines(l + seps + s) == [l] + Lines(s)
    decreases |seps|
  {
    var t := l + seps + s;
    assert SkipSeparators(t) == t;
    RunIs(t, |l|);
    assert t[..|l|] == l && t[|l|..] == seps + s;
    SeparatorsSkipped(seps, s);
  }

  lemma {:induction false} SeparatorsSkipped(seps: bytes, s: bytes)
    requires forall i | 0 <= i < |seps| :: Separator(seps[i])
    ensures Lines(seps + s) == Lines(s)
  {
    if seps == [] {
      assert seps + s == s;
    } else {
      assert (seps + s)[1..] == seps[1..] + s;
      SkipOne(seps + s);
      SeparatorsSkipped(seps[1..], s);
    }
  }

  /** The split finds the lines that were joined. */
  lemma {:induction false} LinesOfJoin(ls: seq<bytes>)
    requires HeaderLines(ls)
    ensures Lines(Join(ls)) == ls
    decreases |ls|
  {
    hide Lines;
    if ls == [] {
      LinesStep([]);
    } else if |ls| == 1 {
      LineThenSeparators(ls[0], [], []);
      LinesStep([]);
      assert ls[0] + [] + [] == ls[0];
    } else {
      LinesOfJoin(ls[1..]);
      LineThenSeparators(ls[0], CRLF, Join(ls[1..]));
    }
  }

  /** The first blank line of a message is the one behind its head. */
  lemma {:induction false} HeadOfMessage(ls: seq<bytes>, body: bytes)
    requires HeaderLines(ls)
    ensures HeadEndsAt(Message(ls, body), |Join(ls)|)
    decreases |ls|
  {
    var m := Message(ls, body);
    if |ls| <= 1 {
      forall j | 0 <= j < |Join(ls)| ensures !BlankLineAt(m, j) { assert m[j] == ls[0][j]; }
    } else {
      var l, rest := ls[0], Message(ls[1..], body);
      HeadOfMessage(ls[1..], body);
      assert m == l + CRLF + rest;
      assert rest[0] == ls[1][0] by { JoinStarts(ls[1..], body); }
      forall j | 0 <= j < |Join(ls)| ensures !BlankLineAt(m, j) {
        if j < |l| {
          assert m[j] == l[j];
        } else if j == |l| {
          assert m[j + 2] == rest[0];
        } else if j == |l| + 1 {
          assert m[j] == LF;
        } else {
          assert BlankLineAt(m, j) ==> BlankLineAt(rest, j - |l| - 2);
        }
      }
    }
  }

  lemma JoinStarts(ls: seq<bytes>, body: bytes)
    requires HeaderLines(ls) && ls != []
    ensures Message(ls, body)[0] == ls[0][0] && !Separator(ls[0][0])
  {
    assert HeaderLine(ls[0]);
  }

  lemma {:induction false} JoinNulFree(ls: seq<bytes>)
    requires HeaderLines(ls)
    ensures NulFree(Join(ls))
    decreases |ls|
  {
    if |ls| == 1 {
      assert HeaderLine(ls[0]);
    } else if ls != [] {
      assert HeaderLine(ls[0]);
      JoinNulFree(ls[1..]);
    }
  }

  lemma JoinedLength(ls: seq<bytes>)
    requires HeaderLines(ls)
    ensures ContentLength(Join(ls)) == FieldValue(Take(ls, MAX_LINES))
  {
    JoinNulFree(ls);
    CStringIs(Join(ls) + [NUL], Join(ls));
    LinesOfJoin(ls);
  }

  /** The field as it is written reads back as its number. */
  lemma FieldReads(n: nat)
    ensures IsField(FieldLine(n)) && Atoi(SkipTabs(FieldLine(n)[|FIELD|..])) == n && HeaderLine(FieldLine(n))
  {
    var t := NatText(n);
    FieldParts(t);
    assert Digit(t[0]);
    RoundTrip.FoldNatText(n);
    RoundTrip.DigitsOf(t, [], 0);
    assert t + [] == t;
    hide NatText, DigitsValue, IsField, SkipTabs, Atoi;
    AtoiDigits(t);
  }

  lemma NameIs(i: nat)
    requires i < |FIELD|
    ensures |FIELD_NAME| == |FIELD| + 1 && SameLetter(FIELD_NAME[i], FIELD[i])
  {
    LowerFolds(FIELD_NAME[i], FIELD[i]);
    hide SameLetter;
  }

  lemma NameInLine()
    ensures FIELD_NAME[|FIELD|..] == [SPACE]
    ensures forall i | 0 <= i < |FIELD_NAME| :: FIELD_NAME[i] != CR && FIELD_NAME[i] != LF && FIELD_NAME[i] != NUL
  {
  }

  /** The name of the field, and the blank that strspn passes over. */
  lemma FieldParts(t: bytes)
    requires t != [] && forall i | 0 <= i < |t| :: Digit(t[i])
    ensures var line := FIELD_NAME + t; IsField(line) && SkipTabs(line[|FIELD|..]) == t && HeaderLine(line)
  {
    var line := FIELD_NAME + t;
    NameInLine();
    hide SameLetter, Ascii;
    forall i | 0 <= i < |FIELD| ensures line[i] == FIELD_NAME[i] && SameLetter(line[i], FIELD[i]) {
      NameIs(i);
    }
    assert line[|FIELD|..] == [SPACE] + t;
    assert ([SPACE] + t)[1..] == t;
    TabsStep([SPACE] + t);
    TabsStep(t);
  }

  lemma AtoiDigits(t: bytes)
    requires t != [] && Digit(t[0])
    ensures Atoi(t) == DigitsValue(t, 0)
  {
    hide DigitsValue;
    TabsStep(t);
  }

  /** The first Content-length line among those that count decides. */
  lemma {:induction false} FieldFirst(ls: seq<bytes>, k: nat)
    requires k <= |ls| && forall i | 0 <= i < k :: !IsField(ls[i])
    ensures k == |ls| ==> FieldValue(ls) == 0
    ensures k < |ls| && IsField(ls[k]) ==> FieldValue(ls) == Atoi(SkipTabs(ls[k][|FIELD|..]))
    decreases k
  {
    if k > 0 { FieldFirst(ls[1..], k - 1); }
  }

  /** A message whose first Content-length line states the length of the body is framed exactly when that
      line is among the first MAX_LINES lines of the head, or the body is empty. */
  lemma {:induction false} MessageFramed(ls: seq<bytes>, k: nat, body: bytes)
    requires HeaderLines(ls) && k < |ls| && forall i | 0 <= i < k :: !IsField(ls[i])
    requires IsField(ls[k]) && Atoi(SkipTabs(ls[k][|FIELD|..])) == |body|
    ensures Framed(Message(ls, body)) <==> k < MAX_LINES || body == []
  {
    hide IsField, SkipTabs, Atoi, FieldLine, FieldValue, ContentLength, HeaderLine;
    var m, i := Message(ls, body), |Join(ls)|;
    HeadOfMessage(ls, body);
    JoinedLength(ls);
    var counted := Take(ls, MAX_LINES);
    FieldFirst(counted, if k < |counted| then k else |counted|);
    assert m[..i] == Join(ls);
    forall j: nat | HeadEndsAt(m, j) ensures j == i { HeadUnique(m, i, j); }
  }

  /** 128 lines before the one that counts: the length of a body of one byte is not seen. */
  lemma LateField()
    ensures var ls, body: bytes := seq(128, _ => Ascii("a")) + [FieldLine(1)], Ascii("b");
      HeaderLines(ls) && FieldValue(ls) == |body| && !Framed(Message(ls, body))
  {
    var ls, body: bytes := seq(128, _ => Ascii("a")) + [FieldLine(1)], Ascii("b");
    FieldReads(1);
    assert forall i | 0 <= i < 128 :: ls[i] == Ascii("a") == [97];
    hide Atoi, SkipTabs, FieldLine, Framed, FieldValue;
    assert HeaderLines(ls);
    FieldFirst(ls, MAX_LINES);
    MessageFramed(ls, MAX_LINES, body);
  }
}
