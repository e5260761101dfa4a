/** The memory pool: a chain of equal blocks with a bump pointer each, and a list of large buffers whose
    headers are allocated in the blocks. */
module MemPool {
  import opened Bytes

  type Addr = nat

  const NIL: Addr := 0

  /** sizeof(mem_pool_t), sizeof(mem_pool_large_t) */
  const BLOCK_HEADER: nat := 32
  const LARGE_HEADER: nat := 24

  /** struct mem_pool_t */
  datatype Block = Block(last: Addr, end: Addr, next: Addr, large: Addr)

  /** struct mem_pool_large_t; size is an int. */
  datatype Large = Large(next: Addr, size: int, alloc: Addr)

  /** How a call ended: with this result, or in undefined behaviour. */
  datatype Outcome = Done(result: int) | Undefined

  /** Whom a piece of a block was handed to. */
  datatype Owner = Client | Header

  /** A piece of a block that was handed out. */
  datatype Span = Span(block: Addr, addr: Addr, size: nat, owner: Owner)

  type Mallocs = map<Addr, bytes>

  /** mem_align */
  function Align(a: Addr): (r: Addr)
    ensures a <= r < a + 8 && r % 8 == 0
    ensures a % 8 == 0 ==> r == a
  {
    a + 7 - (a + 7) % 8
  }

  /** The cast of a pointer difference to size_t: a negative one wraps around. */
  function Cast(d: int): int {
    if d >= 0 then d else d + 0x1_0000_0000_0000_0000
  }

  /** A size_t stored in an int: the low 32 bits in two's complement. */
  function AsInt(n: nat): (r: int)
    ensures -0x8000_0000 <= r <= 0x7FFF_FFFF && (r - n) % 0x1_0000_0000 == 0
    ensures n <= 0x7FFF_FFFF ==> r == n
  {
    var low := n % 0x1_0000_0000;
    if low <= 0x7FFF_FFFF then low else low - 0x1_0000_0000
  }

  /** Wiping a buffer of n bytes by the int its size was stored in goes past its end. */
  predicate Overruns(n: nat) {
    Cast(AsInt(n)) > n
  }

  /** For buffers of less than 4 GiB that is so exactly when the size does not fit an int; above, for every
      size that an object can have, it depends on bit 31. */
  lemma OverrunsWhen(n: nat)
    requires n < 0x8000_0000_0000_0000
    ensures Overruns(n) <==> n % 0x1_0000_0000 >= 0x8000_0000
    ensures n <= 0xFFFF_FFFF ==> (Overruns(n) <==> n > 0x7FFF_FFFF)
  {
    var low, high := n % 0x1_0000_0000, n / 0x1_0000_0000;
    assert n == high * 0x1_0000_0000 + low;
    if low >= 0x8000_0000 {
      assert AsInt(n) == low - 0x1_0000_0000;
      assert high <= 0x7FFF_FFFF;
    } else {
      assert AsInt(n) == low;
    }
  }

  /** memset(p, 0, n) of an int n stays inside a live block; for a null pointer it never does. */
  predicate Wipeable(mallocs: Mallocs, p: Addr, n: int) {
    p in mallocs && 0 <= Cast(n) <= |mallocs[p]|
  }

  /** A block after its first n bytes were set to zero. */
  function Wiped(s: bytes, n: nat): (r: bytes)
    requires n <= |s|
    ensures |r| == |s|
  {
    Zeros(n) + s[n..]
  }

  /** No aligned pointer passes an aligned end. */
  lemma AlignStays(last: Addr, end: Addr)
    requires last <= end && end % 8 == 0
    ensures Align(last) <= end
  {
  }

  function Zeros(n: nat): bytes { Repeat(NUL, n) }

  // ----- malloc -----

  /** The n bytes at base overlap no live block. */
  predicate Free(mallocs: Mallocs, base: Addr, n: nat) {
    base !in mallocs && forall b | b in mallocs :: base + n <= b || b + |mallocs[b]| <= base
  }

  /** Live blocks do not overlap. */
  ghost predicate HeapOk(mallocs: Mallocs) {
    && NIL !in mallocs
    && forall b, c | b in mallocs && c in mallocs && b != c :: b + |mallocs[b]| <= c || c + |mallocs[c]| <= b
  }

  lemma HeapGrows(mallocs: Mallocs, base: Addr, s: bytes)
    requires HeapOk(mallocs) && base != NIL && Free(mallocs, base, |s|)
    ensures HeapOk(mallocs[base := s])
  {
  }

  lemma HeapShrinks(mallocs: Mallocs, ps: set<Addr>)
    requires HeapOk(mallocs)
    ensures HeapOk(mallocs - ps)
  {
  }

  lemma HeapRewritten(mallocs: Mallocs, b: Addr, s: bytes)
    requires HeapOk(mallocs) && b in mallocs && |s| == |mallocs[b]|
    ensures HeapOk(mallocs[b := s])
  {
  }

  lemma RoomExists(mallocs: Mallocs, n: nat)
    ensures exists base: Addr :: base != NIL && base % 8 == 0 && Free(mallocs, base, n)
  {
    var top := Top(mallocs, mallocs.Keys);
    var base := 8 * (top + 1);
    assert base % 8 == 0 && Free(mallocs, base, n);
  }

  lemma Top(mallocs: Mallocs, bs: set<Addr>) returns (top: nat)
    requires bs <= mallocs.Keys
    ensures forall b | b in bs :: b + |mallocs[b]| <= top
    decreases |bs|
  {
    if bs == {} {
      top := 0;
    } else {
      var b: Addr :| b in bs;
      var rest := Top(mallocs, bs - {b});
      top := if rest < b + |mallocs[b]| then b + |mallocs[b]| else rest;
      assert forall c | c in bs :: c == b || c in bs - {b};
    }
  }

  // ----- the shape of a pool -----

  /** The i-th address of a list, null behind its end. */
  function Nth(s: seq<Addr>, i: nat): Addr {
    if i < |s| then s[i] else NIL
  }

  /** A block of s bytes at b: its header, what is handed out, and zeros from `last` on. */
  ghost predicate BlockOk(blocks: map<Addr, Block>, mallocs: Mallocs, b: Addr, s: nat) {
    && b in blocks && b in mallocs && |mallocs[b]| == s && b > 0 && b % 8 == 0
    && blocks[b].end == b + s && b + BLOCK_HEADER <= blocks[b].last <= b + s
    && forall k | blocks[b].last - b <= k < s :: mallocs[b][k] == NUL
  }

  /** The blocks in the order of their `next` links; all have the size of the first. */
  ghost predicate ChainOk(blocks: map<Addr, Block>, mallocs: Mallocs, chain: seq<Addr>, s: nat) {
    && chain != [] && s % 8 == 0 && s >= BLOCK_HEADER + LARGE_HEADER
    && (forall i | 0 <= i < |chain| :: BlockOk(blocks, mallocs, chain[i], s))
    && (forall i | 0 <= i < |chain| - 1 :: blocks[chain[i]].next == chain[i + 1])
    && blocks[chain[|chain| - 1]].next == NIL
    && (forall i, j | 0 <= i < j < |chain| :: chain[i] != chain[j])
    && (forall b | b in blocks :: b in chain)
  }

  /** A piece lies in what its block has handed out, behind the header. */
  ghost predicate SpanOk(blocks: map<Addr, Block>, p: Span) {
    && p.block in blocks && p.addr % 8 == 0
    && p.block + BLOCK_HEADER <= p.addr && p.addr + p.size <= blocks[p.block].last
    && (p.owner == Header ==> p.size == LARGE_HEADER)
  }

  /** In a block the pieces follow each other. */
  ghost predicate SpansOk(blocks: map<Addr, Block>, spans: seq<Span>) {
    && (forall i | 0 <= i < |spans| :: SpanOk(blocks, spans[i]))
    && (forall i, j | 0 <= i < j < |spans| && spans[i].block == spans[j].block ::
      spans[i].addr + spans[i].size <= spans[j].addr)
  }

  /** h is a piece that holds a header. */
  ghost predicate HeaderAt(spans: seq<Span>, h: Addr) {
    exists k :: 0 <= k < |spans| && spans[k].addr == h && spans[k].owner == Header
  }

  /** The list of large headers in the order of their `next` links. */
  ghost predicate HeadersOk(larges: map<Addr, Large>, spans: seq<Span>, headers: seq<Addr>, first: Addr) {
    && first == Nth(headers, 0)
    && (forall i | 0 <= i < |headers| :: headers[i] != NIL && headers[i] in larges && HeaderAt(spans, headers[i]))
    && (forall i | 0 <= i < |headers| - 1 :: larges[headers[i]].next == headers[i + 1])
    && (headers != [] ==> larges[headers[|headers| - 1]].next == NIL)
    && (forall i, j | 0 <= i < j < |headers| :: headers[i] != headers[j])
  }

  /** Every header in use has a live buffer of its own. */
  ghost predicate AllocsOk(larges: map<Addr, Large>, mallocs: Mallocs, blocks: map<Addr, Block>, headers: seq<Addr>) {
    && (forall i | 0 <= i < |headers| :: headers[i] in larges && var l := larges[headers[i]];
      l.alloc != NIL ==> l.alloc in mallocs && l.alloc !in blocks && l.size == AsInt(|mallocs[l.alloc]|))
    && (forall i, j | 0 <= i < j < |headers| ::
      larges[headers[i]].alloc != NIL ==> larges[headers[i]].alloc != larges[headers[j]].alloc)
  }

  function Max(a: nat, b: nat): nat {
    if a < b then b else a
  }

  /** The number of headers in use: the live large allocations. */
  ghost function InUse(larges: map<Addr, Large>, headers: seq<Addr>): nat
    requires forall i | 0 <= i < |headers| :: headers[i] in larges
  {
    if headers == [] then 0
    else InUse(larges, headers[..|headers| - 1]) + if larges[headers[|headers| - 1]].alloc != NIL then 1 else 0
  }

  lemma {:induction false} InUseAll(larges: map<Addr, Large>, headers: seq<Addr>)
    requires forall i | 0 <= i < |headers| :: headers[i] in larges
    ensures InUse(larges, headers) <= |headers|
    ensures (forall i | 0 <= i < |headers| :: larges[headers[i]].alloc != NIL) <==> InUse(larges, headers) == |headers|
  {
    if headers != [] {
      var init := headers[..|headers| - 1];
      InUseAll(larges, init);
      assert forall i | 0 <= i < |init| :: init[i] == headers[i];
    }
  }

  /** Only the allocations count. */
  lemma {:induction false} InUseSame(larges: map<Addr, Large>, larges': map<Addr, Large>, headers: seq<Addr>)
    requires forall i | 0 <= i < |headers| ::
      headers[i] in larges && headers[i] in larges' && larges'[headers[i]].alloc == larges[headers[i]].alloc
    ensures InUse(larges', headers) == InUse(larges, headers)
  {
    if headers != [] { InUseSame(larges, larges', headers[..|headers| - 1]); }
  }

  /** A header put to use, or back. */
  lemma {:induction false} InUseChanged(larges: map<Addr, Large>, larges': map<Addr, Large>, headers: seq<Addr>, k: nat)
    requires k < |headers| && forall i | 0 <= i < |headers| :: headers[i] in larges && headers[i] in larges'
    requires forall i | 0 <= i < |headers| && i != k :: larges'[headers[i]].alloc == larges[headers[i]].alloc
    ensures InUse(larges', headers) + (if larges[headers[k]].alloc != NIL then 1 else 0)
      == InUse(larges, headers) + (if larges'[headers[k]].alloc != NIL then 1 else 0)
  {
    var init := headers[..|headers| - 1];
    assert forall i | 0 <= i < |init| :: init[i] == headers[i];
    if k == |headers| - 1 {
      InUseSame(larges, larges', init);
    } else {
      InUseChanged(larges, larges', init, k);
    }
  }

  /** b is a large buffer in use. */
  ghost predicate IsLarge(larges: map<Addr, Large>, headers: seq<Addr>, b: Addr) {
    b != NIL && exists i :: 0 <= i < |headers| && headers[i] in larges && larges[headers[i]].alloc == b
  }

  /** Every live block is a block of the pool, a large buffer of the pool, or one of the blocks `outside`,
      which are as they were. */
  ghost predicate OwnedOk(mallocs: Mallocs, outside: Mallocs, blocks: map<Addr, Block>, larges: map<Addr, Large>,
                          headers: seq<Addr>) {
    && (forall b | b in outside ::
      b in mallocs && mallocs[b] == outside[b] && b !in blocks && !IsLarge(larges, headers, b))
    && (forall b | b in mallocs :: b in outside || b in blocks || IsLarge(larges, headers, b))
  }

  // ----- handing out a piece -----

  /** Advancing the bump pointer of a block past a new piece. */
  lemma BumpChain(blocks: map<Addr, Block>, mallocs: Mallocs, chain: seq<Addr>, s: nat, i: nat, m: Addr, size: nat)
    requires ChainOk(blocks, mallocs, chain, s) && i < |chain|
    requires blocks[chain[i]].last <= m && m + size <= blocks[chain[i]].end
    ensures ChainOk(blocks[chain[i] := blocks[chain[i]].(last := m + size)], mallocs, chain, s)
  {
    var p := chain[i];
    var blocks' := blocks[p := blocks[p].(last := m + size)];
    forall j | 0 <= j < |chain| ensures BlockOk(blocks', mallocs, chain[j], s) {
      assert BlockOk(blocks, mallocs, chain[j], s);
    }
  }

  lemma BumpSpans(blocks: map<Addr, Block>, spans: seq<Span>, p: Addr, m: Addr, size: nat, owner: Owner)
    requires SpansOk(blocks, spans) && p in blocks && m % 8 == 0 && p + BLOCK_HEADER <= m && blocks[p].last <= m
    requires owner == Header ==> size == LARGE_HEADER
    ensures SpansOk(blocks[p := blocks[p].(last := m + size)], spans + [Span(p, m, size, owner)])
  {
  }

  /** A further piece changes nothing for the headers. */
  lemma MoreSpans(larges: map<Addr, Large>, spans: seq<Span>, headers: seq<Addr>, first: Addr, p: Span)
    requires HeadersOk(larges, spans, headers, first)
    ensures HeadersOk(larges, spans + [p], headers, first)
  {
    var spans' := spans + [p];
    forall i | 0 <= i < |headers| ensures HeaderAt(spans', headers[i]) {
      var k :| 0 <= k < |spans| && spans[k].addr == headers[i] && spans[k].owner == Header;
      assert spans'[k].addr == headers[i] && spans'[k].owner == Header;
    }
  }

  /** A new block at the end of the chain. */
  lemma ChainGrows(blocks: map<Addr, Block>, mallocs: Mallocs, chain: seq<Addr>, s: nat, n: Addr)
    requires ChainOk(blocks, mallocs, chain, s) && n !in mallocs && n > 0 && n % 8 == 0
    ensures var last := chain[|chain| - 1];
      var blocks' := blocks[n := Block(n + BLOCK_HEADER, n + s, NIL, NIL)];
      last in blocks' && n !in blocks
      && ChainOk(blocks'[last := blocks'[last].(next := n)], mallocs[n := Zeros(s)], chain + [n], s)
  {
    var last := chain[|chain| - 1];
    var blocks' := blocks[n := Block(n + BLOCK_HEADER, n + s, NIL, NIL)];
    var blocks'' := blocks'[last := blocks'[last].(next := n)];
    var mallocs' := mallocs[n := Zeros(s)];
    var chain' := chain + [n];
    forall b | b in blocks ensures b in mallocs {
      var i :| 0 <= i < |chain| && chain[i] == b;
      assert BlockOk(blocks, mallocs, chain[i], s);
    }
    forall i | 0 <= i < |chain'| ensures BlockOk(blocks'', mallocs', chain'[i], s) {
      if i < |chain| { assert BlockOk(blocks, mallocs, chain[i], s); }
    }
  }

  lemma BlocksLive(blocks: map<Addr, Block>, mallocs: Mallocs, chain: seq<Addr>, s: nat)
    requires ChainOk(blocks, mallocs, chain, s)
    ensures forall b | b in blocks :: BlockOk(blocks, mallocs, b, s)
  {
  }

  /** The invariants of a pool that consists of one block. */
  lemma FirstBlock(others: Mallocs, p: Addr, n: nat)
    requires p > 0 && p % 8 == 0 && Free(others, p, n) && n % 8 == 0 && n >= BLOCK_HEADER + LARGE_HEADER
    ensures var mallocs, blocks := others[p := Zeros(n)], map[p := Block(p + BLOCK_HEADER, p + n, NIL, NIL)];
      && ChainOk(blocks, mallocs, [p], n) && SpansOk(blocks, []) && HeadersOk(map[], [], [], NIL)
      && AllocsOk(map[], mallocs, blocks, []) && OwnedOk(mallocs, others, blocks, map[], []) && InUse(map[], []) == 0
  {
    assert BlockOk(map[p := Block(p + BLOCK_HEADER, p + n, NIL, NIL)], others[p := Zeros(n)], p, n);
  }

  // ----- the pool -----

  class Pool {
    /** mem_pagesize, as the system reports it; 4095 when it reports 0. */
    const pagesize: nat
    /** Every live block of the process with its contents. */
    var mallocs: Mallocs
    /** The struct mem_pool_t at the start of each block of the pool. */
    var blocks: map<Addr, Block>
    /** The struct mem_pool_large_t that were handed out in the blocks. */
    var larges: map<Addr, Large>
    /** What mem_create_pool returned. */
    var pool: Addr

    ghost var size: nat
    ghost var chain: seq<Addr>
    ghost var spans: seq<Span>
    ghost var headers: seq<Addr>
    ghost var outside: Mallocs
    /** The largest number of large allocations alive at the same time so far. */
    ghost var peak: nat
    /** Has malloc failed so far? */
    ghost var failed: bool

    ghost predicate Valid()
      reads this
    {
      && pagesize > LARGE_HEADER && HeapOk(mallocs)
      && ChainOk(blocks, mallocs, chain, size) && pool == chain[0]
      && SpansOk(blocks, spans)
      && pool in blocks && HeadersOk(larges, spans, headers, blocks[pool].large)
      && AllocsOk(larges, mallocs, blocks, headers)
      && OwnedOk(mallocs, outside, blocks, larges, headers)
      && (forall i | 0 <= i < |headers| :: headers[i] in larges) && InUse(larges, headers) <= peak == |headers|
    }

    /** Every header of the list can be read. */
    ghost predicate InUsable()
      reads this
    {
      forall i | 0 <= i < |headers| :: headers[i] in larges
    }

    /** malloc: null, or an aligned address of n bytes apart from everything live. */
    method Malloc(n: nat) returns (p: Addr)
      requires HeapOk(mallocs)
      modifies this`mallocs, this`failed
      ensures HeapOk(mallocs) && (if p == NIL then failed else failed == old(failed))
      ensures p == NIL ==> mallocs == old(mallocs)
      ensures p != NIL ==> p % 8 == 0 && Free(old(mallocs), p, n) && p in mallocs && |mallocs[p]| == n
      ensures p != NIL ==> mallocs == old(mallocs)[p := mallocs[p]]
    {
      var fails: bool := *;
      if fails {
        failed := true;
        return NIL;
      }
      RoomExists(mallocs, n);
      p :| p != NIL && p % 8 == 0 && Free(mallocs, p, n);
      var junk: bytes := *;
      var s := if |junk| == n then junk else Zeros(n);
      HeapGrows(mallocs, p, s);
      mallocs := mallocs[p := s];
    }

    /** mem_alloc */
    method MemAlloc(n: nat) returns (p: Addr)
      requires HeapOk(mallocs)
      modifies this`mallocs, this`failed
      ensures HeapOk(mallocs) && (if p == NIL then failed else failed == old(failed))
      ensures p == NIL ==> mallocs == old(mallocs)
      ensures p != NIL ==> p % 8 == 0 && Free(old(mallocs), p, n) && mallocs == old(mallocs)[p := Zeros(n)]
    {
      p := Malloc(n);
      if p == NIL { return; }
      HeapRewritten(mallocs, p, Zeros(n));
      mallocs := mallocs[p := Zeros(n)];
    }

    /** mem_create_pool */
    method CreateBlock(n: nat) returns (p: Addr)
      requires HeapOk(mallocs)
      modifies this`mallocs, this`blocks, this`failed
      ensures HeapOk(mallocs) && (if p == NIL then failed else failed == old(failed))
      ensures p == NIL ==> mallocs == old(mallocs) && blocks == old(blocks)
      ensures p != NIL ==> p % 8 == 0 && Free(old(mallocs), p, n) && mallocs == old(mallocs)[p := Zeros(n)]
      ensures p != NIL ==> blocks == old(blocks)[p := Block(p + BLOCK_HEADER, p + n, NIL, NIL)]
    {
      p := MemAlloc(n);
      if p == NIL { return; }
      blocks := blocks[p := Block(p + BLOCK_HEADER, p + n, NIL, NIL)];
    }

    /** Before there is a pool. */
    constructor (page: nat, others: Mallocs)
      ensures pagesize == (if page == 0 then 4095 else page) && mallocs == outside == others
      ensures blocks == map[] && larges == map[] && spans == [] && headers == [] && peak == 0 && !failed
    {
      pagesize := if page == 0 then 4095 else page;
      mallocs, blocks, larges, pool := others, map[], map[], NIL;
      size, chain, spans, headers, outside, peak, failed := 0, [], [], [], others, 0, false;
    }

    /** The call of mem_create_pool that makes a pool, of blocks of n bytes. */
    method Create(n: nat)
      requires pagesize > LARGE_HEADER && n % 8 == 0 && n >= BLOCK_HEADER + LARGE_HEADER && HeapOk(mallocs)
      requires mallocs == outside && blocks == map[] && larges == map[] && spans == [] && headers == [] && peak == 0
      modifies this
      ensures pool == NIL ==> mallocs == old(mallocs) && failed
      ensures pool != NIL ==> failed == old(failed) && mallocs == old(mallocs)[pool := Zeros(n)]
      ensures pool != NIL ==> blocks == map[pool := Block(pool + BLOCK_HEADER, pool + n, NIL, NIL)]
      ensures pool != NIL ==>
        Valid() && size == n && outside == old(outside) && spans == [] && headers == [] && chain == [pool]
    {
      hide ChainOk, SpansOk, HeadersOk, AllocsOk, OwnedOk, HeapOk, InUse;
      ghost var others := mallocs;
      pool := CreateBlock(n);
      if pool == NIL { return; }
      chain, size := [pool], n;
      FirstBlock(others, pool, n);
    }

    /** The branch of mem_palloc for requests that a block serves: the first block with room serves it, and
        only when none has room a new one does. */
    method PallocSmall(n: nat, ghost owner: Owner) returns (m: Addr, ghost i: nat)
      requires Valid() && n <= size - BLOCK_HEADER && (owner == Header ==> n == LARGE_HEADER)
      modifies this
      ensures Valid() && pool == old(pool) && size == old(size)
      ensures larges == old(larges) && headers == old(headers) && peak == old(peak) && outside == old(outside)
      ensures Keeps(old(mallocs), mallocs) && FirstFit(old(blocks), old(chain), i, n)
      ensures m == NIL ==>
        mallocs == old(mallocs) && blocks == old(blocks) && spans == old(spans) && chain == old(chain)
      ensures m == NIL ==> failed && i == |old(chain)|
      ensures m != NIL ==> HandsOut(old(spans), spans, mallocs, blocks, m, n, owner) && failed == old(failed)
      ensures m != NIL ==> Serves(old(blocks), old(mallocs), old(chain), blocks, mallocs, chain, size, i, m, n)
    {
      hide HeadersOk, AllocsOk, OwnedOk, HeapOk, SpansOk, ChainOk, HandsOut, Keeps, Serves;
      ChainFacts(blocks, mallocs, chain, size);
      var p, next := pool, blocks[pool].next;
      i := 0;
      while true
        invariant i < |chain| && p == chain[i] && p in blocks && next == blocks[p].next
        invariant unchanged(this) && NoneHasRoom(blocks, chain, i, n)
        decreases |chain| - i
      {
        ChainAt(blocks, mallocs, chain, size, i);
        AlignStays(blocks[p].last, blocks[p].end);
        m := Align(blocks[p].last);
        if Cast(blocks[p].end - m) >= n {
          Bumped(blocks, mallocs, chain, size, spans, headers, larges, outside, blocks[pool].large, i, m, n, owner);
          BumpServes(blocks, mallocs, chain, size, i, m, n);
          blocks := blocks[p := blocks[p].(last := m + n)];
          spans := spans + [Span(p, m, n, owner)];
          KeepsAll(mallocs);
          return;
        }
        if next == NIL { break; }
        p, next := next, blocks[next].next;
        i := i + 1;
      }
      i := i + 1;
      m := PallocFresh(p, n, owner);
    }

    /** The end of that branch: a new block at the end of the chain serves the request. */
    method PallocFresh(p: Addr, n: nat, ghost owner: Owner) returns (m: Addr)
      requires Valid() && n <= size - BLOCK_HEADER && (owner == Header ==> n == LARGE_HEADER)
      requires p == chain[|chain| - 1] && FirstFit(blocks, chain, |chain|, n)
      modifies this
      ensures Valid() && pool == old(pool) && size == old(size)
      ensures larges == old(larges) && headers == old(headers) && peak == old(peak) && outside == old(outside)
      ensures Keeps(old(mallocs), mallocs)
      ensures m == NIL ==>
        mallocs == old(mallocs) && blocks == old(blocks) && spans == old(spans) && chain == old(chain) && failed
      ensures m != NIL ==> HandsOut(old(spans), spans, mallocs, blocks, m, n, owner) && failed == old(failed)
      ensures m != NIL ==>
        Serves(old(blocks), old(mallocs), old(chain), blocks, mallocs, chain, size, |old(chain)|, m, n)
    {
      hide HeadersOk, AllocsOk, OwnedOk, HeapOk, SpansOk, ChainOk, HandsOut, Keeps, InUse, Serves;
      ghost var blocks0, mallocs0, chain0 := blocks, mallocs, chain;
      var q := GrowChain(p);
      if q == NIL { return NIL; }
      m := blocks[q].last;
      Bumped(blocks, mallocs, chain, size, spans, headers, larges, outside, blocks[pool].large, |chain| - 1,
             m, n, owner);
      OpenServes(blocks0, mallocs0, chain0, blocks, size, q, n);
      blocks := blocks[q := blocks[q].(last := m + n)];
      spans := spans + [Span(q, m, n, owner)];
    }

    /** A new block of the size of the last one is linked behind it. */
    method GrowChain(p: Addr) returns (q: Addr)
      requires Valid() && p == chain[|chain| - 1]
      modifies this`mallocs, this`blocks, this`chain, this`failed
      ensures Valid() && Keeps(old(mallocs), mallocs)
      ensures q == NIL ==> mallocs == old(mallocs) && blocks == old(blocks) && chain == old(chain) && failed
      ensures q != NIL ==> failed == old(failed) && q !in old(mallocs) && mallocs == old(mallocs)[q := Zeros(size)]
      ensures q != NIL ==> chain == old(chain) + [q] && q % 8 == 0 && q !in old(blocks) && p in old(blocks) && p != q
      ensures q != NIL ==> blocks == Linked(old(blocks), p, q, size)
    {
      hide HeadersOk, AllocsOk, OwnedOk, HeapOk, SpansOk, ChainOk, Keeps, InUse, Free;
      KeepsAll(mallocs);
      ChainFacts(blocks, mallocs, chain, size);
      ChainAt(blocks, mallocs, chain, size, |chain| - 1);
      ghost var mallocs0, blocks0, first := mallocs, blocks, blocks[pool].large;
      q := CreateBlock(blocks[p].end - p);
      if q == NIL { return NIL; }
      NotLive(mallocs0, q, size);
      NotYet(blocks0, mallocs0, chain, size, q, blocks[q]);
      Fresh(blocks, mallocs0, chain, size, spans, headers, larges, outside, first, q);
      blocks := blocks[p := blocks[p].(next := q)];
      chain := chain + [q];
      KeepsNew(mallocs0, q, Zeros(size));
    }

    /** mem_palloc: the request goes to a block or to the large list; i is the number of blocks passed over in
        the search for room, for the request itself or for the header it needs. */
    method Palloc(n: nat, ghost owner: Owner) returns (m: Addr, ghost i: nat)
      requires Valid() && (owner == Header ==> n == LARGE_HEADER)
      modifies this
      ensures Valid() && pool == old(pool) && size == old(size) && outside == old(outside)
      ensures Keeps(old(mallocs), mallocs) && (if m == NIL then failed else failed == old(failed))
      ensures old(Fits(n)) ==> larges == old(larges) && headers == old(headers) && peak == old(peak)
      ensures old(Fits(n)) ==>
        if m == NIL then mallocs == old(mallocs) && blocks == old(blocks) && spans == old(spans) && chain == old(chain)
        else HandsOut(old(spans), spans, mallocs, blocks, m, n, owner)
      ensures old(Fits(n)) ==> FirstFit(old(blocks), old(chain), i, n)
      ensures old(Fits(n)) ==>
        if m == NIL then i == |old(chain)|
        else Serves(old(blocks), old(mallocs), old(chain), blocks, mallocs, chain, size, i, m, n)
      ensures !old(Fits(n)) ==> SpansKept(old(spans), spans)
      ensures !old(Fits(n)) && m == NIL ==> ListSame(old(larges), larges, old(headers), headers) && peak == old(peak)
      ensures !old(Fits(n)) && m != NIL ==> InUsable() && peak == Max(old(peak), InUse(larges, headers))
      ensures !old(Fits(n)) && m != NIL ==>
        m !in old(mallocs) && m % 8 == 0 && m in mallocs && mallocs[m] == Zeros(n)
        && AllocAdded(old(larges), larges, old(headers), headers, m, n)
      ensures !old(Fits(n)) && old(InUse(larges, headers) < |headers|) ==>
        blocks == old(blocks) && chain == old(chain) && spans == old(spans)
        && mallocs == if m == NIL then old(mallocs) else old(mallocs)[m := Zeros(n)]
      ensures !old(Fits(n)) && old(InUse(larges, headers) == |headers|) && m != NIL ==>
        |headers| == |old(headers)| + 1
        && LargeServes(old(blocks), old(mallocs), old(chain), blocks, mallocs, chain, size, i,
                       headers[|headers| - 1], m)
      decreases if Fits(n) then 0 else 2
    {
      hide HeadersOk, AllocsOk, OwnedOk, HeapOk, SpansOk, ChainOk, HandsOut, Keeps, ListSame, AllocAdded, SpansKept,
        FirstFit, Serves, LargeServes;
      ChainFacts(blocks, mallocs, chain, size);
      if n <= pagesize - 1 && n <= Cast(blocks[pool].end - pool) - BLOCK_HEADER {
        m, i := PallocSmall(n, owner);
      } else {
        m, i := PallocLarge(n);
      }
    }

    /** The branch of mem_palloc for large requests. Its own request for a header goes to a block, so the
        recursion ends there. */
    method PallocLarge(n: nat) returns (m: Addr, ghost i: nat)
      requires Valid()
      modifies this
      ensures Valid() && pool == old(pool) && size == old(size) && outside == old(outside)
      ensures Keeps(old(mallocs), mallocs) && SpansKept(old(spans), spans)
      ensures if m == NIL then failed else failed == old(failed)
      ensures m == NIL ==> ListSame(old(larges), larges, old(headers), headers) && peak == old(peak)
      ensures m != NIL ==> InUsable() && peak == Max(old(peak), InUse(larges, headers))
      ensures m != NIL ==>
        m !in old(mallocs) && m % 8 == 0 && m in mallocs && mallocs[m] == Zeros(n)
        && AllocAdded(old(larges), larges, old(headers), headers, m, n)
      ensures old(InUse(larges, headers) < |headers|) ==>
        blocks == old(blocks) && chain == old(chain) && spans == old(spans)
        && mallocs == if m == NIL then old(mallocs) else old(mallocs)[m := Zeros(n)]
      ensures old(InUse(larges, headers) == |headers|) && m != NIL ==>
        |headers| == |old(headers)| + 1
        && LargeServes(old(blocks), old(mallocs), old(chain), blocks, mallocs, chain, size, i,
                       headers[|headers| - 1], m)
      decreases 1
    {
      hide HeadersOk, AllocsOk, OwnedOk, HeapOk, SpansOk, ChainOk, HandsOut, Keeps, ListSame, AllocAdded, SpansKept,
        FirstFit, Serves, LargeServes, InUse;
      var large, last;
      ghost var k;
      i := 0;
      large, last, k := FindIdle();
      InUseAll(larges, headers);
      ListItself(larges, headers, spans);
      if large != NIL {
        m := UseHeader(n, large, k);
        return;
      }
      ghost var spans0, mallocs0, blocks0, chain0 := spans, mallocs, blocks, chain;
      ChainFacts(blocks, mallocs, chain, size);
      large, i := Palloc(LARGE_HEADER, Header);
      if large == NIL { return NIL, i; }
      HeaderHandedOut(spans0, spans, mallocs, blocks, large);
      ghost var mallocs1, blocks1, chain1 := mallocs, blocks, chain;
      NewPiece(blocks, mallocs, chain, size, spans0, spans, headers, larges, old(blocks[pool].large), large);
      m := AddHeader(n, large, last);
      KeepsTwice(mallocs0, mallocs1, mallocs);
      if m != NIL {
        ThenLarge(blocks0, mallocs0, chain0, blocks1, mallocs1, chain1, size, i, large, blocks, mallocs, m, n);
      }
    }

    /** A new header gets a buffer and goes to the end of the list. */
    method AddHeader(n: nat, large: Addr, last: Addr) returns (m: Addr)
      requires Valid() && HeaderAt(spans, large) && large != NIL && large !in headers
      requires forall i | 0 <= i < |headers| :: larges[headers[i]].alloc != NIL
      requires last == if headers == [] then NIL else headers[|headers| - 1]
      modifies this
      ensures Valid() && pool == old(pool) && size == old(size) && outside == old(outside) && spans == old(spans)
      ensures Keeps(old(mallocs), mallocs) && chain == old(chain) && SameButLarge(old(blocks), blocks)
      ensures if m == NIL then failed else failed == old(failed) && headers == old(headers) + [large]
      ensures mallocs == if m == NIL then old(mallocs) else old(mallocs)[m := Zeros(n)]
      ensures m == NIL ==> ListSame(old(larges), larges, old(headers), headers) && peak == old(peak)
      ensures m != NIL ==> InUsable() && peak == Max(old(peak), InUse(larges, headers))
      ensures m != NIL ==>
        m !in old(mallocs) && m % 8 == 0 && m in mallocs && mallocs[m] == Zeros(n)
        && AllocAdded(old(larges), larges, old(headers), headers, m, n)
    {
      hide HeadersOk, AllocsOk, OwnedOk, HeapOk, SpansOk, ChainOk, Keeps, AllocAdded, InUse, Free, HeaderAt, ListSame,
        SameButLarge, SameBuffers, AsInt;
      SameBlocks(blocks);
      KeepsAll(mallocs);
      ghost var larges0, mallocs0, headers0, first := larges, mallocs, headers, blocks[pool].large;
      larges := larges[large := Large(NIL, 0, NIL)];
      Unlisted(blocks, mallocs, spans, headers, larges0, outside, first, large);
      m := MemAlloc(n);
      if m == NIL { return; }
      ChainFacts(blocks, mallocs0, chain, size);
      ghost var unlinked := larges;
      LinkHeader(large, last, mallocs0);
      ghost var larges1, first1 := larges, blocks[pool].large;
      larges := larges[large := larges[large].(alloc := m, size := AsInt(n))];
      UsedLast(blocks, mallocs0, chain, size, spans, headers0, headers, larges0, unlinked, larges1, outside, first1,
               m, n);
      peak := Max(peak, InUse(larges, headers));
    }

    /** The header becomes the first of an empty list, or the one behind the last. */
    method LinkHeader(large: Addr, last: Addr, ghost mallocs0: Mallocs)
      requires ChainOk(blocks, mallocs0, chain, size) && SpansOk(blocks, spans) && chain != [] && pool == chain[0]
        && pool in blocks
      requires HeadersOk(larges, spans, headers, blocks[pool].large) && HeaderAt(spans, large) && large != NIL
        && large !in headers
      requires large in larges && larges[large] == Large(NIL, 0, NIL)
      requires AllocsOk(larges, mallocs0, blocks, headers) && OwnedOk(mallocs0, outside, blocks, larges, headers)
      requires last == if headers == [] then NIL else headers[|headers| - 1]
      modifies this`larges, this`blocks, this`headers
      ensures headers == old(headers) + [large] && pool in blocks && SameButLarge(old(blocks), blocks)
      ensures ChainOk(blocks, mallocs0, chain, size) && SpansOk(blocks, spans)
      ensures HeadersOk(larges, spans, headers, blocks[pool].large) && large in larges
        && larges[large] == Large(NIL, 0, NIL)
      ensures AllocsOk(larges, mallocs0, blocks, headers) && OwnedOk(mallocs0, outside, blocks, larges, headers)
      ensures SameBuffers(old(larges), larges, old(headers))
    {
      hide SpansOk, ChainOk, OwnedOk, AllocsOk, HeadersOk, HeaderAt;
      HeaderNext(larges, spans, headers, blocks[pool].large, if headers == [] then 0 else |headers| - 1);
      ghost var larges0, headers0 := larges, headers;
      if blocks[pool].large == NIL {
        FirstHeader(blocks, mallocs0, chain, size, spans, larges, outside, headers, pool, large);
        blocks := blocks[pool := blocks[pool].(large := large)];
        headers := [large];
      } else if last != NIL {
        NextHeader(blocks, mallocs0, spans, larges, outside, headers, blocks[pool].large, large);
        larges := larges[last := larges[last].(next := large)];
        headers := headers + [large];
      }
    }

    /** The search for a header that is not in use: else the last one of the list. */
    method FindIdle() returns (large: Addr, last: Addr, ghost k: nat)
      requires Valid()
      ensures large != NIL ==> k < |headers| && large == headers[k] && larges[large].alloc == NIL && last == NIL
      ensures large != NIL ==> forall i | 0 <= i < k :: larges[headers[i]].alloc != NIL
      ensures large == NIL ==> (forall i | 0 <= i < |headers| :: larges[headers[i]].alloc != NIL)
      ensures large == NIL ==> last == if headers == [] then NIL else headers[|headers| - 1]
    {
      hide AllocsOk, OwnedOk, HeapOk, SpansOk, ChainOk, HeadersOk;
      large, last, k := NIL, NIL, 0;
      HeaderNext(larges, spans, headers, blocks[pool].large, 0);
      if blocks[pool].large != NIL {
        last := blocks[pool].large;
        while true
          invariant k < |headers| && last == headers[k] && forall i | 0 <= i < k :: larges[headers[i]].alloc != NIL
          decreases |headers| - k
        {
          HeaderNext(larges, spans, headers, blocks[pool].large, k);
          if larges[last].alloc == NIL {
            large := last;
            last := NIL;
            break;
          }
          if larges[last].next == NIL { break; }
          last := larges[last].next;
          k := k + 1;
        }
      }
    }

    /** A header of the list that is not in use gets a buffer. */
    method UseHeader(n: nat, large: Addr, ghost k: nat) returns (m: Addr)
      requires Valid() && k < |headers| && large == headers[k] && larges[large].alloc == NIL
      requires forall i | 0 <= i < k :: larges[headers[i]].alloc != NIL
      modifies this`mallocs, this`larges, this`peak, this`failed
      ensures Valid() && Keeps(old(mallocs), mallocs) && (if m == NIL then failed else failed == old(failed))
      ensures mallocs == if m == NIL then old(mallocs) else old(mallocs)[m := Zeros(n)]
      ensures m == NIL ==> larges == old(larges) && peak == old(peak)
      ensures m != NIL ==> InUsable() && peak == Max(old(peak), InUse(larges, headers))
      ensures m != NIL ==>
        m !in old(mallocs) && m % 8 == 0 && m in mallocs && mallocs[m] == Zeros(n)
        && AllocAdded(old(larges), larges, headers, headers, m, n)
    {
      hide HeadersOk, AllocsOk, OwnedOk, HeapOk, SpansOk, ChainOk, Keeps, AllocAdded, InUse, Free;
      KeepsAll(mallocs);
      m := MemAlloc(n);
      if m == NIL { return; }
      ghost var mallocs0, larges0 := old(mallocs), larges;
      larges := larges[large := larges[large].(alloc := m, size := AsInt(n))];
      Used(blocks, mallocs0, chain, size, spans, headers, larges0, outside, blocks[pool].large, k, m, n);
      HeaderNext(larges, spans, headers, blocks[pool].large, k);
      UsedAdded(larges0, larges, headers, k, m, n);
      KeepsNew(mallocs0, m, Zeros(n));
      InUseAll(larges, headers);
      peak := Max(peak, InUse(larges, headers));
    }

    /** free: the block must be live; the structs in it are gone with it. */
    method FreeBlock(p: Addr)
      requires HeapOk(mallocs) && p in mallocs
      modifies this`mallocs, this`blocks, this`larges
      ensures HeapOk(mallocs) && mallocs == old(mallocs) - {p} && blocks == old(blocks) - {p}
      ensures larges == Outside(old(larges), p, |old(mallocs)[p]|)
    {
      HeapShrinks(mallocs, {p});
      larges := Outside(larges, p, |mallocs[p]|);
      mallocs := mallocs - {p};
      blocks := blocks - {p};
    }

    /** The buffer of a header is wiped by the size the header states, and freed; the header is idle then. */
    method Release(l: Addr, ghost k: nat)
      requires Valid() && k < |headers| && l == headers[k] && larges[l].alloc != NIL
      requires Wipeable(mallocs, larges[l].alloc, larges[l].size)
      modifies this`mallocs, this`blocks, this`larges
      ensures Valid() && blocks == old(blocks) && mallocs == old(mallocs) - {old(larges)[l].alloc}
      ensures Released(old(larges), larges, headers, k) && InUse(larges, headers) + 1 == InUse(old(larges), headers)
    {
      hide HeadersOk, AllocsOk, OwnedOk, HeapOk, SpansOk, ChainOk, InUse, Free, Released, Wiped;
      ghost var larges0, mallocs0, a := larges, mallocs, larges[l].alloc;
      AllocLive(larges, mallocs, blocks, headers, k);
      HeadersElsewhere(blocks, mallocs, chain, size, spans, headers, larges, blocks[pool].large, a);
      FreedLarge(blocks, mallocs0, chain, size, spans, headers, larges0, outside, blocks[pool].large, k);
      var wiped := Wiped(mallocs[larges[l].alloc], Cast(larges[l].size));
      HeapRewritten(mallocs, a, wiped);
      mallocs := mallocs[larges[l].alloc := wiped];
      FreeBlock(larges[l].alloc);
      assert mallocs == mallocs0 - {a};
      larges := larges[l := larges[l].(alloc := NIL)];
    }

    /** mem_pfree_large. A null pointer is taken for the buffer of an idle header, and a buffer whose size
        does not fit the int is wiped past its end. */
    method PfreeLarge(p: Addr) returns (r: Outcome)
      requires Valid()
      modifies this`mallocs, this`blocks, this`larges
      ensures Valid() && blocks == old(blocks) && (r == Undefined || r == Done(0) || r == Done(-1))
      ensures r == Undefined <==>
        if p == NIL then InUse(old(larges), headers) < |headers|
        else IsLarge(old(larges), headers, p) && p in old(mallocs) && Overruns(|old(mallocs)[p]|)
      ensures r == Done(-1) <==>
        !IsLarge(old(larges), headers, p) && (p == NIL ==> InUse(old(larges), headers) == |headers|)
      ensures r == Done(0) ==>
        mallocs == old(mallocs) - {p} && InUse(larges, headers) + 1 == InUse(old(larges), headers)
      ensures r == Done(0) ==>
        exists k: nat :: Released(old(larges), larges, headers, k) && old(larges)[headers[k]].alloc == p
      ensures r != Done(0) ==> mallocs == old(mallocs) && larges == old(larges)
    {
      hide AllocsOk, OwnedOk, HeapOk, SpansOk, ChainOk, HeadersOk, Released, InUse, Overruns;
      InUseAll(larges, headers);
      HeaderNext(larges, spans, headers, blocks[pool].large, 0);
      var l := blocks[pool].large;
      ghost var k := 0;
      while l != NIL
        invariant unchanged(this) && k <= |headers| && l == Nth(headers, k)
        invariant forall i | 0 <= i < k :: larges[headers[i]].alloc != p
        decreases |headers| - k
      {
        HeaderNext(larges, spans, headers, blocks[pool].large, k);
        if p == larges[l].alloc {
          WipeableWhen(larges, mallocs, blocks, headers, k);
          if !Wipeable(mallocs, larges[l].alloc, larges[l].size) { return Undefined; }
          Release(l, k);
          return Done(0);
        }
        l := larges[l].next;
        k := k + 1;
      }
      if k < |headers| { HeaderNext(larges, spans, headers, blocks[pool].large, k); }
      r := Done(-1);
    }

    /** Freeing a large buffer leaves an idle header, and then freeing a null pointer is undefined. */
    method PfreeTwice(p: Addr) returns (first: Outcome, second: Outcome)
      requires Valid() && IsLarge(larges, headers, p) && p in mallocs && |mallocs[p]| <= 0x7FFF_FFFF
      modifies this`mallocs, this`blocks, this`larges
      ensures Valid() && first == Done(0) && second == Undefined
      ensures mallocs == old(mallocs) - {p}
    {
      assert p != NIL && InUse(larges, headers) <= |headers|;
      hide AllocsOk, OwnedOk, HeapOk, SpansOk, ChainOk, HeadersOk, InUse, IsLarge, Released;
      first := PfreeLarge(p);
      second := PfreeLarge(NIL);
    }

    /** mem_destroy_pool: every buffer and every block is freed once, and no freed block is read; what is
        left is what was live besides the pool. It gets there unless it wipes past the end of a buffer whose
        size does not fit the int. */
    method Destroy() returns (r: Outcome)
      requires Valid()
      modifies this
      ensures r == Undefined <==> exists b :: Exceeds(old(larges), old(mallocs), old(headers), b)
      ensures r == Undefined || r == Done(0)
      ensures r == Done(0) ==> mallocs == outside == old(outside)
    {
      hide AllocsOk, OwnedOk, HeapOk, SpansOk, ChainOk, HeadersOk, Released, InUse, Wipeable, Exceeds, Held;
      HeaderNext(larges, spans, headers, blocks[pool].large, 0);
      var l := blocks[pool].large;
      ghost var k := 0;
      HeldAll(larges, mallocs, blocks, headers);
      while l != NIL
        invariant Valid() && headers == old(headers) && outside == old(outside) && pool == old(pool)
        invariant k <= |headers| && l == Nth(headers, k) && forall i | 0 <= i < k :: larges[headers[i]].alloc == NIL
        invariant Held(old(larges), old(mallocs), larges, mallocs, headers)
        decreases |headers| - k
      {
        HeaderNext(larges, spans, headers, blocks[pool].large, k);
        ghost var larges0, mallocs0 := larges, mallocs;
        if larges[l].alloc != NIL {
          WipeableWhen(larges, mallocs, blocks, headers, k);
          HeldAt(old(larges), old(mallocs), larges, mallocs, headers, k);
          if !Wipeable(mallocs, larges[l].alloc, larges[l].size) { return Undefined; }
          Release(l, k);
          HeldStill(old(larges), old(mallocs), larges0, mallocs0, larges, mallocs, blocks, headers, k);
          ReleasedFacts(larges0, larges, headers, k);
        }
        l := larges[l].next;
        k := k + 1;
      }
      if k < |headers| { HeaderNext(larges, spans, headers, blocks[pool].large, k); }
      BlocksLeft(mallocs, outside, blocks, larges, headers);
      HeldNone(old(larges), old(mallocs), larges, mallocs, headers);
      ChainFacts(blocks, mallocs, chain, size);
      FreeChain();
      r := Done(0);
    }

    /** The second loop of mem_destroy_pool. */
    method FreeChain()
      requires HeapOk(mallocs) && ChainOk(blocks, mallocs, chain, size) && chain != [] && pool == chain[0]
      requires mallocs - blocks.Keys == outside
      modifies this`mallocs, this`blocks, this`larges
      ensures mallocs == outside
    {
      hide HeapOk, ChainOk, BlockOk, Elements;
      ghost var mallocs0, blocks0, ps, s := mallocs, blocks, chain, size;
      BlocksInChain(blocks0, mallocs0, ps, s);
      NoElements(mallocs, blocks);
      assert ps[..0] == [];
      ElementsNext(blocks0, mallocs0, ps, s, 0);
      var p, n := pool, blocks[pool].next;
      ghost var i := 0;
      ghost var freed: set<Addr> := {};
      while true
        invariant HeapOk(mallocs) && i < |ps| && p == ps[i] && n == Nth(ps, i + 1) && freed == Elements(ps[..i])
        invariant mallocs == mallocs0 - freed && blocks == blocks0 - freed && p !in freed
        decreases |ps| - i
      {
        ElementsNext(blocks0, mallocs0, ps, s, i);
        MinusNext(mallocs0, blocks0, freed, p);
        WipeBlock(p);
        freed := freed + {p};
        if n == NIL { break; }
        p, n := n, blocks[n].next;
        i := i + 1;
      }
      assert ps[..i + 1] == ps;
    }

    /** A block is wiped from its start to its end, and freed. */
    method WipeBlock(p: Addr)
      requires HeapOk(mallocs) && p in mallocs && p in blocks && blocks[p].end == p + |mallocs[p]|
      modifies this`mallocs, this`blocks, this`larges
      ensures HeapOk(mallocs) && mallocs == old(mallocs) - {p} && blocks == old(blocks) - {p}
    {
      hide HeapOk;
      HeapRewritten(mallocs, p, Zeros(blocks[p].end - p));
      mallocs := mallocs[p := Zeros(blocks[p].end - p)];
      blocks := blocks[p := Block(NIL, NIL, NIL, NIL)];
      FreeBlock(p);
    }

    /** A client may write what it was given: a byte of a piece, or of a large buffer. The pool keeps its
        invariants, so that whatever it hands out next is zero again. */
    method ClientWrite(b: Addr, k: nat, v: byte)
      requires Valid() && b in mallocs && k < |mallocs[b]|
      requires IsLarge(larges, headers, b)
        || exists i :: 0 <= i < |spans| && InPiece(spans[i], b, b + k)
      modifies this`mallocs
      ensures Valid() && mallocs == old(mallocs)[b := old(mallocs)[b][k := v]]
    {
      hide AllocsOk, OwnedOk, HeapOk, SpansOk, ChainOk, HeadersOk, InUse, IsLarge;
      WrittenChain(blocks, mallocs, chain, size, spans, larges, headers, b, k, v);
      HeapRewritten(mallocs, b, mallocs[b][k := v]);
      WrittenOwned(blocks, mallocs, chain, size, spans, larges, headers, outside, b, k, v);
      mallocs := mallocs[b := mallocs[b][k := v]];
    }

    /** A request that a block serves. */
    ghost predicate Fits(n: nat)
      reads this
    {
      n < pagesize && n + BLOCK_HEADER <= size
    }
  }

  ghost predicate SameHeaders(larges: map<Addr, Large>, larges': map<Addr, Large>, headers: seq<Addr>) {
    forall i | 0 <= i < |headers| ::
      headers[i] in larges && headers[i] in larges' && larges'[headers[i]] == larges[headers[i]]
  }

  /** The block has room for n more bytes. */
  predicate HasRoom(b: Block, n: nat) {
    Align(b.last) + n <= b.end
  }

  ghost predicate NoneHasRoom(blocks: map<Addr, Block>, chain: seq<Addr>, k: nat, n: nat) {
    k <= |chain| && forall i | 0 <= i < k :: chain[i] in blocks && !HasRoom(blocks[chain[i]], n)
  }

  /** i is the first block with room for n bytes, or their number when none has room. */
  ghost predicate FirstFit(blocks: map<Addr, Block>, chain: seq<Addr>, i: nat, n: nat) {
    NoneHasRoom(blocks, chain, i, n) && (i < |chain| ==> chain[i] in blocks && HasRoom(blocks[chain[i]], n))
  }

  /** The blocks after a new one of s bytes was linked behind the last one. */
  function Linked(blocks: map<Addr, Block>, last: Addr, q: Addr, s: nat): map<Addr, Block>
    requires last in blocks
  {
    blocks[q := Block(q + BLOCK_HEADER, q + s, NIL, NIL)][last := blocks[last].(next := q)]
  }

  /** How n bytes at m are served: the i-th block has room, and its bump pointer moves behind them and nothing
      else happens; or none has, and a new block is linked behind the last one, with them behind its header. */
  ghost predicate Serves(blocks: map<Addr, Block>, mallocs: Mallocs, chain: seq<Addr>, blocks': map<Addr, Block>,
                         mallocs': Mallocs, chain': seq<Addr>, s: nat, i: nat, m: Addr, n: nat) {
    if i < |chain| then
      && chain[i] in blocks && m == Align(blocks[chain[i]].last)
      && blocks' == blocks[chain[i] := blocks[chain[i]].(last := m + n)] && mallocs' == mallocs && chain' == chain
    else
      && chain != [] && chain[|chain| - 1] in blocks && |chain'| == |chain| + 1
      && var q := chain'[|chain|];
      && chain' == chain + [q] && m == q + BLOCK_HEADER && q !in blocks && q !in mallocs
      && mallocs' == mallocs[q := Zeros(s)]
      && blocks' == Linked(blocks, chain[|chain| - 1], q, s)[q := Block(m + n, q + s, NIL, NIL)]
  }

  lemma BumpServes(blocks: map<Addr, Block>, mallocs: Mallocs, chain: seq<Addr>, s: nat, i: nat, m: Addr, n: nat)
    requires i < |chain| && chain[i] in blocks && m == Align(blocks[chain[i]].last)
    ensures var blocks' := blocks[chain[i] := blocks[chain[i]].(last := m + n)];
      Serves(blocks, mallocs, chain, blocks', mallocs, chain, s, i, m, n)
  {
  }

  lemma OpenServes(blocks: map<Addr, Block>, mallocs: Mallocs, chain: seq<Addr>, blocks1: map<Addr, Block>, s: nat,
                   q: Addr, n: nat)
    requires chain != [] && chain[|chain| - 1] in blocks && q !in blocks && q !in mallocs
    requires blocks1 == Linked(blocks, chain[|chain| - 1], q, s)
    ensures q in blocks1 && blocks1[q] == Block(q + BLOCK_HEADER, q + s, NIL, NIL)
    ensures var blocks' := blocks1[q := blocks1[q].(last := q + BLOCK_HEADER + n)];
      Serves(blocks, mallocs, chain, blocks', mallocs[q := Zeros(s)], chain + [q], s, |chain|, q + BLOCK_HEADER, n)
  {
  }

  /** Apart from the heads of the header lists. */
  ghost predicate SameButLarge(blocks: map<Addr, Block>, blocks': map<Addr, Block>) {
    blocks'.Keys == blocks.Keys && forall b | b in blocks :: blocks'[b] == blocks[b].(large := blocks'[b].large)
  }

  lemma SameBlocks(blocks: map<Addr, Block>)
    ensures SameButLarge(blocks, blocks)
  {
  }

  /** The header h is served like any small request, and the buffer m is the only other new block. */
  ghost predicate LargeServes(blocks: map<Addr, Block>, mallocs: Mallocs, chain: seq<Addr>, blocks': map<Addr, Block>,
                              mallocs': Mallocs, chain': seq<Addr>, s: nat, i: nat, h: Addr, m: Addr) {
    && FirstFit(blocks, chain, i, LARGE_HEADER)
    && exists blocks1: map<Addr, Block> ::
      (Serves(blocks, mallocs, chain, blocks1, mallocs' - {m}, chain', s, i, h, LARGE_HEADER)
       && SameButLarge(blocks1, blocks'))
  }

  lemma ThenLarge(blocks: map<Addr, Block>, mallocs: Mallocs, chain: seq<Addr>, blocks1: map<Addr, Block>,
                  mallocs1: Mallocs, chain1: seq<Addr>, s: nat, i: nat, h: Addr, blocks2: map<Addr, Block>,
                  mallocs2: Mallocs, m: Addr, n: nat)
    requires FirstFit(blocks, chain, i, LARGE_HEADER)
    requires Serves(blocks, mallocs, chain, blocks1, mallocs1, chain1, s, i, h, LARGE_HEADER)
    requires SameButLarge(blocks1, blocks2) && m !in mallocs1 && mallocs2 == mallocs1[m := Zeros(n)]
    ensures LargeServes(blocks, mallocs, chain, blocks2, mallocs2, chain1, s, i, h, m)
  {
    hide Serves, SameButLarge, FirstFit;
    assert mallocs2 - {m} == mallocs1;
  }

  /** The list of headers and what they say is the same. */
  ghost predicate ListSame(larges: map<Addr, Large>, larges': map<Addr, Large>, headers: seq<Addr>,
                           headers': seq<Addr>) {
    headers' == headers && SameHeaders(larges, larges', headers)
  }

  /** At most one more piece was handed out, for a header. */
  ghost predicate SpansKept(spans: seq<Span>, spans': seq<Span>) {
    spans' == spans || (|spans'| == |spans| + 1 && spans'[..|spans|] == spans && spans'[|spans|].owner == Header)
  }

  /** One header more is in use, for the buffer m of n bytes. The list got longer, by a header at its end,
      only if all headers were in use. */
  ghost predicate AllocAdded(larges: map<Addr, Large>, larges': map<Addr, Large>, headers: seq<Addr>,
                             headers': seq<Addr>, m: Addr, n: nat) {
    && (forall i | 0 <= i < |headers| :: headers[i] in larges)
    && (forall i | 0 <= i < |headers'| :: headers'[i] in larges')
    && |headers| <= |headers'| && headers'[..|headers|] == headers
    && |headers'| == (if InUse(larges, headers) == |headers| then |headers| + 1 else |headers|)
    && InUse(larges', headers') == InUse(larges, headers) + 1
    && exists k: nat :: GotBuffer(larges, larges', headers, headers', k, m, n)
  }

  /** The header that got the buffer, the first that was idle; the other ones keep theirs. */
  ghost predicate GotBuffer(larges: map<Addr, Large>, larges': map<Addr, Large>, headers: seq<Addr>,
                            headers': seq<Addr>, k: nat, m: Addr, n: nat)
    requires forall i | 0 <= i < |headers| :: headers[i] in larges
    requires |headers| <= |headers'| && headers'[..|headers|] == headers
    requires forall i | 0 <= i < |headers'| :: headers'[i] in larges'
  {
    && k < |headers'| && larges'[headers'[k]].alloc == m && larges'[headers'[k]].size == AsInt(n)
    && (k < |headers| ==> larges[headers[k]].alloc == NIL)
    && (forall i | 0 <= i < k && i < |headers| :: larges[headers[i]].alloc != NIL)
    && forall i | 0 <= i < |headers| && i != k ::
      larges'[headers'[i]].alloc == larges[headers[i]].alloc && larges'[headers'[i]].size == larges[headers[i]].size
  }

  /** The invariants after the k-th header, which was idle, got the new buffer m. */
  lemma Used(blocks: map<Addr, Block>, mallocs: Mallocs, chain: seq<Addr>, s: nat, spans: seq<Span>, headers: seq<Addr>,
             larges: map<Addr, Large>, outside: Mallocs, first: Addr, k: nat, m: Addr, n: nat)
    requires ChainOk(blocks, mallocs, chain, s) && SpansOk(blocks, spans) && HeadersOk(larges, spans, headers, first)
    requires AllocsOk(larges, mallocs, blocks, headers) && OwnedOk(mallocs, outside, blocks, larges, headers)
    requires k < |headers| && headers[k] in larges && larges[headers[k]].alloc == NIL && m != NIL && m !in mallocs
    requires forall i | 0 <= i < |headers| :: headers[i] in larges
    ensures var larges' := larges[headers[k] := larges[headers[k]].(alloc := m, size := AsInt(n))];
      var mallocs' := mallocs[m := Zeros(n)];
      && ChainOk(blocks, mallocs', chain, s) && HeadersOk(larges', spans, headers, first)
      && AllocsOk(larges', mallocs', blocks, headers) && OwnedOk(mallocs', outside, blocks, larges', headers)
      && (forall i | 0 <= i < |headers| :: headers[i] in larges')
      && InUse(larges', headers) == InUse(larges, headers) + 1
  {
    var larges' := larges[headers[k] := larges[headers[k]].(alloc := m, size := AsInt(n))];
    hide HeadersOk, ChainOk, SpansOk, AllocsOk, OwnedOk, BlockOk;
    HeaderNext(larges, spans, headers, first, k);
    BlocksLive(blocks, mallocs, chain, s);
    UsedHeaders(larges, spans, headers, first, k, m, n);
    ChainKept(blocks, mallocs, chain, s, m, Zeros(n));
    NotABlock(blocks, mallocs, s, m);
    UsedAllocs(blocks, mallocs, headers, larges, k, m, n);
    UsedOwned(blocks, mallocs, headers, larges, outside, k, m, n);
    hide InUse;
    UsedCounts(larges, larges', headers, k, m, n);
  }

  lemma UsedCounts(larges: map<Addr, Large>, larges': map<Addr, Large>, headers: seq<Addr>, k: nat, m: Addr, n: nat)
    requires k < |headers| && (forall i | 0 <= i < |headers| :: headers[i] in larges && headers[i] in larges')
    requires forall i, j | 0 <= i < j < |headers| :: headers[i] != headers[j]
    requires larges[headers[k]].alloc == NIL && m != NIL
      && larges' == larges[headers[k] := larges[headers[k]].(alloc := m, size := AsInt(n))]
    ensures InUse(larges', headers) == InUse(larges, headers) + 1
  {
    assert forall i | 0 <= i < |headers| && i != k :: larges'[headers[i]] == larges[headers[i]];
    InUseChanged(larges, larges', headers, k);
  }

  lemma UsedAdded(larges: map<Addr, Large>, larges': map<Addr, Large>, headers: seq<Addr>, k: nat, m: Addr, n: nat)
    requires k < |headers| && (forall i | 0 <= i < |headers| :: headers[i] in larges && headers[i] in larges')
    requires forall i, j | 0 <= i < j < |headers| :: headers[i] != headers[j]
    requires larges[headers[k]].alloc == NIL && m != NIL
      && larges' == larges[headers[k] := larges[headers[k]].(alloc := m, size := AsInt(n))]
    requires forall i | 0 <= i < k :: larges[headers[i]].alloc != NIL
    ensures AllocAdded(larges, larges', headers, headers, m, n)
  {
    UsedCounts(larges, larges', headers, k, m, n);
    InUseAll(larges, headers);
    hide InUse;
    assert headers[..|headers|] == headers;
    assert GotBuffer(larges, larges', headers, headers, k, m, n);
  }

  lemma NotABlock(blocks: map<Addr, Block>, mallocs: Mallocs, s: nat, m: Addr)
    requires (forall b | b in blocks :: BlockOk(blocks, mallocs, b, s)) && m !in mallocs
    ensures m !in blocks
  {
  }

  lemma UsedHeaders(larges: map<Addr, Large>, spans: seq<Span>, headers: seq<Addr>, first: Addr, k: nat, m: Addr,
                    n: nat)
    requires HeadersOk(larges, spans, headers, first) && k < |headers| && headers[k] in larges
    ensures HeadersOk(larges[headers[k] := larges[headers[k]].(alloc := m, size := AsInt(n))], spans, headers, first)
  {
    hide HeaderAt;
  }

  lemma ChainKept(blocks: map<Addr, Block>, mallocs: Mallocs, chain: seq<Addr>, s: nat, m: Addr, t: bytes)
    requires ChainOk(blocks, mallocs, chain, s) && m !in mallocs
    ensures ChainOk(blocks, mallocs[m := t], chain, s)
  {
    forall i | 0 <= i < |chain| ensures BlockOk(blocks, mallocs[m := t], chain[i], s) {
      assert BlockOk(blocks, mallocs, chain[i], s);
    }
  }

  lemma UsedAllocs(blocks: map<Addr, Block>, mallocs: Mallocs, headers: seq<Addr>, larges: map<Addr, Large>, k: nat,
                   m: Addr, n: nat)
    requires AllocsOk(larges, mallocs, blocks, headers) && k < |headers| && headers[k] in larges
      && larges[headers[k]].alloc == NIL
    requires m != NIL && m !in mallocs && m !in blocks
    requires forall i, j | 0 <= i < j < |headers| :: headers[i] != headers[j]
    ensures var larges' := larges[headers[k] := larges[headers[k]].(alloc := m, size := AsInt(n))];
      AllocsOk(larges', mallocs[m := Zeros(n)], blocks, headers)
  {
  }

  lemma UsedOwned(blocks: map<Addr, Block>, mallocs: Mallocs, headers: seq<Addr>, larges: map<Addr, Large>,
                  outside: Mallocs, k: nat, m: Addr, n: nat)
    requires OwnedOk(mallocs, outside, blocks, larges, headers) && k < |headers| && headers[k] in larges
      && larges[headers[k]].alloc == NIL
    requires m != NIL && m !in mallocs && forall i, j | 0 <= i < j < |headers| :: headers[i] != headers[j]
    ensures var larges' := larges[headers[k] := larges[headers[k]].(alloc := m, size := AsInt(n))];
      OwnedOk(mallocs[m := Zeros(n)], outside, blocks, larges', headers)
  {
    var larges' := larges[headers[k] := larges[headers[k]].(alloc := m, size := AsInt(n))];
    forall b ensures IsLarge(larges', headers, b) <==> IsLarge(larges, headers, b) || b == m {
      if IsLarge(larges', headers, b) {
        var i :| 0 <= i < |headers| && headers[i] in larges' && larges'[headers[i]].alloc == b;
        if i != k { assert larges[headers[i]].alloc == b; }
      }
      if IsLarge(larges, headers, b) {
        var i :| 0 <= i < |headers| && headers[i] in larges && larges[headers[i]].alloc == b;
        assert larges'[headers[i]].alloc == b;
      }
      assert larges'[headers[k]].alloc == m;
    }
    hide IsLarge;
  }

  lemma KeepsTwice(a: Mallocs, b: Mallocs, c: Mallocs)
    requires Keeps(a, b) && Keeps(b, c)
    ensures Keeps(a, c) && forall x | x !in b :: x !in a
  {
  }

  /** A piece just handed out for a header is none of the headers of the list. */
  lemma NewPiece(blocks: map<Addr, Block>, mallocs: Mallocs, chain: seq<Addr>, s: nat, spans: seq<Span>,
                 spans': seq<Span>, headers: seq<Addr>, larges: map<Addr, Large>, first: Addr, m: Addr)
    requires HeapOk(mallocs) && ChainOk(blocks, mallocs, chain, s) && SpansOk(blocks, spans')
    requires HeadersOk(larges, spans, headers, first)
      && HandsOut(spans, spans', mallocs, blocks, m, LARGE_HEADER, Header)
    ensures HeaderAt(spans', m) && m !in headers
  {
    hide HeapOk, ChainOk;
    var z := |spans|;
    assert spans'[z].addr == m && spans'[z].owner == Header;
    forall i | 0 <= i < |headers| ensures headers[i] != m {
      var k :| 0 <= k < |spans| && spans[k].addr == headers[i] && spans[k].owner == Header;
      assert spans'[k] == spans[k] by { assert spans'[..z][k] == spans[k]; }
      PiecesApart(blocks, mallocs, chain, s, spans', k, z);
    }
  }

  /** Pieces that were handed out have no byte in common. */
  lemma PiecesApart(blocks: map<Addr, Block>, mallocs: Mallocs, chain: seq<Addr>, s: nat, spans: seq<Span>, i: nat,
                    j: nat)
    requires HeapOk(mallocs) && ChainOk(blocks, mallocs, chain, s) && SpansOk(blocks, spans) && i < |spans|
      && j < |spans| && i != j
    ensures spans[i].addr + spans[i].size <= spans[j].addr || spans[j].addr + spans[j].size <= spans[i].addr
  {
    var p, q := spans[i].block, spans[j].block;
    assert SpanOk(blocks, spans[i]) && SpanOk(blocks, spans[j]);
    BlocksLive(blocks, mallocs, chain, s);
    hide ChainOk;
    if p == q {
      if i < j {
        assert spans[i].addr + spans[i].size <= spans[j].addr;
      } else {
        assert spans[j].addr + spans[j].size <= spans[i].addr;
      }
    } else {
      assert BlockOk(blocks, mallocs, p, s) && BlockOk(blocks, mallocs, q, s);
    }
  }

  /** Writing a header that is not in the list. */
  lemma Unlisted(blocks: map<Addr, Block>, mallocs: Mallocs, spans: seq<Span>, headers: seq<Addr>,
                 larges: map<Addr, Large>, outside: Mallocs, first: Addr, h: Addr)
    requires HeadersOk(larges, spans, headers, first) && AllocsOk(larges, mallocs, blocks, headers)
    requires OwnedOk(mallocs, outside, blocks, larges, headers) && h !in headers
    ensures var larges' := larges[h := Large(NIL, 0, NIL)];
      && HeadersOk(larges', spans, headers, first) && AllocsOk(larges', mallocs, blocks, headers)
      && OwnedOk(mallocs, outside, blocks, larges', headers) && ListSame(larges, larges', headers, headers)
      && InUse(larges', headers) == InUse(larges, headers) && forall i | 0 <= i < |headers| :: headers[i] in larges'
  {
    var larges' := larges[h := Large(NIL, 0, NIL)];
    assert SameHeaders(larges, larges', headers);
    hide HeaderAt;
    SameLarge(larges, larges', headers);
    hide IsLarge;
    InUseSame(larges, larges', headers);
  }

  lemma SameLarge(larges: map<Addr, Large>, larges': map<Addr, Large>, headers: seq<Addr>)
    requires forall i | 0 <= i < |headers| ::
      headers[i] in larges && headers[i] in larges' && larges'[headers[i]] == larges[headers[i]]
    ensures forall b :: IsLarge(larges', headers, b) <==> IsLarge(larges, headers, b)
  {
  }

  lemma ListItself(larges: map<Addr, Large>, headers: seq<Addr>, spans: seq<Span>)
    requires forall i | 0 <= i < |headers| :: headers[i] in larges
    ensures ListSame(larges, larges, headers, headers) && SpansKept(spans, spans)
  {
  }

  lemma HeaderHandedOut(spans: seq<Span>, spans': seq<Span>, mallocs: Mallocs, blocks: map<Addr, Block>, m: Addr)
    requires HandsOut(spans, spans', mallocs, blocks, m, LARGE_HEADER, Header)
    ensures SpansKept(spans, spans')
  {
  }

  lemma HeaderNext(larges: map<Addr, Large>, spans: seq<Span>, headers: seq<Addr>, first: Addr, k: nat)
    requires HeadersOk(larges, spans, headers, first)
    ensures first == Nth(headers, 0) && (first == NIL <==> headers == [])
    ensures k < |headers| ==>
      headers[k] != NIL && headers[k] in larges && larges[headers[k]].next == Nth(headers, k + 1)
    ensures k < |headers| ==> (larges[headers[k]].next == NIL <==> k + 1 == |headers|)
    ensures forall i | 0 <= i < |headers| :: headers[i] in larges
    ensures forall i, j | 0 <= i < j < |headers| :: headers[i] != headers[j]
  {
    hide HeaderAt;
    if k + 1 < |headers| { assert headers[k + 1] != NIL; }
  }

  lemma FirstHeader(blocks: map<Addr, Block>, mallocs: Mallocs, chain: seq<Addr>, s: nat, spans: seq<Span>,
                    larges: map<Addr, Large>, outside: Mallocs, headers: seq<Addr>, p: Addr, h: Addr)
    requires ChainOk(blocks, mallocs, chain, s) && SpansOk(blocks, spans) && p in blocks
    requires AllocsOk(larges, mallocs, blocks, headers) && OwnedOk(mallocs, outside, blocks, larges, headers)
    requires HeaderAt(spans, h) && h != NIL && headers == [] && h in larges && larges[h] == Large(NIL, 0, NIL)
    ensures var blocks' := blocks[p := blocks[p].(large := h)];
      && ChainOk(blocks', mallocs, chain, s) && SpansOk(blocks', spans) && HeadersOk(larges, spans, [h], h)
      && AllocsOk(larges, mallocs, blocks', [h]) && OwnedOk(mallocs, outside, blocks', larges, [h])
  {
    var blocks' := blocks[p := blocks[p].(large := h)];
    forall i | 0 <= i < |chain| ensures BlockOk(blocks', mallocs, chain[i], s) {
      assert BlockOk(blocks, mallocs, chain[i], s);
    }
    hide HeaderAt, BlockOk;
    OneLarge(larges, h);
    hide IsLarge;
  }

  lemma OneLarge(larges: map<Addr, Large>, h: Addr)
    requires h in larges && larges[h].alloc == NIL
    ensures forall b :: !IsLarge(larges, [h], b) && !IsLarge(larges, [], b)
  {
  }

  lemma NextHeader(blocks: map<Addr, Block>, mallocs: Mallocs, spans: seq<Span>, larges: map<Addr, Large>,
                   outside: Mallocs, headers: seq<Addr>, first: Addr, h: Addr)
    requires HeadersOk(larges, spans, headers, first) && headers != []
    requires AllocsOk(larges, mallocs, blocks, headers) && OwnedOk(mallocs, outside, blocks, larges, headers)
    requires HeaderAt(spans, h) && h != NIL && h !in headers && h in larges && larges[h] == Large(NIL, 0, NIL)
    ensures var last := headers[|headers| - 1];
      last in larges && var larges' := larges[last := larges[last].(next := h)];
      && HeadersOk(larges', spans, headers + [h], first)
      && AllocsOk(larges', mallocs, blocks, headers + [h]) && OwnedOk(mallocs, outside, blocks, larges', headers + [h])
  {
    hide HeaderAt;
    var last := headers[|headers| - 1];
    var larges' := larges[last := larges[last].(next := h)];
    NextLarge(larges, larges', headers, h);
    hide IsLarge;
  }

  lemma NextLarge(larges: map<Addr, Large>, larges': map<Addr, Large>, headers: seq<Addr>, h: Addr)
    requires forall i | 0 <= i < |headers| ::
      headers[i] in larges && headers[i] in larges' && larges'[headers[i]].alloc == larges[headers[i]].alloc
    requires h in larges' && larges'[h].alloc == NIL
    ensures forall b :: IsLarge(larges', headers + [h], b) <==> IsLarge(larges, headers, b)
  {
    var headers' := headers + [h];
    forall b ensures IsLarge(larges', headers', b) <==> IsLarge(larges, headers, b) {
      if IsLarge(larges', headers', b) {
        var i :| 0 <= i < |headers'| && headers'[i] in larges' && larges'[headers'[i]].alloc == b;
        assert i < |headers| && larges[headers[i]].alloc == b;
      }
      if IsLarge(larges, headers, b) {
        var i :| 0 <= i < |headers| && headers[i] in larges && larges[headers[i]].alloc == b;
        assert headers'[i] == headers[i];
      }
    }
  }

  /** The headers have the buffers they had. */
  ghost predicate SameBuffers(larges: map<Addr, Large>, larges': map<Addr, Large>, headers: seq<Addr>) {
    && (forall i | 0 <= i < |headers| :: headers[i] in larges && headers[i] in larges')
    && (forall i | 0 <= i < |headers| :: larges'[headers[i]].alloc == larges[headers[i]].alloc)
    && (forall i | 0 <= i < |headers| :: larges'[headers[i]].size == larges[headers[i]].size)
  }

  /** The invariants after a new header at the end of a full list got its buffer. */
  lemma UsedLast(blocks: map<Addr, Block>, mallocs: Mallocs, chain: seq<Addr>, s: nat, spans: seq<Span>,
                 headers: seq<Addr>, headers': seq<Addr>, larges: map<Addr, Large>, unlinked: map<Addr, Large>,
                 larges1: map<Addr, Large>, outside: Mallocs, first: Addr, m: Addr, n: nat)
    requires |headers'| == |headers| + 1 && headers' == headers + [headers'[|headers|]]
    requires ChainOk(blocks, mallocs, chain, s) && SpansOk(blocks, spans) && HeadersOk(larges1, spans, headers', first)
    requires AllocsOk(larges1, mallocs, blocks, headers') && OwnedOk(mallocs, outside, blocks, larges1, headers')
    requires forall i | 0 <= i < |headers| :: headers[i] in larges && larges[headers[i]].alloc != NIL
    requires ListSame(larges, unlinked, headers, headers) && SameBuffers(unlinked, larges1, headers)
    requires var h := headers'[|headers|];
      h in larges1 && larges1[h] == Large(NIL, 0, NIL) && h !in headers
    requires m != NIL && m !in mallocs
    ensures var h := headers'[|headers|];
      var larges' := larges1[h := larges1[h].(alloc := m, size := AsInt(n))];
      var mallocs' := mallocs[m := Zeros(n)];
      && ChainOk(blocks, mallocs', chain, s) && HeadersOk(larges', spans, headers', first)
      && AllocsOk(larges', mallocs', blocks, headers') && OwnedOk(mallocs', outside, blocks, larges', headers')
      && (forall i | 0 <= i < |headers'| :: headers'[i] in larges') && InUse(larges', headers') == |headers'|
      && InUse(larges, headers) == |headers| && AllocAdded(larges, larges', headers, headers', m, n)
      && Keeps(mallocs, mallocs')
  {
    var h := headers'[|headers|];
    var larges' := larges1[h := larges1[h].(alloc := m, size := AsInt(n))];
    hide HeadersOk, AllocsOk, OwnedOk, SpansOk, ChainOk, AllocAdded, InUse, AsInt, Keeps;
    SameSince(larges, unlinked, larges1, headers);
    HeaderNext(larges1, spans, headers', first, |headers|);
    hide ListSame, SameBuffers;
    Used(blocks, mallocs, chain, s, spans, headers', larges1, outside, first, |headers|, m, n);
    KeepsNew(mallocs, m, Zeros(n));
    AddedToList(larges, larges1, larges', headers, headers', m, n);
  }

  lemma SameSince(larges: map<Addr, Large>, larges1: map<Addr, Large>, larges2: map<Addr, Large>, headers: seq<Addr>)
    requires ListSame(larges, larges1, headers, headers) && SameBuffers(larges1, larges2, headers)
    ensures SameBuffers(larges, larges2, headers) && forall i | 0 <= i < |headers| :: headers[i] in larges2
  {
  }

  /** Before, a full list; then an idle header at its end; then that header in use. */
  lemma AddedToList(larges: map<Addr, Large>, larges1: map<Addr, Large>, larges2: map<Addr, Large>, headers: seq<Addr>,
                    headers': seq<Addr>, m: Addr, n: nat)
    requires |headers'| == |headers| + 1 && headers'[..|headers|] == headers
    requires forall i | 0 <= i < |headers| ::
      headers[i] in larges && headers[i] in larges1 && larges[headers[i]].alloc != NIL
    requires SameBuffers(larges, larges1, headers)
    requires headers'[|headers|] in larges1 && larges1[headers'[|headers|]].alloc == NIL && m != NIL
    requires larges2 == larges1[headers'[|headers|] := larges1[headers'[|headers|]].(alloc := m, size := AsInt(n))]
    requires headers'[|headers|] !in headers
    ensures AllocAdded(larges, larges2, headers, headers', m, n) && InUse(larges2, headers') == |headers'|
    ensures InUse(larges, headers) == |headers|
  {
    var z := |headers|;
    assert forall i | 0 <= i < z :: headers'[i] == headers[i];
    InUseAll(larges, headers);
    InUseAll(larges2, headers');
    assert GotBuffer(larges, larges2, headers, headers', z, m, n);
  }

  /** The structs that do not lie in the n bytes at p. */
  function Outside(larges: map<Addr, Large>, p: Addr, n: nat): map<Addr, Large> {
    map h | h in larges && !(p <= h < p + n) :: larges[h]
  }

  /** The k-th header is idle now, the others are as they were. */
  ghost predicate Released(larges: map<Addr, Large>, larges': map<Addr, Large>, headers: seq<Addr>, k: nat) {
    && k < |headers| && (forall i | 0 <= i < |headers| :: headers[i] in larges && headers[i] in larges')
    && larges'[headers[k]] == larges[headers[k]].(alloc := NIL)
    && forall i | 0 <= i < |headers| && i != k :: larges'[headers[i]] == larges[headers[i]]
  }

  lemma AllocLive(larges: map<Addr, Large>, mallocs: Mallocs, blocks: map<Addr, Block>, headers: seq<Addr>, k: nat)
    requires AllocsOk(larges, mallocs, blocks, headers) && k < |headers| && headers[k] in larges
      && larges[headers[k]].alloc != NIL
    ensures var l := larges[headers[k]]; l.alloc in mallocs && l.alloc !in blocks && l.size == AsInt(|mallocs[l.alloc]|)
  {
    assert headers[k] in larges;
  }

  /** When the buffer of a header can be wiped by the size stated. */
  lemma WipeableWhen(larges: map<Addr, Large>, mallocs: Mallocs, blocks: map<Addr, Block>, headers: seq<Addr>, k: nat)
    requires HeapOk(mallocs) && AllocsOk(larges, mallocs, blocks, headers) && k < |headers| && headers[k] in larges
    ensures var l := larges[headers[k]];
      Wipeable(mallocs, l.alloc, l.size) <==> l.alloc != NIL && l.alloc in mallocs && !Overruns(|mallocs[l.alloc]|)
    ensures var a := larges[headers[k]].alloc; a != NIL ==> a in mallocs && IsLarge(larges, headers, a)
  {
    var l := larges[headers[k]];
    if l.alloc != NIL {
      AllocLive(larges, mallocs, blocks, headers, k);
    }
  }

  /** The large buffer b is in use, and its size does not fit the int it is wiped by. */
  ghost predicate Exceeds(larges: map<Addr, Large>, mallocs: Mallocs, headers: seq<Addr>, b: Addr) {
    IsLarge(larges, headers, b) && b in mallocs && Overruns(|mallocs[b]|)
  }

  /** The buffers still in use were in use at first, and are as they were; the others could be wiped. */
  ghost predicate Held(larges: map<Addr, Large>, mallocs: Mallocs, larges': map<Addr, Large>, mallocs': Mallocs,
                       headers: seq<Addr>) {
    && (forall b | IsLarge(larges', headers, b) ::
      IsLarge(larges, headers, b) && b in mallocs && b in mallocs' && mallocs'[b] == mallocs[b])
    && (forall b | Exceeds(larges, mallocs, headers, b) :: IsLarge(larges', headers, b))
  }

  lemma HeldAll(larges: map<Addr, Large>, mallocs: Mallocs, blocks: map<Addr, Block>, headers: seq<Addr>)
    requires AllocsOk(larges, mallocs, blocks, headers)
    ensures Held(larges, mallocs, larges, mallocs, headers)
  {
  }

  lemma HeldAt(larges: map<Addr, Large>, mallocs: Mallocs, larges': map<Addr, Large>, mallocs': Mallocs,
               headers: seq<Addr>, k: nat)
    requires Held(larges, mallocs, larges', mallocs', headers) && k < |headers| && headers[k] in larges'
    requires larges'[headers[k]].alloc != NIL
    ensures var a := larges'[headers[k]].alloc;
      a in mallocs' && (Overruns(|mallocs'[a]|) ==> Exceeds(larges, mallocs, headers, a))
  {
    hide Overruns;
    assert IsLarge(larges', headers, larges'[headers[k]].alloc);
  }

  lemma HeldStill(larges: map<Addr, Large>, mallocs: Mallocs, larges1: map<Addr, Large>, mallocs1: Mallocs,
                  larges2: map<Addr, Large>, mallocs2: Mallocs, blocks: map<Addr, Block>, headers: seq<Addr>, k: nat)
    requires AllocsOk(larges1, mallocs1, blocks, headers)
    requires Held(larges, mallocs, larges1, mallocs1, headers) && Released(larges1, larges2, headers, k)
    requires var a := larges1[headers[k]].alloc;
      a != NIL && a in mallocs1 && !Overruns(|mallocs1[a]|) && mallocs2 == mallocs1 - {a}
    ensures Held(larges, mallocs, larges2, mallocs2, headers)
  {
    var a := larges1[headers[k]].alloc;
    forall b ensures IsLarge(larges2, headers, b) <==> IsLarge(larges1, headers, b) && b != a {
      if IsLarge(larges2, headers, b) {
        var i :| 0 <= i < |headers| && headers[i] in larges2 && larges2[headers[i]].alloc == b;
        assert i != k && larges1[headers[i]].alloc == b;
      }
      if IsLarge(larges1, headers, b) && b != a {
        var i :| 0 <= i < |headers| && headers[i] in larges1 && larges1[headers[i]].alloc == b;
        assert i != k && larges2[headers[i]].alloc == b;
      }
    }
    assert IsLarge(larges1, headers, a);
    hide IsLarge, Overruns;
  }

  lemma HeldNone(larges: map<Addr, Large>, mallocs: Mallocs, larges': map<Addr, Large>, mallocs': Mallocs,
                 headers: seq<Addr>)
    requires Held(larges, mallocs, larges', mallocs', headers)
    requires forall i | 0 <= i < |headers| :: headers[i] in larges' && larges'[headers[i]].alloc == NIL
    ensures forall b :: !Exceeds(larges, mallocs, headers, b)
  {
    assert forall b :: !IsLarge(larges', headers, b);
    hide IsLarge;
  }

  /** No header of the list lies in a large buffer. */
  lemma HeadersElsewhere(blocks: map<Addr, Block>, mallocs: Mallocs, chain: seq<Addr>, s: nat, spans: seq<Span>,
                         headers: seq<Addr>, larges: map<Addr, Large>, first: Addr, a: Addr)
    requires HeapOk(mallocs) && ChainOk(blocks, mallocs, chain, s) && SpansOk(blocks, spans)
      && HeadersOk(larges, spans, headers, first)
    requires a in mallocs && a !in blocks
    ensures forall i | 0 <= i < |headers| :: !(a <= headers[i] < a + |mallocs[a]|)
  {
    BlocksLive(blocks, mallocs, chain, s);
    hide ChainOk;
    forall i | 0 <= i < |headers| ensures !(a <= headers[i] < a + |mallocs[a]|) {
      var k :| 0 <= k < |spans| && spans[k].addr == headers[i] && spans[k].owner == Header;
      assert SpanOk(blocks, spans[k]) && BlockOk(blocks, mallocs, spans[k].block, s);
    }
  }

  /** The invariants after the buffer of the k-th header was freed. */
  lemma FreedLarge(blocks: map<Addr, Block>, mallocs: Mallocs, chain: seq<Addr>, s: nat, spans: seq<Span>,
                   headers: seq<Addr>, larges: map<Addr, Large>, outside: Mallocs, first: Addr, k: nat)
    requires ChainOk(blocks, mallocs, chain, s) && HeadersOk(larges, spans, headers, first)
    requires AllocsOk(larges, mallocs, blocks, headers) && OwnedOk(mallocs, outside, blocks, larges, headers)
    requires k < |headers| && (forall i | 0 <= i < |headers| :: headers[i] in larges) && larges[headers[k]].alloc != NIL
    requires var a := larges[headers[k]].alloc;
      a in mallocs && a !in blocks && forall i | 0 <= i < |headers| :: !(a <= headers[i] < a + |mallocs[a]|)
    ensures var a := larges[headers[k]].alloc;
      var larges1 := Outside(larges, a, |mallocs[a]|);
      headers[k] in larges1 && var larges' := larges1[headers[k] := larges1[headers[k]].(alloc := NIL)];
      && blocks - {a} == blocks && ChainOk(blocks, mallocs - {a}, chain, s) && HeadersOk(larges', spans, headers, first)
      && AllocsOk(larges', mallocs - {a}, blocks, headers) && OwnedOk(mallocs - {a}, outside, blocks, larges', headers)
      && Released(larges, larges', headers, k) && InUse(larges', headers) + 1 == InUse(larges, headers)
      && forall i | 0 <= i < |headers| :: headers[i] in larges'
  {
    var a := larges[headers[k]].alloc;
    var larges1 := Outside(larges, a, |mallocs[a]|);
    var larges' := larges1[headers[k] := larges1[headers[k]].(alloc := NIL)];
    HeaderNext(larges, spans, headers, first, k);
    ChainWithout(blocks, mallocs, chain, s, a);
    assert Released(larges, larges', headers, k);
    hide ChainOk, Outside, HeaderAt;
    ReleasedHeaders(larges, larges', spans, headers, first, k);
    ReleasedAllocs(larges, larges', mallocs, blocks, headers, k);
    ReleasedOwned(larges, larges', mallocs, outside, blocks, headers, k);
    hide HeadersOk, AllocsOk, OwnedOk;
    InUseChanged(larges, larges', headers, k);
  }

  lemma ChainWithout(blocks: map<Addr, Block>, mallocs: Mallocs, chain: seq<Addr>, s: nat, a: Addr)
    requires ChainOk(blocks, mallocs, chain, s) && a !in blocks
    ensures ChainOk(blocks, mallocs - {a}, chain, s) && blocks - {a} == blocks
  {
    forall i | 0 <= i < |chain| ensures BlockOk(blocks, mallocs - {a}, chain[i], s) {
      assert BlockOk(blocks, mallocs, chain[i], s);
    }
  }

  lemma ReleasedHeaders(larges: map<Addr, Large>, larges': map<Addr, Large>, spans: seq<Span>, headers: seq<Addr>,
                        first: Addr, k: nat)
    requires HeadersOk(larges, spans, headers, first) && Released(larges, larges', headers, k)
    ensures HeadersOk(larges', spans, headers, first)
  {
    hide HeaderAt;
    forall i | 0 <= i < |headers| ensures larges'[headers[i]].next == larges[headers[i]].next {
    }
  }

  lemma ReleasedAllocs(larges: map<Addr, Large>, larges': map<Addr, Large>, mallocs: Mallocs, blocks: map<Addr, Block>,
                       headers: seq<Addr>, k: nat)
    requires AllocsOk(larges, mallocs, blocks, headers) && Released(larges, larges', headers, k)
    ensures AllocsOk(larges', mallocs - {larges[headers[k]].alloc}, blocks, headers)
  {
    forall i | 0 <= i < |headers| && i != k
      ensures larges[headers[i]].alloc != NIL ==> larges[headers[i]].alloc != larges[headers[k]].alloc
    {
    }
  }

  lemma ReleasedOwned(larges: map<Addr, Large>, larges': map<Addr, Large>, mallocs: Mallocs, outside: Mallocs,
                      blocks: map<Addr, Block>, headers: seq<Addr>, k: nat)
    requires AllocsOk(larges, mallocs, blocks, headers) && OwnedOk(mallocs, outside, blocks, larges, headers)
    requires Released(larges, larges', headers, k) && larges[headers[k]].alloc != NIL
    ensures OwnedOk(mallocs - {larges[headers[k]].alloc}, outside, blocks, larges', headers)
  {
    var a := larges[headers[k]].alloc;
    assert IsLarge(larges, headers, a);
    forall b ensures IsLarge(larges', headers, b) <==> IsLarge(larges, headers, b) && b != a {
      if IsLarge(larges', headers, b) {
        var i :| 0 <= i < |headers| && headers[i] in larges' && larges'[headers[i]].alloc == b;
        assert i != k && larges[headers[i]].alloc == b;
      }
      if IsLarge(larges, headers, b) && b != a {
        var i :| 0 <= i < |headers| && headers[i] in larges && larges[headers[i]].alloc == b;
        assert i != k && larges'[headers[i]].alloc == b;
      }
    }
    hide IsLarge;
  }

  ghost function Elements(s: seq<Addr>): set<Addr> {
    set a | a in s
  }

  lemma ElementsNext(blocks: map<Addr, Block>, mallocs: Mallocs, chain: seq<Addr>, s: nat, i: nat)
    requires ChainOk(blocks, mallocs, chain, s) && i < |chain|
    ensures Elements(chain[..i + 1]) == Elements(chain[..i]) + {chain[i]} && chain[i] !in Elements(chain[..i])
    ensures chain[i] in blocks && chain[i] in mallocs && blocks[chain[i]].end == chain[i] + |mallocs[chain[i]]|
    ensures Nth(chain, i + 1) == blocks[chain[i]].next
      && (i + 1 < |chain| ==> chain[i + 1] in blocks && chain[i + 1] != NIL)
    ensures i + 1 < |chain| ==>
      chain[i + 1] !in Elements(chain[..i + 1]) && blocks[chain[i + 1]].next == Nth(chain, i + 2)
  {
    assert chain[..i + 1] == chain[..i] + [chain[i]];
    assert BlockOk(blocks, mallocs, chain[i], s);
    if i + 1 < |chain| {
      assert BlockOk(blocks, mallocs, chain[i + 1], s);
      if i + 2 < |chain| { assert BlockOk(blocks, mallocs, chain[i + 2], s); }
    }
  }

  lemma ReleasedFacts(larges: map<Addr, Large>, larges': map<Addr, Large>, headers: seq<Addr>, k: nat)
    requires Released(larges, larges', headers, k)
    ensures k < |headers| && (forall i | 0 <= i < |headers| :: headers[i] in larges && headers[i] in larges')
    ensures larges'[headers[k]].alloc == NIL && larges'[headers[k]].next == larges[headers[k]].next
    ensures forall i | 0 <= i < |headers| && i != k :: larges'[headers[i]] == larges[headers[i]]
  {
  }

  /** When no large buffer is left, the blocks of the pool are all that is live besides `outside`. */
  lemma BlocksLeft(mallocs: Mallocs, outside: Mallocs, blocks: map<Addr, Block>, larges: map<Addr, Large>,
                   headers: seq<Addr>)
    requires OwnedOk(mallocs, outside, blocks, larges, headers)
    requires forall i | 0 <= i < |headers| :: headers[i] in larges && larges[headers[i]].alloc == NIL
    ensures mallocs - blocks.Keys == outside
  {
    assert forall b :: !IsLarge(larges, headers, b);
    hide IsLarge;
    assert (mallocs - blocks.Keys).Keys == outside.Keys;
  }

  /** The byte at address a is part of a piece of block b that a client was given. */
  predicate InPiece(p: Span, b: Addr, a: Addr) {
    p.owner == Client && p.block == b && p.addr <= a < p.addr + p.size
  }

  /** The byte written lies before the bump pointer of its block. */
  lemma WrittenChain(blocks: map<Addr, Block>, mallocs: Mallocs, chain: seq<Addr>, s: nat, spans: seq<Span>,
                     larges: map<Addr, Large>, headers: seq<Addr>, b: Addr, k: nat, v: byte)
    requires ChainOk(blocks, mallocs, chain, s) && SpansOk(blocks, spans) && AllocsOk(larges, mallocs, blocks, headers)
    requires b in mallocs && k < |mallocs[b]|
    requires IsLarge(larges, headers, b)
      || exists i :: 0 <= i < |spans| && InPiece(spans[i], b, b + k)
    ensures ChainOk(blocks, mallocs[b := mallocs[b][k := v]], chain, s)
    ensures AllocsOk(larges, mallocs[b := mallocs[b][k := v]], blocks, headers)
  {
    var mallocs' := mallocs[b := mallocs[b][k := v]];
    assert b in blocks ==> k < blocks[b].last - b by {
      if b in blocks && !IsLarge(larges, headers, b) {
        var i :| 0 <= i < |spans| && InPiece(spans[i], b, b + k);
        assert SpanOk(blocks, spans[i]);
      }
    }
    forall i | 0 <= i < |chain| ensures BlockOk(blocks, mallocs', chain[i], s) {
      assert BlockOk(blocks, mallocs, chain[i], s);
    }
  }

  lemma WrittenOwned(blocks: map<Addr, Block>, mallocs: Mallocs, chain: seq<Addr>, s: nat, spans: seq<Span>,
                     larges: map<Addr, Large>, headers: seq<Addr>, outside: Mallocs, b: Addr, k: nat, v: byte)
    requires OwnedOk(mallocs, outside, blocks, larges, headers) && SpansOk(blocks, spans) && b in mallocs
      && k < |mallocs[b]|
    requires IsLarge(larges, headers, b)
      || exists i :: 0 <= i < |spans| && InPiece(spans[i], b, b + k)
    ensures OwnedOk(mallocs[b := mallocs[b][k := v]], outside, blocks, larges, headers)
  {
    assert b in blocks || IsLarge(larges, headers, b) by {
      if !IsLarge(larges, headers, b) {
        var i :| 0 <= i < |spans| && InPiece(spans[i], b, b + k);
        assert SpanOk(blocks, spans[i]);
      }
    }
    hide IsLarge;
  }

  lemma NoElements(mallocs: Mallocs, blocks: map<Addr, Block>)
    ensures Elements([]) == {} && mallocs - {} == mallocs && blocks - {} == blocks
  {
  }

  lemma MinusNext(mallocs: Mallocs, blocks: map<Addr, Block>, ps: set<Addr>, p: Addr)
    ensures mallocs - ps - {p} == mallocs - (ps + {p}) && blocks - ps - {p} == blocks - (ps + {p})
  {
  }

  lemma BlocksInChain(blocks: map<Addr, Block>, mallocs: Mallocs, chain: seq<Addr>, s: nat)
    requires ChainOk(blocks, mallocs, chain, s)
    ensures Elements(chain) == blocks.Keys
  {
    forall i | 0 <= i < |chain| ensures chain[i] in blocks {
      assert BlockOk(blocks, mallocs, chain[i], s);
    }
  }

  lemma NotLive(mallocs: Mallocs, q: Addr, n: nat)
    requires Free(mallocs, q, n)
    ensures q !in mallocs
  {
  }

  lemma NotYet(blocks: map<Addr, Block>, mallocs: Mallocs, chain: seq<Addr>, s: nat, q: Addr, b: Block)
    requires ChainOk(blocks, mallocs, chain, s) && q !in mallocs
    ensures q !in blocks && blocks[q := b] - {q} == blocks
  {
    BlocksLive(blocks, mallocs, chain, s);
    assert q !in blocks;
  }

  lemma KeepsNew(mallocs: Mallocs, q: Addr, s: bytes)
    requires q !in mallocs
    ensures Keeps(mallocs, mallocs[q := s])
  {
  }

  /** The invariants after a new block was linked behind the last one. */
  lemma Fresh(blocks': map<Addr, Block>, mallocs: Mallocs, chain: seq<Addr>, s: nat, spans: seq<Span>,
              headers: seq<Addr>, larges: map<Addr, Large>, outside: Mallocs, first: Addr, q: Addr)
    requires q !in mallocs && q > 0 && q % 8 == 0 && q in blocks' && chain != []
      && blocks'[q] == Block(q + BLOCK_HEADER, q + s, NIL, NIL)
    requires var blocks := blocks' - {q};
      && ChainOk(blocks, mallocs, chain, s) && SpansOk(blocks, spans) && HeadersOk(larges, spans, headers, first)
      && AllocsOk(larges, mallocs, blocks, headers) && OwnedOk(mallocs, outside, blocks, larges, headers)
    ensures var last := chain[|chain| - 1];
      && last in blocks' && last != q && q !in chain
      && var blocks'' := blocks'[last := blocks'[last].(next := q)];
      && ChainOk(blocks'', mallocs[q := Zeros(s)], chain + [q], s) && SpansOk(blocks'', spans)
      && AllocsOk(larges, mallocs[q := Zeros(s)], blocks'', headers)
      && OwnedOk(mallocs[q := Zeros(s)], outside, blocks'', larges, headers)
      && blocks''[q] == blocks'[q]
      && forall b | b in blocks' :: b in blocks'' && blocks''[b].large == blocks'[b].large
  {
    var blocks := blocks' - {q};
    assert blocks[q := Block(q + BLOCK_HEADER, q + s, NIL, NIL)] == blocks';
    ChainGrows(blocks, mallocs, chain, s, q);
    FreshSpans(blocks, blocks', spans, q, chain[|chain| - 1]);
    hide ChainOk, SpansOk, HeadersOk;
    var last := chain[|chain| - 1];
    FreshOwned(blocks', mallocs, headers, larges, outside, q, s, blocks'[last := blocks'[last].(next := q)]);
  }

  lemma FreshSpans(blocks: map<Addr, Block>, blocks': map<Addr, Block>, spans: seq<Span>, q: Addr, last: Addr)
    requires SpansOk(blocks, spans) && blocks == blocks' - {q} && last in blocks
    ensures SpansOk(blocks'[last := blocks'[last].(next := q)], spans)
  {
  }

  lemma FreshOwned(blocks': map<Addr, Block>, mallocs: Mallocs, headers: seq<Addr>, larges: map<Addr, Large>,
                   outside: Mallocs, q: Addr, s: nat, blocks'': map<Addr, Block>)
    requires q !in mallocs && q in blocks' && blocks''.Keys == blocks'.Keys
    requires AllocsOk(larges, mallocs, blocks' - {q}, headers)
      && OwnedOk(mallocs, outside, blocks' - {q}, larges, headers)
    ensures AllocsOk(larges, mallocs[q := Zeros(s)], blocks'', headers)
    ensures OwnedOk(mallocs[q := Zeros(s)], outside, blocks'', larges, headers)
  {
    hide IsLarge;
  }

  /** A block of the chain. */
  lemma ChainAt(blocks: map<Addr, Block>, mallocs: Mallocs, chain: seq<Addr>, s: nat, i: nat)
    requires ChainOk(blocks, mallocs, chain, s) && i < |chain|
    ensures var p := chain[i];
      && p in blocks && blocks[p].end == p + s && blocks[p].end % 8 == 0
      && p + BLOCK_HEADER <= blocks[p].last <= blocks[p].end
      && p % 8 == 0 && p > 0
      && (blocks[p].next == NIL <==> i + 1 == |chain|)
      && (i + 1 < |chain| ==> blocks[p].next == chain[i + 1] && chain[i + 1] in blocks)
  {
    assert BlockOk(blocks, mallocs, chain[i], s);
    if i + 1 < |chain| { assert BlockOk(blocks, mallocs, chain[i + 1], s); }
  }

  lemma ChainFacts(blocks: map<Addr, Block>, mallocs: Mallocs, chain: seq<Addr>, s: nat)
    requires ChainOk(blocks, mallocs, chain, s)
    ensures chain != [] && chain[0] in blocks && blocks[chain[0]].end == chain[0] + s
    ensures s % 8 == 0 && s >= BLOCK_HEADER + LARGE_HEADER
  {
    assert BlockOk(blocks, mallocs, chain[0], s);
  }

  /** Everything that was live is live, with the same contents. */
  ghost predicate Keeps(mallocs: Mallocs, mallocs': Mallocs) {
    forall b | b in mallocs :: b in mallocs' && mallocs'[b] == mallocs[b]
  }

  lemma KeepsAll(mallocs: Mallocs)
    ensures Keeps(mallocs, mallocs)
  {
  }

  /** What handing out a piece does: it is aligned, inside a block, behind everything handed out there
      before, and all zeros. */
  ghost predicate HandsOut(spans: seq<Span>, spans': seq<Span>, mallocs': Mallocs, blocks': map<Addr, Block>, m: Addr,
                           n: nat, owner: Owner) {
    && |spans'| == |spans| + 1 && spans'[..|spans|] == spans
    && var p := spans'[|spans|];
    && p.addr == m && p.size == n && p.owner == owner && p.block in blocks' && p.block in mallocs'
    && p.block + BLOCK_HEADER <= m && m + n <= p.block + |mallocs'[p.block]| && m % 8 == 0
    && forall k | m - p.block <= k < m - p.block + n :: mallocs'[p.block][k] == NUL
  }

  /** The invariants after the bump pointer of the i-th block moved. */
  lemma Bumped(blocks: map<Addr, Block>, mallocs: Mallocs, chain: seq<Addr>, s: nat, spans: seq<Span>,
               headers: seq<Addr>, larges: map<Addr, Large>, outside: Mallocs, first: Addr, i: nat, m: Addr, n: nat,
               owner: Owner)
    requires ChainOk(blocks, mallocs, chain, s) && SpansOk(blocks, spans) && HeadersOk(larges, spans, headers, first)
    requires AllocsOk(larges, mallocs, blocks, headers) && OwnedOk(mallocs, outside, blocks, larges, headers)
    requires i < |chain| && chain[i] in blocks && (owner == Header ==> n == LARGE_HEADER)
    requires m == Align(blocks[chain[i]].last) && m + n <= blocks[chain[i]].end
    ensures var p := chain[i];
      var blocks', spans' := blocks[p := blocks[p].(last := m + n)], spans + [Span(p, m, n, owner)];
      && ChainOk(blocks', mallocs, chain, s) && SpansOk(blocks', spans') && HeadersOk(larges, spans', headers, first)
      && AllocsOk(larges, mallocs, blocks', headers) && OwnedOk(mallocs, outside, blocks', larges, headers)
      && HandsOut(spans, spans', mallocs, blocks', m, n, owner) && blocks'[p].large == blocks[p].large
      && forall b | b in blocks :: b in blocks' && blocks'[b].large == blocks[b].large
  {
    var p := chain[i];
    assert BlockOk(blocks, mallocs, p, s);
    HandedOut(blocks, mallocs, p, s, spans, m, n, owner);
    BumpChain(blocks, mallocs, chain, s, i, m, n);
    BumpSpans(blocks, spans, p, m, n, owner);
    MoreSpans(larges, spans, headers, first, Span(p, m, n, owner));
    hide ChainOk, SpansOk, HeadersOk, IsLarge, HandsOut, AllocsOk, OwnedOk, BlockOk;
    SameKeys(blocks, blocks[p := blocks[p].(last := m + n)], mallocs, larges, headers, outside);
  }

  lemma HandedOut(blocks: map<Addr, Block>, mallocs: Mallocs, p: Addr, s: nat, spans: seq<Span>, m: Addr, n: nat,
                  owner: Owner)
    requires BlockOk(blocks, mallocs, p, s) && m == Align(blocks[p].last) && m + n <= blocks[p].end
    ensures var blocks' := blocks[p := blocks[p].(last := m + n)];
      HandsOut(spans, spans + [Span(p, m, n, owner)], mallocs, blocks', m, n, owner)
  {
  }

  lemma SameKeys(blocks: map<Addr, Block>, blocks': map<Addr, Block>, mallocs: Mallocs, larges: map<Addr, Large>,
                 headers: seq<Addr>, outside: Mallocs)
    requires blocks'.Keys == blocks.Keys
    requires AllocsOk(larges, mallocs, blocks, headers) && OwnedOk(mallocs, outside, blocks, larges, headers)
    ensures AllocsOk(larges, mallocs, blocks', headers) && OwnedOk(mallocs, outside, blocks', larges, headers)
  {
    hide IsLarge;
  }

  // ----- regions -----

  /** Everything the pool keeps apart: block headers, pieces of blocks, large buffers. */
  datatype Region = BlockHeader(block: Addr) | Piece(index: nat) | Buffer(alloc: Addr)

  ghost predicate IsRegion(r: Region, blocks: map<Addr, Block>, mallocs: Mallocs, spans: seq<Span>,
                           larges: map<Addr, Large>, headers: seq<Addr>) {
    match r
    case BlockHeader(b) => b in blocks
    case Piece(i) => i < |spans|
    case Buffer(a) => IsLarge(larges, headers, a) && a in mallocs
  }

  ghost function Start(r: Region, spans: seq<Span>): Addr
    requires r.Piece? ==> r.index < |spans|
  {
    match r
    case BlockHeader(b) => b
    case Piece(i) => spans[i].addr
    case Buffer(a) => a
  }

  ghost function Length(r: Region, mallocs: Mallocs, spans: seq<Span>): nat
    requires (r.Piece? ==> r.index < |spans|) && (r.Buffer? ==> r.alloc in mallocs)
  {
    match r
    case BlockHeader(_) => BLOCK_HEADER
    case Piece(i) => spans[i].size
    case Buffer(a) => |mallocs[a]|
  }

  /** The live block a region lies in. */
  ghost function Home(r: Region, spans: seq<Span>): Addr
    requires r.Piece? ==> r.index < |spans|
  {
    match r
    case BlockHeader(b) => b
    case Piece(i) => spans[i].block
    case Buffer(a) => a
  }

  lemma RegionInside(r: Region, blocks: map<Addr, Block>, mallocs: Mallocs, chain: seq<Addr>, s: nat, spans: seq<Span>,
                     larges: map<Addr, Large>, headers: seq<Addr>)
    requires ChainOk(blocks, mallocs, chain, s) && SpansOk(blocks, spans)
      && IsRegion(r, blocks, mallocs, spans, larges, headers)
    ensures var b := Home(r, spans);
      b in mallocs && b <= Start(r, spans) && Start(r, spans) + Length(r, mallocs, spans) <= b + |mallocs[b]|
    ensures r.Piece? ==> Home(r, spans) + BLOCK_HEADER <= Start(r, spans)
    ensures !r.Buffer? ==> Home(r, spans) in blocks
  {
    BlocksLive(blocks, mallocs, chain, s);
    hide ChainOk, IsLarge;
    if r.Piece? { assert SpanOk(blocks, spans[r.index]) && BlockOk(blocks, mallocs, spans[r.index].block, s); }
    if r.BlockHeader? { assert BlockOk(blocks, mallocs, r.block, s); }
  }

  lemma BufferNotBlock(larges: map<Addr, Large>, mallocs: Mallocs, blocks: map<Addr, Block>, headers: seq<Addr>,
                       a: Addr)
    requires AllocsOk(larges, mallocs, blocks, headers) && IsLarge(larges, headers, a)
    ensures a !in blocks
  {
    var i :| 0 <= i < |headers| && headers[i] in larges && larges[headers[i]].alloc == a;
    assert headers[i] in larges;
  }

  /** Two different regions have no byte in common: clients, large headers and the pool's own headers never
      get in each other's way. */
  lemma RegionsApart(p: Pool, r: Region, q: Region)
    requires p.Valid() && r != q
    requires IsRegion(r, p.blocks, p.mallocs, p.spans, p.larges, p.headers)
    requires IsRegion(q, p.blocks, p.mallocs, p.spans, p.larges, p.headers)
    ensures Start(r, p.spans) + Length(r, p.mallocs, p.spans) <= Start(q, p.spans)
         || Start(q, p.spans) + Length(q, p.mallocs, p.spans) <= Start(r, p.spans)
  {
    hide ChainOk, SpansOk, HeadersOk, AllocsOk, OwnedOk, IsLarge, InUse;
    RegionInside(r, p.blocks, p.mallocs, p.chain, p.size, p.spans, p.larges, p.headers);
    RegionInside(q, p.blocks, p.mallocs, p.chain, p.size, p.spans, p.larges, p.headers);
    if r.Buffer? { BufferNotBlock(p.larges, p.mallocs, p.blocks, p.headers, r.alloc); }
    if q.Buffer? { BufferNotBlock(p.larges, p.mallocs, p.blocks, p.headers, q.alloc); }
    if r.Piece? && q.Piece? {
      PiecesApart(p.blocks, p.mallocs, p.chain, p.size, p.spans, r.index, q.index);
    }
  }

  /** In every block of the chain the bump pointer, aligned or not, stays inside, and a new block has room
      for whatever counts as small. */
  lemma BumpPointerInside(p: Pool, i: nat)
    requires p.Valid() && i < |p.chain|
    ensures p.chain[i] in p.blocks && var b := p.blocks[p.chain[i]];
      && b.end - p.chain[i] == p.size && p.chain[i] + BLOCK_HEADER <= b.last <= Align(b.last) <= b.end
      && Cast(b.end - Align(b.last)) == b.end - Align(b.last)
    ensures p.pool in p.blocks && forall n: nat ::
      p.Fits(n) <==> n <= p.pagesize - 1 && n <= Cast(p.blocks[p.pool].end - p.pool) - BLOCK_HEADER
  {
    hide SpansOk, HeadersOk, AllocsOk, OwnedOk, InUse;
    ChainAt(p.blocks, p.mallocs, p.chain, p.size, 0);
    ChainAt(p.blocks, p.mallocs, p.chain, p.size, i);
    AlignStays(p.blocks[p.chain[i]].last, p.blocks[p.chain[i]].end);
  }

  /** A run from the first call on that gets there: a pool, one large buffer, freed, and then a null pointer. */
  method NullAfterFree(page: nat, others: Mallocs, n: nat, big: nat) returns (r: Outcome, ghost failed: bool)
    requires HeapOk(others) && (page == 0 || page > LARGE_HEADER) && n % 8 == 0 && n >= BLOCK_HEADER + LARGE_HEADER
    requires (big >= (if page == 0 then 4095 else page) || big + BLOCK_HEADER > n) && big <= 0x7FFF_FFFF
    ensures !failed ==> r == Undefined
  {
    hide ChainOk, SpansOk, HeadersOk, AllocsOk, OwnedOk, HeapOk, InUse, AllocAdded, Keeps, SpansKept, ListSame;
    r := Done(-1);
    var p := new Pool(page, others);
    p.Create(n);
    failed := p.failed;
    if p.pool == NIL { return; }
    ghost var larges0, headers0 := p.larges, p.headers;
    var a;
    ghost var i;
    a, i := p.Palloc(big, Client);
    failed := p.failed;
    if a == NIL { return; }
    AddedIsLarge(larges0, p.larges, headers0, p.headers, a, big);
    var first, second := p.PfreeTwice(a);
    r := second;
  }

  lemma AddedIsLarge(larges: map<Addr, Large>, larges': map<Addr, Large>, headers: seq<Addr>, headers': seq<Addr>,
                     m: Addr, n: nat)
    requires AllocAdded(larges, larges', headers, headers', m, n) && m != NIL
    ensures IsLarge(larges', headers', m)
  {
    hide InUse;
    var k: nat :| GotBuffer(larges, larges', headers, headers', k, m, n);
    assert headers'[k] in larges' && larges'[headers'[k]].alloc == m;
  }
}
