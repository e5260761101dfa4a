/** The C heap of the JSON code: cJSON items, character buffers and pointer arrays at addresses, with
    a malloc that may fail and a free that requires a live block. */
module CHeap {
  import opened Bytes
  import opened Json

  type Ptr = nat

  const NULL: Ptr := 0

  /** The low byte of `type`. */
  datatype Kind = KFalse | KTrue | KNull | KNumber | KString | KArray | KObject

  /** struct cJSON; name is its field `string`, the flags are the upper bits of `type`. */
  datatype Cell = Cell(next: Ptr, prev: Ptr, child: Ptr, kind: Kind, isReference: bool, stringIsConst: bool,
                       valuestring: Ptr, valueint: int, valuedouble: Decimal, name: Ptr)

  /** An item after memset. */
  const ZERO_CELL := Cell(NULL, NULL, NULL, KFalse, false, false, NULL, 0, Decimal(0, 0), NULL)

  /** Everything allocated, by address. */
  datatype Store = Store(cells: map<Ptr, Cell>, bufs: map<Ptr, bytes>, vecs: map<Ptr, seq<Ptr>>) {
    ghost function Live(): set<Ptr> {
      cells.Keys + bufs.Keys + vecs.Keys
    }

    ghost predicate Valid() {
      && NULL !in Live()
      && cells.Keys !! bufs.Keys && cells.Keys !! vecs.Keys && bufs.Keys !! vecs.Keys
    }
  }

  /** The store without the blocks at the given addresses. */
  function Remove(m: Store, ps: set<Ptr>): Store {
    Store(m.cells - ps, m.bufs - ps, m.vecs - ps)
  }

  lemma RemoveTwice(m: Store, ps: set<Ptr>, qs: set<Ptr>)
    ensures Remove(Remove(m, ps), qs) == Remove(m, ps + qs)
  {
    assert m.cells - ps - qs == m.cells - (ps + qs);
    assert m.bufs - ps - qs == m.bufs - (ps + qs);
    assert m.vecs - ps - qs == m.vecs - (ps + qs);
  }

  lemma RemoveNone(m: Store)
    ensures Remove(m, {}) == m
  {
    assert m.cells - {} == m.cells && m.bufs - {} == m.bufs && m.vecs - {} == m.vecs;
  }

  /** m after assignments to fields of an item. */
  function WithCell(m: Store, p: Ptr, c: Cell): Store {
    m.(cells := m.cells[p := c])
  }

  /** m with new contents of a buffer. */
  function WithBuffer(m: Store, b: Ptr, buf: bytes): Store {
    m.(bufs := m.bufs[b := buf])
  }

  /** m with new contents of a pointer array. */
  function WithVec(m: Store, v: Ptr, ps: seq<Ptr>): Store {
    m.(vecs := m.vecs[v := ps])
  }

  lemma WithBufferTwice(m: Store, b: Ptr, buf: bytes, buf': bytes)
    ensures WithBuffer(WithBuffer(m, b, buf), b, buf') == WithBuffer(m, b, buf')
    ensures b in WithBuffer(m, b, buf).bufs && WithBuffer(m, b, buf).bufs[b] == buf
    ensures b in WithBuffer(m, b, buf').bufs && WithBuffer(m, b, buf').bufs[b] == buf'
  {
  }

  /** On the given addresses the two stores hold the same items and buffers. */
  ghost predicate Agree(m: Store, m': Store, ps: set<Ptr>) {
    && (forall p | p in ps :: (p in m.cells <==> p in m'.cells) && (p in m.cells ==> m.cells[p] == m'.cells[p]))
    && (forall p | p in ps :: (p in m.bufs <==> p in m'.bufs) && (p in m.bufs ==> m.bufs[p] == m'.bufs[p]))
  }

  /** m' is m with the new blocks ps, every old block intact. */
  ghost predicate Grown(m: Store, m': Store, ps: set<Ptr>) {
    m'.Live() == m.Live() + ps && ps !! m.Live() && m'.vecs == m.vecs && Agree(m, m', m.Live())
  }

  /** Freeing what was added restores the store. */
  lemma GrownRemove(m: Store, m': Store, ps: set<Ptr>)
    requires m.Valid() && m'.Valid() && Grown(m, m', ps)
    ensures Remove(m', ps) == m
  {
    var r := Remove(m', ps);
    assert r.cells.Keys == m.cells.Keys by {
      forall p ensures p in r.cells <==> p in m.cells {
        if p in m'.cells { assert p in m'.Live(); }
        if p in m.cells { assert p in m.Live(); }
      }
    }
    assert r.bufs.Keys == m.bufs.Keys by {
      forall p ensures p in r.bufs <==> p in m.bufs {
        if p in m'.bufs { assert p in m'.Live(); }
        if p in m.bufs { assert p in m.Live(); }
      }
    }
    assert forall p | p in m.cells :: p in m.Live() && r.cells[p] == m.cells[p];
    assert forall p | p in m.bufs :: p in m.Live() && r.bufs[p] == m.bufs[p];
    assert r.vecs == m.vecs by {
      assert forall p | p in m.vecs :: p in m.Live();
    }
  }

  /** A store with one more buffer. */
  lemma BufferAdded(m: Store, p: Ptr, buf: bytes)
    requires m.Valid() && p != NULL && p !in m.Live()
    ensures var m' := WithBuffer(m, p, buf); m'.Valid() && Grown(m, m', {p})
  {
  }

  lemma CellAdded(m: Store, p: Ptr, c: Cell)
    requires m.Valid() && p != NULL && p !in m.Live()
    ensures var m' := WithCell(m, p, c); m'.Valid() && Grown(m, m', {p})
  {
  }

  class Heap {
    var mem: Store
    /** Has any allocation failed so far? */
    ghost var failed: bool

    constructor ()
      ensures mem == Store(map[], map[], map[]) && mem.Valid() && !failed
    {
      mem := Store(map[], map[], map[]);
      failed := false;
    }

    /** An address malloc may return: any that is neither null nor live. */
    method FreshAddress() returns (p: Ptr)
      ensures p != NULL && p !in mem.Live()
    {
      var live := mem.cells.Keys + mem.bufs.Keys + mem.vecs.Keys;
      AddressExists(live);
      p :| p != NULL && p !in live;
    }

    /** cJSON_New_Item: a zeroed item, or null. */
    method NewItem() returns (p: Ptr)
      requires mem.Valid()
      modifies this
      ensures mem.Valid()
      ensures p == NULL ==> mem == old(mem) && failed
      ensures p != NULL ==> p !in old(mem).Live() && failed == old(failed)
      ensures p != NULL ==> mem == WithCell(old(mem), p, ZERO_CELL)
      ensures p != NULL ==> Grown(old(mem), mem, {p})
    {
      var fails: bool := *;
      if fails {
        failed := true;
        return NULL;
      }
      p := FreshAddress();
      mem := mem.(cells := mem.cells[p := ZERO_CELL]);
    }

    /** malloc of n characters of unknown contents. */
    method Malloc(n: nat) returns (p: Ptr)
      requires mem.Valid()
      modifies this
      ensures mem.Valid()
      ensures p == NULL ==> mem == old(mem) && failed
      ensures p != NULL ==> p !in old(mem).Live() && failed == old(failed)
      ensures p != NULL ==> p in mem.bufs && |mem.bufs[p]| == n
      ensures p != NULL ==> mem == WithBuffer(old(mem), p, mem.bufs[p])
      ensures p != NULL ==> Grown(old(mem), mem, {p})
    {
      var fails: bool := *;
      if fails {
        failed := true;
        return NULL;
      }
      p := FreshAddress();
      var junk: bytes := *;
      mem := mem.(bufs := mem.bufs[p := if |junk| == n then junk else Repeat(NUL, n)]);
    }

    /** malloc of n pointers, and memset to null. */
    method MallocVec(n: nat) returns (p: Ptr)
      requires mem.Valid()
      modifies this
      ensures mem.Valid()
      ensures p == NULL ==> mem == old(mem) && failed
      ensures p != NULL ==> p !in old(mem).Live() && failed == old(failed)
      ensures p != NULL ==> mem == WithVec(old(mem), p, seq(n, _ => NULL))
    {
      var fails: bool := *;
      if fails {
        failed := true;
        return NULL;
      }
      p := FreshAddress();
      mem := mem.(vecs := mem.vecs[p := seq(n, _ => NULL)]);
    }

    /** free: the block must be live, so nothing is freed twice. */
    method Free(p: Ptr)
      requires mem.Valid() && p in mem.Live()
      modifies this`mem
      ensures mem.Valid() && mem == Remove(old(mem), {p})
    {
      mem := Remove(mem, {p});
    }

    /** Assignment to fields of an item. */
    method SetCell(p: Ptr, c: Cell)
      requires mem.Valid() && p in mem.cells
      modifies this`mem
      ensures mem.Valid() && mem == WithCell(old(mem), p, c)
      ensures mem.Live() == old(mem).Live()
    {
      mem := mem.(cells := mem.cells[p := c]);
    }

    /** Assignment to one character of a buffer, within its bounds. */
    method Poke(p: Ptr, i: nat, b: byte)
      requires mem.Valid() && p in mem.bufs && i < |mem.bufs[p]|
      modifies this`mem
      ensures mem.Valid() && mem == WithBuffer(old(mem), p, old(mem).bufs[p][i := b])
      ensures mem.Live() == old(mem).Live()
    {
      mem := mem.(bufs := mem.bufs[p := mem.bufs[p][i := b]]);
    }

    /** Assignment to an element of a pointer array, within its bounds. */
    method SetVec(v: Ptr, i: nat, q: Ptr)
      requires mem.Valid() && v in mem.vecs && i < |mem.vecs[v]|
      modifies this`mem
      ensures mem.Valid() && mem == WithVec(old(mem), v, old(mem).vecs[v][i := q])
    {
      var ps: seq<Ptr> := mem.vecs[v];
      mem := WithVec(mem, v, ps[i := q]);
    }

    /** memcpy and strcpy: a run of characters, within the bounds of the buffer. */
    method Copy(p: Ptr, i: nat, s: bytes)
      requires mem.Valid() && p in mem.bufs && i + |s| <= |mem.bufs[p]|
      modifies this`mem
      ensures mem.Valid() && mem == WithBuffer(old(mem), p, Overwrite(old(mem).bufs[p], i, s))
      ensures mem.Live() == old(mem).Live()
    {
      mem := mem.(bufs := mem.bufs[p := Overwrite(mem.bufs[p], i, s)]);
    }
  }

  /** buf with the bytes from i on overwritten by s. */
  function Overwrite(buf: bytes, i: nat, s: bytes): (r: bytes)
    requires i + |s| <= |buf|
    ensures |r| == |buf|
    ensures forall k | 0 <= k < |buf| :: r[k] == if i <= k < i + |s| then s[k - i] else buf[k]
  {
    buf[..i] + s + buf[i + |s|..]
  }

  lemma AddressExists(live: set<Ptr>)
    ensures exists p: Ptr :: p != NULL && p !in live
  {
    var top := Bound(live);
    assert top + 1 !in live;
  }

  lemma Bound(live: set<Ptr>) returns (top: nat)
    ensures forall p | p in live :: p <= top
    decreases |live|
  {
    if live == {} {
      top := 0;
    } else {
      var p :| p in live;
      var rest := Bound(live - {p});
      top := if rest < p then p else rest;
      assert forall q | q in live :: q == p || q in live - {p};
    }
  }
}
