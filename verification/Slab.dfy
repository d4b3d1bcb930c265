/** Small chunks inside buddy pages: four size classes, each chunk preceded by its header
    in the same page, and a tag per page telling which layer a pointer belongs to. */
module Slab {
  import opened Bits
  import opened Sequences
  import opened Tiles
  import opened PageRuns
  import opened FreeLists
  import opened PageTable
  import opened PageAllocator

  const MAX_CHUNK_SIZE: nat := 128
  const MIN_CACHE_ORDER: nat := 4
  const MAX_CACHE_ORDER: nat := 7
  const CACHE_NUM: nat := 4
  const HEADER_SIZE: nat := 16      // two pointers

  /** Bytes from one chunk of class `c` to the next: payload and header. */
  function Stride(c: nat): (r: nat)
    requires c < CACHE_NUM
    ensures r == [32, 48, 80, 144][c]
  {
    assert Pow2(4) == 16 && Pow2(5) == 32 && Pow2(6) == 64 && Pow2(7) == 128;
    Pow2(c + MIN_CACHE_ORDER) + HEADER_SIZE
  }

  function PerPage(c: nat): (r: nat)
    requires c < CACHE_NUM
    ensures r * Stride(c) <= PAGE_SIZE < (r + 1) * Stride(c)
  {
    PAGE_SIZE / Stride(c)
  }

  lemma ManyPerPage(c: nat)
    requires c < CACHE_NUM
    ensures PerPage(c) >= 28
  {
  }

  // ---------------------------------------------------------------- ownership on values

  /** `e` is the header address of a slot of class `c` that lies inside one page. */
  ghost predicate IsSlot(e: nat, c: nat) {
    c < CACHE_NUM && e % PAGE_SIZE % Stride(c) == 0 && e % PAGE_SIZE + Stride(c) <= PAGE_SIZE
  }

  ghost predicate SlabPage(ps: seq<PageInfo>, ts: Tiling, p: nat, c: nat) {
    p < |ps| == |ts| && ps[p].cacheOrder == c + MIN_CACHE_ORDER && ts[p] == Tile(p, 0, Live)
  }

  ghost predicate ChunkOk(ps: seq<PageInfo>, ts: Tiling, e: nat, c: nat) {
    e > 0 && IsSlot(e, c) && SlabPage(ps, ts, e / PAGE_SIZE, c)
  }

  ghost predicate BigOk(ps: seq<PageInfo>, ts: Tiling, h: nat) {
    0 < h < |ps| == |ts| && ts[h].head == h && ts[h].kind == Live && ps[h].cacheOrder == -1
  }

  /** A tagged page is a single live page; every other page carries the tag -1. */
  ghost predicate TagOk(ps: seq<PageInfo>, ts: Tiling, p: nat)
    requires p < |ps| == |ts|
  {
    ps[p].cacheOrder == -1 || exists c :: 0 <= c < CACHE_NUM && SlabPage(ps, ts, p, c)
  }

  /** The heap below the kernel stack was reserved, so no block ever overlaps it. */
  ghost predicate KernelReserved(ts: Tiling, lo: nat, hi: nat) {
    forall p :: 0 <= p < |ts| && lo < (p + 1) * PAGE_SIZE && p * PAGE_SIZE < hi ==> ts[p].kind == Reserved
  }

  /** Everything handed out or kept ready sits where the page tags say. */
  ghost predicate Owned(ps: seq<PageInfo>, ts: Tiling, free: seq<seq<nat>>, live: seq<set<nat>>, big: set<nat>) {
    && |ps| == |ts| && |free| == |live| == CACHE_NUM
    && (forall p :: 0 <= p < |ps| ==> TagOk(ps, ts, p))
    && (forall c, e {:trigger e in free[c]} :: 0 <= c < CACHE_NUM && e in free[c] ==>
         ChunkOk(ps, ts, e, c) && e !in live[c])
    && (forall c, e {:trigger e in live[c]} :: 0 <= c < CACHE_NUM && e in live[c] ==> ChunkOk(ps, ts, e, c))
    && (forall h :: h in big ==> BigOk(ps, ts, h))
  }

  /** A region of memory that somebody owns. */
  datatype Region = Chunk(header: nat, class_: nat) | Block(page: nat)

  ghost predicate Holds(ps: seq<PageInfo>, ts: Tiling, free: seq<seq<nat>>, live: seq<set<nat>>, big: set<nat>,
                        r: Region)
    requires |free| == |live| == CACHE_NUM
  {
    match r
    case Chunk(e, c) => c < CACHE_NUM && (e in free[c] || e in live[c])
    case Block(h) => h in big
  }

  ghost function First(r: Region): nat {
    match r
    case Chunk(e, c) => e
    case Block(h) => h * PAGE_SIZE
  }

  ghost function End(ts: Tiling, r: Region): nat
    requires r.Chunk? ==> r.class_ < CACHE_NUM
    requires r.Block? ==> r.page < |ts|
  {
    match r
    case Chunk(e, c) => e + Stride(c)
    case Block(h) => (h + Pow2(ts[h].order)) * PAGE_SIZE
  }

  /** Two-level ownership: all live regions and all chunks with their headers, free or live,
      are pairwise disjoint in memory. */
  lemma RegionsDisjoint(ps: seq<PageInfo>, ts: Tiling, top: nat, free: seq<seq<nat>>, live: seq<set<nat>>,
                        big: set<nat>, r: Region, s: Region)
    requires Owned(ps, ts, free, live, big) && Tiled(ts, top) && r != s
    requires Holds(ps, ts, free, live, big, r) && Holds(ps, ts, free, live, big, s)
    ensures r.Block? ==> r.page < |ts|
    ensures s.Block? ==> s.page < |ts|
    ensures End(ts, r) <= First(s) || End(ts, s) <= First(r)
  {
    hide Base, Stride;
    match (r, s)
    case (Chunk(e, c), Chunk(f, d)) => ChunksDisjoint(ps, ts, e, c, f, d);
    case (Chunk(e, c), Block(h)) => ChunkOutsideBlock(ps, ts, top, e, c, h);
    case (Block(h), Chunk(e, c)) => ChunkOutsideBlock(ps, ts, top, e, c, h);
    case (Block(g), Block(h)) =>
      assert BigOk(ps, ts, g) && BigOk(ps, ts, h);
      BlocksDisjoint(ts, top, g, h);
  }

  lemma ChunksDisjoint(ps: seq<PageInfo>, ts: Tiling, e: nat, c: nat, f: nat, d: nat)
    requires ChunkOk(ps, ts, e, c) && ChunkOk(ps, ts, f, d) && (e != f || c != d)
    ensures e + Stride(c) <= f || f + Stride(d) <= e
  {
    if e / PAGE_SIZE == f / PAGE_SIZE {
      assert c == d;
      SlotsApart(e % PAGE_SIZE, f % PAGE_SIZE, c);
    }
  }

  lemma SlotsApart(a: nat, b: nat, c: nat)
    requires c < CACHE_NUM && a % Stride(c) == 0 && b % Stride(c) == 0 && a != b
    ensures a + Stride(c) <= b || b + Stride(c) <= a
  {
    var m := Stride(c);
    assert m == 32 || m == 48 || m == 80 || m == 144;
  }

  lemma BlocksDisjoint(ts: Tiling, top: nat, g: nat, h: nat)
    requires Tiled(ts, top) && g < |ts| && h < |ts| && g != h && ts[g].head == g && ts[h].head == h
    ensures g + Pow2(ts[g].order) <= h || h + Pow2(ts[h].order) <= g
  {
    hide Base;
    assert TileOk(ts, top, g) && TileOk(ts, top, h);
    assert !Within(h, g, ts[g].order) && !Within(g, h, ts[h].order);
  }

  lemma ChunkOutsideBlock(ps: seq<PageInfo>, ts: Tiling, top: nat, e: nat, c: nat, h: nat)
    requires ChunkOk(ps, ts, e, c) && BigOk(ps, ts, h) && Tiled(ts, top)
    ensures e + Stride(c) <= h * PAGE_SIZE || (h + Pow2(ts[h].order)) * PAGE_SIZE <= e
  {
    hide Base, Stride;
    BlocksDisjoint(ts, top, e / PAGE_SIZE, h);
    assert Pow2(0) == 1;
  }

  // ---------------------------------------------------------------- steps keep ownership

  /** Buddy steps leave every block that is not the one given back as it was. */
  lemma OwnedAfter(ps: seq<PageInfo>, qs: seq<PageInfo>, ts: Tiling, top: nat, op: Op,
                   free: seq<seq<nat>>, live: seq<set<nat>>, big: set<nat>)
    requires Inv(ts, top) && Enabled(ts, top, op) && SameTags(ps, qs)
    requires Owned(ps, ts, free, live, big)
    requires op.Freeing? ==> op.block in big
    ensures |After(ts, top, op)| == |ts|
    ensures Owned(qs, After(ts, top, op), free, live, if op.Freeing? then big - {op.block} else big)
  {
    hide Base, After, TileOk, Coalesced, Enabled, Stride;
    StepInv(ts, top, op);
    var rs := After(ts, top, op);
    var kept := if op.Freeing? then big - {op.block} else big;
    forall p | 0 <= p < |qs| ensures TagOk(qs, rs, p) {
      assert TagOk(ps, ts, p);
      TaggedPageKept(ps, qs, ts, top, op, p);
    }
    forall c, e | 0 <= c < CACHE_NUM && (e in free[c] || e in live[c]) ensures ChunkOk(qs, rs, e, c) {
      assert ChunkOk(ps, ts, e, c);
      TaggedPageKept(ps, qs, ts, top, op, e / PAGE_SIZE);
    }
    forall h | h in kept ensures BigOk(qs, rs, h) {
      assert BigOk(ps, ts, h);
      StepFrame(ts, top, op, h);
    }
  }

  lemma TaggedPageKept(ps: seq<PageInfo>, qs: seq<PageInfo>, ts: Tiling, top: nat, op: Op, p: nat)
    requires Inv(ts, top) && Enabled(ts, top, op) && SameTags(ps, qs) && p < |ps| == |ts|
    requires op.Freeing? ==> BigOk(ps, ts, op.block)
    ensures forall c: nat :: SlabPage(ps, ts, p, c) ==> SlabPage(qs, After(ts, top, op), p, c)
  {
    hide Base, After, TileOk, Coalesced, Enabled;
    StepInv(ts, top, op);
    StepFrame(ts, top, op, p);
  }

  lemma KernelReservedAfter(ts: Tiling, top: nat, op: Op, lo: nat, hi: nat)
    requires Inv(ts, top) && Enabled(ts, top, op) && KernelReserved(ts, lo, hi)
    ensures KernelReserved(After(ts, top, op), lo, hi)
  {
    hide Base, After, TileOk, Coalesced, Enabled;
    StepInv(ts, top, op);
    forall p | 0 <= p < |ts| && lo < (p + 1) * PAGE_SIZE && p * PAGE_SIZE < hi
      ensures After(ts, top, op)[p].kind == Reserved
    {
      StepFrame(ts, top, op, p);
    }
  }

  // ---------------------------------------------------------------- headers in memory

  /** From `head`, the header words run through exactly `l` both ways; 0 is null. */
  ghost predicate Chain(next: map<nat, nat>, prev: map<nat, nat>, head: nat, l: seq<nat>) {
    && head == (if l == [] then 0 else l[0])
    && NoDup(l)
    && forall i :: 0 <= i < |l| ==> HeaderOk(next, prev, l, i)
  }

  ghost predicate HeaderOk(next: map<nat, nat>, prev: map<nat, nat>, l: seq<nat>, i: nat)
    requires i < |l|
  {
    && l[i] > 0 && l[i] in next && l[i] in prev
    && next[l[i]] == (if i + 1 < |l| then l[i + 1] else 0)
    && prev[l[i]] == (if i > 0 then l[i - 1] else 0)
  }

  lemma ChainFrame(next: map<nat, nat>, prev: map<nat, nat>, next': map<nat, nat>, prev': map<nat, nat>, head: nat,
                   l: seq<nat>)
    requires Chain(next, prev, head, l)
    requires forall x :: x in l && x in next && x in prev ==>
      x in next' && x in prev' && next'[x] == next[x] && prev'[x] == prev[x]
    ensures Chain(next', prev', head, l)
  {
    forall i | 0 <= i < |l| ensures HeaderOk(next', prev', l, i) {
      assert HeaderOk(next, prev, l, i) && l[i] in l;
    }
  }

  lemma ChainPush(next: map<nat, nat>, prev: map<nat, nat>, head: nat, l: seq<nat>, e: nat)
    requires Chain(next, prev, head, l) && e > 0 && e !in l
    ensures Chain(next[e := head], (if head != 0 then prev[head := e] else prev)[e := 0], e, [e] + l)
  {
    var next', prev', m := next[e := head], (if head != 0 then prev[head := e] else prev)[e := 0], [e] + l;
    assert l != [] ==> HeaderOk(next, prev, l, 0);
    forall i | 0 <= i < |m| ensures HeaderOk(next', prev', m, i) {
      if i > 0 {
        assert HeaderOk(next, prev, l, i - 1) && l[i - 1] in l;
        assert i > 1 ==> l[i - 1] != l[0];
      }
    }
  }

  lemma ChainPop(next: map<nat, nat>, prev: map<nat, nat>, head: nat, l: seq<nat>)
    requires Chain(next, prev, head, l) && l != []
    ensures head in next
    ensures var n := next[head];
      Chain(next[head := 0], (if n != 0 then prev[n := 0] else prev)[head := 0], n, l[1..])
  {
    assert HeaderOk(next, prev, l, 0);
    var n := next[head];
    var next', prev', m := next[head := 0], (if n != 0 then prev[n := 0] else prev)[head := 0], l[1..];
    forall i | 0 <= i < |m| ensures HeaderOk(next', prev', m, i) {
      assert HeaderOk(next, prev, l, i + 1);
      assert l[i + 1] != l[0];
      assert i > 0 ==> l[i + 1] != l[1];
    }
  }

  ghost predicate Separate(free: seq<seq<nat>>) {
    forall c, d, x :: 0 <= c < d < |free| && x in free[c] ==> x !in free[d]
  }

  ghost predicate Chains(next: map<nat, nat>, prev: map<nat, nat>, heads: seq<nat>, free: seq<seq<nat>>) {
    && |heads| == |free| == CACHE_NUM && Separate(free)
    && forall c :: 0 <= c < CACHE_NUM ==> Chain(next, prev, heads[c], free[c])
  }

  lemma ChainsPush(next: map<nat, nat>, prev: map<nat, nat>, heads: seq<nat>, free: seq<seq<nat>>, c: nat, e: nat)
    requires Chains(next, prev, heads, free) && c < CACHE_NUM && e > 0
    requires forall d :: 0 <= d < CACHE_NUM ==> e !in free[d]
    ensures Chains(next[e := heads[c]], (if heads[c] != 0 then prev[heads[c] := e] else prev)[e := 0],
                   heads[c := e], free[c := [e] + free[c]])
  {
    hide HeaderOk;
    var next', prev' := next[e := heads[c]], (if heads[c] != 0 then prev[heads[c] := e] else prev)[e := 0];
    var heads', free' := heads[c := e], free[c := [e] + free[c]];
    assert heads[c] != 0 ==> heads[c] in free[c];
    forall d | 0 <= d < CACHE_NUM ensures Chain(next', prev', heads'[d], free'[d]) {
      if d == c {
        ChainPush(next, prev, heads[c], free[c], e);
      } else {
        ChainFrame(next, prev, next', prev', heads[d], free[d]);
      }
    }
  }

  lemma ChainsPop(next: map<nat, nat>, prev: map<nat, nat>, heads: seq<nat>, free: seq<seq<nat>>, c: nat)
    requires Chains(next, prev, heads, free) && c < CACHE_NUM && free[c] != []
    ensures heads[c] in next
    ensures var n := next[heads[c]];
      Chains(next[heads[c] := 0], (if n != 0 then prev[n := 0] else prev)[heads[c] := 0],
             heads[c := n], free[c := free[c][1..]])
  {
    ChainPop(next, prev, heads[c], free[c]);
    var h := heads[c];
    var n := next[h];
    var next', prev' := next[h := 0], (if n != 0 then prev[n := 0] else prev)[h := 0];
    var heads', free' := heads[c := n], free[c := free[c][1..]];
    assert n != 0 ==> n in free[c] by {
      assert HeaderOk(next, prev, free[c], 0);
    }
    assert forall x :: x in free[c][1..] ==> x in free[c];
    forall d | 0 <= d < CACHE_NUM ensures Chain(next', prev', heads'[d], free'[d]) {
      if d != c {
        hide HeaderOk;
        ChainFrame(next, prev, next', prev', heads[d], free[d]);
      }
    }
  }

  lemma InPage(page: nat, off: nat)
    requires off < PAGE_SIZE
    ensures (page * PAGE_SIZE + off) / PAGE_SIZE == page && (page * PAGE_SIZE + off) % PAGE_SIZE == off
  {
  }

  /** Slot `j` of a page is a slot of its class, inside the page. */
  lemma SlotOffset(page: nat, c: nat, j: nat)
    requires c < CACHE_NUM && j < PerPage(c)
    ensures IsSlot(page * PAGE_SIZE + j * Stride(c), c)
    ensures (page * PAGE_SIZE + j * Stride(c)) / PAGE_SIZE == page
    ensures (j + 1) * Stride(c) == j * Stride(c) + Stride(c)
  {
    hide Stride, PerPage, Pow2;
    var off := j * Stride(c);
    if c == 0 {
      assert off == j * 32 && off % 32 == 0 && off + 32 <= PAGE_SIZE;
    } else if c == 1 {
      assert off == j * 48 && off % 48 == 0 && off + 48 <= PAGE_SIZE;
    } else if c == 2 {
      assert off == j * 80 && off % 80 == 0 && off + 80 <= PAGE_SIZE;
    } else {
      assert off == j * 144 && off % 144 == 0 && off + 144 <= PAGE_SIZE;
    }
    InPage(page, off);
  }

  /** `c` is the least size class whose chunks hold `size` bytes. */
  ghost predicate ClassFor(size: nat, c: nat) {
    c < CACHE_NUM && size <= Pow2(c + MIN_CACHE_ORDER) && (c > 0 ==> Pow2(c + MIN_CACHE_ORDER - 1) < size)
  }

  method GetChunkOrder(size: nat) returns (order: nat)
    ensures order >= MIN_CACHE_ORDER && size <= Pow2(order)
    ensures order > MIN_CACHE_ORDER ==> Pow2(order - 1) < size
  {
    order := 4;
    while Pow2(order) < size
      invariant order >= 4 && (order > 4 ==> Pow2(order - 1) < size)
      decreases size - Pow2(order)
    {
      order := order + 1;
    }
  }

  // ---------------------------------------------------------------- taking over a page

  ghost predicate Unused(free: seq<seq<nat>>, live: seq<set<nat>>, big: set<nat>, p: nat) {
    && p !in big
    && (forall c, x {:trigger x in free[c]} :: 0 <= c < |free| && x in free[c] ==> x / PAGE_SIZE != p)
    && (forall c, x {:trigger x in live[c]} :: 0 <= c < |live| && x in live[c] ==> x / PAGE_SIZE != p)
  }

  lemma PageRequest(top: nat)
    ensures 0 < PAGE_SIZE <= PAGE_SIZE * Pow2(top)
  {
  }

  lemma PageRequestIsPage(addr: nat, op: Op)
    requires AnswersRequest(PAGE_SIZE, addr, op)
    ensures (op.Allocating? || op.Refusing?) && op.order == 0
    ensures addr > 0 ==> addr % PAGE_SIZE == 0 && op == Allocating(0, addr / PAGE_SIZE)
  {
  }

  lemma PageGranted(ts: Tiling, top: nat, op: Op)
    requires Inv(ts, top) && Enabled(ts, top, op) && op.Allocating? && op.order == 0
    ensures op.block < |ts| && ts[op.block].kind == Kind.Free
    ensures |After(ts, top, op)| == |ts| && After(ts, top, op)[op.block] == Tile(op.block, 0, Live)
  {
    StepInv(ts, top, op);
    StepFrame(ts, top, op, op.block);
  }

  lemma FreePageUnused(ps: seq<PageInfo>, ts: Tiling, free: seq<seq<nat>>, live: seq<set<nat>>, big: set<nat>, p: nat)
    requires Owned(ps, ts, free, live, big) && p < |ts| && ts[p].kind == Kind.Free
    ensures Unused(free, live, big, p)
  {
  }

  lemma OwnedTagged(ps: seq<PageInfo>, qs: seq<PageInfo>, ts: Tiling, free: seq<seq<nat>>, live: seq<set<nat>>,
                    big: set<nat>, p: nat, c: nat)
    requires Owned(ps, ts, free, live, big) && p < |ts| && ts[p] == Tile(p, 0, Live) && c < CACHE_NUM
    requires Unused(free, live, big, p) && qs == ps[p := ps[p].(cacheOrder := c + MIN_CACHE_ORDER)]
    ensures Owned(qs, ts, free, live, big) && SlabPage(qs, ts, p, c)
  {
    hide Stride;
    forall i | 0 <= i < |qs| ensures TagOk(qs, ts, i) {
      assert TagOk(ps, ts, i);
      assert i != p ==> forall d: nat :: SlabPage(ps, ts, i, d) ==> SlabPage(qs, ts, i, d);
      assert SlabPage(qs, ts, p, c);
    }
    forall d, x | 0 <= d < CACHE_NUM && (x in free[d] || x in live[d]) ensures ChunkOk(qs, ts, x, d) {
      assert ChunkOk(ps, ts, x, d);
    }
    forall h | h in big ensures BigOk(qs, ts, h) {
      assert BigOk(ps, ts, h);
    }
  }

  lemma NotThereYet(ps: seq<PageInfo>, ts: Tiling, free: seq<seq<nat>>, live: seq<set<nat>>, big: set<nat>, c: nat,
                    p: nat, at: nat)
    requires Owned(ps, ts, free, live, big) && SlabPage(ps, ts, p, c) && c < CACHE_NUM && at / PAGE_SIZE == p
    requires forall x :: x in free[c] && x / PAGE_SIZE == p ==> x < at
    ensures forall d :: 0 <= d < CACHE_NUM ==> at !in free[d]
  {
  }

  lemma OwnedPush(ps: seq<PageInfo>, ts: Tiling, free: seq<seq<nat>>, live: seq<set<nat>>, big: set<nat>, c: nat,
                  e: nat)
    requires Owned(ps, ts, free, live, big) && c < CACHE_NUM && ChunkOk(ps, ts, e, c) && e !in live[c]
    ensures Owned(ps, ts, free[c := [e] + free[c]], live, big)
  {
  }

  /** Every block held by somebody is as it was. */
  ghost predicate Kept(ts: Tiling, rs: Tiling) {
    |rs| == |ts| && forall p :: 0 <= p < |ts| && ts[p].kind != Kind.Free ==> rs[p] == ts[p]
  }

  lemma KeptByAlloc(ts: Tiling, top: nat, op: Op)
    requires Inv(ts, top) && Enabled(ts, top, op) && (op.Allocating? || op.Refusing?)
    ensures Kept(ts, After(ts, top, op))
  {
    hide Base, TileOk, After, Coalesced;
    StepInv(ts, top, op);
    forall p | 0 <= p < |ts| && ts[p].kind != Kind.Free ensures After(ts, top, op)[p] == ts[p] {
      StepFrame(ts, top, op, p);
    }
  }

  /** Between `ts` and `rs` the page allocator served exactly one request, of `size` bytes, and
      answered `addr`. */
  ghost predicate Served(ts: Tiling, rs: Tiling, top: nat, size: nat, addr: nat) {
    exists op :: AnswersRequest(size, addr, op) && Stepped(ts, rs, top, op)
  }

  ghost predicate Stepped(ts: Tiling, rs: Tiling, top: nat, op: Op) {
    Tiled(ts, top) && Enabled(ts, top, op) && rs == After(ts, top, op)
  }

  lemma ServedBy(ts: Tiling, top: nat, size: nat, addr: nat, op: Op)
    requires Tiled(ts, top) && Enabled(ts, top, op) && AnswersRequest(size, addr, op)
    ensures Served(ts, After(ts, top, op), top, size, addr)
  {
    hide Enabled, After, Tiled, AnswersRequest;
    assert Stepped(ts, After(ts, top, op), top, op);
  }

  /** Headers of the first `n` slots of the page at address `page`, the last one first. */
  ghost function Slots(page: nat, c: nat, n: nat): (r: seq<nat>)
    requires c < CACHE_NUM
    ensures |r| == n
  {
    if n == 0 then [] else [page + (n - 1) * Stride(c)] + Slots(page, c, n - 1)
  }

  /** The free list of a class that has just got its first page. */
  ghost predicate FullPage(l: seq<nat>, c: nat)
    requires c < CACHE_NUM
  {
    exists page: nat :: page % PAGE_SIZE == 0 && l == Slots(page, c, PerPage(c))
  }

  lemma PageIsFull(page: nat, c: nat)
    requires c < CACHE_NUM && page % PAGE_SIZE == 0
    ensures FullPage(Slots(page, c, PerPage(c)) + [], c) && PerPage(c) > 0
  {
    hide Slots;
    ManyPerPage(c);
    assert Slots(page, c, PerPage(c)) + [] == Slots(page, c, PerPage(c));
  }

  lemma SlotsNone(page: nat, c: nat, l: seq<nat>)
    requires c < CACHE_NUM
    ensures Slots(page, c, 0) + l == l
  {
  }

  lemma SlotsStep(page: nat, c: nat, n: nat, l: seq<nat>)
    requires c < CACHE_NUM
    ensures [page + n * Stride(c)] + (Slots(page, c, n) + l) == Slots(page, c, n + 1) + l
  {
  }

  /** `request_page` is the only source of new chunks after the start: one page less one slot. */
  ghost predicate Grown(before: seq<nat>, after: seq<nat>, c: nat) {
    && c < CACHE_NUM == |before|
    && (after == before || after == before[c := before[c] + PerPage(c) - 1])
  }

  /** The fresh page at `page` was cut into all but the last of its slots; the one with the highest
      address was handed out as `ptr`, the others are the free list of their class. */
  ghost predicate FromPage(before: seq<seq<nat>>, after: seq<seq<nat>>, page: nat, c: nat, ptr: nat) {
    && c < CACHE_NUM == |before| == |after| && ptr > HEADER_SIZE
    && [ptr - HEADER_SIZE] + after[c] == Slots(page, c, PerPage(c) - 1)
    && after == before[c := after[c]]
  }

  /** Between `before` and `after`, exactly the chunk with header `e` became live. */
  ghost predicate Handed(before: seq<set<nat>>, after: seq<set<nat>>, c: nat, e: nat) {
    c < CACHE_NUM == |before| && e !in before[c] && after == before[c := before[c] + {e}]
  }

  lemma HandedBack(live: seq<set<nat>>, c: nat, e: nat)
    requires c < CACHE_NUM == |live| && e in live[c]
    ensures Handed(live[c := live[c] - {e}], live, c, e)
  {
    assert live[c] - {e} + {e} == live[c];
  }

  /** The classes up to some point have a full page of chunks each, the others none; and there
      are others only if a page request came back null. */
  ghost predicate Filled(created: seq<nat>, ts: Tiling, rs: Tiling) {
    |created| == CACHE_NUM && exists n :: 0 <= n <= CACHE_NUM && FilledTo(created, ts, rs, n)
  }

  ghost predicate NoFreePage(ts: Tiling) {
    forall w: nat :: !FreeWindow(ts, 0, w)
  }

  ghost predicate FilledTo(created: seq<nat>, ts: Tiling, rs: Tiling, n: nat)
    requires n <= CACHE_NUM == |created|
  {
    && (forall c :: 0 <= c < n ==> created[c] == PerPage(c))
    && (forall c :: n <= c < CACHE_NUM ==> created[c] == 0)
    && (n < CACHE_NUM ==> NoFreePage(rs) || (ts != [] && ts[0].kind == Free))
  }

  lemma StoppedAt(created: seq<nat>, ts: Tiling, ss: Tiling, rs: Tiling, n: nat)
    requires n < CACHE_NUM == |created| && Kept(ts, ss)
    requires (rs == ss && NoFreePage(ss)) || Fits(ss, 0, 0)
    requires forall c :: 0 <= c < n ==> created[c] == PerPage(c)
    requires forall c :: n <= c < CACHE_NUM ==> created[c] == 0
    ensures Filled(created, ts, rs)
  {
    hide PerPage;
    assert FilledTo(created, ts, rs, n);
  }

  lemma KeptSelf(ts: Tiling)
    ensures Kept(ts, ts)
  {
  }

  lemma KeptTwice(ts: Tiling, ss: Tiling, rs: Tiling)
    requires Kept(ts, ss) && Kept(ss, rs)
    ensures Kept(ts, rs)
  {
  }

  lemma ClassInRange(size: nat, order: nat)
    requires size <= Pow2(order + MIN_CACHE_ORDER)
    requires order > 0 ==> Pow2(order + MIN_CACHE_ORDER - 1) < size
    ensures Pow2(order + MIN_CACHE_ORDER) > MAX_CHUNK_SIZE <==> size > MAX_CHUNK_SIZE
    ensures size <= MAX_CHUNK_SIZE ==> ClassFor(size, order)
  {
    assert Pow2(7) == 128;
    if order >= 4 {
      Pow2Monotone(7, order + MIN_CACHE_ORDER - 1);
      Pow2Monotone(8, order + MIN_CACHE_ORDER);
      assert Pow2(8) == 256;
    } else {
      Pow2Monotone(order + MIN_CACHE_ORDER, 7);
    }
  }

  lemma HeadsMatch(next: map<nat, nat>, prev: map<nat, nat>, heads: seq<nat>, free: seq<seq<nat>>, c: nat)
    requires Chains(next, prev, heads, free) && c < CACHE_NUM
    ensures |heads| == |free| == CACHE_NUM && (heads[c] == 0 <==> free[c] == [])
    ensures free[c] != [] ==> heads[c] == free[c][0]
  {
    assert Chain(next, prev, heads[c], free[c]);
    assert free[c] != [] ==> HeaderOk(next, prev, free[c], 0);
  }

  lemma OwnedTake(ps: seq<PageInfo>, ts: Tiling, next: map<nat, nat>, prev: map<nat, nat>, heads: seq<nat>,
                  free: seq<seq<nat>>, live: seq<set<nat>>, big: set<nat>, c: nat)
    requires Owned(ps, ts, free, live, big) && Chains(next, prev, heads, free) && c < CACHE_NUM && free[c] != []
    ensures free[c][0] !in live[c]
    ensures Owned(ps, ts, free[c := free[c][1..]], live[c := live[c] + {free[c][0]}], big)
  {
    hide ChunkOk, BigOk, TagOk, HeaderOk;
    var e := free[c][0];
    var fs, ls := free[c := free[c][1..]], live[c := live[c] + {e}];
    assert e in free[c];
    assert Chain(next, prev, heads[c], free[c]);
    forall d, x | 0 <= d < CACHE_NUM && x in fs[d] ensures ChunkOk(ps, ts, x, d) && x !in ls[d] {
      assert x in free[d];
    }
    forall d, x | 0 <= d < CACHE_NUM && x in ls[d] ensures ChunkOk(ps, ts, x, d) {
      assert x in live[d] || (d == c && x in free[c]);
    }
  }

  lemma OwnedGiveBack(ps: seq<PageInfo>, ts: Tiling, free: seq<seq<nat>>, live: seq<set<nat>>, big: set<nat>, c: nat,
                      e: nat)
    requires Owned(ps, ts, free, live, big) && c < CACHE_NUM && e in live[c]
    ensures e > 0 && forall d :: 0 <= d < CACHE_NUM ==> e !in free[d]
    ensures Owned(ps, ts, free[c := [e] + free[c]], live[c := live[c] - {e}], big)
  {
  }

  lemma PageSpan(a: nat, p: nat)
    requires a / PAGE_SIZE == p
    ensures p * PAGE_SIZE <= a < (p + 1) * PAGE_SIZE
  {
  }

  /** The tag of the page under a chunk pointer is the class of the chunk, and of no other, and
      the pointer is not in the kernel's own heap. */
  lemma ChunkPointerFacts(ps: seq<PageInfo>, ts: Tiling, free: seq<seq<nat>>, live: seq<set<nat>>, big: set<nat>,
                          ptr: nat, lo: nat, hi: nat)
    requires Owned(ps, ts, free, live, big) && KernelReserved(ts, lo, hi) && ptr >= HEADER_SIZE
    requires exists c :: 0 <= c < CACHE_NUM && ptr - HEADER_SIZE in live[c]
    ensures ptr / PAGE_SIZE < |ps| == |ts| && !(lo <= ptr < hi)
    ensures var tag := ps[ptr / PAGE_SIZE].cacheOrder;
      && MIN_CACHE_ORDER <= tag <= MAX_CACHE_ORDER && ptr - HEADER_SIZE in live[tag - MIN_CACHE_ORDER]
      && forall c :: 0 <= c < CACHE_NUM && ptr - HEADER_SIZE in live[c] ==> c == tag - MIN_CACHE_ORDER
    ensures !(ptr % PAGE_SIZE == 0 && ptr / PAGE_SIZE in big)
  {
  }

  /** `free` tells the layers apart: the tag is -1 exactly under a live block. */
  lemma PointerFacts(ps: seq<PageInfo>, ts: Tiling, free: seq<seq<nat>>, live: seq<set<nat>>, big: set<nat>, ptr: nat,
                     lo: nat, hi: nat)
    requires Owned(ps, ts, free, live, big) && KernelReserved(ts, lo, hi)
    requires (ptr >= HEADER_SIZE && exists c :: 0 <= c < CACHE_NUM && ptr - HEADER_SIZE in live[c])
             || (ptr % PAGE_SIZE == 0 && ptr / PAGE_SIZE in big)
    ensures ptr / PAGE_SIZE < |ps| == |ts| && !(lo <= ptr < hi)
    ensures ps[ptr / PAGE_SIZE].cacheOrder == -1 <==> ptr % PAGE_SIZE == 0 && ptr / PAGE_SIZE in big
    ensures ps[ptr / PAGE_SIZE].cacheOrder == -1 ==>
      ts[ptr / PAGE_SIZE].head == ptr / PAGE_SIZE && ts[ptr / PAGE_SIZE].kind == Live
    ensures ps[ptr / PAGE_SIZE].cacheOrder == -1 ==>
      !(ptr >= HEADER_SIZE && exists c :: 0 <= c < CACHE_NUM && ptr - HEADER_SIZE in live[c])
  {
    hide Stride;
    if ptr >= HEADER_SIZE && exists c :: 0 <= c < CACHE_NUM && ptr - HEADER_SIZE in live[c] {
      ChunkPointerFacts(ps, ts, free, live, big, ptr, lo, hi);
    } else {
      assert BigOk(ps, ts, ptr / PAGE_SIZE);
      PageSpan(ptr, ptr / PAGE_SIZE);
      assert ts[ptr / PAGE_SIZE].kind != Reserved;
    }
  }

  lemma NowhereUntagged(ps: seq<PageInfo>, ts: Tiling, free: seq<seq<nat>>, live: seq<set<nat>>, big: set<nat>, p: nat)
    requires Owned(ps, ts, free, live, big) && p < |ts| && ts[p].kind != Live
    ensures ps[p].cacheOrder == -1
  {
    assert TagOk(ps, ts, p);
  }

  lemma OwnedSameTags(ps: seq<PageInfo>, qs: seq<PageInfo>, ts: Tiling, free: seq<seq<nat>>, live: seq<set<nat>>,
                      big: set<nat>)
    requires Owned(ps, ts, free, live, big) && SameTags(ps, qs)
    ensures Owned(qs, ts, free, live, big)
  {
    hide Stride;
    forall i | 0 <= i < |qs| ensures TagOk(qs, ts, i) {
      assert TagOk(ps, ts, i);
      assert forall d: nat :: SlabPage(ps, ts, i, d) ==> SlabPage(qs, ts, i, d);
    }
    forall d, x | 0 <= d < CACHE_NUM && (x in free[d] || x in live[d]) ensures ChunkOk(qs, ts, x, d) {
      assert ChunkOk(ps, ts, x, d);
    }
    forall h | h in big ensures BigOk(qs, ts, h) {
      assert BigOk(ps, ts, h);
    }
  }

  /** A page request that comes back null changes nothing, or it took page 0. */
  lemma NullPage(addr: nat, ts: Tiling, top: nat, op: Op)
    requires Inv(ts, top) && AnswersRequest(PAGE_SIZE, addr, op) && Enabled(ts, top, op) && addr == 0
    ensures op.order == 0
    ensures (After(ts, top, op) == ts && NoFreePage(ts)) || Fits(ts, 0, 0)
  {
    hide Take, FreeWindow, Inv, Base;
    PageOrder(op.order);
    NoFitIffNoWindow(ts, top, 0);
  }

  lemma PageOrder(k: nat)
    requires IsOrderOf(PAGE_SIZE, k)
    ensures k == 0
  {
  }

  /** A request of `size` bytes will come back null. */
  ghost predicate NullForSize(ls: seq<seq<int>>, ts: Tiling, size: nat) {
    exists k :: IsOrderOf(size, k) && NullFor(ls, ts, k)
  }

  lemma NullForItsOrder(ls: seq<seq<int>>, ts: Tiling, size: nat, k: nat)
    requires IsOrderOf(size, k)
    ensures NullForSize(ls, ts, size) <==> NullFor(ls, ts, k)
  {
    hide NullFor;
    forall j: nat | IsOrderOf(size, j) ensures j == k {
      if j < k {
        Pow2Monotone(j, k - 1);
      } else if k < j {
        Pow2Monotone(k, j - 1);
      }
    }
  }

  lemma BlockAnswer(size: nat, addr: nat, op: Op)
    requires AnswersRequest(size, addr, op)
    ensures op.Allocating? || op.Refusing?
    ensures addr > 0 ==> addr % PAGE_SIZE == 0 && op.Allocating? && op.block == addr / PAGE_SIZE
    ensures IsOrderOf(size, op.order)
  {
  }

  /** A freshly granted block joins the big blocks. */
  lemma BlockGranted(ps: seq<PageInfo>, qs: seq<PageInfo>, ts: Tiling, top: nat, op: Op,
                     free: seq<seq<nat>>, live: seq<set<nat>>, big: set<nat>)
    requires Inv(ts, top) && Enabled(ts, top, op) && op.Allocating? && op.block > 0 && SameTags(ps, qs)
    requires Owned(ps, ts, free, live, big) && |After(ts, top, op)| == |ts|
      && Owned(qs, After(ts, top, op), free, live, big)
    ensures op.block < |ts| && op.block !in big && After(ts, top, op)[op.block] == Tile(op.block, op.order, Live)
    ensures Owned(qs, After(ts, top, op), free, live, big + {op.block})
  {
    hide Stride, Base, After, TileOk, ChunkOk;
    StepFrame(ts, top, op, op.block);
    assert op.block in big ==> BigOk(ps, ts, op.block);
    assert TagOk(ps, ts, op.block);
    forall h | h in big + {op.block} ensures BigOk(qs, After(ts, top, op), h) {
      assert h in big ==> BigOk(qs, After(ts, top, op), h);
    }
  }

  class KmemCaches {
    const mm: Allocator
    const bssEnd: nat
    const stackTop: nat
    var sizes: seq<nat>           // kmem_caches[i].cache_size
    var heads: seq<nat>           // kmem_caches[i].free_list
    var next: map<nat, nat>       // the two words of the chunk headers in memory
    var prev: map<nat, nat>

    ghost var free: seq<seq<nat>>
    ghost var live: seq<set<nat>>
    ghost var big: set<nat>
    ghost var created: seq<nat>

    ghost predicate Valid()
      reads this, mm, mm.pages, mm.freeList
    {
      && mm.Valid()
      && KernelReserved(mm.tiles, bssEnd, stackTop)
      && Owned(mm.pages[..], mm.tiles, free, live, big)
      && Chains(next, prev, heads, free)
      && sizes == [16, 32, 64, 128]
      && Counted(free, live, created)
    }

    /** `kmem_cache_init`, over an allocator in which the kernel's own memory is reserved. */
    constructor (mm: Allocator, bssEnd: nat, stackTop: nat)
      requires mm.Valid() && KernelReserved(mm.tiles, bssEnd, stackTop)
      requires forall p :: 0 <= p < mm.pages.Length ==> mm.pages[p].cacheOrder == -1
      modifies mm.pages, mm.freeList, mm`lists, mm`tiles
      ensures this.mm == mm && this.bssEnd == bssEnd && this.stackTop == stackTop
      ensures Valid() && big == {} && forall c :: 0 <= c < CACHE_NUM ==> live[c] == {}
      ensures Filled(created, old(mm.tiles), mm.tiles)
      ensures forall c :: 0 <= c < CACHE_NUM ==> if created[c] == 0 then free[c] == [] else FullPage(free[c], c)
    {
      this.mm, this.bssEnd, this.stackTop := mm, bssEnd, stackTop;
      sizes, heads, next, prev := [16, 32, 64, 128], [0, 0, 0, 0], map[], map[];
      free, live, big, created := [[], [], [], []], [{}, {}, {}, {}], {}, [0, 0, 0, 0];
      new;
      FillCaches();
    }

    method FillCaches()
      requires Valid() && big == {} && live == [{}, {}, {}, {}] && created == [0, 0, 0, 0]
      requires free == [[], [], [], []]
      modifies this, mm.pages, mm.freeList, mm`lists, mm`tiles
      ensures Valid() && big == {} && live == [{}, {}, {}, {}]
      ensures Filled(created, old(mm.tiles), mm.tiles)
      ensures forall c :: 0 <= c < CACHE_NUM ==> if created[c] == 0 then free[c] == [] else FullPage(free[c], c)
    {
      hide Owned, KernelReserved, Chains, Stride, PerPage, Base, Tiled, TileOk, Coalesced, Members, Agree, Shape,
        NullFor, Kept, NoFreePage, FullPage, Slots;
      ghost var ts := mm.tiles;
      KeptSelf(ts);
      var i := 0;
      while i < CACHE_NUM
        invariant i <= CACHE_NUM && Valid() && big == {} && live == [{}, {}, {}, {}]
        invariant forall c :: 0 <= c < i ==> created[c] == PerPage(c) && FullPage(free[c], c)
        invariant forall c :: i <= c < CACHE_NUM ==> created[c] == 0 && free[c] == []
        invariant Kept(ts, mm.tiles)
      {
        ghost var ss := mm.tiles;
        var page := TagPage(i);
        KeptTwice(ts, ss, mm.tiles);
        if page == 0 {
          StoppedAt(created, ts, ss, mm.tiles, i);
          return;
        }
        PageIsFull(page, i);
        CarvePage(page, i, PAGE_SIZE / (sizes[i] + HEADER_SIZE));
        i := i + 1;
      }
      assert FilledTo(created, ts, mm.tiles, CACHE_NUM);
    }

    /** One page from the page allocator, tagged with class `c`; 0 when there is none. */
    method TagPage(c: nat) returns (page: nat)
      requires Valid() && c < CACHE_NUM
      modifies mm.pages, mm.freeList, mm`lists, mm`tiles
      ensures Valid() && Kept(old(mm.tiles), mm.tiles)
      ensures Served(old(mm.tiles), mm.tiles, mm.top, PAGE_SIZE, page)
      ensures page > 0 ==> PageReady(page, c)
      ensures page == 0 <==> NullFor(old(mm.lists), old(mm.tiles), 0)
      ensures page == 0 ==>
        (mm.tiles == old(mm.tiles) && NoFreePage(old(mm.tiles))) || Fits(old(mm.tiles), 0, 0)
    {
      hide Chains, KernelReserved, Owned, Stride, Base, Tiled, TileOk, Coalesced, Members, Agree, Shape, After,
        BestFit, AnswersRequest, NullFor, NoFreePage, FirstFit, NullForSize, Served;
      ghost var ps, ts := mm.pages[..], mm.tiles;
      ghost var op: Op;
      PageRequest(mm.top);
      page, op := mm.AllocPages(PAGE_SIZE);
      ServedBy(ts, mm.top, PAGE_SIZE, page, op);
      PageRequestIsPage(page, op);
      KernelReservedAfter(ts, mm.top, op, bssEnd, stackTop);
      OwnedAfter(ps, mm.pages[..], ts, mm.top, op, free, live, big);
      KeptByAlloc(ts, mm.top, op);
      if page == 0 {
        NullPage(page, ts, mm.top, op);
        return;
      }
      PageGranted(ts, mm.top, op);
      FreePageUnused(ps, ts, free, live, big, op.block);
      var idx := page / PAGE_SIZE;
      ghost var qs := mm.pages[..];
      mm.SetCacheOrder(idx, c + MIN_CACHE_ORDER);
      OwnedTagged(qs, mm.pages[..], mm.tiles, free, live, big, idx, c);
    }

    /** A tagged page that carries no chunk yet. */
    ghost predicate PageReady(page: nat, c: nat)
      reads this, mm, mm.pages
    {
      && page > 0 && page % PAGE_SIZE == 0
      && SlabPage(mm.pages[..], mm.tiles, page / PAGE_SIZE, c)
      && Unused(free, live, big, page / PAGE_SIZE)
    }

    /** Cutting the first `n` slots of a fresh page into free chunks of class `c`. */
    method CarvePage(page: nat, c: nat, n: nat)
      requires Valid() && c < CACHE_NUM && PageReady(page, c) && n <= PerPage(c)
      modifies this`heads, this`next, this`prev, this`free, this`created
      ensures Valid() && created == old(created)[c := old(created)[c] + n]
      ensures free == old(free)[c := Slots(page, c, n) + old(free)[c]]
    {
      hide HeaderOk, KernelReserved, Stride, PerPage, Base, Tiled, TileOk, Coalesced, Members, Agree, Shape, Chains,
        Slots;
      var at, j := page, 0;
      SlotsNone(page, c, free[c]);
      while j < n
        invariant j <= n && at == page + j * Stride(c) && sizes == [16, 32, 64, 128] && created == old(created)
        invariant Chains(next, prev, heads, free) && |free| == CACHE_NUM
        invariant Owned(mm.pages[..], mm.tiles, free, live, big)
        invariant free == old(free)[c := Slots(page, c, j) + old(free)[c]]
        invariant forall x :: x in free[c] && x / PAGE_SIZE == page / PAGE_SIZE ==> x < at
        invariant forall x :: x in live[c] ==> x / PAGE_SIZE != page / PAGE_SIZE
      {
        SlotOffset(page / PAGE_SIZE, c, j);
        ghost var fs := free;
        NotThereYet(mm.pages[..], mm.tiles, free, live, big, c, page / PAGE_SIZE, at);
        Push(at, c);
        OwnedPush(mm.pages[..], mm.tiles, fs, live, big, c, at);
        SlotsStep(page, c, j, old(free)[c]);
        at := at + (sizes[c] + HEADER_SIZE);
        j := j + 1;
      }
      created := created[c := created[c] + n];
    }

    /** `request_page`: `page` is the answer of the page allocator. */
    method RequestPage(order: nat) returns (ghost page: nat)
      requires Valid() && order < CACHE_NUM
      modifies this`heads, this`next, this`prev, this`free, this`created
      modifies mm.pages, mm.freeList, mm`lists, mm`tiles
      ensures Valid() && Kept(old(mm.tiles), mm.tiles)
      ensures Served(old(mm.tiles), mm.tiles, mm.top, PAGE_SIZE, page)
      ensures page == 0 <==> NullFor(old(mm.lists), old(mm.tiles), 0)
      ensures page == 0 ==> free == old(free) && created == old(created)
      ensures page > 0 ==>
        && Grown(old(created), created, order) && created != old(created) && free[order] != []
        && free == old(free)[order := Slots(page, order, PerPage(order) - 1) + old(free)[order]]
    {
      hide Owned, KernelReserved, Chains, Stride, PerPage, NullFor, Kept, Served, Slots;
      var answer := TagPage(order);
      page := answer;
      if answer == 0 {
        return;
      }
      ManyPerPage(order);
      CarvePage(answer, order, PAGE_SIZE / (sizes[order] + HEADER_SIZE) - 1);
    }

    /** `kmalloc`: `page` is the answer to the page request of an empty class. */
    method Kmalloc(size: nat) returns (ptr: nat, ghost c: nat, ghost page: nat)
      requires Valid()
      modifies this, mm.pages, mm.freeList, mm`lists, mm`tiles
      ensures Valid() && big == old(big) && Kept(old(mm.tiles), mm.tiles)
      ensures c < CACHE_NUM && Grown(old(created), created, c)
      ensures size > MAX_CHUNK_SIZE ==> ptr == 0 && mm.tiles == old(mm.tiles)
      ensures size <= MAX_CHUNK_SIZE ==> ClassFor(size, c)
      ensures if ptr == 0 then live == old(live) else ptr > HEADER_SIZE && Handed(old(live), live, c, ptr - HEADER_SIZE)
      ensures ptr > 0 ==> size <= MAX_CHUNK_SIZE
      ensures size <= MAX_CHUNK_SIZE && old(free)[c] != [] ==>
        && ptr == old(free)[c][0] + HEADER_SIZE && free == old(free)[c := old(free)[c][1..]]
        && created == old(created) && mm.tiles == old(mm.tiles)
      ensures size <= MAX_CHUNK_SIZE && old(free)[c] == [] ==>
        && Served(old(mm.tiles), mm.tiles, mm.top, PAGE_SIZE, page)
        && (ptr == 0 <==> page == 0) && (page > 0 ==> FromPage(old(free), free, page, c, ptr))
      ensures size <= MAX_CHUNK_SIZE ==> (ptr == 0 <==> old(free)[c] == [] && NullFor(old(mm.lists), old(mm.tiles), 0))
      ensures ptr == 0 ==> free == old(free) && created == old(created) && page == 0
    {
      hide Owned, KernelReserved, Chains, Stride, PerPage, Base, Tiled, TileOk, Coalesced, Members, Agree, Shape,
        ClassFor, NullFor, Served, Slots, Handed, Kept;
      KeptSelf(mm.tiles);
      ptr, c, page := 0, 0, 0;
      var order := GetChunkOrder(size);
      var rounded := Pow2(order);
      order := order - MIN_CACHE_ORDER;
      if rounded == 0 {
        return;
      }
      ClassInRange(size, order);
      if rounded > MAX_CHUNK_SIZE {
        return;
      }
      c := order;
      HeadsMatch(next, prev, heads, free, order);
      if heads[order] == 0 {
        page := RequestPage(order);
        HeadsMatch(next, prev, heads, free, order);
      }
      var entry := heads[order];
      if entry == 0 {
        return;
      }
      Handout(order);
      ptr := entry + HEADER_SIZE;
    }

    /** The first free chunk of class `c` leaves its list and becomes live. */
    method Handout(c: nat)
      requires Valid() && c < CACHE_NUM && free[c] != []
      modifies this`heads, this`next, this`prev, this`free, this`live
      ensures Valid() && old(free)[c][0] > 0
      ensures free == old(free)[c := old(free)[c][1..]] && Handed(old(live), live, c, old(free)[c][0])
    {
      hide Owned, KernelReserved, Chains, Stride, PerPage, Base, Tiled, TileOk, Coalesced, Members, Agree, Shape;
      HeadsMatch(next, prev, heads, free, c);
      OwnedTake(mm.pages[..], mm.tiles, next, prev, heads, free, live, big, c);
      ghost var entry := free[c][0];
      Pop(c);
      live := live[c := live[c] + {entry}];
    }

    method Kfree(ptr: nat)
      requires Valid() && (ptr == 0 || IsChunkPointer(ptr) || InKernelHeap(ptr) || Untagged(ptr))
      modifies this
      ensures Valid() && big == old(big) && created == old(created)
      ensures !old(IsChunkPointer(ptr)) ==>
        live == old(live) && free == old(free) && heads == old(heads) && next == old(next) && prev == old(prev)
      ensures old(IsChunkPointer(ptr)) ==> var c := old(ClassOf(ptr));
        && Handed(live, old(live), c, ptr - HEADER_SIZE)
        && free == old(free)[c := [ptr - HEADER_SIZE] + old(free)[c]]
    {
      hide KernelReserved, Chains, Owned, Stride, PerPage, Base, Tiled, TileOk, Coalesced, Members, Agree, Shape;
      if ptr == 0 {
        return;
      }
      if IsChunkPointer(ptr) {
        ChunkPointerFacts(mm.pages[..], mm.tiles, free, live, big, ptr, bssEnd, stackTop);
      }
      if ptr >= bssEnd && ptr < stackTop {
        return;
      }
      var idx := ptr / PAGE_SIZE;
      var order := mm.pages[idx].cacheOrder;
      if order < MIN_CACHE_ORDER || order > MAX_CACHE_ORDER {
        return;
      }
      var entry: nat := ptr - HEADER_SIZE;
      ghost var c := order - MIN_CACHE_ORDER;
      OwnedGiveBack(mm.pages[..], mm.tiles, free, live, big, c, entry);
      HandedBack(live, c, entry);
      Push(entry, order - MIN_CACHE_ORDER);
      live := live[c := live[c] - {entry}];
    }

    ghost predicate InKernelHeap(ptr: nat) {
      bssEnd <= ptr < stackTop
    }

    ghost predicate Untagged(ptr: nat)
      reads mm.pages
    {
      ptr / PAGE_SIZE < mm.pages.Length && mm.pages[ptr / PAGE_SIZE].cacheOrder == -1
    }

    /** `ptr` is outside of memory, or points into the first page of a block nobody holds. */
    ghost predicate PointsNowhere(ptr: nat)
      reads mm
    {
      || ptr / PAGE_SIZE >= |mm.tiles|
      || (mm.tiles[ptr / PAGE_SIZE].head == ptr / PAGE_SIZE && mm.tiles[ptr / PAGE_SIZE].kind in {Kind.Free, OffList})
    }

    /** `ptr` points just past the header of a live chunk. */
    ghost predicate IsChunkPointer(ptr: nat)
      reads this
    {
      |live| == CACHE_NUM && ptr >= HEADER_SIZE && exists c :: 0 <= c < CACHE_NUM && ptr - HEADER_SIZE in live[c]
    }

    ghost predicate IsBlockPointer(ptr: nat)
      reads this
    {
      ptr % PAGE_SIZE == 0 && ptr / PAGE_SIZE in big
    }

    ghost function ClassOf(ptr: nat): (c: nat)
      requires IsChunkPointer(ptr)
      reads this
      ensures c < CACHE_NUM && ptr - HEADER_SIZE in live[c]
    {
      var c :| 0 <= c < CACHE_NUM && ptr - HEADER_SIZE in live[c]; c
    }

    method Alloc(size: nat) returns (ptr: nat, ghost c: nat, ghost page: nat)
      requires Valid()
      modifies this, mm.pages, mm.freeList, mm`lists, mm`tiles
      ensures Valid() && Kept(old(mm.tiles), mm.tiles)
      ensures created == old(created) || (size <= MAX_CHUNK_SIZE && c < CACHE_NUM && Grown(old(created), created, c))
      ensures ptr == 0 ==> live == old(live) && big == old(big) && free == old(free) && created == old(created)
      ensures size == 0 ==> ptr == 0 && mm.tiles == old(mm.tiles)
      ensures 0 < size <= MAX_CHUNK_SIZE ==>
        && ClassFor(size, c)
        && (ptr == 0 <==> old(free)[c] == [] && NullFor(old(mm.lists), old(mm.tiles), 0))
        && (old(free)[c] != [] ==>
             && ptr == old(free)[c][0] + HEADER_SIZE && free == old(free)[c := old(free)[c][1..]]
             && mm.tiles == old(mm.tiles))
        && (old(free)[c] == [] ==> Served(old(mm.tiles), mm.tiles, mm.top, PAGE_SIZE, page))
        && (ptr != 0 && old(free)[c] == [] ==> page > 0 && FromPage(old(free), free, page, c, ptr))
      ensures size > MAX_CHUNK_SIZE ==>
        && (ptr == 0 <==> size > PAGE_SIZE * Pow2(mm.top) || NullForSize(old(mm.lists), old(mm.tiles), size))
        && if size <= PAGE_SIZE * Pow2(mm.top) then Served(old(mm.tiles), mm.tiles, mm.top, size, ptr)
           else mm.tiles == old(mm.tiles)
      ensures ptr != 0 && size <= MAX_CHUNK_SIZE ==>
        && ClassFor(size, c) && big == old(big)
        && ptr > HEADER_SIZE && Handed(old(live), live, c, ptr - HEADER_SIZE)
      ensures ptr != 0 && size > MAX_CHUNK_SIZE ==>
        && live == old(live) && free == old(free) && ptr % PAGE_SIZE == 0
        && ptr / PAGE_SIZE !in old(big) && big == old(big) + {ptr / PAGE_SIZE}
        && ptr / PAGE_SIZE < |mm.tiles| && size <= Pow2(mm.tiles[ptr / PAGE_SIZE].order) * PAGE_SIZE
    {
      hide Chains, KernelReserved, Owned, Stride, PerPage, Base, Tiled, TileOk, Coalesced, Members, Agree, Shape,
        Counted, Grown, Handed, ClassFor, NullFor,
        NullForSize, Served, FromPage;
      ptr, c, page := 0, 0, 0;
      if size == 0 {
        return;
      }
      if size > MAX_CHUNK_SIZE {
        ptr := AllocBlock(size);
      } else {
        ptr, c, page := Kmalloc(size);
      }
    }

    /** A request above the chunk sizes goes straight to the page allocator. */
    method AllocBlock(size: nat) returns (ptr: nat)
      requires Valid() && size > 0
      modifies this`big, mm.pages, mm.freeList, mm`lists, mm`tiles
      ensures Valid() && Kept(old(mm.tiles), mm.tiles)
      ensures if size <= PAGE_SIZE * Pow2(mm.top) then Served(old(mm.tiles), mm.tiles, mm.top, size, ptr)
              else mm.tiles == old(mm.tiles)
      ensures ptr == 0 ==> big == old(big)
      ensures ptr == 0 <==> size > PAGE_SIZE * Pow2(mm.top) || NullForSize(old(mm.lists), old(mm.tiles), size)
      ensures ptr != 0 ==>
        && ptr % PAGE_SIZE == 0 && ptr / PAGE_SIZE !in old(big) && big == old(big) + {ptr / PAGE_SIZE}
        && ptr / PAGE_SIZE < |mm.tiles| && size <= Pow2(mm.tiles[ptr / PAGE_SIZE].order) * PAGE_SIZE
    {
      hide Chains, KernelReserved, Owned, Stride, Base, Tiled, TileOk, Coalesced, Members, Agree, Shape, After,
        BestFit, AnswersRequest, NullFor, NoFreePage, FirstFit, NullForSize, Served;
      ghost var ps, ts := mm.pages[..], mm.tiles;
      ghost var op: Op;
      ghost var ls := mm.lists;
      ptr, op := mm.AllocPages(size);
      if size > PAGE_SIZE * Pow2(mm.top) {
        OwnedSameTags(ps, mm.pages[..], ts, free, live, big);
        return;
      }
      ServedBy(ts, mm.top, size, ptr, op);
      BlockAnswer(size, ptr, op);
      NullForItsOrder(ls, ts, size, op.order);
      KernelReservedAfter(ts, mm.top, op, bssEnd, stackTop);
      OwnedAfter(ps, mm.pages[..], ts, mm.top, op, free, live, big);
      KeptByAlloc(ts, mm.top, op);
      if ptr != 0 {
        BlockGranted(ps, mm.pages[..], ts, mm.top, op, free, live, big);
        big := big + {ptr / PAGE_SIZE};
      }
    }

    method Free(ptr: nat)
      requires Valid()
      requires ptr == 0 || IsChunkPointer(ptr) || IsBlockPointer(ptr) || InKernelHeap(ptr) || PointsNowhere(ptr)
      modifies this, mm.pages, mm.freeList, mm`lists, mm`tiles
      ensures Valid() && created == old(created)
      ensures ptr == 0 || !old(IsChunkPointer(ptr) || IsBlockPointer(ptr)) ==>
        live == old(live) && free == old(free) && big == old(big) && mm.tiles == old(mm.tiles)
          && mm.lists == old(mm.lists)
      ensures old(IsChunkPointer(ptr)) ==> var c := old(ClassOf(ptr));
        && big == old(big) && mm.tiles == old(mm.tiles)
        && Handed(live, old(live), c, ptr - HEADER_SIZE)
        && free == old(free)[c := [ptr - HEADER_SIZE] + old(free)[c]]
      ensures ptr != 0 && old(IsBlockPointer(ptr)) ==>
        && live == old(live) && free == old(free) && big == old(big) - {ptr / PAGE_SIZE}
        && Enabled(old(mm.tiles), mm.top, Freeing(ptr / PAGE_SIZE))
        && mm.tiles == After(old(mm.tiles), mm.top, Freeing(ptr / PAGE_SIZE))
    {
      hide Chains, KernelReserved, Owned, Stride, Base, Tiled, TileOk, Coalesced, Members, Agree, Shape, After;
      if ptr == 0 {
        return;
      }
      ghost var held := IsChunkPointer(ptr) || IsBlockPointer(ptr);
      if held {
        PointerFacts(mm.pages[..], mm.tiles, free, live, big, ptr, bssEnd, stackTop);
      }
      if ptr >= bssEnd && ptr < stackTop {
        return;
      }
      var idx := ptr / PAGE_SIZE;
      if idx >= mm.pages.Length {
        return;
      }
      if !held {
        NowhereUntagged(mm.pages[..], mm.tiles, free, live, big, idx);
      }
      if mm.pages[idx].cacheOrder != -1 {
        Kfree(ptr);
      } else {
        ghost var ps, ts := mm.pages[..], mm.tiles;
        mm.FreePages(ptr);
        if held {
          KernelReservedAfter(ts, mm.top, Freeing(idx), bssEnd, stackTop);
          OwnedAfter(ps, mm.pages[..], ts, mm.top, Freeing(idx), free, live, big);
          big := big - {idx};
        } else {
          OwnedSameTags(ps, mm.pages[..], ts, free, live, big);
        }
      }
    }

    method Push(e: nat, c: nat)
      requires Chains(next, prev, heads, free) && c < CACHE_NUM && e > 0
      requires forall d :: 0 <= d < CACHE_NUM ==> e !in free[d]
      modifies this`heads, this`next, this`prev, this`free
      ensures Chains(next, prev, heads, free)
      ensures free == old(free)[c := [e] + old(free)[c]]
    {
      ChainsPush(next, prev, heads, free, c, e);
      next := next[e := heads[c]];
      if heads[c] != 0 {
        prev := prev[heads[c] := e];
      }
      heads := heads[c := e];
      prev := prev[e := 0];
      free := free[c := [e] + free[c]];
    }

    method Pop(c: nat)
      requires Chains(next, prev, heads, free) && c < CACHE_NUM && free[c] != []
      modifies this`heads, this`next, this`prev, this`free
      ensures Chains(next, prev, heads, free)
      ensures free == old(free)[c := old(free)[c][1..]]
    {
      ChainsPop(next, prev, heads, free, c);
      var tmp := heads[c];
      heads := heads[c := next[tmp]];
      if heads[c] != 0 {
        prev := prev[heads[c] := 0];
      }
      next := next[tmp := 0];
      prev := prev[tmp := 0];
      free := free[c := free[c][1..]];
    }
  }

  /** Per class, free and live chunks together are all that were ever created. */
  ghost predicate Counted(free: seq<seq<nat>>, live: seq<set<nat>>, created: seq<nat>) {
    && |free| == |live| == |created| == CACHE_NUM
    && forall c :: 0 <= c < CACHE_NUM ==> created[c] == |free[c]| + |live[c]|
  }
}
