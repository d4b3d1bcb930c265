/** Whole runs of the page allocator: `mm_init`, then any sequence of `reserve`, `_alloc`
    and `_free` of blocks that are live at that point. */
module PageRuns {
  import opened Bits
  import opened Tiles
  import opened Carving

  datatype Op =
    | Reserving(lo: nat, hi: nat)
    | Allocating(order: nat, block: nat)
    | Refusing(order: nat)
    | Freeing(block: nat)

  /** A free block that can serve a request of order `k`. */
  ghost predicate Fits(ts: Tiling, k: nat, h: nat) {
    h < |ts| && ts[h].head == h && ts[h].kind == Free && k <= ts[h].order
  }

  /** `_alloc` searches the lists upwards, so it takes a block of the least order that fits. */
  ghost predicate BestFit(ts: Tiling, k: nat, h: nat) {
    Fits(ts, k, h) && forall g: nat :: Fits(ts, k, g) ==> ts[h].order <= ts[g].order
  }

  ghost predicate Enabled(ts: Tiling, top: nat, op: Op) {
    match op
    case Reserving(lo, hi) => lo <= hi < |ts| && forall p :: lo <= p <= hi ==> ts[p].kind == Free
    case Allocating(k, h) => BestFit(ts, k, h)
    case Refusing(k) => k <= top && forall h: nat :: !Fits(ts, k, h)
    case Freeing(h) => h < |ts| && ts[h].head == h && ts[h].kind == Live
  }

  ghost function After(ts: Tiling, top: nat, op: Op): (rs: Tiling)
    requires Tiled(ts, top) && Enabled(ts, top, op)
  {
    match op
    case Reserving(lo, hi) => Reserve(ts, top, lo, hi)
    case Allocating(k, h) => Take(ts, top, h, k)
    case Refusing(k) => ts
    case Freeing(h) => Merge(ts, top, h, ts[h].order)
  }

  lemma StepInv(ts: Tiling, top: nat, op: Op)
    requires Inv(ts, top) && Enabled(ts, top, op)
    ensures Inv(After(ts, top, op), top) && |After(ts, top, op)| == |ts|
  {
    hide Base, TileOk, Twins, Merge, Take, Reserve, Freed;
    match op
    case Reserving(lo, hi) => ReserveExact(ts, top, lo, hi);
    case Allocating(k, h) => TakeEffect(ts, top, h, k);
    case Refusing(k) =>
    case Freeing(h) => MergeEffect(ts, top, h, ts[h].order);
  }

  /** `ops` can happen after `mm_init` set up `blocks` top-order blocks. */
  ghost predicate Run(ops: seq<Op>, blocks: nat, top: nat)
    decreases |ops|, 0
  {
    ops == [] || (Run(ops[..|ops| - 1], blocks, top)
                  && Enabled(Reached(ops[..|ops| - 1], blocks, top), top, ops[|ops| - 1]))
  }

  /** The tiling at the end of a run.  Every one of them is tiled and coalesced. */
  ghost function Reached(ops: seq<Op>, blocks: nat, top: nat): (ts: Tiling)
    requires Run(ops, blocks, top)
    ensures Inv(ts, top) && |ts| == blocks * Pow2(top)
    decreases |ops|, 1
  {
    if ops == [] then
      InitialInv(blocks, top);
      Initial(blocks, top)
    else
      var ts := Reached(ops[..|ops| - 1], blocks, top);
      StepInv(ts, top, ops[|ops| - 1]);
      After(ts, top, ops[|ops| - 1])
  }

  /** A free block that fits exists exactly when some aligned window of that size is entirely
      free. */
  lemma NoFitIffNoWindow(ts: Tiling, top: nat, k: nat)
    requires Inv(ts, top) && k <= top
    ensures (forall h: nat :: !Fits(ts, k, h)) <==> (forall w: nat :: !FreeWindow(ts, k, w))
  {
    hide Base;
    forall w: nat | FreeWindow(ts, k, w) ensures Fits(ts, k, ts[w].head) {
      WindowCovered(ts, top, w, k);
      HeadOfWindow(ts, top, w);
    }
    forall h: nat | Fits(ts, k, h) ensures FreeWindow(ts, k, h) {
      HeadOfWindow(ts, top, h);
      AlignedDown(h, k, ts[h].order);
      Pow2Monotone(k, ts[h].order);
      assert TileOk(ts, top, h);
    }
  }

  /** Completeness: a request is refused exactly when no aligned window of its size is
      entirely free. */
  lemma RefusedIffNoWindow(ops: seq<Op>, blocks: nat, top: nat, k: nat)
    requires Run(ops, blocks, top) && k <= top
    ensures var ts := Reached(ops, blocks, top);
      Enabled(ts, top, Refusing(k)) <==> forall w: nat :: !FreeWindow(ts, k, w)
  {
    hide Base, Run, Reached, FreeWindow;
    NoFitIffNoWindow(Reached(ops, blocks, top), top, k);
  }

  ghost predicate FreeWindow(ts: Tiling, k: nat, w: nat) {
    && Base(w, k) == w && w + Pow2(k) <= |ts|
    && forall p :: Within(p, w, k) ==> ts[p].kind == Free
  }

  /** No step touches a page that is reserved, off the lists, or in a live block other than
      the one being given back; and a new block only takes pages that were free. */
  lemma StepFrame(ts: Tiling, top: nat, op: Op, p: nat)
    requires Inv(ts, top) && Enabled(ts, top, op) && p < |ts|
    ensures ts[p].kind != Free && !(op.Freeing? && ts[p].head == op.block)
      ==> After(ts, top, op)[p] == ts[p]
    ensures ts[p].kind == Reserved || ts[p].kind == OffList ==> After(ts, top, op)[p] == ts[p]
    ensures op.Allocating? && Within(p, op.block, op.order)
      ==> ts[p].kind == Free && After(ts, top, op)[p] == Tile(op.block, op.order, Live)
  {
    hide Base, Twins, Merge, Take, Reserve, RestFree;
    match op
    case Reserving(lo, hi) => ReserveExact(ts, top, lo, hi);
    case Allocating(k, h) =>
      TakeEffect(ts, top, h, k);
      assert TileOk(ts, top, h);
    case Refusing(k) =>
    case Freeing(h) =>
      MergeEffect(ts, top, h, ts[h].order);
      assert TileOk(ts, top, h);
      HeadOfWindow(ts, top, p);
  }

  /** A page that was reserved, or went off the lists, keeps its block in every continuation of
      the run. */
  lemma {:induction false} GoneForever(ops: seq<Op>, more: seq<Op>, blocks: nat, top: nat, p: nat)
    requires Run(ops + more, blocks, top) && Run(ops, blocks, top)
    requires p < blocks * Pow2(top) && Reached(ops, blocks, top)[p].kind in {Reserved, OffList}
    ensures Reached(ops + more, blocks, top)[p] == Reached(ops, blocks, top)[p]
    decreases |more|
  {
    hide Base, Inv, Enabled, After;
    if more == [] {
      assert ops + more == ops;
    } else {
      var last := |more| - 1;
      assert (ops + more)[..|ops + more| - 1] == ops + more[..last];
      GoneForever(ops, more[..last], blocks, top, p);
      StepFrame(Reached(ops + more[..last], blocks, top), top, more[last], p);
    }
  }

  /** So no later `_alloc` returns a block that touches it. */
  lemma AllocAvoidsGone(ops: seq<Op>, more: seq<Op>, blocks: nat, top: nat, k: nat, h: nat, p: nat)
    requires Run(ops, blocks, top) && Run(ops + more, blocks, top)
    requires Run(ops + more + [Allocating(k, h)], blocks, top)
    requires p < blocks * Pow2(top) && Reached(ops, blocks, top)[p].kind in {Reserved, OffList}
    ensures !Within(p, h, k)
  {
    hide Base, Inv, After;
    GoneForever(ops, more, blocks, top, p);
    assert (ops + more + [Allocating(k, h)])[..|ops + more|] == ops + more;
    StepFrame(Reached(ops + more, blocks, top), top, Allocating(k, h), p);
  }

  /** A top-order window whose last held block is given back is lost in every continuation. */
  lemma WindowLost(ops: seq<Op>, h: nat, more: seq<Op>, blocks: nat, top: nat, p: nat)
    requires Run(ops, blocks, top) && Run(ops + [Freeing(h)], blocks, top)
      && Run(ops + [Freeing(h)] + more, blocks, top)
    requires h < blocks * Pow2(top)
    requires RestFree(Reached(ops, blocks, top), top, h, Reached(ops, blocks, top)[h].order)
    requires p < blocks * Pow2(top) && Within(p, Base(h, top), top)
    ensures Reached(ops + [Freeing(h)] + more, blocks, top)[p] == Tile(Base(h, top), top, OffList)
  {
    hide Base, Inv, RestFree, Merge;
    var ts := Reached(ops, blocks, top);
    assert (ops + [Freeing(h)])[..|ops|] == ops;
    MergeEffect(ts, top, h, ts[h].order);
    GoneForever(ops + [Freeing(h)], more, blocks, top, p);
  }

  // ---------------------------------------------------------------- conservation

  ghost function Count(ts: Tiling, kind: Kind): nat {
    if ts == [] then 0 else Count(ts[..|ts| - 1], kind) + if ts[|ts| - 1].kind == kind then 1 else 0
  }

  /** Free, live, reserved and off-list pages always add up to all pages. */
  lemma {:induction false} PagesConserved(ts: Tiling)
    ensures Count(ts, Free) + Count(ts, Live) + Count(ts, Reserved) + Count(ts, OffList) == |ts|
  {
    if ts != [] {
      PagesConserved(ts[..|ts| - 1]);
    }
  }

  lemma {:induction false} CountMoved(ts: Tiling, rs: Tiling, h: nat, n: nat, from: Kind, to: Kind)
    requires |ts| == |rs| && h + n <= |ts| && from != to
    requires forall p :: 0 <= p < |ts| ==>
      if h <= p < h + n then ts[p].kind == from && rs[p].kind == to else rs[p].kind == ts[p].kind
    ensures Count(rs, from) + n == Count(ts, from) && Count(rs, to) == Count(ts, to) + n
    ensures forall x :: x != from && x != to ==> Count(rs, x) == Count(ts, x)
    decreases |ts|
  {
    if ts != [] {
      var m := |ts| - 1;
      CountMoved(ts[..m], rs[..m], if h < m then h else m,
                 if h + n > m then (if h < m then m - h else 0) else n, from, to);
    }
  }

  /** `_alloc` moves exactly 2^k pages from free to live and nothing else. */
  lemma AllocMovesPages(ops: seq<Op>, blocks: nat, top: nat, k: nat, h: nat)
    requires Run(ops, blocks, top) && BestFit(Reached(ops, blocks, top), k, h)
    ensures var ts := Reached(ops, blocks, top); var rs := Take(ts, top, h, k);
      && Count(rs, Free) + Pow2(k) == Count(ts, Free)
      && Count(rs, Live) == Count(ts, Live) + Pow2(k)
      && Count(rs, Reserved) == Count(ts, Reserved) && Count(rs, OffList) == Count(ts, OffList)
  {
    hide Base, Run, Reached, Take, TileOk, Twins, Count;
    var ts := Reached(ops, blocks, top);
    TakeEffect(ts, top, h, k);
    CountMoved(ts, Take(ts, top, h, k), h, Pow2(k), Free, Live);
  }

  /** `reserve` moves exactly the pages of its interval from free to reserved. */
  lemma ReserveMovesPages(ops: seq<Op>, blocks: nat, top: nat, lo: nat, hi: nat)
    requires Run(ops, blocks, top) && Enabled(Reached(ops, blocks, top), top, Reserving(lo, hi))
    ensures var ts := Reached(ops, blocks, top); var rs := Reserve(ts, top, lo, hi);
      && Count(rs, Free) + (hi + 1 - lo) == Count(ts, Free)
      && Count(rs, Reserved) == Count(ts, Reserved) + (hi + 1 - lo)
      && Count(rs, Live) == Count(ts, Live) && Count(rs, OffList) == Count(ts, OffList)
  {
    hide Base, Run, Reached, Reserve, TileOk, Twins, Count;
    var ts := Reached(ops, blocks, top);
    ReserveExact(ts, top, lo, hi);
    CountMoved(ts, Reserve(ts, top, lo, hi), lo, hi + 1 - lo, Free, Reserved);
  }

  /** `_free` moves the pages of the block from live to free, unless that would leave its whole
      top-order window free: then the window leaves the free pages for good. */
  lemma FreeMovesPages(ops: seq<Op>, blocks: nat, top: nat, h: nat)
    requires Run(ops, blocks, top) && Enabled(Reached(ops, blocks, top), top, Freeing(h))
    ensures var ts := Reached(ops, blocks, top); var k := ts[h].order; var rs := Merge(ts, top, h, k);
      && Count(rs, Live) + Pow2(k) == Count(ts, Live) && Count(rs, Reserved) == Count(ts, Reserved)
      && if RestFree(ts, top, h, k)
         then Count(rs, Free) + Pow2(top) == Count(ts, Free) + Pow2(k)
              && Count(rs, OffList) == Count(ts, OffList) + Pow2(top)
         else Count(rs, Free) == Count(ts, Free) + Pow2(k) && Count(rs, OffList) == Count(ts, OffList)
  {
    hide Base, Run, Reached, Merge, Twins, Count, Tiled, TileOk, Coalesced, Pow2;
    var ts := Reached(ops, blocks, top);
    var k := ts[h].order;
    MergeEffect(ts, top, h, k);
    var rs, ss := Merge(ts, top, h, k), Given(ts, top, h);
    CountMoved(ts, ss, h, Pow2(k), Live, Free);
    if RestFree(ts, top, h, k) {
      WindowOfHead(ts, top, h);
      BlockInWindow(ts, top, h);
      CountMoved(ss, rs, Base(h, top), Pow2(top), Free, OffList);
    } else {
      CountByKind(rs, ss);
    }
  }

  lemma BlockInWindow(ts: Tiling, top: nat, h: nat)
    requires Tiled(ts, top) && h < |ts| && ts[h].head == h
    ensures forall p :: Within(p, h, ts[h].order) ==> Within(p, Base(h, top), top)
  {
    hide Base;
    HeadOfWindow(ts, top, h);
    assert TileOk(ts, top, h);
    BaseNested(h, ts[h].order, top);
  }

  /** The block at `h` as it would be if it became free without merging. */
  ghost function Given(ts: Tiling, top: nat, h: nat): (ss: Tiling)
    requires Tiled(ts, top) && h < |ts| && ts[h].head == h
    ensures |ss| == |ts| && h + Pow2(ts[h].order) <= |ts|
    ensures forall p :: 0 <= p < |ts| ==>
      if Within(p, h, ts[h].order) then ts[p] == ts[h] && ss[p].kind == Free else ss[p] == ts[p]
  {
    assert TileOk(ts, top, h);
    Put(ts, h, ts[h].order, Free)
  }

  lemma {:induction false} CountByKind(ts: Tiling, rs: Tiling)
    requires |ts| == |rs| && forall p :: 0 <= p < |ts| ==> rs[p].kind == ts[p].kind
    ensures forall x :: Count(rs, x) == Count(ts, x)
  {
    if ts != [] {
      CountByKind(ts[..|ts| - 1], rs[..|ts| - 1]);
    }
  }
}
