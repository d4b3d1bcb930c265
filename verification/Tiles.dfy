/** The block structure of the page allocator as a value: every page knows the block
    that covers it.  The allocator's loops appear here as functions on that value, and
    what they guarantee is proved about the functions. */
module Tiles {
  import opened Bits

  /** Who holds a block.  `OffList` is the state of a top-order block given back by
      `_free`: it belongs to nobody and is on no free list. */
  datatype Kind = Free | Live | Reserved | OffList

  /** The block covering a page: its first page, its order and its holder. */
  datatype Tile = Tile(head: nat, order: nat, kind: Kind)

  type Tiling = seq<Tile>

  predicate Within(p: int, h: nat, k: nat) {
    h <= p < h + Pow2(k)
  }

  /** The block of page `p` is aligned, in range, and covers exactly its own pages. */
  ghost predicate TileOk(ts: Tiling, top: nat, p: nat)
    requires p < |ts|
  {
    var t := ts[p];
    && t.order <= top
    && t.head == Base(p, t.order)
    && t.head + Pow2(t.order) <= |ts|
    && (t.kind == OffList ==> t.order == top)
    && forall q :: Within(q, t.head, t.order) ==> ts[q] == t
  }

  /** The blocks tile the page array. */
  ghost predicate Tiled(ts: Tiling, top: nat) {
    Base(|ts|, top) == |ts| && forall p :: 0 <= p < |ts| ==> TileOk(ts, top, p)
  }

  /** `h` starts a free block whose upper neighbour is its free buddy of the same order. */
  ghost predicate Twins(ts: Tiling, top: nat, h: nat)
    requires h < |ts|
  {
    var k := ts[h].order;
    && k < top
    && ts[h] == Tile(h, k, Free)
    && Base(h, k + 1) == h
    && h + Pow2(k) < |ts|
    && ts[h + Pow2(k)] == Tile(h + Pow2(k), k, Free)
  }

  /** No two buddies below the top order are both free. */
  ghost predicate Coalesced(ts: Tiling, top: nat) {
    forall h :: 0 <= h < |ts| ==> !Twins(ts, top, h)
  }

  ghost predicate Inv(ts: Tiling, top: nat) {
    Tiled(ts, top) && Coalesced(ts, top)
  }

  /** `ts` with the window of order `k` at `h` made one block. */
  ghost function Put(ts: Tiling, h: nat, k: nat, kind: Kind): (r: Tiling)
    requires h + Pow2(k) <= |ts|
    ensures |r| == |ts|
    ensures forall p :: 0 <= p < |ts| ==> r[p] == if Within(p, h, k) then Tile(h, k, kind) else ts[p]
  {
    seq(|ts|, p requires 0 <= p < |ts| => if Within(p, h, k) then Tile(h, k, kind) else ts[p])
  }

  /** `ts` with the block of order `k + 1` at `h` replaced by its two halves. */
  ghost function Split(ts: Tiling, h: nat, k: nat, low: Kind, high: Kind): (r: Tiling)
    requires h + Pow2(k + 1) <= |ts|
    ensures |r| == |ts|
    ensures forall p :: 0 <= p < |ts| ==>
      r[p] == if Within(p, h, k) then Tile(h, k, low)
              else if Within(p, h + Pow2(k), k) then Tile(h + Pow2(k), k, high)
              else ts[p]
  {
    Put(Put(ts, h, k, low), h + Pow2(k), k, high)
  }

  // ---------------------------------------------------------------- tiling is kept

  lemma HeadOfWindow(ts: Tiling, top: nat, p: nat)
    requires Tiled(ts, top) && p < |ts|
    ensures var t := ts[p]; Within(p, t.head, t.order) && ts[t.head] == t && Base(t.head, t.order) == t.head
  {
    hide Base;
    assert TileOk(ts, top, p);
    BaseOfMember(p, ts[p].head, ts[p].order);
    assert Within(ts[p].head, ts[p].head, ts[p].order);
  }

  /** A window that only covers blocks of smaller or equal order has none sticking out. */
  lemma OutsideStaysOutside(ts: Tiling, top: nat, h: nat, k: nat, p: nat, q: nat)
    requires Tiled(ts, top) && Base(h, k) == h && h + Pow2(k) <= |ts|
    requires forall p :: Within(p, h, k) ==> ts[p].order <= k
    requires p < |ts| && !Within(p, h, k) && Within(q, ts[p].head, ts[p].order)
    ensures q < |ts| && !Within(q, h, k)
  {
    hide Base;
    assert TileOk(ts, top, p);
    if Within(q, h, k) {
      HeadOfWindow(ts, top, p);
      WindowsNest(ts[p].head, ts[p].order, h, k, q);
    }
  }

  lemma PutTiled(ts: Tiling, top: nat, h: nat, k: nat, kind: Kind)
    requires Tiled(ts, top) && k <= top && Base(h, k) == h && h + Pow2(k) <= |ts|
    requires forall p :: Within(p, h, k) ==> ts[p].order <= k
    requires kind == OffList ==> k == top
    ensures Tiled(Put(ts, h, k, kind), top)
  {
    hide Base;
    var rs := Put(ts, h, k, kind);
    forall p | 0 <= p < |rs| ensures TileOk(rs, top, p) {
      assert TileOk(ts, top, p);
      if Within(p, h, k) {
        BaseOfMember(h, p, k);
      } else {
        forall q | Within(q, ts[p].head, ts[p].order) ensures rs[q] == rs[p] {
          OutsideStaysOutside(ts, top, h, k, p, q);
        }
      }
    }
  }

  lemma SplitTiled(ts: Tiling, top: nat, h: nat, k: nat, low: Kind, high: Kind)
    requires Tiled(ts, top) && h < |ts| && ts[h].head == h && ts[h].order == k + 1
    requires low != OffList && high != OffList
    ensures h + Pow2(k + 1) <= |ts| && Tiled(Split(ts, h, k, low, high), top)
  {
    hide Base;
    assert TileOk(ts, top, h);
    UpperHalf(h, k);
    var rs := Split(ts, h, k, low, high);
    forall p | 0 <= p < |rs| ensures TileOk(rs, top, p) {
      assert TileOk(ts, top, p);
      if Within(p, h, k) {
        BaseOfMember(h, p, k);
      } else if Within(p, h + Pow2(k), k) {
        BaseOfMember(h + Pow2(k), p, k);
      } else {
        forall q | Within(q, ts[p].head, ts[p].order) ensures rs[q] == rs[p] {
          assert ts[q] == ts[p];
        }
      }
    }
  }

  // ---------------------------------------------------------------- coalescing

  /** A block at least as large as an aligned window it meets covers all of it. */
  lemma BigBlockCovers(ts: Tiling, top: nat, w: nat, k: nat, p: nat, q: nat)
    requires Tiled(ts, top) && Base(w, k) == w && w + Pow2(k) <= |ts|
    requires Within(p, w, k) && ts[p].order >= k && Within(q, w, k)
    ensures ts[q] == ts[p]
  {
    hide Base;
    HeadOfWindow(ts, top, p);
    WindowsNest(w, k, ts[p].head, ts[p].order, p);
    assert TileOk(ts, top, p);
    assert Within(q, ts[p].head, ts[p].order);
  }

  lemma TwinsFromHalves(ts: Tiling, top: nat, w: nat, k: nat)
    requires Tiled(ts, top) && k < top && Base(w, k + 1) == w && w + Pow2(k + 1) <= |ts|
    requires ts[w].order == k && ts[w].kind == Free
    requires ts[w + Pow2(k)].order == k && ts[w + Pow2(k)].kind == Free
    ensures Twins(ts, top, w)
  {
    hide Base;
    UpperHalf(w, k);
    assert TileOk(ts, top, w) && TileOk(ts, top, w + Pow2(k));
  }

  /** The heart of completeness: with no free twins, a fully free aligned window is
      always covered by a single free block. */
  lemma {:induction false} WindowCovered(ts: Tiling, top: nat, w: nat, k: nat)
    requires Inv(ts, top) && k <= top && Base(w, k) == w && w + Pow2(k) <= |ts|
    requires forall p :: Within(p, w, k) ==> ts[p].kind == Free
    ensures ts[w].order >= k
    decreases k
  {
    hide Base;
    if k > 0 {
      var u := w + Pow2(k - 1);
      UpperHalf(w, k - 1);
      assert forall p :: Within(p, w, k - 1) || Within(p, u, k - 1) ==> Within(p, w, k);
      WindowCovered(ts, top, w, k - 1);
      WindowCovered(ts, top, u, k - 1);
      assert Within(w, w, k) && Within(u, w, k);
      if ts[u].order >= k {
        BigBlockCovers(ts, top, w, k, u, w);
      } else if ts[w].order < k {
        TwinsFromHalves(ts, top, w, k - 1);
      }
    }
  }

  /** The free blocks are determined by the free pages alone. */
  lemma FreeBlocksCanonical(ts: Tiling, rs: Tiling, top: nat, p: nat)
    requires Inv(ts, top) && Inv(rs, top) && |ts| == |rs| && p < |ts|
    requires forall q :: 0 <= q < |ts| ==> (ts[q].kind == Free <==> rs[q].kind == Free)
    requires ts[p].kind == Free
    ensures ts[p] == rs[p]
  {
    hide Base;
    OrderAtLeast(ts, rs, top, p);
    OrderAtLeast(rs, ts, top, p);
    assert TileOk(ts, top, p) && TileOk(rs, top, p);
  }

  lemma OrderAtLeast(ts: Tiling, rs: Tiling, top: nat, p: nat)
    requires Inv(ts, top) && Inv(rs, top) && |ts| == |rs| && p < |ts|
    requires forall q :: 0 <= q < |ts| ==> (ts[q].kind == Free <==> rs[q].kind == Free)
    requires ts[p].kind == Free
    ensures ts[p].order <= rs[p].order
  {
    hide Base;
    var h, k := ts[p].head, ts[p].order;
    HeadOfWindow(ts, top, p);
    assert TileOk(ts, top, p);
    WindowCovered(rs, top, h, k);
    HeadOfWindow(rs, top, h);
    WindowsNest(h, k, rs[h].head, rs[h].order, h);
    assert TileOk(rs, top, h) && Within(p, rs[h].head, rs[h].order);
  }

  // ---------------------------------------------------------------- mm_init

  ghost function Initial(blocks: nat, top: nat): (ts: Tiling)
    ensures |ts| == blocks * Pow2(top)
  {
    seq(blocks * Pow2(top), p requires 0 <= p < blocks * Pow2(top) => Tile(Base(p, top), top, Free))
  }

  lemma InitialInv(blocks: nat, top: nat)
    ensures Inv(Initial(blocks, top), top)
    ensures forall p :: 0 <= p < blocks * Pow2(top) ==> Initial(blocks, top)[p].kind == Free
  {
    hide Base;
    var ts := Initial(blocks, top);
    MultipleIsAligned(blocks, top);
    forall p | 0 <= p < |ts| ensures TileOk(ts, top, p) {
      WindowBelow(p, |ts|, top);
      forall q | Within(q, ts[p].head, top) ensures ts[q] == ts[p] {
        BaseOfMember(p, q, top);
      }
    }
  }

  // ---------------------------------------------------------------- _alloc

  /** The splitting loop of `_alloc`: the taken block at `h` loses its upper half until
      its order is `k`. */
  ghost function SplitDown(ts: Tiling, top: nat, h: nat, i: nat, k: nat): (r: Tiling)
    requires Tiled(ts, top) && h < |ts| && k <= i && ts[h] == Tile(h, i, Live)
    ensures |r| == |ts|
    decreases i
  {
    if i == k then ts
    else
      SplitTiled(ts, top, h, i - 1, Live, Free);
      SplitDown(Split(ts, h, i - 1, Live, Free), top, h, i - 1, k)
  }

  /** `_alloc` taking the free block at `h` for a request of order `k`. */
  ghost function Take(ts: Tiling, top: nat, h: nat, k: nat): (r: Tiling)
    requires Tiled(ts, top) && h < |ts| && ts[h].head == h && ts[h].kind == Free && k <= ts[h].order
    ensures |r| == |ts|
  {
    RekindTiled(ts, top, h, Live);
    SplitDown(Put(ts, h, ts[h].order, Live), top, h, ts[h].order, k)
  }

  lemma RekindTiled(ts: Tiling, top: nat, h: nat, kind: Kind)
    requires Tiled(ts, top) && h < |ts| && ts[h].head == h
    requires kind == OffList ==> ts[h].order == top
    ensures h + Pow2(ts[h].order) <= |ts|
    ensures Tiled(Put(ts, h, ts[h].order, kind), top)
    ensures Put(ts, h, ts[h].order, kind)[h] == Tile(h, ts[h].order, kind)
  {
    hide Base;
    HeadOfWindow(ts, top, h);
    assert TileOk(ts, top, h);
    PutTiled(ts, top, h, ts[h].order, kind);
  }

  lemma SplitCoalesced(ts: Tiling, top: nat, h: nat, k: nat)
    requires Inv(ts, top) && h < |ts| && ts[h] == Tile(h, k + 1, Live)
    ensures h + Pow2(k + 1) <= |ts| && Inv(Split(ts, h, k, Live, Free), top)
  {
    hide Base;
    SplitTiled(ts, top, h, k, Live, Free);
    HeadOfWindow(ts, top, h);
    UpperHalf(h, k);
    var rs := Split(ts, h, k, Live, Free);
    forall g | 0 <= g < |rs| ensures !Twins(rs, top, g) {
      assert Twins(rs, top, g) ==> Twins(ts, top, g);
    }
  }

  /** What splitting does to every page. */
  lemma {:induction false} SplitDownEffect(ts: Tiling, top: nat, h: nat, i: nat, k: nat)
    requires Inv(ts, top) && h < |ts| && k <= i && ts[h] == Tile(h, i, Live)
    ensures h + Pow2(k) <= h + Pow2(i) <= |ts|
    ensures var rs := SplitDown(ts, top, h, i, k);
      && Inv(rs, top)
      && forall p :: 0 <= p < |ts| ==>
           if Within(p, h, k) then rs[p] == Tile(h, k, Live)
           else if Within(p, h, i) then rs[p].kind == Free
           else rs[p] == ts[p]
    decreases i
  {
    hide Base;
    assert TileOk(ts, top, h);
    Pow2Monotone(k, i);
    if i > k {
      SplitCoalesced(ts, top, h, i - 1);
      SplitDownEffect(Split(ts, h, i - 1, Live, Free), top, h, i - 1, k);
    }
  }

  lemma PutNotFreeCoalesced(ts: Tiling, top: nat, h: nat, k: nat, kind: Kind)
    requires Coalesced(ts, top) && h + Pow2(k) <= |ts| && kind != Free
    ensures Coalesced(Put(ts, h, k, kind), top)
  {
    hide Base;
    var rs := Put(ts, h, k, kind);
    forall g | 0 <= g < |rs| ensures !Twins(rs, top, g) {
      assert Twins(rs, top, g) ==> Twins(ts, top, g);
    }
  }

  /** `_alloc`: exactly the 2^k pages of the returned block leave the free pages, blocks
      elsewhere are untouched, and the coalescing invariant holds again. */
  lemma TakeEffect(ts: Tiling, top: nat, h: nat, k: nat)
    requires Inv(ts, top) && h < |ts| && ts[h].head == h && ts[h].kind == Free && k <= ts[h].order
    ensures h + Pow2(k) <= h + Pow2(ts[h].order) <= |ts|
    ensures var rs := Take(ts, top, h, k);
      && Inv(rs, top)
      && (forall p :: 0 <= p < |ts| ==>
            if Within(p, h, k) then ts[p].kind == Free && rs[p] == Tile(h, k, Live)
            else rs[p].kind == ts[p].kind)
      && forall p :: 0 <= p < |ts| && !Within(p, h, ts[h].order) ==> rs[p] == ts[p]
  {
    hide Base;
    RekindTiled(ts, top, h, Live);
    PutNotFreeCoalesced(ts, top, h, ts[h].order, Live);
    SplitDownEffect(Put(ts, h, ts[h].order, Live), top, h, ts[h].order, k);
    assert TileOk(ts, top, h);
  }

  // ---------------------------------------------------------------- _free

  /** The other half of the order-(k+1) window of an aligned `h`. */
  function Buddy(h: nat, k: nat): (b: nat) {
    if Base(h, k + 1) == h then h + Pow2(k) else Base(h, k + 1)
  }

  /** The XOR of the source finds the buddy, whatever aligned index it starts from. */
  lemma XorIsBuddy(h: nat, k: nat)
    requires Base(h, k) == h
    ensures Xor(h, Pow2(k)) == Buddy(h, k)
  {
    hide Base;
    XorBit(h, k);
    BaseStep(h, k);
  }

  /** The two halves of a window, and that a buddy below the top order is in range. */
  lemma BuddyHalves(ts: Tiling, top: nat, h: nat, k: nat)
    requires Base(|ts|, top) == |ts| && h < |ts| && k < top && Base(h, k) == h
    ensures var s, b := Base(h, k + 1), Buddy(h, k);
      && s + Pow2(k + 1) <= |ts| && b < |ts| && b != h
      && Base(s, k + 1) == s && Base(b, k) == b
      && ((h == s && b == s + Pow2(k)) || (b == s && h == s + Pow2(k)))
      && Buddy(b, k) == h
  {
    hide Base;
    var s := Base(h, k + 1);
    BaseOfMember(h, s, k + 1);
    AlignedDown(|ts|, k + 1, top);
    WindowBelow(h, |ts|, k + 1);
    BaseStep(h, k);
    UpperHalf(s, k);
  }

  /** The merging loop of `_free`, for the given-back block of order `k` at `h`. */
  ghost function Merge(ts: Tiling, top: nat, h: nat, k: nat): (r: Tiling)
    requires Tiled(ts, top) && h < |ts| && ts[h] == Tile(h, k, Live)
    ensures |r| == |ts|
    decreases top - k
  {
    assert TileOk(ts, top, h);
    if k >= top then Put(ts, h, k, OffList)
    else
      BuddyHalves(ts, top, h, k);
      if ts[Buddy(h, k)] == Tile(Buddy(h, k), k, Free) then
        MergeStepTiled(ts, top, h, k);
        Merge(Put(ts, Base(h, k + 1), k + 1, Live), top, Base(h, k + 1), k + 1)
      else Put(ts, h, k, Free)
  }

  lemma MergeStepTiled(ts: Tiling, top: nat, h: nat, k: nat)
    requires Tiled(ts, top) && h < |ts| && ts[h] == Tile(h, k, Live) && k < top
    requires Buddy(h, k) < |ts| && ts[Buddy(h, k)] == Tile(Buddy(h, k), k, Free)
    ensures var s := Base(h, k + 1);
      && s + Pow2(k + 1) <= |ts|
      && Tiled(Put(ts, s, k + 1, Live), top)
      && Put(ts, s, k + 1, Live)[s] == Tile(s, k + 1, Live)
      && forall p :: Within(p, s, k + 1) ==>
           (Within(p, h, k) && ts[p] == ts[h]) || (Within(p, Buddy(h, k), k) && ts[p] == ts[Buddy(h, k)])
  {
    hide Base;
    var s, b := Base(h, k + 1), Buddy(h, k);
    assert TileOk(ts, top, h) && TileOk(ts, top, b);
    BuddyHalves(ts, top, h, k);
    forall p | Within(p, s, k + 1)
      ensures (Within(p, h, k) && ts[p] == ts[h]) || (Within(p, b, k) && ts[p] == ts[b])
    {
      assert Within(p, h, k) || Within(p, b, k);
    }
    PutTiled(ts, top, s, k + 1, Live);
  }

  /** All pages of the top-order window around `h` other than the block itself are free. */
  ghost predicate RestFree(ts: Tiling, top: nat, h: nat, k: nat) {
    forall p :: 0 <= p < |ts| && Within(p, Base(h, top), top) && !Within(p, h, k) ==> ts[p].kind == Free
  }

  /** What `_free` does to every page: if the rest of its top-order window is free the
      whole window goes off the lists; otherwise exactly the block's pages become free. */
  ghost predicate Freed(ts: Tiling, rs: Tiling, top: nat, h: nat, k: nat) {
    && |rs| == |ts|
    && (forall p :: 0 <= p < |ts| && !Within(p, h, k) && ts[p].kind != Free ==> rs[p] == ts[p])
    && (forall p :: 0 <= p < |ts| && !Within(p, Base(h, top), top) ==> rs[p] == ts[p])
    && if RestFree(ts, top, h, k)
       then forall p :: 0 <= p < |ts| && Within(p, Base(h, top), top) ==>
              rs[p] == Tile(Base(h, top), top, OffList)
       else forall p :: 0 <= p < |ts| ==> rs[p].kind == if Within(p, h, k) then Free else ts[p].kind
  }

  /** A buddy that is not a free block of the same order contains a page that is not free. */
  lemma UnmergedIsBlocked(ts: Tiling, top: nat, h: nat, k: nat)
    requires Inv(ts, top) && h < |ts| && k < top && ts[h] == Tile(h, k, Live)
    requires Buddy(h, k) < |ts| && ts[Buddy(h, k)] != Tile(Buddy(h, k), k, Free)
    ensures !RestFree(ts, top, h, k)
  {
    hide Base;
    var s, b := Base(h, k + 1), Buddy(h, k);
    assert TileOk(ts, top, h) && TileOk(ts, top, b);
    BuddyHalves(ts, top, h, k);
    BaseNested(h, k + 1, top);
    assert forall p :: Within(p, b, k) ==> Within(p, Base(h, top), top) && !Within(p, h, k);
    if RestFree(ts, top, h, k) {
      WindowCovered(ts, top, b, k);
      assert Within(b, b, k);
      if ts[b].order > k {
        BigBlockCovers(ts, top, s, k + 1, b, h);
      }
    }
  }

  lemma PutFreeCoalesced(ts: Tiling, top: nat, h: nat, k: nat)
    requires Inv(ts, top) && h < |ts| && k < top && ts[h] == Tile(h, k, Live)
    requires Buddy(h, k) < |ts| && ts[Buddy(h, k)] != Tile(Buddy(h, k), k, Free)
    ensures h + Pow2(k) <= |ts| && Inv(Put(ts, h, k, Free), top)
  {
    hide Base;
    RekindTiled(ts, top, h, Free);
    HeadOfWindow(ts, top, h);
    BuddyHalves(ts, top, h, k);
    var rs := Put(ts, h, k, Free);
    forall g | 0 <= g < |rs| ensures !Twins(rs, top, g) {
      if g != h && g + Pow2(rs[g].order) != h {
        assert Twins(rs, top, g) ==> Twins(ts, top, g);
      } else if g != h && Base(g, k + 1) == g {
        UpperHalf(g, k);
      }
    }
  }

  lemma {:induction false} MergeEffect(ts: Tiling, top: nat, h: nat, k: nat)
    requires Inv(ts, top) && h < |ts| && ts[h] == Tile(h, k, Live)
    ensures Inv(Merge(ts, top, h, k), top)
    ensures Freed(ts, Merge(ts, top, h, k), top, h, k)
    decreases top - k
  {
    hide Base;
    assert TileOk(ts, top, h);
    if k >= top {
      MergeAtTop(ts, top, h);
    } else {
      HeadOfWindow(ts, top, h);
      BuddyHalves(ts, top, h, k);
      if ts[Buddy(h, k)] == Tile(Buddy(h, k), k, Free) {
        var ss := MergeStep(ts, top, h, k);
        MergeEffect(ss, top, Base(h, k + 1), k + 1);
        MergeStepFreed(ts, ss, Merge(ss, top, Base(h, k + 1), k + 1), top, h, k);
      } else {
        MergeStops(ts, top, h, k);
      }
    }
  }

  lemma MergeStep(ts: Tiling, top: nat, h: nat, k: nat) returns (ss: Tiling)
    requires Inv(ts, top) && h < |ts| && ts[h] == Tile(h, k, Live) && k < top
    requires Buddy(h, k) < |ts| && ts[Buddy(h, k)] == Tile(Buddy(h, k), k, Free)
    ensures Base(h, k + 1) + Pow2(k + 1) <= |ts|
    ensures ss == Put(ts, Base(h, k + 1), k + 1, Live)
    ensures Inv(ss, top) && ss[Base(h, k + 1)] == Tile(Base(h, k + 1), k + 1, Live)
    ensures Merge(ts, top, h, k) == Merge(ss, top, Base(h, k + 1), k + 1)
  {
    hide Base;
    MergeStepTiled(ts, top, h, k);
    PutNotFreeCoalesced(ts, top, Base(h, k + 1), k + 1, Live);
    ss := Put(ts, Base(h, k + 1), k + 1, Live);
  }

  lemma MergeAtTop(ts: Tiling, top: nat, h: nat)
    requires Inv(ts, top) && h < |ts| && ts[h] == Tile(h, top, Live)
    ensures h + Pow2(top) <= |ts|
    ensures Inv(Put(ts, h, top, OffList), top) && Freed(ts, Put(ts, h, top, OffList), top, h, top)
  {
    hide Base;
    assert TileOk(ts, top, h);
    RekindTiled(ts, top, h, OffList);
    PutNotFreeCoalesced(ts, top, h, top, OffList);
  }

  lemma MergeStops(ts: Tiling, top: nat, h: nat, k: nat)
    requires Inv(ts, top) && h < |ts| && k < top && ts[h] == Tile(h, k, Live)
    requires Buddy(h, k) < |ts| && ts[Buddy(h, k)] != Tile(Buddy(h, k), k, Free)
    ensures h + Pow2(k) <= |ts|
    ensures Inv(Put(ts, h, k, Free), top) && Freed(ts, Put(ts, h, k, Free), top, h, k)
  {
    hide Base;
    assert TileOk(ts, top, h);
    BaseNested(h, k, top);
    UnmergedIsBlocked(ts, top, h, k);
    PutFreeCoalesced(ts, top, h, k);
  }

  lemma MergeStepFreed(ts: Tiling, ss: Tiling, rs: Tiling, top: nat, h: nat, k: nat)
    requires Tiled(ts, top) && h < |ts| && ts[h] == Tile(h, k, Live) && k < top
    requires Buddy(h, k) < |ts| && ts[Buddy(h, k)] == Tile(Buddy(h, k), k, Free)
    requires Base(h, k + 1) + Pow2(k + 1) <= |ts| && ss == Put(ts, Base(h, k + 1), k + 1, Live)
    requires Freed(ss, rs, top, Base(h, k + 1), k + 1)
    ensures Freed(ts, rs, top, h, k)
  {
    hide Base;
    var s, b := Base(h, k + 1), Buddy(h, k);
    MergeStepTiled(ts, top, h, k);
    assert TileOk(ts, top, h);
    BuddyHalves(ts, top, h, k);
    BaseNested(h, k + 1, top);
    BaseOfMember(h, s, top);
    assert forall p :: Within(p, h, k) ==> Within(p, s, k + 1);
    assert forall p :: Within(p, s, k + 1) && !Within(p, h, k) ==> ts[p].kind == Free;
    assert RestFree(ts, top, h, k) ==> RestFree(ss, top, s, k + 1);
    assert RestFree(ss, top, s, k + 1) ==> RestFree(ts, top, h, k);
  }

  /** `_alloc` followed by `_free` of the same block restores every block exactly when the
      block that was taken had an order below the top; a top-order block is lost. */
  lemma AllocFreeRoundTrip(ts: Tiling, top: nat, h: nat, k: nat)
    requires Inv(ts, top) && h < |ts| && ts[h].head == h && ts[h].kind == Free && k <= ts[h].order
    ensures Inv(Take(ts, top, h, k), top) && Take(ts, top, h, k)[h] == Tile(h, k, Live)
    ensures Merge(Take(ts, top, h, k), top, h, k) == ts <==> ts[h].order < top
  {
    hide Base;
    TakeEffect(ts, top, h, k);
    var ss := Take(ts, top, h, k);
    assert Within(h, h, k);
    MergeEffect(ss, top, h, k);
    assert TileOk(ts, top, h);
    if ts[h].order == top {
      WindowOfHead(ts, top, h);
      assert RestFree(ss, top, h, k);
    } else {
      RoundTripBelowTop(ts, ss, top, h, k);
    }
  }

  /** Right after `mm_init` every block has the top order, so that the first block taken, whatever
      the order of the request, does not come back. */
  lemma FirstBlockLost(blocks: nat, top: nat, k: nat)
    requires blocks > 0 && k <= top
    ensures var ts := Initial(blocks, top);
      && Inv(ts, top) && |ts| > 0 && ts[0] == Tile(0, top, Free)
      && var ss := Take(ts, top, 0, k); Inv(ss, top) && ss[0] == Tile(0, k, Live) && Merge(ss, top, 0, k) != ts
  {
    hide Inv, Take, Merge;
    InitialInv(blocks, top);
    BaseZero(top);
    Positive(blocks, Pow2(top));
    AllocFreeRoundTrip(Initial(blocks, top), top, 0, k);
  }

  lemma Positive(a: nat, b: nat)
    requires a > 0 && b > 0
    ensures a * b > 0
  {
  }

  lemma RoundTripBelowTop(ts: Tiling, ss: Tiling, top: nat, h: nat, k: nat)
    requires Inv(ts, top) && h < |ts| && ts[h].head == h && ts[h].kind == Free && k <= ts[h].order < top
    requires Inv(ss, top) && ss == Take(ts, top, h, k) && ss[h] == Tile(h, k, Live)
    ensures Merge(ss, top, h, k) == ts
  {
    hide Base, Twins, Merge;
    TakeEffect(ts, top, h, k);
    MergeEffect(ss, top, h, k);
    var rs := Merge(ss, top, h, k);
    if RestFree(ss, top, h, k) {
      WindowOfHead(ts, top, h);
      forall p | Within(p, Base(h, top), top) ensures ts[p].kind == Free {
        assert Within(p, h, k) || ss[p].kind == Free;
      }
      WholeWindowIsTop(ts, top, h);
    }
    forall p | 0 <= p < |ts| ensures rs[p] == ts[p] {
      if ts[p].kind == Free {
        FreeBlocksCanonical(ts, rs, top, p);
      } else {
        assert ss[p] == ts[p] by {
          assert TileOk(ts, top, h);
        }
      }
    }
  }

  lemma WholeWindowIsTop(ts: Tiling, top: nat, h: nat)
    requires Inv(ts, top) && h < |ts|
    requires forall p :: 0 <= p < |ts| && Within(p, Base(h, top), top) ==> ts[p].kind == Free
    ensures ts[h].order == top
  {
    hide Base;
    var w := Base(h, top);
    WindowOfHead(ts, top, h);
    WindowCovered(ts, top, w, top);
    assert TileOk(ts, top, w);
    assert Within(h, w, top);
  }

  lemma WindowOfHead(ts: Tiling, top: nat, h: nat)
    requires Tiled(ts, top) && h < |ts|
    ensures Base(h, top) + Pow2(top) <= |ts| && Base(Base(h, top), top) == Base(h, top)
    ensures Within(h, Base(h, top), top)
  {
    hide Base;
    WindowBelow(h, |ts|, top);
    BaseOfMember(h, Base(h, top), top);
  }
}
