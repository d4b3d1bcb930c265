/** `reserve`: blocks around both ends of an interval of pages are split down to single
    pages, and then the blocks of the interval leave the free lists. */
module Carving {
  import opened Bits
  import opened Tiles

  /** One `split` test of the loop: the block of order `k` that starts the window of `p`. */
  ghost function CutAt(ts: Tiling, top: nat, p: nat, k: nat): (rs: Tiling)
    requires Tiled(ts, top) && p < |ts| && k >= 1
    ensures |rs| == |ts| && Tiled(rs, top)
  {
    var b := Base(p, k);
    if ts[b].head == b && ts[b].order == k then
      SplitTiled(ts, top, b, k - 1, Free, Free);
      Split(ts, b, k - 1, Free, Free)
    else ts
  }

  /** The splitting loop of `reserve`, from order `k` down to 1. */
  ghost function Carve(ts: Tiling, top: nat, lo: nat, hi: nat, k: nat): (rs: Tiling)
    requires Tiled(ts, top) && lo <= hi < |ts|
    ensures |rs| == |ts| && Tiled(rs, top)
    decreases k
  {
    if k == 0 then ts else Carve(CutAt(CutAt(ts, top, lo, k), top, hi, k), top, lo, hi, k - 1)
  }

  /** The blocks between pages `lo` and `end` pass to the reserver. */
  ghost function Mark(ts: Tiling, lo: nat, end: nat): (rs: Tiling)
    requires lo <= end <= |ts|
    ensures |rs| == |ts|
    ensures forall p :: 0 <= p < |ts| ==>
      rs[p] == if lo <= p < end then ts[p].(kind := Reserved) else ts[p]
  {
    seq(|ts|, p requires 0 <= p < |ts| => if lo <= p < end then ts[p].(kind := Reserved) else ts[p])
  }

  ghost function Reserve(ts: Tiling, top: nat, lo: nat, hi: nat): (rs: Tiling)
    requires Tiled(ts, top) && lo <= hi < |ts|
    ensures |rs| == |ts|
  {
    Mark(Carve(ts, top, lo, hi, top), lo, hi + 1)
  }

  /** The weakened coalescing invariant inside the loop: two free buddies only ever meet
      around an end of the interval. */
  ghost predicate TwinsOnlyAt(ts: Tiling, top: nat, lo: nat, hi: nat) {
    forall g :: 0 <= g < |ts| && Twins(ts, top, g) ==>
      Within(lo, g, ts[g].order + 1) || Within(hi, g, ts[g].order + 1)
  }

  /** Splitting changes no page's holder and only touches free blocks. */
  ghost predicate Refined(ts: Tiling, rs: Tiling) {
    && |rs| == |ts|
    && forall p :: 0 <= p < |ts| ==>
         rs[p].kind == ts[p].kind && rs[p].order <= ts[p].order && (ts[p].kind != Free ==> rs[p] == ts[p])
  }

  /** A page whose block has order at most `k` is in the block that `CutAt` tests exactly
      when that block has order `k`. */
  lemma CutFindsBlock(ts: Tiling, top: nat, p: nat, k: nat)
    requires Tiled(ts, top) && p < |ts| && ts[p].order <= k
    ensures ts[p].order == k ==> ts[Base(p, k)] == ts[p] && ts[p].head == Base(p, k)
    ensures ts[p].order < k ==> !(ts[Base(p, k)].head == Base(p, k) && ts[Base(p, k)].order == k)
  {
    hide Base;
    HeadOfWindow(ts, top, p);
    assert TileOk(ts, top, p);
    assert TileOk(ts, top, Base(p, k));
    assert Within(p, Base(p, k), k);
  }

  lemma CutEffect(ts: Tiling, top: nat, p: nat, k: nat, lo: nat, hi: nat)
    requires Tiled(ts, top) && lo <= hi < |ts| && (p == lo || p == hi) && k >= 1
    requires TwinsOnlyAt(ts, top, lo, hi) && ts[p].kind == Free && ts[p].order <= k
    ensures var rs := CutAt(ts, top, p, k);
      TwinsOnlyAt(rs, top, lo, hi) && Refined(ts, rs) && rs[p].order < k
  {
    hide Base, TwinsOnlyAt, Twins, Tiled, TileOk;
    CutFindsBlock(ts, top, p, k);
    if ts[p].order == k {
      SplitTwins(ts, top, Base(p, k), k - 1, lo, hi);
      SplitRefined(ts, top, Base(p, k), k - 1);
    }
  }

  lemma SplitRefined(ts: Tiling, top: nat, b: nat, k: nat)
    requires Tiled(ts, top) && b < |ts| && ts[b] == Tile(b, k + 1, Free)
    ensures b + Pow2(k + 1) <= |ts| && Refined(ts, Split(ts, b, k, Free, Free))
  {
    hide Base;
    assert TileOk(ts, top, b);
    assert forall p :: Within(p, b, k + 1) ==> ts[p] == ts[b];
    assert forall p :: Within(p, b, k) || Within(p, b + Pow2(k), k) ==> Within(p, b, k + 1);
  }

  /** Splitting a block makes no twins but its own two halves. */
  lemma SplitTwin(ts: Tiling, top: nat, b: nat, k: nat, g: nat)
    requires b + Pow2(k + 1) <= |ts| && Base(b, k + 1) == b && g < |ts| && g != b
    requires Twins(Split(ts, b, k, Free, Free), top, g)
    ensures Twins(ts, top, g) && Split(ts, b, k, Free, Free)[g] == ts[g]
  {
    hide Base;
    var rs := Split(ts, b, k, Free, Free);
    var j := rs[g].order;
    UpperHalf(b, k);
    UpperHalf(g, j);
    assert !Within(g, b, k) && g != b + Pow2(k);
    assert rs[b] == Tile(b, k, Free);
  }

  lemma SplitTwins(ts: Tiling, top: nat, b: nat, k: nat, lo: nat, hi: nat)
    requires Tiled(ts, top) && b < |ts| && ts[b] == Tile(b, k + 1, Free)
    requires TwinsOnlyAt(ts, top, lo, hi) && (Within(lo, b, k + 1) || Within(hi, b, k + 1))
    ensures b + Pow2(k + 1) <= |ts|
    ensures TwinsOnlyAt(Split(ts, b, k, Free, Free), top, lo, hi)
  {
    hide Base;
    HeadOfWindow(ts, top, b);
    assert TileOk(ts, top, b);
    hide Tiled, TileOk, Twins;
    var rs := Split(ts, b, k, Free, Free);
    forall g | 0 <= g < |rs| && Twins(rs, top, g)
      ensures Within(lo, g, rs[g].order + 1) || Within(hi, g, rs[g].order + 1)
    {
      if g != b {
        SplitTwin(ts, top, b, k, g);
      }
    }
  }

  lemma {:induction false} CarveEffect(ts: Tiling, top: nat, lo: nat, hi: nat, k: nat)
    requires Tiled(ts, top) && lo <= hi < |ts|
    requires TwinsOnlyAt(ts, top, lo, hi) && ts[lo].kind == Free && ts[hi].kind == Free
    requires ts[lo].order <= k && ts[hi].order <= k
    ensures var rs := Carve(ts, top, lo, hi, k);
      TwinsOnlyAt(rs, top, lo, hi) && Refined(ts, rs) && rs[lo].order == 0 && rs[hi].order == 0
    decreases k
  {
    hide Base, TwinsOnlyAt, Twins, Tiled, TileOk, CutAt;
    if k > 0 {
      var ss := CutAt(ts, top, lo, k);
      CutEffect(ts, top, lo, k, lo, hi);
      CutEffect(ss, top, hi, k, lo, hi);
      CarveEffect(CutAt(ss, top, hi, k), top, lo, hi, k - 1);
    }
  }

  /** When both ends share a window, the second test of a round does nothing. */
  lemma CutOnce(ts: Tiling, top: nat, lo: nat, hi: nat, k: nat)
    requires Tiled(ts, top) && lo <= hi < |ts| && k >= 1 && Base(lo, k) == Base(hi, k)
    ensures CutAt(CutAt(ts, top, lo, k), top, hi, k) == CutAt(ts, top, lo, k)
  {
    hide Base, Tiled;
  }

  /** The pages of a block that is given away, as one more step of `Mark`. */
  lemma MarkStep(ts: Tiling, top: nat, lo: nat, i: nat)
    requires Tiled(ts, top) && lo <= i < |ts| && ts[i].head == i
    ensures i + Pow2(ts[i].order) <= |ts|
    ensures Mark(ts, lo, i + Pow2(ts[i].order)) == Put(Mark(ts, lo, i), i, ts[i].order, Reserved)
    ensures i + Pow2(ts[i].order) < |ts| ==> ts[i + Pow2(ts[i].order)].head == i + Pow2(ts[i].order)
  {
    hide Base;
    var n := i + Pow2(ts[i].order);
    assert TileOk(ts, top, i);
    assert forall q :: Within(q, i, ts[i].order) ==> ts[q] == ts[i];
    if n < |ts| {
      assert TileOk(ts, top, n);
      HeadOfWindow(ts, top, n);
      assert Within(n - 1, i, ts[i].order);
      assert !Within(n - 1, ts[n].head, ts[n].order);
    }
  }

  /** Blocks do not straddle an end of the interval once both ends are single pages. */
  lemma SameSide(ts: Tiling, top: nat, lo: nat, hi: nat, p: nat, q: nat)
    requires Tiled(ts, top) && lo <= hi < |ts| && ts[lo].order == 0 && ts[hi].order == 0
    requires p < |ts| && Within(q, ts[p].head, ts[p].order)
    ensures lo <= p <= hi <==> lo <= q <= hi
  {
    hide Base;
    assert TileOk(ts, top, p);
    HeadOfWindow(ts, top, p);
    assert Pow2(0) == 1;
    if Within(lo, ts[p].head, ts[p].order) {
      assert ts[lo] == ts[p];
    } else if Within(hi, ts[p].head, ts[p].order) {
      assert ts[hi] == ts[p];
    }
  }

  lemma MarkInv(ts: Tiling, top: nat, lo: nat, hi: nat)
    requires Tiled(ts, top) && lo <= hi < |ts| && ts[lo].order == 0 && ts[hi].order == 0
    requires TwinsOnlyAt(ts, top, lo, hi)
    ensures Inv(Mark(ts, lo, hi + 1), top)
  {
    hide Base;
    var rs := Mark(ts, lo, hi + 1);
    forall p | 0 <= p < |rs| ensures TileOk(rs, top, p) {
      assert TileOk(ts, top, p);
      forall q | Within(q, ts[p].head, ts[p].order) ensures rs[q] == rs[p] {
        SameSide(ts, top, lo, hi, p, q);
      }
    }
    forall g | 0 <= g < |rs| ensures !Twins(rs, top, g) {
      assert Twins(rs, top, g) ==> Twins(ts, top, g);
      if Twins(ts, top, g) {
        EndInTwins(ts, top, lo, hi, g);
      }
    }
  }

  lemma EndInTwins(ts: Tiling, top: nat, lo: nat, hi: nat, g: nat)
    requires Tiled(ts, top) && lo <= hi < |ts| && ts[lo].order == 0 && ts[hi].order == 0
    requires TwinsOnlyAt(ts, top, lo, hi) && g < |ts| && Twins(ts, top, g)
    ensures lo <= g <= hi || lo <= g + Pow2(ts[g].order) <= hi
  {
    hide Base;
    var k := ts[g].order;
    var u := g + Pow2(k);
    var e := if Within(lo, g, k + 1) then lo else hi;
    assert Within(e, g, k + 1);
    HeadOfWindow(ts, top, e);
    assert TileOk(ts, top, g) && TileOk(ts, top, u);
    assert Within(e, g, k) || Within(e, u, k);
  }

  /** `reserve` is exact: precisely the pages lo..hi leave the free pages, every block held
      by someone else is untouched, and the coalescing invariant holds again. */
  lemma ReserveExact(ts: Tiling, top: nat, lo: nat, hi: nat)
    requires Inv(ts, top) && lo <= hi < |ts|
    requires forall p :: lo <= p <= hi ==> ts[p].kind == Free
    ensures var rs := Reserve(ts, top, lo, hi);
      && Inv(rs, top)
      && (forall p :: 0 <= p < |ts| ==> rs[p].kind == if lo <= p <= hi then Reserved else ts[p].kind)
      && forall p :: 0 <= p < |ts| && ts[p].kind != Free ==> rs[p] == ts[p]
  {
    hide Base;
    assert TileOk(ts, top, lo) && TileOk(ts, top, hi);
    CarveEffect(ts, top, lo, hi, top);
    MarkInv(Carve(ts, top, lo, hi, top), top, lo, hi);
  }
}
