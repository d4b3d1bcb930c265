/** Agreement between the page table with its free lists and the tiling of the pages. */
module PageTable {
  import opened Bits
  import opened Sequences
  import opened Tiles
  import opened FreeLists

  /** What the table says about page `p`.  A head carries its order; its `entry` is itself
      when the block is free and null when somebody holds it (a block that went off the
      lists may keep a stale one).  A page inside a block has a null `entry` and no
      positive order, so it is never mistaken for a block. */
  ghost predicate PageOk(ps: seq<PageInfo>, ts: Tiling, p: nat)
    requires p < |ps| == |ts|
  {
    if ts[p].head == p then
      && ps[p].order == ts[p].order
      && (ts[p].kind == Free ==> ps[p].entry == p)
      && (ts[p].kind == Live || ts[p].kind == Reserved ==> ps[p].entry == NULL)
    else ps[p].order <= 0 && ps[p].entry == NULL
  }

  /** The table agrees with the tiling at every page but `except`. */
  ghost predicate Agree(ps: seq<PageInfo>, ts: Tiling, except: int) {
    |ps| == |ts| && forall p :: 0 <= p < |ps| && p != except ==> PageOk(ps, ts, p)
  }

  /** The free list of order `k` holds exactly the heads of free blocks of order `k`. */
  ghost predicate Members(ls: seq<seq<int>>, ts: Tiling) {
    && (forall k, p {:trigger p in ls[k]} :: 0 <= k < |ls| && p in ls[k] ==> 0 <= p < |ts| && ts[p] == Tile(p, k, Free))
    && (forall p :: 0 <= p < |ts| && ts[p].head == p && ts[p].kind == Free && ts[p].order < |ls| ==>
         p in ls[ts[p].order])
  }

  ghost predicate FreeHead(ts: Tiling, p: nat)
    requires p < |ts|
  {
    ts[p].head == p && ts[p].kind == Free
  }

  /** Apart from `e`, the same free blocks. */
  ghost predicate SameFreeBut(ts: Tiling, rs: Tiling, e: int) {
    |ts| == |rs| && forall p :: 0 <= p < |ts| && p != e && (FreeHead(ts, p) || FreeHead(rs, p)) ==> rs[p] == ts[p]
  }

  lemma MembersPush(ls: seq<seq<int>>, ts: Tiling, rs: Tiling, k: nat, e: nat)
    requires Members(ls, ts) && k < |ls| && e < |ts| && SameFreeBut(ts, rs, e)
    requires rs[e] == Tile(e, k, Free)
    requires forall j :: 0 <= j < |ls| ==> e !in ls[j]
    ensures Members(ls[k := [e] + ls[k]], rs)
  {
  }

  lemma MembersRemove(ls: seq<seq<int>>, ts: Tiling, rs: Tiling, k: nat, j: nat)
    requires Members(ls, ts) && k < |ls| && j < |ls[k]| && NoDup(ls[k])
    requires 0 <= ls[k][j] < |ts| && SameFreeBut(ts, rs, ls[k][j]) && !FreeHead(rs, ls[k][j])
    ensures Members(ls[k := Without(ls[k], j)], rs)
  {
    var e, m := ls[k][j], Without(ls[k], j);
    var ms := ls[k := m];
    assert e in ls[k];
    assert forall x :: x in m ==> x in ls[k] && x != e;
    forall x | x in ls[k] && x != e ensures x in m {
      var i :| 0 <= i < |ls[k]| && ls[k][i] == x;
      assert i < j ==> m[i] == x;
      assert i > j ==> m[i - 1] == x;
    }
    forall i, p | 0 <= i < |ms| && p in ms[i] ensures 0 <= p < |rs| && rs[p] == Tile(p, i, Free) {
      assert p in ls[i];
      assert p != e && FreeHead(ts, p);
    }
    forall p | 0 <= p < |rs| && FreeHead(rs, p) && rs[p].order < |ms| ensures p in ms[rs[p].order] {
      assert FreeHead(ts, p);
    }
  }

  lemma NotListed(ls: seq<seq<int>>, ts: Tiling, e: nat)
    requires Members(ls, ts) && e < |ts| && !FreeHead(ts, e)
    ensures forall j :: 0 <= j < |ls| ==> e !in ls[j]
  {
  }

  /** The table after a block was split in two, from the state of the page that becomes
      the head of the upper half. */
  lemma AgreeSplit(ps: seq<PageInfo>, qs: seq<PageInfo>, ts: Tiling, top: nat, b: nat, k: nat, low: Kind)
    requires |ps| == |qs| == |ts| && Agree(ps, ts, b) && Tiled(ts, top)
    requires b < |ts| && ts[b].head == b && ts[b].order == k + 1
    requires b + Pow2(k + 1) <= |ts|
    requires forall p :: 0 <= p < |ps| && p != b && p != b + Pow2(k) ==>
      qs[p].order == ps[p].order && qs[p].entry == ps[p].entry
    requires qs[b + Pow2(k)].order == k && qs[b + Pow2(k)].entry == b + Pow2(k)
    ensures Agree(qs, Split(ts, b, k, low, Free), b)
    ensures ts[b].kind == Live ==> SameFreeBut(ts, Split(ts, b, k, Live, Free), b + Pow2(k))
  {
    hide Base;
    var rs := Split(ts, b, k, low, Free);
    assert TileOk(ts, top, b);
    forall p | 0 <= p < |qs| && p != b ensures PageOk(qs, rs, p) {
      assert p != b + Pow2(k) ==> PageOk(ps, ts, p);
      assert Within(p, b, k + 1) ==> ts[p] == ts[b];
    }
  }

  lemma UpperHalfUnlisted(ls: seq<seq<int>>, ts: Tiling, top: nat, b: nat, k: nat)
    requires Members(ls, ts) && Tiled(ts, top) && b < |ts| && ts[b].head == b && ts[b].order == k + 1
    ensures b + Pow2(k) < b + Pow2(k + 1) <= |ts|
    ensures forall j :: 0 <= j < |ls| ==> b + Pow2(k) !in ls[j]
  {
    hide Base;
    assert TileOk(ts, top, b);
    assert Within(b + Pow2(k), b, k + 1);
    NotListed(ls, ts, b + Pow2(k));
  }

  /** The stages of `split`: the block leaves its list, then each half is listed. */
  lemma SplitStages(ts: Tiling, top: nat, b: nat, k: nat)
    requires Tiled(ts, top) && b < |ts| && ts[b] == Tile(b, k + 1, Free)
    ensures b + Pow2(k + 1) <= |ts| && Base(b, k) == b && Buddy(b, k) == b + Pow2(k)
    ensures var us, vs, ws := Put(ts, b, k + 1, Live), Split(ts, b, k, Free, Live), Split(ts, b, k, Free, Free);
      && SameFreeBut(ts, us, b) && !FreeHead(us, b)
      && SameFreeBut(us, vs, b) && vs[b] == Tile(b, k, Free) && !FreeHead(vs, b + Pow2(k))
      && SameFreeBut(vs, ws, b + Pow2(k)) && ws[b] == Tile(b, k, Free) && ws[b + Pow2(k)] == Tile(b + Pow2(k), k, Free)
      && Tiled(ws, top)
  {
    hide Base;
    assert TileOk(ts, top, b);
    HeadOfWindow(ts, top, b);
    UpperHalf(b, k);
    SplitTiled(ts, top, b, k, Free, Free);
    assert forall p :: Within(p, b, k + 1) ==> ts[p] == ts[b];
    assert Pow2(k + 1) == 2 * Pow2(k);
    assert forall p :: Within(p, b, k + 1) <==> Within(p, b, k) || Within(p, b + Pow2(k), k);
  }

  lemma AgreeMerge(ps: seq<PageInfo>, qs: seq<PageInfo>, ts: Tiling, top: nat, h: nat, k: nat)
    requires |ps| == |qs| == |ts| && Agree(ps, ts, h) && Tiled(ts, top) && k < top
    requires h < |ts| && ts[h] == Tile(h, k, Live)
    requires Buddy(h, k) < |ts| && ts[Buddy(h, k)] == Tile(Buddy(h, k), k, Free)
    requires Base(h, k + 1) + Pow2(k + 1) <= |ts|
    requires forall p :: 0 <= p < |ps| && p != h && p != Buddy(h, k) ==>
      qs[p].order == ps[p].order && qs[p].entry == ps[p].entry
    requires forall p :: (p == h || p == Buddy(h, k)) && p != Base(h, k + 1) ==>
      qs[p].order == -1 && qs[p].entry == NULL
    ensures Agree(qs, Put(ts, Base(h, k + 1), k + 1, Live), Base(h, k + 1))
    ensures SameFreeBut(ts, Put(ts, Base(h, k + 1), k + 1, Live), Buddy(h, k))
    ensures !FreeHead(Put(ts, Base(h, k + 1), k + 1, Live), Buddy(h, k))
  {
    hide Base;
    var s, b := Base(h, k + 1), Buddy(h, k);
    HeadOfWindow(ts, top, h);
    BuddyHalves(ts, top, h, k);
    MergeStepTiled(ts, top, h, k);
    var rs := Put(ts, s, k + 1, Live);
    forall p | 0 <= p < |qs| && p != s ensures PageOk(qs, rs, p) {
      assert p != h ==> PageOk(ps, ts, p);
    }
    assert Within(b, s, k + 1);
  }

  /** Changing only the holder of a block. */
  lemma AgreeRekind(ps: seq<PageInfo>, ts: Tiling, top: nat, h: nat, kind: Kind)
    requires |ps| == |ts| && Agree(ps, ts, h) && Tiled(ts, top) && h < |ts| && ts[h].head == h
    requires h + Pow2(ts[h].order) <= |ts|
    ensures Agree(ps, Put(ts, h, ts[h].order, kind), h)
    ensures SameFreeBut(ts, Put(ts, h, ts[h].order, kind), h)
  {
    hide Base;
    var rs := Put(ts, h, ts[h].order, kind);
    assert TileOk(ts, top, h);
    forall p | 0 <= p < |ps| && p != h ensures PageOk(ps, rs, p) {
      assert PageOk(ps, ts, p);
    }
  }

  lemma AgreeFrame(ps: seq<PageInfo>, qs: seq<PageInfo>, ts: Tiling, except: int)
    requires Agree(ps, ts, except) && |ps| == |qs|
    requires forall p :: 0 <= p < |ps| && p != except ==> qs[p].order == ps[p].order && qs[p].entry == ps[p].entry
    ensures Agree(qs, ts, except)
  {
    forall p | 0 <= p < |qs| && p != except ensures PageOk(qs, ts, p) {
      assert PageOk(ps, ts, p);
    }
  }

  lemma ShapeFrame(ps: seq<PageInfo>, qs: seq<PageInfo>, hs: seq<int>, ls: seq<seq<int>>)
    requires Shape(ps, hs, ls) && |ps| == |qs|
    requires forall k, x :: 0 <= k < |ls| && x in ls[k] && 0 <= x < |ps| ==>
      qs[x].idx == ps[x].idx && qs[x].prev == ps[x].prev && qs[x].next == ps[x].next
    ensures Shape(qs, hs, ls)
  {
    hide Linked;
    forall k | 0 <= k < |ls| ensures Linked(qs, hs[k], ls[k]) {
      LinkedFrame(ps, qs, hs[k], ls[k]);
    }
  }
}
