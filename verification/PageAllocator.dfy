/** The page allocator: a page table updated in place and one free list per order. */
module PageAllocator {
  import opened Bits
  import opened Sequences
  import opened Tiles
  import opened Carving
  import opened PageRuns
  import opened FreeLists
  import opened PageTable

  const PAGE_SIZE: nat := 4096

  /** `size` rounded up to whole pages. */
  function Round(size: nat): (r: nat)
    ensures r % PAGE_SIZE == 0 && size <= r < size + PAGE_SIZE
  {
    if size % PAGE_SIZE == 0 then size else (size / PAGE_SIZE + 1) * PAGE_SIZE
  }

  /** `k` is the least order whose blocks hold `size` bytes. */
  ghost predicate IsOrderOf(size: nat, k: nat) {
    size <= Pow2(k) * PAGE_SIZE && (k > 0 ==> Pow2(k - 1) * PAGE_SIZE < size)
  }

  method GetOrder(size: nat) returns (order: nat)
    requires size % PAGE_SIZE == 0
    ensures IsOrderOf(size, order)
  {
    var pages := size / PAGE_SIZE;
    order := 0;
    while Pow2(order) < pages
      invariant order > 0 ==> Pow2(order - 1) < pages
      decreases pages - Pow2(order)
    {
      order := order + 1;
    }
  }

  /** Tags and every other field the page allocator does not own. */
  ghost predicate SameTags(ps: seq<PageInfo>, qs: seq<PageInfo>) {
    |ps| == |qs| && forall p :: 0 <= p < |ps| ==> qs[p].cacheOrder == ps[p].cacheOrder
  }

  /** How the address that `_alloc` returns tells which step of a run it made. */
  ghost predicate AnswersRequest(size: nat, addr: nat, op: Op) {
    && (op.Allocating? || op.Refusing?)
    && IsOrderOf(size, op.order)
    && addr == if op.Allocating? then op.block * PAGE_SIZE else 0
  }

  /** `h` is the first block of the lowest non-empty free list from order `k` up. */
  ghost predicate FirstFit(ls: seq<seq<int>>, k: nat, h: nat) {
    exists i :: k <= i < |ls| && ls[i] != [] && ls[i][0] == h && forall j :: k <= j < i ==> ls[j] == []
  }

  /** What a request of order `k` does to the lists when it takes the first block `h` of list `i`:
      that list loses it, and each lower one down to `k` gets an upper half in front. */
  ghost predicate TakenLists(ls: seq<seq<int>>, ms: seq<seq<int>>, h: nat, i: nat, k: nat) {
    && |ms| == |ls| && i < |ls| && ls[i] != [] && ls[i][0] == h && ms[i] == ls[i][1..]
    && forall j :: 0 <= j < |ls| && j != i ==> ms[j] == if k <= j < i then [h + Pow2(j)] + ls[j] else ls[j]
  }

  /** The heads of the first `n` blocks of the top order, the last one first. */
  ghost predicate TopList(l: seq<int>, n: nat, top: nat) {
    |l| == n && forall i :: 0 <= i < n ==> l[i] == (n - 1 - i) * Pow2(top)
  }

  lemma TopListEmpty(l: seq<int>, top: nat)
    requires l == []
    ensures TopList(l, 0, top)
  {
  }

  lemma TopListNext(l: seq<int>, n: nat, top: nat)
    requires TopList(l, n, top)
    ensures TopList([n * Pow2(top)] + l, n + 1, top)
    ensures (n + 1) * Pow2(top) == n * Pow2(top) + Pow2(top)
  {
  }

  lemma SameMultiple(a: nat, b: nat, w: nat)
    requires a * w == b * w && w > 0
    ensures a == b
  {
  }

  /** A list is the old one, or the old one with one block in front, or without one block. */
  ghost predicate Relisted(l: seq<int>, m: seq<int>) {
    m == l || (m != [] && m[1..] == l) || exists j :: 0 <= j < |l| && m == Without(l, j)
  }

  ghost predicate RelistedAll(ls: seq<seq<int>>, ms: seq<seq<int>>) {
    |ms| == |ls| && forall k :: 0 <= k < |ls| ==> Relisted(ls[k], ms[k])
  }

  /** The same, with nothing done yet from order `k` on. */
  ghost predicate RelistedFrom(ls: seq<seq<int>>, ms: seq<seq<int>>, k: nat) {
    RelistedAll(ls, ms) && forall j :: k <= j < |ls| ==> ms[j] == ls[j]
  }

  /** Splitting a block of order `k`: one list loses it, the next lower one gets its halves in front. */
  ghost predicate SplitLists(ls: seq<seq<int>>, ms: seq<seq<int>>, k: nat, low: int, high: int) {
    && 0 < k < |ls| == |ms| && Relisted(ls[k], ms[k])
    && ms[k - 1] == [high, low] + ls[k - 1] && ms == ls[k := ms[k]][k - 1 := ms[k - 1]]
  }

  lemma SplitListed(ls: seq<seq<int>>, k: nat, j: nat, low: int, high: int)
    requires 0 < k < |ls| && j < |ls[k]|
    ensures var ms := ls[k := Without(ls[k], j)];
      var ns := ms[k - 1 := [low] + ms[k - 1]];
      SplitLists(ls, ns[k - 1 := [high] + ns[k - 1]], k, low, high)
  {
    assert [high] + ([low] + ls[k - 1]) == [high, low] + ls[k - 1];
  }

  lemma RelistedNone(ls: seq<seq<int>>, k: nat)
    ensures RelistedFrom(ls, ls, k)
  {
  }

  lemma RelistedMerge(ls: seq<seq<int>>, ms: seq<seq<int>>, k: nat)
    requires RelistedFrom(ls, ms, k)
    ensures forall m :: k < |ms| && Relisted(ms[k], m) ==> RelistedFrom(ls, ms[k := m], k + 1)
  {
    hide Relisted;
  }

  lemma RelistedEnd(ls: seq<seq<int>>, ms: seq<seq<int>>, k: nat, e: int)
    requires RelistedFrom(ls, ms, k)
    ensures k < |ms| ==> RelistedAll(ls, ms[k := [e] + ms[k]])
  {
  }

  lemma RelistedTop(ls: seq<seq<int>>, ms: seq<seq<int>>, k: nat)
    requires RelistedFrom(ls, ms, k)
    ensures RelistedAll(ls, ms)
  {
  }

  /** Before a request of order `k`: the answer will be null, because no aligned window of that
      size is entirely free, or because the first block in line is the one at page 0, whose
      address is null. */
  ghost predicate NullFor(ls: seq<seq<int>>, ts: Tiling, k: nat) {
    (forall w: nat :: !FreeWindow(ts, k, w)) || FirstFit(ls, k, 0)
  }

  /** `ts` with the block at `e` in the hands of somebody who may give it back. */
  ghost function Taken(ts: Tiling, top: nat, e: nat): (rs: Tiling)
    requires Tiled(ts, top) && e < |ts| && ts[e].head == e
    ensures |rs| == |ts| && Tiled(rs, top) && rs[e] == Tile(e, ts[e].order, Live)
  {
    RekindTiled(ts, top, e, Live);
    Put(ts, e, ts[e].order, Live)
  }

  class Allocator {
    const blocks: nat
    const top: nat              // MAX_ORDER - 1
    const pages: array<PageInfo>
    const freeList: array<int>

    ghost var lists: seq<seq<int>>
    ghost var tiles: Tiling

    /** The links are well formed. */
    ghost predicate Shaped()
      reads this, pages, freeList
    {
      && pages.Length == blocks * Pow2(top)
      && |lists| == freeList.Length == top + 1
      && Shape(pages[..], freeList[..], lists)
    }

    /** Table, lists and tiling agree, except that page `except` is being worked on. */
    ghost predicate Consistent(except: int)
      reads this, pages, freeList
    {
      && Shaped()
      && |tiles| == pages.Length
      && Members(lists, tiles)
      && Agree(pages[..], tiles, except)
      && Tiled(tiles, top)
    }

    ghost predicate ValidBut(except: int)
      reads this, pages, freeList
    {
      Consistent(except) && Coalesced(tiles, top)
    }

    ghost predicate Valid()
      reads this, pages, freeList
    {
      ValidBut(NULL)
    }

    /** `mm_init`. */
    constructor (blocks: nat, top: nat)
      ensures this.blocks == blocks && this.top == top
      ensures fresh(pages) && fresh(freeList)
      ensures Valid() && tiles == Initial(blocks, top)
      ensures |lists| == top + 1 && TopList(lists[top], blocks, top)
      ensures forall p :: 0 <= p < pages.Length ==> pages[p].cacheOrder == -1
    {
      this.blocks, this.top := blocks, top;
      freeList := new int[top + 1](_ => NULL);
      pages := new PageInfo[blocks * Pow2(top)](_ => PageInfo(0, 0, 0, NULL, NULL, NULL));
      lists := seq(top + 1, _ => []);
      tiles := Initial(blocks, top);
      new;
      InitialInv(blocks, top);
      ListTopBlocks();
      TagPages();
    }

    /** The first loop of `mm_init`. */
    method ListTopBlocks()
      requires Shaped() && tiles == Initial(blocks, top) && Inv(tiles, top)
      requires forall k :: 0 <= k <= top ==> lists[k] == []
      requires forall p :: 0 <= p < pages.Length ==> pages[p].order == 0 && pages[p].entry == NULL
      modifies pages, freeList, this`lists
      ensures Valid() && |lists| == top + 1 && TopList(lists[top], blocks, top)
    {
      hide Base, Tiled, TileOk, Coalesced, Shape, Members, Agree, TopList;
      var i := 0;
      ghost var n := 0;
      TopListEmpty(lists[top], top);
      BaseZero(top);
      TiledLength(tiles, top);
      while i < pages.Length
        invariant 0 <= i <= pages.Length && Base(i, top) == i
        invariant Shaped()
        invariant i == n * Pow2(top) && |lists| == top + 1 && TopList(lists[top], n, top)
        invariant forall k :: 0 <= k < top ==> lists[k] == []
        invariant forall p :: p in lists[top] <==> 0 <= p < i && Base(p, top) == p
        invariant forall p :: 0 <= p < pages.Length && !(p < i && Base(p, top) == p) ==>
          pages[p].order == 0 && pages[p].entry == NULL
        invariant forall p :: 0 <= p < i && Base(p, top) == p ==> pages[p].order == top && pages[p].entry == p
        decreases pages.Length - i
      {
        WindowBelow(i, pages.Length, top);
        AlignedNext(i, top);
        TopListNext(lists[top], n, top);
        ListBlock(i);
        forall p: nat | i <= p < i + Pow2(top) ensures Base(p, top) == i {
          BaseOfMember(i, p, top);
        }
        i := i + Pow2(top);
        n := n + 1;
      }
      SameMultiple(n, blocks, Pow2(top));
      InitialMembers(lists, tiles, blocks, top);
      InitialAgrees(pages[..], tiles, blocks, top);
    }

    /** One round of that loop: the block at `i` is described and listed. */
    method ListBlock(i: nat)
      requires Shaped() && i < pages.Length && forall k :: 0 <= k <= top ==> i !in lists[k]
      modifies pages, freeList, this`lists
      ensures Shaped() && lists == old(lists)[top := [i] + old(lists)[top]]
      ensures pages[i].order == top && pages[i].entry == i
      ensures forall p :: 0 <= p < pages.Length && p != i ==>
        pages[p].order == old(pages[p].order) && pages[p].entry == old(pages[p].entry)
    {
      hide Shape;
      ghost var ps := pages[..];
      pages[i] := pages[i].(idx := i);
      ShapeFrame(ps, pages[..], freeList[..], lists);
      AddToFreeList(i, top);
      ghost var qs := pages[..];
      pages[i] := pages[i].(order := top);
      pages[i] := pages[i].(entry := i);
      ShapeFrame(qs, pages[..], freeList[..], lists);
    }

    /** The last loop of `mm_init`. */
    method TagPages()
      requires Valid()
      modifies pages
      ensures Valid() && forall p :: 0 <= p < pages.Length ==> pages[p].cacheOrder == -1
    {
      hide Base, Tiled, TileOk, Coalesced, Shape, Members, Agree;
      var i := 0;
      ghost var ps := pages[..];
      while i < pages.Length
        invariant 0 <= i <= pages.Length
        invariant forall p :: 0 <= p < pages.Length ==> pages[p] == if p < i then ps[p].(cacheOrder := -1) else ps[p]
      {
        pages[i] := pages[i].(cacheOrder := -1);
        i := i + 1;
      }
      ShapeFrame(ps, pages[..], freeList[..], lists);
      AgreeFrame(ps, pages[..], tiles, NULL);
    }

    // -------------------------------------------------------------- list primitives

    method AddToFreeList(e: int, k: int)
      requires Shaped()
      requires e != NULL ==> 0 <= e < pages.Length && pages[e].idx == e && forall j :: 0 <= j < |lists| ==>
        e !in lists[j]
      modifies pages, freeList, this`lists
      ensures Shaped()
      ensures SameButLinks(old(pages[..]), pages[..])
      ensures lists == if e == NULL || k < 0 || k > top then old(lists) else old(lists)[k := [e] + old(lists)[k]]
    {
      if e == NULL || k < 0 || k > top {
        return;
      }
      ghost var ps, hs := pages[..], freeList[..];
      assert Linked(ps, hs[k], lists[k]);
      assert freeList[k] != NULL ==> NodeOk(ps, lists[k], 0) && freeList[k] in lists[k];
      if freeList[k] == NULL {
        freeList[k] := e;
        pages[e] := pages[e].(next := NULL);
        pages[e] := pages[e].(prev := NULL);
      } else {
        pages[freeList[k]] := pages[freeList[k]].(prev := e);
        pages[e] := pages[e].(prev := NULL);
        pages[e] := pages[e].(next := freeList[k]);
        freeList[k] := e;
      }
      assert freeList[..] == hs[k := e];
      ShapePush(ps, pages[..], hs, lists, k, e);
      lists := lists[k := [e] + lists[k]];
    }

    method RmFromFreeList(e: int, k: int) returns (ghost j: nat)
      requires Shaped()
      requires e != NULL && 0 <= k <= top ==> e in lists[k]
      modifies pages, freeList, this`lists
      ensures Shaped()
      ensures SameButLinks(old(pages[..]), pages[..])
      ensures if e == NULL || k < 0 || k > top then lists == old(lists)
              else j < |old(lists)[k]| && old(lists)[k][j] == e && lists == old(lists)[k := Without(old(lists)[k], j)]
    {
      j := 0;
      if e == NULL || k < 0 || k > top {
        return;
      }
      ghost var ps, hs, l := pages[..], freeList[..], lists[k];
      j :| j < |l| && l[j] == e;
      RemovalFacts(ps, hs, lists, k, j);
      if freeList[k] == e {
        freeList[k] := pages[e].next;
        if pages[e].next != NULL {
          pages[pages[e].next] := pages[pages[e].next].(prev := NULL);
        }
      } else {
        if pages[e].prev != NULL {
          pages[pages[e].prev] := pages[pages[e].prev].(next := pages[e].next);
        }
        if pages[e].next != NULL {
          pages[pages[e].next] := pages[pages[e].next].(prev := pages[e].prev);
        }
      }
      pages[e] := pages[e].(next := NULL);
      pages[e] := pages[e].(prev := NULL);
      assert freeList[..] == hs[k := At(Without(l, j), 0)];
      ShapeRemove(ps, pages[..], hs, lists, k, j);
      lists := lists[k := Without(l, j)];
    }

    // -------------------------------------------------------------- _alloc

    /** One round of the splitting loop: the upper half of the block at `b` is listed. */
    method SplitOff(b: nat, i: nat)
      requires b < pages.Length && ValidBut(b) && i < top
      requires tiles[b] == Tile(b, i + 1, Live) && pages[b].idx == b
      modifies pages, freeList, this`lists, this`tiles
      ensures ValidBut(b) && pages[b].idx == b
      ensures SameTags(old(pages[..]), pages[..])
      ensures old(b + Pow2(i + 1) <= |tiles|) && tiles == Split(old(tiles), b, i, Live, Free)
      ensures lists == old(lists)[i := [b + Pow2(i)] + old(lists)[i]]
    {
      hide Base, Tiled, TileOk, Coalesced, Shape, Members, Agree, SameFreeBut;
      ghost var ps, ts, ls := pages[..], tiles, lists;
      SplitCoalesced(ts, top, b, i);
      UpperHalfUnlisted(ls, ts, top, b, i);
      var n := b + Pow2(i);
      pages[n] := pages[n].(idx := pages[b].idx + Pow2(i));
      ShapeFrame(ps, pages[..], freeList[..], ls);
      AddToFreeList(n, i);
      ghost var qs := pages[..];
      pages[pages[n].idx] := pages[pages[n].idx].(order := i);
      pages[pages[n].idx] := pages[pages[n].idx].(entry := n);
      ShapeFrame(qs, pages[..], freeList[..], lists);
      AgreeSplit(ps, pages[..], ts, top, b, i, Live);
      tiles := Split(ts, b, i, Live, Free);
      MembersPush(ls, ts, tiles, i, n);
    }

    /** Unlisting a free block: from here on nobody finds it. */
    method Detach(e: int, k: nat) returns (ghost j: nat)
      requires Valid() && 0 <= e < |tiles| && tiles[e] == Tile(e, k, Free)
      modifies pages, freeList, this`lists, this`tiles
      ensures ValidBut(e) && pages[e].idx == e && SameTags(old(pages[..]), pages[..])
      ensures SameButLinks(old(pages[..]), pages[..])
      ensures old(e + Pow2(k) <= |tiles|) && tiles == Put(old(tiles), e, k, Live)
      ensures Inv(tiles, top) && tiles[e] == Tile(e, k, Live)
      ensures k < |lists| && j < |old(lists)[k]| && old(lists)[k][j] == e
      ensures lists == old(lists)[k := Without(old(lists)[k], j)]
    {
      hide Base, TileOk, Twins, Linked, Agree;
      ghost var ps, ls, ts := pages[..], lists, tiles;
      DetachFacts(ps, freeList[..], ls, ts, top, e, k);
      j := RmFromFreeList(e, k);
      RekindTiled(ts, top, e, Live);
      PutNotFreeCoalesced(ts, top, e, k, Live);
      AgreeFrame(ps, pages[..], ts, e);
      AgreeRekind(pages[..], ts, top, e, Live);
      tiles := Put(ts, e, k, Live);
      MembersRemove(ls, ts, tiles, k, j);
    }

    /** The splitting loop: the block at `b` shrinks from order `i` to `order`. */
    method SplitTo(b: nat, i: nat, order: nat, ghost ls: seq<seq<int>>)
      requires b < pages.Length && ValidBut(b) && order <= i <= top
      requires tiles[b] == Tile(b, i, Live) && pages[b].idx == b && TakenLists(ls, lists, b, i, i)
      modifies pages, freeList, this`lists, this`tiles
      ensures ValidBut(b) && pages[b].idx == b && SameTags(old(pages[..]), pages[..])
      ensures tiles == SplitDown(old(tiles), top, b, i, order) && tiles[b] == Tile(b, order, Live)
      ensures TakenLists(ls, lists, b, i, order)
    {
      hide Base, TileOk, Coalesced, Agree, Tiled, TakenLists, Shape, Members;
      var r := i;
      while r > order
        invariant order <= r <= i
        invariant ValidBut(b) && pages[b].idx == b && SameTags(old(pages[..]), pages[..])
        invariant tiles[b] == Tile(b, r, Live) && TakenLists(ls, lists, b, i, r)
        invariant SplitDown(tiles, top, b, r, order) == SplitDown(old(tiles), top, b, i, order)
      {
        r := r - 1;
        TakenNext(ls, lists, b, i, r);
        SplitOff(b, r);
      }
    }

    /** `_alloc` once a non-empty list is found: unlist its first block and split it. */
    method TakeFrom(i: nat, order: nat) returns (addr: nat, ghost h: nat)
      requires Valid() && order <= i <= top && lists[i] != []
      modifies pages, freeList, this`lists, this`tiles
      ensures Valid() && SameTags(old(pages[..]), pages[..])
      ensures h < old(|tiles|) && old(tiles)[h] == Tile(h, i, Free) && h == old(lists)[i][0]
      ensures tiles == Take(old(tiles), top, h, order)
      ensures TakenLists(old(lists), lists, h, i, order)
      ensures addr == h * PAGE_SIZE
    {
      hide Base, TileOk, Coalesced, Agree, Linked, Disjoint, Tiled, TakenLists;
      HeadListed(pages[..], freeList[..], lists, tiles, i);
      var block := freeList[i];
      h := block;
      ghost var ls := lists;
      FirstOnce(pages[..], freeList[..], ls, i);
      ghost var j := Detach(block, i);
      TakenFirst(ls, lists, h, i, j);
      SplitTo(block, i, order, ls);
      ghost var ps := pages[..];
      pages[pages[block].idx] := pages[pages[block].idx].(order := order);
      pages[pages[block].idx] := pages[pages[block].idx].(entry := NULL);
      ShapeFrame(ps, pages[..], freeList[..], lists);
      AgreeFrame(ps, pages[..], tiles, h);
      AgreeClose(pages[..], tiles, h);
      addr := pages[block].idx * PAGE_SIZE;
    }

    method AllocPages(size: nat) returns (addr: nat, ghost op: Op)
      requires Valid()
      modifies pages, freeList, this`lists, this`tiles
      ensures Valid() && SameTags(old(pages[..]), pages[..])
      ensures size == 0 || size > PAGE_SIZE * Pow2(top) ==> addr == 0 && tiles == old(tiles) && lists == old(lists)
      ensures 0 < size <= PAGE_SIZE * Pow2(top) ==>
        && AnswersRequest(size, addr, op)
        && Enabled(old(tiles), top, op)
        && tiles == After(old(tiles), top, op)
        && (op.Allocating? ==>
             && FirstFit(old(lists), op.order, op.block)
             && TakenLists(old(lists), lists, op.block, old(tiles)[op.block].order, op.order))
        && (op.Refusing? ==> lists == old(lists))
        && (addr == 0 <==> NullFor(old(lists), old(tiles), op.order))
    {
      hide Base, TileOk, Coalesced, Agree, Disjoint, Linked, Members, NullFor;
      addr, op := 0, Refusing(0);
      if size == 0 || size > PAGE_SIZE * Pow2(top) {
        return;
      }
      var order := GetOrder(Round(size));
      OrderOfRounded(size, order, top);
      op := Refusing(order);
      var i := order;
      while i < top + 1
        invariant order <= i <= top + 1
        invariant Valid() && tiles == old(tiles) && lists == old(lists) && pages[..] == old(pages[..])
        invariant forall j :: order <= j < i ==> lists[j] == []
      {
        assert Linked(pages[..], freeList[..][i], lists[i]);
        ListEmpty(pages[..], freeList[..], lists, i);
        if freeList[i] != NULL {
          ghost var h: nat;
          BestFromFirstList(lists, tiles, top, order, i);
          addr, h := TakeFrom(i, order);
          op := Allocating(order, h);
          NullIff(old(lists), old(tiles), top, size, addr, op);
          return;
        }
        i := i + 1;
      }
      NoneFits(lists, tiles, top, order);
      NullIff(lists, tiles, top, size, addr, op);
    }

    // -------------------------------------------------------------- _free

    /** One round of the merging loop: the block at `curr` absorbs its free buddy. */
    method MergeBuddy(curr: nat, buddy: nat, k: nat) returns (smaller: nat)
      requires curr < pages.Length && ValidBut(curr) && k < top
      requires tiles[curr] == Tile(curr, k, Live) && buddy == Buddy(curr, k)
      requires buddy < |tiles| && tiles[buddy] == Tile(buddy, k, Free)
      modifies pages, freeList, this`lists, this`tiles
      ensures smaller == Base(curr, k + 1) && smaller + Pow2(k + 1) <= |tiles|
      ensures ValidBut(smaller) && pages[smaller].order == k + 1 && SameTags(old(pages[..]), pages[..])
      ensures tiles[smaller] == Tile(smaller, k + 1, Live)
      ensures Merge(tiles, top, smaller, k + 1) == Merge(old(tiles), top, curr, k)
      ensures k < |old(lists)| && Relisted(old(lists)[k], lists[k]) && lists == old(lists)[k := lists[k]]
    {
      hide Base, TileOk, Twins, Linked, Agree, Merge, SameFreeBut, Tiled, Coalesced, Shape, Members;
      ghost var ps, ls, ts := pages[..], lists, tiles;
      HeadOfWindow(ts, top, curr);
      TiledLength(ts, top);
      BuddyHalves(ts, top, curr, k);
      BuddyListed(ps, freeList[..], ls, ts, top, curr, k);
      ghost var j := RmFromFreeList(buddy, k);
      ghost var qs := pages[..];
      var bigger := if curr > buddy then curr else buddy;
      smaller := if curr < buddy then curr else buddy;
      pages[smaller] := pages[smaller].(order := k + 1);
      pages[bigger] := pages[bigger].(order := -1);
      pages[bigger] := pages[bigger].(entry := NULL);
      ShapeFrame(qs, pages[..], freeList[..], lists);
      AgreeMerge(ps, pages[..], ts, top, curr, k);
      tiles := MergeStep(ts, top, curr, k);
      MembersRemove(ls, ts, tiles, k, j);
    }

    method FreePages(ptr: nat)
      requires Valid()
      requires ptr != 0 && ptr / PAGE_SIZE < |tiles| ==> tiles[ptr / PAGE_SIZE].head == ptr / PAGE_SIZE
      modifies pages, freeList, this`lists, this`tiles
      ensures Valid() && SameTags(old(pages[..]), pages[..])
      ensures ptr == 0 || ptr / PAGE_SIZE >= |tiles| || old(tiles)[ptr / PAGE_SIZE].kind in {Kind.Free, OffList}
        ==> tiles == old(tiles) && lists == old(lists) && pages[..] == old(pages[..])
      ensures RelistedAll(old(lists), lists)
      ensures ptr != 0 && ptr / PAGE_SIZE < |tiles| && old(tiles)[ptr / PAGE_SIZE].kind == Live ==>
        && Enabled(old(tiles), top, Freeing(ptr / PAGE_SIZE))
        && tiles == After(old(tiles), top, Freeing(ptr / PAGE_SIZE))
      ensures ptr != 0 && ptr / PAGE_SIZE < |tiles| && old(tiles)[ptr / PAGE_SIZE].kind == Reserved ==>
        var ts := Taken(old(tiles), top, ptr / PAGE_SIZE);
        && Enabled(ts, top, Freeing(ptr / PAGE_SIZE))
        && tiles == After(ts, top, Freeing(ptr / PAGE_SIZE))
    {
      hide Base, TileOk, Twins, Linked, Agree, Tiled, Coalesced, Members, Disjoint, Merge, RelistedAll;
      RelistedNone(lists, 0);
      RelistedTop(lists, lists, 0);
      if ptr == 0 {
        return;
      }
      var original := ptr / PAGE_SIZE;
      if original >= pages.Length {
        return;
      }
      AgreeOpen(pages[..], tiles, original);
      if pages[original].entry != NULL {
        return;
      }
      if tiles[original].kind == OffList {
        OffListIsTop(tiles, top, original);
      } else if tiles[original].kind == Reserved {
        TakeReserved(original);
        AgreeOpen(pages[..], tiles, original);
      }
      CoalesceFrom(original, pages[original].order);
    }

    /** Nothing in the table tells a reserved block from an allocated one. */
    ghost method TakeReserved(e: nat)
      requires Valid() && e < |tiles| && tiles[e].head == e && tiles[e].kind == Reserved
      modifies this`tiles
      ensures Valid() && tiles == Taken(old(tiles), top, e) && tiles[e] == Tile(e, old(tiles)[e].order, Live)
    {
      hide Base, TileOk, Twins, Linked, Agree, Tiled, Coalesced, Disjoint, SameFreeBut, Members, Shape;
      ghost var ts := tiles;
      AgreeOpen(pages[..], ts, e);
      RekindTiled(ts, top, e, Live);
      PutNotFreeCoalesced(ts, top, e, ts[e].order, Live);
      AgreeRekind(pages[..], ts, top, e, Live);
      tiles := Taken(ts, top, e);
      AgreeClose(pages[..], tiles, e);
      MembersSame(lists, ts, tiles, e);
    }

    /** The loop of `_free`: climb one order as long as the buddy is free. */
    method CoalesceFrom(original: nat, originalOrder: nat)
      requires original < |tiles| && ValidBut(original) && pages[original].order == originalOrder
      requires tiles[original] == Tile(original, originalOrder, Live)
               || (Valid() && tiles[original] == Tile(original, top, OffList) && originalOrder == top)
      modifies pages, freeList, this`lists, this`tiles
      ensures Valid() && SameTags(old(pages[..]), pages[..])
      ensures old(tiles)[original].kind == Live ==> tiles == Merge(old(tiles), top, original, originalOrder)
      ensures old(tiles)[original].kind == OffList ==>
        tiles == old(tiles) && lists == old(lists) && pages[..] == old(pages[..])
      ensures RelistedAll(old(lists), lists)
    {
      hide Base, TileOk, Twins, Linked, Agree, Tiled, Coalesced, Members, Disjoint, Merge, Shape, Xor, Buddy,
        Relisted, RelistedFrom;
      RelistedNone(lists, originalOrder);
      ghost var ls := lists;
      var order: nat, curr: nat := originalOrder, original;
      HeadOfWindow(tiles, top, curr);
      var buddy := FindBuddy(curr, order);
      ghost var ts, offList := tiles, tiles[original].kind == OffList;
      OrderInRange(tiles, top, curr);
      while order < top
        invariant order <= top && curr < |tiles| && buddy == Buddy(curr, order)
        invariant SameTags(old(pages[..]), pages[..])
        invariant RelistedFrom(ls, lists, order)
        invariant offList ==>
          order == top && Valid() && tiles == ts && lists == old(lists) && pages[..] == old(pages[..])
        invariant !offList ==>
          && ValidBut(curr) && tiles[curr] == Tile(curr, order, Live) && pages[curr].order == order
          && Merge(tiles, top, curr, order) == Merge(ts, top, original, originalOrder)
        decreases top - order
      {
        BuddyTest(pages[..], tiles, top, curr, order);
        var entry := pages[buddy].entry;
        if entry != NULL && pages[buddy].order == pages[curr].order {
          RelistedMerge(ls, lists, order);
          curr := MergeBuddy(curr, buddy, order);
          order := order + 1;
          HeadOfWindow(tiles, top, curr);
          buddy := FindBuddy(curr, order);
        } else {
          RelistedEnd(ls, lists, order, curr);
          Relist(curr, order);
          return;
        }
      }
      RelistedTop(ls, lists, order);
      if !offList {
        GoOffList(curr);
      }
    }

    /** `get_buddy`. */
    method FindBuddy(idx: nat, order: nat) returns (b: nat)
      requires Base(idx, order) == idx
      ensures b == Buddy(idx, order)
    {
      hide Base;
      XorIsBuddy(idx, order);
      b := Xor(idx, Pow2(order));
    }

    /** The end of `_free` below the top order. */
    method Relist(curr: nat, k: nat)
      requires curr < |tiles| && ValidBut(curr) && k < top
      requires tiles[curr] == Tile(curr, k, Live)
      requires Buddy(curr, k) < |tiles| && tiles[Buddy(curr, k)] != Tile(Buddy(curr, k), k, Free)
      modifies pages, freeList, this`lists, this`tiles
      ensures Valid() && SameTags(old(pages[..]), pages[..])
      ensures tiles == Merge(old(tiles), top, curr, k)
      ensures k < |old(lists)| && lists == old(lists)[k := [curr] + old(lists)[k]]
    {
      hide Base, TileOk, Twins, Linked, Agree, Tiled, Coalesced, Members, Disjoint, SameFreeBut;
      ghost var ps, ls, ts := pages[..], lists, tiles;
      PutFreeCoalesced(ts, top, curr, k);
      NotListed(ls, ts, curr);
      pages[curr] := pages[curr].(idx := curr);
      ShapeFrame(ps, pages[..], freeList[..], ls);
      AddToFreeList(curr, k);
      ghost var qs := pages[..];
      pages[curr] := pages[curr].(entry := curr);
      pages[curr] := pages[curr].(order := k);
      ShapeFrame(qs, pages[..], freeList[..], lists);
      AgreeFrame(ps, pages[..], ts, curr);
      AgreeRekind(pages[..], ts, top, curr, Free);
      tiles := Put(ts, curr, k, Free);
      MembersPush(ls, ts, tiles, k, curr);
      AgreeClose(pages[..], tiles, curr);
    }

    /** The end of `_free` at the top order: no list takes the block. */
    ghost method GoOffList(curr: nat)
      requires curr < |tiles| && ValidBut(curr)
      requires tiles[curr] == Tile(curr, top, Live) && pages[curr].order == top
      modifies this`tiles
      ensures Valid() && tiles == Merge(old(tiles), top, curr, top)
    {
      hide Base, TileOk, Twins, Linked, Agree, Tiled, Coalesced, Disjoint;
      ghost var ts := tiles;
      MergeAtTop(ts, top, curr);
      AgreeRekind(pages[..], ts, top, curr, OffList);
      tiles := Put(ts, curr, top, OffList);
      AgreeClose(pages[..], tiles, curr);
      MembersSame(lists, ts, tiles, curr);
    }

    // -------------------------------------------------------------- reserve

    /** `split`. */
    method SplitBlock(idx: nat, order: nat)
      requires Consistent(NULL)
      requires order <= top ==> order > 0 && idx < |tiles| && tiles[idx] == Tile(idx, order, Free)
      modifies pages, freeList, this`lists, this`tiles
      ensures Consistent(NULL) && SameTags(old(pages[..]), pages[..])
      ensures order > top ==> tiles == old(tiles) && lists == old(lists)
      ensures order <= top ==>
        && old(idx + Pow2(order) <= |tiles|) && tiles == Split(old(tiles), idx, order - 1, Free, Free)
        && SplitLists(old(lists), lists, order, idx, Buddy(idx, order - 1))
    {
      hide Base, Tiled, TileOk, Linked, Agree, Disjoint, SameFreeBut, Members, Shape, Buddy, SplitLists;
      if order >= top + 1 {
        return;
      }
      ghost var ps, ts, ls := pages[..], tiles, lists;
      ghost var k := order - 1;
      SplitStages(ts, top, idx, k);
      DetachFacts(ps, freeList[..], ls, ts, top, idx, order);
      ghost var j := RmFromFreeList(idx, order);
      SplitListed(ls, order, j, idx, Buddy(idx, k));
      ghost var us, vs := Put(ts, idx, order, Live), Split(ts, idx, k, Free, Live);
      MembersRemove(ls, ts, us, order, j);
      NotListed(lists, us, idx);
      ghost var qs := pages[..];
      pages[idx] := pages[idx].(entry := NULL);
      var lower := order - 1;
      pages[idx] := pages[idx].(idx := idx);
      pages[idx] := pages[idx].(order := lower);
      ShapeFrame(qs, pages[..], freeList[..], lists);
      ghost var ms := lists;
      AddToFreeList(idx, lower);
      MembersPush(ms, us, vs, k, idx);
      SplitUpper(idx, lower, ps, ts);
    }

    /** The second half of `split`. */
    method SplitUpper(idx: nat, lower: nat, ghost ps: seq<PageInfo>, ghost ts: Tiling)
      requires Shaped() && lower < top && idx < |ts| == pages.Length && Tiled(ts, top) && tiles == ts
      requires ts[idx] == Tile(idx, lower + 1, Free) && idx + Pow2(lower + 1) <= |ts|
      requires Members(lists, Split(ts, idx, lower, Free, Live))
      requires Agree(ps, ts, idx) && SameTags(ps, pages[..])
      requires forall p :: 0 <= p < |ps| && p != idx ==> pages[p].order == ps[p].order && pages[p].entry == ps[p].entry
      requires pages[idx].order == lower
      modifies pages, freeList, this`lists, this`tiles
      ensures Consistent(NULL) && SameTags(ps, pages[..])
      ensures tiles == Split(ts, idx, lower, Free, Free)
      ensures lower < |old(lists)| && lists == old(lists)[lower := [Buddy(idx, lower)] + old(lists)[lower]]
    {
      hide Base, Tiled, TileOk, Linked, Agree, Disjoint, SameFreeBut, Members;
      ghost var rs := pages[..];
      ghost var vs := Split(ts, idx, lower, Free, Live);
      SplitStages(ts, top, idx, lower);
      pages[idx] := pages[idx].(entry := idx);
      var buddy := FindBuddy(idx, lower);
      NotListed(lists, vs, buddy);
      pages[buddy] := pages[buddy].(idx := buddy);
      pages[buddy] := pages[buddy].(order := lower);
      ShapeFrame(rs, pages[..], freeList[..], lists);
      ghost var ms := lists;
      AddToFreeList(buddy, lower);
      ghost var ss := pages[..];
      pages[buddy] := pages[buddy].(entry := buddy);
      ShapeFrame(ss, pages[..], freeList[..], lists);
      AgreeSplit(ps, pages[..], ts, top, idx, lower, Free);
      tiles := Split(ts, idx, lower, Free, Free);
      MembersPush(ms, vs, tiles, lower, buddy);
      AgreeClose(pages[..], tiles, idx);
    }

    /** One test of the splitting loop of `reserve`. */
    method CutBlock(p: nat, block: nat, k: nat)
      requires Consistent(NULL) && p < |tiles| && 1 <= k <= top && block == Base(p, k)
      requires tiles[p].kind == Kind.Free && tiles[p].order <= k
      modifies pages, freeList, this`lists, this`tiles
      ensures Consistent(NULL) && SameTags(old(pages[..]), pages[..])
      ensures tiles == CutAt(old(tiles), top, p, k)
    {
      hide Base, Tiled, TileOk, Linked, Agree, Disjoint, Members, Shape;
      CutFindsBlock(tiles, top, p, k);
      OrderTest(pages[..], tiles, block, k);
      if pages[block].order == k {
        SplitBlock(block, k);
      }
    }

    /** The splitting loop of `reserve`. */
    method CarveEnds(startIdx: nat, endIdx: nat)
      requires Valid() && startIdx <= endIdx < |tiles|
      requires tiles[startIdx].kind == Kind.Free && tiles[endIdx].kind == Kind.Free
      modifies pages, freeList, this`lists, this`tiles
      ensures Consistent(NULL) && SameTags(old(pages[..]), pages[..])
      ensures tiles == Carve(old(tiles), top, startIdx, endIdx, top)
    {
      hide Base, Tiled, TileOk, Linked, Agree, Disjoint, Members, Shape, Twins, TwinsOnlyAt, CutAt, Coalesced;
      ghost var ts := tiles;
      TwinsOnlyAtFromCoalesced(ts, top, startIdx, endIdx);
      OrderInRange(ts, top, startIdx);
      OrderInRange(ts, top, endIdx);
      var k := top;
      while k > 0
        invariant Consistent(NULL) && SameTags(old(pages[..]), pages[..]) && |tiles| == |ts|
        invariant k <= top && TwinsOnlyAt(tiles, top, startIdx, endIdx)
        invariant tiles[startIdx].kind == Kind.Free && tiles[startIdx].order <= k
        invariant tiles[endIdx].kind == Kind.Free && tiles[endIdx].order <= k
        invariant Carve(tiles, top, startIdx, endIdx, k) == Carve(ts, top, startIdx, endIdx, top)
      {
        MaskLow(startIdx, k);
        MaskLow(endIdx, k);
        var startBlock := startIdx - And(startIdx, Pow2(k) - 1);
        var endBlock := endIdx - And(endIdx, Pow2(k) - 1);
        ghost var us := tiles;
        CutEffect(us, top, startIdx, k, startIdx, endIdx);
        CutEffect(CutAt(us, top, startIdx, k), top, endIdx, k, startIdx, endIdx);
        CutBlock(startIdx, startBlock, k);
        if startBlock == endBlock {
          CutOnce(us, top, startIdx, endIdx, k);
        } else {
          CutBlock(endIdx, endBlock, k);
        }
        k := k - 1;
      }
    }

    method ReservePages(start: nat, end: nat)
      requires Valid() && start < end && (end - 1) / PAGE_SIZE < |tiles|
      requires forall p :: start / PAGE_SIZE <= p <= (end - 1) / PAGE_SIZE ==> tiles[p].kind == Kind.Free
      modifies pages, freeList, this`lists, this`tiles
      ensures Valid() && SameTags(old(pages[..]), pages[..])
      ensures var op := Reserving(start / PAGE_SIZE, (end - 1) / PAGE_SIZE);
        Enabled(old(tiles), top, op) && tiles == After(old(tiles), top, op)
    {
      hide Base, Tiled, TileOk, Linked, Agree, Disjoint, Members, Shape, Twins, TwinsOnlyAt, CutAt, Coalesced;
      var startIdx, endIdx := start / PAGE_SIZE, (end - 1) / PAGE_SIZE;
      ghost var ts := tiles;
      CarveEnds(startIdx, endIdx);
      ghost var cs := tiles;
      ReserveExact(ts, top, startIdx, endIdx);
      EndsAreSinglePages(ts, top, startIdx, endIdx);
      var i := startIdx;
      while i <= endIdx
        invariant startIdx <= i <= endIdx + 1 && |cs| == |ts| == |tiles|
        invariant i <= endIdx ==> cs[i].head == i
        invariant Consistent(NULL) && SameTags(old(pages[..]), pages[..])
        invariant tiles == Mark(cs, startIdx, i)
      {
        i := HandOver(cs, startIdx, i, endIdx);
      }
    }

    /** One round of the last loop of `reserve`: the block at `i` leaves its free list. */
    method HandOver(ghost cs: Tiling, ghost startIdx: nat, i: nat, ghost endIdx: nat) returns (next: nat)
      requires Consistent(NULL) && Tiled(cs, top) && startIdx <= i <= endIdx < |cs| == |tiles|
      requires tiles == Mark(cs, startIdx, i) && cs[i].head == i
      requires cs[endIdx].order == 0 && forall p :: startIdx <= p <= endIdx ==> cs[p].kind == Kind.Free
      modifies pages, freeList, this`lists, this`tiles
      ensures Consistent(NULL) && SameTags(old(pages[..]), pages[..])
      ensures i < next <= endIdx + 1 && tiles == Mark(cs, startIdx, next)
      ensures next <= endIdx ==> cs[next].head == next
    {
      hide Base, Tiled, TileOk, Linked, Agree, Disjoint, Members, Shape, SameFreeBut;
      ghost var ps, ts, ls := pages[..], tiles, lists;
      ghost var k := cs[i].order;
      MarkStep(cs, top, startIdx, i);
      NoOverrun(cs, top, i, endIdx);
      DetachFacts(ps, freeList[..], ls, ts, top, i, k);
      AgreeOpen(ps, ts, i);
      if pages[i].entry != NULL {
        ghost var j := RmFromFreeList(i, pages[i].order);
        ghost var qs := pages[..];
        pages[i] := pages[i].(entry := NULL);
        ShapeFrame(qs, pages[..], freeList[..], lists);
        RekindTiled(ts, top, i, Reserved);
        AgreeFrame(ps, pages[..], ts, i);
        AgreeRekind(pages[..], ts, top, i, Reserved);
        tiles := Put(ts, i, k, Reserved);
        MembersRemove(ls, ts, tiles, k, j);
        AgreeClose(pages[..], tiles, i);
      }
      next := i + Pow2(pages[i].order);
    }

    /** The tag of a page, which the layer above sets directly in the page table. */
    method SetCacheOrder(idx: nat, tag: int)
      requires Valid() && idx < pages.Length
      modifies pages
      ensures Valid() && pages[..] == old(pages[..])[idx := old(pages[..])[idx].(cacheOrder := tag)]
    {
      hide Base, Tiled, TileOk, Coalesced, Shape, Members, Agree;
      ghost var ps := pages[..];
      pages[idx] := pages[idx].(cacheOrder := tag);
      ShapeFrame(ps, pages[..], freeList[..], lists);
      AgreeFrame(ps, pages[..], tiles, NULL);
    }
  }

  /** Null and page 0 have the same address.  What decides the answer is the state before the
      request: null if and only if no aligned window of the size is entirely free, or the block
      at page 0 is the first of the lowest non-empty list from that order up. */
  lemma NullIff(ls: seq<seq<int>>, ts: Tiling, top: nat, size: nat, addr: nat, op: Op)
    requires Inv(ts, top) && Members(ls, ts) && |ls| == top + 1 && 0 < size <= PAGE_SIZE * Pow2(top)
    requires AnswersRequest(size, addr, op) && Enabled(ts, top, op)
    requires op.Allocating? ==> FirstFit(ls, op.order, op.block)
    ensures op.order <= top && (addr == 0 <==> NullFor(ls, ts, op.order))
  {
    hide Inv, FreeWindow, Members, IsOrderOf;
    OrderAtMost(size, op.order, top);
    NoFitIffNoWindow(ts, top, op.order);
    if FirstFit(ls, op.order, 0) {
      FirstFits(ls, ts, top, op.order, 0);
    }
  }

  lemma FirstFits(ls: seq<seq<int>>, ts: Tiling, top: nat, k: nat, h: nat)
    requires Members(ls, ts) && |ls| == top + 1 && FirstFit(ls, k, h)
    ensures Fits(ts, k, h)
  {
    var i :| k <= i < |ls| && ls[i] != [] && ls[i][0] == h;
    assert ls[i][0] in ls[i];
  }

  lemma NullWithoutPageZero(ts: Tiling, top: nat, size: nat, addr: nat, op: Op)
    requires Inv(ts, top) && ts != [] && ts[0].kind != Free && 0 < size <= PAGE_SIZE * Pow2(top)
    requires AnswersRequest(size, addr, op) && Enabled(ts, top, op)
    ensures addr == 0 <==> forall w: nat :: !FreeWindow(ts, op.order, w)
  {
    hide Inv, FreeWindow, IsOrderOf;
    OrderAtMost(size, op.order, top);
    NoFitIffNoWindow(ts, top, op.order);
  }

  /** The kernel reserves page 0 before anything else; from then on null means that no
      aligned window of the size is free, and nothing else. */
  lemma NullMeansNoWindow(ops: seq<Op>, more: seq<Op>, blocks: nat, top: nat, size: nat, addr: nat, op: Op)
    requires Run(ops, blocks, top) && Run(ops + more, blocks, top) && 0 < size <= PAGE_SIZE * Pow2(top)
    requires blocks > 0 && Reached(ops, blocks, top)[0].kind == Reserved
    requires AnswersRequest(size, addr, op) && Enabled(Reached(ops + more, blocks, top), top, op)
    ensures addr == 0 <==> forall w: nat :: !FreeWindow(Reached(ops + more, blocks, top), op.order, w)
  {
    hide Run, Reached, Inv, FreeWindow, AnswersRequest, Enabled;
    GoneForever(ops, more, blocks, top, 0);
    NullWithoutPageZero(Reached(ops + more, blocks, top), top, size, addr, op);
  }

  /** Without that reservation the very first request already shows the clash: one free
      page, one request for one byte, and the answer is null. */
  lemma PageZeroLooksLikeFailure()
    ensures var ts := Reached([], 1, 0);
      && Enabled(ts, 0, Allocating(0, 0)) && AnswersRequest(1, 0, Allocating(0, 0))
      && FreeWindow(ts, 0, 0)
  {
  }

  /** What a removal from a free list needs to know about a free block. */
  lemma DetachFacts(ps: seq<PageInfo>, hs: seq<int>, ls: seq<seq<int>>, ts: Tiling, top: nat, e: nat, k: nat)
    requires Shape(ps, hs, ls) && Members(ls, ts) && Agree(ps, ts, NULL) && Tiled(ts, top)
    requires |ls| == top + 1 && e < |ts| && ts[e] == Tile(e, k, Free)
    ensures k <= top && e in ls[k] && NoDup(ls[k]) && ps[e].idx == e && Agree(ps, ts, e)
  {
    assert TileOk(ts, top, e);
    assert Linked(ps, hs[k], ls[k]);
    var i :| 0 <= i < |ls[k]| && ls[k][i] == e;
    assert NodeOk(ps, ls[k], i);
  }

  lemma FirstOnce(ps: seq<PageInfo>, hs: seq<int>, ls: seq<seq<int>>, i: nat)
    requires Shape(ps, hs, ls) && i < |ls| && ls[i] != []
    ensures forall j :: 0 <= j < |ls[i]| && ls[i][j] == ls[i][0] ==> j == 0
    ensures Without(ls[i], 0) == ls[i][1..]
  {
    assert Linked(ps, hs[i], ls[i]);
  }

  lemma TakenFirst(ls: seq<seq<int>>, ms: seq<seq<int>>, h: nat, i: nat, j: nat)
    requires i < |ls| && j < |ls[i]| && ms == ls[i := Without(ls[i], j)] && j == 0 && ls[i][0] == h
    requires Without(ls[i], 0) == ls[i][1..]
    ensures TakenLists(ls, ms, h, i, i)
  {
  }

  lemma TakenNext(ls: seq<seq<int>>, ms: seq<seq<int>>, h: nat, i: nat, k: nat)
    requires TakenLists(ls, ms, h, i, k + 1) && k < i
    ensures k < |ms| && TakenLists(ls, ms[k := [h + Pow2(k)] + ms[k]], h, i, k)
  {
  }

  lemma HeadListed(ps: seq<PageInfo>, hs: seq<int>, ls: seq<seq<int>>, ts: Tiling, i: nat)
    requires Shape(ps, hs, ls) && Members(ls, ts) && i < |ls| && ls[i] != []
    ensures hs[i] == ls[i][0] && 0 <= hs[i] < |ts| && ts[hs[i]] == Tile(hs[i], i, Free)
  {
    assert Linked(ps, hs[i], ls[i]);
    assert ls[i][0] in ls[i];
  }

  lemma OrderAtMost(size: nat, k: nat, top: nat)
    requires 0 < size <= PAGE_SIZE * Pow2(top) && IsOrderOf(size, k)
    ensures k <= top
  {
    if k > top {
      Pow2Monotone(top, k - 1);
    }
  }

  lemma OrderOfRounded(size: nat, k: nat, top: nat)
    requires 0 < size <= PAGE_SIZE * Pow2(top) && IsOrderOf(Round(size), k)
    ensures IsOrderOf(size, k) && k <= top
  {
    OrderAtMost(size, k, top);
  }

  lemma ListEmpty(ps: seq<PageInfo>, hs: seq<int>, ls: seq<seq<int>>, i: nat)
    requires |hs| == |ls| && i < |ls| && Linked(ps, hs[i], ls[i])
    ensures hs[i] == NULL <==> ls[i] == []
  {
    assert ls[i] != [] ==> NodeOk(ps, ls[i], 0);
  }

  /** Free blocks that fit are on the lists from the requested order up. */
  lemma FitIsListed(ls: seq<seq<int>>, ts: Tiling, top: nat, k: nat, h: nat)
    requires Members(ls, ts) && Tiled(ts, top) && |ls| == top + 1 && Fits(ts, k, h)
    ensures k <= ts[h].order <= top && h in ls[ts[h].order]
  {
    assert TileOk(ts, top, h);
  }

  /** The first block of the lowest non-empty list is a best fit. */
  lemma BestFromFirstList(ls: seq<seq<int>>, ts: Tiling, top: nat, k: nat, i: nat)
    requires Members(ls, ts) && Tiled(ts, top) && |ls| == top + 1 && k <= i < |ls| && ls[i] != []
    requires forall j :: k <= j < i ==> ls[j] == []
    ensures 0 <= ls[i][0] && BestFit(ts, k, ls[i][0])
  {
    assert ls[i][0] in ls[i];
    forall g: nat | Fits(ts, k, g) ensures i <= ts[g].order {
      FitIsListed(ls, ts, top, k, g);
    }
  }

  lemma NoneFits(ls: seq<seq<int>>, ts: Tiling, top: nat, k: nat)
    requires Members(ls, ts) && Tiled(ts, top) && |ls| == top + 1
    requires forall j :: k <= j <= top ==> ls[j] == []
    ensures forall h: nat :: !Fits(ts, k, h)
  {
    forall h: nat ensures !Fits(ts, k, h) {
      if Fits(ts, k, h) {
        FitIsListed(ls, ts, top, k, h);
      }
    }
  }

  lemma OrderInRange(ts: Tiling, top: nat, p: nat)
    requires Tiled(ts, top) && p < |ts|
    ensures ts[p].order <= top
  {
    assert TileOk(ts, top, p);
  }

  /** A positive order in the table at a tested page belongs to a block head. */
  lemma OrderTest(ps: seq<PageInfo>, ts: Tiling, b: nat, k: nat)
    requires Agree(ps, ts, NULL) && b < |ts| && k >= 1
    ensures ps[b].order == k <==> ts[b].head == b && ts[b].order == k
  {
    assert PageOk(ps, ts, b);
  }

  lemma TwinsOnlyAtFromCoalesced(ts: Tiling, top: nat, lo: nat, hi: nat)
    requires Coalesced(ts, top)
    ensures TwinsOnlyAt(ts, top, lo, hi)
  {
  }

  lemma EndsAreSinglePages(ts: Tiling, top: nat, lo: nat, hi: nat)
    requires Inv(ts, top) && lo <= hi < |ts|
    requires forall p :: lo <= p <= hi ==> ts[p].kind == Kind.Free
    ensures var cs := Carve(ts, top, lo, hi, top);
      && Tiled(cs, top) && cs[lo].order == 0 && cs[hi].order == 0 && cs[lo].head == lo
      && forall p :: lo <= p <= hi ==> cs[p].kind == Kind.Free
  {
    TwinsOnlyAtFromCoalesced(ts, top, lo, hi);
    OrderInRange(ts, top, lo);
    OrderInRange(ts, top, hi);
    CarveEffect(ts, top, lo, hi, top);
    var cs := Carve(ts, top, lo, hi, top);
    assert TileOk(cs, top, lo);
    assert Pow2(0) == 1;
  }

  /** A block of the interval ends within it. */
  lemma NoOverrun(cs: Tiling, top: nat, i: nat, hi: nat)
    requires Tiled(cs, top) && i <= hi < |cs| && cs[i].head == i && cs[hi].order == 0
    ensures i + Pow2(cs[i].order) <= hi + 1
  {
    assert TileOk(cs, top, i);
    assert Pow2(0) == 1;
    if Within(hi, i, cs[i].order) {
      assert cs[hi] == cs[i];
    }
  }

  lemma InitialMembers(ls: seq<seq<int>>, ts: Tiling, blocks: nat, top: nat)
    requires |ls| == top + 1 && ts == Initial(blocks, top)
    requires forall k :: 0 <= k < top ==> ls[k] == []
    requires forall p :: p in ls[top] <==> 0 <= p < |ts| && Base(p, top) == p
    ensures Members(ls, ts)
  {
    hide Base;
  }

  lemma InitialAgrees(ps: seq<PageInfo>, ts: Tiling, blocks: nat, top: nat)
    requires ts == Initial(blocks, top) && |ps| == |ts|
    requires forall p :: 0 <= p < |ps| && Base(p, top) != p ==> ps[p].order == 0 && ps[p].entry == NULL
    requires forall p :: 0 <= p < |ps| && Base(p, top) == p ==> ps[p].order == top && ps[p].entry == p
    ensures Agree(ps, ts, NULL)
  {
    hide Base;
  }

  lemma TiledLength(ts: Tiling, top: nat)
    requires Tiled(ts, top)
    ensures Base(|ts|, top) == |ts|
  {
  }

  lemma BuddyListed(ps: seq<PageInfo>, hs: seq<int>, ls: seq<seq<int>>, ts: Tiling, top: nat, curr: nat, k: nat)
    requires Shape(ps, hs, ls) && Members(ls, ts) && |ls| == top + 1 && k < top
    requires curr < |ts| && Buddy(curr, k) < |ts| && ts[Buddy(curr, k)] == Tile(Buddy(curr, k), k, Free)
    ensures Buddy(curr, k) in ls[k] && NoDup(ls[k])
  {
  }

  /** What the validity test at the start of `_free` sees: the entry of a block that went off
      the lists may be anything. */
  lemma AgreeOpen(ps: seq<PageInfo>, ts: Tiling, e: nat)
    requires Agree(ps, ts, NULL) && e < |ts| && ts[e].head == e
    ensures Agree(ps, ts, e) && ps[e].order == ts[e].order
    ensures ts[e].kind != OffList ==> (ps[e].entry == NULL <==> ts[e].kind != Free)
  {
    assert PageOk(ps, ts, e);
  }

  lemma OffListIsTop(ts: Tiling, top: nat, e: nat)
    requires Tiled(ts, top) && e < |ts| && ts[e].head == e && ts[e].kind == OffList
    ensures ts[e] == Tile(e, top, OffList)
  {
    assert TileOk(ts, top, e);
  }

  /** The merge test of `_free` succeeds exactly when the buddy is a free block of the same
      order, whatever stale values the table holds elsewhere. */
  lemma BuddyTest(ps: seq<PageInfo>, ts: Tiling, top: nat, curr: nat, k: nat)
    requires Agree(ps, ts, curr) && Tiled(ts, top) && curr < |ts| && ts[curr] == Tile(curr, k, Live) && k < top
    requires ps[curr].order == k
    ensures Buddy(curr, k) < |ts|
    ensures (ps[Buddy(curr, k)].entry != NULL && ps[Buddy(curr, k)].order == ps[curr].order)
      <==> ts[Buddy(curr, k)] == Tile(Buddy(curr, k), k, Free)
  {
    hide Base;
    var b := Buddy(curr, k);
    HeadOfWindow(ts, top, curr);
    BuddyHalves(ts, top, curr, k);
    assert PageOk(ps, ts, b);
    assert TileOk(ts, top, b);
  }

  lemma MembersSame(ls: seq<seq<int>>, ts: Tiling, rs: Tiling, e: nat)
    requires Members(ls, ts) && e < |ts| && SameFreeBut(ts, rs, e) && !FreeHead(ts, e) && !FreeHead(rs, e)
    ensures Members(ls, rs)
  {
  }

  lemma AgreeClose(ps: seq<PageInfo>, ts: Tiling, e: nat)
    requires Agree(ps, ts, e) && e < |ts| && PageOk(ps, ts, e)
    ensures Agree(ps, ts, NULL)
  {
  }

  /** Where the neighbours of a list element are. */
  lemma RemovalFacts(ps: seq<PageInfo>, hs: seq<int>, ls: seq<seq<int>>, k: nat, j: nat)
    requires Shape(ps, hs, ls) && k < |ls| && j < |ls[k]|
    ensures var e, a, b := ls[k][j], At(ls[k], j - 1), At(ls[k], j + 1);
      && 0 <= e < |ps| && ps[e].prev == a && ps[e].next == b && a != e && b != e
      && (a != NULL ==> 0 <= a < |ps|) && (b != NULL ==> 0 <= b < |ps| && a != b)
      && (j == 0 <==> hs[k] == e) && (j == 0 <==> a == NULL)
      && At(Without(ls[k], j), 0) == if j == 0 then b else hs[k]
  {
    var l := ls[k];
    assert Linked(ps, hs[k], l);
    assert NodeOk(ps, l, j);
    assert j > 0 ==> NodeOk(ps, l, j - 1);
    assert j + 1 < |l| ==> NodeOk(ps, l, j + 1);
    assert j > 0 ==> NodeOk(ps, l, 0);
  }
}
