/** The intrusive doubly linked free lists inside the page table, as values. */
module FreeLists {
  import opened Sequences

  /** The null pointer, where pages are pointed to by their index. */
  const NULL := -1

  /** One entry of the page table.  `entry` is the `entry_in_list` pointer. */
  datatype PageInfo = PageInfo(idx: int, order: int, cacheOrder: int, entry: int, prev: int, next: int)

  /** The element at position `i`, or the null pointer off either end. */
  function At(l: seq<int>, i: int): int {
    if 0 <= i < |l| then l[i] else NULL
  }

  ghost predicate NodeOk(ps: seq<PageInfo>, l: seq<int>, i: int)
    requires 0 <= i < |l|
  {
    && 0 <= l[i] < |ps| && ps[l[i]].idx == l[i]
    && ps[l[i]].prev == At(l, i - 1)
    && ps[l[i]].next == At(l, i + 1)
  }

  /** From `head`, the links of `ps` run through exactly `l`, without repetition, both ways. */
  ghost predicate Linked(ps: seq<PageInfo>, head: int, l: seq<int>) {
    && head == At(l, 0)
    && NoDup(l)
    && forall i :: 0 <= i < |l| ==> NodeOk(ps, l, i)
  }

  ghost predicate Disjoint(ls: seq<seq<int>>) {
    forall j, k, x :: 0 <= j < k < |ls| && x in ls[j] ==> x !in ls[k]
  }

  /** All free lists are well formed and share no page. */
  ghost predicate Shape(ps: seq<PageInfo>, hs: seq<int>, ls: seq<seq<int>>) {
    && |hs| == |ls|
    && (forall k :: 0 <= k < |ls| ==> Linked(ps, hs[k], ls[k]))
    && Disjoint(ls)
  }

  /** Only links differ between `ps` and `qs`. */
  ghost predicate SameButLinks(ps: seq<PageInfo>, qs: seq<PageInfo>) {
    |ps| == |qs| && forall p :: 0 <= p < |ps| ==> qs[p] == ps[p].(prev := qs[p].prev, next := qs[p].next)
  }

  lemma LinkedFrame(ps: seq<PageInfo>, qs: seq<PageInfo>, head: int, l: seq<int>)
    requires Linked(ps, head, l) && |ps| == |qs|
    requires forall x :: x in l && 0 <= x < |ps| ==>
      qs[x].idx == ps[x].idx && qs[x].prev == ps[x].prev && qs[x].next == ps[x].next
    ensures Linked(qs, head, l)
  {
    forall i | 0 <= i < |l| ensures NodeOk(qs, l, i) {
      assert NodeOk(ps, l, i) && l[i] in l;
    }
  }

  /** `add_to_free_list`: linking `e` in front. */
  lemma PushLinked(ps: seq<PageInfo>, qs: seq<PageInfo>, head: int, l: seq<int>, e: int)
    requires Linked(ps, head, l) && e !in l && 0 <= e < |ps| && ps[e].idx == e
    requires SameButLinks(ps, qs) && qs[e].prev == NULL && qs[e].next == head
    requires forall p :: 0 <= p < |ps| && p != e ==>
      qs[p].next == ps[p].next && qs[p].prev == if p == head then e else ps[p].prev
    ensures Linked(qs, e, [e] + l)
  {
    var m := [e] + l;
    forall i | 0 <= i < |m| ensures NodeOk(qs, m, i) {
      if i > 0 {
        assert NodeOk(ps, l, i - 1) && m[i] == l[i - 1] && l[i - 1] in l;
        assert i > 1 ==> l[i - 1] != l[0];
      }
    }
  }

  ghost function Without(l: seq<int>, j: nat): seq<int>
    requires j < |l|
  {
    l[..j] + l[j + 1..]
  }

  /** `rm_from_free_list`: unlinking the element at position `j`. */
  lemma UnlinkLinked(ps: seq<PageInfo>, qs: seq<PageInfo>, head: int, l: seq<int>, j: nat)
    requires Linked(ps, head, l) && j < |l| && SameButLinks(ps, qs)
    requires forall p :: 0 <= p < |ps| && p != l[j] ==>
      && qs[p].next == (if p == At(l, j - 1) then At(l, j + 1) else ps[p].next)
      && qs[p].prev == (if p == At(l, j + 1) then At(l, j - 1) else ps[p].prev)
    ensures Linked(qs, At(Without(l, j), 0), Without(l, j))
  {
    var m := Without(l, j);
    forall i | 0 <= i < |m| ensures NodeOk(qs, m, i) {
      var o := if i < j then i else i + 1;
      assert m[i] == l[o] && NodeOk(ps, l, o);
      assert o != j - 1 ==> l[o] != At(l, j - 1);
      assert o != j + 1 ==> l[o] != At(l, j + 1);
    }
  }

  lemma DisjointPush(ls: seq<seq<int>>, k: nat, e: int)
    requires Disjoint(ls) && k < |ls| && forall j :: 0 <= j < |ls| ==> e !in ls[j]
    ensures Disjoint(ls[k := [e] + ls[k]])
  {
  }

  lemma DisjointRemove(ls: seq<seq<int>>, k: nat, j: nat)
    requires Disjoint(ls) && k < |ls| && j < |ls[k]|
    ensures Disjoint(ls[k := Without(ls[k], j)])
  {
  }

  lemma ShapePush(ps: seq<PageInfo>, qs: seq<PageInfo>, hs: seq<int>, ls: seq<seq<int>>, k: nat, e: int)
    requires Shape(ps, hs, ls) && k < |ls| && 0 <= e < |ps| && ps[e].idx == e
    requires forall j :: 0 <= j < |ls| ==> e !in ls[j]
    requires SameButLinks(ps, qs) && qs[e].prev == NULL && qs[e].next == hs[k]
    requires forall p :: 0 <= p < |ps| && p != e ==>
      qs[p].next == ps[p].next && qs[p].prev == if p == hs[k] then e else ps[p].prev
    ensures Shape(qs, hs[k := e], ls[k := [e] + ls[k]])
  {
    hide NodeOk;
    DisjointPush(ls, k, e);
    var gs, ms := hs[k := e], ls[k := [e] + ls[k]];
    forall j | 0 <= j < |ms| ensures Linked(qs, gs[j], ms[j]) {
      if j == k {
        PushLinked(ps, qs, hs[k], ls[k], e);
      } else {
        assert hs[k] == NULL || hs[k] in ls[k];
        LinkedFrame(ps, qs, hs[j], ls[j]);
      }
    }
  }

  lemma ShapeRemove(ps: seq<PageInfo>, qs: seq<PageInfo>, hs: seq<int>, ls: seq<seq<int>>, k: nat, j: nat)
    requires Shape(ps, hs, ls) && k < |ls| && j < |ls[k]| && SameButLinks(ps, qs)
    requires forall p :: 0 <= p < |ps| && p != ls[k][j] ==>
      && qs[p].next == (if p == At(ls[k], j - 1) then At(ls[k], j + 1) else ps[p].next)
      && qs[p].prev == (if p == At(ls[k], j + 1) then At(ls[k], j - 1) else ps[p].prev)
    ensures Shape(qs, hs[k := At(Without(ls[k], j), 0)], ls[k := Without(ls[k], j)])
  {
    hide NodeOk;
    var l := ls[k];
    DisjointRemove(ls, k, j);
    var gs, ms := hs[k := At(Without(l, j), 0)], ls[k := Without(l, j)];
    forall i | 0 <= i < |ms| ensures Linked(qs, gs[i], ms[i]) {
      if i == k {
        UnlinkLinked(ps, qs, hs[k], l, j);
      } else {
        assert l[j] in l;
        assert At(l, j - 1) == NULL || At(l, j - 1) in l;
        assert At(l, j + 1) == NULL || At(l, j + 1) in l;
        LinkedFrame(ps, qs, hs[i], ls[i]);
      }
    }
  }
}
