/** What mounting a tmpfs does to every path, from every start. */
module Mounting {
  import opened Paths
  import opened Namespace
  import opened Visible
  import opened FsUpdates

  ghost predicate Mountable(fs: Fs, t: nat) {
    && FsInv(fs) && t < |fs.nodes| && fs.nodes[t].mount == NULL && !fs.nodes[t].parentIsMount
    && WellFormed(Cover(fs, t))
  }

  /** Where a walk is once `t` is covered: at the new root when it came to `t` from above. */
  function Seat(fs: Fs, v: nat, inside: bool): nat {
    if inside then |fs.nodes| else v
  }

  function SeatResult(fs: Fs, r: Result, inside: bool): Result {
    if r.Found? then Found(Seat(fs, r.v, inside)) else r
  }

  /** A step comes to `t` from above when it comes there by a name; `..` comes from below. */
  predicate Inside(t: nat, inside: bool, c: string, r: Result) {
    r == Found(t) && (IsName(c) || (c == "." && inside))
  }

  /** Whether a walk looks for a name in `t`. */
  ghost predicate LooksIn(fs: Fs, v: nat, comps: seq<string>, t: nat)
    requires WellFormed(fs) && v < |fs.nodes|
    decreases |comps|
  {
    && comps != []
    && ((v == t && IsName(comps[0]))
        || (StepTo(fs, v, comps[0]).Found? && LooksIn(fs, StepTo(fs, v, comps[0]).v, comps[1..], t)))
  }

  /** Whether a walk ends at `t` and last came there from above. */
  ghost predicate EndsInside(fs: Fs, v: nat, inside: bool, comps: seq<string>, t: nat)
    requires WellFormed(fs) && v < |fs.nodes|
    decreases |comps|
  {
    if comps == [] then inside
    else
      var r := StepTo(fs, v, comps[0]);
      r.Found? && EndsInside(fs, r.v, Inside(t, inside, comps[0], r), comps[1..], t)
  }

  // ---------------------------------------------------------------- every start

  /** A step that does not look for a name in `t` goes the same way as before. */
  lemma StepCovered(fs: Fs, t: nat, v: nat, inside: bool, c: string)
    requires Mountable(fs, t) && v < |fs.nodes| && (inside ==> v == t) && !(v == t && IsName(c))
    ensures |Cover(fs, t).nodes| == |fs.nodes| + 1
    ensures var r := StepTo(fs, v, c);
      StepTo(Cover(fs, t), Seat(fs, v, inside), c) == SeatResult(fs, r, Inside(t, inside, c, r))
  {
    hide FindChild;
    if c == ".." {
      UpCovered(fs, t, v, inside);
    } else if IsName(c) {
      NameCovered(fs, t, v, c);
    }
  }

  lemma UpCovered(fs: Fs, t: nat, v: nat, inside: bool)
    requires Mountable(fs, t) && v < |fs.nodes| && (inside ==> v == t)
    ensures |Cover(fs, t).nodes| == |fs.nodes| + 1
    ensures Up(Cover(fs, t), Seat(fs, v, inside)) == Up(fs, v)
  {
    hide CoverOk, EntryOk, NamesUnique;
    var gs := Cover(fs, t);
    assert fs.nodes[ROOT].parentIsMount;
    assert NodeOk(fs, v) && NodeOk(gs, Seat(fs, v, inside)) && NodeOk(gs, v);
    if v != ROOT {
      var p := fs.nodes[v].parent;
      assert NodeOk(fs, p) && NodeOk(gs, p);
      assert fs.nodes[p].mount != NULL ==> MountOk(fs, fs.nodes[p].mount);
    }
  }

  lemma NameCovered(fs: Fs, t: nat, v: nat, c: string)
    requires Mountable(fs, t) && v < |fs.nodes| && v != t && IsName(c)
    ensures |Cover(fs, t).nodes| == |fs.nodes| + 1
    ensures var r := StepTo(fs, v, c); StepTo(Cover(fs, t), v, c) == SeatResult(fs, r, r == Found(t))
  {
    hide FindChild, CoverOk, EntryOk, NamesUnique;
    var gs, e := Cover(fs, t), Cross(fs, v);
    CoveredCross(fs, t, v);
    assert NodeOk(fs, e) && NodeOk(gs, e) && gs.nodes[e] == fs.nodes[e];
    forall i | 0 <= i < |fs.nodes[e].children|
      ensures gs.nodes[fs.nodes[e].children[i]].name == fs.nodes[fs.nodes[e].children[i]].name
    {
      assert ChildOk(fs, e, fs.nodes[e].children[i]);
    }
    FindChildFrame(fs.nodes, gs.nodes, fs.nodes[e].children, |fs.nodes|, c);
    FoundIsChild(fs.nodes, fs.nodes[e].children, c);
    if DirLookup(fs, e, c).Found? {
      CoveredCross(fs, t, DirLookup(fs, e, c).v);
    }
  }

  /** Crossing into a mount after `t` is covered. */
  lemma CoveredCross(fs: Fs, t: nat, x: nat)
    requires Mountable(fs, t) && x < |fs.nodes|
    ensures Cross(fs, x) == t <==> x == t
    ensures Cross(Cover(fs, t), x) == if x == t then |fs.nodes| else Cross(fs, x)
  {
    assert NodeOk(fs, x);
    if fs.nodes[x].mount != NULL {
      assert MountOk(fs, fs.nodes[x].mount);
    }
  }

  lemma CoverGrows(fs: Fs, t: nat)
    requires t < |fs.nodes|
    ensures |Cover(fs, t).nodes| == |fs.nodes| + 1
  {
  }

  lemma FreshRootIsEmpty(fs: Fs, t: nat, inside: bool, c: string)
    requires Mountable(fs, t) && IsName(c)
    ensures |Cover(fs, t).nodes| == |fs.nodes| + 1
    ensures StepTo(Cover(fs, t), Seat(fs, t, inside), c) == Err(ENOENT)
  {
    assert NodeOk(Cover(fs, t), |fs.nodes|);
  }

  /** Every walk, from every vnode, after a mount on `t`: if it looks for a name in `t` the answer
      is ENOENT; if it ends at `t` and came there from above it ends at the new root instead; and
      any other walk goes as before. */
  lemma {:induction false} WalkCovered(fs: Fs, t: nat, v: nat, inside: bool, comps: seq<string>)
    requires Mountable(fs, t) && v < |fs.nodes| && (inside ==> v == t)
    ensures |Cover(fs, t).nodes| == |fs.nodes| + 1
    ensures Walk(Cover(fs, t), Seat(fs, v, inside), comps) ==
      if LooksIn(fs, v, comps, t) then Err(ENOENT)
      else SeatResult(fs, Walk(fs, v, comps), EndsInside(fs, v, inside, comps, t))
    decreases |comps|
  {
    hide StepTo, MountOk, CoverOk, EntryOk, NamesUnique, WellFormed, Cover;
    CoverGrows(fs, t);
    if comps != [] {
      if v == t && IsName(comps[0]) {
        FreshRootIsEmpty(fs, t, inside, comps[0]);
      } else {
        StepCovered(fs, t, v, inside, comps[0]);
        var r := StepTo(fs, v, comps[0]);
        if r.Found? {
          WalkCovered(fs, t, r.v, Inside(t, inside, comps[0], r), comps[1..]);
        }
      }
    }
  }

  /** Only a walk that comes to `t` looks for a name in it or ends inside. */
  lemma {:induction false} UnseenWalk(fs: Fs, t: nat, v: nat, inside: bool, comps: seq<string>)
    requires WellFormed(fs) && v < |fs.nodes| && (inside ==> v == t)
    ensures !Visits(fs, v, comps, t) ==> !LooksIn(fs, v, comps, t)
    ensures EndsInside(fs, v, inside, comps, t) ==> Visits(fs, v, comps, t) && Walk(fs, v, comps) == Found(t)
    decreases |comps|
  {
    hide StepTo, WellFormed;
    if comps != [] {
      var r := StepTo(fs, v, comps[0]);
      if r.Found? {
        UnseenWalk(fs, t, r.v, Inside(t, inside, comps[0], r), comps[1..]);
      }
    }
  }

  /** After a successful mount on the vnode `t`, every path from every current directory is
      accounted for: missing if its walk looks for a name in `t`, at the fresh empty root if it
      comes to `t` from above and ends there, and as before in every other case.  In particular
      a resolution that never comes to `t` is unchanged. */
  lemma MountHidesAndIsolates(fs: Fs, cwd: int, target: string, memory: bool, from: int, path: string)
    requires FsInv(fs) && NULL <= cwd < |fs.nodes| && NULL <= from < |fs.nodes|
    requires MountTmpfs(fs, cwd, target, memory).result.Found?
    ensures var gs := MountTmpfs(fs, cwd, target, memory).fs;
      var t, s, comps := Resolve(fs, cwd, target).v, Start(from, path), Components(path);
      && FsInv(gs) && from < |gs.nodes|
      && Resolve(gs, from, path) == (
           if s.Err? then s
           else if LooksIn(fs, s.v, comps, t) then Err(ENOENT)
           else SeatResult(fs, Resolve(fs, from, path), EndsInside(fs, s.v, false, comps, t)))
      && (s.Found? && EndsInside(fs, s.v, false, comps, t) ==> Resolve(fs, from, path) == Found(t))
      && (s.Found? && !Visits(fs, s.v, comps, t) ==> Resolve(gs, from, path) == Resolve(fs, from, path))
  {
    hide MountOk, CoverOk, EntryOk, NamesUnique, NodeOk, Components, Walk, LooksIn, EndsInside, Visits, Cover;
    var t, s := Resolve(fs, cwd, target).v, Start(from, path);
    CoverInv(fs, t);
    CoverGrows(fs, t);
    if s.Found? {
      WalkCovered(fs, t, s.v, false, Components(path));
      UnseenWalk(fs, t, s.v, false, Components(path));
    }
  }

  // ---------------------------------------------------------------- absolute paths

  /** `v` lies strictly below `t`, mount points seen through. */
  ghost predicate Below(fs: Fs, t: nat, v: nat)
    requires FsInv(fs) && v < |fs.nodes|
    decreases v
  {
    v != ROOT && (Dir(fs, v) == t || Below(fs, t, Dir(fs, v)))
  }

  /** A step from a shown vnode not below `t` does not come to `t` by `..`. */
  lemma StepFromAbove(fs: Fs, t: nat, v: nat, c: string)
    requires FsInv(fs) && t < |fs.nodes| && Shown(fs, v) && !Below(fs, t, v) && !(v == t && IsName(c))
    requires StepTo(fs, v, c).Found?
    ensures var w := StepTo(fs, v, c).v; Shown(fs, w) && !Below(fs, t, w) && (c == ".." ==> w != t || v == ROOT)
  {
    if c == ".." {
      if v != ROOT {
        UpIsDir(fs, v);
      }
    } else if IsName(c) {
      NameStep(fs, v, c);
    }
  }

  lemma {:induction false} WalkFromAbove(fs: Fs, t: nat, v: nat, comps: seq<string>)
    requires FsInv(fs) && ROOT < t < |fs.nodes| && v < |fs.nodes|
    requires Shown(fs, v) && !Below(fs, t, v) && !LooksIn(fs, v, comps, t)
    ensures EndsInside(fs, v, v == t, comps, t) <==> Walk(fs, v, comps) == Found(t)
    decreases |comps|
  {
    hide StepTo, MountOk, CoverOk, EntryOk, NamesUnique, WellFormed, Dir, Below, Shown;
    if comps != [] && StepTo(fs, v, comps[0]).Found? {
      var r := StepTo(fs, v, comps[0]);
      StepFromAbove(fs, t, v, comps[0]);
      InsideFromAbove(fs, t, v, comps[0]);
      WalkFromAbove(fs, t, r.v, comps[1..]);
    }
  }

  lemma InsideFromAbove(fs: Fs, t: nat, v: nat, c: string)
    requires WellFormed(fs) && ROOT < t < |fs.nodes| && v < |fs.nodes| && StepTo(fs, v, c).Found?
    requires c == ".." ==> StepTo(fs, v, c).v != t || v == ROOT
    ensures Inside(t, v == t, c, StepTo(fs, v, c)) <==> StepTo(fs, v, c).v == t
  {
  }

  /** For an absolute path there is no third case: whenever it resolved to `t`, it resolves to the
      fresh root. */
  lemma MountSeenFromRoot(fs: Fs, cwd: int, target: string, memory: bool, from: int, path: string)
    requires FsInv(fs) && NULL <= cwd < |fs.nodes| && NULL <= from < |fs.nodes| && path != "" && path[0] == '/'
    requires MountTmpfs(fs, cwd, target, memory).result.Found?
    ensures var gs := MountTmpfs(fs, cwd, target, memory).fs; var t := Resolve(fs, cwd, target).v;
      && FsInv(gs) && from < |gs.nodes|
      && Resolve(gs, from, path) ==
           if LooksIn(fs, ROOT, Components(path), t) then Err(ENOENT)
           else SeatResult(fs, Resolve(fs, from, path), Resolve(fs, from, path) == Found(t))
  {
    hide MountOk, CoverOk, EntryOk, NamesUnique, NodeOk, Components, Walk, LooksIn, EndsInside, Visits, Cover, Below;
    var t := Resolve(fs, cwd, target).v;
    MountHidesAndIsolates(fs, cwd, target, memory, from, path);
    RootNotBelow(fs, t);
    if !LooksIn(fs, ROOT, Components(path), t) {
      WalkFromAbove(fs, t, ROOT, Components(path));
    }
  }

  lemma RootNotBelow(fs: Fs, t: nat)
    requires FsInv(fs) && t < |fs.nodes| && !fs.nodes[t].parentIsMount
    ensures t != ROOT && !Below(fs, t, ROOT) && Shown(fs, ROOT)
  {
  }

  // ---------------------------------------------------------------- the mounted path

  /** The mounted path itself, from where it was mounted: it resolves to the fresh root exactly
      when it never looked for a name in the vnode it ends at and came there from above; it is
      ENOENT when it did look, as `/a/b/..` does, and still the covered vnode otherwise. */
  lemma MountedPathResolves(fs: Fs, cwd: int, path: string, memory: bool)
    requires FsInv(fs) && NULL <= cwd < |fs.nodes| && MountTmpfs(fs, cwd, path, memory).result.Found?
    ensures Start(cwd, path).Found?
    ensures var o := MountTmpfs(fs, cwd, path, memory);
      var t, s, comps := Resolve(fs, cwd, path).v, Start(cwd, path).v, Components(path);
      && FsInv(o.fs) && cwd < |o.fs.nodes|
      && Resolve(o.fs, cwd, path) == (
           if LooksIn(fs, s, comps, t) then Err(ENOENT)
           else if EndsInside(fs, s, false, comps, t) then o.result else Found(t))
      && (path != "" && path[0] == '/' ==> LooksIn(fs, s, comps, t) || EndsInside(fs, s, false, comps, t))
  {
    hide MountOk, CoverOk, EntryOk, NamesUnique, NodeOk, Components, Walk, LooksIn, EndsInside, Visits, WellFormed;
    MountHidesAndIsolates(fs, cwd, path, memory, cwd, path);
    if path != "" && path[0] == '/' {
      MountSeenFromRoot(fs, cwd, path, memory, cwd, path);
    }
  }

  /** Mounting again on the same path changes nothing: it is refused as busy, or as missing
      when the path no longer resolves. */
  lemma SecondMountRefused(fs: Fs, cwd: int, path: string, memory: bool, again: bool)
    requires FsInv(fs) && NULL <= cwd < |fs.nodes| && MountTmpfs(fs, cwd, path, memory).result.Found?
    ensures Start(cwd, path).Found?
    ensures var gs := MountTmpfs(fs, cwd, path, memory).fs;
      var missing := LooksIn(fs, Start(cwd, path).v, Components(path), Resolve(fs, cwd, path).v);
      && FsInv(gs) && cwd < |gs.nodes|
      && MountTmpfs(gs, cwd, path, again) == Outcome(gs, Err(if missing then ENOENT else EBUSY))
  {
    hide MountOk, CoverOk, EntryOk, NamesUnique, NodeOk, Components, Walk, LooksIn, EndsInside, Resolve, WellFormed;
    MountedPathResolves(fs, cwd, path, memory);
  }

  lemma {:induction false} LooksLater(fs: Fs, v: nat, p: seq<string>, q: seq<string>, t: nat)
    requires WellFormed(fs) && v < |fs.nodes| && Walk(fs, v, p).Found? && LooksIn(fs, Walk(fs, v, p).v, q, t)
    ensures LooksIn(fs, v, p + q, t)
    decreases |p|
  {
    hide StepTo, WellFormed;
    if p == [] {
      assert p + q == q;
    } else {
      assert (p + q)[0] == p[0] && (p + q)[1..] == p[1..] + q;
      LooksLater(fs, StepTo(fs, v, p[0]).v, p[1..], q, t);
    }
  }

  /** The path is lost for every directory and every entry of it: a path that goes into the entry
      and back up resolves to the directory, or the root mounted on it; and a mount by this path,
      when it succeeds, makes the path ENOENT. */
  lemma MountThroughChild(fs: Fs, cwd: int, dir: string, c: string, memory: bool)
    requires FsInv(fs) && NULL <= cwd < |fs.nodes| && dir != "" && IsName(c) && Components(c) == [c]
    requires Resolve(fs, cwd, dir).Found? && StepTo(fs, Resolve(fs, cwd, dir).v, c).Found?
    ensures var path := dir + "/" + c + "/" + ".."; var o := MountTmpfs(fs, cwd, path, memory);
      && Resolve(fs, cwd, path) == Found(Cross(fs, Resolve(fs, cwd, dir).v))
      && (o.result.Found? ==> FsInv(o.fs) && cwd < |o.fs.nodes| && Resolve(o.fs, cwd, path) == Err(ENOENT))
  {
    hide Components, MountOk, CoverOk, EntryOk, NamesUnique, NodeOk, WellFormed, StepTo, EndsInside;
    var path, d, above := dir + "/" + c + "/" + "..", Resolve(fs, cwd, dir).v, Components(dir);
    ComponentsJoin(dir, c);
    ComponentsJoin(dir + "/" + c, "..");
    ComponentsOfName("..");
    assert path[0] == dir[0] && Components(path) == above + [c, ".."];
    var v, down := Start(cwd, dir).v, StepTo(fs, d, c).v;
    DownAndUp(fs, d, c);
    assert [c, ".."][1..] == [".."] && [".."][1..] == [];
    assert Walk(fs, down, [".."]) == Found(Cross(fs, d));
    WalkConcat(fs, v, above, [c, ".."]);
    if MountTmpfs(fs, cwd, path, memory).result.Found? {
      MountRootBusy(fs, d);
      assert LooksIn(fs, d, [c, ".."], d);
      LooksLater(fs, v, above, [c, ".."], d);
      MountedPathResolves(fs, cwd, path, memory);
    }
  }

  lemma MountRootBusy(fs: Fs, d: nat)
    requires FsInv(fs) && d < |fs.nodes| && !fs.nodes[Cross(fs, d)].parentIsMount
    ensures Cross(fs, d) == d
  {
    assert NodeOk(fs, d);
    assert fs.nodes[d].mount != NULL ==> MountOk(fs, fs.nodes[d].mount);
  }
}
