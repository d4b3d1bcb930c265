/** What absolute paths can see, and the law of `..`. */
module Visible {
  import opened Paths
  import opened Namespace

  /** Facts about a vnode other than the root, unfolded from the invariant. */
  lemma Placement(fs: Fs, v: nat)
    requires FsInv(fs) && 0 < v < |fs.nodes|
    ensures 0 <= fs.nodes[v].parent < v
    ensures var p := fs.nodes[v].parent;
      if fs.nodes[v].parentIsMount
      then p != ROOT && 0 <= fs.nodes[p].parent < p && fs.nodes[v].mount == NULL && !fs.nodes[p].parentIsMount
           && 0 <= fs.nodes[p].mount < |fs.mounts| && fs.mounts[fs.nodes[p].mount] == v
           && p in fs.nodes[fs.nodes[p].parent].children
      else v in fs.nodes[p].children
  {
    assert NodeOk(fs, v) && EntryOk(fs, v);
    if fs.nodes[v].parentIsMount {
      var m :| 0 <= m < |fs.mounts| && fs.mounts[m] == v;
      assert MountOk(fs, m);
      var p := fs.nodes[v].parent;
      assert NodeOk(fs, p) && CoverOk(fs, p) && EntryOk(fs, p);
      assert CoverOk(fs, v);
    }
  }

  /** The directory one level up as a user sees it: mount points are seen through. */
  ghost function Dir(fs: Fs, v: nat): (d: nat)
    requires FsInv(fs) && 0 < v < |fs.nodes|
    ensures d < v
  {
    Placement(fs, v);
    if fs.nodes[v].parentIsMount then fs.nodes[fs.nodes[v].parent].parent else fs.nodes[v].parent
  }

  /** `v` and all directories above it are uncovered. */
  ghost predicate Shown(fs: Fs, v: nat)
    requires FsInv(fs)
    decreases v
  {
    v < |fs.nodes| && (v == ROOT || (fs.nodes[v].mount == NULL && Shown(fs, Dir(fs, v))))
  }

  lemma ShownUncovered(fs: Fs, v: nat)
    requires FsInv(fs) && Shown(fs, v)
    ensures fs.nodes[v].mount == NULL && Cross(fs, v) == v
  {
    assert CoverOk(fs, v);
  }

  lemma UpIsDir(fs: Fs, v: nat)
    requires FsInv(fs) && Shown(fs, v) && v != ROOT
    ensures Up(fs, v) == Found(Dir(fs, v)) && Shown(fs, Dir(fs, v))
  {
    Placement(fs, v);
    ShownUncovered(fs, Dir(fs, v));
  }

  /** Going down by a name leads to a vnode whose directory is where the step began. */
  lemma NameStep(fs: Fs, v: nat, c: string)
    requires FsInv(fs) && Shown(fs, v) && IsName(c) && StepTo(fs, v, c).Found?
    ensures var w := StepTo(fs, v, c).v; 0 < w < |fs.nodes| && Dir(fs, w) == v && Shown(fs, w)
  {
    ShownUncovered(fs, v);
    assert NodeOk(fs, v);
    FoundIsChild(fs.nodes, fs.nodes[v].children, c);
    var x := DirLookup(fs, v, c).v;
    var i :| 0 <= i < |fs.nodes[v].children| && fs.nodes[v].children[i] == x;
    assert ChildOk(fs, v, x);
    assert NodeOk(fs, x) && CoverOk(fs, x);
    if fs.nodes[x].mount != NULL {
      assert MountOk(fs, fs.nodes[x].mount);
      Placement(fs, fs.mounts[fs.nodes[x].mount]);
    }
  }

  /** Crossing into a mount leads to its root, which is not covered itself. */
  lemma CrossUncovered(fs: Fs, v: nat)
    requires FsInv(fs) && v < |fs.nodes|
    ensures fs.nodes[Cross(fs, v)].mount == NULL && (Cross(fs, v) == v <==> fs.nodes[v].mount == NULL)
  {
    assert NodeOk(fs, v) && CoverOk(fs, v) && CoverOk(fs, Cross(fs, v));
    assert fs.nodes[v].mount != NULL ==> MountOk(fs, fs.nodes[v].mount);
  }

  /** Going down by a name and back up leads to what a step by name sees at `v`: the root mounted
      on `v`, or `v` itself.  So it leads back to `v` exactly when `v` is not covered, whether or
      not any path shows `v`. */
  lemma DownAndUp(fs: Fs, v: nat, c: string)
    requires FsInv(fs) && v < |fs.nodes| && IsName(c) && StepTo(fs, v, c).Found?
    ensures StepTo(fs, StepTo(fs, v, c).v, "..") == Found(Cross(fs, v))
    ensures StepTo(fs, StepTo(fs, v, c).v, "..") == Found(v) <==> fs.nodes[v].mount == NULL
  {
    var e := Cross(fs, v);
    CrossUncovered(fs, v);
    assert NodeOk(fs, e);
    FoundIsChild(fs.nodes, fs.nodes[e].children, c);
    var x := DirLookup(fs, e, c).v;
    var i :| 0 <= i < |fs.nodes[e].children| && fs.nodes[e].children[i] == x;
    assert ChildOk(fs, e, x) && NodeOk(fs, x) && CoverOk(fs, x);
    if fs.nodes[x].mount != NULL {
      assert MountOk(fs, fs.nodes[x].mount) && NodeOk(fs, fs.mounts[fs.nodes[x].mount]);
    }
  }

  lemma StepShown(fs: Fs, v: nat, c: string)
    requires FsInv(fs) && Shown(fs, v) && StepTo(fs, v, c).Found?
    ensures Shown(fs, StepTo(fs, v, c).v)
  {
    if IsName(c) {
      NameStep(fs, v, c);
    } else if c == ".." && v != ROOT {
      UpIsDir(fs, v);
    }
  }

  lemma {:induction false} WalkShown(fs: Fs, v: nat, comps: seq<string>)
    requires FsInv(fs) && Shown(fs, v) && Walk(fs, v, comps).Found?
    ensures Shown(fs, Walk(fs, v, comps).v)
    decreases |comps|
  {
    hide MountOk, CoverOk, EntryOk, NamesUnique, WellFormed, StepTo, Dir;
    if comps != [] {
      StepShown(fs, v, comps[0]);
      WalkShown(fs, StepTo(fs, v, comps[0]).v, comps[1..]);
    }
  }

  /** How many directories are above `v`. */
  ghost function Depth(fs: Fs, v: nat): nat
    requires FsInv(fs) && v < |fs.nodes|
    decreases v
  {
    if v == ROOT then 0 else 1 + Depth(fs, Dir(fs, v))
  }

  /** `n` times `..`. */
  function Ups(n: nat): (comps: seq<string>)
    ensures |comps| == n && forall i :: 0 <= i < n ==> comps[i] == ".."
  {
    seq(n, _ => "..")
  }

  /** Each `..` goes up one directory, and at the root it stays there: `n` of them lead to the root
      if and only if there are no more than `n` directories above. */
  lemma {:induction false} UpsLead(fs: Fs, v: nat, n: nat)
    requires FsInv(fs) && Shown(fs, v)
    ensures Walk(fs, v, Ups(n)).Found? && Shown(fs, Walk(fs, v, Ups(n)).v)
    ensures Depth(fs, Walk(fs, v, Ups(n)).v) == if n <= Depth(fs, v) then Depth(fs, v) - n else 0
    ensures Walk(fs, v, Ups(n)) == Found(ROOT) <==> n >= Depth(fs, v)
    decreases n
  {
    hide MountOk, CoverOk, EntryOk, NamesUnique, NodeOk, Dir, Up;
    if n > 0 {
      assert Ups(n)[1..] == Ups(n - 1);
      UpStep(fs, v);
      UpsLead(fs, StepTo(fs, v, "..").v, n - 1);
    }
  }

  lemma UpStep(fs: Fs, v: nat)
    requires FsInv(fs) && Shown(fs, v)
    ensures StepTo(fs, v, "..") == Found(if v == ROOT then ROOT else Dir(fs, v))
    ensures Shown(fs, StepTo(fs, v, "..").v)
    ensures Depth(fs, StepTo(fs, v, "..").v) == if v == ROOT then 0 else Depth(fs, v) - 1
  {
    if v != ROOT {
      UpIsDir(fs, v);
    }
  }

  /** Whatever an absolute path reaches is uncovered all the way up. */
  lemma AbsolutePathShown(fs: Fs, cwd: int, path: string)
    requires FsInv(fs) && NULL <= cwd < |fs.nodes| && path != "" && path[0] == '/'
    requires Resolve(fs, cwd, path).Found?
    ensures Shown(fs, Resolve(fs, cwd, path).v)
  {
    hide Walk, Components;
    WalkShown(fs, ROOT, Components(path));
  }

  /** `..` undoes descent, whether or not the entry is a mount point. */
  lemma DotDotUndoesDescent(fs: Fs, cwd: int, path: string, c: string)
    requires FsInv(fs) && NULL <= cwd < |fs.nodes| && path != "" && path[0] == '/' && IsName(c)
    requires Resolve(fs, cwd, path).Found?
    requires StepTo(fs, Resolve(fs, cwd, path).v, c).Found?
    ensures Walk(fs, Resolve(fs, cwd, path).v, [c, ".."]) == Resolve(fs, cwd, path)
  {
    hide Components, MountOk, CoverOk, EntryOk, NamesUnique, NodeOk, Dir;
    AbsolutePathShown(fs, cwd, path);
    var d := Resolve(fs, cwd, path).v;
    ShownUncovered(fs, d);
    DownAndUp(fs, d, c);
    assert [c, ".."][1..] == [".."] && [".."][1..] == [];
    assert Walk(fs, StepTo(fs, d, c).v, [".."]) == Walk(fs, d, []);
  }
}
