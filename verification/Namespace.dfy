/** The vnodes of the file system as a value, and how a path is walked through them: into
    directories, across mounts, and back up with `..`. */
module Namespace {
  import opened Paths

  const NULL := -1
  const ROOT: nat := 0            // rootfs->root

  const ENOENT := -2
  const ENOMEM := -3
  const EINVAL := -4
  const EACCES := -6
  const EEXIST := -7
  const EINTERR := -8
  const ENODEV := -9
  const EBUSY := -11

  const MAX_FILE_NAME: nat := 64
  const MAX_CHILDREN: nat := 16

  datatype FsKind = Tmpfs | Initramfs

  /** A vnode with its internal node; vnodes point to each other by index. */
  datatype Vnode = Vnode(mount: int, ops: FsKind, parent: int, parentIsMount: bool,
                         name: string, isDir: bool, children: seq<nat>)

  datatype Fs = Fs(nodes: seq<Vnode>, mounts: seq<nat>)   // a mount is its root vnode

  datatype Result = Found(v: nat) | Err(code: int)

  // ---------------------------------------------------------------- one step of a walk

  ghost predicate NodeOk(fs: Fs, v: nat)
    requires v < |fs.nodes|
  {
    var n := fs.nodes[v];
    && NULL <= n.mount < |fs.mounts|
    && NULL <= n.parent < v
    && (n.parent == NULL ==> v == ROOT)
    && forall i :: 0 <= i < |n.children| ==> ChildOk(fs, v, n.children[i])
  }

  ghost predicate ChildOk(fs: Fs, d: nat, c: nat) {
    d < c < |fs.nodes| && fs.nodes[c].parent == d && !fs.nodes[c].parentIsMount
  }

  ghost predicate WellFormed(fs: Fs) {
    && |fs.nodes| > 0
    && (forall v :: 0 <= v < |fs.nodes| ==> NodeOk(fs, v))
    && (forall m :: 0 <= m < |fs.mounts| ==> fs.mounts[m] < |fs.nodes|)
  }

  /** The first child with the given name. */
  function FindChild(nodes: seq<Vnode>, children: seq<nat>, name: string): Result
    requires forall i :: 0 <= i < |children| ==> children[i] < |nodes|
  {
    if children == [] then Err(ENOENT)
    else if nodes[children[0]].name == name then Found(children[0])
    else FindChild(nodes, children[1..], name)
  }

  function DirLookup(fs: Fs, d: nat, name: string): Result
    requires WellFormed(fs) && d < |fs.nodes|
  {
    assert NodeOk(fs, d);
    if !fs.nodes[d].isDir then Err(EACCES) else FindChild(fs.nodes, fs.nodes[d].children, name)
  }

  /** The file system mounted on `v`, if any, hides `v`. */
  function Cross(fs: Fs, v: nat): (w: nat)
    requires WellFormed(fs) && v < |fs.nodes|
    ensures w < |fs.nodes|
  {
    assert NodeOk(fs, v);
    if fs.nodes[v].mount != NULL then fs.mounts[fs.nodes[v].mount] else v
  }

  function Up(fs: Fs, v: nat): (r: Result)
    requires WellFormed(fs) && v < |fs.nodes|
    ensures r.Found? ==> r.v < |fs.nodes|
  {
    assert NodeOk(fs, v);
    if v == ROOT then Found(v)
    else
      var p := fs.nodes[v].parent;
      assert NodeOk(fs, p);
      if fs.nodes[p].mount != NULL && fs.mounts[fs.nodes[p].mount] == v then
        if p == ROOT then Found(ROOT)
        else if fs.nodes[p].parent != NULL then Found(fs.nodes[p].parent)
        else Err(EINTERR)
      else Found(p)
  }

  predicate IsName(c: string) {
    c != "." && c != ".."
  }

  function Enter(fs: Fs, r: Result): (s: Result)
    requires WellFormed(fs) && (r.Found? ==> r.v < |fs.nodes|)
    ensures s.Found? ==> s.v < |fs.nodes|
  {
    if r.Found? then Found(Cross(fs, r.v)) else r
  }

  lemma {:induction false} FoundIsChild(nodes: seq<Vnode>, children: seq<nat>, name: string)
    requires forall i :: 0 <= i < |children| ==> children[i] < |nodes|
    ensures var r := FindChild(nodes, children, name);
      if r.Found? then r.v in children && nodes[r.v].name == name
      else r == Err(ENOENT) && forall i :: 0 <= i < |children| ==> nodes[children[i]].name != name
  {
    if children != [] && nodes[children[0]].name != name {
      FoundIsChild(nodes, children[1..], name);
      assert children == [children[0]] + children[1..];
    }
  }

  function StepTo(fs: Fs, v: nat, c: string): (r: Result)
    requires WellFormed(fs) && v < |fs.nodes|
    ensures r.Found? ==> r.v < |fs.nodes|
  {
    if c == "." then Found(v)
    else if c == ".." then Up(fs, v)
    else
      var d := Cross(fs, v);
      assert NodeOk(fs, d);
      FoundIsChild(fs.nodes, fs.nodes[d].children, c);
      Enter(fs, DirLookup(fs, d, c))
  }

  /** The fold of the step function over a list of components. */
  function Walk(fs: Fs, v: nat, comps: seq<string>): (r: Result)
    requires WellFormed(fs) && v < |fs.nodes|
    ensures r.Found? ==> r.v < |fs.nodes|
    decreases |comps|
  {
    if comps == [] then Found(v)
    else
      var r := StepTo(fs, v, comps[0]);
      if r.Found? then Walk(fs, r.v, comps[1..]) else r
  }

  lemma {:induction false} WalkConcat(fs: Fs, v: nat, p: seq<string>, q: seq<string>)
    requires WellFormed(fs) && v < |fs.nodes|
    ensures Walk(fs, v, p + q) == var r := Walk(fs, v, p); if r.Found? then Walk(fs, r.v, q) else r
    decreases |p|
  {
    hide StepTo, WellFormed;
    if p == [] {
      assert p + q == q;
    } else {
      assert (p + q)[0] == p[0] && (p + q)[1..] == p[1..] + q;
      var r := StepTo(fs, v, p[0]);
      if r.Found? {
        WalkConcat(fs, r.v, p[1..], q);
      }
    }
  }

  /** Where a path starts: at the root, or at the current directory. */
  function Start(cwd: int, path: string): (r: Result)
    requires NULL <= cwd
  {
    if path != "" && path[0] == '/' then Found(ROOT)
    else if cwd == NULL then Err(EINTERR)
    else Found(cwd)
  }

  function Resolve(fs: Fs, cwd: int, path: string): (r: Result)
    requires WellFormed(fs) && NULL <= cwd < |fs.nodes|
    ensures r.Found? ==> r.v < |fs.nodes|
  {
    var s := Start(cwd, path);
    if s.Found? then Walk(fs, s.v, Components(path)) else s
  }

  /** Resolving `p/q` is resolving the components of `q` from the result of `p`. */
  lemma ResolveJoin(fs: Fs, cwd: int, p: string, q: string)
    requires WellFormed(fs) && NULL <= cwd < |fs.nodes| && p != ""
    ensures Resolve(fs, cwd, p + "/" + q) ==
      var r := Resolve(fs, cwd, p); if r.Found? then Walk(fs, r.v, Components(q)) else r
  {
    hide Walk, Components;
    ComponentsJoin(p, q);
    var s := Start(cwd, p);
    assert (p + "/" + q)[0] == p[0];
    if s.Found? {
      WalkConcat(fs, s.v, Components(p), Components(q));
    }
  }

  // ---------------------------------------------------------------- the run invariant

  /** The root of mount `m` sits on a vnode that is covered by `m`. */
  ghost predicate MountOk(fs: Fs, m: nat)
    requires WellFormed(fs) && m < |fs.mounts|
  {
    var r := fs.mounts[m];
    assert NodeOk(fs, r);
    && r != ROOT && fs.nodes[r].parentIsMount && fs.nodes[fs.nodes[r].parent].mount == m
  }

  /** A covered vnode is the place of its mount, or was created in a covered directory and
      copied its mount from there. */
  ghost predicate CoverOk(fs: Fs, v: nat)
    requires WellFormed(fs) && v < |fs.nodes|
  {
    var m := fs.nodes[v].mount;
    assert NodeOk(fs, v);
    m != NULL ==>
      && v != ROOT && !fs.nodes[v].parentIsMount
      && (fs.nodes[fs.mounts[m]].parent == v || fs.nodes[fs.nodes[v].parent].mount == m)
  }

  /** Where `v` hangs: the entry of a directory that leads to it. */
  ghost predicate EntryOk(fs: Fs, v: nat)
    requires WellFormed(fs) && v < |fs.nodes|
  {
    assert NodeOk(fs, v);
    v != ROOT ==> (if fs.nodes[v].parentIsMount then v in fs.mounts else v in fs.nodes[fs.nodes[v].parent].children)
  }

  ghost predicate NamesUnique(fs: Fs, v: nat)
    requires WellFormed(fs) && v < |fs.nodes|
  {
    var cs := fs.nodes[v].children;
    assert NodeOk(fs, v);
    && |cs| <= MAX_CHILDREN
    && (fs.nodes[v].ops == Tmpfs ==> forall i, j :: 0 <= i < j < |cs| ==> fs.nodes[cs[i]].name != fs.nodes[cs[j]].name)
  }

  ghost predicate FsInv(fs: Fs) {
    && WellFormed(fs)
    && fs.nodes[ROOT].parentIsMount
    && (forall m :: 0 <= m < |fs.mounts| ==> MountOk(fs, m))
    && (forall v :: 0 <= v < |fs.nodes| ==> CoverOk(fs, v) && EntryOk(fs, v) && NamesUnique(fs, v))
  }
}
