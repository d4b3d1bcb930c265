/** Creating files and directories and mounting, as functions on the vnode table, with what
    each of them does to the resolution of paths. */
module FsUpdates {
  import opened Paths
  import opened Namespace
  import opened Visible

  datatype Outcome = Outcome(fs: Fs, result: Result)

  /** Index of the last slash, or -1. */
  function LastSlash(path: string): (k: int)
    ensures -1 <= k < |path|
    ensures k >= 0 ==> path[k] == '/'
    ensures forall i :: k < i < |path| ==> path[i] != '/'
  {
    if path == "" then -1
    else if path[|path| - 1] == '/' then |path| - 1
    else LastSlash(path[..|path| - 1])
  }

  /** The directory part of a path for `mkdir` and `create`. */
  function ParentOf(fs: Fs, cwd: int, path: string): (r: Result)
    requires WellFormed(fs) && NULL <= cwd < |fs.nodes|
    ensures r.Found? ==> r.v < |fs.nodes|
  {
    var k := LastSlash(path);
    if k == -1 then (if cwd == NULL then Err(EINTERR) else Found(cwd))
    else if k == 0 then Found(ROOT)
    else Resolve(fs, cwd, path[..k])
  }

  function BaseName(path: string): string {
    path[LastSlash(path) + 1..]
  }

  /** A new vnode at the end of directory `d`; it copies the mount pointer of `d`. */
  function AddChild(fs: Fs, d: nat, name: string, isDir: bool): Fs
    requires d < |fs.nodes|
  {
    var n := |fs.nodes|;
    var dir := fs.nodes[d];
    fs.(nodes := fs.nodes[d := dir.(children := dir.children + [n])]
                 + [Vnode(dir.mount, Tmpfs, d, false, name, isDir, [])])
  }

  /** `tmpfs_create_or_mkdir`, and its read-only counterpart. */
  function CreateIn(fs: Fs, d: nat, name: string, isDir: bool, memory: bool): (o: Outcome)
    requires WellFormed(fs) && d < |fs.nodes|
  {
    var dir := fs.nodes[d];
    assert NodeOk(fs, d);
    if dir.ops == Initramfs then Outcome(fs, Err(EACCES))
    else if name == "" then Outcome(fs, Err(EINVAL))
    else if !dir.isDir then Outcome(fs, Err(EACCES))
    else if |name| >= MAX_FILE_NAME then Outcome(fs, Err(EINVAL))
    else if FindChild(fs.nodes, dir.children, name).Found? then Outcome(fs, Err(EEXIST))
    else if |dir.children| >= MAX_CHILDREN || !memory then Outcome(fs, Err(ENOMEM))
    else Outcome(AddChild(fs, d, name, isDir), Found(|fs.nodes|))
  }

  /** `vfs_mkdir`. */
  function Mkdir(fs: Fs, cwd: int, path: string, memory: bool): (o: Outcome)
    requires WellFormed(fs) && NULL <= cwd < |fs.nodes|
  {
    var parent := ParentOf(fs, cwd, path);
    if parent.Err? then Outcome(fs, parent)
    else if BaseName(path) == "" then Outcome(fs, Err(EINVAL))
    else CreateIn(fs, parent.v, BaseName(path), true, memory)
  }

  /** The lookup and create part of `vfs_open` with the create flag. */
  function OpenCreate(fs: Fs, cwd: int, path: string, memory: bool): (o: Outcome)
    requires WellFormed(fs) && NULL <= cwd < |fs.nodes|
  {
    var found := Resolve(fs, cwd, path);
    if found.Found? then Outcome(fs, found)
    else
      var parent := if LastSlash(path) == -1 && cwd == NULL then Found(ROOT) else ParentOf(fs, cwd, path);
      if parent.Err? then Outcome(fs, parent)
      else CreateIn(fs, parent.v, BaseName(path), false, memory)
  }

  /** The mount itself: `t` is covered by a fresh empty directory. */
  function Cover(fs: Fs, t: nat): Fs
    requires t < |fs.nodes|
  {
    Fs(fs.nodes[t := fs.nodes[t].(mount := |fs.mounts|)] + [Vnode(NULL, Tmpfs, t, true, "/", true, [])],
       fs.mounts + [|fs.nodes|])
  }

  /** `vfs_mount` of a tmpfs; on success the result is the new root. */
  function MountTmpfs(fs: Fs, cwd: int, path: string, memory: bool): (o: Outcome)
    requires WellFormed(fs) && NULL <= cwd < |fs.nodes|
  {
    var target := Resolve(fs, cwd, path);
    if target.Err? then Outcome(fs, target)
    else if fs.nodes[target.v].mount != NULL || fs.nodes[target.v].parentIsMount then Outcome(fs, Err(EBUSY))
    else if !memory then Outcome(fs, Err(ENOMEM))
    else Outcome(Cover(fs, target.v), Found(|fs.nodes|))
  }

  // ---------------------------------------------------------------- the invariant is kept

  lemma AddChildWellFormed(fs: Fs, d: nat, name: string, isDir: bool)
    requires WellFormed(fs) && d < |fs.nodes|
    ensures WellFormed(AddChild(fs, d, name, isDir))
  {
    var gs := AddChild(fs, d, name, isDir);
    forall v | 0 <= v < |gs.nodes| ensures NodeOk(gs, v) {
      if v < |fs.nodes| {
        assert NodeOk(fs, v);
        forall i | 0 <= i < |gs.nodes[v].children| ensures ChildOk(gs, v, gs.nodes[v].children[i]) {
          assert i < |fs.nodes[v].children| ==> ChildOk(fs, v, fs.nodes[v].children[i]);
        }
      } else {
        assert NodeOk(fs, d);
      }
    }
  }

  lemma AddChildInv(fs: Fs, d: nat, name: string, isDir: bool)
    requires FsInv(fs) && d < |fs.nodes| && |fs.nodes[d].children| < MAX_CHILDREN
    requires NodeOk(fs, d) && FindChild(fs.nodes, fs.nodes[d].children, name).Err?
    ensures FsInv(AddChild(fs, d, name, isDir))
  {
    hide FindChild;
    var gs := AddChild(fs, d, name, isDir);
    AddChildWellFormed(fs, d, name, isDir);
    FoundIsChild(fs.nodes, fs.nodes[d].children, name);
    forall m | 0 <= m < |gs.mounts| ensures MountOk(gs, m) {
      assert MountOk(fs, m);
      assert NodeOk(fs, fs.mounts[m]);
    }
    forall v | 0 <= v < |gs.nodes| ensures CoverOk(gs, v) && EntryOk(gs, v) && NamesUnique(gs, v) {
      assert NodeOk(gs, v);
      if v < |fs.nodes| {
        AddChildKeeps(fs, d, name, isDir, v);
      } else {
        var cs := gs.nodes[d].children;
        assert gs.nodes[v] == Vnode(fs.nodes[d].mount, Tmpfs, d, false, name, isDir, []);
        assert gs.nodes[d].mount == fs.nodes[d].mount && cs[|cs| - 1] == v;
      }
    }
  }

  lemma AddChildKeeps(fs: Fs, d: nat, name: string, isDir: bool, v: nat)
    requires FsInv(fs) && d < |fs.nodes| && v < |fs.nodes| && |fs.nodes[d].children| < MAX_CHILDREN
    requires NodeOk(fs, d)
    requires forall i :: 0 <= i < |fs.nodes[d].children| ==> fs.nodes[fs.nodes[d].children[i]].name != name
    requires WellFormed(AddChild(fs, d, name, isDir))
    ensures var gs := AddChild(fs, d, name, isDir); CoverOk(gs, v) && EntryOk(gs, v) && NamesUnique(gs, v)
  {
    var gs := AddChild(fs, d, name, isDir);
    assert CoverOk(fs, v) && EntryOk(fs, v) && NamesUnique(fs, v) && NodeOk(fs, v) && NodeOk(gs, v);
    forall i | 0 <= i < |fs.nodes[v].children|
      ensures gs.nodes[fs.nodes[v].children[i]].name == fs.nodes[fs.nodes[v].children[i]].name
    {
      assert ChildOk(fs, v, fs.nodes[v].children[i]);
    }
  }

  lemma CoverWellFormed(fs: Fs, t: nat)
    requires WellFormed(fs) && t < |fs.nodes|
    ensures WellFormed(Cover(fs, t))
  {
    var gs := Cover(fs, t);
    forall v | 0 <= v < |gs.nodes| ensures NodeOk(gs, v) {
      if v < |fs.nodes| {
        assert NodeOk(fs, v);
        forall i | 0 <= i < |gs.nodes[v].children| ensures ChildOk(gs, v, gs.nodes[v].children[i]) {
          assert ChildOk(fs, v, fs.nodes[v].children[i]);
        }
      }
    }
  }

  lemma CoverInv(fs: Fs, t: nat)
    requires FsInv(fs) && t < |fs.nodes| && fs.nodes[t].mount == NULL && !fs.nodes[t].parentIsMount
    ensures FsInv(Cover(fs, t))
  {
    var gs := Cover(fs, t);
    CoverWellFormed(fs, t);
    forall m | 0 <= m < |gs.mounts| ensures MountOk(gs, m) {
      if m < |fs.mounts| {
        assert MountOk(fs, m);
        assert NodeOk(fs, fs.mounts[m]);
      } else {
        assert NodeOk(gs, |fs.nodes|);
      }
    }
    forall v | 0 <= v < |gs.nodes| ensures CoverOk(gs, v) && EntryOk(gs, v) && NamesUnique(gs, v) {
      assert NodeOk(gs, v);
      if v < |fs.nodes| {
        CoverKeeps(fs, t, v);
      } else {
        assert gs.mounts[|fs.mounts|] == v;
      }
    }
  }

  lemma CoverKeeps(fs: Fs, t: nat, v: nat)
    requires FsInv(fs) && t < |fs.nodes| && v < |fs.nodes| && fs.nodes[t].mount == NULL && !fs.nodes[t].parentIsMount
    requires WellFormed(Cover(fs, t))
    ensures CoverOk(Cover(fs, t), v) && EntryOk(Cover(fs, t), v) && NamesUnique(Cover(fs, t), v)
  {
    var gs := Cover(fs, t);
    assert CoverOk(fs, v) && EntryOk(fs, v) && NamesUnique(fs, v) && NodeOk(fs, v) && NodeOk(gs, v);
    forall i | 0 <= i < |fs.nodes[v].children|
      ensures gs.nodes[fs.nodes[v].children[i]].name == fs.nodes[fs.nodes[v].children[i]].name
    {
      assert ChildOk(fs, v, fs.nodes[v].children[i]);
    }
  }

  // ---------------------------------------------------------------- creation is framed

  /** Old names keep their vnode when a directory grows at the end; only the new name is new. */
  lemma {:induction false} FindChildFrame(nodes: seq<Vnode>, more: seq<Vnode>, children: seq<nat>, n: nat, c: string)
    requires forall i :: 0 <= i < |children| ==> children[i] < |nodes| <= |more|
    requires forall i :: 0 <= i < |children| ==> more[children[i]].name == nodes[children[i]].name
    requires n < |more|
    ensures FindChild(more, children, c) == FindChild(nodes, children, c)
    ensures FindChild(more, children + [n], c) ==
      var r := FindChild(nodes, children, c);
      if r.Found? then r else if more[n].name == c then Found(n) else Err(ENOENT)
  {
    if children == [] {
      assert children + [n] == [n];
      assert [n][1..] == [];
    } else {
      assert (children + [n])[1..] == children[1..] + [n];
      FindChildFrame(nodes, more, children[1..], n, c);
    }
  }

  /** One step in the file system with the new child, starting anywhere in the old one. */
  lemma StepFramed(fs: Fs, d: nat, name: string, isDir: bool, v: nat, c: string)
    requires FsInv(fs) && d < |fs.nodes| && v < |fs.nodes| && WellFormed(AddChild(fs, d, name, isDir))
    requires DirLookup(fs, d, name).Err?
    ensures var gs := AddChild(fs, d, name, isDir);
      var r, s := StepTo(fs, v, c), StepTo(gs, v, c);
      && (r.Found? ==> s == r)
      && (s.Found? && s.v < |fs.nodes| ==> s == r)
      && (r.Err? && !(IsName(c) && c == name && Cross(fs, v) == d) ==> s == r)
  {
    hide FindChild;
    var gs := AddChild(fs, d, name, isDir);
    if IsName(c) {
      var e := Cross(fs, v);
      CrossUncovered(fs, v);
      assert NodeOk(fs, e) && NodeOk(gs, e) && NodeOk(fs, v);
      assert Cross(gs, v) == e;
      forall i | 0 <= i < |fs.nodes[e].children|
        ensures gs.nodes[fs.nodes[e].children[i]].name == fs.nodes[fs.nodes[e].children[i]].name
      {
        assert ChildOk(fs, e, fs.nodes[e].children[i]);
      }
      FindChildFrame(fs.nodes, gs.nodes, fs.nodes[e].children, |fs.nodes|, c);
      FoundIsChild(fs.nodes, fs.nodes[e].children, c);
      CrossFramed(fs, d, name, isDir, DirLookup(fs, e, c));
    } else if c == ".." {
      assert NodeOk(fs, v);
      assert fs.nodes[v].parent != NULL ==> NodeOk(fs, fs.nodes[v].parent);
    }
  }

  lemma CrossFramed(fs: Fs, d: nat, name: string, isDir: bool, r: Result)
    requires WellFormed(fs) && d < |fs.nodes| && WellFormed(AddChild(fs, d, name, isDir))
    requires r.Found? ==> r.v < |fs.nodes|
    ensures Enter(AddChild(fs, d, name, isDir), r) == Enter(fs, r)
  {
  }

  /** Every walk that succeeded still ends at the same vnode. */
  lemma {:induction false} WalkFramed(fs: Fs, d: nat, name: string, isDir: bool, v: nat, comps: seq<string>)
    requires FsInv(fs) && d < |fs.nodes| && v < |fs.nodes| && WellFormed(AddChild(fs, d, name, isDir))
    requires DirLookup(fs, d, name).Err? && Walk(fs, v, comps).Found?
    ensures Walk(AddChild(fs, d, name, isDir), v, comps) == Walk(fs, v, comps)
    decreases |comps|
  {
    hide StepTo, MountOk, CoverOk, EntryOk, NamesUnique, WellFormed, AddChild, DirLookup;
    if comps != [] {
      StepFramed(fs, d, name, isDir, v, comps[0]);
      AddChildGrows(fs, d, name, isDir);
      WalkFramed(fs, d, name, isDir, StepTo(fs, v, comps[0]).v, comps[1..]);
    }
  }

  lemma AddChildGrows(fs: Fs, d: nat, name: string, isDir: bool)
    requires d < |fs.nodes|
    ensures |AddChild(fs, d, name, isDir).nodes| == |fs.nodes| + 1
  {
  }

  /** Whether a walk comes to vnode `n`. */
  ghost predicate Visits(fs: Fs, v: nat, comps: seq<string>, n: nat)
    requires WellFormed(fs) && v < |fs.nodes|
    decreases |comps|
  {
    v == n || (comps != [] && StepTo(fs, v, comps[0]).Found? && Visits(fs, StepTo(fs, v, comps[0]).v, comps[1..], n))
  }

  /** And every walk that succeeds now without coming to the new vnode succeeded before. */
  lemma {:induction false} WalkOnlyNew(fs: Fs, d: nat, name: string, isDir: bool, v: nat, comps: seq<string>)
    requires FsInv(fs) && d < |fs.nodes| && v < |fs.nodes| && WellFormed(AddChild(fs, d, name, isDir))
    requires |AddChild(fs, d, name, isDir).nodes| == |fs.nodes| + 1
    requires DirLookup(fs, d, name).Err?
    requires Walk(AddChild(fs, d, name, isDir), v, comps).Found?
    requires !Visits(AddChild(fs, d, name, isDir), v, comps, |fs.nodes|)
    ensures Walk(fs, v, comps) == Walk(AddChild(fs, d, name, isDir), v, comps)
    decreases |comps|
  {
    hide StepTo, MountOk, CoverOk, EntryOk, NamesUnique, WellFormed, AddChild, DirLookup;
    if comps != [] {
      var gs := AddChild(fs, d, name, isDir);
      StepFramed(fs, d, name, isDir, v, comps[0]);
      var s := StepTo(gs, v, comps[0]);
      assert Visits(gs, s.v, comps[1..], s.v);
      WalkOnlyNew(fs, d, name, isDir, s.v, comps[1..]);
    }
  }

  lemma PathSplit(path: string)
    requires LastSlash(path) >= 0
    ensures Components(path) == Components(path[..LastSlash(path)]) + Components(BaseName(path))
    ensures BaseName(path) != "" ==> Components(BaseName(path)) == [BaseName(path)]
  {
    hide Components, LastSlash;
    var k := LastSlash(path);
    ComponentsJoin(path[..k], path[k + 1..]);
    assert path[..k] + "/" + path[k + 1..] == path;
    if BaseName(path) != "" {
      ComponentsOfName(BaseName(path));
    }
  }

  /** The parent of an absolute path is what its directory part resolves to. */
  lemma ParentOfAbsolute(fs: Fs, cwd: int, path: string)
    requires FsInv(fs) && NULL <= cwd < |fs.nodes| && path != "" && path[0] == '/'
    ensures LastSlash(path) >= 0
    ensures ParentOf(fs, cwd, path) == Walk(fs, ROOT, Components(path[..LastSlash(path)]))
    ensures ParentOf(fs, cwd, path).Found? ==> Shown(fs, ParentOf(fs, cwd, path).v)
  {
    hide MountOk, CoverOk, EntryOk, NamesUnique, NodeOk;
    var k := LastSlash(path);
    if k == 0 {
      assert path[..0] == "";
    }
    if ParentOf(fs, cwd, path).Found? {
      WalkShown(fs, ROOT, Components(path[..k]));
    }
  }

  /** After a creation in `d`, its new name leads to the new vnode if and only if `d` is not
      covered by a mount. */
  lemma NewNameIff(fs: Fs, d: nat, name: string, isDir: bool)
    requires FsInv(fs) && d < |fs.nodes| && WellFormed(AddChild(fs, d, name, isDir))
    requires DirLookup(fs, d, name) == Err(ENOENT) && IsName(name)
    ensures StepTo(AddChild(fs, d, name, isDir), d, name) == Found(|fs.nodes|) <==> fs.nodes[d].mount == NULL
  {
    hide FindChild;
    var gs, e := AddChild(fs, d, name, isDir), Cross(fs, d);
    CrossUncovered(fs, d);
    assert NodeOk(fs, d) && NodeOk(fs, e) && NodeOk(gs, e);
    forall i | 0 <= i < |fs.nodes[e].children|
      ensures gs.nodes[fs.nodes[e].children[i]].name == fs.nodes[fs.nodes[e].children[i]].name
    {
      assert ChildOk(fs, e, fs.nodes[e].children[i]);
    }
    FindChildFrame(fs.nodes, gs.nodes, fs.nodes[e].children, |fs.nodes|, name);
    FoundIsChild(fs.nodes, fs.nodes[e].children, name);
    CrossFramed(fs, d, name, isDir, DirLookup(fs, e, name));
  }

  /** What a successful creation is: a new child in the directory the path names. */
  lemma CreateInEffect(fs: Fs, d: nat, name: string, isDir: bool, memory: bool)
    requires FsInv(fs) && d < |fs.nodes|
    ensures var o := CreateIn(fs, d, name, isDir, memory);
      && FsInv(o.fs)
      && (o.result.Err? ==> o.fs == fs)
      && (o.result.Found? ==>
            && o.fs == AddChild(fs, d, name, isDir) && o.result == Found(|fs.nodes|)
            && name != "" && DirLookup(fs, d, name) == Err(ENOENT))
  {
    hide FindChild, MountOk, CoverOk, EntryOk, NamesUnique;
    assert NodeOk(fs, d);
    FoundIsChild(fs.nodes, fs.nodes[d].children, name);
    if CreateIn(fs, d, name, isDir, memory).result.Found? {
      AddChildInv(fs, d, name, isDir);
    }
  }

  /** The components of a path before the last one. */
  function Above(path: string): seq<string> {
    if LastSlash(path) == -1 then [] else Components(path[..LastSlash(path)])
  }

  lemma ParentWalk(fs: Fs, cwd: int, path: string)
    requires WellFormed(fs) && NULL <= cwd < |fs.nodes| && ParentOf(fs, cwd, path).Found? && BaseName(path) != ""
    ensures Start(cwd, path).Found? && ParentOf(fs, cwd, path) == Walk(fs, Start(cwd, path).v, Above(path))
    ensures Components(path) == Above(path) + [BaseName(path)]
  {
    hide Components, LastSlash, WellFormed;
    var k := LastSlash(path);
    if k == -1 {
      ComponentsOfName(path);
    } else {
      PathSplit(path);
      assert path[..0] == "";
      ComponentsEmpty();
    }
  }

  /** After a successful creation, from any current directory, the path resolves to the new vnode
      if and only if the directory it names is not covered by a mount. */
  lemma NewPathResolves(fs: Fs, cwd: int, path: string, isDir: bool, memory: bool)
    requires FsInv(fs) && NULL <= cwd < |fs.nodes|
    requires ParentOf(fs, cwd, path).Found? && IsName(BaseName(path))
    requires CreateIn(fs, ParentOf(fs, cwd, path).v, BaseName(path), isDir, memory).result.Found?
    ensures var d := ParentOf(fs, cwd, path).v; var o := CreateIn(fs, d, BaseName(path), isDir, memory);
      && WellFormed(o.fs) && cwd < |o.fs.nodes|
      && (Resolve(o.fs, cwd, path) == Found(|fs.nodes|) <==> fs.nodes[d].mount == NULL)
  {
    hide MountOk, CoverOk, EntryOk, NamesUnique, NodeOk, Components, LastSlash, FindChild, StepTo, AddChild, CreateIn,
      DirLookup, BaseName, Above, ParentOf;
    var d, name := ParentOf(fs, cwd, path).v, BaseName(path);
    CreateInEffect(fs, d, name, isDir, memory);
    AddChildGrows(fs, d, name, isDir);
    ParentWalk(fs, cwd, path);
    var gs, v, above := AddChild(fs, d, name, isDir), Start(cwd, path).v, Above(path);
    WalkFramed(fs, d, name, isDir, v, above);
    WalkConcat(gs, v, above, [name]);
    NewNameIff(fs, d, name, isDir);
    WalkOne(gs, d, name);
  }

  lemma WalkOne(fs: Fs, v: nat, c: string)
    requires WellFormed(fs) && v < |fs.nodes|
    ensures Walk(fs, v, [c]) == StepTo(fs, v, c)
  {
  }

  lemma CreateFramed(fs: Fs, d: nat, name: string, isDir: bool, memory: bool)
    requires FsInv(fs) && d < |fs.nodes|
    ensures var o := CreateIn(fs, d, name, isDir, memory);
      && FsInv(o.fs) && |fs.nodes| <= |o.fs.nodes|
      && (o.result.Err? ==> o.fs == fs)
      && (o.result.Found? ==> o.result == Found(|fs.nodes|))
      && (forall v: nat, comps :: v < |fs.nodes| && Walk(fs, v, comps).Found? ==>
           Walk(o.fs, v, comps) == Walk(fs, v, comps))
  {
    hide MountOk, CoverOk, EntryOk, NamesUnique, NodeOk, StepTo, AddChild, CreateIn, DirLookup, Walk, FindChild;
    CreateInEffect(fs, d, name, isDir, memory);
    AddChildGrows(fs, d, name, isDir);
    var o := CreateIn(fs, d, name, isDir, memory);
    if o.result.Found? {
      forall v: nat, comps | v < |fs.nodes| && Walk(fs, v, comps).Found?
        ensures Walk(o.fs, v, comps) == Walk(fs, v, comps)
      {
        WalkFramed(fs, d, name, isDir, v, comps);
      }
    }
  }

  lemma AbsoluteParent(fs: Fs, cwd: int, path: string)
    requires FsInv(fs) && NULL <= cwd < |fs.nodes| && ParentOf(fs, cwd, path).Found?
    ensures path != "" && path[0] == '/' ==> fs.nodes[ParentOf(fs, cwd, path).v].mount == NULL
  {
    hide MountOk, CoverOk, EntryOk, NamesUnique, NodeOk, ParentOf;
    if path != "" && path[0] == '/' {
      ParentOfAbsolute(fs, cwd, path);
      ShownUncovered(fs, ParentOf(fs, cwd, path).v);
    }
  }

  /** When a creation succeeds. */
  ghost predicate Creatable(fs: Fs, d: nat, name: string, memory: bool)
    requires WellFormed(fs) && d < |fs.nodes|
  {
    var dir := fs.nodes[d];
    && dir.ops == Tmpfs && dir.isDir && 0 < |name| < MAX_FILE_NAME
    && !HasChild(fs, d, name) && |dir.children| < MAX_CHILDREN && memory
  }

  ghost predicate HasChild(fs: Fs, d: nat, name: string)
    requires WellFormed(fs) && d < |fs.nodes|
  {
    exists x :: x in fs.nodes[d].children && x < |fs.nodes| && fs.nodes[x].name == name
  }

  /** Success and each error of a creation, from the directory and the name. */
  lemma CreateIffs(fs: Fs, d: nat, name: string, isDir: bool, memory: bool)
    requires WellFormed(fs) && d < |fs.nodes|
    ensures var dir, r := fs.nodes[d], CreateIn(fs, d, name, isDir, memory).result;
      && (r.Found? <==> Creatable(fs, d, name, memory))
      && (r == Err(EACCES) <==> dir.ops == Initramfs || (name != "" && !dir.isDir))
      && (r == Err(EINVAL) <==> dir.ops == Tmpfs && (name == "" || (dir.isDir && |name| >= MAX_FILE_NAME)))
      && (r == Err(EEXIST) <==> dir.ops == Tmpfs && dir.isDir && 0 < |name| < MAX_FILE_NAME && HasChild(fs, d, name))
      && (r.Found? || r.code in {EACCES, EINVAL, EEXIST, ENOMEM})
  {
    hide FindChild;
    assert NodeOk(fs, d);
    FoundIsChild(fs.nodes, fs.nodes[d].children, name);
    forall x | x in fs.nodes[d].children ensures x < |fs.nodes| {
      var i :| 0 <= i < |fs.nodes[d].children| && fs.nodes[d].children[i] == x;
      assert ChildOk(fs, d, x);
    }
  }

  /** When `mkdir` succeeds, and what it answers when the directory is missing or the name empty. */
  lemma MkdirIff(fs: Fs, cwd: int, path: string, memory: bool)
    requires WellFormed(fs) && NULL <= cwd < |fs.nodes|
    ensures var parent, r := ParentOf(fs, cwd, path), Mkdir(fs, cwd, path, memory).result;
      && (r.Found? <==> parent.Found? && Creatable(fs, parent.v, BaseName(path), memory))
      && (parent.Err? ==> r == parent)
      && (parent.Found? && BaseName(path) == "" ==> r == Err(EINVAL))
  {
    hide CreateIn, Creatable, WellFormed, ParentOf, BaseName;
    var parent := ParentOf(fs, cwd, path);
    if parent.Found? {
      CreateIffs(fs, parent.v, BaseName(path), true, memory);
      EmptyName(fs, parent.v, memory);
    }
  }

  /** When `open` with the create flag succeeds on a path that does not resolve. */
  lemma OpenCreateIff(fs: Fs, cwd: int, path: string, memory: bool)
    requires WellFormed(fs) && NULL <= cwd < |fs.nodes| && Resolve(fs, cwd, path).Err?
    ensures var nowhere := cwd == NULL && LastSlash(path) == -1;
      var parent, r := ParentOf(fs, cwd, path), OpenCreate(fs, cwd, path, memory).result;
      && (nowhere ==> (r.Found? <==> Creatable(fs, ROOT, path, memory)))
      && (!nowhere ==> (r.Found? <==> parent.Found? && Creatable(fs, parent.v, BaseName(path), memory)))
      && (!nowhere && parent.Err? ==> r == parent)
  {
    hide CreateIn, Creatable, WellFormed, ParentOf, Resolve;
    var parent := ParentOf(fs, cwd, path);
    assert |fs.nodes| > 0 by {
      NoEmptyTable(fs);
    }
    assert LastSlash(path) == -1 ==> BaseName(path) == path;
    CreateIffs(fs, ROOT, BaseName(path), false, memory);
    if parent.Found? {
      CreateIffs(fs, parent.v, BaseName(path), false, memory);
    }
  }

  lemma NoEmptyTable(fs: Fs)
    requires WellFormed(fs)
    ensures |fs.nodes| > 0
  {
  }

  lemma EmptyName(fs: Fs, d: nat, memory: bool)
    requires WellFormed(fs) && d < |fs.nodes|
    ensures !Creatable(fs, d, "", memory)
  {
  }

  /** When a mount of a tmpfs succeeds, and why it does not. */
  lemma MountIff(fs: Fs, cwd: int, path: string, memory: bool)
    requires WellFormed(fs) && NULL <= cwd < |fs.nodes|
    ensures var target, r := Resolve(fs, cwd, path), MountTmpfs(fs, cwd, path, memory).result;
      && (target.Err? ==> r == target)
      && (target.Found? ==>
           var busy := fs.nodes[target.v].mount != NULL || fs.nodes[target.v].parentIsMount;
           && (r.Found? <==> !busy && memory)
           && (r == Err(EBUSY) <==> busy)
           && (r.Err? ==> r.code in {EBUSY, ENOMEM}))
      && (r.Err? ==> MountTmpfs(fs, cwd, path, memory).fs == fs)
  {
  }

  /** A creation in `d` makes one vnode, empty, of the given name and kind, below `d`, and changes
      nothing else but that `d` has it as its last child. */
  ghost predicate MadeIn(fs: Fs, d: nat, name: string, isDir: bool, o: Outcome)
    requires d < |fs.nodes|
  {
    var n := |fs.nodes|;
    && o.result == Found(n) && |o.fs.nodes| == n + 1 && o.fs.mounts == fs.mounts
    && o.fs.nodes[n].name == name && o.fs.nodes[n].isDir == isDir && o.fs.nodes[n].children == []
    && o.fs.nodes[n].parent == d && !o.fs.nodes[n].parentIsMount && o.fs.nodes[n].mount == fs.nodes[d].mount
    && o.fs.nodes[n].ops == Tmpfs
    && o.fs.nodes[d] == fs.nodes[d].(children := fs.nodes[d].children + [n])
    && forall v :: 0 <= v < n && v != d ==> o.fs.nodes[v] == fs.nodes[v]
  }

  lemma CreateMakes(fs: Fs, d: nat, name: string, isDir: bool, memory: bool)
    requires WellFormed(fs) && d < |fs.nodes| && CreateIn(fs, d, name, isDir, memory).result.Found?
    ensures MadeIn(fs, d, name, isDir, CreateIn(fs, d, name, isDir, memory))
  {
  }

  /** A mount makes one vnode, an empty directory below the target in which every name that is not
      empty or too long can be created, and changes nothing else but that the target is covered. */
  lemma MountMakes(fs: Fs, cwd: int, path: string, memory: bool, name: string)
    requires WellFormed(fs) && NULL <= cwd < |fs.nodes| && MountTmpfs(fs, cwd, path, memory).result.Found?
    requires WellFormed(MountTmpfs(fs, cwd, path, memory).fs)
    ensures var o, n, t := MountTmpfs(fs, cwd, path, memory), |fs.nodes|, Resolve(fs, cwd, path).v;
      && Resolve(fs, cwd, path).Found? && o.result == Found(n) && |o.fs.nodes| == n + 1
      && o.fs.nodes[n].name == "/" && o.fs.nodes[n].isDir && o.fs.nodes[n].children == []
      && o.fs.nodes[n].parent == t && o.fs.nodes[n].parentIsMount && o.fs.nodes[n].mount == NULL
      && (Creatable(o.fs, n, name, true) <==> 0 < |name| < MAX_FILE_NAME)
      && o.fs.mounts == fs.mounts + [n] && o.fs.nodes[t] == fs.nodes[t].(mount := |fs.mounts|)
      && forall v :: 0 <= v < n && v != t ==> o.fs.nodes[v] == fs.nodes[v]
  {
    hide Resolve, WellFormed;
  }

  /** Looking for a name in what was made tells a file from a directory. */
  lemma MadeLooks(fs: Fs, d: nat, name: string, isDir: bool, o: Outcome, c: string)
    requires d < |fs.nodes| && MadeIn(fs, d, name, isDir, o) && WellFormed(o.fs) && fs.nodes[d].mount == NULL
      && IsName(c)
    ensures StepTo(o.fs, |fs.nodes|, c) == Err(if isDir then ENOENT else EACCES)
  {
  }

  /** A creation at the end of a path: nothing that resolved before resolves differently, from
      any start, and the path resolves to the new vnode if and only if the directory above it is
      not covered, which for an absolute path it never is. */
  ghost predicate Created(fs: Fs, cwd: int, path: string, isDir: bool, o: Outcome)
    requires WellFormed(fs) && WellFormed(o.fs) && NULL <= cwd < |fs.nodes| <= |o.fs.nodes|
  {
    var parent := ParentOf(fs, cwd, path);
    && (forall v: nat, comps :: v < |fs.nodes| && Walk(fs, v, comps).Found? ==>
         Walk(o.fs, v, comps) == Walk(fs, v, comps))
    && (o.result.Err? ==> o.fs == fs)
    && (o.result.Found? ==> parent.Found? && MadeIn(fs, parent.v, BaseName(path), isDir, o))
    && (o.result.Found? && IsName(BaseName(path)) ==>
         && (Resolve(o.fs, cwd, path) == o.result <==> fs.nodes[parent.v].mount == NULL)
         && (path != "" && path[0] == '/' ==> Resolve(o.fs, cwd, path) == o.result))
  }

  /** So a name looked up below a path just made, in a directory that is not covered, is EACCES
      after a file was made and ENOENT after a directory was. */
  lemma CreatedLooks(fs: Fs, cwd: int, path: string, isDir: bool, o: Outcome, c: string)
    requires FsInv(fs) && FsInv(o.fs) && NULL <= cwd < |fs.nodes| <= |o.fs.nodes| && Created(fs, cwd, path, isDir, o)
    requires o.result.Found? && IsName(BaseName(path)) && path != "" && IsName(c) && Components(c) == [c]
    requires fs.nodes[ParentOf(fs, cwd, path).v].mount == NULL
    ensures Resolve(o.fs, cwd, path + "/" + c) == Err(if isDir then ENOENT else EACCES)
  {
    hide Components, Walk, MadeIn, WellFormed, StepTo, ParentOf, MountOk, CoverOk, EntryOk, NamesUnique;
    ResolveJoin(o.fs, cwd, path, c);
    MadeLooks(fs, ParentOf(fs, cwd, path).v, BaseName(path), isDir, o, c);
    MadeAtEnd(fs, ParentOf(fs, cwd, path).v, BaseName(path), isDir, o);
    WalkOne(o.fs, |fs.nodes|, c);
  }

  lemma MadeAtEnd(fs: Fs, d: nat, name: string, isDir: bool, o: Outcome)
    requires d < |fs.nodes| && MadeIn(fs, d, name, isDir, o)
    ensures o.result == Found(|fs.nodes|) && |o.fs.nodes| == |fs.nodes| + 1
  {
  }

  lemma CreatedAt(fs: Fs, cwd: int, path: string, isDir: bool, memory: bool)
    requires FsInv(fs) && NULL <= cwd < |fs.nodes| && ParentOf(fs, cwd, path).Found?
    ensures var o := CreateIn(fs, ParentOf(fs, cwd, path).v, BaseName(path), isDir, memory);
      FsInv(o.fs) && |fs.nodes| <= |o.fs.nodes| && Created(fs, cwd, path, isDir, o)
  {
    hide MountOk, CoverOk, EntryOk, NamesUnique, NodeOk, CreateIn, BaseName, Walk, ParentOf, Resolve, MadeIn;
    var d := ParentOf(fs, cwd, path).v;
    if CreateIn(fs, d, BaseName(path), isDir, memory).result.Found? {
      CreateMakes(fs, d, BaseName(path), isDir, memory);
    }
    CreateFramed(fs, d, BaseName(path), isDir, memory);
    AbsoluteParent(fs, cwd, path);
    if CreateIn(fs, d, BaseName(path), isDir, memory).result.Found? && IsName(BaseName(path)) {
      NewPathResolves(fs, cwd, path, isDir, memory);
    }
  }

  /** `mkdir` is such a creation, or changes nothing. */
  lemma MkdirFramed(fs: Fs, cwd: int, path: string, memory: bool)
    requires FsInv(fs) && NULL <= cwd < |fs.nodes|
    ensures var o := Mkdir(fs, cwd, path, memory);
      FsInv(o.fs) && |fs.nodes| <= |o.fs.nodes| && Created(fs, cwd, path, true, o)
  {
    hide MountOk, CoverOk, EntryOk, NamesUnique, NodeOk, CreateIn, BaseName, Walk, ParentOf, Resolve;
    if ParentOf(fs, cwd, path).Found? {
      CreatedAt(fs, cwd, path, true, memory);
    }
  }

  /** `open` with the create flag: a path that resolves is left alone; else it is such a creation,
      unless there is no current directory to start from and no slash: then the file is created in
      the root, where the path does not look. */
  lemma OpenCreateFramed(fs: Fs, cwd: int, path: string, memory: bool)
    requires FsInv(fs) && NULL <= cwd < |fs.nodes|
    ensures var o := OpenCreate(fs, cwd, path, memory);
      && FsInv(o.fs) && |fs.nodes| <= |o.fs.nodes|
      && if Resolve(fs, cwd, path).Found? then o == Outcome(fs, Resolve(fs, cwd, path))
         else if cwd == NULL && LastSlash(path) == -1 then
           && (forall v: nat, comps :: v < |fs.nodes| && Walk(fs, v, comps).Found? ==>
                Walk(o.fs, v, comps) == Walk(fs, v, comps))
           && (if o.result.Found? then MadeIn(fs, ROOT, BaseName(path), false, o) else o.fs == fs)
           && Resolve(o.fs, cwd, path) == Err(EINTERR)
         else Created(fs, cwd, path, false, o)
  {
    hide MountOk, CoverOk, EntryOk, NamesUnique, NodeOk, CreateIn, BaseName, Walk, ParentOf, Resolve, Created;
    if Resolve(fs, cwd, path).Err? {
      if cwd == NULL && LastSlash(path) == -1 {
        CreateFramed(fs, ROOT, BaseName(path), false, memory);
        if OpenCreate(fs, cwd, path, memory).result.Found? {
          CreateMakes(fs, ROOT, BaseName(path), false, memory);
        }
        NowhereToStart(OpenCreate(fs, cwd, path, memory).fs, path);
      } else if ParentOf(fs, cwd, path).Found? {
        CreatedAt(fs, cwd, path, false, memory);
      } else {
        NothingCreated(fs, cwd, path, false, ParentOf(fs, cwd, path));
      }
    }
  }

  lemma NothingCreated(fs: Fs, cwd: int, path: string, isDir: bool, r: Result)
    requires WellFormed(fs) && NULL <= cwd < |fs.nodes| && r.Err?
    ensures Created(fs, cwd, path, isDir, Outcome(fs, r))
  {
  }

  lemma NowhereToStart(fs: Fs, path: string)
    requires WellFormed(fs) && LastSlash(path) == -1
    ensures Resolve(fs, NULL, path) == Err(EINTERR)
  {
  }
}
