/** The virtual file system operations themselves, on a table of vnodes updated in place,
    each proved to compute the function on values that the path laws are about. */
module VirtualFileSystem {
  import opened Paths
  import opened Namespace
  import opened FsUpdates
  import opened FsRuns

  /** Return code and out-parameter for a result: 0 and the vnode, or the error. */
  ghost predicate Returns(ret: int, target: int, r: Result) {
    if r.Found? then ret == 0 && target == r.v else ret == r.code && ret != 0
  }

  lemma {:induction false} WalkErrors(fs: Fs, v: nat, comps: seq<string>)
    requires WellFormed(fs) && v < |fs.nodes| && Walk(fs, v, comps).Err?
    ensures Walk(fs, v, comps).code < 0
    decreases |comps|
  {
    hide FindChild;
    if comps != [] {
      var d := Cross(fs, v);
      assert NodeOk(fs, d);
      FoundIsChild(fs.nodes, fs.nodes[d].children, comps[0]);
      var r := StepTo(fs, v, comps[0]);
      if r.Found? {
        WalkErrors(fs, r.v, comps[1..]);
      }
    }
  }

  lemma SpecialPaths(fs: Fs, v: nat)
    requires WellFormed(fs) && v < |fs.nodes|
    ensures Walk(fs, v, Components("")) == Found(v)
    ensures Walk(fs, v, Components("/")) == Found(v)
    ensures Walk(fs, v, Components(".")) == Found(v)
  {
  }

  method FindLastSlash(path: string) returns (k: int)
    ensures k == LastSlash(path)
  {
    var i := |path| - 1;
    while i >= 0
      invariant -1 <= i < |path|
      invariant LastSlash(path) == LastSlash(path[..i + 1])
    {
      assert path[..i + 1][..i] == path[..i];
      if path[i] == '/' {
        return i;
      }
      i := i - 1;
    }
    k := -1;
  }

  class Vfs {
    var nodes: seq<Vnode>
    var mounts: seq<nat>
    var filesystems: seq<string>

    function State(): Fs
      reads this
    {
      Fs(nodes, mounts)
    }

    ghost predicate Valid()
      reads this
    {
      FsInv(State())
    }

    constructor (files: seq<string>)
      requires |files| <= MAX_CHILDREN
      ensures Valid() && State() == Boot(files) && filesystems == ["tmpfs", "initramfs"]
    {
      var fs := Boot(files);
      nodes, mounts := fs.nodes, fs.mounts;
      filesystems := ["tmpfs", "initramfs"];
      new;
      BootInv(files);
    }

    /** `tmpfs_lookup`. */
    method LookupIn(d: nat, name: string) returns (ret: int, target: int)
      requires WellFormed(State()) && d < |nodes|
      ensures Returns(ret, target, DirLookup(State(), d, name))
    {
      target := NULL;
      assert NodeOk(State(), d);
      if !nodes[d].isDir {
        return EACCES, NULL;
      }
      var children := nodes[d].children;
      var i := 0;
      while i < |children|
        invariant 0 <= i <= |children|
        invariant FindChild(nodes, children, name) == FindChild(nodes, children[i..], name)
      {
        assert ChildOk(State(), d, children[i]);
        if nodes[children[i]].name == name {
          return 0, children[i];
        }
        assert children[i..][1..] == children[i + 1..];
        i := i + 1;
      }
      ret := ENOENT;
    }

    /** The `..` branch of the loop in `vfs_lookup`. */
    method GoUp(v: nat) returns (ret: int, target: int)
      requires WellFormed(State()) && v < |nodes|
      ensures Returns(ret, target, Up(State(), v))
    {
      assert NodeOk(State(), v);
      ret, target := 0, v;
      if v == ROOT {
        return;
      } else if nodes[v].parent == NULL {
        return EINTERR, NULL;
      } else {
        var p := nodes[v].parent;
        assert NodeOk(State(), p);
        if nodes[p].mount != NULL && mounts[nodes[p].mount] == v {
          if p == ROOT {
            target := ROOT;
          } else if nodes[p].parent != NULL {
            target := nodes[p].parent;
          } else {
            return EINTERR, NULL;
          }
        } else {
          target := p;
        }
      }
    }

    /** The name branch of the loop in `vfs_lookup`. */
    method GoDown(v: nat, name: string) returns (ret: int, target: int)
      requires WellFormed(State()) && v < |nodes| && IsName(name)
      ensures Returns(ret, target, StepTo(State(), v, name))
    {
      hide FindChild;
      assert NodeOk(State(), v);
      var current := v;
      if nodes[current].mount != NULL {
        current := mounts[nodes[current].mount];
      }
      assert NodeOk(State(), current);
      FoundIsChild(nodes, nodes[current].children, name);
      ret, target := LookupIn(current, name);
      if ret != 0 {
        return ret, NULL;
      }
      assert NodeOk(State(), target);
      if nodes[target].mount != NULL {
        target := mounts[nodes[target].mount];
      }
    }

    /** One round of the loop in `vfs_lookup`. */
    method Advance(current: nat, name: string) returns (ret: int, target: int)
      requires WellFormed(State()) && current < |nodes|
      ensures Returns(ret, target, StepTo(State(), current, name))
    {
      hide WellFormed, Up, DirLookup;
      if name == "." {
        ret, target := 0, current;
      } else if name == ".." {
        ret, target := GoUp(current);
      } else {
        ret, target := GoDown(current, name);
      }
    }

    /** `vfs_lookup`: the in-place tokenizer and the loop compute the walk over the
        components of the path. */
    method Lookup(pathname: string, cwd: int) returns (ret: int, target: int)
      requires WellFormed(State()) && NULL <= cwd < |nodes| && '\0' !in pathname
      ensures Returns(ret, target, Resolve(State(), cwd, pathname))
    {
      hide WellFormed, StepTo, Components, Walk;
      var n := |pathname|;
      var copy := new char[n + 1](i => if 0 <= i < n then pathname[i] else '\0');
      RootExists(State());
      var current: nat;
      if copy[0] == '/' {
        current := ROOT;
      } else {
        if cwd == NULL {
          return EINTERR, NULL;
        }
        current := cwd;
      }
      SpecialPaths(State(), current);
      if pathname == "/" {
        return 0, ROOT;
      }
      if |pathname| == 0 || pathname == "." {
        return 0, current;
      }
      ret, target := WalkBuffer(copy, pathname, current);
    }

    /** The loop of `vfs_lookup` over the mutable copy of the path. */
    method WalkBuffer(copy: array<char>, ghost path: string, start: nat) returns (ret: int, target: int)
      requires WellFormed(State()) && start < |nodes| && '\0' !in path
      requires copy.Length == |path| + 1 && copy[|path|] == '\0' && forall i :: 0 <= i < |path| ==> copy[i] == path[i]
      modifies copy
      ensures Returns(ret, target, Walk(State(), start, Components(path)))
    {
      hide WellFormed, StepTo, Components;
      ghost var fs, n := State(), |path|;
      ghost var rest := Components(path);
      ret := 0;
      var current: nat := start;
      assert copy[0..n] == path;
      var component, at := GetNextComponent(copy, 0, n);
      assert old(copy[at..n]) == path[at..];
      while component != -1
        invariant at <= n && current < |nodes| && copy[n] == '\0'
        invariant forall i :: at <= i < n ==> copy[i] == path[i]
        invariant rest == [] ==> component == -1
        invariant rest != [] ==>
          0 <= component && CString(copy[..], component) == rest[0] && Components(path[at..]) == rest[1..]
        invariant Walk(fs, current, rest) == Walk(fs, start, Components(path))
        decreases |rest|
      {
        var name := CString(copy[..], component);
        var next: int;
        ret, next := Advance(current, name);
        if ret != 0 {
          return ret, NULL;
        }
        current := next;
        rest := rest[1..];
        assert copy[at..n] == path[at..];
        label L:
        component, at := GetNextComponent(copy, at, n);
        assert old@L(copy[at..n]) == path[at..];
      }
      target := current;
    }

    /** `tmpfs_create_or_mkdir`, reached through the vnode's operations. */
    method CreateInDir(d: nat, name: string, isDir: bool, memory: bool) returns (ret: int, ghost result: Result)
      requires WellFormed(State()) && d < |nodes|
      modifies this`nodes
      ensures Outcome(State(), result) == CreateIn(old(State()), d, name, isDir, memory)
      ensures ret == (if result.Found? then 0 else result.code) && (ret == 0 <==> result.Found?)
    {
      hide WellFormed, FindChild;
      result := CreateIn(State(), d, name, isDir, memory).result;
      assert NodeOk(State(), d) by { DirNode(State(), d); }
      FoundIsChild(nodes, nodes[d].children, name);
      if nodes[d].ops == Initramfs {
        return EACCES, result;
      }
      if |name| == 0 {
        return EINVAL, result;
      }
      if !nodes[d].isDir {
        return EACCES, result;
      }
      if |name| >= MAX_FILE_NAME {
        return EINVAL, result;
      }
      var found, child := LookupIn(d, name);
      if found == 0 {
        return EEXIST, result;
      }
      if |nodes[d].children| >= MAX_CHILDREN {
        return ENOMEM, result;
      }
      if !memory {
        return ENOMEM, result;
      }
      var n := |nodes|;
      var vnode := Vnode(nodes[d].mount, Tmpfs, d, false, name, isDir, []);
      nodes := nodes[d := nodes[d].(children := nodes[d].children + [n])];
      nodes := nodes + [vnode];
      ret := 0;
    }

    /** The parent directory of a path to be created. */
    method FindParent(pathname: string, lastSlash: int, cwd: int) returns (ret: int, parent: int)
      requires WellFormed(State()) && NULL <= cwd < |nodes| && '\0' !in pathname && lastSlash == LastSlash(pathname)
      ensures Returns(ret, parent, ParentOf(State(), cwd, pathname))
    {
      hide WellFormed, Walk, Components, LastSlash;
      RootExists(State());
      if lastSlash == -1 {
        if cwd == NULL {
          return EINTERR, NULL;
        }
        return 0, cwd;
      } else if lastSlash == 0 {
        SpecialPaths(State(), ROOT);
        ret, parent := Lookup("/", cwd);
      } else {
        ret, parent := Lookup(pathname[..lastSlash], cwd);
      }
    }

    /** `vfs_mkdir`. */
    method VfsMkdir(pathname: string, cwd: int, memory: bool) returns (ret: int, ghost result: Result)
      requires Valid() && NULL <= cwd < |nodes| && '\0' !in pathname
      modifies this`nodes
      ensures Valid() && Outcome(State(), result) == Mkdir(old(State()), cwd, pathname, memory)
      ensures ret == (if result.Found? then 0 else result.code) && (ret == 0 <==> result.Found?)
    {
      hide MountOk, CoverOk, EntryOk, NamesUnique, NodeOk, WellFormed, Walk, Components, ParentOf, CreateIn, Resolve,
        LastSlash, FindChild, OpenCreate;
      AfterInv(State(), MakeDir(cwd, pathname, memory));
      result := Mkdir(State(), cwd, pathname, memory).result;
      var lastSlash := FindLastSlash(pathname);
      var parent: int;
      ret, parent := FindParent(pathname, lastSlash, cwd);
      if ret != 0 {
        return;
      }
      var name := pathname[lastSlash + 1..];
      if |name| == 0 {
        return EINVAL, result;
      }
      ret, result := CreateInDir(parent, name, true, memory);
    }

    /** The lookup and create part of `vfs_open` with the create flag. */
    method VfsOpenCreate(pathname: string, cwd: int, memory: bool) returns (ret: int, ghost result: Result)
      requires Valid() && NULL <= cwd < |nodes| && '\0' !in pathname
      modifies this`nodes
      ensures Valid() && Outcome(State(), result) == OpenCreate(old(State()), cwd, pathname, memory)
      ensures ret == (if result.Found? then 0 else result.code) && (ret == 0 <==> result.Found?)
    {
      hide MountOk, CoverOk, EntryOk, NamesUnique, NodeOk, WellFormed, Walk, Components, ParentOf, CreateIn, Resolve,
        LastSlash, FindChild, Mkdir;
      AfterInv(State(), MakeFile(cwd, pathname, memory));
      RootExists(State());
      var vnode: int;
      ret, vnode := Lookup(pathname, cwd);
      result := OpenCreate(State(), cwd, pathname, memory).result;
      if ret == 0 {
        return;
      }
      var lastSlash := FindLastSlash(pathname);
      var parent: int;
      if lastSlash == -1 && cwd == NULL {
        parent := ROOT;
      } else {
        ret, parent := FindParent(pathname, lastSlash, cwd);
        if ret != 0 {
          return;
        }
      }
      ret, result := CreateInDir(parent, pathname[lastSlash + 1..], false, memory);
    }

    /** `vfs_mount` of a tmpfs, or of a file system nobody registered. */
    method VfsMount(pathname: string, fsName: string, cwd: int, memory: bool) returns (ret: int, ghost result: Result)
      requires Valid() && NULL <= cwd < |nodes| && '\0' !in pathname
      requires fsName == "tmpfs" || fsName !in filesystems
      modifies this`nodes, this`mounts
      ensures Valid()
      ensures "tmpfs" !in filesystems || fsName != "tmpfs" ==> State() == old(State()) && ret == ENODEV
      ensures "tmpfs" in filesystems && fsName == "tmpfs" ==>
        Outcome(State(), result) == MountTmpfs(old(State()), cwd, pathname, memory)
        && ret == (if result.Found? then 0 else result.code) && (ret == 0 <==> result.Found?)
    {
      hide MountOk, CoverOk, EntryOk, NamesUnique, NodeOk, WellFormed, Walk, Components, Resolve;
      result := Err(ENODEV);
      var i := 0;
      while i < |filesystems| && filesystems[i] != fsName
        invariant 0 <= i <= |filesystems| && fsName !in filesystems[..i]
      {
        i := i + 1;
      }
      if i == |filesystems| {
        assert filesystems[..i] == filesystems;
        return ENODEV, result;
      }
      result := MountTmpfs(State(), cwd, pathname, memory).result;
      var target: int;
      ret, target := Lookup(pathname, cwd);
      if ret != 0 {
        return;
      }
      if nodes[target].mount != NULL || nodes[target].parentIsMount {
        return EBUSY, result;
      }
      if !memory {
        return ENOMEM, result;
      }
      CoverInv(State(), target);
      var m, root := |mounts|, |nodes|;
      nodes := nodes[target := nodes[target].(mount := m)];
      nodes := nodes + [Vnode(NULL, Tmpfs, target, true, "/", true, [])];
      mounts := mounts + [root];
      ret := 0;
    }
  }

  lemma DirNode(fs: Fs, d: nat)
    requires WellFormed(fs) && d < |fs.nodes|
    ensures NodeOk(fs, d)
    ensures forall i :: 0 <= i < |fs.nodes[d].children| ==> fs.nodes[d].children[i] < |fs.nodes|
  {
  }

  lemma RootExists(fs: Fs)
    requires WellFormed(fs)
    ensures ROOT < |fs.nodes|
  {
  }
}
