/** Whole runs of the file system: what `vfs_init` sets up, then any sequence of directory
    creations, file creations and tmpfs mounts, from any current directories. */
module FsRuns {
  import opened Paths
  import opened Namespace
  import opened Visible
  import opened FsUpdates
  import opened Mounting

  datatype Op =
    | MakeDir(cwd: int, path: string, memory: bool)
    | MakeFile(cwd: int, path: string, memory: bool)
    | MountOn(cwd: int, path: string, memory: bool)

  /** The root file system with the read-only initramfs mounted on `/initramfs`, holding the
      given files. */
  function Boot(files: seq<string>): (fs: Fs)
    ensures |fs.nodes| == 3 + |files|
  {
    Fs([Vnode(NULL, Tmpfs, NULL, true, "/", true, [1]),
        Vnode(0, Tmpfs, ROOT, false, "initramfs", true, []),
        Vnode(NULL, Initramfs, 1, true, "", true, seq(|files|, i requires 0 <= i < |files| => 3 + i))]
       + seq(|files|, i requires 0 <= i < |files| => Vnode(NULL, Initramfs, 2, false, files[i], false, [])),
       [2])
  }

  lemma BootInv(files: seq<string>)
    requires |files| <= MAX_CHILDREN
    ensures FsInv(Boot(files))
  {
    var fs := Boot(files);
    forall v | 0 <= v < |fs.nodes| ensures NodeOk(fs, v) {
      forall i | 0 <= i < |fs.nodes[v].children| ensures ChildOk(fs, v, fs.nodes[v].children[i]) {
      }
    }
    assert MountOk(fs, 0);
    forall v | 0 <= v < |fs.nodes| ensures CoverOk(fs, v) && EntryOk(fs, v) && NamesUnique(fs, v) {
      assert fs.nodes[0].children[0] == 1 && fs.mounts[0] == 2;
      assert v >= 3 ==> fs.nodes[2].children[v - 3] == v;
    }
  }

  ghost predicate Enabled(fs: Fs, op: Op) {
    NULL <= op.cwd < |fs.nodes|
  }

  ghost function After(fs: Fs, op: Op): Fs
    requires FsInv(fs) && Enabled(fs, op)
  {
    match op
    case MakeDir(cwd, path, memory) => Mkdir(fs, cwd, path, memory).fs
    case MakeFile(cwd, path, memory) => OpenCreate(fs, cwd, path, memory).fs
    case MountOn(cwd, path, memory) => MountTmpfs(fs, cwd, path, memory).fs
  }

  lemma AfterInv(fs: Fs, op: Op)
    requires FsInv(fs) && Enabled(fs, op)
    ensures FsInv(After(fs, op))
  {
    hide MountOk, CoverOk, EntryOk, NamesUnique, NodeOk, Mkdir, OpenCreate, Resolve;
    match op
    case MakeDir(cwd, path, memory) => MkdirFramed(fs, cwd, path, memory);
    case MakeFile(cwd, path, memory) => OpenCreateFramed(fs, cwd, path, memory);
    case MountOn(cwd, path, memory) =>
      if MountTmpfs(fs, cwd, path, memory).result.Found? {
        CoverInv(fs, Resolve(fs, cwd, path).v);
      }
  }

  ghost predicate Run(files: seq<string>, ops: seq<Op>)
    decreases |ops|, 0
  {
    |files| <= MAX_CHILDREN
    && (ops == [] || (Run(files, ops[..|ops| - 1]) && Enabled(Reached(files, ops[..|ops| - 1]), ops[|ops| - 1])))
  }

  /** The vnodes at the end of a run.  Names are unique in every directory, mounts sit on
      covered vnodes, and every vnode hangs where its parent pointer says. */
  ghost function Reached(files: seq<string>, ops: seq<Op>): (fs: Fs)
    requires Run(files, ops)
    ensures FsInv(fs)
    decreases |ops|, 1
  {
    if ops == [] then
      BootInv(files);
      Boot(files)
    else
      var fs := Reached(files, ops[..|ops| - 1]);
      AfterInv(fs, ops[|ops| - 1]);
      After(fs, ops[|ops| - 1])
  }

  /** In every reachable file system, `..` leads from any entry of a directory seen by an
      absolute path back to that directory. */
  lemma DotDotInEveryRun(files: seq<string>, ops: seq<Op>, cwd: int, path: string, c: string)
    requires Run(files, ops) && NULL <= cwd < |Reached(files, ops).nodes|
    requires path != "" && path[0] == '/' && IsName(c)
    requires Resolve(Reached(files, ops), cwd, path).Found?
    requires StepTo(Reached(files, ops), Resolve(Reached(files, ops), cwd, path).v, c).Found?
    ensures Walk(Reached(files, ops), Resolve(Reached(files, ops), cwd, path).v, [c, ".."])
      == Resolve(Reached(files, ops), cwd, path)
  {
    hide MountOk, CoverOk, EntryOk, NamesUnique, NodeOk, Run, Reached, Walk;
    DotDotUndoesDescent(Reached(files, ops), cwd, path, c);
  }

  /** At the root `..` stays there, in every run. */
  lemma UpAtRootInEveryRun(files: seq<string>, ops: seq<Op>, cwd: int, path: string)
    requires Run(files, ops) && NULL <= cwd < |Reached(files, ops).nodes| && path != "" && path[0] == '/'
    requires forall c :: c in Components(path) ==> c == ".."
    ensures Resolve(Reached(files, ops), cwd, path) == Found(ROOT)
  {
    hide FsInv, Run, Reached, Walk, Components, Shown;
    var fs, comps := Reached(files, ops), Components(path);
    forall i | 0 <= i < |comps| ensures comps[i] == ".." {
      assert comps[i] in comps;
    }
    assert comps == Ups(|comps|);
    RootShown(fs);
    UpsLead(fs, ROOT, |comps|);
  }

  lemma RootShown(fs: Fs)
    requires FsInv(fs)
    ensures Shown(fs, ROOT) && Depth(fs, ROOT) == 0
  {
  }

  /** What boot shows at the root: `initramfs`, which leads to the mounted read-only root, and
      nothing else. */
  lemma BootRoot(files: seq<string>, c: string)
    requires |files| <= MAX_CHILDREN && IsName(c)
    ensures FsInv(Boot(files))
    ensures StepTo(Boot(files), ROOT, c) == if c == "initramfs" then Found(2) else Err(ENOENT)
    ensures Resolve(Boot(files), NULL, "/" + "initramfs") == Found(2)
  {
    BootInv(files);
    hide FsInv, Boot, StepTo, Components;
    BootRootStep(files, c);
    InitramfsPath(Boot(files));
    BootRootStep(files, "initramfs");
  }

  lemma InitramfsPath(fs: Fs)
    requires WellFormed(fs) && StepTo(fs, ROOT, "initramfs").Found?
    ensures Resolve(fs, NULL, "/" + "initramfs") == StepTo(fs, ROOT, "initramfs")
  {
    hide WellFormed, StepTo, Components;
    var name := "initramfs";
    assert '/' !in name;
    ComponentsOfName(name);
    ComponentsSlash(name);
    WalkOne(fs, ROOT, name);
  }

  lemma BootRootStep(files: seq<string>, c: string)
    requires WellFormed(Boot(files)) && IsName(c)
    ensures StepTo(Boot(files), ROOT, c) == if c == "initramfs" then Found(2) else Err(ENOENT)
  {
    hide WellFormed;
    var fs := Boot(files);
    assert fs.nodes[ROOT].children == [1] && [1][1..] == [];
    assert fs.nodes[1].name == "initramfs" && Cross(fs, ROOT) == ROOT && Cross(fs, 1) == 2;
    assert FindChild(fs.nodes, [1], c) == if c == "initramfs" then Found(1) else Err(ENOENT);
  }

  /** And below it: each file of the archive by its name, the first of that name, and nothing else;
      no name below a file; and nothing can be created. */
  lemma BootFiles(files: seq<string>, c: string)
    requires |files| <= MAX_CHILDREN && IsName(c)
    ensures FsInv(Boot(files))
    ensures StepTo(Boot(files), 2, c) == if c in files then Found(3 + FirstIndex(files, c)) else Err(ENOENT)
  {
    BootInv(files);
    var fs := Boot(files);
    FirstFile(files, c, 0);
    hide WellFormed, FindChild;
    assert fs.nodes[2].children[0..] == fs.nodes[2].children && files[0..] == files;
  }

  lemma BootReadOnly(files: seq<string>, i: nat, c: string, isDir: bool, memory: bool)
    requires |files| <= MAX_CHILDREN && i < |files| && IsName(c)
    ensures FsInv(Boot(files)) && StepTo(Boot(files), 3 + i, c) == Err(EACCES)
    ensures CreateIn(Boot(files), 2, c, isDir, memory).result == Err(EACCES)
    ensures CreateIn(Boot(files), 3 + i, c, isDir, memory).result == Err(EACCES)
  {
    BootInv(files);
    hide WellFormed;
  }

  function FirstIndex(files: seq<string>, name: string): (i: nat)
    requires name in files
    ensures i < |files| && files[i] == name && forall j :: 0 <= j < i ==> files[j] != name
  {
    if files[0] == name then 0 else 1 + FirstIndex(files[1..], name)
  }

  lemma {:induction false} FirstFile(files: seq<string>, c: string, i: nat)
    requires |files| <= MAX_CHILDREN && i <= |files|
    ensures forall j :: 0 <= j < |Boot(files).nodes[2].children| ==>
      Boot(files).nodes[2].children[j] < |Boot(files).nodes|
    ensures FindChild(Boot(files).nodes, Boot(files).nodes[2].children[i..], c) ==
      if c in files[i..] then Found(3 + i + FirstIndex(files[i..], c)) else Err(ENOENT)
    decreases |files| - i
  {
    var fs := Boot(files);
    var rest := fs.nodes[2].children[i..];
    if i < |files| {
      assert rest[0] == 3 + i && rest[1..] == fs.nodes[2].children[i + 1..];
      assert fs.nodes[3 + i].name == files[i];
      assert files[i..][0] == files[i] && files[i..][1..] == files[i + 1..];
      FirstFile(files, c, i + 1);
    }
  }

  /** `/a` and `/a/b` made one after the other. */
  function TwoDirectories(): (ops: seq<Op>)
    ensures |ops| == 2
  {
    [MakeDir(ROOT, "/a", true), MakeDir(ROOT, "/a/b", true)]
  }

  lemma CreatedResolves(fs: Fs, path: string, o: Outcome, other: string)
    requires FsInv(fs) && FsInv(o.fs) && |fs.nodes| <= |o.fs.nodes| && Created(fs, ROOT, path, true, o)
    requires o.result.Found? && path != "" && path[0] == '/' && IsName(BaseName(path))
    ensures Resolve(o.fs, ROOT, path) == o.result
    ensures Resolve(fs, ROOT, other).Found? ==> Resolve(o.fs, ROOT, other) == Resolve(fs, ROOT, other)
  {
    hide Components, Walk;
  }

  lemma FirstDirectory()
    ensures FsInv(Boot([])) && BaseName("/a") == "a"
    ensures Mkdir(Boot([]), ROOT, "/a", true) == Outcome(AddChild(Boot([]), ROOT, "a", true), Found(3))
  {
    BootInv([]);
    var fs := Boot([]);
    assert LastSlash("/a") == 0 by {
      assert "/a"[..1] == "/";
    }
    assert BaseName("/a") == "a";
    assert fs.nodes[ROOT].children == [1] && [1][1..] == [];
    assert fs.nodes[1].name == "initramfs";
    assert "initramfs"[0] != "a"[0];
    assert FindChild(fs.nodes, [1], "a") == Err(ENOENT);
  }

  ghost predicate HasA(fs: Fs) {
    && FsInv(fs) && |fs.nodes| == 4 && fs.nodes[3] == Vnode(NULL, Tmpfs, ROOT, false, "a", true, [])
    && Resolve(fs, ROOT, "/a") == Found(3)
  }

  lemma AfterFirst()
    ensures HasA(AddChild(Boot([]), ROOT, "a", true))
  {
    FirstDirectory();
    hide WellFormed, MountOk, CoverOk, EntryOk, NamesUnique, Mkdir, Resolve, Created, BaseName;
    MkdirFramed(Boot([]), ROOT, "/a", true);
    CreatedResolves(Boot([]), "/a", Mkdir(Boot([]), ROOT, "/a", true), "/");
  }

  lemma SecondDirectory(fs: Fs)
    requires HasA(fs)
    ensures Mkdir(fs, ROOT, "/a/b", true) == Outcome(AddChild(fs, 3, "b", true), Found(4)) && BaseName("/a/b") == "b"
  {
    hide FsInv, Resolve;
    var p := "/a/b";
    assert LastSlash(p) == 2 by {
      assert p[..3][2] == '/';
    }
    assert p[..2] == "/a";
    assert BaseName(p) == "b";
  }

  ghost predicate HasAB(fs: Fs) {
    && FsInv(fs) && |fs.nodes| == 5 && fs.nodes[3].mount == NULL && !fs.nodes[3].parentIsMount
    && Resolve(fs, ROOT, "/a") == Found(3) && Resolve(fs, ROOT, "/a/b") == Found(4)
  }

  lemma AfterSecond(fs: Fs)
    requires HasA(fs)
    ensures HasAB(AddChild(fs, 3, "b", true))
  {
    hide WellFormed, MountOk, CoverOk, EntryOk, NamesUnique, Mkdir, Resolve, Created, BaseName, LastSlash;
    SecondDirectory(fs);
    MkdirFramed(fs, ROOT, "/a/b", true);
    CreatedResolves(fs, "/a/b", Mkdir(fs, ROOT, "/a/b", true), "/a");
  }

  /** What they leave behind. */
  function WithDirectories(): Fs {
    AddChild(AddChild(Boot([]), ROOT, "a", true), 3, "b", true)
  }

  lemma RunOfTwo(files: seq<string>, a: Op, b: Op)
    requires |files| <= MAX_CHILDREN && FsInv(Boot(files)) && Enabled(Boot(files), a)
    requires FsInv(After(Boot(files), a)) && Enabled(After(Boot(files), a), b)
    ensures Run(files, [a, b]) && Reached(files, [a, b]) == After(After(Boot(files), a), b)
  {
    hide FsInv, After, Boot, Enabled;
    assert [a, b][..1] == [a] && [a][..0] == [];
    assert Run(files, []) && Reached(files, []) == Boot(files);
    assert Run(files, [a]) && Reached(files, [a]) == After(Boot(files), a);
  }

  lemma DirectoriesMade()
    ensures HasAB(WithDirectories())
    ensures Run([], TwoDirectories()) && Reached([], TwoDirectories()) == WithDirectories()
  {
    var fs0, ops := Boot([]), TwoDirectories();
    var fs1 := AddChild(fs0, ROOT, "a", true);
    hide AddChild, Boot, Mkdir, FsInv, Resolve, Run, Reached;
    FirstDirectory();
    AfterFirst();
    SecondDirectory(fs1);
    AfterSecond(fs1);
    RunOfTwo([], ops[0], ops[1]);
  }

  /** An instance that a run reaches: two directories, a mount on `/a/b/..`, and that very path
      no longer resolves. */
  lemma MountThroughChildIsLost()
    ensures Run([], TwoDirectories()) && ROOT < |Reached([], TwoDirectories()).nodes|
    ensures var fs := Reached([], TwoDirectories()); var o := MountTmpfs(fs, ROOT, "/a/b/..", true);
      && Resolve(fs, ROOT, "/a/b/..") == Resolve(fs, ROOT, "/a") == Found(3)
      && o.result.Found? && FsInv(o.fs) && ROOT < |o.fs.nodes|
      && Resolve(o.fs, ROOT, "/a/b/..") == Err(ENOENT)
  {
    hide MountOk, CoverOk, EntryOk, NamesUnique, NodeOk, WellFormed, Components, Walk, StepTo, Run, Reached,
      WithDirectories;
    var fs := WithDirectories();
    DirectoriesMade();
    ComponentsOfName("b");
    assert "/a" + "/" + "b" == "/a/b" && "/a/b" + "/" + ".." == "/a/b/..";
    ResolveJoin(fs, ROOT, "/a", "b");
    WalkOne(fs, 3, "b");
    MountThroughChild(fs, ROOT, "/a", "b", true);
  }
}
