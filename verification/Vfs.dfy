/** The layer above tmpfs: the boot-time tree, open files and their offsets, and the working
    directory of each task. */
module VfsModule {
  import opened Bytes
  import opened Errno
  import opened Paths
  import opened FileSystem
  import opened PathMap
  import opened NodeTable
  import opened TmpfsModule
  import Tasks

  // ---------------------------------------------------------------------------------------
  // The tree at boot
  // ---------------------------------------------------------------------------------------

  const DEV: Str := [100, 101, 118]
  const BIN: Str := [98, 105, 110]
  const TMP: Str := [116, 109, 112]
  const ETC: Str := [101, 116, 99]
  const CONSOLE: Str := [99, 111, 110, 115, 111, 108, 101]
  const TTY: Str := [116, 116, 121]
  const NULL: Str := [110, 117, 108, 108]
  const ZERO: Str := [122, 101, 114, 111]

  const DEV_CONSOLE := 1
  const DEV_TTY := 2
  const DEV_NULL := 3
  const DEV_ZERO := 4

  ghost function MakeDir(fs: FS, ts: seq<Str>, mode: int): FS {
    Create(fs, AbsPath(ts), Dir, mode).0
  }

  /** `init_device_node`: create the node if needed, then store its device number. */
  ghost function MakeDev(fs: FS, ts: seq<Str>, device: int): FS {
    var (made, r) := Create(fs, AbsPath(ts), Dev(0), 0x1B6);
    var id := if r < 0 then Resolve(made, AbsPath(ts)) else r;
    if id in made.nodes && made.nodes[id].body.Dev? then
      made.(nodes := made.nodes[id := made.nodes[id].(body := Dev(device))])
    else made
  }

  ghost function BootDirs(): FS {
    MakeDir(MakeDir(MakeDir(MakeDir(EmptyFs(), [DEV], 0x1ED), [BIN], 0x1ED), [TMP], 0x1FF), [ETC], 0x1ED)
  }

  ghost function Boot(): FS {
    MakeDev(MakeDev(MakeDev(MakeDev(BootDirs(), [DEV, CONSOLE], DEV_CONSOLE), [DEV, TTY], DEV_TTY),
                    [DEV, NULL], DEV_NULL), [DEV, ZERO], DEV_ZERO)
  }

  /** A file system together with everything a plain path can see in it. */
  ghost predicate Looks(fs: FS, seen: map<seq<Str>, Seen>, n: nat) {
    && Wf(fs) && |fs.nodes| == n && fs.used == 0
    && forall ts :: Plain(ts) ==> See(fs, ts) == if ts in seen then seen[ts] else Missing
  }

  lemma EmptyLooks()
    ensures Looks(EmptyFs(), map[[] := ADir], 1)
  {
    EmptyIsWf();
    forall ts | Plain(ts) ensures See(EmptyFs(), ts) == if ts == [] then ADir else Missing {
      EmptySees(ts);
    }
  }

  lemma {:induction false} EmptySees(ts: seq<Str>)
    requires Plain(ts)
    ensures Walk(EmptyFs(), 0, ts) == if ts == [] then 0 else -ENOENT
  {
    if ts != [] {
      EmptySees(DropLast(ts));
      WalkSnoc(EmptyFs(), 0, ts);
    }
  }

  lemma MakeDirLooks(fs: FS, seen: map<seq<Str>, Seen>, n: nat, ts: seq<Str>, mode: int)
    requires Looks(fs, seen, n) && n < MAX_NODES && Plain(ts) && ts != []
    requires ts !in seen && DropLast(ts) in seen && seen[DropLast(ts)] == ADir
    ensures Looks(MakeDir(fs, ts, mode), seen[ts := ADir], n + 1)
  {
    hide Wf, Create;
    CreateShows(fs, ts, Dir, mode, []);
    forall us | Plain(us) ensures See(MakeDir(fs, ts, mode), us) == if us == ts then ADir else See(fs, us) {
      CreateShows(fs, ts, Dir, mode, us);
    }
  }

  lemma MakeDevLooks(fs: FS, seen: map<seq<Str>, Seen>, n: nat, ts: seq<Str>, device: int)
    requires Looks(fs, seen, n) && n < MAX_NODES && Plain(ts) && ts != []
    requires ts !in seen && DropLast(ts) in seen && seen[DropLast(ts)] == ADir
    ensures Looks(MakeDev(fs, ts, device), seen[ts := ADev(device)], n + 1)
  {
    hide Wf, Create;
    var (made, id) := Create(fs, AbsPath(ts), Dev(0), 0x1B6);
    CreateShows(fs, ts, Dev(0), 0x1B6, ts);
    WalkFromRoot(made, ts);
    var fs' := MakeDev(fs, ts, device);
    assert SameShape(made, fs') && |fs'.nodes| == |made.nodes| by { assert fs'.nodes.Keys == made.nodes.Keys; }
    SameShapeWf(made, fs');
    forall us | Plain(us) ensures See(fs', us) == if us == ts then ADev(device) else See(fs, us) {
      CreateShows(fs, ts, Dev(0), 0x1B6, us);
      SameShapeWalks(made, fs', 0, us);
    }
  }

  const BOOT_TREE: map<seq<Str>, Seen> := map[
    [] := ADir, [DEV] := ADir, [BIN] := ADir, [TMP] := ADir, [ETC] := ADir,
    [DEV, CONSOLE] := ADev(DEV_CONSOLE), [DEV, TTY] := ADev(DEV_TTY),
    [DEV, NULL] := ADev(DEV_NULL), [DEV, ZERO] := ADev(DEV_ZERO)]

  lemma BootNamesPlain()
    ensures Plain([DEV]) && Plain([BIN]) && Plain([TMP]) && Plain([ETC])
    ensures Plain([DEV, CONSOLE]) && Plain([DEV, TTY]) && Plain([DEV, NULL]) && Plain([DEV, ZERO])
  {
  }

  lemma BootNamesDiffer()
    ensures BIN != DEV && TMP != DEV && TMP != BIN && ETC != DEV && ETC != BIN && ETC != TMP
    ensures TTY != CONSOLE && NULL != CONSOLE && NULL != TTY && ZERO != CONSOLE && ZERO != TTY && ZERO != NULL
  {
    assert BIN[0] != DEV[0] && TMP[0] != DEV[0] && TMP[0] != BIN[0];
    assert ETC[0] != DEV[0] && ETC[0] != BIN[0] && ETC[0] != TMP[0];
    assert |TTY| == 3 && |CONSOLE| == 7 && |NULL| == 4 && |ZERO| == 4 && NULL[0] != ZERO[0];
  }

  lemma BootDirsLook()
    ensures Looks(BootDirs(), map[[] := ADir, [DEV] := ADir, [BIN] := ADir, [TMP] := ADir, [ETC] := ADir], 5)
  {
    hide Looks, MakeDir, EmptyFs;
    BootNamesPlain();
    BootNamesDiffer();
    EmptyLooks();
    var s0: map<seq<Str>, Seen> := map[[] := ADir];
    var f1 := MakeDir(EmptyFs(), [DEV], 0x1ED);
    assert DropLast([DEV]) == [] == DropLast([BIN]) == DropLast([TMP]) == DropLast([ETC]);
    MakeDirLooks(EmptyFs(), s0, 1, [DEV], 0x1ED);
    var s1 := s0[[DEV] := ADir];
    assert [BIN][0] != [DEV][0];
    MakeDirLooks(f1, s1, 2, [BIN], 0x1ED);
    var f2, s2 := MakeDir(f1, [BIN], 0x1ED), s1[[BIN] := ADir];
    assert [TMP][0] != [DEV][0] && [TMP][0] != [BIN][0];
    MakeDirLooks(f2, s2, 3, [TMP], 0x1FF);
    var f3, s3 := MakeDir(f2, [TMP], 0x1FF), s2[[TMP] := ADir];
    assert [ETC][0] != [DEV][0] && [ETC][0] != [BIN][0] && [ETC][0] != [TMP][0];
    MakeDirLooks(f3, s3, 4, [ETC], 0x1ED);
    assert s3[[ETC] := ADir] == map[[] := ADir, [DEV] := ADir, [BIN] := ADir, [TMP] := ADir, [ETC] := ADir];
  }

  /** After boot the tree holds exactly the four directories and four devices. */
  lemma BootLooks()
    ensures Looks(Boot(), BOOT_TREE, 9)
  {
    hide Looks, MakeDev, BootDirs;
    BootNamesPlain();
    BootNamesDiffer();
    BootDirsLook();
    var s4: map<seq<Str>, Seen> := map[[] := ADir, [DEV] := ADir, [BIN] := ADir, [TMP] := ADir, [ETC] := ADir];
    var f4 := BootDirs();
    assert DropLast([DEV, CONSOLE]) == [DEV] == DropLast([DEV, TTY]) == DropLast([DEV, NULL]) == DropLast([DEV, ZERO]);
    MakeDevLooks(f4, s4, 5, [DEV, CONSOLE], DEV_CONSOLE);
    var f5, s5 := MakeDev(f4, [DEV, CONSOLE], DEV_CONSOLE), s4[[DEV, CONSOLE] := ADev(DEV_CONSOLE)];
    assert [DEV, TTY][1] != [DEV, CONSOLE][1];
    MakeDevLooks(f5, s5, 6, [DEV, TTY], DEV_TTY);
    var f6, s6 := MakeDev(f5, [DEV, TTY], DEV_TTY), s5[[DEV, TTY] := ADev(DEV_TTY)];
    assert [DEV, NULL][1] != [DEV, CONSOLE][1] && [DEV, NULL][1] != [DEV, TTY][1];
    MakeDevLooks(f6, s6, 7, [DEV, NULL], DEV_NULL);
    var f7, s7 := MakeDev(f6, [DEV, NULL], DEV_NULL), s6[[DEV, NULL] := ADev(DEV_NULL)];
    assert [DEV, ZERO][1] != [DEV, CONSOLE][1] && [DEV, ZERO][1] != [DEV, TTY][1] && [DEV, ZERO][1] != [DEV, NULL][1];
    MakeDevLooks(f7, s7, 8, [DEV, ZERO], DEV_ZERO);
    assert s7[[DEV, ZERO] := ADev(DEV_ZERO)] == BOOT_TREE;
  }

  /** A file system without gaps, its inodes in order, that looks as given. */
  ghost predicate Lists(fs: FS, rows: seq<Inode>, seen: map<seq<Str>, Seen>) {
    fs == FS(map i | 0 <= i < |rows| :: rows[i], 0) && Looks(fs, seen, |rows|)
  }

  /** Creating one more below a directory appends its inode. */
  lemma CreateAppends(fs: FS, rows: seq<Inode>, seen: map<seq<Str>, Seen>, ts: seq<Str>, body: Body, mode: int)
    requires Lists(fs, rows, seen) && |rows| < MAX_NODES && Plain(ts) && ts != []
    requires ts !in seen && DropLast(ts) in seen && seen[DropLast(ts)] == ADir
    ensures var n := |rows|;
            Create(fs, AbsPath(ts), body, mode)
            == (FS(fs.nodes[n := Inode(Walk(fs, 0, DropLast(ts)), Last(ts), body, mode)], 0), n)
  {
    hide Wf, Tokens, AbsPath, LeafOf, ParentOf, Walk;
    AbsPathForm(ts);
    AbsPathSplits(ts);
    WalkFromRoot(fs, ts);
    WalkFromRoot(fs, DropLast(ts));
    CreateOutcome(fs, AbsPath(ts), body, mode);
    assert |rows| !in fs.nodes;
  }

  lemma DirAppends(fs: FS, rows: seq<Inode>, seen: map<seq<Str>, Seen>, name: Str, mode: int)
    requires Lists(fs, rows, seen) && |rows| < MAX_NODES && Plain([name])
    requires [name] !in seen && [] in seen && seen[[]] == ADir
    ensures Lists(MakeDir(fs, [name], mode), rows + [Inode(0, name, Dir, mode)], seen[[name] := ADir])
  {
    hide Looks, Create;
    assert DropLast([name]) == [] && Walk(fs, 0, []) == 0;
    CreateAppends(fs, rows, seen, [name], Dir, mode);
    MakeDirLooks(fs, seen, |rows|, [name], mode);
  }

  lemma DeviceAppends(fs: FS, rows: seq<Inode>, seen: map<seq<Str>, Seen>, name: Str, device: int)
    requires Lists(fs, rows, seen) && 1 < |rows| < MAX_NODES && rows[1] == Inode(0, DEV, Dir, 0x1ED)
    requires Plain([DEV, name]) && [DEV, name] !in seen && [DEV] in seen && seen[[DEV]] == ADir
    ensures Lists(MakeDev(fs, [DEV, name], device), rows + [Inode(1, name, Dev(device), 0x1B6)],
                  seen[[DEV, name] := ADev(device)])
  {
    hide Looks, Create;
    assert DropLast([DEV, name]) == [DEV];
    DevIsOne(fs, rows, seen);
    CreateAppends(fs, rows, seen, [DEV, name], Dev(0), 0x1B6);
    MakeDevLooks(fs, seen, |rows|, [DEV, name], device);
  }

  lemma DevIsOne(fs: FS, rows: seq<Inode>, seen: map<seq<Str>, Seen>)
    requires Lists(fs, rows, seen) && 1 < |rows| && rows[1] == Inode(0, DEV, Dir, 0x1ED)
    ensures Walk(fs, 0, [DEV]) == 1
  {
    assert IsChild(fs, 0, DEV, 1) && NoSlash(DEV);
    assert Walk(fs, 0, [DEV]) == Walk(fs, Child(fs, 0, DEV), [DEV][1..]);
  }

  /** Everything `fs_init` leaves, node by node: the four directories with modes 0755, but 0777 for
      "/tmp", and the four devices with mode 0666, with the arena untouched. */
  lemma BootTable()
    ensures Boot() == FS(map i | 0 <= i < 9 :: BootRows()[i], 0)
  {
    hide Lists, MakeDir, MakeDev, EmptyFs, Wf, Looks;
    BootNamesPlain();
    BootNamesDiffer();
    RootListed();
    var f0, s0: map<seq<Str>, Seen> := EmptyFs(), map[[] := ADir];
    var r0 := [Inode(-1, [47], Dir, 0x1ED)];
    DirAppends(f0, r0, s0, DEV, 0x1ED);
    var f1, r1, s1 := MakeDir(f0, [DEV], 0x1ED), r0 + [Inode(0, DEV, Dir, 0x1ED)], s0[[DEV] := ADir];
    assert [BIN][0] != [DEV][0];
    DirAppends(f1, r1, s1, BIN, 0x1ED);
    var f2, r2, s2 := MakeDir(f1, [BIN], 0x1ED), r1 + [Inode(0, BIN, Dir, 0x1ED)], s1[[BIN] := ADir];
    assert [TMP][0] != [DEV][0] && [TMP][0] != [BIN][0];
    DirAppends(f2, r2, s2, TMP, 0x1FF);
    var f3, r3, s3 := MakeDir(f2, [TMP], 0x1FF), r2 + [Inode(0, TMP, Dir, 0x1FF)], s2[[TMP] := ADir];
    assert [ETC][0] != [DEV][0] && [ETC][0] != [BIN][0] && [ETC][0] != [TMP][0];
    DirAppends(f3, r3, s3, ETC, 0x1ED);
    var r4 := r3 + [Inode(0, ETC, Dir, 0x1ED)];
    DevicesListed(BootDirs(), r4, s3[[ETC] := ADir]);
  }

  lemma DevicesListed(f4: FS, r4: seq<Inode>, s4: map<seq<Str>, Seen>)
    requires f4 == BootDirs() && Lists(f4, r4, s4) && r4 == BootRows()[..5]
    requires s4 == map[[] := ADir, [DEV] := ADir, [BIN] := ADir, [TMP] := ADir, [ETC] := ADir]
    ensures Boot() == FS(map i | 0 <= i < 9 :: BootRows()[i], 0)
  {
    hide Lists, MakeDev, BootDirs, Looks;
    BootNamesPlain();
    BootNamesDiffer();
    DeviceAppends(f4, r4, s4, CONSOLE, 1);
    var f5, r5 := MakeDev(f4, [DEV, CONSOLE], 1), r4 + [Inode(1, CONSOLE, Dev(1), 0x1B6)];
    var s5 := s4[[DEV, CONSOLE] := ADev(1)];
    assert [DEV, TTY][1] != [DEV, CONSOLE][1];
    DeviceAppends(f5, r5, s5, TTY, 2);
    var f6, r6, s6 := MakeDev(f5, [DEV, TTY], 2), r5 + [Inode(1, TTY, Dev(2), 0x1B6)], s5[[DEV, TTY] := ADev(2)];
    assert [DEV, NULL][1] != [DEV, CONSOLE][1] && [DEV, NULL][1] != [DEV, TTY][1];
    DeviceAppends(f6, r6, s6, NULL, 3);
    var f7, r7, s7 := MakeDev(f6, [DEV, NULL], 3), r6 + [Inode(1, NULL, Dev(3), 0x1B6)], s6[[DEV, NULL] := ADev(3)];
    assert [DEV, ZERO][1] != [DEV, CONSOLE][1] && [DEV, ZERO][1] != [DEV, TTY][1] && [DEV, ZERO][1] != [DEV, NULL][1];
    DeviceAppends(f7, r7, s7, ZERO, 4);
    assert r7 + [Inode(1, ZERO, Dev(4), 0x1B6)] == BootRows();
    ListedIs(Boot(), BootRows(), s7[[DEV, ZERO] := ADev(4)]);
  }

  lemma ListedIs(fs: FS, rows: seq<Inode>, seen: map<seq<Str>, Seen>)
    requires Lists(fs, rows, seen)
    ensures fs == FS(map i | 0 <= i < |rows| :: rows[i], 0)
  {
  }

  lemma RootListed()
    ensures Lists(EmptyFs(), [Inode(-1, [47], Dir, 0x1ED)], map[[] := ADir])
  {
    hide Looks;
    EmptyLooks();
    assert EmptyFs().nodes == map[0 := Inode(-1, [47], Dir, 0x1ED)];
  }

  /** The rows of the boot table. */
  function BootRows(): seq<Inode> {
    [Inode(-1, [47], Dir, 0x1ED), Inode(0, DEV, Dir, 0x1ED), Inode(0, BIN, Dir, 0x1ED),
     Inode(0, TMP, Dir, 0x1FF), Inode(0, ETC, Dir, 0x1ED), Inode(1, CONSOLE, Dev(1), 0x1B6),
     Inode(1, TTY, Dev(2), 0x1B6), Inode(1, NULL, Dev(3), 0x1B6), Inode(1, ZERO, Dev(4), 0x1B6)]
  }

  /** "/dev", "/bin", "/tmp" and "/etc" are directories; "/dev/console", "/dev/tty", "/dev/null" and
      "/dev/zero" are devices 1 to 4. */
  lemma BootNames()
    ensures var dev: Str := [100, 101, 118];
            && See(Boot(), [dev]) == ADir && See(Boot(), [[98, 105, 110]]) == ADir
            && See(Boot(), [[116, 109, 112]]) == ADir && See(Boot(), [[101, 116, 99]]) == ADir
            && See(Boot(), [dev, [99, 111, 110, 115, 111, 108, 101]]) == ADev(1)
            && See(Boot(), [dev, [116, 116, 121]]) == ADev(2)
            && See(Boot(), [dev, [110, 117, 108, 108]]) == ADev(3)
            && See(Boot(), [dev, [122, 101, 114, 111]]) == ADev(4)
  {
    hide Boot, See, Wf;
    BootLooks();
    BootNamesPlain();
    BootNamesDiffer();
    assert [DEV, CONSOLE] in BOOT_TREE && [DEV, TTY] in BOOT_TREE;
    assert [DEV, NULL] in BOOT_TREE && [DEV, ZERO] in BOOT_TREE;
    assert [DEV] in BOOT_TREE && [BIN] in BOOT_TREE && [TMP] in BOOT_TREE && [ETC] in BOOT_TREE;
  }

  method BootDir(t: Tmpfs, ts: seq<Str>, mode: int)
    requires t.Valid() && Plain(ts) && 0 < |ts| <= 2
    modifies t, t.nodes
    ensures t.Valid() && t.Fs() == MakeDir(old(t.Fs()), ts, mode)
  {
    hide Wf, Linked, Stored, Create, AbsPath;
    AbsPathSplits(ts);
    AbsPathLength(ts);
    var _ := t.CreatePath(AbsPath(ts), DIR, mode);
  }

  method BootDevice(t: Tmpfs, ts: seq<Str>, device: int)
    requires t.Valid() && Plain(ts) && 0 < |ts| <= 2
    modifies t, t.nodes
    ensures t.Valid() && t.Fs() == MakeDev(old(t.Fs()), ts, device)
  {
    hide Wf, Linked, Stored, Create, AbsPath;
    AbsPathSplits(ts);
    AbsPathLength(ts);
    var id := t.CreatePath(AbsPath(ts), CHARDEV, 0x1B6);
    if id < 0 {
      id := t.ResolvePath(AbsPath(ts));
    }
    ViewAt(t.nodes[..], t.arena[..], t.used, id);
    if 0 <= id < MAX_NODES && t.nodes[id].kind != NONE {
      t.SetDevice(id, device);
    }
  }

  method BootInto(t: Tmpfs)
    requires t.Valid() && t.Fs() == EmptyFs()
    modifies t, t.nodes
    ensures t.Valid() && t.Fs() == Boot()
  {
    hide Wf, Linked, Stored, MakeDir, MakeDev, EmptyFs, View;
    BootNamesPlain();
    BootDir(t, [DEV], 0x1ED);
    BootDir(t, [BIN], 0x1ED);
    BootDir(t, [TMP], 0x1FF);
    BootDir(t, [ETC], 0x1ED);
    BootDevice(t, [DEV, CONSOLE], DEV_CONSOLE);
    BootDevice(t, [DEV, TTY], DEV_TTY);
    BootDevice(t, [DEV, NULL], DEV_NULL);
    BootDevice(t, [DEV, ZERO], DEV_ZERO);
  }

  // ---------------------------------------------------------------------------------------
  // Open files
  // ---------------------------------------------------------------------------------------

  const MAX_FILES := 128
  const MAX_FDS := 32

  datatype OpenFile = OpenFile(used: bool, refs: int, nodeId: int, offset: nat, flags: int)

  const CLOSED := OpenFile(false, 0, 0, 0, 0)

  /** Position of a task's descriptor in the flat slot table; an empty slot holds -1. */
  function Slot(task: nat, fd: nat): (i: nat)
    requires task < Tasks.MAX_TASKS && fd < MAX_FDS
    ensures i < Tasks.MAX_TASKS * MAX_FDS
  {
    task * MAX_FDS + fd
  }

  /** No two descriptors share a slot. */
  lemma SlotsApart(task: nat, fd: nat, task': nat, fd': nat)
    requires task < 32 && fd < 32 && task' < 32 && fd' < 32 && Slot(task, fd) == Slot(task', fd')
    ensures task == task' && fd == fd'
  {
  }

  function FileOf(slots: seq<int>, task: nat, fd: int): int
    requires task < Tasks.MAX_TASKS
  {
    if |slots| == Tasks.MAX_TASKS * MAX_FDS && 0 <= fd < MAX_FDS then slots[Slot(task, fd)] else -1
  }

  /** Every descriptor has an open file to itself, and no open file is left without one. */
  ghost predicate TableOk(files: seq<OpenFile>, slots: seq<int>) {
    && |files| == 128 && |slots| == 32 * 32
    && (forall i :: 0 <= i < |slots| ==> -1 <= slots[i] < MAX_FILES)
    && (forall i :: 0 <= i < |slots| && slots[i] >= 0 ==> files[slots[i]].used && files[slots[i]].refs == 1)
    && (forall i, j :: 0 <= i < |slots| && 0 <= j < |slots| && slots[i] == slots[j] >= 0 ==> i == j)
    && (forall k :: 0 <= k < |files| && files[k].used ==> k in slots)
  }

  lemma AttachKeepsTable(files: seq<OpenFile>, slots: seq<int>, k: int, i: int, f: OpenFile)
    requires TableOk(files, slots) && 0 <= k < MAX_FILES && !files[k].used
    requires 0 <= i < |slots| && slots[i] == -1 && f.used && f.refs == 1
    ensures TableOk(files[k := f], slots[i := k])
  {
    var slots' := slots[i := k];
    forall m | 0 <= m < |files| && files[k := f][m].used ensures m in slots' {
      if m == k {
        assert slots'[i] == k;
      } else {
        assert m in slots;
        var j :| 0 <= j < |slots| && slots[j] == m;
        assert slots'[j] == m;
      }
    }
  }

  lemma DetachKeepsTable(files: seq<OpenFile>, slots: seq<int>, i: int)
    requires TableOk(files, slots) && 0 <= i < |slots| && slots[i] >= 0
    ensures TableOk(files[slots[i] := CLOSED], slots[i := -1])
  {
    var k := slots[i];
    var slots' := slots[i := -1];
    forall m | 0 <= m < |files| && files[k := CLOSED][m].used ensures m in slots' {
      assert m in slots;
      var j :| 0 <= j < |slots| && slots[j] == m;
      assert slots'[j] == m;
    }
  }

  /** Same descriptors, same open files behind them. */
  ghost predicate SameOpen(files: seq<OpenFile>, files': seq<OpenFile>) {
    |files'| == |files| && forall k :: 0 <= k < |files| && files[k].used ==> files'[k] == files[k]
  }

  class Vfs {
    const tmpfs: Tmpfs
    const files: array<OpenFile>
    const slots: array<int>
    const cwds: array<Str>

    ghost predicate Valid()
      reads this, tmpfs, tmpfs.nodes, tmpfs.arena, files, slots, cwds
    {
      && tmpfs.Valid() && TableOk(files[..], slots[..])
      && slots as object != tmpfs.arena
      && cwds.Length == Tasks.MAX_TASKS && forall t :: 0 <= t < cwds.Length ==> CwdForm(cwds[t])
    }

    /** `fs_init`: the boot tree, no open files, every task in "/". */
    constructor ()
      ensures Valid() && tmpfs.Fs() == Boot()
      ensures forall i :: 0 <= i < slots.Length ==> slots[i] == -1
      ensures forall t :: 0 <= t < cwds.Length ==> cwds[t] == [SLASH]
      ensures fresh(tmpfs) && fresh(tmpfs.nodes) && fresh(tmpfs.arena) && fresh(files) && fresh(slots) && fresh(cwds)
    {
      hide Wf, Linked, Stored, Boot, View, TableOk;
      var t := new Tmpfs();
      BootInto(t);
      tmpfs := t;
      files := new OpenFile[MAX_FILES](_ => CLOSED);
      slots := new int[Tasks.MAX_TASKS * MAX_FDS](_ => -1);
      cwds := new Str[Tasks.MAX_TASKS](_ => [SLASH]);
      new;
      NothingOpen(files[..], slots[..]);
    }

    method AllocOpenFile() returns (k: int)
      requires files.Length == MAX_FILES
      modifies files
      ensures k < 0 ==> k == -ENFILE && files[..] == old(files[..]) && forall j :: 0 <= j < MAX_FILES ==> files[j].used
      ensures k >= 0 ==> k < MAX_FILES && !old(files[..])[k].used
                         && files[..] == old(files[..])[k := old(files[..])[k].(used := true, refs := 1, offset := 0)]
    {
      var i := 0;
      while i < MAX_FILES
        invariant 0 <= i <= MAX_FILES && files[..] == old(files[..])
        invariant forall j :: 0 <= j < i ==> files[j].used
      {
        if !files[i].used {
          files[i] := files[i].(used := true, refs := 1, offset := 0);
          return i;
        }
        i := i + 1;
      }
      return -ENFILE;
    }

    /** The lowest free descriptor from 3 up, if there is one. */
    method FreeFd(task: nat) returns (fd: int)
      requires slots.Length == Tasks.MAX_TASKS * MAX_FDS && task < Tasks.MAX_TASKS
      ensures fd < 0 ==> fd == -EMFILE && forall f :: 3 <= f < MAX_FDS ==> slots[Slot(task, f)] != -1
      ensures fd >= 0 ==> 3 <= fd < MAX_FDS && slots[Slot(task, fd)] == -1
      ensures forall f :: 3 <= f < fd ==> slots[Slot(task, f)] != -1
    {
      fd := 3;
      while fd < MAX_FDS
        invariant 3 <= fd <= MAX_FDS
        invariant forall f :: 3 <= f < fd ==> slots[Slot(task, f)] != -1
      {
        if slots[Slot(task, fd)] == -1 {
          return;
        }
        fd := fd + 1;
      }
      return -EMFILE;
    }

    /** Opening attaches a fresh open file, at offset 0, to the lowest free descriptor; when
        that fails no descriptor and no open file is affected. */
    method OpenNode(task: nat, nodeId: int, flags: int) returns (fd: int)
      requires Valid() && task < Tasks.MAX_TASKS
      modifies files, slots
      ensures Valid() && SameOpen(old(files[..]), files[..])
      ensures fd < 0 ==> slots[..] == old(slots[..])
      ensures fd < 0 ==> (fd == -ENFILE && forall j :: 0 <= j < MAX_FILES ==> old(files[..])[j].used)
                         || (fd == -EMFILE && forall f :: 3 <= f < MAX_FDS ==> old(slots[..])[Slot(task, f)] >= 0)
      ensures fd >= 0 ==>
                && 3 <= fd < MAX_FDS && old(slots[..])[Slot(task, fd)] == -1
                && (forall f :: 3 <= f < fd ==> old(slots[..])[Slot(task, f)] >= 0)
                && 0 <= slots[Slot(task, fd)] < MAX_FILES
                && slots[..] == old(slots[..])[Slot(task, fd) := slots[Slot(task, fd)]]
                && files[slots[Slot(task, fd)]] == OpenFile(true, 1, nodeId, 0, flags)
    {
      hide Wf, Linked, Stored, View, TableOk;
      TableShape(files[..], slots[..]);
      ghost var fs0, sl0 := files[..], slots[..];
      var k := AllocOpenFile();
      if k < 0 {
        return k;
      }
      files[k] := files[k].(nodeId := nodeId, flags := flags);
      fd := FreeFd(task);
      if fd < 0 {
        files[k] := files[k].(used := false);
        FailedAttach(fs0, sl0, k, files[k]);
        assert files[..] == fs0[k := files[k]];
        return;
      }
      slots[Slot(task, fd)] := k;
      assert files[..] == fs0[k := OpenFile(true, 1, nodeId, 0, flags)];
      assert slots[..] == sl0[Slot(task, fd) := k];
      AttachKeepsTable(fs0, sl0, k, Slot(task, fd), OpenFile(true, 1, nodeId, 0, flags));
    }

    method CloseFd(task: nat, fd: int) returns (r: int)
      requires Valid() && task < Tasks.MAX_TASKS
      modifies files, slots
      ensures Valid()
      ensures !(0 <= fd < MAX_FDS) ==> r == -EBADF && slots[..] == old(slots[..]) && files[..] == old(files[..])
      ensures 0 <= fd < MAX_FDS && old(slots[..])[Slot(task, fd)] < 0 ==>
                r == (if fd <= 2 then 0 else -EBADF) && slots[..] == old(slots[..]) && files[..] == old(files[..])
      ensures 0 <= fd < MAX_FDS && old(slots[..])[Slot(task, fd)] >= 0 ==>
                && r == 0 && slots[..] == old(slots[..])[Slot(task, fd) := -1]
                && files[..] == old(files[..])[old(slots[..])[Slot(task, fd)] := OpenFile(false, 0, 0, 0, 0)]
    {
      hide Wf, Linked, Stored;
      if !(0 <= fd < MAX_FDS) || slots[Slot(task, fd)] < 0 {
        return if 0 <= fd <= 2 then 0 else -EBADF;
      }
      ghost var fs0, sl0 := files[..], slots[..];
      var k := slots[Slot(task, fd)];
      assert sl0[Slot(task, fd)] == k;
      files[k] := files[k].(refs := files[k].refs - 1);
      if files[k].refs <= 0 {
        files[k] := CLOSED;
      }
      slots[Slot(task, fd)] := -1;
      assert files[..] == fs0[k := CLOSED] && slots[..] == sl0[Slot(task, fd) := -1];
      DetachKeepsTable(fs0, sl0, Slot(task, fd));
      return 0;
    }

    /** `fs_open_path`: look the normalised path up, create a file there if asked to, open it. */
    method OpenPath(task: nat, path: Str, flags: nat, mode: int) returns (fd: int)
      requires Valid() && task < Tasks.MAX_TASKS
      requires MayCreate(flags) ==> LeafFits(tmpfs.Fs(), Normalized(cwds[task], path))
      modifies tmpfs, tmpfs.nodes, files, slots
      ensures Valid() && SameOpen(old(files[..]), files[..])
      ensures var p := Normalized(cwds[task], path);
              var (fs', id) := if Resolve(old(tmpfs.Fs()), p) < 0 && MayCreate(flags)
                               then Create(old(tmpfs.Fs()), p, File([], 0), mode)
                               else (old(tmpfs.Fs()), Resolve(old(tmpfs.Fs()), p));
              && tmpfs.Fs() == fs'
              && (id < 0 ==> fd == id && slots[..] == old(slots[..]))
              && (id >= 0 && fd < 0 ==>
                    slots[..] == old(slots[..])
                    && ((fd == -ENFILE && forall j :: 0 <= j < MAX_FILES ==> old(files[..])[j].used)
                        || (fd == -EMFILE && forall f :: 3 <= f < MAX_FDS ==> old(slots[..])[Slot(task, f)] >= 0)))
              && (fd >= 0 ==>
                    && 3 <= fd < MAX_FDS && old(slots[..])[Slot(task, fd)] == -1
                    && (forall f :: 3 <= f < fd ==> old(slots[..])[Slot(task, f)] >= 0)
                    && 0 <= slots[Slot(task, fd)] < MAX_FILES
                    && slots[..] == old(slots[..])[Slot(task, fd) := slots[Slot(task, fd)]]
                    && files[slots[Slot(task, fd)]] == OpenFile(true, 1, id, 0, flags))
    {
      hide Wf, Linked, Stored, TableOk, View, Create, SameOpen, Resolve;
      var resolved := NormalizePath(path, cwds[task]);
      NormalizedForm(cwds[task], path, cwds[task]);
      var nodeId := tmpfs.ResolvePath(resolved);
      if nodeId < 0 && MayCreate(flags) {
        nodeId := tmpfs.CreatePath(resolved, FILE, mode);
      }
      if nodeId < 0 {
        SameOpenRefl(files[..]);
        return nodeId;
      }
      fd := OpenNode(task, nodeId, flags);
    }

    /** `lookup_file`: the open file behind a descriptor, or -1. */
    method LookupFile(task: nat, fd: int) returns (k: int)
      requires TableOk(files[..], slots[..]) && task < Tasks.MAX_TASKS
      ensures k == FileOf(slots[..], task, fd) && -1 <= k < files.Length
      ensures k == if 0 <= fd < 32 then slots[Slot(task, fd)] else -1
    {
      hide TableOk;
      if !(0 <= fd < MAX_FDS) {
        return -1;
      }
      TableBounds(files[..], slots[..], Slot(task, fd));
      return slots[Slot(task, fd)];
    }

    /** `fs_lseek_fd`: the offset is set, moved, or placed relative to the file's size, in 64-bit
        unsigned arithmetic; nothing checks it against the size, so it may lie beyond the end, and
        the result, which is signed, may be negative without an error. */
    method LseekFd(task: nat, fd: int, offset: int, whence: int) returns (r: int)
      requires Valid() && task < Tasks.MAX_TASKS
      modifies files
      ensures Valid()
      ensures var k := FileOf(slots[..], task, fd);
              if k < 0 || old(files[..])[k].nodeId !in tmpfs.Fs().nodes then r == -EBADF && files[..] == old(files[..])
              else if !(0 <= whence <= 2) then r == -EINVAL && files[..] == old(files[..])
              else
                var f, body := old(files[..])[k], tmpfs.Fs().nodes[old(files[..])[k].nodeId].body;
                var base := if whence == 0 then 0 else if whence == 1 then f.offset
                            else if body.File? then |body.content| else 0;
                files[..] == old(files[..])[k := f.(offset := (base + offset) % 0x1_0000_0000_0000_0000)]
                && var to := (base + offset) % 0x1_0000_0000_0000_0000;
                   r == if to < 0x8000_0000_0000_0000 then to else to - 0x1_0000_0000_0000_0000
    {
      hide Wf, Linked, Stored, TableOk, View;
      ghost var fs0, sl0 := files[..], slots[..];
      var k := LookupFile(task, fd);
      if k < 0 {
        return -EBADF;
      }
      var id := files[k].nodeId;
      ViewAt(tmpfs.nodes[..], tmpfs.arena[..], tmpfs.used, id);
      if !(0 <= id < MAX_NODES) || tmpfs.nodes[id].kind == NONE {
        return -EBADF;
      }
      if !(0 <= whence <= 2) {
        return -EINVAL;
      }
      StoredHoused(tmpfs.nodes[..], tmpfs.arena[..], tmpfs.used, id);
      var size := if tmpfs.nodes[id].kind == FILE then tmpfs.nodes[id].size else 0;
      if tmpfs.nodes[id].kind == FILE {
        ExtentSlice(tmpfs.nodes[id], tmpfs.arena[..], tmpfs.used, 0, 0);
      }
      var base := if whence == 0 then 0 else if whence == 1 then files[k].offset else size;
      var to: nat := (base + offset) % 0x1_0000_0000_0000_0000;
      files[k] := files[k].(offset := to);
      r := if to < 0x8000_0000_0000_0000 then to else to - 0x1_0000_0000_0000_0000;
      assert files[..] == fs0[k := files[k]];
      OffsetKeepsTable(fs0, sl0, k, files[k]);
    }

    /** `fs_read_fd` on a descriptor with an open file: a file delivers the bytes at the
        offset, which moves past them; `/dev/zero` delivers zeros; the other devices deliver
        what the console has pending in `input`. */
    method ReadFd(task: nat, fd: int, count: nat, input: Str) returns (r: ReadResult)
      requires Valid() && task < Tasks.MAX_TASKS
      modifies files
      ensures Valid()
      ensures var k := FileOf(slots[..], task, fd);
              if k < 0 then
                && files[..] == old(files[..])
                && r == (if fd == 0 then Data(Slice(input, 0, count)) else Error(-EBADF))
              else
                var f, fs := old(files[..])[k], tmpfs.Fs();
                if f.nodeId !in fs.nodes then files[..] == old(files[..]) && r == Error(-EBADF)
                else if fs.nodes[f.nodeId].body in {Dev(1), Dev(2), Dev(3), Dev(4)} then
                  && files[..] == old(files[..])
                  && r == (if fs.nodes[f.nodeId].body == Dev(4) then Data(Zeros(count))
                           else Data(Slice(input, 0, count)))
                else
                  && r == ReadFile(fs, f, count).0
                  && files[..] == old(files[..])[k := ReadFile(fs, f, count).1]
    {
      hide Wf, Linked, Stored, TableOk, View;
      ghost var fs0, sl0 := files[..], slots[..];
      var k := LookupFile(task, fd);
      if k < 0 {
        return if fd == 0 then Data(Slice(input, 0, count)) else Error(-EBADF);
      }
      var id := files[k].nodeId;
      ViewAt(tmpfs.nodes[..], tmpfs.arena[..], tmpfs.used, id);
      if !(0 <= id < MAX_NODES) || tmpfs.nodes[id].kind == NONE {
        return Error(-EBADF);
      }
      if tmpfs.nodes[id].kind == CHARDEV {
        if tmpfs.nodes[id].device == DEV_ZERO {
          return Data(Zeros(count));
        }
        if tmpfs.nodes[id].device == DEV_NULL || tmpfs.nodes[id].device == DEV_CONSOLE
            || tmpfs.nodes[id].device == DEV_TTY {
          return Data(Slice(input, 0, count));
        }
      }
      r := tmpfs.ReadNode(id, count, files[k].offset);
      if r.Data? {
        files[k] := files[k].(offset := files[k].offset + |r.bytes|);
      }
      assert files[..] == fs0[k := files[k]];
      OffsetKeepsTable(fs0, sl0, k, files[k]);
    }

    /** `fs_write_fd` on an open plain file writes at the offset and leaves the offset alone. */
    method WriteFd(task: nat, fd: int, buf: Str) returns (r: int)
      requires Valid() && task < Tasks.MAX_TASKS
      requires var k := FileOf(slots[..], task, fd);
               0 <= k < files.Length && 0 <= files[k].nodeId < MAX_NODES && tmpfs.nodes[files[k].nodeId].kind == FILE
               ==> files[k].offset + |buf| <= 0xFFFF_FF00
      modifies tmpfs, tmpfs.nodes, tmpfs.arena
      ensures Valid()
      ensures var k := FileOf(slots[..], task, fd);
              if k < 0 then tmpfs.Fs() == old(tmpfs.Fs()) && r == (if fd == 1 || fd == 2 then |buf| else -EBADF)
              else
                var f, fs := files[k], old(tmpfs.Fs());
                if f.nodeId !in fs.nodes then tmpfs.Fs() == fs && r == -EBADF
                else if fs.nodes[f.nodeId].body in {Dev(1), Dev(2), Dev(3)} then
                  tmpfs.Fs() == fs && r == |buf|
                else (tmpfs.Fs(), r) == Write(fs, f.nodeId, buf, f.offset)
    {
      hide Wf, Linked, Stored, TableOk, View, Write;
      var k := LookupFile(task, fd);
      if k < 0 {
        return if fd == 1 || fd == 2 then |buf| else -EBADF;
      }
      var id := files[k].nodeId;
      ViewAt(tmpfs.nodes[..], tmpfs.arena[..], tmpfs.used, id);
      if !(0 <= id < MAX_NODES) || tmpfs.nodes[id].kind == NONE {
        return -EBADF;
      }
      if tmpfs.nodes[id].kind == CHARDEV {
        var d := tmpfs.nodes[id].device;
        if d == DEV_NULL || d == DEV_CONSOLE || d == DEV_TTY {
          return |buf|;
        }
      }
      r := tmpfs.WriteNode(id, buf, files[k].offset);
    }

    /** `fs_chdir_path`: the new directory string is cut to the 128-byte buffer. */
    method ChdirPath(task: nat, path: Str) returns (r: int)
      requires Valid() && task < Tasks.MAX_TASKS
      modifies cwds
      ensures Valid()
      ensures (cwds[task], r) == Chdir(tmpfs.Fs(), old(cwds[task]), path)
      ensures forall t :: 0 <= t < Tasks.MAX_TASKS && t != task ==> cwds[t] == old(cwds[t])
    {
      hide Wf, Linked, Stored, TableOk, View, Resolve;
      var resolved := NormalizePath(path, cwds[task]);
      NormalizedForm(cwds[task], path, cwds[task]);
      var id := tmpfs.ResolvePath(resolved);
      if id < 0 {
        return id;
      }
      ViewAt(tmpfs.nodes[..], tmpfs.arena[..], tmpfs.used, id);
      if !(0 <= id < MAX_NODES) || tmpfs.nodes[id].kind != DIR {
        return -ENOTDIR;
      }
      cwds[task] := Truncated(resolved, CWD_MAX - 1);
      return 0;
    }
  }

  /** `flags & O_CREAT`. */
  predicate MayCreate(flags: nat) {
    flags / 64 % 2 == 1
  }

  lemma CreateFlag(flags: nat)
    requires flags < 0x1_0000_0000
    ensures MayCreate(flags) <==> (flags as bv32) & 0x40 != 0
  {
  }

  lemma SameOpenRefl(files: seq<OpenFile>)
    ensures SameOpen(files, files)
  {
  }

  lemma TableShape(files: seq<OpenFile>, slots: seq<int>)
    requires TableOk(files, slots)
    ensures |files| == MAX_FILES && |slots| == Tasks.MAX_TASKS * MAX_FDS
    ensures forall i :: 0 <= i < |slots| ==> -1 <= slots[i] < MAX_FILES
  {
  }

  lemma TableBounds(files: seq<OpenFile>, slots: seq<int>, i: int)
    requires TableOk(files, slots) && 0 <= i < Tasks.MAX_TASKS * MAX_FDS
    ensures |slots| == Tasks.MAX_TASKS * MAX_FDS && -1 <= slots[i] < |files| && |files| == MAX_FILES
  {
  }

  lemma OffsetKeepsTable(files: seq<OpenFile>, slots: seq<int>, k: int, f: OpenFile)
    requires TableOk(files, slots) && 0 <= k < |files| && f.used == files[k].used && f.refs == files[k].refs
    ensures TableOk(files[k := f], slots)
  {
  }

  // ---------------------------------------------------------------------------------------
  // Runs of reads and of directory changes
  // ---------------------------------------------------------------------------------------

  /** Reading through an open file that is no device: the result, and the open file after it. */
  ghost function ReadFile(fs: FS, f: OpenFile, count: nat): (ReadResult, OpenFile) {
    var r := Read(fs, f.nodeId, count, f.offset);
    (r, f.(offset := f.offset + if r.Data? then |r.bytes| else 0))
  }

  /** A read moves the offset past what it delivers; a refused one leaves it. */
  lemma ReadMoves(fs: FS, f: OpenFile, count: nat)
    ensures var (r, next) := ReadFile(fs, f, count);
            next == if r.Data? then f.(offset := f.offset + |r.bytes|) else f
  {
  }

  /** Successive reads of the given sizes through one open file. */
  ghost function ReadRun(fs: FS, f: OpenFile, counts: seq<nat>): (seq<byte>, OpenFile)
    decreases |counts|
  {
    if counts == [] then ([], f)
    else
      var (r, next) := ReadFile(fs, f, counts[0]);
      var (rest, end) := ReadRun(fs, next, counts[1..]);
      ((if r.Data? then r.bytes else []) + rest, end)
  }

  function Total(counts: seq<nat>): nat {
    if counts == [] then 0 else counts[0] + Total(counts[1..])
  }

  /** Reading a file in any pieces delivers the same consecutive bytes as one read of the total,
      and leaves the offset just behind them. */
  lemma {:induction false} ReadsAreConsecutive(fs: FS, f: OpenFile, counts: seq<nat>)
    requires f.nodeId in fs.nodes && fs.nodes[f.nodeId].body.File?
    ensures var bytes := Slice(fs.nodes[f.nodeId].body.content, f.offset, Total(counts));
            ReadRun(fs, f, counts) == (bytes, f.(offset := f.offset + |bytes|))
    decreases |counts|
  {
    hide Slice;
    var c := fs.nodes[f.nodeId].body.content;
    if counts == [] {
      EmptySlice(c, f.offset);
    } else {
      ReadsAreConsecutive(fs, ReadFile(fs, f, counts[0]).1, counts[1..]);
      SlicesJoin(c, f.offset, counts[0], Total(counts[1..]));
    }
  }

  lemma EmptySlice(c: seq<byte>, off: nat)
    ensures Slice(c, off, 0) == []
  {
  }

  lemma SlicesJoin(c: seq<byte>, off: nat, m: nat, n: nat)
    ensures Slice(c, off, m) + Slice(c, off + |Slice(c, off, m)|, n) == Slice(c, off, m + n)
  {
    if off < |c| {
      var e := Min(off + m, |c|);
      assert |Slice(c, off, m)| == e - off;
      if e < |c| {
        assert c[off..e] + c[e..Min(e + n, |c|)] == c[off..Min(off + m + n, |c|)];
      }
    }
  }

  ghost function Chdir(fs: FS, cwd: Str, path: Str): (Str, int)
    requires cwd != []
  {
    var n := Normalized(cwd, path);
    var id := Resolve(fs, n);
    if id < 0 then (cwd, id)
    else if id !in fs.nodes || fs.nodes[id].body != Dir then (cwd, -ENOTDIR)
    else (Truncated(n, CWD_MAX - 1), 0)
  }

  /** A run of directory changes, each against whatever the tree is by then. */
  ghost function ChdirRun(cwd: Str, steps: seq<(FS, Str)>): Str
    requires cwd != []
    decreases |steps|
  {
    if steps == [] then cwd
    else
      var next := Chdir(steps[0].0, cwd, steps[0].1).0;
      if next == [] then next else ChdirRun(next, steps[1..])
  }

  lemma ChdirKeepsForm(fs: FS, cwd: Str, path: Str)
    requires CwdForm(cwd)
    ensures CwdForm(Chdir(fs, cwd, path).0)
  {
    NormalizedForm(cwd, path, cwd);
  }

  /** Whatever directories a task changes to, its cwd stays absolute and squeezed. */
  lemma {:induction false} CwdFormAlways(cwd: Str, steps: seq<(FS, Str)>)
    requires CwdForm(cwd)
    ensures CwdForm(ChdirRun(cwd, steps))
    decreases |steps|
  {
    if steps != [] {
      ChdirKeepsForm(steps[0].0, cwd, steps[0].1);
      CwdFormAlways(Chdir(steps[0].0, cwd, steps[0].1).0, steps[1..]);
    }
  }

  /** Every outcome of a directory change, with its code. */
  lemma ChdirOutcome(fs: FS, cwd: Str, path: Str)
    requires Wf(fs) && CwdForm(cwd)
    ensures var n, (cwd', r) := Normalized(cwd, path), Chdir(fs, cwd, path);
            if Resolve(fs, n) !in fs.nodes then cwd' == cwd && r == -2
            else if fs.nodes[Resolve(fs, n)].body != Dir then cwd' == cwd && r == -20
            else r == 0 && cwd' == if |n| < 128 then n else n[..127]
  {
    hide Tokens, Normalized;
    NormalizedForm(cwd, path, cwd);
    ResolveLands(fs, Normalized(cwd, path));
  }

  /** A successful change leaves a cwd with exactly the components of the directory resolved if
      and only if the 128-byte buffer cuts off nothing but a final slash; then the cwd resolves
      to that directory. */
  lemma ChdirLands(fs: FS, cwd: Str, path: Str)
    requires CwdForm(cwd) && Chdir(fs, cwd, path).1 == 0
    ensures var n, cwd' := Normalized(cwd, path), Chdir(fs, cwd, path).0;
            var fits := |n| < 128 || (|n| == 128 && Last(n) == SLASH);
            && (Tokens(cwd') == Tokens(n) <==> fits)
            && (fits ==> Resolve(fs, cwd') == Resolve(fs, n) && fs.nodes[Resolve(fs, n)].body == Dir)
  {
    hide Tokens;
    NormalizedForm(cwd, path, cwd);
    CutTokens(Normalized(cwd, path), CWD_MAX - 1);
  }

  /** "/." repeated. */
  function Dots(n: nat): (s: Str)
    ensures |s| == 2 * n && (forall i :: 0 <= i < n ==> s[2 * i] == SLASH && s[2 * i + 1] == DOT)
  {
    if n == 0 then [] else Dots(n - 1) + [SLASH, DOT]
  }

  function DotNames(n: nat): seq<Str> {
    if n == 0 then [] else DotNames(n - 1) + [[DOT]]
  }

  lemma {:induction false} DotsTokens(n: nat)
    ensures Tokens(Dots(n) + [SLASH]) == DotNames(n)
  {
    hide Tokens;
    if n == 0 {
      OnlyRoot();
      assert Dots(0) + [SLASH] == [SLASH];
    } else {
      DotsTokens(n - 1);
      TokensOfName([DOT]);
      TokensConcat(Dots(n - 1) + [SLASH], [DOT]);
      assert Dots(n - 1) + [SLASH] + [DOT] == Dots(n);
      TokensSnoc(Dots(n), SLASH);
    }
  }

  lemma {:induction false} DotsStay(fs: FS, n: nat)
    ensures Walk(fs, 0, DotNames(n)) == 0
  {
    if n > 0 {
      DotsStay(fs, n - 1);
      assert DropLast(DotNames(n)) == DotNames(n - 1);
      WalkSnoc(fs, 0, DotNames(n));
    }
  }

  /** Changing to a root-level directory by a path with 63 leading dots reports success and
      leaves the task in the root instead. */
  lemma ChdirMisses(fs: FS, name: Str)
    requires NoSlash(name) && GoodName(name)
    requires Resolve(fs, [SLASH] + name) > 0 && Resolve(fs, [SLASH] + name) in fs.nodes
    requires fs.nodes[Resolve(fs, [SLASH] + name)].body == Dir
    ensures var (cwd', r) := Chdir(fs, [SLASH], Dots(63) + [SLASH] + name);
            r == 0 && Resolve(fs, cwd') == 0 != Resolve(fs, Dots(63) + [SLASH] + name)
  {
    hide Tokens, Squeeze, Walk, DotNames;
    var dots, front, path := DotNames(63), Dots(63) + [SLASH], Dots(63) + [SLASH] + name;
    DotsNotDouble(63, name);
    SqueezeFixed(path);
    assert path[0] == Dots(63)[2 * 0] == SLASH && Based([SLASH], path) == path;
    assert Normalized([SLASH], path) == path;
    DotsTokens(63);
    DotsStay(fs, 63);
    TokensOfName(name);
    TokensConcat(front, name);
    assert Tokens(path) == dots + [name];
    OnlyRoot();
    TokensConcat([SLASH], name);
    assert Tokens([SLASH] + name) == [name];
    WalkConcat(fs, 0, dots, [name]);
    assert Resolve(fs, path) == Resolve(fs, [SLASH] + name);
    assert path[..CWD_MAX - 1] == front;
  }

  lemma DotsNotDouble(n: nat, name: Str)
    requires NoSlash(name) && name != []
    ensures NoDoubleSlash(Dots(n) + [SLASH] + name)
  {
    var p := Dots(n) + [SLASH] + name;
    forall i | 0 < i < |p| ensures p[i] != SLASH || p[i - 1] != SLASH {
      if i < 2 * n {
        assert p[2 * (i / 2)] == Dots(n)[2 * (i / 2)] && p[2 * (i / 2) + 1] == Dots(n)[2 * (i / 2) + 1] == DOT;
        if i % 2 == 0 {
          assert p[2 * (i / 2 - 1) + 1] == Dots(n)[2 * (i / 2 - 1) + 1] == DOT;
        }
      } else if i == 2 * n {
        assert n > 0 && p[2 * (n - 1) + 1] == Dots(n)[2 * (n - 1) + 1] == DOT;
      } else {
        assert p[i] == name[i - 2 * n - 1];
      }
    }
  }

  lemma OnlyRoot()
    ensures Tokens([SLASH]) == []
  {
    assert Tokens([SLASH]) == Tokens([SLASH][1..]);
  }

  lemma NothingOpen(files: seq<OpenFile>, slots: seq<int>)
    requires |files| == MAX_FILES && |slots| == Tasks.MAX_TASKS * MAX_FDS
    requires (forall k :: 0 <= k < |files| ==> files[k] == CLOSED) && (forall i :: 0 <= i < |slots| ==> slots[i] == -1)
    ensures TableOk(files, slots)
  {
  }

  lemma FailedAttach(files: seq<OpenFile>, slots: seq<int>, k: int, f: OpenFile)
    requires TableOk(files, slots) && 0 <= k < MAX_FILES && !files[k].used && !f.used
    ensures TableOk(files[k := f], slots)
  {
  }
}
