/** The file system a user of tmpfs sees: a table of inodes, each naming its parent, with
    file contents as plain byte sequences. Nothing here knows about sibling chains, arena
    extents or buffers; class Tmpfs refines these functions. */
module FileSystem {
  import opened Bytes
  import opened Errno
  import opened Paths

  const MAX_NODES := 256
  const ARENA_SIZE := 0x10_0000

  datatype Body = File(content: seq<byte>, capacity: nat) | Dir | Dev(device: int)
  datatype Inode = Inode(parent: int, name: Str, body: Body, mode: int)
  datatype FS = FS(nodes: map<int, Inode>, used: nat)

  // ---------------------------------------------------------------------------------------
  // Lookup
  // ---------------------------------------------------------------------------------------

  predicate IsChild(fs: FS, p: int, name: Str, i: int) {
    i in fs.nodes && fs.nodes[i].parent == p && fs.nodes[i].name == name
  }

  ghost function Child(fs: FS, p: int, name: Str): (r: int)
    ensures (exists i :: IsChild(fs, p, name, i)) ==> IsChild(fs, p, name, r)
    ensures (forall i :: !IsChild(fs, p, name, i)) ==> r == -ENOENT
  {
    if exists i :: IsChild(fs, p, name, i) then
      var i :| IsChild(fs, p, name, i);
      i
    else -ENOENT
  }

  /** One token of a walk; a failed walk stays failed. */
  ghost function Step(fs: FS, cur: int, t: Str): int {
    if cur < 0 || t == [DOT] then cur
    else if t == [DOT, DOT] then
      if cur in fs.nodes && fs.nodes[cur].parent >= 0 then fs.nodes[cur].parent else 0
    else Child(fs, cur, t)
  }

  ghost function Walk(fs: FS, cur: int, ts: seq<Str>): int
    decreases |ts|
  {
    if ts == [] then cur else Walk(fs, Step(fs, cur, ts[0]), ts[1..])
  }

  ghost function Resolve(fs: FS, path: Str): int {
    if path == [] || path[0] != SLASH then -EINVAL else Walk(fs, 0, Tokens(path))
  }

  /** Some node on the walk, its start included, is `id`. */
  ghost predicate Visits(fs: FS, cur: int, ts: seq<Str>, id: int)
    decreases |ts|
  {
    cur == id || (ts != [] && Visits(fs, Step(fs, cur, ts[0]), ts[1..], id))
  }

  // ---------------------------------------------------------------------------------------
  // Well-formed trees
  // ---------------------------------------------------------------------------------------

  predicate GoodName(name: Str) {
    0 < |name| < NAME_MAX && name != [DOT] && name != [DOT, DOT]
  }

  ghost predicate HasRoot(fs: FS) {
    0 in fs.nodes && fs.nodes[0].body == Dir && fs.nodes[0].parent == -1
  }

  /** Non-root nodes hang off live directories that a walk can name. */
  ghost predicate Hung(fs: FS, i: int)
    requires i in fs.nodes
  {
    var p := fs.nodes[i].parent;
    GoodName(fs.nodes[i].name) && p in fs.nodes && fs.nodes[p].body == Dir
    && (p == 0 || NoSlash(fs.nodes[p].name))
  }

  /** Siblings a walk can name have distinct names. */
  ghost predicate Distinct(fs: FS) {
    forall p, name, i, j :: NoSlash(name) && p >= 0 && IsChild(fs, p, name, i) && IsChild(fs, p, name, j) ==> i == j
  }

  ghost function Climb(fs: FS, i: int, k: nat): int
    decreases k
  {
    if k == 0 || i == 0 || i !in fs.nodes then i else Climb(fs, fs.nodes[i].parent, k - 1)
  }

  ghost predicate Rooted(fs: FS, i: int) {
    exists k: nat :: Climb(fs, i, k) == 0
  }

  ghost predicate Wf(fs: FS) {
    && HasRoot(fs)
    && (forall i :: i in fs.nodes ==> 0 <= i < MAX_NODES)
    && (forall i :: i in fs.nodes && i != 0 ==> Hung(fs, i))
    && Distinct(fs)
    && (forall i :: i in fs.nodes ==> Rooted(fs, i))
  }

  lemma ClimbAgrees(fs: FS, fs': FS, i: int, k: nat)
    requires i in fs.nodes
    requires forall j :: j in fs.nodes ==> j in fs'.nodes && fs'.nodes[j].parent == fs.nodes[j].parent
    requires forall j :: j in fs.nodes && j != 0 ==> fs.nodes[j].parent in fs.nodes
    ensures Climb(fs, i, k) == Climb(fs', i, k)
    decreases k
  {
    if k > 0 && i != 0 {
      ClimbAgrees(fs, fs', fs.nodes[i].parent, k - 1);
    }
  }

  /** Only the root directory, which `tmpfs_init` names "/" and gives mode 0755. */
  function EmptyFs(): FS {
    FS(map[0 := Inode(-1, [SLASH], Dir, 0x1ED)], 0)
  }

  lemma EmptyIsWf()
    ensures Wf(EmptyFs())
  {
    assert Climb(EmptyFs(), 0, 0) == 0;
  }

  // ---------------------------------------------------------------------------------------
  // Walks
  // ---------------------------------------------------------------------------------------

  lemma {:induction false} WalkConcat(fs: FS, cur: int, a: seq<Str>, b: seq<Str>)
    ensures Walk(fs, cur, a + b) == Walk(fs, Walk(fs, cur, a), b)
    decreases |a|
  {
    if a == [] {
      assert a + b == b;
    } else {
      assert (a + b)[1..] == a[1..] + b;
      WalkConcat(fs, Step(fs, cur, a[0]), a[1..], b);
    }
  }

  lemma WalkSnoc(fs: FS, cur: int, ts: seq<Str>)
    requires ts != []
    ensures Walk(fs, cur, ts) == Step(fs, Walk(fs, cur, DropLast(ts)), Last(ts))
  {
    assert ts == DropLast(ts) + [Last(ts)];
    WalkConcat(fs, cur, DropLast(ts), [Last(ts)]);
    var w := Walk(fs, cur, DropLast(ts));
    assert Walk(fs, w, [Last(ts)]) == Walk(fs, Step(fs, w, Last(ts)), [Last(ts)][1..]);
  }

  /** A walk ends on a live node or with ENOENT, never anything else. */
  lemma {:induction false} WalkLands(fs: FS, cur: int, ts: seq<Str>)
    requires Wf(fs) && (cur in fs.nodes || cur == -ENOENT)
    ensures var w := Walk(fs, cur, ts); w in fs.nodes || w == -ENOENT
    decreases |ts|
  {
    if ts != [] {
      WalkLands(fs, Step(fs, cur, ts[0]), ts[1..]);
    }
  }

  lemma ResolveLands(fs: FS, path: Str)
    requires Wf(fs)
    ensures var id := Resolve(fs, path);
            if id in fs.nodes then 0 <= id < MAX_NODES
            else id == if path == [] || path[0] != SLASH then -EINVAL else -ENOENT
  {
    hide Tokens;
    WalkLands(fs, 0, Tokens(path));
  }

  /** `..` leads from anything found back to where it was found, and stays in the root. */
  lemma DotDotGoesUp(fs: FS, ts: seq<Str>)
    requires Wf(fs) && Plain(ts)
    ensures ts != [] && Walk(fs, 0, ts) in fs.nodes ==> Walk(fs, 0, ts + [[46, 46]]) == Walk(fs, 0, DropLast(ts))
    ensures Walk(fs, 0, [[46, 46]]) == 0
  {
    WalkSnoc(fs, 0, [[46, 46]]);
    assert DropLast([[46, 46]]) == [];
    if ts != [] && Walk(fs, 0, ts) in fs.nodes {
      var up := ts + [[46, 46]];
      assert DropLast(up) == ts && Last(up) == [46, 46];
      WalkSnoc(fs, 0, up);
      WalkSnoc(fs, 0, ts);
      WalkLands(fs, 0, DropLast(ts));
      var w, v := Walk(fs, 0, DropLast(ts)), Walk(fs, 0, ts);
      assert IsChild(fs, w, Last(ts), v);
    }
  }

  /** `.` stays, also on what was not found, and what was not found stays so. */
  lemma DotStays(fs: FS, ts: seq<Str>, us: seq<Str>)
    requires Wf(fs)
    ensures Walk(fs, 0, ts + [[46]]) == Walk(fs, 0, ts)
    ensures Walk(fs, 0, ts) !in fs.nodes ==> Walk(fs, 0, ts + us) == -2
  {
    assert DropLast(ts + [[46]]) == ts;
    WalkSnoc(fs, 0, ts + [[46]]);
    WalkLands(fs, 0, ts);
    WalkConcat(fs, 0, ts, us);
    WalkFailed(fs, us);
  }

  /** Resolving a normalised path is walking the cwd's components and then the path's own. */
  lemma NormalizedResolves(fs: FS, cwd: Str, path: Str)
    requires CwdForm(cwd) && path != [] && Fits(cwd, path)
    ensures Resolve(fs, Normalized(cwd, path))
            == Walk(fs, if path[0] == SLASH then 0 else Resolve(fs, cwd), Tokens(path))
  {
    NormalizedForm(cwd, path, cwd);
    NormalizedTokens(cwd, path);
    WalkConcat(fs, 0, if path[0] == SLASH then [] else Tokens(cwd), Tokens(path));
  }

  // ---------------------------------------------------------------------------------------
  // Creation
  // ---------------------------------------------------------------------------------------

  ghost function FreeFrom(fs: FS, i: nat): (r: int)
    ensures r == -ENOSPC || (i <= r < MAX_NODES && r !in fs.nodes)
    ensures r == -ENOSPC ==> forall j :: i <= j < MAX_NODES ==> j in fs.nodes
    ensures r != -ENOSPC ==> forall j :: i <= j < r ==> j in fs.nodes
    decreases MAX_NODES - i
  {
    if i >= MAX_NODES then -ENOSPC else if i !in fs.nodes then i else FreeFrom(fs, i + 1)
  }

  ghost function AddChild(fs: FS, p: int, leaf: Str, body: Body, mode: int): (FS, int) {
    var id := FreeFrom(fs, 0);
    if id < 0 then (fs, id)
    else (fs.(nodes := fs.nodes[id := Inode(p, leaf, body, mode)]), id)
  }

  /** Where the leaf of a path starts: its last component with any trailing slashes. */
  function LeafStart(p: Str): (k: nat)
    ensures k <= |p|
  {
    BackRun(p[..TrimEnd(p)])
  }

  function TrimEnd(p: Str): (k: nat)
    ensures k <= |p| && (k > 0 ==> p[k - 1] != SLASH)
    ensures forall i :: k <= i < |p| ==> p[i] == SLASH
  {
    if p != [] && Last(p) == SLASH then TrimEnd(DropLast(p)) else |p|
  }

  function BackRun(p: Str): (k: nat)
    ensures k <= |p| && AtBoundary(p[..k])
    ensures forall i :: k <= i < |p| ==> p[i] != SLASH
  {
    if p != [] && Last(p) != SLASH then
      var k := BackRun(DropLast(p));
      assert p[..k] == DropLast(p)[..k];
      k
    else
      assert p[..|p|] == p;
      |p|
  }

  function ParentOf(p: Str): Str {
    if LeafStart(p) == 0 then [SLASH] else p[..LeafStart(p)]
  }

  function LeafOf(p: Str): Str {
    if LeafStart(p) == 0 && p != [] && p[0] == SLASH then p[1..] else p[LeafStart(p)..]
  }

  function Core(leaf: Str): Str {
    leaf[..TrimEnd(leaf)]
  }

  /** For an absolute path with at least one component, the parent is everything up to the
      last component and the leaf is that component, keeping any trailing slashes. */
  lemma SplitParts(path: Str)
    requires path != [] && path[0] == SLASH && TrimEnd(path) > 0
    ensures path == ParentOf(path) + LeafOf(path)
    ensures ParentOf(path)[0] == SLASH && Last(ParentOf(path)) == SLASH
    ensures LeafOf(path) != [] && TrimEnd(LeafOf(path)) > 0 && NoSlash(Core(LeafOf(path)))
    ensures NoSlash(LeafOf(path)) <==> Last(path) != SLASH
  {
    var e := TrimEnd(path);
    var body := path[..e];
    var k := LeafStart(path);
    assert body[0] == SLASH;
    assert 0 < k < e;
    assert body[..k] == path[..k];
    assert LeafOf(path) == path[k..];
    TrimOfLeaf(path, path[k..], k);
    assert Core(path[k..]) == body[k..];
    LeafSlash(path, k);
  }

  /** Without a slash the parent is the root and the leaf everything; of slashes alone the leaf is
      all but the first. */
  lemma SplitEdges(path: Str)
    ensures path != [] && (forall i :: 0 <= i < |path| ==> path[i] != 47) ==>
              ParentOf(path) == [47] && LeafOf(path) == path
    ensures path != [] && (forall i :: 0 <= i < |path| ==> path[i] == 47) ==>
              ParentOf(path) == [47] && LeafOf(path) == path[1..]
  {
    assert path[..|path|] == path;
    if path != [] && forall i :: 0 <= i < |path| ==> path[i] != 47 {
      RunToStart(path);
    }
    if path != [] && forall i :: 0 <= i < |path| ==> path[i] == 47 {
      TrimAll(path);
      assert path[..0] == [];
    }
  }

  lemma {:induction false} RunToStart(p: Str)
    requires forall i :: 0 <= i < |p| ==> p[i] != SLASH
    ensures BackRun(p) == 0
  {
    if p != [] {
      RunToStart(DropLast(p));
    }
  }

  lemma {:induction false} TrimAll(p: Str)
    requires forall i :: 0 <= i < |p| ==> p[i] == SLASH
    ensures TrimEnd(p) == 0
  {
    if p != [] {
      TrimAll(DropLast(p));
    }
  }

  lemma LeafSlash(path: Str, k: nat)
    requires k < TrimEnd(path) && NoSlash(path[k..TrimEnd(path)])
    ensures NoSlash(path[k..]) <==> Last(path) != SLASH
  {
    if Last(path) == SLASH {
      assert path[k..][|path| - 1 - k] == SLASH;
    } else {
      assert TrimEnd(path) == |path|;
      assert path[k..TrimEnd(path)] == path[k..];
    }
  }

  /** The components of the parent, followed by the leaf without its trailing slashes, are
      the components of the path. */
  lemma SplitMeaning(path: Str)
    requires path != [] && path[0] == SLASH && TrimEnd(path) > 0 && |LeafOf(path)| < NAME_MAX
    ensures Tokens(path) == Tokens(ParentOf(path)) + [Core(LeafOf(path))]
  {
    SplitParts(path);
    TokensConcat(ParentOf(path), LeafOf(path));
    LeafTokens(LeafOf(path));
  }

  lemma LeafTokens(leaf: Str)
    requires |leaf| < NAME_MAX && TrimEnd(leaf) > 0 && NoSlash(Core(leaf))
    ensures Tokens(leaf) == [Core(leaf)]
  {
    hide Tokens;
    var s := leaf[TrimEnd(leaf)..];
    assert leaf == Core(leaf) + s;
    TokensConcat(Core(leaf), s);
    TokensOfName(Core(leaf));
    AllSlashes(s);
  }

  lemma TrimOfLeaf(path: Str, leaf: Str, k: nat)
    requires k < TrimEnd(path) && leaf == path[k..]
    ensures TrimEnd(leaf) == TrimEnd(path) - k
  {
    assert forall j :: 0 <= j < |leaf| ==> leaf[j] == path[j + k];
    assert leaf[TrimEnd(path) - 1 - k] != SLASH;
  }

  lemma AllSlashes(s: Str)
    requires forall i :: 0 <= i < |s| ==> s[i] == SLASH
    ensures Tokens(s) == []
    decreases |s|
  {
    if s != [] {
      AllSlashes(s[1..]);
    }
  }

  ghost function Create(fs: FS, path: Str, body: Body, mode: int): (FS, int) {
    if |path| < 2 || path[0] != SLASH then (fs, -EINVAL)
    else if Resolve(fs, path) >= 0 then (fs, Resolve(fs, path))
    else
      var p := Resolve(fs, ParentOf(path));
      if p < 0 then (fs, p)
      else if p !in fs.nodes || fs.nodes[p].body != Dir then (fs, -ENOTDIR)
      else AddChild(fs, p, LeafOf(path), body, mode)
  }

  /** Everything that holds when a create really adds a node. */
  ghost predicate Adds(fs: FS, path: Str, body: Body, mode: int, fs': FS, p: int, id: int) {
    && 0 < id < MAX_NODES && id !in fs.nodes
    && p in fs.nodes && fs.nodes[p].body == Dir && p == Resolve(fs, ParentOf(path))
    && (p == 0 || NoSlash(fs.nodes[p].name))
    && GoodName(LeafOf(path)) && (NoSlash(LeafOf(path)) ==> Child(fs, p, LeafOf(path)) == -ENOENT)
    && fs' == fs.(nodes := fs.nodes[id := Inode(p, LeafOf(path), body, mode)])
  }

  lemma WalkNames(fs: FS, cur: int, ts: seq<Str>)
    requires Wf(fs) && (cur in fs.nodes || cur == -ENOENT)
    requires forall i :: 0 <= i < |ts| ==> NoSlash(ts[i])
    requires cur > 0 ==> NoSlash(fs.nodes[cur].name)
    ensures var w := Walk(fs, cur, ts); w > 0 ==> w in fs.nodes && NoSlash(fs.nodes[w].name)
    decreases |ts|
  {
    if ts != [] {
      WalkNames(fs, Step(fs, cur, ts[0]), ts[1..]);
    }
  }

  /** A create that gets as far as splitting its path has 32 bytes for the leaf. */
  ghost predicate LeafFits(fs: FS, path: Str) {
    |path| >= 2 && path[0] == SLASH && Resolve(fs, path) < 0 ==> |LeafOf(path)| < NAME_MAX
  }

  lemma CreateCases(fs: FS, path: Str, body: Body, mode: int)
    requires Wf(fs) && LeafFits(fs, path)
    ensures var (fs', id) := Create(fs, path, body, mode);
            fs' == fs || Adds(fs, path, body, mode, fs', Resolve(fs, ParentOf(path)), id)
  {
    if Create(fs, path, body, mode).0 != fs {
      NewLeaf(fs, path);
      assert FreeFrom(fs, 0) != 0;
    }
  }

  /** A path that does not resolve although its parent does has a fresh, proper leaf. */
  lemma NewLeaf(fs: FS, path: Str)
    requires Wf(fs) && path != [] && path[0] == SLASH && |LeafOf(path)| < NAME_MAX
    requires Resolve(fs, path) < 0 <= Resolve(fs, ParentOf(path))
    ensures TrimEnd(path) > 0
    ensures var p, leaf := Resolve(fs, ParentOf(path)), LeafOf(path);
            && Child(fs, p, Core(leaf)) == -ENOENT == Resolve(fs, path)
            && GoodName(leaf) && (NoSlash(leaf) ==> Core(leaf) == leaf)
            && p in fs.nodes && (p == 0 || NoSlash(fs.nodes[p].name))
  {
    if TrimEnd(path) == 0 { AllSlashes(path); }
    SplitWalk(fs, path);
    WalkLands(fs, 0, Tokens(path));
    WalkLands(fs, 0, Tokens(ParentOf(path)));
    WalkNames(fs, 0, Tokens(ParentOf(path)));
    ProperLeaf(LeafOf(path));
  }

  /** Resolving a path is resolving its parent and taking one more step. */
  lemma SplitWalk(fs: FS, path: Str)
    requires path != [] && path[0] == SLASH && TrimEnd(path) > 0 && |LeafOf(path)| < NAME_MAX
    ensures Resolve(fs, path) == Step(fs, Resolve(fs, ParentOf(path)), Core(LeafOf(path)))
    ensures Resolve(fs, ParentOf(path)) == Walk(fs, 0, Tokens(ParentOf(path)))
    ensures LeafOf(path) != [] && NoSlash(Core(LeafOf(path)))
  {
    SplitParts(path);
    SplitMeaning(path);
    WalkSnoc(fs, 0, Tokens(path));
    assert DropLast(Tokens(path)) == Tokens(ParentOf(path));
  }

  lemma ProperLeaf(leaf: Str)
    requires 0 < |leaf| < NAME_MAX
    ensures NoSlash(leaf) ==> Core(leaf) == leaf
    ensures GoodName(leaf) || Core(leaf) == [DOT] || Core(leaf) == [DOT, DOT]
  {
    if NoSlash(leaf) {
      assert TrimEnd(leaf) == |leaf|;
    } else {
      assert [DOT][0] != SLASH && [DOT, DOT][0] != SLASH && [DOT, DOT][1] != SLASH;
    }
  }

  lemma AddsKeepsWf(fs: FS, path: Str, body: Body, mode: int, fs': FS, p: int, id: int)
    requires Wf(fs) && Adds(fs, path, body, mode, fs', p, id)
    ensures Wf(fs')
  {
    forall i | i in fs'.nodes ensures Rooted(fs', i) {
      if i == id {
        var k: nat :| Climb(fs, p, k) == 0;
        ClimbAgrees(fs, fs', p, k);
        assert Climb(fs', id, k + 1) == 0;
      } else {
        var k: nat :| Climb(fs, i, k) == 0;
        ClimbAgrees(fs, fs', i, k);
      }
    }
    forall q, name, i, j | NoSlash(name) && q >= 0 && IsChild(fs', q, name, i) && IsChild(fs', q, name, j)
      ensures i == j
    {
      assert i != id ==> IsChild(fs, q, name, i);
      assert j != id ==> IsChild(fs, q, name, j);
    }
    forall i | i in fs'.nodes && i != 0 ensures Hung(fs', i) {
      assert i != id ==> Hung(fs, i);
    }
  }

  lemma ChildAfterAdd(fs: FS, path: Str, body: Body, mode: int, fs': FS, p: int, id: int, q: int, t: Str)
    requires Wf(fs) && Adds(fs, path, body, mode, fs', p, id) && NoSlash(t) && q >= 0
    ensures Child(fs', q, t) == if q == p && t == LeafOf(path) then id else Child(fs, q, t)
  {
    AddsKeepsWf(fs, path, body, mode, fs', p, id);
    forall i ensures IsChild(fs', q, t, i) <==> (IsChild(fs, q, t, i) || (i == id && q == p && t == LeafOf(path))) {
    }
    if q == p && t == LeafOf(path) {
      assert IsChild(fs', q, t, id);
    } else if exists i :: IsChild(fs, q, t, i) {
      var i :| IsChild(fs, q, t, i);
      assert IsChild(fs', q, t, i);
    }
  }

  lemma NoChildOfNew(fs: FS, path: Str, body: Body, mode: int, fs': FS, p: int, id: int, t: Str)
    requires Wf(fs) && Adds(fs, path, body, mode, fs', p, id)
    ensures Child(fs', id, t) == -ENOENT
  {
    forall i ensures !IsChild(fs', id, t, i) {
      if i in fs.nodes && i != 0 { assert Hung(fs, i); }
    }
  }

  /** Creating a node is one update of the path map: for every list of plain names, the new
      list reaches the new node and every other list reaches what it reached before. */
  lemma {:induction false} CreatePathMap(fs: FS, path: Str, body: Body, mode: int, fs': FS, p: int, id: int,
                                           ts: seq<Str>)
    requires Wf(fs) && Adds(fs, path, body, mode, fs', p, id) && Plain(ts)
    ensures Walk(fs', 0, ts)
            == if ts != [] && Walk(fs, 0, DropLast(ts)) == p && Last(ts) == LeafOf(path) then id
               else Walk(fs, 0, ts)
    decreases |ts|
  {
    if ts != [] {
      var r, t := DropLast(ts), Last(ts);
      CreatePathMap(fs, path, body, mode, fs', p, id, r);
      WalkSnoc(fs, 0, ts);
      WalkSnoc(fs', 0, ts);
      WalkLands(fs, 0, r);
      var w := Walk(fs, 0, r);
      if Walk(fs', 0, r) != w {
        WalkSnoc(fs, 0, r);
        NoChildOfNew(fs, path, body, mode, fs', p, id, t);
      } else if w >= 0 {
        ChildAfterAdd(fs, path, body, mode, fs', p, id, w, t);
      }
    }
  }

  /** A list of names that a walk looks up one by one. */
  predicate Plain(ts: seq<Str>) {
    forall i :: 0 <= i < |ts| ==> NoSlash(ts[i]) && GoodName(ts[i])
  }

  /** Paths with dots included: only walks through the new node can change their result. */
  lemma {:induction false} CreateKeepsWalks(fs: FS, path: Str, body: Body, mode: int, fs': FS, p: int, id: int,
                                              cur: int, ts: seq<Str>)
    requires Wf(fs) && Adds(fs, path, body, mode, fs', p, id)
    requires forall i :: 0 <= i < |ts| ==> NoSlash(ts[i])
    requires cur in fs.nodes || cur == -ENOENT
    ensures Visits(fs', cur, ts, id) || Walk(fs', cur, ts) == Walk(fs, cur, ts)
    ensures Walk(fs, cur, ts) >= 0 ==> Walk(fs', cur, ts) == Walk(fs, cur, ts)
    decreases |ts|
  {
    if ts != [] {
      var t := ts[0];
      if cur >= 0 {
        ChildAfterAdd(fs, path, body, mode, fs', p, id, cur, t);
      }
      var w, w' := Step(fs, cur, t), Step(fs', cur, t);
      WalkLands(fs, cur, [t]);
      assert Walk(fs, cur, [t]) == Walk(fs, w, [t][1..]);
      if w == w' {
        CreateKeepsWalks(fs, path, body, mode, fs', p, id, w, ts[1..]);
      } else {
        WalkFailed(fs, ts[1..]);
        assert w' == id && Visits(fs', w', ts[1..], id);
      }
    }
  }

  lemma WalkFailed(fs: FS, ts: seq<Str>)
    ensures Walk(fs, -ENOENT, ts) == -ENOENT
    decreases |ts|
  {
    if ts != [] {
      WalkFailed(fs, ts[1..]);
    }
  }

  /** After a create that adds a node, looking the path up finds it exactly when the path does
      not end in a slash: the slash stays in the stored name, where no token can match it. */
  lemma CreateThenLookup(fs: FS, path: Str, body: Body, mode: int)
    requires Wf(fs) && LeafFits(fs, path) && Create(fs, path, body, mode).0 != fs
    ensures var (fs', id) := Create(fs, path, body, mode);
            Wf(fs') && (Resolve(fs', path) == id <==> Last(path) != SLASH)
  {
    hide Tokens, LeafOf, ParentOf, Core, TrimEnd, Wf, Walk;
    var (fs', id) := Create(fs, path, body, mode);
    var p := Resolve(fs, ParentOf(path));
    CreateCases(fs, path, body, mode);
    AddsKeepsWf(fs, path, body, mode, fs', p, id);
    NewLeaf(fs, path);
    SplitWalk(fs, path);
    SplitWalk(fs', path);
    CreateKeepsWalks(fs, path, body, mode, fs', p, id, 0, Tokens(ParentOf(path)));
    ChildAfterAdd(fs, path, body, mode, fs', p, id, p, Core(LeafOf(path)));
    SplitParts(path);
  }

  /** Every outcome of a create, with its code. */
  lemma CreateOutcome(fs: FS, path: Str, body: Body, mode: int)
    requires Wf(fs) && LeafFits(fs, path)
    ensures var (fs', r) := Create(fs, path, body, mode);
            var at, p := Resolve(fs, path), Resolve(fs, ParentOf(path));
            if |path| < 2 || path[0] != 47 then fs' == fs && r == -22
            else if at in fs.nodes then fs' == fs && r == at
            else if p !in fs.nodes then fs' == fs && r == -2
            else if fs.nodes[p].body != Dir then fs' == fs && r == -20
            else if forall i :: 0 <= i < 256 ==> i in fs.nodes then fs' == fs && r == -28
            else
              && 0 < r < 256 && r !in fs.nodes && (forall i :: 0 <= i < r ==> i in fs.nodes)
              && fs' == FS(fs.nodes[r := Inode(p, LeafOf(path), body, mode)], fs.used)
  {
    hide Tokens, LeafOf, ParentOf;
    if |path| >= 2 && path[0] == 47 {
      ResolveLands(fs, path);
      ResolveLands(fs, ParentOf(path));
      ParentIsAbsolute(path);
      CreateCases(fs, path, body, mode);
    }
  }

  lemma ParentIsAbsolute(path: Str)
    requires |path| >= 2 && path[0] == SLASH
    ensures ParentOf(path) != [] && ParentOf(path)[0] == SLASH
  {
  }

  /** Created as "/a/", a directory takes a node but is not found under that path. */
  lemma SlashHides()
    ensures var path: Str := [SLASH, 97, SLASH];
            var (fs', id) := Create(EmptyFs(), path, Dir, 0x1ED);
            id > 0 && id in fs'.nodes && Resolve(fs', path) == -ENOENT
  {
    var fs, path: Str := EmptyFs(), [SLASH, 97, SLASH];
    SlashPathParts();
    EmptyIsWf();
    assert Tokens([SLASH]) == Tokens([SLASH][1..]) == [];
    assert Resolve(fs, ParentOf(path)) == 0;
    SplitWalk(fs, path);
    assert Child(fs, 0, [97]) == -ENOENT;
    assert FreeFrom(fs, 0) == FreeFrom(fs, 1) == 1;
    var fs' := Create(fs, path, Dir, 0x1ED).0;
    SplitWalk(fs', path);
    assert fs'.nodes[1].name[1] == SLASH;
    assert Child(fs', 0, [97]) == -ENOENT;
  }

  lemma SlashPathParts()
    ensures var path: Str := [SLASH, 97, SLASH];
            TrimEnd(path) == 2 && LeafOf(path) == [97, SLASH] && ParentOf(path) == [SLASH] && Core([97, SLASH]) == [97]
  {
    var path: Str := [SLASH, 97, SLASH];
    assert DropLast(path) == [SLASH, 97] == path[..2] && DropLast([SLASH, 97]) == [SLASH];
    assert BackRun([SLASH]) == 1 && BackRun([SLASH, 97]) == 1;
    assert DropLast([97, SLASH]) == [97];
  }

  // ---------------------------------------------------------------------------------------
  // Removal
  // ---------------------------------------------------------------------------------------

  ghost predicate HasChild(fs: FS, p: int) {
    exists i :: i in fs.nodes && fs.nodes[i].parent == p
  }

  ghost function Remove(fs: FS, path: Str, wantDir: bool): (FS, int) {
    var id := Resolve(fs, path);
    if id <= 0 || id !in fs.nodes then (fs, -EINVAL)
    else if wantDir && fs.nodes[id].body != Dir then (fs, -ENOTDIR)
    else if !wantDir && fs.nodes[id].body == Dir then (fs, -EISDIR)
    else if fs.nodes[id].body == Dir && HasChild(fs, id) then (fs, -ENOTEMPTY)
    else (fs.(nodes := fs.nodes - {id}), 0)
  }

  /** Everything that holds when a remove really drops a node. */
  ghost predicate Drops(fs: FS, fs': FS, id: int) {
    id > 0 && id in fs.nodes && !HasChild(fs, id) && fs' == fs.(nodes := fs.nodes - {id})
  }

  lemma RemoveCases(fs: FS, path: Str, wantDir: bool)
    requires Wf(fs)
    ensures var (fs', r) := Remove(fs, path, wantDir);
            if r == 0 then Drops(fs, fs', Resolve(fs, path)) else fs' == fs
  {
    var id := Resolve(fs, path);
    forall i | i in fs.nodes && id > 0 && id in fs.nodes && fs.nodes[id].body != Dir
      ensures fs.nodes[i].parent != id
    {
      if i != 0 { assert Hung(fs, i); }
    }
  }

  /** Every outcome of a remove, with its code. The root counts as not found, and so does a path
      that is not absolute. */
  lemma RemoveOutcome(fs: FS, path: Str, wantDir: bool)
    requires Wf(fs)
    ensures var (fs', r) := Remove(fs, path, wantDir);
            var id := Resolve(fs, path);
            if id !in fs.nodes || id == 0 then fs' == fs && r == -22
            else if wantDir && fs.nodes[id].body != Dir then fs' == fs && r == -20
            else if !wantDir && fs.nodes[id].body == Dir then fs' == fs && r == -21
            else if exists i :: i in fs.nodes && fs.nodes[i].parent == id then fs' == fs && r == -39
            else r == 0 && fs'.used == fs.used && fs'.nodes.Keys == fs.nodes.Keys - {id}
                 && forall i :: i in fs'.nodes ==> fs'.nodes[i] == fs.nodes[i]
  {
    ResolveLands(fs, path);
    var id := Resolve(fs, path);
    if id in fs.nodes && fs.nodes[id].body != Dir {
      forall i | i in fs.nodes ensures fs.nodes[i].parent != id {
        if i != 0 { assert Hung(fs, i); }
      }
    }
  }

  lemma DropsKeepsWf(fs: FS, fs': FS, id: int)
    requires Wf(fs) && Drops(fs, fs', id)
    ensures Wf(fs')
  {
    forall i | i in fs'.nodes && i != 0 ensures Hung(fs', i) {
      assert Hung(fs, i);
    }
    forall i | i in fs'.nodes ensures Rooted(fs', i) {
      var k: nat :| Climb(fs, i, k) == 0;
      ClimbAgrees(fs', fs, i, k);
    }
    forall q, name, i, j | NoSlash(name) && q >= 0 && IsChild(fs', q, name, i) && IsChild(fs', q, name, j)
      ensures i == j
    {
      assert IsChild(fs, q, name, i) && IsChild(fs, q, name, j);
    }
  }

  lemma StepAfterDrop(fs: FS, fs': FS, id: int, cur: int, t: Str)
    requires Wf(fs) && Drops(fs, fs', id) && NoSlash(t)
    requires cur in fs'.nodes || cur == -ENOENT
    ensures Step(fs', cur, t) == if Step(fs, cur, t) == id then -ENOENT else Step(fs, cur, t)
  {
    if cur in fs'.nodes && t != [DOT] && t != [DOT, DOT] {
      forall i ensures IsChild(fs', cur, t, i) <==> i != id && IsChild(fs, cur, t, i) {
      }
      if exists i :: IsChild(fs, cur, t, i) {
        var i :| IsChild(fs, cur, t, i);
        assert i != id ==> IsChild(fs', cur, t, i);
      }
    }
  }

  /** Removing a node: every walk that met it now fails with ENOENT, and every walk that did
      not resolves exactly as before, dots included. */
  lemma {:induction false} RemoveWalks(fs: FS, fs': FS, id: int, cur: int, ts: seq<Str>)
    requires Wf(fs) && Drops(fs, fs', id)
    requires forall i :: 0 <= i < |ts| ==> NoSlash(ts[i])
    requires cur in fs'.nodes || cur == -ENOENT
    ensures Walk(fs', cur, ts) == if Visits(fs, cur, ts, id) then -ENOENT else Walk(fs, cur, ts)
    decreases |ts|
  {
    if ts != [] {
      StepAfterDrop(fs, fs', id, cur, ts[0]);
      var w := Step(fs, cur, ts[0]);
      WalkLands(fs, cur, [ts[0]]);
      assert Walk(fs, cur, [ts[0]]) == Walk(fs, w, [ts[0]][1..]);
      if w == id {
        WalkFailed(fs', ts[1..]);
      } else {
        RemoveWalks(fs, fs', id, w, ts[1..]);
      }
    }
  }

  lemma {:induction false} WalkVisitsItsEnd(fs: FS, cur: int, ts: seq<Str>)
    ensures Visits(fs, cur, ts, Walk(fs, cur, ts))
    decreases |ts|
  {
    if ts != [] {
      WalkVisitsItsEnd(fs, Step(fs, cur, ts[0]), ts[1..]);
    }
  }

  /** A successful remove makes its own path unresolvable and keeps the tree well-formed. */
  lemma RemoveThenLookup(fs: FS, path: Str, wantDir: bool)
    requires Wf(fs) && Remove(fs, path, wantDir).1 == 0
    ensures Wf(Remove(fs, path, wantDir).0) && Resolve(Remove(fs, path, wantDir).0, path) == -ENOENT
  {
    var fs', id := Remove(fs, path, wantDir).0, Resolve(fs, path);
    RemoveCases(fs, path, wantDir);
    DropsKeepsWf(fs, fs', id);
    WalkVisitsItsEnd(fs, 0, Tokens(path));
    RemoveWalks(fs, fs', id, 0, Tokens(path));
  }

  // ---------------------------------------------------------------------------------------
  // The path map
  // ---------------------------------------------------------------------------------------

  ghost function PathVia(fs: FS, i: int, k: nat): seq<Str>
    decreases k
  {
    if k == 0 || i == 0 || i !in fs.nodes then []
    else PathVia(fs, fs.nodes[i].parent, k - 1) + [fs.nodes[i].name]
  }

  /** No node is lost: following parents to the root spells a path that resolves back to the
      node, and it is the only plain path that does. */
  lemma {:induction false} PathIsUnique(fs: FS, i: int, k: nat, ts: seq<Str>)
    requires Wf(fs) && i in fs.nodes && (i == 0 || NoSlash(fs.nodes[i].name))
    requires Climb(fs, i, k) == 0 && Plain(ts)
    ensures Walk(fs, 0, ts) == i <==> ts == PathVia(fs, i, k)
    decreases k + |ts|
  {
    if ts != [] {
      WalkSnoc(fs, 0, ts);
      WalkLands(fs, 0, DropLast(ts));
    }
    if i == 0 {
    } else {
      assert Hung(fs, i);
      var p, name := fs.nodes[i].parent, fs.nodes[i].name;
      if ts != [] {
        PathIsUnique(fs, p, k - 1, DropLast(ts));
        var w := Walk(fs, 0, DropLast(ts));
        assert IsChild(fs, p, name, i);
        if ts == PathVia(fs, i, k) {
          assert DropLast(ts) == PathVia(fs, p, k - 1);
        }
        if Walk(fs, 0, ts) == i {
          assert IsChild(fs, w, Last(ts), i);
          assert ts == DropLast(ts) + [Last(ts)];
        }
      }
    }
  }

  // ---------------------------------------------------------------------------------------
  // File contents
  // ---------------------------------------------------------------------------------------

  /** `(x + 255) & ~255U`: the mask is 32 bits wide, so the high half of the sum is lost. */
  function Align256(x: nat): nat {
    (x + 255) % 0x1_0000_0000 / 256 * 256
  }

  /** `(x + 15) & ~15U`. */
  function Align16(x: nat): nat {
    (x + 15) % 0x1_0000_0000 / 16 * 16
  }

  /** The mask rounds up, to the least multiple, exactly while sizes stay within 2^32 - 256;
      within that range the second rounding of `alloc_storage` changes nothing. */
  lemma AlignRoundsUp(x: nat)
    ensures Align256(x) >= x <==> x <= 0xFFFF_FF00
    ensures x <= 0xFFFF_FF00 ==> Align256(x) < x + 256 && Align16(Align256(x)) == Align256(x)
  {
  }

  /** ... and the result is always a multiple. */
  lemma AlignIsMultiple(x: nat)
    ensures Align256(x) % 256 == 0 && Align16(x) % 16 == 0
  {
  }

  /** One byte more and the mask loses everything. */
  lemma MaskLoses()
    ensures Align256(0xFFFF_FF01) == 0
  {
  }

  /** `buf` laid over `c` at `off`, after filling any gap with zeros. */
  function Overlay(c: seq<byte>, off: nat, buf: seq<byte>): (r: seq<byte>)
    ensures |r| == if off + |buf| > |c| then off + |buf| else |c|
    ensures forall j :: 0 <= j < |r| ==>
                          r[j] == if off <= j < off + |buf| then buf[j - off]
                                  else if j < |c| then c[j] else 0
  {
    var base := if |c| < off then c + Zeros(off - |c|) else c;
    base[..off] + buf + (if off + |buf| < |c| then c[off + |buf|..] else [])
  }

  ghost function Write(fs: FS, id: int, buf: seq<byte>, off: nat): (FS, int) {
    if id !in fs.nodes then (fs, -ENOENT)
    else if !fs.nodes[id].body.File? then (fs, -EISDIR)
    else
      var n := fs.nodes[id];
      var end := off + |buf|;
      if end <= n.body.capacity then
        (SetContent(fs, id, Overlay(n.body.content, off, buf), n.body.capacity, fs.used), |buf|)
      else if fs.used + Align16(Align256(end)) > ARENA_SIZE then (fs, -ENOSPC)
      else
        (SetContent(fs, id, Overlay(n.body.content, off, buf), Align256(end),
                    fs.used + Align16(Align256(end))), |buf|)
  }

  ghost function SetContent(fs: FS, id: int, content: seq<byte>, capacity: nat, used: nat): FS
    requires id in fs.nodes
  {
    FS(fs.nodes[id := fs.nodes[id].(body := File(content, capacity))], used)
  }

  /** Every outcome of a write, with its code and what it takes from the arena. */
  lemma WriteOutcome(fs: FS, id: int, buf: seq<byte>, off: nat)
    requires id in fs.nodes && fs.nodes[id].body.File? ==> off + |buf| <= 0xFFFF_FF00
    ensures var (fs', r) := Write(fs, id, buf, off);
            if id !in fs.nodes then fs' == fs && r == -2
            else if !fs.nodes[id].body.File? then fs' == fs && r == -21
            else
              var File(content, capacity) := fs.nodes[id].body;
              var blocks := (off + |buf| + 255) / 256;
              if off + |buf| > capacity && fs.used + 256 * blocks > 0x10_0000 then fs' == fs && r == -28
              else
                && r == |buf| && fs'.nodes.Keys == fs.nodes.Keys
                && fs'.used == fs.used + (if off + |buf| > capacity then 256 * blocks else 0)
                && fs'.nodes[id].body.File?
                && fs'.nodes[id].body.capacity == (if off + |buf| > capacity then 256 * blocks else capacity)
                && fs'.nodes[id].parent == fs.nodes[id].parent && fs'.nodes[id].name == fs.nodes[id].name
                && fs'.nodes[id].mode == fs.nodes[id].mode
  {
    hide Overlay;
    if id in fs.nodes && fs.nodes[id].body.File? {
      AlignRoundsUp(off + |buf|);
      var x := off + |buf|;
      assert Align256(x) == 256 * ((x + 255) / 256);
    }
  }

  /** Every outcome of a read: the bytes from the offset up to the count or the end. */
  lemma ReadOutcome(fs: FS, id: int, count: nat, off: nat)
    ensures var r := Read(fs, id, count, off);
            if id !in fs.nodes then r == Error(-2)
            else if !fs.nodes[id].body.File? then r == Error(-21)
            else
              var content := fs.nodes[id].body.content;
              && r.Data? && (off >= |content| ==> r.bytes == [])
              && (off < |content| ==> |r.bytes| == if count < |content| - off then count else |content| - off)
              && forall i :: 0 <= i < |r.bytes| ==> r.bytes[i] == content[off + i]
  {
  }

  lemma WriteRefused(fs: FS, id: int, buf: seq<byte>, off: nat)
    ensures id !in fs.nodes ==> Write(fs, id, buf, off) == (fs, -ENOENT)
    ensures id in fs.nodes && !fs.nodes[id].body.File? ==> Write(fs, id, buf, off) == (fs, -EISDIR)
  {
  }

  lemma WriteFails(fs: FS, id: int, buf: seq<byte>, off: nat)
    requires id in fs.nodes && fs.nodes[id].body.File? && fs.nodes[id].body.capacity < off + |buf| <= 0xFFFF_FF00
    requires fs.used + Align256(off + |buf|) > ARENA_SIZE
    ensures Write(fs, id, buf, off) == (fs, -ENOSPC)
  {
    AlignRoundsUp(off + |buf|);
  }

  /** A write is an optional move to a larger extent followed by a write that fits. */
  lemma WriteAfterMove(fs: FS, mid: FS, id: int, buf: seq<byte>, off: nat)
    requires id in fs.nodes && fs.nodes[id].body.File? && off + |buf| <= 0xFFFF_FF00
    requires var File(c, cap) := fs.nodes[id].body;
             var need := Align256(off + |buf|);
             if off + |buf| <= cap then mid == fs
             else fs.used + need <= ARENA_SIZE && mid == SetContent(fs, id, c, need, fs.used + need)
    ensures id in mid.nodes && mid.nodes[id].body.File? && off + |buf| <= mid.nodes[id].body.capacity
    ensures var File(c, cap) := mid.nodes[id].body;
            Write(fs, id, buf, off) == (SetContent(mid, id, Overlay(c, off, buf), cap, mid.used), |buf|)
  {
    AlignRoundsUp(off + |buf|);
    var File(c, cap) := mid.nodes[id].body;
    assert mid.nodes[id := fs.nodes[id].(body := File(Overlay(c, off, buf), cap))]
        == fs.nodes[id := fs.nodes[id].(body := File(Overlay(c, off, buf), cap))];
  }

  /** What a read delivers: the bytes, or an error. */
  datatype ReadResult = Data(bytes: seq<byte>) | Error(code: int)

  ghost function Read(fs: FS, id: int, count: nat, off: nat): ReadResult {
    if id !in fs.nodes then Error(-ENOENT)
    else if !fs.nodes[id].body.File? then Error(-EISDIR)
    else Data(Slice(fs.nodes[id].body.content, off, count))
  }

  function Slice(c: seq<byte>, off: nat, count: nat): seq<byte> {
    if off >= |c| then [] else c[off..Min(off + count, |c|)]
  }

  lemma WriteKeepsWf(fs: FS, id: int, buf: seq<byte>, off: nat)
    requires Wf(fs)
    ensures Wf(Write(fs, id, buf, off).0)
  {
    var fs' := Write(fs, id, buf, off).0;
    if fs' != fs {
      SameShapeWf(fs, fs');
    }
  }

  /** Same nodes, parents, names and kinds. */
  ghost predicate SameShape(fs: FS, fs': FS) {
    && fs'.nodes.Keys == fs.nodes.Keys
    && forall i :: i in fs.nodes ==>
                     && fs'.nodes[i].parent == fs.nodes[i].parent && fs'.nodes[i].name == fs.nodes[i].name
                     && (fs'.nodes[i].body == Dir <==> fs.nodes[i].body == Dir)
  }

  lemma SameShapeWf(fs: FS, fs': FS)
    requires Wf(fs) && SameShape(fs, fs')
    ensures Wf(fs')
  {
    forall i | i in fs'.nodes && i != 0 ensures Hung(fs', i) {
      assert Hung(fs, i);
    }
    forall i | i in fs'.nodes ensures Rooted(fs', i) {
      var k: nat :| Climb(fs, i, k) == 0;
      ClimbAgrees(fs, fs', i, k);
    }
    assert forall q, name, i :: IsChild(fs', q, name, i) ==> IsChild(fs, q, name, i);
  }

  /** Walks see only the shape. */
  lemma {:induction false} SameShapeWalks(fs: FS, fs': FS, cur: int, ts: seq<Str>)
    requires Wf(fs) && Wf(fs') && SameShape(fs, fs')
    requires forall i :: 0 <= i < |ts| ==> NoSlash(ts[i])
    ensures Walk(fs', cur, ts) == Walk(fs, cur, ts)
    decreases |ts|
  {
    if ts != [] {
      assert forall i :: IsChild(fs', cur, ts[0], i) <==> IsChild(fs, cur, ts[0], i);
      SameShapeWalks(fs, fs', Step(fs, cur, ts[0]), ts[1..]);
    }
  }

  /** Reading after a successful write: inside the written range the new bytes, between the
      old end and the write zeros, elsewhere what was there; and any other node, file or not,
      is untouched. A refused write changes nothing at all. */
  lemma WriteThenRead(fs: FS, id: int, buf: seq<byte>, off: nat, other: int, j: nat)
    ensures var (fs', r) := Write(fs, id, buf, off);
            if r < 0 then fs' == fs
            else
              && r == |buf| && id in fs.nodes && fs.nodes[id].body.File?
              && (other != id ==> (other in fs'.nodes <==> other in fs.nodes))
              && (other != id && other in fs.nodes ==> fs'.nodes[other] == fs.nodes[other])
              && Read(fs', id, |buf|, off) == Data(buf)
              && var was := fs.nodes[id].body.content;
                 Read(fs', id, 1, j)
                 == (if off <= j < off + |buf| then Data([buf[j - off]])
                     else if j < |was| then Data([was[j]])
                     else if j < off then Data([0])
                     else Data([]))
  {
    hide Overlay, Slice, Align256, Align16;
    if id in fs.nodes && fs.nodes[id].body.File? {
      OverlaySlices(fs.nodes[id].body.content, off, buf, j);
    }
  }

  /** Writing twice at one offset leaves the second write's bytes; the first survives only where
      it was longer. */
  lemma SecondWriteWins(fs: FS, id: int, off: nat, first: seq<byte>, second: seq<byte>)
    requires Write(fs, id, first, off).1 >= 0
    requires Write(Write(fs, id, first, off).0, id, second, off).1 >= 0
    ensures id in fs.nodes && fs.nodes[id].body.File?
    ensures var fs' := Write(Write(fs, id, first, off).0, id, second, off).0;
            && id in fs'.nodes && fs'.nodes[id].body.File?
            && fs'.nodes[id].body.content
               == Overlay(fs.nodes[id].body.content, off,
                          second + (if |second| < |first| then first[|second|..] else []))
  {
    hide Overlay, Align256, Align16;
    if id in fs.nodes && fs.nodes[id].body.File? {
      SecondOverlayWins(fs.nodes[id].body.content, off, first, second);
    }
  }

  lemma SecondOverlayWins(c: seq<byte>, off: nat, first: seq<byte>, second: seq<byte>)
    ensures Overlay(Overlay(c, off, first), off, second)
            == Overlay(c, off, second + (if |second| < |first| then first[|second|..] else []))
  {
    var x := Overlay(Overlay(c, off, first), off, second);
    var y := Overlay(c, off, second + (if |second| < |first| then first[|second|..] else []));
    assert |x| == |y| && forall j :: 0 <= j < |x| ==> x[j] == y[j];
  }

  lemma OverlaySlices(c: seq<byte>, off: nat, buf: seq<byte>, j: nat)
    ensures Slice(Overlay(c, off, buf), off, |buf|) == buf
    ensures Slice(Overlay(c, off, buf), j, 1)
            == (if off <= j < off + |buf| then [buf[j - off]]
                else if j < |c| then [c[j]] else if j < off then [0] else [])
  {
    var o := Overlay(c, off, buf);
    if j < |o| {
      assert Slice(o, j, 1) == [o[j]];
    }
  }

  // ---------------------------------------------------------------------------------------
  // Runs
  // ---------------------------------------------------------------------------------------

  datatype Op =
    | CreateOp(path: Str, body: Body, mode: int)
    | RemoveOp(path: Str, wantDir: bool)
    | WriteOp(id: int, buf: seq<byte>, off: nat)

  /** What tmpfs demands of its callers: leaves that fit their buffer, sizes the rounding mask. */
  ghost predicate Acceptable(fs: FS, op: Op) {
    match op
    case CreateOp(path, _, _) => LeafFits(fs, path)
    case RemoveOp(_, _) => true
    case WriteOp(id, buf, off) => id in fs.nodes && fs.nodes[id].body.File? ==> off + |buf| <= 0xFFFF_FF00
  }

  ghost function Do(fs: FS, op: Op): FS {
    match op
    case CreateOp(path, body, mode) => Create(fs, path, body, mode).0
    case RemoveOp(path, wantDir) => Remove(fs, path, wantDir).0
    case WriteOp(id, buf, off) => Write(fs, id, buf, off).0
  }

  ghost function After(fs: FS, ops: seq<Op>): FS {
    if ops == [] then fs else Do(After(fs, DropLast(ops)), Last(ops))
  }

  /** From boot on, whatever operations run, the table is a tree of properly named nodes. */
  lemma {:induction false} RunsKeepTree(fs: FS, ops: seq<Op>)
    requires Wf(fs) && forall i :: 0 <= i < |ops| ==> Acceptable(After(fs, ops[..i]), ops[i])
    ensures Wf(After(fs, ops))
  {
    hide Wf, Create, Remove, Write, LeafFits;
    if ops != [] {
      var rest := DropLast(ops);
      assert forall i :: 0 <= i < |rest| ==> rest[..i] == ops[..i] && rest[i] == ops[i];
      RunsKeepTree(fs, rest);
      var before := After(fs, rest);
      assert ops[..|ops| - 1] == rest;
      assert Acceptable(before, Last(ops));
      match Last(ops) {
        case CreateOp(path, body, mode) =>
          CreateCases(before, path, body, mode);
          var (after, id) := Create(before, path, body, mode);
          if after != before {
            AddsKeepsWf(before, path, body, mode, after, Resolve(before, ParentOf(path)), id);
          }
        case RemoveOp(path, wantDir) =>
          RemoveCases(before, path, wantDir);
          if Remove(before, path, wantDir).1 == 0 {
            DropsKeepsWf(before, Remove(before, path, wantDir).0, Resolve(before, path));
          }
        case WriteOp(id, buf, off) =>
          WriteKeepsWf(before, id, buf, off);
      }
    }
  }
}
