/** The file system as a map from paths, given as lists of names, to what is found there. */
module PathMap {
  import opened Bytes
  import opened Errno
  import opened Paths
  import opened FileSystem

  datatype Seen = Missing | ADir | AFile(content: seq<byte>) | ADev(device: int)

  function Shown(b: Body): Seen {
    match b
    case Dir => ADir
    case File(c, _) => AFile(c)
    case Dev(d) => ADev(d)
  }

  ghost function See(fs: FS, ts: seq<Str>): Seen {
    var w := Walk(fs, 0, ts);
    if w in fs.nodes then Shown(fs.nodes[w].body) else Missing
  }

  /** The permissions of what is found there. */
  ghost function ModeAt(fs: FS, ts: seq<Str>): int {
    var w := Walk(fs, 0, ts);
    if w in fs.nodes then fs.nodes[w].mode else -1
  }

  /** The absolute path string of a list of names. */
  function AbsPath(ts: seq<Str>): (p: Str)
    ensures ts != [] ==> p != [] && p[0] == SLASH
  {
    Joined(SLASH, ts)
  }

  lemma {:induction false} AbsPathForm(ts: seq<Str>)
    requires Plain(ts)
    ensures NoDoubleSlash(AbsPath(ts)) && Tokens(AbsPath(ts)) == ts
    ensures ts != [] ==> Last(AbsPath(ts)) != SLASH
  {
    if ts != [] {
      var r, t := DropLast(ts), Last(ts);
      AbsPathForm(r);
      TokensSnoc(AbsPath(r), SLASH);
      TokensConcat(AbsPath(r) + [SLASH], t);
      TokensOfName(t);
      assert ts == r + [t];
      JoinedNoDouble(AbsPath(r), t);
    }
  }

  lemma {:induction false} AbsPathLength(ts: seq<Str>)
    requires Plain(ts)
    ensures |AbsPath(ts)| <= NAME_MAX * |ts|
  {
    if ts != [] {
      assert GoodName(Last(ts));
      AbsPathLength(DropLast(ts));
    }
  }

  lemma JoinedNoDouble(p: Str, t: Str)
    requires NoDoubleSlash(p) && (p != [] ==> Last(p) != SLASH) && NoSlash(t)
    ensures NoDoubleSlash(p + [SLASH] + t)
  {
    var q := p + [SLASH] + t;
    forall i | 0 < i < |q| ensures q[i] != SLASH || q[i - 1] != SLASH {
      if i > |p| { assert q[i] == t[i - |p| - 1]; }
    }
  }

  lemma AbsPathSplits(ts: seq<Str>)
    requires Plain(ts) && ts != []
    ensures LeafOf(AbsPath(ts)) == Last(ts) && Tokens(ParentOf(AbsPath(ts))) == DropLast(ts)
    ensures ParentOf(AbsPath(ts)) != [] && ParentOf(AbsPath(ts))[0] == SLASH && |AbsPath(ts)| >= 2
  {
    hide Tokens, TrimEnd;
    var r, t, path := DropLast(ts), Last(ts), AbsPath(ts);
    var k := |AbsPath(r)| + 1;
    AbsPathForm(r);
    AbsPathForm(ts);
    assert path[..k] == AbsPath(r) + [SLASH] && path[k..] == t;
    LeafStartsAt(path, k);
    TokensSnoc(AbsPath(r), SLASH);
  }

  lemma LeafStartsAt(path: Str, k: nat)
    requires 0 < k < |path| && path[k - 1] == SLASH && NoSlash(path[k..]) && Last(path) != SLASH
    ensures LeafStart(path) == k
  {
    hide BackRun;
    assert TrimEnd(path) == |path| && path[..|path|] == path;
    BackRunAt(path, k);
  }

  lemma {:induction false} BackRunAt(p: Str, k: nat)
    requires 0 < k <= |p| && p[k - 1] == SLASH && NoSlash(p[k..])
    ensures BackRun(p) == k
    decreases |p|
  {
    if k < |p| {
      assert Last(p) == p[k..][|p| - 1 - k];
      assert DropLast(p)[k..] == DropLast(p[k..]);
      BackRunAt(DropLast(p), k);
    }
  }

  /** Dots in path strings: after the path of something found, "/.." is its directory, "/." it
      itself; "/.." alone is the root. */
  lemma DotPaths(fs: FS, ts: seq<Str>)
    requires Wf(fs) && Plain(ts) && ts != []
    ensures Resolve(fs, AbsPath(ts)) in fs.nodes ==>
              Resolve(fs, AbsPath(ts) + [47, 46, 46])
              == if |ts| == 1 then 0 else Resolve(fs, AbsPath(DropLast(ts)))
    ensures Resolve(fs, AbsPath(ts) + [47, 46]) == Resolve(fs, AbsPath(ts))
    ensures Resolve(fs, [47, 46, 46]) == 0
  {
    hide AbsPath, Tokens, Walk;
    AbsPathForm(ts);
    AbsPathForm(DropLast(ts));
    DotTokens([], [46, 46]);
    DotTokens(AbsPath(ts), [46, 46]);
    DotTokens(AbsPath(ts), [46]);
    NoTokens();
    assert [] + [[46, 46]] == [[46, 46]] && [] + [47, 46, 46] == [47, 46, 46];
    DotDotGoesUp(fs, ts);
    DotStays(fs, ts, []);
    WalkNowhere(fs);
    if |ts| == 1 {
      assert DropLast(ts) == [];
    }
  }

  lemma DotTokens(p: Str, t: Str)
    requires t == [46] || t == [46, 46]
    ensures Tokens(p + [47] + t) == Tokens(p) + [t]
    ensures p + [47] + t == p + if t == [46] then [47, 46] else [47, 46, 46]
  {
    hide Tokens;
    TokensSnoc(p, 47);
    TokensConcat(p + [47], t);
    TokensOfName(t);
  }

  lemma NoTokens()
    ensures Tokens([]) == []
  {
  }

  lemma WalkNowhere(fs: FS)
    ensures Walk(fs, 0, []) == 0
  {
  }

  /** While fewer than 256 nodes are live, creation finds a free one. */
  lemma RoomLeft(fs: FS)
    requires |fs.nodes| < MAX_NODES
    ensures FreeFrom(fs, 0) >= 0
  {
    if FreeFrom(fs, 0) < 0 {
      SubsetCard(Below(MAX_NODES), fs.nodes.Keys);
    }
  }

  /** Two plain paths to one node are the same path. */
  lemma SamePath(fs: FS, a: seq<Str>, b: seq<Str>)
    requires Wf(fs) && Plain(a) && Plain(b) && Walk(fs, 0, a) >= 0 && Walk(fs, 0, a) == Walk(fs, 0, b)
    ensures a == b
  {
    var i := Walk(fs, 0, a);
    WalkLands(fs, 0, a);
    WalkNames(fs, 0, a);
    assert Rooted(fs, i);
    var k: nat :| Climb(fs, i, k) == 0;
    PathIsUnique(fs, i, k, a);
    PathIsUnique(fs, i, k, b);
  }

  /** What it takes for a create to add something at a list of names. */
  ghost predicate Creatable(fs: FS, path: seq<Str>) {
    Wf(fs) && Plain(path) && path != [] && See(fs, path) == Missing && See(fs, DropLast(path)) == ADir
    && |fs.nodes| < MAX_NODES
  }

  lemma CreatableAdds(fs: FS, path: seq<Str>, body: Body, mode: int)
    requires Creatable(fs, path)
    ensures var (fs', id) := Create(fs, AbsPath(path), body, mode);
            Adds(fs, AbsPath(path), body, mode, fs', Walk(fs, 0, DropLast(path)), id)
            && LeafOf(AbsPath(path)) == Last(path) && |fs'.nodes| == |fs.nodes| + 1
  {
    hide Adds, Wf, Tokens, AbsPath, LeafOf, ParentOf, Walk;
    AbsPathForm(path);
    AbsPathSplits(path);
    WalkFromRoot(fs, path);
    WalkFromRoot(fs, DropLast(path));
    RoomLeft(fs);
    CreateCases(fs, AbsPath(path), body, mode);
    AddGrows(fs, Walk(fs, 0, DropLast(path)), LeafOf(AbsPath(path)), body, mode);
  }

  lemma AddGrows(fs: FS, p: int, leaf: Str, body: Body, mode: int)
    requires |fs.nodes| < MAX_NODES
    ensures var (fs', id) := AddChild(fs, p, leaf, body, mode);
            id >= 0 && |fs'.nodes| == |fs.nodes| + 1 && fs' != fs
  {
    RoomLeft(fs);
  }

  /** Only the given list of names leads to a node created there. */
  lemma CreatedWhere(fs: FS, path: seq<Str>, body: Body, mode: int, fs': FS, id: int, ts: seq<Str>)
    requires Creatable(fs, path) && Plain(ts) && LeafOf(AbsPath(path)) == Last(path)
    requires Adds(fs, AbsPath(path), body, mode, fs', Walk(fs, 0, DropLast(path)), id)
    ensures Walk(fs', 0, ts) == if ts == path then id else Walk(fs, 0, ts)
  {
    hide Wf, Adds;
    var p := Walk(fs, 0, DropLast(path));
    CreatePathMap(fs, AbsPath(path), body, mode, fs', p, id, ts);
    WalkFromRoot(fs, DropLast(path));
    if ts != [] && Walk(fs, 0, DropLast(ts)) == p && Last(ts) == Last(path) {
      SamePath(fs, DropLast(ts), DropLast(path));
      assert ts == DropLast(ts) + [Last(ts)] && path == DropLast(path) + [Last(path)];
    }
  }

  /** Creating at a list of names updates the path map there and nowhere else. */
  lemma CreateShows(fs: FS, path: seq<Str>, body: Body, mode: int, ts: seq<Str>)
    requires Creatable(fs, path) && Plain(ts)
    ensures var (fs', id) := Create(fs, AbsPath(path), body, mode);
            && Wf(fs') && id in fs'.nodes && fs'.nodes[id].body == body && fs'.nodes[id].mode == mode
            && fs'.used == fs.used
            && |fs'.nodes| == |fs.nodes| + 1
            && (Walk(fs', 0, ts) == id <==> ts == path)
            && See(fs', ts) == if ts == path then Shown(body) else See(fs, ts)
  {
    hide Wf, Create;
    var (fs', id) := Create(fs, AbsPath(path), body, mode);
    CreatableAdds(fs, path, body, mode);
    AddsKeepsWf(fs, AbsPath(path), body, mode, fs', Walk(fs, 0, DropLast(path)), id);
    CreatedWhere(fs, path, body, mode, fs', id, ts);
    WalkFromRoot(fs, ts);
  }

  lemma WalkFromRoot(fs: FS, ts: seq<Str>)
    requires Wf(fs)
    ensures var w := Walk(fs, 0, ts); if w in fs.nodes then 0 <= w < MAX_NODES else w == -ENOENT
  {
    WalkLands(fs, 0, ts);
  }

  /** Writing to a node changes what is seen on the paths that lead to it and nowhere else. */
  lemma WriteShows(fs: FS, id: int, buf: seq<byte>, off: nat, ts: seq<Str>)
    requires Wf(fs) && Plain(ts) && id in fs.nodes && fs.nodes[id].body.File? && Write(fs, id, buf, off).1 >= 0
    ensures var fs' := Write(fs, id, buf, off).0;
            && Wf(fs') && |fs'.nodes| == |fs.nodes| && Walk(fs', 0, ts) == Walk(fs, 0, ts)
            && ModeAt(fs', ts) == ModeAt(fs, ts)
            && See(fs', ts)
               == if Walk(fs, 0, ts) == id then AFile(Overlay(fs.nodes[id].body.content, off, buf)) else See(fs, ts)
  {
    hide Wf, Overlay;
    var fs' := Write(fs, id, buf, off).0;
    WriteKeepsWf(fs, id, buf, off);
    assert fs'.nodes.Keys == fs.nodes.Keys;
    SameShapeWalks(fs, fs', 0, ts);
  }
}
