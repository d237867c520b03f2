/** Mounting an archive onto tmpfs, and the round trip from a packed tree to the mounted one. */
module Initramfs {
  import opened Bytes
  import opened Errno
  import opened Paths
  import opened FileSystem
  import opened PathMap
  import opened NodeTable
  import opened TmpfsModule
  import Cpio

  type Raw = Cpio.Raw

  /** `(mode & 0170000) == 0040000`. */
  predicate IsDirMode(mode: nat) {
    mode / 0x1000 % 16 == 4
  }

  lemma DirBits(mode: nat)
    ensures IsDirMode(mode) <==> 0x4000 <= mode % 0x1_0000 < 0x5000
  {
  }

  /** What the loader does with one archive entry; failures are ignored. */
  ghost function Apply(fs: FS, cwd: Str, raw: Raw): FS
    requires cwd != []
  {
    var path := Normalized(cwd, raw.name);
    if IsDirMode(raw.mode) then Create(fs, path, Dir, raw.mode).0
    else
      var (made, id) := Create(fs, path, File([], 0), raw.mode);
      if id >= 0 && raw.data != [] then Write(made, id, raw.data, 0).0 else made
  }

  ghost function ApplyAll(fs: FS, cwd: Str, raws: seq<Raw>): FS
    requires cwd != []
  {
    if raws == [] then fs else Apply(ApplyAll(fs, cwd, DropLast(raws)), cwd, Last(raws))
  }

  /** Every name the loader will create fits the 32-byte leaf buffer. */
  predicate LeavesFit(cwd: Str, raws: seq<Raw>)
    requires cwd != []
  {
    forall i :: 0 <= i < |raws| ==> |LeafOf(Normalized(cwd, raws[i].name))| < NAME_MAX
  }

  method CStringAt(s: Str, start: nat) returns (name: Str)
    ensures name == CString(s, start)
  {
    name := [];
    var at := start;
    while at < |s| && s[at] != 0
      invariant start <= at && name + CString(s, at) == CString(s, start)
    {
      assert name + ([s[at]] + CString(s, at + 1)) == (name + [s[at]]) + CString(s, at + 1);
      name := name + [s[at]];
      at := at + 1;
    }
    assert name + [] == name;
  }

  method FieldAt(s: Str, at: nat) returns (v: nat)
    requires at + 8 <= |s|
    ensures v == Cpio.Field(s, at)
  {
    var r := Cpio.ParseHex(s[at..at + 8]);
    v := if r.Some? then r.value else 0;
  }

  /** Read the entry at the front of `s`. */
  method NextEntry(s: Str) returns (r: Cpio.Reading)
    requires |s| <= 0xFFFF_FFF0
    ensures r == Cpio.ReadEntry(s)
  {
    if |s| < 110 {
      return Cpio.Stop(0);
    }
    if s[..6] != Cpio.MAGIC {
      return Cpio.Stop(-EINVAL);
    }
    var mode := FieldAt(s, 14);
    var size := FieldAt(s, 54);
    var nameSize := FieldAt(s, 94);
    var name := CStringAt(s, 110);
    if nameSize == 0 || 110 + nameSize > |s| {
      return Cpio.Stop(-EINVAL);
    }
    if name == Cpio.TRAILER {
      return Cpio.Stop(0);
    }
    var at := Cpio.Align4U(110 + nameSize);
    if name == Cpio.SELF {
      return Cpio.Skip(at + Cpio.Align4U(size));
    }
    if at + size > |s| {
      return Cpio.Stop(-EINVAL);
    }
    return Cpio.Item(Cpio.Raw(name, mode, s[at..at + size]), at + Cpio.Align4U(size));
  }

  method ApplyEntry(t: Tmpfs, cwd: Str, raw: Raw)
    requires t.Valid() && CwdForm(cwd) && |LeafOf(Normalized(cwd, raw.name))| < NAME_MAX && |raw.data| <= 0xFFFF_FF00
    modifies t, t.nodes, t.arena
    ensures t.Valid() && t.Fs() == Apply(old(t.Fs()), cwd, raw)
  {
    hide Wf, Linked, Stored, Create, Write;
    var path := NormalizePath(raw.name, cwd);
    NormalizedForm(cwd, raw.name, cwd);
    if IsDirMode(raw.mode) {
      var _ := t.CreatePath(path, DIR, raw.mode);
    } else {
      var id := t.CreatePath(path, FILE, raw.mode);
      if id >= 0 && raw.data != [] {
        var _ := t.WriteNode(id, raw.data, 0);
      }
    }
  }

  /** The kernel's loader: parse and apply entry by entry. */
  method MountInitramfs(t: Tmpfs, cwd: Str, archive: Str) returns (r: int)
    requires t.Valid() && CwdForm(cwd) && |archive| <= 0xFFFF_FF00
    requires LeavesFit(cwd, Cpio.Parse(archive).0)
    modifies t, t.nodes, t.arena
    ensures t.Valid()
    ensures (t.Fs(), r) == (ApplyAll(old(t.Fs()), cwd, Cpio.Parse(archive).0), Cpio.Parse(archive).1)
  {
    hide Wf, Linked, Stored, View, Apply, Normalized, LeafOf, Cpio.ReadEntry, Cpio.Parse;
    ghost var fs, raws, code := t.Fs(), Cpio.Parse(archive).0, Cpio.Parse(archive).1;
    ghost var done: seq<Raw> := [];
    var rest := archive;
    while true
      invariant t.Valid() && |rest| <= |archive|
      invariant t.Fs() == ApplyAll(fs, cwd, done)
      invariant raws == done + Cpio.Parse(rest).0 && code == Cpio.Parse(rest).1
      decreases |rest|
    {
      var entry := NextEntry(rest);
      ParseStep(rest);
      match entry
      case Stop(c) =>
        assert done + [] == done;
        return c;
      case Skip(next) =>
        rest := Cpio.Drop(rest, next);
      case Item(raw, next) =>
        assert raws == (done + [raw]) + Cpio.Parse(Cpio.Drop(rest, next)).0;
        assert raws[|done|] == raw;
        ApplyEntry(t, cwd, raw);
        assert DropLast(done + [raw]) == done;
        done := done + [raw];
        rest := Cpio.Drop(rest, next);
    }
  }

  lemma ParseStep(s: Str)
    requires |s| <= 0xFFFF_FFF0
    ensures var r := Cpio.ReadEntry(s);
            && (r.Stop? ==> Cpio.Parse(s) == ([], r.code))
            && (r.Skip? ==> Cpio.Parse(s) == Cpio.Parse(Cpio.Drop(s, r.next)))
            && (r.Item? ==> var rest := Cpio.Parse(Cpio.Drop(s, r.next)); Cpio.Parse(s) == ([r.raw] + rest.0, rest.1))
  {
    hide Cpio.ReadEntry;
  }

  // ---------------------------------------------------------------------------------------
  // The tree to pack
  // ---------------------------------------------------------------------------------------

  /** A directory or file below the packed root, with its path as a list of names. */
  datatype Item = Item(path: seq<Cpio.Name>, isDir: bool, data: seq<byte>)

  /** The path in bytes, as the kernel sees it. */
  function Names(item: Item): seq<Str> {
    Encoded(item.path)
  }

  function Encoded(path: seq<Cpio.Name>): (ts: seq<Str>)
    ensures |ts| == |path| && forall i :: 0 <= i < |path| ==> ts[i] == Cpio.Utf8(path[i])
  {
    seq(|path|, i requires 0 <= i < |path| => Cpio.Utf8(path[i]))
  }

  function Look(item: Item): Seen {
    if item.isDir then ADir else AFile(item.data)
  }

  /** A slash before every name. */
  function Slashed(path: seq<Cpio.Name>): (p: Cpio.Name)
    ensures path != [] ==> p != [] && p[0] == SLASH
  {
    Joined<Cpio.Code>(SLASH, path)
  }

  /** `path.relative_to(root).as_posix()`. */
  function EntryOf(item: Item): Cpio.Entry {
    Cpio.Entry(if item.path == [] then [] else Slashed(item.path)[1..], item.isDir, item.data)
  }

  /** A path and contents within the limits of the kernel's buffers and arena. */
  predicate Proper(item: Item) {
    && item.path != [] && Plain(Names(item)) && |AbsPath(Names(item))| < PATH_MAX
    && NoNul(AbsPath(Names(item))) && |item.data| <= ARENA_SIZE
  }

  predicate AsciiPath(path: seq<Cpio.Name>) {
    forall i :: 0 <= i < |path| ==> Cpio.Ascii(path[i])
  }

  /** ... and a name that survives the archive. */
  predicate Named(item: Item) {
    Proper(item) && AsciiPath(item.path) && item.path != [Cpio.TRAILER]
  }

  /** Encoding and joining commute. */
  lemma {:induction false} SlashedBytes(path: seq<Cpio.Name>)
    ensures Cpio.Utf8(Slashed(path)) == AbsPath(Encoded(path))
    ensures path != [] ==> Cpio.Excess(Slashed(path)) == Cpio.Excess(Slashed(DropLast(path))) + Cpio.Excess(Last(path))
  {
    hide Cpio.EncodeChar;
    if path != [] {
      var r, t := DropLast(path), Last(path);
      SlashedBytes(r);
      Cpio.Utf8Concat(Slashed(r) + [SLASH], t);
      Cpio.Utf8Concat(Slashed(r), [SLASH]);
      OneSlash();
      assert DropLast(Encoded(path)) == Encoded(r);
    }
  }

  lemma OneSlash()
    ensures Cpio.Utf8([SLASH]) == [SLASH]
  {
    assert Cpio.Utf8([SLASH][1..]) == [];
  }

  lemma {:induction false} SlashedExcess(path: seq<Cpio.Name>)
    ensures AsciiPath(path) <==> Cpio.Excess(Slashed(path)) == 0
  {
    hide Cpio.Ascii, Cpio.Utf8, Cpio.Excess;
    if path != [] {
      SlashedExcess(DropLast(path));
      SlashedBytes(path);
      Cpio.AsciiBytes(Last(path));
      assert forall i :: 0 <= i < |path| - 1 ==> DropLast(path)[i] == path[i];
    } else {
      EmptyExcess();
    }
  }

  lemma EmptyExcess()
    ensures Cpio.Excess([]) == 0
  {
  }

  /** The name written for an item, in bytes and in characters. */
  lemma EntryName(item: Item)
    requires item.path != []
    ensures var name := EntryOf(item).name;
            && Cpio.Utf8(name) == AbsPath(Names(item))[1..]
            && (Cpio.Ascii(name) <==> AsciiPath(item.path))
            && Cpio.Excess(name) == Cpio.Excess(Slashed(item.path))
  {
    hide Cpio.EncodeChar, AbsPath, Slashed, Cpio.Ascii;
    var p := Slashed(item.path);
    SlashedBytes(item.path);
    SlashedExcess(item.path);
    Cpio.AsciiBytes(p[1..]);
    FirstSlash(p);
  }

  lemma FirstSlash(p: Cpio.Name)
    requires p != [] && p[0] == SLASH
    ensures Cpio.Utf8(p) == [SLASH] + Cpio.Utf8(p[1..])
  {
    assert Cpio.EncodeChar(SLASH) == [SLASH];
  }

  function EntriesOf(items: seq<Item>): seq<Cpio.Entry> {
    seq(|items|, i requires 0 <= i < |items| => EntryOf(items[i]))
  }

  /** What is seen at `ts` once `items` have been laid over `fs`. */
  ghost function Overlaid(fs: FS, items: seq<Item>, ts: seq<Str>): Seen {
    if items == [] then See(fs, ts)
    else if Names(Last(items)) == ts then Look(Last(items))
    else Overlaid(fs, DropLast(items), ts)
  }

  /** An item can be placed: its parent is a directory by now, and nothing is in its way but
      possibly the same directory. */
  ghost predicate Placeable(fs: FS, items: seq<Item>, k: nat)
    requires k < |items|
  {
    var item, before := items[k], items[..k];
    && Named(item)
    && Overlaid(fs, before, DropLast(Names(item))) == ADir
    && (Overlaid(fs, before, Names(item)) == Missing || (item.isDir && Overlaid(fs, before, Names(item)) == ADir))
  }

  ghost function Need(items: seq<Item>): nat {
    if items == [] then 0
    else Need(DropLast(items)) + if Last(items).isDir then 0 else Align256(|Last(items).data|)
  }

  /** Parents first, no clashes, and room for every node and byte. */
  ghost predicate Packed(fs: FS, items: seq<Item>) {
    && Wf(fs)
    && (forall k :: 0 <= k < |items| ==> Named(items[k]) && Placeable(fs, items, k))
    && |fs.nodes| + |items| <= MAX_NODES
    && fs.used + Need(items) <= ARENA_SIZE
  }

  const ROOT: Str := [SLASH]

  lemma NormalName(item: Item)
    requires Proper(item)
    ensures Normalized(ROOT, Cpio.Utf8(EntryOf(item).name)) == AbsPath(Names(item))
            && Cpio.Utf8(EntryOf(item).name) != []
    ensures LeafOf(AbsPath(Names(item))) == Last(Names(item))
    ensures NoNul(Cpio.Utf8(EntryOf(item).name)) && EntryOf(item).name != Cpio.SELF
    ensures EntryOf(item).name == Cpio.TRAILER <==> item.path == [Cpio.TRAILER]
  {
    hide Tokens, AbsPath, LeafOf, Squeeze, Cpio.Utf8, Slashed, Cpio.Ascii, Cpio.Excess, Plain, Encoded;
    var ts := Names(item);
    var name, path := Cpio.Utf8(EntryOf(item).name), AbsPath(ts);
    EntryName(item);
    AbsPathForm(ts);
    AbsPathSplits(ts);
    assert path == [SLASH] + name;
    SqueezeFixed(path);
    assert name != [] && path[1] == name[0];
    NameTokens(name);
    Cpio.SpecialNames(EntryOf(item).name);
    NotSelf(ts);
    TrailerPath(item.path);
    OneSlashed(Cpio.TRAILER);
  }

  lemma NotSelf(ts: seq<Str>)
    requires Plain(ts)
    ensures ts != [[DOT]]
  {
    assert ts != [] ==> GoodName(ts[0]) && ts[0] != [DOT];
    assert [[DOT]][0] == [DOT];
  }

  lemma TrailerPath(path: seq<Cpio.Name>)
    ensures Encoded(path) == [Cpio.TRAILER] <==> path == [Cpio.TRAILER]
  {
    hide Cpio.Utf8, Cpio.TRAILER;
    if |path| == 1 {
      Cpio.SpecialNames(path[0]);
      assert path == [path[0]] && Encoded(path) == [Encoded(path)[0]];
      assert Encoded(path) == [Cpio.TRAILER] <==> Encoded(path)[0] == Cpio.TRAILER;
      assert path == [Cpio.TRAILER] <==> path[0] == Cpio.TRAILER;
    } else {
      assert |Encoded(path)| != 1;
    }
  }

  lemma OneSlashed(t: Cpio.Name)
    ensures Slashed([t])[1..] == t
  {
    assert DropLast([t]) == [] && Last([t]) == t;
    assert Slashed([t]) == Slashed([]) + [SLASH] + t == [SLASH] + t;
  }

  /** The two names the loader treats specially are single components. */
  lemma NameTokens(name: Str)
    ensures name == Cpio.TRAILER ==> Tokens([SLASH] + name) == [Cpio.TRAILER]
    ensures name == Cpio.SELF ==> Tokens([SLASH] + name) == [[DOT]]
  {
    if name == Cpio.TRAILER || name == Cpio.SELF {
      assert NoSlash(name);
      TokensConcat([SLASH], name);
      assert Tokens([SLASH]) == Tokens([SLASH][1..]) == [];
      TokensOfName(name);
    }
  }

  ghost predicate Open(fs: FS, item: Item) {
    && Wf(fs) && Named(item) && See(fs, DropLast(Names(item))) == ADir
    && (See(fs, Names(item)) == Missing || (item.isDir && See(fs, Names(item)) == ADir))
    && |fs.nodes| < MAX_NODES && fs.used + (if item.isDir then 0 else Align256(|item.data|)) <= ARENA_SIZE
  }

  /** Loading one packed item puts exactly that item at its path. */
  lemma PlaceOne(fs: FS, item: Item, ts: seq<Str>)
    requires Open(fs, item) && Plain(ts)
    ensures var fs' := Apply(fs, ROOT, Cpio.RawOf(EntryOf(item)));
            && Wf(fs') && See(fs', ts) == (if ts == Names(item) then Look(item) else See(fs, ts))
            && (See(fs, Names(item)) == Missing ==> ModeAt(fs', Names(item)) == if item.isDir then 0x41ED else 0x81ED)
            && |fs'.nodes| <= |fs.nodes| + 1
            && fs'.used <= fs.used + (if item.isDir then 0 else Align256(|item.data|))
  {
    hide Wf, Create, Write, AbsPath, Slashed, Encoded, Normalized, LeafOf, Cpio.Utf8, Cpio.Ascii, NoNul;
    var path := Names(item);
    NormalName(item);
    if See(fs, path) == ADir {
      ExistingDir(fs, item);
    } else if item.isDir {
      CreateShows(fs, path, Dir, Cpio.DIR_MODE, ts);
      CreateShows(fs, path, Dir, Cpio.DIR_MODE, path);
    } else {
      PlaceFile(fs, item, ts);
    }
  }

  lemma ExistingDir(fs: FS, item: Item)
    requires Wf(fs) && Named(item) && See(fs, Names(item)) == ADir
    ensures Create(fs, AbsPath(Names(item)), Dir, Cpio.DIR_MODE).0 == fs
  {
    hide Wf;
    AbsPathForm(Names(item));
    WalkFromRoot(fs, Names(item));
  }

  lemma PlaceFile(fs: FS, item: Item, ts: seq<Str>)
    requires Open(fs, item) && !item.isDir && Plain(ts)
    ensures var (made, id) := Create(fs, AbsPath(Names(item)), File([], 0), Cpio.FILE_MODE);
            var fs' := if id >= 0 && item.data != [] then Write(made, id, item.data, 0).0 else made;
            && Wf(fs') && See(fs', ts) == (if ts == Names(item) then AFile(item.data) else See(fs, ts))
            && (See(fs, Names(item)) == Missing ==> ModeAt(fs', Names(item)) == Cpio.FILE_MODE)
            && |fs'.nodes| <= |fs.nodes| + 1 && fs'.used <= fs.used + Align256(|item.data|)
  {
    hide Wf, Create;
    var (made, id) := Create(fs, AbsPath(Names(item)), File([], 0), Cpio.FILE_MODE);
    CreateShows(fs, Names(item), File([], 0), Cpio.FILE_MODE, ts);
    CreateShows(fs, Names(item), File([], 0), Cpio.FILE_MODE, Names(item));
    NamedPlain(item);
    if item.data != [] {
      NewFileWrite(made, id, item.data);
      WriteShows(made, id, item.data, 0, ts);
      WriteShows(made, id, item.data, 0, Names(item));
      assert Overlay([], 0, item.data) == item.data;
      WalkFromRoot(made, ts);
      WalkFromRoot(made, Names(item));
    }
  }

  lemma NewFileWrite(fs: FS, id: int, data: seq<byte>)
    requires id in fs.nodes && fs.nodes[id].body == File([], 0) && data != [] && |data| <= ARENA_SIZE
    requires fs.used + Align256(|data|) <= ARENA_SIZE
    ensures Write(fs, id, data, 0).1 >= 0 && Write(fs, id, data, 0).0.used == fs.used + Align256(|data|)
  {
    AlignRoundsUp(|data|);
  }

  lemma {:induction false} PlaceAll(fs: FS, items: seq<Item>, k: nat, ts: seq<Str>)
    requires Packed(fs, items) && k <= |items| && Plain(ts)
    ensures var fs' := ApplyAll(fs, ROOT, Cpio.Raws(EntriesOf(items[..k])));
            && Wf(fs') && See(fs', ts) == Overlaid(fs, items[..k], ts)
            && |fs'.nodes| <= |fs.nodes| + k && fs'.used <= fs.used + Need(items[..k])
    decreases k
  {
    hide Wf, Apply, Named, Packed, Open, See, EntryOf, EntriesOf, Names, Look, Align256, Plain, Cpio.Raws, Cpio.RawOf;
    if k == 0 {
      NothingPlaced(fs, items);
    } else {
      var before, item := items[..k - 1], items[k - 1];
      assert DropLast(items[..k]) == before && Last(items[..k]) == item;
      RawsSnoc(items, k - 1);
      var mid := ApplyAll(fs, ROOT, Cpio.Raws(EntriesOf(before)));
      PackedItem(fs, items, k);
      PlaceAll(fs, items, k - 1, ts);
      PlaceAll(fs, items, k - 1, Names(item));
      PlaceAll(fs, items, k - 1, DropLast(Names(item)));
      OpensFor(fs, items, k, mid);
      PlaceOne(mid, item, ts);
    }
  }

  lemma NothingPlaced(fs: FS, items: seq<Item>)
    requires Packed(fs, items)
    ensures items[..0] == [] && Wf(fs) && Cpio.Raws(EntriesOf(items[..0])) == []
  {
  }

  lemma PackedItem(fs: FS, items: seq<Item>, k: nat)
    requires Packed(fs, items) && 0 < k <= |items|
    ensures var item := items[k - 1];
            && Names(item) != [] && Plain(Names(item)) && Plain(DropLast(Names(item)))
            && Need(items[..k]) == Need(items[..k - 1]) + (if item.isDir then 0 else Align256(|item.data|))
  {
    hide Wf, Align256, Overlaid;
    NamedPlain(items[k - 1]);
    NeedMonotone(items, k);
    NeedOne(items, k);
  }

  /** Once everything before it is placed, an item has its place. */
  lemma OpensFor(fs: FS, items: seq<Item>, k: nat, mid: FS)
    requires Packed(fs, items) && 0 < k <= |items| && Wf(mid) && Names(items[k - 1]) != []
    requires See(mid, Names(items[k - 1])) == Overlaid(fs, items[..k - 1], Names(items[k - 1]))
    requires See(mid, DropLast(Names(items[k - 1]))) == Overlaid(fs, items[..k - 1], DropLast(Names(items[k - 1])))
    requires |mid.nodes| <= |fs.nodes| + (k - 1) && mid.used <= fs.used + Need(items[..k - 1])
    ensures Open(mid, items[k - 1])
  {
    hide Wf, Named, See, Overlaid, Names, Align256;
    assert Placeable(fs, items, k - 1);
    NeedMonotone(items, k);
    NeedOne(items, k);
  }

  lemma NamedPlain(item: Item)
    requires Named(item)
    ensures Names(item) != [] && Plain(Names(item)) && Plain(DropLast(Names(item)))
  {
  }

  lemma NeedOne(items: seq<Item>, k: nat)
    requires 0 < k <= |items| && Need(items[..k]) <= ARENA_SIZE
    ensures var item := items[k - 1];
            && Need(items[..k]) == Need(items[..k - 1]) + (if item.isDir then 0 else Align256(|item.data|))
  {
    assert DropLast(items[..k]) == items[..k - 1];
  }

  lemma {:induction false} NeedMonotone(items: seq<Item>, k: nat)
    requires k <= |items|
    ensures Need(items[..k]) <= Need(items)
    decreases |items| - k
  {
    if k < |items| {
      NeedMonotone(items, k + 1);
      assert DropLast(items[..k + 1]) == items[..k];
    } else {
      assert items[..k] == items;
    }
  }

  lemma RawsSnoc(items: seq<Item>, k: nat)
    requires k < |items|
    ensures var raws := Cpio.Raws(EntriesOf(items[..k + 1]));
            && raws != [] && DropLast(raws) == Cpio.Raws(EntriesOf(items[..k]))
            && Last(raws) == Cpio.RawOf(EntryOf(items[k]))
  {
    RawsIndexed(EntriesOf(items[..k + 1]));
    RawsIndexed(EntriesOf(items[..k]));
  }

  lemma {:induction false} RawsIndexed(entries: seq<Cpio.Entry>)
    ensures |Cpio.Raws(entries)| == |entries|
    ensures forall i :: 0 <= i < |entries| ==> Cpio.Raws(entries)[i] == Cpio.RawOf(entries[i])
  {
    if entries != [] {
      RawsIndexed(entries[1..]);
    }
  }

  /** The archive round trip. Packing any list of directories and files, parents first, that
      fits the node table and the arena and clashes with nothing, and mounting the archive on
      `fs` with working directory "/", succeeds; afterwards every listed path shows its type
      and exact contents, and every other path shows what it showed before. */
  lemma MountRestoresTree(fs: FS, items: seq<Item>, ts: seq<Str>)
    requires Packed(fs, items) && Plain(ts)
    requires |Cpio.Archive(EntriesOf(items))| <= 0xFFFF_FFF0
    ensures var (raws, code) := Cpio.Parse(Cpio.Archive(EntriesOf(items)));
            && code == 0 && LeavesFit(ROOT, raws)
            && Wf(ApplyAll(fs, ROOT, raws))
            && See(ApplyAll(fs, ROOT, raws), ts) == Overlaid(fs, items, ts)
  {
    hide Wf, Named, Proper, Apply, ApplyAll, Overlaid, See, LeavesFit, Placeable, EntriesOf, Cpio.Archive, Cpio.Parse,
         Cpio.Raws, Cpio.Legible, Cpio.AllAscii, Cpio.NoTrailer, Cpio.Steady;
    assert items[..|items|] == items;
    PlaceAll(fs, items, |items|, ts);
    NamedIsProper(items);
    EntriesNamed(items);
    Cpio.AsciiSteady(EntriesOf(items));
    Cpio.ParseInvertsArchive(EntriesOf(items));
    LeavesOf(items, Cpio.Parse(Cpio.Archive(EntriesOf(items))).0);
  }

  lemma NamedIsProper(items: seq<Item>)
    requires forall i :: 0 <= i < |items| ==> Named(items[i])
    ensures forall i :: 0 <= i < |items| ==> Proper(items[i])
    ensures AsciiNames(items) && Untitled(items)
  {
    hide Proper;
  }

  predicate AsciiNames(items: seq<Item>) {
    forall i :: 0 <= i < |items| ==> AsciiPath(items[i].path)
  }

  /** Nothing is called like the trailer. */
  predicate Untitled(items: seq<Item>) {
    forall i :: 0 <= i < |items| ==> items[i].path != [Cpio.TRAILER]
  }

  lemma EntriesNamed(items: seq<Item>)
    requires forall i :: 0 <= i < |items| ==> Proper(items[i])
    ensures Cpio.Legible(EntriesOf(items))
    ensures Cpio.AllAscii(EntriesOf(items)) <==> AsciiNames(items)
    ensures Cpio.NoTrailer(EntriesOf(items)) <==> Untitled(items)
  {
    hide Cpio.Ascii, Cpio.Utf8, NoNul, AsciiPath, EntryOf, Names, Proper;
    var es := EntriesOf(items);
    forall i | 0 <= i < |items|
      ensures NoNul(Cpio.Utf8(es[i].name)) && es[i].name != Cpio.SELF
      ensures Cpio.Ascii(es[i].name) <==> AsciiPath(items[i].path)
      ensures es[i].name == Cpio.TRAILER <==> items[i].path == [Cpio.TRAILER]
    {
      EntryKind(items[i]);
    }
    assert forall i :: 0 <= i < |items| ==> (Cpio.Ascii(es[i].name) <==> AsciiPath(items[i].path));
  }

  lemma EntryKind(item: Item)
    requires Proper(item)
    ensures var name := EntryOf(item).name;
            && NoNul(Cpio.Utf8(name)) && name != Cpio.SELF
            && (Cpio.Ascii(name) <==> AsciiPath(item.path)) && (name == Cpio.TRAILER <==> item.path == [Cpio.TRAILER])
  {
    hide Cpio.Utf8, NoNul, Normalized, AbsPath, LeafOf;
    NormalName(item);
    ProperPath(item);
    EntryName(item);
  }

  lemma ProperPath(item: Item)
    requires Proper(item)
    ensures item.path != [] && |AbsPath(Names(item))| < PATH_MAX && Names(item) != [] && GoodName(Last(Names(item)))
  {
  }

  /** Whatever is read from an archive of proper items fits the leaf buffer. */
  lemma LeavesOf(items: seq<Item>, raws: seq<Raw>)
    requires forall i :: 0 <= i < |items| ==> Proper(items[i])
    requires Cpio.NamesRead(raws, EntriesOf(items))
    ensures LeavesFit(ROOT, raws)
  {
    hide Cpio.Utf8, Proper, LeafOf, Normalized, EntryOf;
    forall i | 0 <= i < |raws| ensures |LeafOf(Normalized(ROOT, raws[i].name))| < NAME_MAX {
      NormalName(items[i]);
      ProperPath(items[i]);
      assert raws[i].name == Cpio.Utf8(EntriesOf(items)[i].name);
    }
  }

  /** Each listed item is seen as itself when no path is listed twice. */
  lemma {:induction false} OverlaidShowsItem(fs: FS, items: seq<Item>, k: nat)
    requires k < |items|
    requires forall i, j :: 0 <= i < j < |items| ==> Names(items[i]) != Names(items[j])
    ensures Overlaid(fs, items, Names(items[k])) == Look(items[k])
    decreases |items|
  {
    if k < |items| - 1 {
      var r := DropLast(items);
      assert Names(r[k]) != Names(Last(items));
      OverlaidShowsItem(fs, r, k);
    }
  }
}
