/** From a source tree on the build host to the tree a booted kernel sees. */
module Startup {
  import opened Bytes
  import opened Paths
  import opened FileSystem
  import opened PathMap
  import opened VfsModule
  import opened Initramfs
  import Cpio

  /** What is seen at `ts` once `items` have been laid over a boot tree. */
  function OverTree(tree: map<seq<Str>, Seen>, items: seq<Item>, ts: seq<Str>): Seen {
    if items == [] then if ts in tree then tree[ts] else Missing
    else if Names(Last(items)) == ts then Look(Last(items))
    else OverTree(tree, DropLast(items), ts)
  }

  /** A packing list the boot tree can take: proper items, each below a directory that is there
      by then, clashing with nothing but possibly that same directory, and room for all besides
      the nine boot nodes. */
  ghost predicate Storable(items: seq<Item>) {
    && (forall k :: 0 <= k < |items| ==> Proper(items[k]) && Clear(items[..k], items[k]))
    && |items| + 9 <= MAX_NODES && Need(items) <= ARENA_SIZE
  }

  predicate Clear(before: seq<Item>, item: Item)
    requires item.path != []
  {
    && OverTree(BOOT_TREE, before, DropLast(Names(item))) == ADir
    && (OverTree(BOOT_TREE, before, Names(item)) == Missing
        || (item.isDir && OverTree(BOOT_TREE, before, Names(item)) == ADir))
  }

  lemma {:induction false} BootOverlay(items: seq<Item>, ts: seq<Str>)
    requires Plain(ts)
    ensures Overlaid(Boot(), items, ts) == OverTree(BOOT_TREE, items, ts)
  {
    hide Boot, See, Wf, Names, BOOT_TREE;
    if items == [] {
      BootLooks();
    } else {
      BootOverlay(DropLast(items), ts);
    }
  }

  lemma StorablePacks(items: seq<Item>)
    requires Storable(items) && AsciiNames(items) && Untitled(items)
    ensures Packed(Boot(), items)
  {
    hide Boot, Overlaid, OverTree, Wf, See, Proper, AsciiPath;
    BootLooks();
    forall k | 0 <= k < |items| ensures Named(items[k]) && Placeable(Boot(), items, k) {
      StorableProper(items);
      assert Clear(items[..k], items[k]);
      NamedPlain(items[k]);
      BootOverlay(items[..k], Names(items[k]));
      BootOverlay(items[..k], DropLast(Names(items[k])));
    }
  }

  // ---------------------------------------------------------------------------------------
  // How far the reader can drift
  // ---------------------------------------------------------------------------------------

  predicate LowBytes(ts: seq<Str>) {
    forall i, j :: 0 <= i < |ts| && 0 <= j < |ts[i]| ==> ts[i][j] < 0x80
  }

  lemma BootTreeIsAscii(ts: seq<Str>)
    requires ts in BOOT_TREE
    ensures LowBytes(ts)
  {
  }

  lemma LowIsAscii(path: seq<Cpio.Name>)
    ensures AsciiPath(path) <==> LowBytes(Encoded(path))
  {
    hide Cpio.Utf8, Cpio.Ascii;
    forall i | 0 <= i < |path|
      ensures Cpio.Ascii(path[i]) <==> forall j :: 0 <= j < |Encoded(path)[i]| ==> Encoded(path)[i][j] < 0x80
    {
      Cpio.AsciiBytes(path[i]);
    }
  }

  /** What shows in an ASCII tree has an ASCII path. */
  lemma {:induction false} ShownIsAscii(items: seq<Item>, ts: seq<Str>)
    requires AsciiNames(items) && OverTree(BOOT_TREE, items, ts) != Missing
    ensures LowBytes(ts)
  {
    hide LowBytes, Cpio.Ascii, AsciiPath, Encoded;
    if items == [] {
      BootTreeIsAscii(ts);
    } else if Names(Last(items)) == ts {
      LowIsAscii(Last(items).path);
    } else {
      assert forall i :: 0 <= i < |items| - 1 ==> DropLast(items)[i] == items[i];
      ShownIsAscii(DropLast(items), ts);
    }
  }

  /** While its parents are ASCII, a name exceeds its characters by less than a leaf's bytes. */
  lemma SmallExcess(items: seq<Item>, k: nat)
    requires Storable(items) && k < |items| && AsciiNames(items[..k])
    ensures Cpio.Excess(EntryOf(items[k]).name) <= 32 && |EntryOf(items[k]).name| < PATH_MAX
  {
    hide Cpio.Utf8, OverTree, Encoded, AsciiPath, LowBytes, Slashed, AbsPath, Plain, BOOT_TREE;
    var item := items[k];
    var parent := DropLast(item.path);
    assert Proper(item) && Clear(items[..k], item);
    ProperPath(item);
    assert DropLast(Names(item)) == Encoded(parent) by { EncodedParent(item.path); }
    ShownIsAscii(items[..k], Encoded(parent));
    LowIsAscii(parent);
    SlashedBytes(item.path);
    SlashedExcess(parent);
    EntryName(item);
    LastEncoded(item.path);
  }

  lemma EncodedParent(path: seq<Cpio.Name>)
    requires path != []
    ensures DropLast(Encoded(path)) == Encoded(DropLast(path))
  {
  }

  lemma LastEncoded(path: seq<Cpio.Name>)
    requires path != []
    ensures Last(Encoded(path)) == Cpio.Utf8(Last(path))
  {
  }

  lemma {:induction false} StorableIsSteady(items: seq<Item>, k: nat)
    requires Storable(items) && k <= |items| && AsciiNames(items[..k])
    ensures Cpio.Steady(EntriesOf(items)[k..])
    decreases |items| - k
  {
    hide Storable, AsciiPath, Cpio.Ascii, Cpio.Excess, EntryOf;
    if k < |items| {
      var es := EntriesOf(items);
      StorableProper(items);
      EntryName(items[k]);
      assert es[k..][0] == es[k] && es[k..][1..] == es[k + 1..];
      if AsciiPath(items[k].path) {
        assert forall i :: 0 <= i < k ==> items[..k + 1][i] == items[..k][i];
        StorableIsSteady(items, k + 1);
      } else {
        SmallExcess(items, k);
        if k + 1 < |items| {
          ShortName(items[k + 1]);
        }
      }
    }
  }

  lemma StorableProper(items: seq<Item>)
    requires Storable(items)
    ensures forall i :: 0 <= i < |items| ==> Proper(items[i]) && items[i].path != []
  {
  }

  lemma ShortName(item: Item)
    requires Proper(item)
    ensures |EntryOf(item).name| < PATH_MAX
  {
    hide Cpio.Utf8, AbsPath, Slashed, Plain;
    EntryName(item);
  }

  // ---------------------------------------------------------------------------------------
  // The archive round trip
  // ---------------------------------------------------------------------------------------

  /** Where the reader stops because of a name. */
  lemma {:induction false} FirstTrailer(items: seq<Item>) returns (k: nat)
    requires (forall i :: 0 <= i < |items| ==> Proper(items[i])) && !Untitled(items)
    requires Cpio.AsciiToTrailer(EntriesOf(items))
    ensures k < |items| && items[k].path == [Cpio.TRAILER]
    ensures AsciiNames(items[..k]) && Untitled(items[..k])
  {
    hide Proper, AsciiPath, Cpio.Ascii, EntryOf, Cpio.Utf8, NoNul, Cpio.TRAILER;
    var rest := items[1..];
    EntryKind(items[0]);
    if items[0].path == [Cpio.TRAILER] {
      k := 0;
    } else {
      assert EntriesOf(items)[1..] == EntriesOf(rest);
      assert items == [items[0]] + rest;
      k := FirstTrailer(rest);
      assert items[..k + 1] == [items[0]] + rest[..k];
      k := k + 1;
    }
  }

  /** An item called like the trailer is not there after the mount. */
  lemma TrailerIsLost(items: seq<Item>, k: nat)
    requires Storable(items) && k < |items| && items[k].path == [Cpio.TRAILER]
    requires AsciiNames(items[..k]) && Untitled(items[..k]) && |Cpio.Archive(EntriesOf(items))| <= 0xFFFF_FFF0
    ensures Plain(Names(items[k]))
    ensures See(ApplyAll(Boot(), ROOT, Cpio.Parse(Cpio.Archive(EntriesOf(items))).0), Names(items[k])) == Missing
  {
    hide Boot, See, Overlaid, OverTree, Packed, Proper, Plain, Names, BOOT_TREE, ApplyAll, AsciiNames, Untitled, Need,
         Cpio.Archive, Cpio.Parse, Cpio.Raws, Cpio.Legible, Cpio.AllAscii, Cpio.NoTrailer, Cpio.TRAILER, EntryOf;
    var before, es, ts := items[..k], EntriesOf(items), Names(items[k]);
    StorableProper(items);
    EntryKind(items[k]);
    EntriesNamed(before);
    assert es == EntriesOf(before) + [EntryOf(items[k])] + EntriesOf(items[k + 1..]);
    Cpio.TrailerNameTruncates(EntriesOf(before), EntryOf(items[k]), EntriesOf(items[k + 1..]));
    StorablePrefix(items, k);
    StorablePacks(before);
    ProperPlain(items[k]);
    assert before[..k] == before;
    PlaceAll(Boot(), before, k, ts);
    BootOverlay(before, ts);
    TitleUnused(before, items[k]);
  }

  lemma ProperPlain(item: Item)
    requires Proper(item)
    ensures Plain(Names(item))
  {
  }

  lemma StorablePrefix(items: seq<Item>, k: nat)
    requires Storable(items) && k <= |items|
    ensures Storable(items[..k])
  {
    hide Proper, Clear;
    assert forall i :: 0 <= i < k ==> items[..k][..i] == items[..i];
    NeedMonotone(items, k);
    StorableProper(items);
  }

  lemma {:induction false} TitleUnused(items: seq<Item>, item: Item)
    requires Untitled(items) && item.path == [Cpio.TRAILER]
    ensures OverTree(BOOT_TREE, items, Names(item)) == Missing
  {
    hide Cpio.TRAILER, Encoded;
    if items == [] {
      TrailerNotAtBoot();
      TrailerPath(item.path);
    } else {
      TrailerPath(item.path);
      TrailerPath(Last(items).path);
      assert forall i :: 0 <= i < |items| - 1 ==> DropLast(items)[i] == items[i];
      TitleUnused(DropLast(items), item);
    }
  }

  lemma TrailerNotAtBoot()
    ensures [Cpio.TRAILER] !in BOOT_TREE
  {
    assert |Cpio.TRAILER| == 10;
  }

  lemma {:induction false} Shown(items: seq<Item>, k: nat)
    requires k < |items|
    ensures OverTree(BOOT_TREE, items, Names(items[k])) != Missing
    decreases |items|
  {
    hide BOOT_TREE, Names;
    if k < |items| - 1 {
      assert DropLast(items)[k] == items[k];
      Shown(DropLast(items), k);
    } else {
      assert Last(items) == items[k];
    }
  }

  /** `fs_init` and `fs_mount_initramfs` on the archive `mkinitramfs.py` writes. The mount
      reports success and the tree then shows every packed item with its type and exact
      contents, the boot directories and devices, and nothing else, if and only if every name
      is ASCII and nothing at the root is called like the trailer. Without such an item the
      status alone tells whether all went well. */
  method BootFromTree(items: seq<Item>) returns (vfs: Vfs, r: int)
    requires Storable(items) && |Cpio.Archive(EntriesOf(items))| <= 0xFFFF_FF00
    ensures vfs.Valid()
    ensures r == 0 && (forall ts :: Plain(ts) ==> See(vfs.tmpfs.Fs(), ts) == OverTree(BOOT_TREE, items, ts))
            <==> AsciiNames(items) && Untitled(items)
    ensures Untitled(items) ==> (r == 0 <==> AsciiNames(items))
  {
    hide Boot, Overlaid, OverTree, Wf, See, Packed, Storable, Plain, LeavesFit, ApplyAll, Cpio.Archive, Cpio.Parse,
         EntriesOf, TableOk, AsciiNames, Untitled, Cpio.Legible, Cpio.Steady, Cpio.AllAscii, Cpio.NoTrailer,
         Cpio.AsciiToTrailer, Cpio.NamesRead, Proper;
    var writer := new Cpio.ArchiveWriter();
    writer.EmitTree(EntriesOf(items));
    assert writer.out == Cpio.Archive(EntriesOf(items));
    vfs := new Vfs();
    assert CwdForm(ROOT);
    ArchiveReads(items);
    r := MountInitramfs(vfs.tmpfs, ROOT, writer.out);
    BootDecides(items);
  }

  /** What the archive of storable items reads as. */
  lemma ArchiveReads(items: seq<Item>)
    requires Storable(items) && |Cpio.Archive(EntriesOf(items))| <= 0xFFFF_FFF0
    ensures var (raws, code) := Cpio.Parse(Cpio.Archive(EntriesOf(items)));
            && LeavesFit(ROOT, raws)
            && (code == 0 <==> Cpio.AsciiToTrailer(EntriesOf(items)))
            && (Untitled(items) ==> (code == 0 <==> AsciiNames(items)))
  {
    hide LeavesFit, Cpio.Archive, Cpio.Parse, EntriesOf, Cpio.Raws, AsciiNames, Untitled, Proper,
         Cpio.Legible, Cpio.Steady, Cpio.AllAscii, Cpio.NoTrailer, Cpio.AsciiToTrailer, Cpio.NamesRead;
    StorableProper(items);
    EntriesNamed(items);
    assert AsciiNames(items[..0]) by { hide *; NothingNamed(items); }
    StorableIsSteady(items, 0);
    assert EntriesOf(items)[0..] == EntriesOf(items);
    Cpio.ParseInvertsArchive(EntriesOf(items));
    LeavesOf(items, Cpio.Parse(Cpio.Archive(EntriesOf(items))).0);
    if Untitled(items) {
      Cpio.AsciiWithoutTrailer(EntriesOf(items));
    }
  }

  lemma NothingNamed(items: seq<Item>)
    ensures AsciiNames(items[..0])
  {
  }

  lemma BootDecides(items: seq<Item>)
    requires Storable(items) && |Cpio.Archive(EntriesOf(items))| <= 0xFFFF_FFF0
    ensures var (raws, code) := Cpio.Parse(Cpio.Archive(EntriesOf(items)));
            code == 0
            && (forall ts :: Plain(ts) ==>
                  See(ApplyAll(Boot(), ROOT, raws), ts) == OverTree(BOOT_TREE, items, ts))
            <==> AsciiNames(items) && Untitled(items)
  {
    hide Boot, Overlaid, OverTree, Wf, See, Packed, Plain, LeavesFit, ApplyAll, Cpio.Archive, Cpio.Parse, EntriesOf,
         AsciiNames, Untitled, Proper, Storable, Cpio.AsciiToTrailer, Cpio.Legible;
    var raws, code := Cpio.Parse(Cpio.Archive(EntriesOf(items))).0, Cpio.Parse(Cpio.Archive(EntriesOf(items))).1;
    ArchiveReads(items);
    if AsciiNames(items) && Untitled(items) {
      StorablePacks(items);
      PlainEmpty();
      MountRestoresTree(Boot(), items, []);
      forall ts | Plain(ts) ensures See(ApplyAll(Boot(), ROOT, raws), ts) == OverTree(BOOT_TREE, items, ts) {
        MountRestoresTree(Boot(), items, ts);
        BootOverlay(items, ts);
      }
    } else if code == 0 {
      StorableProper(items);
      var k := FirstTrailer(items);
      TrailerIsLost(items, k);
      Shown(items, k);
    }
  }

  lemma PlainEmpty()
    ensures Plain([])
  {
  }
}
