/** tmpfs as the kernel runs it, updating its node array and arena in place. Every method is
    proved against the functions of FileSystem. */
module TmpfsModule {
  import opened Bytes
  import opened Errno
  import opened Paths
  import opened FileSystem
  import opened NodeTable

  class Tmpfs {
    const nodes: array<Node>
    const arena: array<byte>
    var used: nat
    ghost var chains: seq<seq<int>>

    ghost predicate Valid()
      reads this, nodes, arena
    {
      && nodes.Length == 256 && arena.Length == 0x10_0000
      && Linked(nodes[..], chains)
      && Stored(nodes[..], arena[..], used)
      && Wf(Fs())
    }

    /** The file system this state stands for. */
    ghost function Fs(): FS
      reads this, nodes, arena
    {
      View(nodes[..], arena[..], used)
    }

    constructor ()
      ensures Valid() && fresh(nodes) && fresh(arena)
      ensures Fs() == EmptyFs()
    {
      hide Linked, Stored, View, Wf;
      nodes := new Node[MAX_NODES](_ => ZEROED);
      arena := new byte[ARENA_SIZE](_ => 0);
      used := 0;
      chains := seq(MAX_NODES, _ => []);
      new;
      nodes[0] := Node(0, -1, -1, -1, DIR, [SLASH], -1, 0, 0, 0x1ED, 0);
      RootAlone(nodes[..], chains, arena[..]);
    }

    method AllocNode() returns (id: int)
      requires nodes.Length == MAX_NODES
      modifies nodes
      ensures id == FreeFrom(old(Fs()), 0)
      ensures id < 0 ==> nodes[..] == old(nodes[..])
      ensures id >= 0 ==> 0 <= id < nodes.Length
                          && nodes[..]
                             == old(nodes[..])[id := Node(id, -1, -1, -1, NONE, old(nodes[id].name), -1, 0, 0, 0, 0)]
    {
      ghost var fs := Fs();
      var i := 0;
      while i < MAX_NODES
        invariant 0 <= i <= MAX_NODES
        invariant nodes[..] == old(nodes[..])
        invariant FreeFrom(fs, 0) == FreeFrom(fs, i)
      {
        if nodes[i].kind == NONE {
          assert i !in fs.nodes;
          nodes[i] := nodes[i].(id := i, parentId := -1, firstChild := -1, nextSibling := -1,
                                data := -1, size := 0, capacity := 0, mode := 0, device := 0);
          return i;
        }
        assert i in fs.nodes;
        i := i + 1;
      }
      return -ENOSPC;
    }

    /** Reserve arena bytes; the bump pointer moves only on success. */
    method AllocStorage(size: nat) returns (at: int)
      requires Valid()
      modifies this`used
      ensures at == if old(used) + Align16(size) > ARENA_SIZE then -1 else old(used)
      ensures used == if at < 0 then old(used) else old(used) + Align16(size)
    {
      var aligned := Align16(size);
      if used + aligned > ARENA_SIZE {
        return -1;
      }
      at := used;
      used := used + aligned;
    }

    method LookupChild(parentId: int, name: Str) returns (child: int)
      requires Valid() && parentId in Fs().nodes
      ensures child == -ENOENT || IsChild(Fs(), parentId, name, child)
      ensures child == -ENOENT ==> forall i :: !IsChild(Fs(), parentId, name, i)
      ensures NoSlash(name) ==> child == Child(Fs(), parentId, name)
    {
      child := nodes[parentId].firstChild;
      ghost var rest := chains[parentId];
      while child >= 0
        invariant IsChain(nodes[..], child, rest)
        invariant forall i :: i in chains[parentId] && i !in rest ==> nodes[i].name != name
        invariant forall i :: i in rest ==> i in chains[parentId]
        invariant forall i :: i in chains[parentId] ==> 0 <= i < MAX_NODES
        decreases |rest|
      {
        assert child in chains[parentId] && IsKid(nodes[..], parentId, child);
        if nodes[child].name == name {
          assert IsChild(Fs(), parentId, name, child);
          return;
        }
        child := nodes[child].nextSibling;
        rest := rest[1..];
      }
      forall i ensures !IsChild(Fs(), parentId, name, i) {
        if 0 < i < MAX_NODES {
          assert i in chains[parentId] <==> IsKid(nodes[..], parentId, i);
        }
      }
      child := -ENOENT;
    }

    method ResolvePath(path: Str) returns (r: int)
      requires Valid()
      ensures r == Resolve(Fs(), path)
    {
      if path == [] || path[0] != SLASH {
        return -EINVAL;
      }
      if |path| == 1 {
        assert path[1..] == [] && Tokens(path) == Tokens([]);
        return 0;
      }
      assert path[0..] == path;
      var cursor := SkipSlashes(path, 0);
      r := 0;
      while cursor < |path|
        invariant cursor <= |path| && (cursor < |path| ==> path[cursor] != SLASH)
        invariant r in Fs().nodes
        invariant Walk(Fs(), r, Tokens(path[cursor..])) == Resolve(Fs(), path)
      {
        ghost var ts := Tokens(path[cursor..]);
        var token, next := TakeToken(path, cursor);
        cursor := SkipSlashes(path, next);
        assert ts[1..] == Tokens(path[cursor..]);
        if token == [DOT] {
        } else if token == [DOT, DOT] {
          assert r != 0 ==> Hung(Fs(), r);
          r := if nodes[r].parentId >= 0 then nodes[r].parentId else 0;
        } else {
          r := LookupChild(r, token);
          if r < 0 {
            WalkFailed(Fs(), ts[1..]);
            return;
          }
        }
      }
    }

    /** Take a free node, fill it in and put it at the head of its parent's chain. */
    method LinkNew(parentId: int, kind: Kind, name: Str, mode: int) returns (id: int)
      requires nodes.Length == MAX_NODES && 0 <= parentId < MAX_NODES && nodes[parentId].kind != NONE
      modifies nodes
      ensures id == FreeFrom(old(Fs()), 0)
      ensures id < 0 ==> nodes[..] == old(nodes[..])
      ensures id >= 0 ==> id < MAX_NODES && id != parentId
                          && nodes[..] == Attached(old(nodes[..]), parentId, id, kind, name, mode)
    {
      id := AllocNode();
      if id < 0 {
        return;
      }
      nodes[id] := nodes[id].(kind := kind, mode := mode, parentId := parentId, name := name,
                              nextSibling := nodes[parentId].firstChild);
      nodes[parentId] := nodes[parentId].(firstChild := id);
    }

    method CreateChild(parentId: int, name: Str, kind: Kind, mode: int, ghost path: Str) returns (id: int)
      requires Valid() && kind != NONE && name == LeafOf(path)
      requires parentId in Fs().nodes && Fs().nodes[parentId].body == Dir && nodes[parentId].kind == DIR
      requires var (fs', id) := AddChild(Fs(), parentId, name, NewBody(kind), mode);
               id >= 0 ==> Adds(Fs(), path, NewBody(kind), mode, fs', parentId, id)
      modifies this`chains, nodes
      ensures Valid()
      ensures (Fs(), id) == AddChild(old(Fs()), parentId, name, NewBody(kind), mode)
    {
      hide Wf, Stored, Chained, Placed;
      ghost var ns, ar := nodes[..], arena[..];
      id := LinkNew(parentId, kind, name, mode);
      if id < 0 {
        return;
      }
      AttachedRefines(ns, chains, ar, used, parentId, id, kind, mode, path, nodes[..]);
      chains := chains[parentId := [id] + chains[parentId]][id := []];
    }

    /** `tmpfs_create_path`. A path that resolves already is never split, however long it is. */
    method CreatePath(path: Str, kind: Kind, mode: int) returns (id: int)
      requires Valid() && kind != NONE
      requires LeafFits(Fs(), path) && (Resolve(Fs(), path) < 0 ==> |path| < PATH_MAX)
      modifies this`chains, nodes
      ensures Valid()
      ensures (Fs(), id) == Create(old(Fs()), path, NewBody(kind), mode)
    {
      hide Linked, Stored;
      if |path| < 2 || path[0] != SLASH {
        return -EINVAL;
      }
      id := ResolvePath(path);
      if id >= 0 {
        return;
      }
      var parent, leaf := SplitParent(path);
      var parentId := ResolvePath(parent);
      if parentId < 0 {
        return parentId;
      }
      NewLeaf(Fs(), path);
      if nodes[parentId].kind != DIR {
        return -ENOTDIR;
      }
      CreateCases(Fs(), path, NewBody(kind), mode);
      id := CreateChild(parentId, leaf, kind, mode, path);
    }

    /** The link that leads to `id` in its parent's chain. */
    method FindPredecessor(parentId: int, id: int, ghost k: nat) returns (child: int)
      requires Valid() && 0 <= parentId < MAX_NODES && nodes[parentId].kind == DIR
      requires 0 < k < |chains[parentId]| && chains[parentId][k] == id
      ensures child == chains[parentId][k - 1] && 0 <= child < MAX_NODES
    {
      hide Wf, Stored, Placed, View;
      child := nodes[parentId].firstChild;
      ghost var j := 0;
      ghost var ids := chains[parentId];
      while child >= 0 && nodes[child].nextSibling != id
        invariant 0 <= j < k && child == ids[j] && 0 <= child < MAX_NODES
        invariant IsChain(nodes[..], child, ids[j..])
        decreases k - j
      {
        assert IsChain(nodes[..], nodes[child].nextSibling, ids[j..][1..]);
        assert ids[j..][1..] == ids[j + 1..];
        child := nodes[child].nextSibling;
        j := j + 1;
      }
      assert IsChain(nodes[..], nodes[child].nextSibling, ids[j..][1..]);
      assert ids[j..][1..] == ids[j + 1..];
      ChainNoRepeats(nodes[..], nodes[parentId].firstChild, ids, j + 1, k);
    }

    /** Take a childless node out of its parent's chain and zero it. */
    method Unlink(id: int)
      requires Valid() && id in Fs().nodes && id != 0 && !HasChild(Fs(), id)
      modifies this`chains, nodes
      ensures Valid() && Fs() == old(Fs()).(nodes := old(Fs()).nodes - {id})
    {
      hide Wf, Stored, Chained, Placed;
      ghost var ns, ar := nodes[..], arena[..];
      ViewAt(ns, ar, used, id);
      var parent := nodes[id].parentId;
      OnChainOnce(ns, chains, id);
      ghost var k :| 0 <= k < |chains[parent]| && chains[parent][k] == id;
      ghost var pred := if k == 0 then -1 else chains[parent][k - 1];
      Unhook(parent, id, k);
      nodes[id] := ZEROED;
      assert nodes[..] == Detached(ns, parent, id, pred);
      DetachedRefines(ns, chains, ar, used, parent, k, nodes[..]);
      chains := chains[parent := chains[parent][..k] + chains[parent][k + 1..]];
    }

    method RemovePath(path: Str, wantDir: bool) returns (r: int)
      requires Valid()
      modifies this`chains, nodes
      ensures Valid()
      ensures (Fs(), r) == Remove(old(Fs()), path, wantDir)
    {
      hide Wf, Stored, Linked, View;
      ghost var fs := Fs();
      var id := ResolvePath(path);
      ResolveLands(fs, path);
      if id <= 0 {
        return -EINVAL;
      }
      ViewAt(nodes[..], arena[..], used, id);
      if wantDir && nodes[id].kind != DIR {
        return -ENOTDIR;
      }
      if !wantDir && nodes[id].kind == DIR {
        return -EISDIR;
      }
      EmptyChain(nodes[..], chains, arena[..], used, id);
      if nodes[id].kind == DIR && nodes[id].firstChild >= 0 {
        return -ENOTEMPTY;
      }
      RemoveCases(fs, path, wantDir);
      Unlink(id);
      return 0;
    }

    method ReadNode(id: int, count: nat, off: nat) returns (r: ReadResult)
      requires Valid()
      ensures r == Read(Fs(), id, count, off)
    {
      hide Wf, Linked, Stored, Housed, Extent, View;
      ViewAt(nodes[..], arena[..], used, id);
      if !(0 <= id < MAX_NODES) || nodes[id].kind == NONE {
        return Error(-ENOENT);
      }
      if nodes[id].kind != FILE {
        return Error(-EISDIR);
      }
      StoredHoused(nodes[..], arena[..], used, id);
      ExtentSlice(nodes[id], arena[..], used, off, count);
      if off >= nodes[id].size {
        return Data([]);
      }
      var available := nodes[id].size - off;
      var n := if count > available then available else count;
      return Data(arena[nodes[id].data + off..nodes[id].data + off + n]);
    }

    /** `kmemcpy` into the arena. */
    method CopyIn(at: int, src: seq<byte>)
      requires src != [] ==> 0 <= at && at + |src| <= arena.Length
      modifies arena
      ensures arena[..] == Spliced(old(arena[..]), at, src)
    {
      var i := 0;
      while i < |src|
        invariant 0 <= i <= |src|
        invariant forall j :: 0 <= j < arena.Length ==>
                                arena[j] == if at <= j < at + i then src[j - at] else old(arena[j])
      {
        arena[at + i] := src[i];
        i := i + 1;
      }
      SplicedAt(old(arena[..]), at, src);
      assert arena[..] == Spliced(old(arena[..]), at, src);
    }

    method Relocate(id: int, at: nat, capacity: nat)
      requires 0 <= id < nodes.Length && at + nodes[id].size <= arena.Length
      requires nodes[id].capacity > 0 ==> 0 <= nodes[id].data && nodes[id].data + nodes[id].size <= arena.Length
      modifies nodes, arena
      ensures |Extent(old(nodes[id]), old(arena[..]))| <= old(nodes[id].size)
      ensures arena[..] == Spliced(old(arena[..]), at, Extent(old(nodes[id]), old(arena[..])))
      ensures nodes[..] == old(nodes[..])[id := old(nodes[id]).(data := at, capacity := capacity)]
    {
      if nodes[id].capacity > 0 && nodes[id].size > 0 {
        CopyIn(at, arena[nodes[id].data..nodes[id].data + nodes[id].size]);
      }
      nodes[id] := nodes[id].(data := at, capacity := capacity);
    }

    /** Move a file to a larger extent at the bump pointer, bytes included. */
    method Grow(id: int, capacity: nat) returns (ok: bool)
      requires Valid() && 0 <= id < MAX_NODES && nodes[id].kind == FILE
      requires nodes[id].capacity < capacity && Align16(capacity) == capacity
      modifies this`used, nodes, arena
      ensures Valid()
      ensures ok <==> old(used) + capacity <= ARENA_SIZE
      ensures !ok ==> Fs() == old(Fs())
      ensures ok ==> nodes[id].kind == FILE && nodes[id].capacity == capacity && nodes[id].size == old(nodes[id].size)
                     && Fs() == SetContent(old(Fs()), id, old(Fs()).nodes[id].body.content, capacity,
                                           old(used) + capacity)
    {
      hide Wf, Linked, Stored, Extent;
      ghost var ns, ar, u := nodes[..], arena[..], used;
      var at := AllocStorage(capacity);
      assert nodes[..] == ns && arena[..] == ar;
      if at < 0 {
        return false;
      }
      StoredHoused(ns, ar, u, id);
      Relocate(id, at, capacity);
      GrownRefines(ns, chains, ar, u, id, capacity, nodes[..], arena[..]);
      return true;
    }

    /** The end of a write to a file must stay within what the 32-bit rounding mask can represent. */
    method WriteNode(id: int, buf: seq<byte>, off: nat) returns (r: int)
      requires Valid() && (0 <= id < MAX_NODES && nodes[id].kind == FILE ==> off + |buf| <= 0xFFFF_FF00)
      modifies this`used, nodes, arena
      ensures Valid()
      ensures (Fs(), r) == Write(old(Fs()), id, buf, off)
    {
      hide Wf, Linked, Stored, Overlay, View, Write, SetContent, Extent, Align256, Align16;
      ghost var fs := Fs();
      var end := off + |buf|;
      ViewAt(nodes[..], arena[..], used, id);
      WriteRefused(fs, id, buf, off);
      if !(0 <= id < MAX_NODES) || nodes[id].kind == NONE {
        return -ENOENT;
      }
      if nodes[id].kind != FILE {
        return -EISDIR;
      }
      if end > nodes[id].capacity {
        AlignRoundsUp(end);
        var ok := Grow(id, Align256(end));
        if !ok {
          WriteFails(fs, id, buf, off);
          return -ENOSPC;
        }
      }
      ViewAt(nodes[..], arena[..], used, id);
      WriteAfterMove(fs, Fs(), id, buf, off);
      Fill(id, buf, off);
      return |buf|;
    }

    /** Write inside the extent a file already has. */
    method Fill(id: int, buf: seq<byte>, off: nat)
      requires Valid() && 0 <= id < MAX_NODES && nodes[id].kind == FILE && off + |buf| <= nodes[id].capacity
      modifies nodes, arena
      ensures Valid()
      ensures Fs() == SetContent(old(Fs()), id, Overlay(old(Fs()).nodes[id].body.content, off, buf),
                                 old(nodes[id].capacity), used)
    {
      hide Wf, Linked, Stored;
      ghost var ns, ar := nodes[..], arena[..];
      StoredHoused(ns, ar, used, id);
      CopyIn(nodes[id].data + off, buf);
      var end := off + |buf|;
      if end > nodes[id].size {
        nodes[id] := nodes[id].(size := end);
      }
      FilledRefines(ns, chains, ar, used, id, off, buf, nodes[..], arena[..]);
    }

    /** `init_device_node` stores the device number through the node pointer, whatever the node
        is; only a device shows it. */
    method SetDevice(id: int, device: int)
      requires Valid() && id in Fs().nodes
      modifies nodes
      ensures Valid()
      ensures Fs() == if old(Fs()).nodes[id].body.Dev?
                      then old(Fs()).(nodes := old(Fs()).nodes[id := old(Fs()).nodes[id].(body := Dev(device))])
                      else old(Fs())
    {
      hide Wf, Linked, Stored;
      ghost var ns, ar := nodes[..], arena[..];
      nodes[id] := nodes[id].(device := device);
      RelabelledRefines(ns, chains, ar, used, id, device, nodes[..]);
    }

    /** Redirect whatever links to `id` past it. */
    method Unhook(parentId: int, id: int, ghost k: nat)
      requires Valid() && 0 <= parentId < MAX_NODES && nodes[parentId].kind == DIR && 0 <= id < MAX_NODES
      requires k < |chains[parentId]| && chains[parentId][k] == id
      modifies nodes
      ensures k == 0 ==>
              nodes[..] == old(nodes[..])[parentId := old(nodes[parentId]).(firstChild := old(nodes[id]).nextSibling)]
      ensures k > 0 ==> var pred := chains[parentId][k - 1];
                0 <= pred < MAX_NODES &&
                nodes[..] == old(nodes[..])[pred := old(nodes[pred]).(nextSibling := old(nodes[id]).nextSibling)]
    {
      var child := nodes[parentId].firstChild;
      if child == id {
        ChainNoRepeats(nodes[..], nodes[parentId].firstChild, chains[parentId], 0, k);
        nodes[parentId] := nodes[parentId].(firstChild := nodes[id].nextSibling);
      } else {
        child := FindPredecessor(parentId, id, k);
        if child >= 0 {
          nodes[child] := nodes[child].(nextSibling := nodes[id].nextSibling);
        }
      }
    }
  }

  method SplitParent(path: Str) returns (parent: Str, leaf: Str)
    ensures parent == ParentOf(path) && leaf == LeafOf(path)
  {
    hide TrimEnd, BackRun;
    var last := |path|;
    assert path[..last] == path;
    while last > 0 && path[last - 1] == SLASH
      invariant 0 <= last <= |path|
      invariant TrimEnd(path[..last]) == TrimEnd(path)
    {
      ScanStep(path, last);
      last := last - 1;
    }
    ScanStops(path, last);
    ghost var e := last;
    while last > 0 && path[last - 1] != SLASH
      invariant 0 <= last <= e
      invariant BackRun(path[..last]) == BackRun(path[..e])
    {
      ScanStep(path, last);
      last := last - 1;
    }
    ScanStops(path, last);
    if last == 0 {
      return [SLASH], if path != [] && path[0] == SLASH then path[1..] else path;
    }
    return path[..last], path[last..];
  }

  /** One step of the backward scans. */
  lemma ScanStep(p: Str, k: nat)
    requires 0 < k <= |p|
    ensures p[k - 1] == SLASH ==> TrimEnd(p[..k]) == TrimEnd(p[..k - 1])
    ensures p[k - 1] != SLASH ==> BackRun(p[..k]) == BackRun(p[..k - 1])
  {
    assert DropLast(p[..k]) == p[..k - 1];
  }

  lemma ScanStops(p: Str, k: nat)
    requires k <= |p|
    ensures k == 0 || p[k - 1] != SLASH ==> TrimEnd(p[..k]) == k
    ensures k == 0 || p[k - 1] == SLASH ==> BackRun(p[..k]) == k
  {
  }

  /** What `tmpfs_init` leaves. */
  lemma RootAlone(ns: seq<Node>, chains: seq<seq<int>>, ar: seq<byte>)
    requires |ns| == MAX_NODES && ns[0] == Node(0, -1, -1, -1, DIR, [SLASH], -1, 0, 0, 0x1ED, 0)
    requires forall i :: 0 < i < |ns| ==> ns[i] == ZEROED
    requires |chains| == MAX_NODES && forall i :: 0 <= i < |chains| ==> chains[i] == []
    requires |ar| == ARENA_SIZE && forall j :: 0 <= j < |ar| ==> ar[j] == 0
    ensures Linked(ns, chains) && Stored(ns, ar, 0) && View(ns, ar, 0) == EmptyFs() && Wf(EmptyFs())
  {
    hide Wf;
    EmptyIsWf();
    assert View(ns, ar, 0).nodes == EmptyFs().nodes;
  }

  /** A live node's first-child index says whether it has children. */
  lemma EmptyChain(ns: seq<Node>, chains: seq<seq<int>>, ar: seq<byte>, used: nat, id: int)
    requires Linked(ns, chains) && 0 <= id < |ns| && ns[id].kind != NONE && Wf(View(ns, ar, used))
    ensures ns[id].firstChild >= 0 <==> HasChild(View(ns, ar, used), id)
    ensures ns[id].firstChild >= 0 <==> chains[id] != []
  {
    assert IsChain(ns, ns[id].firstChild, chains[id]);
    var fs := View(ns, ar, used);
    if chains[id] != [] {
      var c := chains[id][0];
      assert IsKid(ns, id, c);
      assert c in fs.nodes && fs.nodes[c].parent == id;
    } else {
      forall c | c in fs.nodes ensures fs.nodes[c].parent != id {
        assert c in chains[id] <==> IsKid(ns, id, c);
      }
    }
  }

  lemma DetachedStored(ns: seq<Node>, ar: seq<byte>, used: nat, p: int, id: int, pred: int)
    requires Stored(ns, ar, used) && 0 <= p < |ns| && 0 <= id < |ns| && pred < |ns|
    ensures Stored(Detached(ns, p, id, pred), ar, used)
  {
    var ns' := Detached(ns, p, id, pred);
    forall i | 0 <= i < |ns| ensures Housed(ns'[i], ar, used) {
      assert Housed(ns[i], ar, used);
    }
    forall i, j | 0 <= i < |ns| && 0 <= j < |ns| && i != j ensures Apart(ns'[i], ns'[j]) {
      assert Apart(ns[i], ns[j]);
    }
  }

  /** Adding a node at the head of its parent's chain is what `Create` does to the view. */
  lemma AttachedRefines(ns: seq<Node>, chains: seq<seq<int>>, ar: seq<byte>, used: nat,
                        p: int, id: int, kind: Kind, mode: int, path: Str, ns': seq<Node>)
    requires Linked(ns, chains) && Stored(ns, ar, used) && Wf(View(ns, ar, used)) && |ns| == MAX_NODES
    requires 0 <= p < |ns| && 0 < id < |ns| && ns[p].kind == DIR && ns[id].kind == NONE && kind != NONE
    requires ns' == Attached(ns, p, id, kind, LeafOf(path), mode)
    requires var fs := View(ns, ar, used);
             Adds(fs, path, NewBody(kind), mode,
                  fs.(nodes := fs.nodes[id := Inode(p, LeafOf(path), NewBody(kind), mode)]), p, id)
    ensures Linked(ns', chains[p := [id] + chains[p]][id := []]) && Stored(ns', ar, used)
    ensures Wf(View(ns', ar, used))
    ensures var fs := View(ns, ar, used);
            View(ns', ar, used) == fs.(nodes := fs.nodes[id := Inode(p, LeafOf(path), NewBody(kind), mode)])
  {
    hide Wf, Stored, Chained, Placed;
    AttachedChained(ns, chains, p, id, kind, LeafOf(path), mode);
    AttachedPlaced(ns, chains, p, id, kind, LeafOf(path), mode);
    AttachedStored(ns, ar, used, p, id, kind, LeafOf(path), mode);
    ViewPut(ns, ar, used, ns', ar, used, id);
    AddsKeepsWf(View(ns, ar, used), path, NewBody(kind), mode, View(ns', ar, used), p, id);
  }

  /** Cutting a childless node out of its chain is what `Remove` does to the view. */
  lemma DetachedRefines(ns: seq<Node>, chains: seq<seq<int>>, ar: seq<byte>, used: nat, p: int, k: nat, ns': seq<Node>)
    requires Linked(ns, chains) && Stored(ns, ar, used) && Wf(View(ns, ar, used)) && |ns| == MAX_NODES
    requires 0 <= p < |ns| && ns[p].kind == DIR && k < |chains[p]| && 0 < chains[p][k] < |ns|
    requires k > 0 ==> 0 <= chains[p][k - 1] < |ns|
    requires ns' == Detached(ns, p, chains[p][k], if k == 0 then -1 else chains[p][k - 1])
    requires ns[chains[p][k]].kind != NONE && !HasChild(View(ns, ar, used), chains[p][k])
    ensures Linked(ns', chains[p := chains[p][..k] + chains[p][k + 1..]]) && Stored(ns', ar, used)
    ensures Wf(View(ns', ar, used))
    ensures var fs := View(ns, ar, used); View(ns', ar, used) == fs.(nodes := fs.nodes - {chains[p][k]})
  {
    hide Wf, Stored;
    var id := chains[p][k];
    var fs := View(ns, ar, used);
    assert id in chains[p] && IsKid(ns, p, id);
    EmptyChain(ns, chains, ar, used, id);
    assert id in fs.nodes && fs.nodes[id].parent == p;
    DetachedChained(ns, chains, p, k);
    DetachedPlaced(ns, chains, p, k);
    DetachedStored(ns, ar, used, p, id, if k == 0 then -1 else chains[p][k - 1]);
    ViewDrop(ns, ar, used, ns', id);
    DropsKeepsWf(fs, View(ns', ar, used), id);
  }

  /** Links depend only on kinds, parents and the two link fields. */
  lemma SameLinks(ns: seq<Node>, chains: seq<seq<int>>, id: int, n': Node)
    requires Linked(ns, chains) && 0 <= id < |ns|
    requires n'.kind == ns[id].kind && n'.parentId == ns[id].parentId
    requires n'.firstChild == ns[id].firstChild && n'.nextSibling == ns[id].nextSibling
    ensures Linked(ns[id := n'], chains)
  {
    var ns' := ns[id := n'];
    forall p | 0 <= p < |ns| && ns'[p].kind != NONE ensures IsChain(ns', ns'[p].firstChild, chains[p]) {
      assert IsChain(ns, ns[p].firstChild, chains[p]);
      ChainFrame(ns, ns', ns[p].firstChild, chains[p]);
    }
    forall p, c | 0 <= p < |ns| ensures c in chains[p] <==> IsKid(ns', p, c) {
      assert c in chains[p] <==> IsKid(ns, p, c);
    }
  }

  /** Changing one node's body, other files' extents untouched, keeps the tree. */
  lemma BodyChanged(ns: seq<Node>, ar: seq<byte>, used: nat, ns': seq<Node>, ar': seq<byte>, used': nat, id: int)
    requires Wf(View(ns, ar, used)) && |ns'| == |ns| && 0 <= id < |ns| && ns[id].kind in {FILE, CHARDEV}
    requires ns' == ns[id := ns'[id]] && ns'[id].kind == ns[id].kind
    requires ns'[id].parentId == ns[id].parentId && ns'[id].name == ns[id].name && ns'[id].mode == ns[id].mode
    requires forall i :: 0 <= i < |ns| && i != id && ns[i].kind == FILE ==> Extent(ns[i], ar') == Extent(ns[i], ar)
    ensures Wf(View(ns', ar', used'))
    ensures var fs := View(ns, ar, used);
            View(ns', ar', used') == FS(fs.nodes[id := fs.nodes[id].(body := BodyOf(ns'[id], ar'))], used')
  {
    forall i | 0 <= i < |ns| && i != id && ns[i].kind != NONE ensures SameInode(ns[i], ar, ns'[i], ar') {
    }
    ViewPut(ns, ar, used, ns', ar', used', id);
    SameShapeWf(View(ns, ar, used), View(ns', ar', used'));
  }

  lemma GrownRefines(ns: seq<Node>, chains: seq<seq<int>>, ar: seq<byte>, used: nat, id: int, capacity: nat,
                     ns': seq<Node>, ar': seq<byte>)
    requires Linked(ns, chains) && Stored(ns, ar, used) && Wf(View(ns, ar, used))
    requires 0 <= id < |ns| && ns[id].kind == FILE && ns[id].capacity < capacity && used + capacity <= ARENA_SIZE
    requires Housed(ns[id], ar, used)
    requires ns' == ns[id := ns[id].(data := used, capacity := capacity)]
    requires ar' == Spliced(ar, used, Extent(ns[id], ar))
    ensures Linked(ns', chains) && Stored(ns', ar', used + capacity) && Wf(View(ns', ar', used + capacity))
    ensures View(ns', ar', used + capacity)
            == SetContent(View(ns, ar, used), id, View(ns, ar, used).nodes[id].body.content, capacity, used + capacity)
  {
    hide Wf, Linked, Stored;
    Moved(ns, ar, used, id, capacity, ns', ar');
    SameLinks(ns, chains, id, ns'[id]);
    BodyChanged(ns, ar, used, ns', ar', used + capacity, id);
  }

  lemma FilledRefines(ns: seq<Node>, chains: seq<seq<int>>, ar: seq<byte>, used: nat, id: int, off: nat, buf: seq<byte>,
                      ns': seq<Node>, ar': seq<byte>)
    requires Linked(ns, chains) && Stored(ns, ar, used) && Wf(View(ns, ar, used))
    requires 0 <= id < |ns| && ns[id].kind == FILE && off + |buf| <= ns[id].capacity
    requires Housed(ns[id], ar, used)
    requires ns' == ns[id := Resized(ns[id], off + |buf|)]
    requires ar' == Spliced(ar, ns[id].data + off, buf)
    ensures Linked(ns', chains) && Stored(ns', ar', used) && Wf(View(ns', ar', used))
    ensures View(ns', ar', used)
            == SetContent(View(ns, ar, used), id, Overlay(View(ns, ar, used).nodes[id].body.content, off, buf),
                          ns[id].capacity, used)
  {
    hide Wf, Linked, Stored, Overlay;
    Filled(ns, ar, used, id, off, buf, ns', ar');
    SameLinks(ns, chains, id, ns'[id]);
    BodyChanged(ns, ar, used, ns', ar', used, id);
  }

  lemma RelabelledRefines(ns: seq<Node>, chains: seq<seq<int>>, ar: seq<byte>, used: nat, id: int, device: int,
                          ns': seq<Node>)
    requires Linked(ns, chains) && Stored(ns, ar, used) && Wf(View(ns, ar, used))
    requires 0 <= id < |ns| && ns[id].kind != NONE && ns' == ns[id := ns[id].(device := device)]
    ensures Linked(ns', chains) && Stored(ns', ar, used) && Wf(View(ns', ar, used))
    ensures var fs := View(ns, ar, used);
            View(ns', ar, used)
            == if ns[id].kind == CHARDEV then fs.(nodes := fs.nodes[id := fs.nodes[id].(body := Dev(device))]) else fs
  {
    hide Wf, Linked;
    SameLinks(ns, chains, id, ns'[id]);
    if ns[id].kind == CHARDEV {
      BodyChanged(ns, ar, used, ns', ar, used, id);
    } else {
      assert View(ns', ar, used) == View(ns, ar, used);
    }
    forall i | 0 <= i < |ns| ensures Housed(ns'[i], ar, used) {
      assert Housed(ns[i], ar, used);
    }
    StillApart(ns, id, ns'[id]);
  }
}
