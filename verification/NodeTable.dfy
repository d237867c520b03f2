/** The concrete state of tmpfs as values: a node table threaded by first-child and
    next-sibling indices, a bump arena for file bytes, and what each update does to both. */
module NodeTable {
  import opened Bytes
  import opened Paths
  import opened FileSystem

  datatype Kind = NONE | FILE | DIR | CHARDEV

  datatype Node = Node(
    id: int, parentId: int, firstChild: int, nextSibling: int, kind: Kind, name: Str,
    data: int, size: nat, capacity: nat, mode: int, device: int)

  /** What `kmemset(.., 0, ..)` leaves; a null data pointer is -1. */
  const ZEROED := Node(0, 0, 0, 0, NONE, [], -1, 0, 0, 0, 0)

  // ---------------------------------------------------------------------------------------
  // Abstraction
  // ---------------------------------------------------------------------------------------

  ghost function Extent(n: Node, ar: seq<byte>): seq<byte> {
    if n.capacity > 0 && 0 <= n.data && n.data + n.size <= |ar| then ar[n.data..n.data + n.size] else []
  }

  ghost function BodyOf(n: Node, ar: seq<byte>): Body {
    match n.kind
    case FILE => File(Extent(n, ar), n.capacity)
    case CHARDEV => Dev(n.device)
    case _ => Dir
  }

  ghost function InodeOf(n: Node, ar: seq<byte>): Inode {
    Inode(n.parentId, n.name, BodyOf(n, ar), n.mode)
  }

  ghost function View(ns: seq<Node>, ar: seq<byte>, used: nat): FS {
    FS(map i | 0 <= i < |ns| && ns[i].kind != NONE :: InodeOf(ns[i], ar), used)
  }

  lemma ViewAt(ns: seq<Node>, ar: seq<byte>, used: nat, id: int)
    ensures id in View(ns, ar, used).nodes <==> 0 <= id < |ns| && ns[id].kind != NONE
    ensures 0 <= id < |ns| && ns[id].kind != NONE ==> View(ns, ar, used).nodes[id] == InodeOf(ns[id], ar)
    ensures View(ns, ar, used).used == used
  {
  }

  function NewBody(kind: Kind): Body {
    match kind
    case FILE => File([], 0)
    case CHARDEV => Dev(0)
    case _ => Dir
  }

  // ---------------------------------------------------------------------------------------
  // Sibling chains
  // ---------------------------------------------------------------------------------------

  /** Following `nextSibling` from `start` visits exactly `ids` and then stops. */
  ghost predicate IsChain(ns: seq<Node>, start: int, ids: seq<int>)
    decreases |ids|
  {
    if ids == [] then start == -1
    else start == ids[0] && 0 <= start < |ns| && IsChain(ns, ns[start].nextSibling, ids[1..])
  }

  predicate IsKid(ns: seq<Node>, p: int, c: int) {
    0 < c < |ns| && ns[c].kind != NONE && ns[c].parentId == p
  }

  ghost predicate Chained(ns: seq<Node>, chains: seq<seq<int>>) {
    |chains| == |ns| && forall p :: 0 <= p < |ns| && ns[p].kind != NONE ==> IsChain(ns, ns[p].firstChild, chains[p])
  }

  /** The chain of `p` holds exactly the live nodes whose parent is `p`; parents are directories. */
  ghost predicate Placed(ns: seq<Node>, chains: seq<seq<int>>) {
    && |chains| == |ns|
    && (forall p, c :: 0 <= p < |ns| ==> (c in chains[p] <==> IsKid(ns, p, c)))
    && (forall c :: 0 < c < |ns| && ns[c].kind != NONE ==> 0 <= ns[c].parentId < |ns| && ns[ns[c].parentId].kind == DIR)
  }

  ghost predicate Linked(ns: seq<Node>, chains: seq<seq<int>>) {
    |chains| == |ns| && Chained(ns, chains) && Placed(ns, chains)
  }

  lemma {:induction false} ChainFrame(ns: seq<Node>, ns': seq<Node>, start: int, ids: seq<int>)
    requires IsChain(ns, start, ids) && |ns'| == |ns|
    requires forall c :: c in ids && 0 <= c < |ns| ==> ns'[c].nextSibling == ns[c].nextSibling
    ensures IsChain(ns', start, ids)
    decreases |ids|
  {
    if ids != [] {
      assert ids[0] in ids;
      ChainFrame(ns, ns', ns[start].nextSibling, ids[1..]);
    }
  }

  lemma {:induction false} ChainSuffix(ns: seq<Node>, start: int, ids: seq<int>, k: nat)
    requires IsChain(ns, start, ids) && k < |ids|
    ensures IsChain(ns, ids[k], ids[k..])
    decreases |ids|
  {
    if k > 0 {
      ChainSuffix(ns, ns[start].nextSibling, ids[1..], k - 1);
      assert ids[1..][k - 1..] == ids[k..];
    }
  }

  lemma {:induction false} ChainUnique(ns: seq<Node>, start: int, a: seq<int>, b: seq<int>)
    requires IsChain(ns, start, a) && IsChain(ns, start, b)
    ensures a == b
    decreases |a|
  {
    if a != [] && b != [] {
      ChainUnique(ns, ns[start].nextSibling, a[1..], b[1..]);
      assert a == [start] + a[1..] && b == [start] + b[1..];
    }
  }

  /** A terminated chain cannot meet a node twice. */
  lemma ChainNoRepeats(ns: seq<Node>, start: int, ids: seq<int>, j: nat, k: nat)
    requires IsChain(ns, start, ids) && j < |ids| && k < |ids| && ids[j] == ids[k]
    ensures j == k
  {
    ChainSuffix(ns, start, ids, j);
    ChainSuffix(ns, start, ids, k);
    ChainUnique(ns, ids[j], ids[j..], ids[k..]);
  }

  /** In every linked table each live node other than the root sits at exactly one position of
      exactly one chain, its parent's. */
  lemma OnChainOnce(ns: seq<Node>, chains: seq<seq<int>>, c: int)
    requires Linked(ns, chains) && 0 < c < |ns| && ns[c].kind != NONE
    ensures var p := ns[c].parentId;
            && 0 <= p < |ns| && ns[p].kind == DIR
            && (exists k :: 0 <= k < |chains[p]| && chains[p][k] == c)
            && (forall q, j, k | 0 <= q < |ns| && 0 <= j < |chains[q]| && 0 <= k < |chains[p]| ::
                  chains[q][j] == c && chains[p][k] == c ==> q == p && j == k)
  {
    var p := ns[c].parentId;
    assert IsKid(ns, p, c) && c in chains[p];
    forall q, j, k | && 0 <= q < |ns| && 0 <= j < |chains[q]| && 0 <= k < |chains[p]|
                     && chains[q][j] == c && chains[p][k] == c
      ensures q == p && j == k
    {
      assert c in chains[q] && IsKid(ns, q, c);
      ChainNoRepeats(ns, ns[p].firstChild, chains[p], j, k);
    }
  }

  lemma FirstIsFirst(ns: seq<Node>, start: int, ids: seq<int>)
    requires IsChain(ns, start, ids) && |ids| >= 2
    ensures ids[0] !in ids[2..]
  {
    if ids[0] in ids[2..] {
      var j :| 2 <= j < |ids| && ids[j] == ids[0];
      ChainNoRepeats(ns, start, ids, 0, j);
    }
  }

  /** Dropping the `k`-th node of a chain by redirecting its predecessor. */
  lemma {:induction false} ChainSplice(ns: seq<Node>, start: int, ids: seq<int>, k: nat)
    requires IsChain(ns, start, ids) && 0 < k < |ids|
    requires 0 <= ids[k - 1] < |ns| && 0 <= ids[k] < |ns|
    ensures IsChain(ns[ids[k - 1] := ns[ids[k - 1]].(nextSibling := ns[ids[k]].nextSibling)],
                    start, ids[..k] + ids[k + 1..])
    decreases |ids|
  {
    var ns' := ns[ids[k - 1] := ns[ids[k - 1]].(nextSibling := ns[ids[k]].nextSibling)];
    var ids' := ids[..k] + ids[k + 1..];
    var tail := ids[1..];
    if k == 1 {
      assert ids'[1..] == ids[2..] == tail[1..];
      FirstIsFirst(ns, start, ids);
      ChainFrame(ns, ns', ns[ids[1]].nextSibling, ids[2..]);
    } else {
      ChainSplice(ns, ns[start].nextSibling, tail, k - 1);
      assert ids'[1..] == tail[..k - 1] + tail[k..];
      if ids[0] == ids[k - 1] { ChainNoRepeats(ns, start, ids, 0, k - 1); }
    }
  }

  // ---------------------------------------------------------------------------------------
  // Arena
  // ---------------------------------------------------------------------------------------

  /** A file's extent lies below the bump pointer and is zero beyond the file's size. */
  ghost predicate Housed(n: Node, ar: seq<byte>, used: nat) {
    n.kind == FILE ==>
      && n.size <= n.capacity
      && (n.capacity > 0 ==>
            && 0 <= n.data && n.data + n.capacity <= used <= |ar|
            && forall j :: n.data + n.size <= j < n.data + n.capacity ==> ar[j] == 0)
  }

  ghost predicate Apart(a: Node, b: Node) {
    a.kind == FILE && b.kind == FILE && a.capacity > 0 && b.capacity > 0 ==>
      a.data + a.capacity <= b.data || b.data + b.capacity <= a.data
  }

  ghost predicate AllApart(ns: seq<Node>) {
    forall i, j :: 0 <= i < |ns| && 0 <= j < |ns| && i != j ==> Apart(ns[i], ns[j])
  }

  /** Extents are disjoint, and every byte that no file has written yet is zero. */
  ghost predicate Stored(ns: seq<Node>, ar: seq<byte>, used: nat) {
    && |ar| == ARENA_SIZE && used <= ARENA_SIZE
    && (forall j :: used <= j < |ar| ==> ar[j] == 0)
    && (forall i :: 0 <= i < |ns| ==> Housed(ns[i], ar, used))
    && AllApart(ns)
  }

  ghost function Spliced(ar: seq<byte>, at: int, src: seq<byte>): seq<byte>
    requires src != [] ==> 0 <= at && at + |src| <= |ar|
  {
    if src == [] then ar else ar[..at] + src + ar[at + |src|..]
  }

  lemma SplicedAt(ar: seq<byte>, at: int, src: seq<byte>)
    requires src != [] ==> 0 <= at && at + |src| <= |ar|
    ensures |Spliced(ar, at, src)| == |ar|
    ensures forall j :: 0 <= j < |ar| ==>
              Spliced(ar, at, src)[j] == if at <= j < at + |src| then src[j - at] else ar[j]
  {
  }

  /** The bytes read from an extent are a slice of the file's content. */
  lemma ExtentSlice(n: Node, ar: seq<byte>, used: nat, off: nat, count: nat)
    requires Housed(n, ar, used) && n.kind == FILE
    ensures |Extent(n, ar)| == n.size
    ensures off < n.size ==> 0 <= n.data + off && n.data + n.size <= |ar|
                             && ar[n.data + off..n.data + Min(off + count, n.size)] == Slice(Extent(n, ar), off, count)
  {
    if off < n.size {
      var m := Min(off + count, n.size);
      assert Extent(n, ar) == ar[n.data..n.data + n.size];
      SliceOfSlice(ar, n.data, n.data + n.size, off, m);
    }
  }

  lemma StoredHoused(ns: seq<Node>, ar: seq<byte>, used: nat, id: int)
    requires Stored(ns, ar, used) && 0 <= id < |ns|
    ensures Housed(ns[id], ar, used) && |ar| == ARENA_SIZE && used <= ARENA_SIZE
  {
  }

  lemma MovedSelf(n: Node, ar: seq<byte>, used: nat, capacity: nat)
    requires Housed(n, ar, used) && n.kind == FILE && n.capacity < capacity && used + capacity <= |ar|
    requires forall j :: used <= j < |ar| ==> ar[j] == 0
    ensures |Extent(n, ar)| == n.size
    ensures var ar' := Spliced(ar, used, Extent(n, ar)); var n' := n.(data := used, capacity := capacity);
            && |ar'| == |ar| && (forall j :: used + capacity <= j < |ar| ==> ar'[j] == 0)
            && Housed(n', ar', used + capacity) && Extent(n', ar') == Extent(n, ar)
  {
    var c := Extent(n, ar);
    SplicedAt(ar, used, c);
    assert Spliced(ar, used, c)[used..used + n.size] == c;
  }

  lemma MovedOther(m: Node, ar: seq<byte>, used: nat, src: seq<byte>, used': nat)
    requires Housed(m, ar, used) && used + |src| <= |ar| && used <= used' <= |ar|
    ensures var ar' := Spliced(ar, used, src);
            Housed(m, ar', used') && (m.kind == FILE ==> Extent(m, ar') == Extent(m, ar))
  {
    SplicedAt(ar, used, src);
  }

  lemma MovedApart(ns: seq<Node>, ar: seq<byte>, used: nat, id: int, n': Node)
    requires AllApart(ns) && 0 <= id < |ns| && n'.data == used
    requires forall i :: 0 <= i < |ns| ==> Housed(ns[i], ar, used)
    ensures AllApart(ns[id := n'])
  {
    var ns' := ns[id := n'];
    forall i, j | 0 <= i < |ns| && 0 <= j < |ns| && i != j ensures Apart(ns'[i], ns'[j]) {
      assert Apart(ns[i], ns[j]) && Housed(ns[i], ar, used) && Housed(ns[j], ar, used);
    }
  }

  /** Moving a file to a fresh extent at the bump pointer keeps every file's bytes. */
  lemma Moved(ns: seq<Node>, ar: seq<byte>, used: nat, id: int, capacity: nat, ns': seq<Node>, ar': seq<byte>)
    requires Stored(ns, ar, used) && 0 <= id < |ns| && ns[id].kind == FILE && Housed(ns[id], ar, used)
    requires capacity > ns[id].capacity && used + capacity <= ARENA_SIZE
    requires ar' == Spliced(ar, used, Extent(ns[id], ar))
    requires ns' == ns[id := ns[id].(data := used, capacity := capacity)]
    ensures Stored(ns', ar', used + capacity)
    ensures Extent(ns'[id], ar') == Extent(ns[id], ar)
    ensures forall i :: 0 <= i < |ns| && i != id && ns[i].kind == FILE ==> Extent(ns[i], ar') == Extent(ns[i], ar)
  {
    MovedSelf(ns[id], ar, used, capacity);
    MovedApart(ns, ar, used, id, ns'[id]);
    forall i | 0 <= i < |ns| && i != id
      ensures Housed(ns'[i], ar', used + capacity) && (ns[i].kind == FILE ==> Extent(ns[i], ar') == Extent(ns[i], ar))
    {
      MovedOther(ns[i], ar, used, Extent(ns[id], ar), used + capacity);
    }
  }

  function Resized(n: Node, end: nat): Node {
    n.(size := if end > n.size then end else n.size)
  }

  lemma FilledSelf(n: Node, ar: seq<byte>, used: nat, off: nat, buf: seq<byte>)
    requires Housed(n, ar, used) && n.kind == FILE && off + |buf| <= n.capacity
    ensures var ar' := Spliced(ar, n.data + off, buf); var n' := Resized(n, off + |buf|);
            Housed(n', ar', used) && Extent(n', ar') == Overlay(Extent(n, ar), off, buf)
  {
    hide Overlay, Extent, Resized, Spliced;
    SplicedAt(ar, n.data + off, buf);
    FilledHoused(n, ar, used, off, buf, Spliced(ar, n.data + off, buf));
    FilledContent(n, ar, used, off, buf, Spliced(ar, n.data + off, buf));
  }

  lemma FilledHoused(n: Node, ar: seq<byte>, used: nat, off: nat, buf: seq<byte>, ar': seq<byte>)
    requires Housed(n, ar, used) && n.kind == FILE && off + |buf| <= n.capacity && |ar'| == |ar|
    requires forall j :: 0 <= j < |ar| ==>
               ar'[j] == if n.data + off <= j < n.data + off + |buf| then buf[j - (n.data + off)] else ar[j]
    ensures Housed(Resized(n, off + |buf|), ar', used)
  {
  }

  lemma FilledContent(n: Node, ar: seq<byte>, used: nat, off: nat, buf: seq<byte>, ar': seq<byte>)
    requires Housed(n, ar, used) && n.kind == FILE && off + |buf| <= n.capacity && |ar'| == |ar|
    requires forall j :: 0 <= j < |ar| ==>
               ar'[j] == if n.data + off <= j < n.data + off + |buf| then buf[j - (n.data + off)] else ar[j]
    ensures Extent(Resized(n, off + |buf|), ar') == Overlay(Extent(n, ar), off, buf)
  {
    var n' := Resized(n, off + |buf|);
    var c, c' := Extent(n, ar), Extent(n', ar');
    assert |c| == n.size && |c'| == n'.size;
    forall j | 0 <= j < |c'| ensures c'[j] == Overlay(c, off, buf)[j] {
      assert c'[j] == ar'[n.data + j];
    }
  }

  lemma FilledOther(n: Node, m: Node, ar: seq<byte>, used: nat, off: nat, buf: seq<byte>)
    requires Housed(n, ar, used) && n.kind == FILE && off + |buf| <= n.capacity
    requires Housed(m, ar, used) && Apart(m, n)
    ensures var ar' := Spliced(ar, n.data + off, buf);
            Housed(m, ar', used) && (m.kind == FILE ==> Extent(m, ar') == Extent(m, ar))
  {
    SplicedAt(ar, n.data + off, buf);
  }

  lemma FilledTail(n: Node, ar: seq<byte>, used: nat, off: nat, buf: seq<byte>)
    requires Housed(n, ar, used) && n.kind == FILE && off + |buf| <= n.capacity && used <= |ar|
    requires forall j :: used <= j < |ar| ==> ar[j] == 0
    ensures var ar' := Spliced(ar, n.data + off, buf);
            |ar'| == |ar| && forall j :: used <= j < |ar| ==> ar'[j] == 0
  {
    SplicedAt(ar, n.data + off, buf);
  }

  lemma StillApart(ns: seq<Node>, id: int, n': Node)
    requires AllApart(ns)
    requires 0 <= id < |ns| && n'.kind == ns[id].kind && n'.data == ns[id].data && n'.capacity == ns[id].capacity
    ensures AllApart(ns[id := n'])
  {
    var ns' := ns[id := n'];
    forall i, j | 0 <= i < |ns| && 0 <= j < |ns| && i != j ensures Apart(ns'[i], ns'[j]) {
      assert Apart(ns[i], ns[j]);
    }
  }

  /** Writing inside a file's extent changes that file's bytes and no other's. */
  lemma Filled(ns: seq<Node>, ar: seq<byte>, used: nat, id: int, off: nat, buf: seq<byte>, ns': seq<Node>,
               ar': seq<byte>)
    requires Stored(ns, ar, used) && 0 <= id < |ns| && ns[id].kind == FILE
    requires off + |buf| <= ns[id].capacity && Housed(ns[id], ar, used)
    requires ar' == Spliced(ar, ns[id].data + off, buf)
    requires ns' == ns[id := Resized(ns[id], off + |buf|)]
    ensures Stored(ns', ar', used)
    ensures Extent(ns'[id], ar') == Overlay(Extent(ns[id], ar), off, buf)
    ensures forall i :: 0 <= i < |ns| && i != id && ns[i].kind == FILE ==> Extent(ns[i], ar') == Extent(ns[i], ar)
  {
    hide Overlay, Extent, Apart;
    FilledSelf(ns[id], ar, used, off, buf);
    FilledTail(ns[id], ar, used, off, buf);
    StillApart(ns, id, ns'[id]);
    forall i | 0 <= i < |ns| && i != id
      ensures Housed(ns'[i], ar', used) && (ns[i].kind == FILE ==> Extent(ns[i], ar') == Extent(ns[i], ar))
    {
      assert Apart(ns[i], ns[id]);
      FilledOther(ns[id], ns[i], ar, used, off, buf);
    }
  }

  // ---------------------------------------------------------------------------------------
  // Effect of node updates on the abstraction
  // ---------------------------------------------------------------------------------------

  /** Two versions of a node that only differ in how it is linked. */
  ghost predicate SameInode(n: Node, ar: seq<byte>, n': Node, ar': seq<byte>) {
    n.kind == n'.kind && InodeOf(n, ar) == InodeOf(n', ar')
  }

  ghost predicate Relinked(n: Node, n': Node) {
    n' == n.(firstChild := n'.firstChild, nextSibling := n'.nextSibling)
  }

  lemma ViewPut(ns: seq<Node>, ar: seq<byte>, used: nat, ns': seq<Node>, ar': seq<byte>, used': nat, id: int)
    requires |ns| == |ns'| && 0 <= id < |ns| && ns'[id].kind != NONE
    requires forall i :: 0 <= i < |ns| && i != id && ns[i].kind != NONE ==> SameInode(ns[i], ar, ns'[i], ar')
    requires forall i :: 0 <= i < |ns| && i != id && ns[i].kind == NONE ==> ns'[i].kind == NONE
    ensures View(ns', ar', used') == FS(View(ns, ar, used).nodes[id := InodeOf(ns'[id], ar')], used')
  {
  }

  lemma ViewDrop(ns: seq<Node>, ar: seq<byte>, used: nat, ns': seq<Node>, id: int)
    requires |ns| == |ns'| && 0 <= id < |ns| && ns'[id].kind == NONE
    requires forall i :: 0 <= i < |ns| && i != id ==> Relinked(ns[i], ns'[i])
    ensures View(ns', ar, used) == FS(View(ns, ar, used).nodes - {id}, used)
  {
    forall i | 0 <= i < |ns| && i != id ensures InodeOf(ns'[i], ar) == InodeOf(ns[i], ar) {
      assert Relinked(ns[i], ns'[i]);
    }
  }

  /** A new node at the head of its parent's chain. */
  ghost function Attached(ns: seq<Node>, p: int, id: int, kind: Kind, name: Str, mode: int): seq<Node>
    requires 0 <= p < |ns| && 0 <= id < |ns| && p != id
  {
    ns[id := Node(id, p, -1, ns[p].firstChild, kind, name, -1, 0, 0, mode, 0)][p := ns[p].(firstChild := id)]
  }

  lemma AttachedChained(ns: seq<Node>, chains: seq<seq<int>>, p: int, id: int, kind: Kind, name: Str, mode: int)
    requires Linked(ns, chains) && 0 <= p < |ns| && 0 < id < |ns|
    requires ns[p].kind == DIR && ns[id].kind == NONE && kind != NONE
    ensures Chained(Attached(ns, p, id, kind, name, mode), chains[p := [id] + chains[p]][id := []])
  {
    var ns' := Attached(ns, p, id, kind, name, mode);
    var chains' := chains[p := [id] + chains[p]][id := []];
    forall q | 0 <= q < |ns| && ns'[q].kind != NONE ensures IsChain(ns', ns'[q].firstChild, chains'[q]) {
      if q != id {
        assert IsChain(ns, ns[q].firstChild, chains[q]);
        ChainFrame(ns, ns', ns[q].firstChild, chains[q]);
        if q == p { assert chains'[p][1..] == chains[p]; }
      }
    }
  }

  lemma AttachedPlaced(ns: seq<Node>, chains: seq<seq<int>>, p: int, id: int, kind: Kind, name: Str, mode: int)
    requires Placed(ns, chains) && 0 <= p < |ns| && 0 < id < |ns|
    requires ns[p].kind == DIR && ns[id].kind == NONE && kind != NONE
    ensures Placed(Attached(ns, p, id, kind, name, mode), chains[p := [id] + chains[p]][id := []])
  {
    var ns' := Attached(ns, p, id, kind, name, mode);
    var chains' := chains[p := [id] + chains[p]][id := []];
    forall q, c | 0 <= q < |ns| ensures c in chains'[q] <==> IsKid(ns', q, c) {
      assert c in chains[q] <==> IsKid(ns, q, c);
    }
  }

  lemma AttachedStored(ns: seq<Node>, ar: seq<byte>, used: nat, p: int, id: int, kind: Kind, name: Str, mode: int)
    requires Stored(ns, ar, used) && 0 <= p < |ns| && 0 <= id < |ns| && ns[p].kind == DIR && p != id
    ensures Stored(Attached(ns, p, id, kind, name, mode), ar, used)
  {
    var ns' := Attached(ns, p, id, kind, name, mode);
    forall i | 0 <= i < |ns| ensures Housed(ns'[i], ar, used) {
      assert Housed(ns[i], ar, used);
    }
    forall i, j | 0 <= i < |ns| && 0 <= j < |ns| && i != j ensures Apart(ns'[i], ns'[j]) {
      assert Apart(ns[i], ns[j]);
    }
  }

  /** A node cut out of its chain: `pred` is its predecessor, or -1 if it was first. */
  ghost function Detached(ns: seq<Node>, p: int, id: int, pred: int): seq<Node>
    requires 0 <= p < |ns| && 0 <= id < |ns| && pred < |ns|
  {
    if pred < 0 then ns[p := ns[p].(firstChild := ns[id].nextSibling)][id := ZEROED]
    else ns[pred := ns[pred].(nextSibling := ns[id].nextSibling)][id := ZEROED]
  }

  lemma DetachedOwnChain(ns: seq<Node>, p: int, ids: seq<int>, k: nat)
    requires 0 <= p < |ns| && IsChain(ns, ns[p].firstChild, ids) && k < |ids|
    requires 0 <= ids[k] < |ns| && ids[k] != p
    requires k > 0 ==> 0 <= ids[k - 1] < |ns|
    ensures var ns' := Detached(ns, p, ids[k], if k == 0 then -1 else ids[k - 1]);
            IsChain(ns', ns'[p].firstChild, ids[..k] + ids[k + 1..])
  {
    var id := ids[k];
    var ids' := ids[..k] + ids[k + 1..];
    WithoutOne(ns, ns[p].firstChild, ids, k, id);
    if k == 0 {
      assert ids' == ids[1..];
      ChainFrame(ns, Detached(ns, p, id, -1), ns[id].nextSibling, ids');
    } else {
      var mid := ns[ids[k - 1] := ns[ids[k - 1]].(nextSibling := ns[id].nextSibling)];
      ChainSplice(ns, ns[p].firstChild, ids, k);
      ChainFrame(mid, Detached(ns, p, id, ids[k - 1]), ns[p].firstChild, ids');
    }
  }

  lemma DetachedChained(ns: seq<Node>, chains: seq<seq<int>>, p: int, k: nat)
    requires Linked(ns, chains) && 0 <= p < |ns| && k < |chains[p]|
    requires ns[p].kind == DIR && chains[p][k] != p && 0 < chains[p][k] < |ns|
    requires k > 0 ==> 0 <= chains[p][k - 1] < |ns|
    ensures var pred := if k == 0 then -1 else chains[p][k - 1];
            Chained(Detached(ns, p, chains[p][k], pred), chains[p := chains[p][..k] + chains[p][k + 1..]])
  {
    hide IsChain;
    var ids, id := chains[p], chains[p][k];
    var ns' := Detached(ns, p, id, if k == 0 then -1 else ids[k - 1]);
    assert IsChain(ns, ns[p].firstChild, ids);
    DetachedOwnChain(ns, p, ids, k);
    assert id in ids && (k > 0 ==> ids[k - 1] in ids);
    forall q | 0 <= q < |ns| && q != p && ns'[q].kind != NONE ensures IsChain(ns', ns'[q].firstChild, chains[q]) {
      assert IsChain(ns, ns[q].firstChild, chains[q]);
      DisjointChains(ns, chains, p, q);
      ChainFrame(ns, ns', ns[q].firstChild, chains[q]);
    }
  }

  lemma DetachedPlaced(ns: seq<Node>, chains: seq<seq<int>>, p: int, k: nat)
    requires Linked(ns, chains) && 0 <= p < |ns| && k < |chains[p]|
    requires ns[p].kind == DIR && chains[p][k] != p && 0 < chains[p][k] < |ns| && chains[chains[p][k]] == []
    requires k > 0 ==> 0 <= chains[p][k - 1] < |ns|
    ensures var pred := if k == 0 then -1 else chains[p][k - 1];
            Placed(Detached(ns, p, chains[p][k], pred), chains[p := chains[p][..k] + chains[p][k + 1..]])
  {
    var ids, id := chains[p], chains[p][k];
    assert IsChain(ns, ns[p].firstChild, ids);
    forall c ensures c in ids[..k] + ids[k + 1..] <==> c in ids && c != id {
      WithoutOne(ns, ns[p].firstChild, ids, k, c);
    }
    PlacedWithout(ns, Detached(ns, p, id, if k == 0 then -1 else ids[k - 1]), chains, p, id, ids[..k] + ids[k + 1..]);
  }

  lemma PlacedWithout(ns: seq<Node>, ns': seq<Node>, chains: seq<seq<int>>, p: int, id: int, ids': seq<int>)
    requires Placed(ns, chains) && 0 <= p < |ns| == |ns'| && 0 < id < |ns| && id != p && chains[id] == []
    requires ns'[id].kind == NONE
    requires forall i :: 0 <= i < |ns| && i != id ==> ns'[i].kind == ns[i].kind && ns'[i].parentId == ns[i].parentId
    requires forall c :: c in ids' <==> c in chains[p] && c != id
    requires id in chains[p]
    ensures Placed(ns', chains[p := ids'])
  {
    assert IsKid(ns, p, id);
    forall q, c | 0 <= q < |ns| ensures c in chains[p := ids'][q] <==> IsKid(ns', q, c) {
      assert c in chains[q] <==> IsKid(ns, q, c);
    }
    forall c | 0 < c < |ns| && ns'[c].kind != NONE ensures ns'[c].parentId != id {
      assert c in chains[id] <==> IsKid(ns, id, c);
    }
  }

  lemma DisjointChains(ns: seq<Node>, chains: seq<seq<int>>, p: int, q: int)
    requires Placed(ns, chains) && 0 <= p < |ns| && 0 <= q < |ns| && p != q
    ensures forall c :: c in chains[p] ==> c !in chains[q]
  {
    forall c | c in chains[p] ensures c !in chains[q] {
      assert IsKid(ns, p, c);
    }
  }

  lemma WithoutOne(ns: seq<Node>, start: int, ids: seq<int>, k: nat, c: int)
    requires IsChain(ns, start, ids) && k < |ids|
    ensures c in ids[..k] + ids[k + 1..] <==> c in ids && c != ids[k]
  {
    var ids' := ids[..k] + ids[k + 1..];
    if c in ids' {
      var j :| 0 <= j < |ids'| && ids'[j] == c;
      var m := if j < k then j else j + 1;
      assert ids[m] == c;
      if c == ids[k] { ChainNoRepeats(ns, start, ids, m, k); }
    }
    if c in ids && c != ids[k] {
      var m :| 0 <= m < |ids| && ids[m] == c;
      assert ids'[if m < k then m else m - 1] == c;
    }
  }
}
