/** ARP messages and the four-entry cache ("Packet Reception" in RFC 826). */
module Arp {
  import opened Bytes
  import opened Wire
  import opened Frames

  const REQUEST: u16 := 1
  const REPLY: u16 := 2
  const NO_MAC: Mac := [0, 0, 0, 0, 0, 0]
  const BROADCAST_MAC: Mac := [255, 255, 255, 255, 255, 255]

  // ---------------------------------------------------------------------------------------
  // Messages
  // ---------------------------------------------------------------------------------------

  datatype Message = Message(oper: u16, senderMac: Mac, senderIp: u32, targetIp: u32)

  function Body(oper: u16, sha: Mac, spa: u32, tha: Mac, tpa: u32): (b: Str)
    ensures |b| == 28
  {
    [0, 1, 8, 0, 6, 4] + Put16(oper) + sha + Put32(spa) + tha + Put32(tpa)
  }

  function Frame(dst: Mac, oper: u16, sha: Mac, spa: u32, tha: Mac, tpa: u32): (f: Str)
    ensures |f| == 42
  {
    EthHeader(dst, sha, ETH_ARP) + Body(oper, sha, spa, tha, tpa)
  }

  function RequestFrame(mac: Mac, ip: u32, target: u32): Str {
    Frame(BROADCAST_MAC, REQUEST, mac, ip, NO_MAC, target)
  }

  function ReplyFrame(mac: Mac, ip: u32, targetMac: Mac, target: u32): Str {
    Frame(targetMac, REPLY, mac, ip, targetMac, target)
  }

  function ReadMessage(p: Str): Option<Message> {
    if |p| < 28 || Be16(p, 0) != 1 || Be16(p, 2) != ETH_IPV4 || p[4] != 6 || p[5] != 4 then None
    else Some(Message(Be16(p, 6), p[8..14], Be32(p, 14), Be32(p, 24)))
  }

  lemma BodyReads(oper: u16, sha: Mac, spa: u32, tha: Mac, tpa: u32, pad: Str)
    ensures ReadMessage(Body(oper, sha, spa, tha, tpa) + pad) == Some(Message(oper, sha, spa, tpa))
  {
    var p := Body(oper, sha, spa, tha, tpa) + pad;
    assert p[0] == 0 && p[1] == 1 && p[2] == 8 && p[3] == 0 && p[4] == 6 && p[5] == 4;
    assert p[6..8] == Put16(oper);
    Put16Reads(p, 6, oper);
    assert p[8..14] == sha;
    assert p[14..18] == Put32(spa);
    Put32Reads(p, 14, spa);
    assert p[24..28] == Put32(tpa);
    Put32Reads(p, 24, tpa);
  }

  /** A request on the wire, byte by byte: broadcast, with an empty target hardware address. */
  lemma RequestBytes(mac: Mac, ip: u32, target: u32)
    ensures var w := OnWire(RequestFrame(mac, ip, target));
            && |w| == 60 && w[..6] == [255, 255, 255, 255, 255, 255] && w[6..12] == mac
            && w[12..22] == [8, 6, 0, 1, 8, 0, 6, 4, 0, 1] && w[22..28] == mac && w[28..32] == Put32(ip)
            && w[32..38] == [0, 0, 0, 0, 0, 0] && w[38..42] == Put32(target)
  {
    FrameBytes(BROADCAST_MAC, 0, 1, mac, ip, NO_MAC, target);
  }

  /** A reply on the wire, to the asker in both headers. */
  lemma ReplyBytes(mac: Mac, ip: u32, targetMac: Mac, target: u32)
    ensures var w := OnWire(ReplyFrame(mac, ip, targetMac, target));
            && |w| == 60 && w[..6] == targetMac && w[6..12] == mac
            && w[12..22] == [8, 6, 0, 1, 8, 0, 6, 4, 0, 2] && w[22..28] == mac && w[28..32] == Put32(ip)
            && w[32..38] == targetMac && w[38..42] == Put32(target)
  {
    FrameBytes(targetMac, 0, 2, mac, ip, targetMac, target);
  }

  lemma FrameBytes(dst: Mac, hi: byte, lo: byte, sha: Mac, spa: u32, tha: Mac, tpa: u32)
    ensures var w := OnWire(Frame(dst, 0x100 * hi as int + lo as int, sha, spa, tha, tpa));
            && |w| == 60 && w[..6] == dst && w[6..12] == sha
            && w[12..22] == [8, 6, 0, 1, 8, 0, 6, 4, hi, lo] && w[22..28] == sha && w[28..32] == Put32(spa)
            && w[32..38] == tha && w[38..42] == Put32(tpa)
  {
    hide Put32, Put16, Frame, OnWire;
    var oper: u16 := 0x100 * hi as int + lo as int;
    var w, f := OnWire(Frame(dst, oper, sha, spa, tha, tpa)), Frame(dst, oper, sha, spa, tha, tpa);
    Put32Length(spa);
    Put32Length(tpa);
    ByteOrder(hi, lo);
    ByteOrder(8, 6);
    FrameFields(dst, oper, sha, spa, tha, tpa);
    WirePads(f);
    assert Put16(ETH_ARP) + [0, 1, 8, 0, 6, 4] + Put16(oper) == [8, 6, 0, 1, 8, 0, 6, 4, hi, lo];
    SliceOfSlice(w, 0, 42, 0, 6);
    SliceOfSlice(w, 0, 42, 6, 12);
    SliceOfSlice(w, 0, 42, 12, 22);
    SliceOfSlice(w, 0, 42, 22, 28);
    SliceOfSlice(w, 0, 42, 28, 32);
    SliceOfSlice(w, 0, 42, 32, 38);
    SliceOfSlice(w, 0, 42, 38, 42);
  }

  lemma FrameFields(dst: Mac, oper: u16, sha: Mac, spa: u32, tha: Mac, tpa: u32)
    requires |Put32(spa)| == 4 && |Put32(tpa)| == 4
    ensures var f := Frame(dst, oper, sha, spa, tha, tpa);
            && f[..6] == dst && f[6..12] == sha && f[12..22] == Put16(ETH_ARP) + [0, 1, 8, 0, 6, 4] + Put16(oper)
            && f[22..28] == sha && f[28..32] == Put32(spa) && f[32..38] == tha && f[38..42] == Put32(tpa)
  {
    hide Put32;
  }

  /** Exactly the packets that are read, and what is read from them. */
  lemma ReadsExactly(p: Str)
    ensures ReadMessage(p)
            == if |p| >= 28 && p[..6] == [0, 1, 8, 0, 6, 4]
               then Some(Message(Be16(p, 6), p[8..14], Be32(p, 14), Be32(p, 24)))
               else None
  {
    hide Be32;
    if |p| >= 28 {
      assert p[..6] == [p[0], p[1], p[2], p[3], p[4], p[5]];
    }
  }

  /** Every ARP frame the kernel sends is understood by a receiving kernel. */
  lemma FrameReads(dst: Mac, oper: u16, sha: Mac, spa: u32, tha: Mac, tpa: u32, own: u32)
    ensures var d := Demux(OnWire(Frame(dst, oper, sha, spa, tha, tpa)), own);
            d.ToArp? && ReadMessage(d.packet) == Some(Message(oper, sha, spa, tpa))
  {
    hide EthHeader, Body, ReadMessage, DemuxIp;
    var body := Body(oper, sha, spa, tha, tpa);
    assert OnWire(Frame(dst, oper, sha, spa, tha, tpa)) == EthHeader(dst, sha, ETH_ARP) + body + Zeros(18);
    EthReads(dst, sha, ETH_ARP, body, Zeros(18));
    BodyReads(oper, sha, spa, tha, tpa, Zeros(18));
  }

  // ---------------------------------------------------------------------------------------
  // Cache
  // ---------------------------------------------------------------------------------------

  const CACHE_SIZE := 4

  datatype Entry = Entry(ip: u32, mac: Mac, valid: bool, tick: nat)
  type Cache = c: seq<Entry> | |c| == CACHE_SIZE witness [EMPTY, EMPTY, EMPTY, EMPTY]

  const EMPTY := Entry(0, [0, 0, 0, 0, 0, 0], false, 0)
  const EMPTY_CACHE: Cache := [EMPTY, EMPTY, EMPTY, EMPTY]

  /** Index of the first entry that holds `ip`, or the cache size. */
  function IndexOf(c: seq<Entry>, ip: u32): (i: nat)
    ensures i <= |c| && (i < |c| ==> c[i].valid && c[i].ip == ip)
    ensures forall j :: 0 <= j < i ==> !(c[j].valid && c[j].ip == ip)
  {
    if c == [] || (c[0].valid && c[0].ip == ip) then 0 else 1 + IndexOf(c[1..], ip)
  }

  function FirstFree(c: seq<Entry>): (i: nat)
    ensures i <= |c| && (i < |c| ==> !c[i].valid)
    ensures forall j :: 0 <= j < i ==> c[j].valid
  {
    if c == [] || !c[0].valid then 0 else 1 + FirstFree(c[1..])
  }

  /** Refresh the entry of `ip`, or take the first free one, or evict the first. */
  function Learn(c: Cache, ip: u32, mac: Mac, tick: nat): Cache {
    var i := IndexOf(c, ip);
    if i < CACHE_SIZE then c[i := c[i].(mac := mac, tick := tick)]
    else c[(if FirstFree(c) == CACHE_SIZE then 0 else FirstFree(c)) := Entry(ip, mac, true, tick)]
  }

  function Find(c: Cache, ip: u32): Option<Mac> {
    if IndexOf(c, ip) < CACHE_SIZE then Some(c[IndexOf(c, ip)].mac) else None
  }

  method CacheUpdate(cache: array<Entry>, ip: u32, mac: Mac, tick: nat)
    requires cache.Length == CACHE_SIZE
    modifies cache
    ensures cache[..] == Learn(old(cache[..]), ip, mac, tick)
  {
    ghost var c := cache[..];
    var free: nat := CACHE_SIZE;
    var i := 0;
    while i < CACHE_SIZE
      invariant 0 <= i <= CACHE_SIZE && cache[..] == c
      invariant forall j :: 0 <= j < i ==> !(c[j].valid && c[j].ip == ip)
      invariant free <= CACHE_SIZE && (free < CACHE_SIZE ==> free < i && !c[free].valid)
      invariant forall j :: 0 <= j < i && j < free ==> c[j].valid
    {
      if cache[i].valid && cache[i].ip == ip {
        IndexIs(c, ip, i);
        cache[i] := cache[i].(mac := mac, tick := tick);
        return;
      }
      if !cache[i].valid && free == CACHE_SIZE {
        free := i;
      }
      i := i + 1;
    }
    IndexIs(c, ip, CACHE_SIZE);
    FreeIs(c, free);
    if free == CACHE_SIZE {
      free := 0;
    }
    cache[free] := Entry(ip, mac, true, tick);
  }

  lemma IndexIs(c: Cache, ip: u32, i: nat)
    requires i <= CACHE_SIZE && (i < CACHE_SIZE ==> c[i].valid && c[i].ip == ip)
    requires forall j :: 0 <= j < i ==> !(c[j].valid && c[j].ip == ip)
    ensures IndexOf(c, ip) == i
  {
    hide IndexOf;
  }

  lemma FreeIs(c: Cache, i: nat)
    requires i <= CACHE_SIZE && (i < CACHE_SIZE ==> !c[i].valid)
    requires forall j :: 0 <= j < i ==> c[j].valid
    ensures FirstFree(c) == i
  {
    hide FirstFree;
  }

  method CacheLookup(cache: array<Entry>, ip: u32) returns (r: Option<Mac>)
    requires cache.Length == CACHE_SIZE
    ensures r == Find(cache[..], ip)
  {
    var i := 0;
    while i < CACHE_SIZE
      invariant 0 <= i <= CACHE_SIZE
      invariant forall j :: 0 <= j < i ==> !(cache[j].valid && cache[j].ip == ip)
    {
      if cache[i].valid && cache[i].ip == ip {
        IndexIs(cache[..], ip, i);
        return Some(cache[i].mac);
      }
      i := i + 1;
    }
    IndexIs(cache[..], ip, CACHE_SIZE);
    return None;
  }

  // ---------------------------------------------------------------------------------------
  // Runs
  // ---------------------------------------------------------------------------------------

  datatype Announcement = Announcement(ip: u32, mac: Mac, tick: nat)

  function CacheAfter(heard: seq<Announcement>): Cache {
    if heard == [] then EMPTY_CACHE
    else Learn(CacheAfter(DropLast(heard)), Last(heard).ip, Last(heard).mac, Last(heard).tick)
  }

  function LastHeard(heard: seq<Announcement>, ip: u32): Option<Mac> {
    if heard == [] then None
    else if Last(heard).ip == ip then Some(Last(heard).mac)
    else LastHeard(DropLast(heard), ip)
  }

  /** Valid entries form a prefix and hold distinct addresses. */
  predicate Tidy(c: Cache) {
    && (forall i, j :: 0 <= i < j < CACHE_SIZE && c[j].valid ==> c[i].valid)
    && (forall i, j :: 0 <= i < j < CACHE_SIZE && c[i].valid && c[j].valid ==> c[i].ip != c[j].ip)
  }

  lemma LearnKeepsTidy(c: Cache, ip: u32, mac: Mac, tick: nat)
    requires Tidy(c)
    ensures Tidy(Learn(c, ip, mac, tick))
  {
    hide IndexOf, FirstFree;
  }

  /** Learning makes the newest address known, even when the cache was full, and never changes
      another hit. */
  lemma LearnFinds(c: Cache, ip: u32, mac: Mac, tick: nat, other: u32)
    requires Tidy(c)
    ensures Find(Learn(c, ip, mac, tick), ip) == Some(mac)
    ensures other != ip && Find(Learn(c, ip, mac, tick), other).Some? ==>
            Find(Learn(c, ip, mac, tick), other) == Find(c, other)
  {
    hide IndexOf, FirstFree;
    LearnKeepsTidy(c, ip, mac, tick);
    var c' := Learn(c, ip, mac, tick);
    var at := if IndexOf(c, ip) < CACHE_SIZE then IndexOf(c, ip)
              else if FirstFree(c) == CACHE_SIZE then 0 else FirstFree(c);
    assert c'[at].valid && c'[at].ip == ip && c'[at].mac == mac;
    var m, k := IndexOf(c', ip), IndexOf(c', other);
    assert m <= at;
    if other != ip && k < CACHE_SIZE {
      assert c'[k] == c[k];
    }
  }

  /** Learning costs nobody else a hit unless the cache is full of others; then only the first
      slot's address is forgotten. */
  lemma LearnForgets(c: Cache, ip: u32, mac: Mac, tick: nat, other: u32)
    requires Tidy(c) && other != ip && Find(c, other).Some?
    ensures var full := c[3].valid && Find(c, ip) == None;
            Find(Learn(c, ip, mac, tick), other) == if full && c[0].ip == other then None else Find(c, other)
  {
    hide IndexOf, FirstFree;
    LearnKeepsTidy(c, ip, mac, tick);
    var c' := Learn(c, ip, mac, tick);
    var m, k := IndexOf(c, other), IndexOf(c', other);
    var at := if IndexOf(c, ip) < CACHE_SIZE then IndexOf(c, ip)
              else if FirstFree(c) == CACHE_SIZE then 0 else FirstFree(c);
    assert forall j :: 0 <= j < CACHE_SIZE && j != at ==> c'[j] == c[j];
    assert c'[at].valid && c'[at].ip == ip;
    assert FirstFree(c) == CACHE_SIZE <==> c[3].valid;
    if m != at {
      assert c'[m] == c[m];
    }
  }

  /** In every run the cache is tidy, and a hit is always the address last announced. */
  lemma {:induction false} HitsAreLatest(heard: seq<Announcement>, ip: u32)
    ensures Tidy(CacheAfter(heard))
    ensures Find(CacheAfter(heard), ip).Some? ==> Find(CacheAfter(heard), ip) == LastHeard(heard, ip)
  {
    hide Find, Learn, Tidy;
    if heard == [] {
      NothingFound(ip);
    } else {
      var a := Last(heard);
      HitsAreLatest(DropLast(heard), ip);
      LearnKeepsTidy(CacheAfter(DropLast(heard)), a.ip, a.mac, a.tick);
      LearnFinds(CacheAfter(DropLast(heard)), a.ip, a.mac, a.tick, ip);
    }
  }

  lemma NothingFound(ip: u32)
    ensures Tidy(EMPTY_CACHE) && Find(EMPTY_CACHE, ip) == None
  {
    hide IndexOf;
  }

  // ---------------------------------------------------------------------------------------
  // Two hosts
  // ---------------------------------------------------------------------------------------

  /** What a frame teaches the host that receives it. */
  function Hear(c: Cache, own: u32, frame: Str, tick: nat): Cache {
    match Demux(frame, own)
    case ToArp(p) =>
      (match ReadMessage(p)
       case Some(m) => Learn(c, m.senderIp, m.senderMac, tick)
       case None => c)
    case _ => c
  }

  /** The sender of a well-formed ARP frame. */
  function Sender(own: u32, frame: Str): Option<Message> {
    match Demux(frame, own)
    case ToArp(p) => ReadMessage(p)
    case _ => None
  }

  /** What frames heard within one tick teach. */
  function HearAll(c: Cache, own: u32, frames: seq<Str>, tick: nat): Cache {
    if frames == [] then c else Hear(HearAll(c, own, DropLast(frames), tick), own, Last(frames), tick)
  }

  lemma {:induction false} HearAllConcat(c: Cache, own: u32, a: seq<Str>, b: seq<Str>, tick: nat)
    ensures HearAll(c, own, a + b, tick) == HearAll(HearAll(c, own, a, tick), own, b, tick)
    decreases |b|
  {
    hide Hear;
    if b == [] {
      assert a + b == a;
    } else {
      assert DropLast(a + b) == a + DropLast(b) && Last(a + b) == Last(b);
      HearAllConcat(c, own, a, DropLast(b), tick);
    }
  }

  /** The hardware address in the last well-formed ARP frame from `ip`. */
  function LastSender(own: u32, frames: seq<Str>, ip: u32): Option<Mac> {
    if frames == [] then None
    else
      var m := Sender(own, Last(frames));
      if m.Some? && m.value.senderIp == ip then Some(m.value.senderMac) else LastSender(own, DropLast(frames), ip)
  }

  /** Whatever frames arrive at a tidy cache, it stays tidy, and a hit is the sender of the last
      well-formed ARP frame from that address, or the hit there was when none came. */
  lemma {:induction false} FramesHitLatest(c: Cache, own: u32, frames: seq<Str>, tick: nat, ip: u32)
    requires Tidy(c)
    ensures Tidy(HearAll(c, own, frames, tick))
    ensures var hit := Find(HearAll(c, own, frames, tick), ip);
            hit.Some? ==> hit == if LastSender(own, frames, ip).Some? then LastSender(own, frames, ip) else Find(c, ip)
  {
    hide Find, Learn, Tidy, Demux, ReadMessage;
    if frames != [] {
      FramesHitLatest(c, own, DropLast(frames), tick, ip);
      var m := Sender(own, Last(frames));
      if m.Some? {
        var before := HearAll(c, own, DropLast(frames), tick);
        LearnKeepsTidy(before, m.value.senderIp, m.value.senderMac, tick);
        LearnFinds(before, m.value.senderIp, m.value.senderMac, tick, ip);
      }
    }
  }

  /** The reply a frame calls for: only requests for the host's own address are answered. */
  function Answer(mac: Mac, own: u32, frame: Str): Option<Str> {
    match Demux(frame, own)
    case ToArp(p) =>
      (match ReadMessage(p)
       case Some(m) =>
         if m.oper == REQUEST && m.targetIp == own then Some(ReplyFrame(mac, own, m.senderMac, m.senderIp)) else None
       case None => None)
    case _ => None
  }

  /** Only a request for the host's own address is answered, with a reply to its sender. */
  lemma AnswersExactly(mac: Mac, own: u32, frame: Str)
    ensures Answer(mac, own, frame)
            == match Sender(own, frame)
               case Some(m) =>
                 if m.oper == 1 && m.targetIp == own then Some(ReplyFrame(mac, own, m.senderMac, m.senderIp)) else None
               case None => None
  {
    hide Demux, ReadMessage, ReplyFrame;
  }

  /** A asks for B: B learns A and answers, A hears the answer and learns B, whatever both
      caches held, full or not; and the exchange ends there. */
  lemma Exchange(macA: Mac, ipA: u32, a: Cache, macB: Mac, ipB: u32, b: Cache, tick: nat)
    requires Tidy(a) && Tidy(b)
    ensures var request := OnWire(RequestFrame(macA, ipA, ipB));
            && Find(Hear(b, ipB, request, tick), ipA) == Some(macA)
            && Answer(macB, ipB, request).Some?
            && var reply := OnWire(Answer(macB, ipB, request).value);
               && Find(Hear(a, ipA, reply, tick), ipB) == Some(macB)
               && Answer(macA, ipA, reply) == None
  {
    hide Find, Learn, Demux, OnWire, Frame, ReadMessage, Tidy;
    FrameReads(BROADCAST_MAC, REQUEST, macA, ipA, NO_MAC, ipB, ipB);
    LearnFinds(b, ipA, macA, tick, ipA);
    FrameReads(macA, REPLY, macB, ipB, macA, ipA, ipA);
    LearnFinds(a, ipB, macB, tick, ipB);
  }
}
