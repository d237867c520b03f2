/** The network stack as the kernel runs it: frames built in byte buffers, received frames
    changing the ARP cache, the lease and the ping state, and the DHCP client on top. */
module Net {
  import opened Bytes
  import opened Wire
  import opened Frames
  import Arp
  import opened Dhcp
  import opened Negotiation

  // ---------------------------------------------------------------------------------------
  // Filling frame buffers
  // ---------------------------------------------------------------------------------------

  /** `kmemcpy`, `be16_store` and `be32_store` into a frame. */
  method Store(frame: array<byte>, at: nat, s: Str)
    requires at + |s| <= frame.Length
    modifies frame
    ensures forall j :: 0 <= j < frame.Length ==> frame[j] == if at <= j < at + |s| then s[j - at] else old(frame[j])
  {
    var i := 0;
    while i < |s|
      invariant 0 <= i <= |s|
      invariant forall j :: at <= j < at + i ==> frame[j] == s[j - at]
      invariant forall j :: (0 <= j < at || at + i <= j < frame.Length) ==> frame[j] == old(frame[j])
    {
      frame[at + i] := s[i];
      i := i + 1;
    }
  }

  method FillEthernet(frame: array<byte>, dst: Mac, src: Mac, kind: u16)
    requires frame.Length >= 14
    modifies frame
    ensures frame[..14] == EthHeader(dst, src, kind) && frame[14..] == old(frame[14..])
  {
    Store(frame, 0, dst);
    Store(frame, 6, src);
    Store(frame, 12, Put16(kind));
  }

  /** Write an IPv4 header into a zeroed stretch, checksum last. */
  method FillIp(frame: array<byte>, total: u16, ident: u16, proto: byte, src: u32, dst: u32)
    requires frame.Length >= 34 && forall j :: 14 <= j < 34 ==> frame[j] == 0
    modifies frame
    ensures frame[14..34] == IpHeader(total, ident, proto, src, dst)
    ensures frame[..14] == old(frame[..14]) && frame[34..] == old(frame[34..])
  {
    hide Checksum;
    FillIpBlank(frame, total, ident, proto, src, dst);
    var c := Checksum16(frame[14..34]);
    ghost var h := frame[14..34];
    Store(frame, 24, Put16(c));
    assert frame[14..34] == h[..10] + Put16(c) + h[12..];
  }

  method FillIpBlank(frame: array<byte>, total: u16, ident: u16, proto: byte, src: u32, dst: u32)
    requires frame.Length >= 34 && forall j :: 14 <= j < 34 ==> frame[j] == 0
    modifies frame
    ensures frame[14..34] == IpBlank(total, ident, proto, src, dst)
    ensures frame[..14] == old(frame[..14]) && frame[34..] == old(frame[34..])
  {
    FillIpFront(frame, total, ident, proto);
    ghost var front := [0x45, 0, total / 0x100, total % 0x100, ident / 0x100, ident % 0x100, 0, 0, 64, proto, 0, 0];
    assert frame[14..26] == front;
    ghost var before := frame[..];
    Store(frame, 26, Put32(src) + Put32(dst));
    assert frame[14..26] == before[14..26];
    assert frame[14..34] == frame[14..26] + (Put32(src) + Put32(dst));
  }

  method FillIpFront(frame: array<byte>, total: u16, ident: u16, proto: byte)
    requires frame.Length >= 34 && forall j :: 14 <= j < 34 ==> frame[j] == 0
    modifies frame
    ensures frame[14] == 0x45 && frame[15] == 0 && frame[16] == total / 0x100 && frame[17] == total % 0x100
    ensures frame[18] == ident / 0x100 && frame[19] == ident % 0x100 && frame[20] == 0 && frame[21] == 0
    ensures frame[22] == 64 && frame[23] == proto && frame[24] == 0 && frame[25] == 0
    ensures forall j :: 0 <= j < 14 || 26 <= j < frame.Length ==> frame[j] == old(frame[j])
  {
    frame[14] := 0x45;
    frame[15] := 0;
    frame[16], frame[17] := total / 0x100, total % 0x100;
    frame[18], frame[19] := ident / 0x100, ident % 0x100;
    frame[20], frame[21] := 0, 0;
    frame[22] := 64;
    frame[23] := proto;
  }

  /** `ip_send_udp` without the final hand-over to the driver. */
  method BuildUdp(dstMac: Mac, srcMac: Mac, ident: u16, src: u32, dst: u32, srcPort: u16, dstPort: u16, payload: Str)
    returns (frame: array<byte>)
    requires |payload| <= MAX_PAYLOAD
    ensures fresh(frame) && frame[..] == UdpFrame(dstMac, srcMac, ident, src, dst, srcPort, dstPort, payload)
  {
    frame := new byte[42 + |payload|](_ => 0);
    FillEthernet(frame, dstMac, srcMac, ETH_IPV4);
    assert forall j :: 14 <= j < 34 ==> frame[j] == frame[14..][j - 14] == 0;
    FillIp(frame, 28 + |payload|, ident, PROTO_UDP, src, dst);
    FillUdp(frame, srcPort, dstPort, payload);
    assert frame[..] == frame[..14] + (frame[14..34] + frame[34..]);
  }

  method FillUdp(frame: array<byte>, srcPort: u16, dstPort: u16, payload: Str)
    requires frame.Length == 42 + |payload| && |payload| <= MAX_PAYLOAD
    modifies frame
    ensures frame[34..] == UdpHeader(srcPort, dstPort, 8 + |payload|) + payload
    ensures frame[..34] == old(frame[..34])
  {
    Store(frame, 34, Put16(srcPort));
    Store(frame, 36, Put16(dstPort));
    Store(frame, 38, Put16(8 + |payload|));
    Store(frame, 40, [0, 0]);
    Store(frame, 42, payload);
  }

  // ---------------------------------------------------------------------------------------
  // Receiving
  // ---------------------------------------------------------------------------------------

  method ClassifyIp(p: Str, own: u32) returns (d: Delivery)
    requires |p| <= 0xFFFF
    ensures d == DemuxIp(p, own)
  {
    hide Checksum, DemuxUdp, Be16, Be32, HeaderLength;
    if |p| < 20 {
      return Dropped;
    }
    FirstByte(p);
    Fragmented(p);
    var ihl := HeaderLength(p);
    if p[0] / 16 != 4 || ihl < 20 || |p| < ihl {
      return Dropped;
    }
    var total := Be16(p, 2);
    if total < ihl || total > |p| {
      return Dropped;
    }
    var c := Checksum16(p[..ihl]);
    if c != 0 {
      return Dropped;
    }
    if Be16(p, 6) % 0x4000 != 0 {
      return Dropped;
    }
    var dst := Be32(p, 16);
    if p[9] == PROTO_UDP {
      if !(dst == own || dst == IP_BROADCAST || own == IP_ANY) {
        return Dropped;
      }
    } else if dst != own {
      return Dropped;
    }
    if p[9] == PROTO_ICMP {
      return ToIcmp(p[..total]);
    }
    if p[9] == PROTO_UDP {
      return DemuxUdp(p[..total]);
    }
    return Dropped;
  }

  /** Version 4 and at least five words of header. */
  lemma FirstByte(p: Str)
    requires p != []
    ensures p[0] / 16 != 4 || HeaderLength(p) < 20 <==> p[0] < 0x45 || p[0] > 0x4F
  {
  }

  /** The low 14 bits are zero: neither more fragments nor an offset. */
  lemma Fragmented(p: Str)
    requires |p| >= 20
    ensures Be16(p, 6) % 0x4000 != 0 <==> p[6] % 0x40 != 0 || p[7] != 0
  {
  }

  method Classify(frame: Str, own: u32) returns (d: Delivery)
    requires |frame| <= 0xFFFF
    ensures d == Demux(frame, own)
  {
    if |frame| < 14 {
      return Dropped;
    }
    if Be16(frame, 12) == ETH_ARP {
      return ToArp(frame[14..]);
    }
    if Be16(frame, 12) == ETH_IPV4 {
      d := ClassifyIp(frame[14..], own);
      return;
    }
    return Dropped;
  }

  datatype Ping = Ping(active: bool, ident: u16, sequence: u16, received: bool, ttl: byte)

  /** An echo reply counts when its checksum, identifier and sequence number are right. */
  function PingAfter(w: Ping, p: Str): Ping
    requires |p| >= 20
  {
    var ihl := HeaderLength(p);
    if ihl < 20 || |p| < ihl + 8 || Checksum(p[ihl..]) != 0 then w
    else if p[ihl] == 0 && w.active && w.ident == Be16(p, ihl + 4) && w.sequence == Be16(p, ihl + 6) then
      w.(received := true, ttl := p[8])
    else w
  }

  /** Exactly the messages that answer a ping: sound by their checksum, of type 0, with the
      identifier and sequence number waited for. */
  lemma PingAnswered(w: Ping, p: Str)
    requires |p| >= 20
    ensures var ihl := 4 * (p[0] % 16);
            PingAfter(w, p)
            == if 20 <= ihl && ihl + 8 <= |p| && OnesSum(p[ihl..]) == 0xFFFF && p[ihl] == 0 && w.active
                  && Be16(p, ihl + 4) == w.ident && Be16(p, ihl + 6) == w.sequence
               then w.(received := true, ttl := p[8])
               else w
  {
    hide OnesSum;
  }

  function PingFrame(w: Ping, own: u32, frame: Str): Ping {
    match Demux(frame, own)
    case ToIcmp(p) => if |p| >= 20 then PingAfter(w, p) else w
    case _ => w
  }

  function Sent(answer: Option<Str>): seq<Str> {
    match answer
    case Some(f) => [OnWire(f)]
    case None => []
  }

  /** The replies a run of frames calls for, in order. */
  function Answers(mac: Mac, own: u32, frames: seq<Str>): seq<Str> {
    if frames == [] then [] else Answers(mac, own, DropLast(frames)) + Sent(Arp.Answer(mac, own, Last(frames)))
  }

  lemma {:induction false} AnswersConcat(mac: Mac, own: u32, a: seq<Str>, b: seq<Str>)
    ensures Answers(mac, own, a + b) == Answers(mac, own, a) + Answers(mac, own, b)
    decreases |b|
  {
    hide Sent, Arp.Answer;
    if b == [] {
      assert a + b == a;
    } else {
      assert DropLast(a + b) == a + DropLast(b) && Last(a + b) == Last(b);
      AnswersConcat(mac, own, a, DropLast(b));
      Regroup(Answers(mac, own, a), Answers(mac, own, DropLast(b)), Sent(Arp.Answer(mac, own, Last(b))));
    }
  }

  /** No answer sent while negotiating is a UDP frame: all are ARP replies. */
  lemma {:induction false} AnswersAreArp(mac: Mac, own: u32, frames: seq<Str>, i: nat)
    requires i < |Answers(mac, own, frames)|
    ensures |Answers(mac, own, frames)[i]| >= 14 && Be16(Answers(mac, own, frames)[i], 12) == ETH_ARP
    decreases |frames|
  {
    hide Demux;
    var before := Answers(mac, own, DropLast(frames));
    if i < |before| {
      AnswersAreArp(mac, own, DropLast(frames), i);
    } else {
      AnswerIsArp(mac, own, Last(frames));
    }
  }

  lemma AnswerIsArp(mac: Mac, own: u32, frame: Str)
    requires Arp.Answer(mac, own, frame).Some?
    ensures var w := OnWire(Arp.Answer(mac, own, frame).value); |w| >= 14 && Be16(w, 12) == ETH_ARP
  {
    hide Demux, EthHeader, Arp.Body;
    var p := Demux(frame, own).packet;
    var m := Arp.ReadMessage(p).value;
    var body := Arp.Body(Arp.REPLY, mac, own, m.senderMac, m.senderIp);
    EthReads(m.senderMac, mac, ETH_ARP, body, Zeros(18));
    assert OnWire(Arp.Answer(mac, own, frame).value) == EthHeader(m.senderMac, mac, ETH_ARP) + body + Zeros(18);
  }

  class Stack {
    const mac: Mac
    const cache: array<Arp.Entry>
    var ready: bool
    var ipAddr: u32
    var ipGw: u32
    var ipMask: u32
    var lease: Lease
    var ping: Ping
    /** Every frame handed to the wire so far. */
    var wire: seq<Str>

    ghost predicate Valid()
      reads this, cache
    {
      cache.Length == Arp.CACHE_SIZE && Arp.Tidy(cache[..])
    }

    constructor (mac: Mac)
      ensures Valid() && this.mac == mac && !ready && ipAddr == IP_ANY && ipGw == DEFAULT_GW && ipMask == DEFAULT_MASK
      ensures cache[..] == Arp.EMPTY_CACHE && lease == NO_LEASE && wire == []
    {
      this.mac := mac;
      cache := new Arp.Entry[Arp.CACHE_SIZE](_ => Arp.EMPTY);
      ready, ipAddr, ipGw, ipMask := false, IP_ANY, DEFAULT_GW, DEFAULT_MASK;
      lease, ping, wire := NO_LEASE, Ping(false, 0, 0, false, 0), [];
    }

    method SendRaw(frame: Str) returns (r: int)
      modifies this`wire
      ensures r == (if !ready || frame == [] || |frame| > 2048 then -1 else 0)
      ensures wire == old(wire) + (if r == 0 then [OnWire(frame)] else [])
    {
      if !ready || frame == [] || |frame| > 2048 {
        return -1;
      }
      wire := wire + [OnWire(frame)];
      return 0;
    }

    method SendUdp(src: u32, dst: u32, srcPort: u16, dstPort: u16, payload: Str, dstMac: Mac, now: nat) returns (r: int)
      modifies this`wire
      ensures r == (if |payload| > MAX_PAYLOAD || !ready then -1 else 0)
      ensures r != 0 ==> wire == old(wire)
      ensures r == 0 ==>
                wire == old(wire) + [OnWire(UdpFrame(dstMac, mac, now % 0x1_0000, src, dst, srcPort, dstPort, payload))]
    {
      if |payload| > MAX_PAYLOAD {
        return -1;
      }
      var frame := BuildUdp(dstMac, mac, now % 0x1_0000, src, dst, srcPort, dstPort, payload);
      r := SendRaw(frame[..]);
    }

    /** One received frame: what it does to each part of the state, and that it does nothing
        to the address configuration. */
    method ProcessFrame(frame: Str, now: nat)
      requires Valid() && ready && |frame| <= 1792
      modifies cache, this`wire, this`lease, this`ping
      ensures Valid() && wire == old(wire) + Sent(Arp.Answer(mac, ipAddr, frame))
      ensures cache[..] == Arp.Hear(old(cache[..]), ipAddr, frame, now)
      ensures lease == ReceiveFrame(old(lease), mac, ipAddr, frame)
      ensures ping == PingFrame(old(ping), ipAddr, frame)
    {
      hide Demux, Receive, Checksum, Arp.Tidy, Arp.Learn, OnWire, Arp.Frame;
      var d := Classify(frame, ipAddr);
      match d {
        case Dropped =>
        case ToArp(p) =>
          var m := Arp.ReadMessage(p);
          if m.Some? {
            Arp.LearnKeepsTidy(cache[..], m.value.senderIp, m.value.senderMac, now);
            Arp.CacheUpdate(cache, m.value.senderIp, m.value.senderMac, now);
            if m.value.oper == Arp.REQUEST && m.value.targetIp == ipAddr {
              var _ := SendRaw(Arp.ReplyFrame(mac, ipAddr, m.value.senderMac, m.value.senderIp));
            }
          }
        case ToIcmp(p) =>
          if |p| >= 20 {
            ping := PingAfter(ping, p);
          }
        case ToDhcp(p) =>
          lease := Receive(lease, mac, p);
      }
    }

    /** Everything that arrived between two looks at the receive ring. */
    method Poll(frames: seq<Str>, now: nat)
      requires Valid() && ready && Short(frames)
      modifies cache, this`wire, this`lease, this`ping
      ensures Valid() && wire == old(wire) + Answers(mac, ipAddr, frames)
      ensures lease == LeaseAfter(old(lease), mac, ipAddr, frames)
      ensures cache[..] == Arp.HearAll(old(cache[..]), ipAddr, frames, now)
    {
      hide ReceiveFrame, Sent, Arp.Tidy, Arp.Hear;
      var i := 0;
      assert frames[..0] == [];
      while i < |frames|
        invariant 0 <= i <= |frames| && Valid()
        invariant wire == old(wire) + Answers(mac, ipAddr, frames[..i])
        invariant lease == LeaseAfter(old(lease), mac, ipAddr, frames[..i])
        invariant cache[..] == Arp.HearAll(old(cache[..]), ipAddr, frames[..i], now)
      {
        assert DropLast(frames[..i + 1]) == frames[..i];
        ProcessFrame(frames[i], now);
        i := i + 1;
      }
      assert frames[..i] == frames;
    }

    /** Poll until a look at the ring leaves the lease showing what is awaited or time is up;
        `polls` holds what each look delivers. Returns whether it did. */
    method Await(polls: seq<seq<Str>>, forAck: bool, now: nat) returns (found: bool)
      requires Valid() && ready && forall k :: 0 <= k < |polls| ==> Short(polls[k])
      modifies cache, this`wire, this`lease, this`ping
      ensures Valid()
      ensures found <==> polls != [] && Shows(lease, forAck)
      ensures var heard := Heard(old(lease), mac, ipAddr, polls, forAck);
              && wire == old(wire) + Answers(mac, ipAddr, heard)
              && lease == LeaseAfter(old(lease), mac, ipAddr, heard)
              && cache[..] == Arp.HearAll(old(cache[..]), ipAddr, heard, now)
    {
      hide LeaseAfter, Answers, Arp.HearAll, Arp.Tidy, Short, Consumed;
      ghost var start, sent, known: Arp.Cache := lease, wire, cache[..];
      NothingHeard(start, mac, ipAddr, known, now);
      var k := 0;
      assert Flat(polls[..0]) == [];
      while k < |polls|
        invariant 0 <= k <= |polls| && Valid()
        invariant wire == sent + Answers(mac, ipAddr, Flat(polls[..k]))
        invariant lease == LeaseAfter(start, mac, ipAddr, Flat(polls[..k]))
        invariant cache[..] == Arp.HearAll(known, ipAddr, Flat(polls[..k]), now)
        invariant k > 0 ==> !Shows(lease, forAck)
        invariant Consumed(start, mac, ipAddr, polls, forAck, 0) == Consumed(start, mac, ipAddr, polls, forAck, k)
      {
        ghost var heard := Flat(polls[..k]);
        Poll(polls[k], now);
        LeaseAfterConcat(start, mac, ipAddr, heard, polls[k]);
        AnswersConcat(mac, ipAddr, heard, polls[k]);
        Arp.HearAllConcat(known, ipAddr, heard, polls[k], now);
        assert DropLast(polls[..k + 1]) == polls[..k];
        ConsumedStep(start, mac, ipAddr, polls, forAck, k);
        k := k + 1;
        if Shows(lease, forAck) {
          return true;
        }
      }
      ConsumedAll(start, mac, ipAddr, polls, forAck);
      return false;
    }

    method SendDiscover(now: nat) returns (r: int)
      requires ready
      modifies this`wire
      ensures r == 0 && wire == old(wire) + [DiscoverFrame(mac, lease.xid, now)]
    {
      r := SendUdp(IP_ANY, IP_BROADCAST, PORT_DHCP_CLIENT, PORT_DHCP_SERVER, DiscoverPayload(lease.xid, mac),
                   Arp.BROADCAST_MAC, now);
    }

    method SendRequest(now: nat) returns (r: int)
      requires ready
      modifies this`wire
      ensures r == (if !lease.gotOffer || lease.serverIp == 0 || lease.offeredIp == 0 then -1 else 0)
      ensures wire == old(wire) + (if r == 0 then [RequestFrame(mac, lease, now)] else [])
    {
      if !lease.gotOffer || lease.serverIp == 0 || lease.offeredIp == 0 {
        return -1;
      }
      r := SendUdp(IP_ANY, IP_BROADCAST, PORT_DHCP_CLIENT, PORT_DHCP_SERVER,
                   RequestPayload(lease.xid, mac, lease.offeredIp, lease.serverIp), Arp.BROADCAST_MAC, now);
    }

    /** The first half of `net_dhcp_acquire`: a fresh transaction, the DISCOVER, and the wait for
        an OFFER. */
    method Discover(now: nat, a: Arrivals)
      requires Valid() && ready && AllShort(a)
      modifies cache, this`wire, this`lease, this`ping
      ensures Valid() && lease == Offered(mac, ipAddr, now, a)
      ensures wire
              == old(wire) + [DiscoverFrame(mac, Xid(now), now)] + Answers(mac, ipAddr, Before(mac, ipAddr, now, a))
      ensures cache[..] == Arp.HearAll(old(cache[..]), ipAddr, Before(mac, ipAddr, now, a), now)
    {
      hide LeaseAfter, Answers, DiscoverFrame, Heard, Arp.HearAll, Arp.Tidy, Short, Xid;
      ghost var known: Arp.Cache := cache[..];
      lease := Fresh(now);
      var _ := SendDiscover(now);
      ghost var first := Heard(Fresh(now), mac, ipAddr, a.discovering, false);
      var _ := Await(a.discovering, false, now);
      Poll(a.between, now);
      LeaseAfterConcat(Fresh(now), mac, ipAddr, first, a.between);
      AnswersConcat(mac, ipAddr, first, a.between);
      Arp.HearAllConcat(known, ipAddr, first, a.between, now);
    }

    /** `net_dhcp_acquire` against any arrivals; `now` and `later` are the tick counts at the
        DISCOVER and the REQUEST. Whether it succeeds, what goes on the wire, and the state it
        leaves are fixed by the arrivals alone. */
    method Acquire(now: nat, later: nat, a: Arrivals) returns (ok: bool)
      requires Valid() && AllShort(a)
      modifies cache, this`wire, this`lease, this`ping, this`ipAddr, this`ipGw, this`ipMask
      ensures Valid()
      ensures ok <==> ready && Succeeds(mac, old(ipAddr), now, a)
      ensures !ready ==> wire == old(wire) && lease == old(lease) && cache[..] == old(cache[..])
      ensures ready ==> wire == old(wire) + Said(mac, old(ipAddr), now, later, a)
      ensures ready ==> lease == Ended(mac, old(ipAddr), now, a).(active := false)
      ensures ready ==>
                var known := Arp.HearAll(old(cache[..]), old(ipAddr), Before(mac, old(ipAddr), now, a), now);
                cache[..] == Arp.HearAll(known, old(ipAddr), After(mac, old(ipAddr), now, a), later)
      ensures !ok ==> ipAddr == old(ipAddr) && ipGw == old(ipGw) && ipMask == old(ipMask)
      ensures ok ==>
                && ipAddr == lease.offeredIp
                && ipMask == (if lease.mask != 0 then lease.mask else DEFAULT_MASK)
                && ipGw == (if lease.router != 0 then lease.router else DEFAULT_GW)
                && Bound(mac, old(ipAddr), now, Before(mac, old(ipAddr), now, a), After(mac, old(ipAddr), now, a),
                         ipAddr, ipMask, ipGw)
    {
      hide LeaseAfter, Answers, Bound, DiscoverFrame, RequestFrame, Before, Offered, Heard, Shows, Short, Xid,
           Arp.HearAll, Arp.Tidy;
      if !ready {
        return false;
      }
      ghost var own := ipAddr;
      Discover(now, a);
      if !lease.gotOffer {
        NothingHeard(lease, mac, own, cache[..], later);
        lease := lease.(active := false);
        return false;
      }
      var r := SendRequest(later);
      if r != 0 {
        NothingHeard(lease, mac, own, cache[..], later);
        lease := lease.(active := false);
        return false;
      }
      var acked := Await(a.requesting, true, later);
      ShowsAck(lease);
      if acked {
        ipAddr := lease.offeredIp;
        ipMask := if lease.mask != 0 then lease.mask else DEFAULT_MASK;
        ipGw := if lease.router != 0 then lease.router else DEFAULT_GW;
        BoundBy(mac, own, now, a);
        lease := lease.(active := false);
        return true;
      }
      lease := lease.(active := false);
      return false;
    }
  }

  /** The messages of a negotiation: the DISCOVER, and if it comes to that the REQUEST, each
      followed by answers to what came in. */
  function Said(mac: Mac, own: u32, now: nat, later: nat, a: Arrivals): seq<Str> {
    [DiscoverFrame(mac, Xid(now), now)] + Answers(mac, own, Before(mac, own, now, a))
    + (if CanRequest(Offered(mac, own, now, a)) then
         [RequestFrame(mac, Offered(mac, own, now, a), later)] + Answers(mac, own, After(mac, own, now, a))
       else [])
  }

  lemma NothingHeard(l: Lease, mac: Mac, own: u32, c: Arp.Cache, tick: nat)
    ensures LeaseAfter(l, mac, own, []) == l && Answers(mac, own, []) == [] && Arp.HearAll(c, own, [], tick) == c
  {
  }
}
