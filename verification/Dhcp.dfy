/** The DHCP client: option parsing (sections 2, 3.1, 3.2, 9.6 and 9.7 of RFC 2132), message
    payloads, and what any sequence of received frames does to the lease being negotiated
    (sections 3.1 and 4.4.1 of RFC 2131). */
module Dhcp {
  import opened Bytes
  import opened Wire
  import opened Frames

  const COOKIE: u32 := 0x6382_5363
  const DEFAULT_GW: u32 := 0x0A00_0202
  const DEFAULT_MASK: u32 := 0xFFFF_FF00

  const OPT_MASK := 1
  const OPT_ROUTER := 3
  const OPT_REQ_IP := 50
  const OPT_TYPE := 53
  const OPT_SERVER := 54
  const OPT_PARAMS := 55
  const OPT_END := 255

  const DISCOVER := 1
  const OFFER := 2
  const REQUEST := 3
  const ACK := 5

  // ---------------------------------------------------------------------------------------
  // Options
  // ---------------------------------------------------------------------------------------

  /** The values option parsing may set. */
  datatype Found = Found(msgType: byte, server: u32, mask: u32, router: u32)

  /** Options of a recognised code and size are kept; all others are skipped. */
  function Note(f: Found, code: byte, data: Str): Found {
    if code == OPT_TYPE && |data| == 1 then f.(msgType := data[0])
    else if code == OPT_SERVER && |data| == 4 then f.(server := Be32(data, 0))
    else if code == OPT_MASK && |data| == 4 then f.(mask := Be32(data, 0))
    else if code == OPT_ROUTER && |data| >= 4 then f.(router := Be32(data, 0))
    else f
  }

  function Scan(o: Str, f: Found): Found
    decreases |o|
  {
    if o == [] || o[0] == OPT_END then f
    else if o[0] == 0 then Scan(o[1..], f)
    else if |o| < 2 || 2 + o[1] as int > |o| then f
    else Scan(o[2 + o[1] as int..], Note(f, o[0], o[2..2 + o[1] as int]))
  }

  /** The kernel's loop over the raw bytes: never out of bounds, always terminating. */
  method ParseOptions(options: Str, start: Found) returns (f: Found)
    ensures f == Scan(options, start)
  {
    f := start;
    var i := 0;
    assert options[0..] == options;
    while i < |options|
      invariant 0 <= i <= |options|
      invariant Scan(options[i..], f) == Scan(options, start)
    {
      var code := options[i];
      if code == OPT_END {
        return;
      }
      if code == 0 {
        assert options[i..][1..] == options[i + 1..];
        i := i + 1;
        continue;
      }
      if i + 1 >= |options| {
        return;
      }
      var length := options[i + 1] as int;
      if i + 2 + length > |options| {
        return;
      }
      SliceOfSlice(options, i, |options|, 2, 2 + length);
      assert options[i..|options|] == options[i..];
      assert options[i..][2 + length..] == options[i + 2 + length..];
      f := Note(f, code, options[i + 2..i + 2 + length]);
      i := i + 2 + length;
    }
  }

  /** An option list as a sender means it. */
  datatype DhcpOption = Pad | Opt(code: byte, data: Str)

  predicate Encodable(opts: seq<DhcpOption>) {
    forall i :: 0 <= i < |opts| && opts[i].Opt? ==> 0 < opts[i].code < OPT_END && |opts[i].data| <= 255
  }

  function Encode(opts: seq<DhcpOption>): Str
    requires Encodable(opts)
  {
    if opts == [] then []
    else
      assert Encodable(opts[1..]);
      (match opts[0]
       case Pad => [0]
       case Opt(code, data) => [code, |data|] + data) + Encode(opts[1..])
  }

  function NoteAll(f: Found, opts: seq<DhcpOption>): Found
    decreases |opts|
  {
    if opts == [] then f
    else NoteAll(if opts[0].Opt? then Note(f, opts[0].code, opts[0].data) else f, opts[1..])
  }

  /** Any encoded list, with pads anywhere and anything after END, is parsed option by option. */
  lemma {:induction false} ScanInvertsEncode(opts: seq<DhcpOption>, trailing: Str, f: Found)
    requires Encodable(opts)
    ensures Scan(Encode(opts) + [OPT_END] + trailing, f) == NoteAll(f, opts)
    decreases |opts|
  {
    hide Note;
    if opts != [] {
      var rest := Encode(opts[1..]) + [OPT_END] + trailing;
      var o := Encode(opts) + [OPT_END] + trailing;
      match opts[0] {
        case Pad =>
          assert o == [0] + rest;
          ScanInvertsEncode(opts[1..], trailing, f);
        case Opt(code, data) =>
          assert o == [code, |data|] + data + rest;
          assert o[2..2 + |data|] == data && o[2 + |data|..] == rest;
          ScanInvertsEncode(opts[1..], trailing, Note(f, code, data));
      }
    }
  }

  /** Whatever follows an encoded list is scanned after it. */
  lemma {:induction false} ScanGoesOn(opts: seq<DhcpOption>, rest: Str, f: Found)
    requires Encodable(opts)
    ensures Scan(Encode(opts) + rest, f) == Scan(rest, NoteAll(f, opts))
    decreases |opts|
  {
    hide Note;
    if opts == [] {
      assert [] + rest == rest;
    } else {
      var more := Encode(opts[1..]) + rest;
      match opts[0] {
        case Pad =>
          assert Encode(opts) + rest == [0] + more;
          ScanGoesOn(opts[1..], rest, f);
        case Opt(code, data) =>
          var o := Encode(opts) + rest;
          assert o == [code, |data|] + data + more;
          assert o[2..2 + |data|] == data && o[2 + |data|..] == more;
          ScanGoesOn(opts[1..], rest, Note(f, code, data));
      }
    }
  }

  /** A list may end with the packet instead of END; an option the packet cuts short is ignored. */
  lemma CutOptions(opts: seq<DhcpOption>, code: byte, size: byte, data: Str, f: Found)
    requires Encodable(opts) && 0 < code < 255 && |data| < size as int
    ensures Scan(Encode(opts), f) == NoteAll(f, opts)
    ensures Scan(Encode(opts) + [code], f) == NoteAll(f, opts)
    ensures Scan(Encode(opts) + ([code, size] + data), f) == NoteAll(f, opts)
  {
    hide Note, Encode, NoteAll;
    assert Encode(opts) + [] == Encode(opts);
    ScanGoesOn(opts, [], f);
    ScanGoesOn(opts, [code], f);
    ScanGoesOn(opts, [code, size] + data, f);
  }

  /** The data of the last option with the code and a size accepted for it. */
  function LastSized(opts: seq<DhcpOption>, code: byte, least: nat, most: nat): (r: Option<Str>)
    ensures r.Some? ==> least <= |r.value| <= most
  {
    if opts == [] then None
    else if Last(opts).Opt? && Last(opts).code == code && least <= |Last(opts).data| <= most then Some(Last(opts).data)
    else LastSized(DropLast(opts), code, least, most)
  }

  lemma {:induction false} NoteAllSnoc(f: Found, opts: seq<DhcpOption>)
    requires opts != []
    ensures NoteAll(f, opts)
            == var g := NoteAll(f, DropLast(opts));
               if Last(opts).Opt? then Note(g, Last(opts).code, Last(opts).data) else g
    decreases |opts|
  {
    hide Note;
    if |opts| > 1 {
      NoteAllSnoc(if opts[0].Opt? then Note(f, opts[0].code, opts[0].data) else f, opts[1..]);
      assert DropLast(opts)[1..] == DropLast(opts[1..]);
    }
  }

  /** Each recognised field takes its last well-sized occurrence, or keeps its old value. */
  lemma {:induction false} LastOptionWins(f: Found, opts: seq<DhcpOption>)
    requires Encodable(opts)
    ensures var g := NoteAll(f, opts);
            && g.msgType == (match LastSized(opts, 53, 1, 1) case Some(d) => d[0] case None => f.msgType)
            && g.server == (match LastSized(opts, 54, 4, 4) case Some(d) => Be32(d, 0) case None => f.server)
            && g.mask == (match LastSized(opts, 1, 4, 4) case Some(d) => Be32(d, 0) case None => f.mask)
            && g.router == (match LastSized(opts, 3, 4, 255) case Some(d) => Be32(d, 0) case None => f.router)
  {
    if opts != [] {
      assert Encodable(DropLast(opts));
      NoteAllSnoc(f, opts);
      LastOptionWins(f, DropLast(opts));
    }
  }

  // ---------------------------------------------------------------------------------------
  // Messages
  // ---------------------------------------------------------------------------------------

  function MessageHeader(xid: u32, mac: Mac): (h: Str)
    ensures |h| == 240
  {
    [1, 1, 6, 0] + Put32(xid) + [0, 0, 0x80, 0] + Zeros(16) + mac + Zeros(202) + Put32(COOKIE)
  }

  function DiscoverPayload(xid: u32, mac: Mac): (p: Str)
    ensures |p| == 249
  {
    MessageHeader(xid, mac) + [OPT_TYPE, 1, DISCOVER, OPT_PARAMS, 3, OPT_MASK, OPT_ROUTER, OPT_SERVER, OPT_END]
  }

  function RequestOptions(ip: u32, server: u32): Str {
    [OPT_TYPE, 1, REQUEST, OPT_REQ_IP, 4] + Put32(ip) + [OPT_SERVER, 4] + Put32(server) + [OPT_END]
  }

  function RequestPayload(xid: u32, mac: Mac, ip: u32, server: u32): (p: Str)
    ensures |p| == 256
  {
    MessageHeader(xid, mac) + RequestOptions(ip, server)
  }

  /** The fixed fields of what the client sends, byte by byte: a BOOTREQUEST over Ethernet with the
      broadcast flag, the transaction, the client's address, the magic cookie, and zeros. */
  lemma HeaderBytes(xid: u32, mac: Mac)
    ensures var h := MessageHeader(xid, mac);
            && h[..4] == [1, 1, 6, 0] && h[4..8] == Put32(xid) && h[10] == 0x80 && h[28..34] == mac
            && h[236..240] == [99, 130, 83, 99]
            && forall i :: 8 <= i < 236 && i != 10 && !(28 <= i < 34) ==> h[i] == 0
  {
    hide Put32;
    Put32Length(xid);
    Put32Length(COOKIE);
    WordOrder(99, 130, 83, 99);
    var h := MessageHeader(xid, mac);
    assert h[4..8] == Put32(xid) && h[28..34] == mac && h[236..240] == Put32(COOKIE);
  }

  /** The DISCOVER asks for mask, router and server. */
  lemma DiscoverBytes(xid: u32, mac: Mac)
    ensures DiscoverPayload(xid, mac)[..240] == MessageHeader(xid, mac)
    ensures DiscoverPayload(xid, mac)[240..] == [53, 1, 1, 55, 3, 1, 3, 54, 255]
  {
    hide MessageHeader;
  }

  /** The REQUEST names the address asked for and the server. */
  lemma RequestBytes(xid: u32, mac: Mac, ip: u32, server: u32)
    ensures RequestPayload(xid, mac, ip, server)[..240] == MessageHeader(xid, mac)
    ensures RequestPayload(xid, mac, ip, server)[240..]
            == [53, 1, 3, 50, 4] + Put32(ip) + [54, 4] + Put32(server) + [255]
  {
    hide MessageHeader, Put32;
  }

  /** The options of a REQUEST parse back to its type and server. */
  lemma RequestParses(xid: u32, mac: Mac, ip: u32, server: u32, f: Found)
    ensures Scan(RequestPayload(xid, mac, ip, server)[240..], f) == f.(msgType := REQUEST, server := server)
  {
    hide Scan, Encode, NoteAll, RequestOptions;
    assert RequestPayload(xid, mac, ip, server)[240..] == RequestOptions(ip, server);
    RequestEncodes(ip, server);
    ScanInvertsEncode(RequestList(ip, server), [], f);
    RequestNotes(f, ip, server);
  }

  function RequestList(ip: u32, server: u32): seq<DhcpOption> {
    [Opt(OPT_TYPE, [REQUEST]), Opt(OPT_REQ_IP, Put32(ip)), Opt(OPT_SERVER, Put32(server))]
  }

  lemma RequestEncodes(ip: u32, server: u32)
    ensures Encodable(RequestList(ip, server))
    ensures RequestOptions(ip, server) == Encode(RequestList(ip, server)) + [OPT_END] + []
  {
    var opts := RequestList(ip, server);
    EncodeFirst(opts[2..]);
    EncodeFirst(opts[1..]);
    EncodeFirst(opts);
    assert opts[1..][1..] == opts[2..] && opts[2..][1..] == [];
  }

  lemma EncodeFirst(opts: seq<DhcpOption>)
    requires Encodable(opts) && opts != [] && opts[0].Opt?
    ensures Encodable(opts[1..]) && Encode(opts) == [opts[0].code, |opts[0].data|] + opts[0].data + Encode(opts[1..])
  {
  }

  lemma RequestNotes(f: Found, ip: u32, server: u32)
    ensures NoteAll(f, RequestList(ip, server)) == f.(msgType := REQUEST, server := server)
  {
    var opts := RequestList(ip, server);
    var g := f.(msgType := REQUEST);
    Put32Reads(Put32(server), 0, server);
    assert NoteAll(f, opts) == NoteAll(g, opts[1..]);
    assert NoteAll(g, opts[1..]) == NoteAll(g, opts[1..][1..]);
    assert opts[1..][1..] == opts[2..] && opts[2..][1..] == [];
    assert NoteAll(g, opts[2..]) == NoteAll(g.(server := server), []);
  }

  // ---------------------------------------------------------------------------------------
  // The lease
  // ---------------------------------------------------------------------------------------

  datatype Lease = Lease(
    active: bool, xid: u32, offeredIp: u32, serverIp: u32, mask: u32, router: u32, gotOffer: bool, gotAck: bool)

  const NO_LEASE := Lease(false, 0, 0, 0, 0, 0, false, false)

  /** A reply to this client's transaction. */
  predicate Matches(xid: u32, mac: Mac, p: Str) {
    |p| >= 240 && p[0] == 2 && p[1] == 1 && p[2] == 6 && Be32(p, 4) == xid && p[28..34] == mac && Be32(p, 236) == COOKIE
  }

  function Receive(l: Lease, mac: Mac, p: Str): Lease {
    if !l.active || !Matches(l.xid, mac, p) then l
    else
      var f := Scan(p[240..], Found(0, l.serverIp, l.mask, l.router));
      var m := l.(serverIp := f.server, mask := f.mask, router := f.router);
      if f.msgType != OFFER && f.msgType != ACK then m
      else
        var n := m.(offeredIp := Be32(p, 16),
                    mask := if f.mask == 0 then DEFAULT_MASK else f.mask,
                    router := if f.router == 0 then DEFAULT_GW else f.router);
        if f.msgType == OFFER then n.(gotOffer := true) else n.(gotAck := true)
  }

  function ReceiveFrame(l: Lease, mac: Mac, own: u32, frame: Str): Lease {
    match Demux(frame, own)
    case ToDhcp(p) => Receive(l, mac, p)
    case _ => l
  }

  /** The lease after any sequence of frames. */
  function LeaseAfter(l: Lease, mac: Mac, own: u32, frames: seq<Str>): Lease {
    if frames == [] then l else ReceiveFrame(LeaseAfter(l, mac, own, DropLast(frames)), mac, own, Last(frames))
  }

  lemma {:induction false} LeaseAfterConcat(l: Lease, mac: Mac, own: u32, a: seq<Str>, b: seq<Str>)
    ensures LeaseAfter(l, mac, own, a + b) == LeaseAfter(LeaseAfter(l, mac, own, a), mac, own, b)
    decreases |b|
  {
    if b == [] {
      assert a + b == a;
    } else {
      assert DropLast(a + b) == a + DropLast(b);
      LeaseAfterConcat(l, mac, own, a, DropLast(b));
    }
  }

  /** A server's message to this client, field by field, as RFC 2131 lays it out: a BOOTREPLY over
      Ethernet with the transaction at 4, the client's address at 28, the magic cookie at 236,
      then options up to END and anything after. */
  predicate ServerSays(p: Str, xid: u32, mac: Mac, opts: seq<DhcpOption>) {
    && |p| >= 241 && p[..3] == [2, 1, 6] && p[4..8] == Put32(xid) && p[28..34] == mac
    && p[236..240] == [99, 130, 83, 99] && Encodable(opts) && Encode(opts) + [255] <= p[240..]
  }

  /** What the last option of a code and size says, read as a number. */
  function LastWord(opts: seq<DhcpOption>, code: byte, most: nat, otherwise: u32): u32
    requires most >= 4
  {
    match LastSized(opts, code, 4, most) case Some(d) => Be32(d, 0) case None => otherwise
  }

  /** What such a message does to an active lease: an OFFER (2) or ACK (5) sets its flag and the
      address at 16; server, mask and router are the last ones given, with the built-in mask and
      gateway for an OFFER or ACK when there has been none but 0. */
  lemma ServerIsHeard(l: Lease, mac: Mac, p: Str, opts: seq<DhcpOption>)
    requires l.active && ServerSays(p, l.xid, mac, opts)
    ensures var m := Receive(l, mac, p);
            var kind := match LastSized(opts, 53, 1, 1) case Some(d) => d[0] case None => 0;
            var taken := kind == 2 || kind == 5;
            var mask, router := LastWord(opts, 1, 4, l.mask), LastWord(opts, 3, 255, l.router);
            m == l.(serverIp := LastWord(opts, 54, 4, l.serverIp),
                    mask := if taken && mask == 0 then 0xFFFF_FF00 else mask,
                    router := if taken && router == 0 then 0x0A00_0202 else router,
                    offeredIp := if taken then Be32(p, 16) else l.offeredIp,
                    gotOffer := l.gotOffer || kind == 2, gotAck := l.gotAck || kind == 5)
    ensures TypeOf(p) == (match LastSized(opts, 53, 1, 1) case Some(d) => d[0] case None => 0)
    ensures Matches(l.xid, mac, p)
  {
    hide Scan, Encode, NoteAll, LastSized, Be32;
    var trailing := p[240..][|Encode(opts)| + 1..];
    assert p[240..] == Encode(opts) + [255] + trailing;
    ScanInvertsEncode(opts, trailing, Found(0, l.serverIp, l.mask, l.router));
    ScanInvertsEncode(opts, trailing, Found(0, 0, 0, 0));
    LastOptionWins(Found(0, l.serverIp, l.mask, l.router), opts);
    LastOptionWins(Found(0, 0, 0, 0), opts);
    FieldsMatch(p, l.xid, mac);
  }

  lemma FieldsMatch(p: Str, xid: u32, mac: Mac)
    requires |p| >= 240
    ensures Matches(xid, mac, p)
            <==> p[..3] == [2, 1, 6] && p[4..8] == Put32(xid) && p[28..34] == mac && p[236..240] == [99, 130, 83, 99]
  {
    hide Be32, Put32;
    assert p[..3] == [p[0], p[1], p[2]];
    LoadIsStore(p, 4, xid);
    LoadIsStore(p, 236, COOKIE);
    WordOrder(99, 130, 83, 99);
  }

  lemma LoadIsStore(p: Str, at: nat, v: u32)
    requires at + 4 <= |p|
    ensures Be32(p, at) == v <==> p[at..at + 4] == Put32(v)
  {
    hide Put32;
    if p[at..at + 4] == Put32(v) {
      Put32Reads(p, at, v);
    }
    var hi, lo := 0x100 * p[at] as int + p[at + 1] as int, 0x100 * p[at + 2] as int + p[at + 3] as int;
    WordOrder(p[at], p[at + 1], p[at + 2], p[at + 3]);
    assert p[at..at + 4] == [p[at], p[at + 1], p[at + 2], p[at + 3]];
  }

  /** Any other payload leaves the lease as it was. */
  lemma OthersAreNotHeard(l: Lease, mac: Mac, p: Str)
    requires |p| < 240 || p[..3] != [2, 1, 6] || p[4..8] != Put32(l.xid) || p[28..34] != mac
             || p[236..240] != [99, 130, 83, 99]
    ensures Receive(l, mac, p) == l
  {
    hide Scan;
    if |p| >= 240 {
      FieldsMatch(p, l.xid, mac);
    }
  }

  function TypeOf(p: Str): byte
    requires |p| >= 240
  {
    Scan(p[240..], Found(0, 0, 0, 0)).msgType
  }

  /** The message type found depends only on what it was before, and so does the server; and
      options either set the server or leave it, whatever it was. */
  lemma {:induction false} FieldsAreOwn(o: Str, f: Found, g: Found)
    ensures f.msgType == g.msgType ==> Scan(o, f).msgType == Scan(o, g).msgType
    ensures f.server == g.server ==> Scan(o, f).server == Scan(o, g).server
    ensures Scan(o, f).server == Scan(o, g).server || (Scan(o, f).server == f.server && Scan(o, g).server == g.server)
    decreases |o|
  {
    if o != [] && o[0] != OPT_END {
      if o[0] == 0 {
        FieldsAreOwn(o[1..], f, g);
      } else if |o| >= 2 && 2 + o[1] as int <= |o| {
        var d := o[2..2 + o[1] as int];
        NoteServer(f, g, o[0], d);
        FieldsAreOwn(o[2 + o[1] as int..], Note(f, o[0], d), Note(g, o[0], d));
      }
    }
  }

  lemma NoteServer(f: Found, g: Found, code: byte, data: Str)
    ensures var n, m := Note(f, code, data), Note(g, code, data);
            && (f.msgType == g.msgType ==> n.msgType == m.msgType)
            && (n.server == m.server || (n.server == f.server && m.server == g.server))
  {
    hide Be32;
  }

  /** The client takes this frame as a message of the given type. */
  predicate Takes(xid: u32, mac: Mac, own: u32, frame: Str, kind: byte) {
    var d := Demux(frame, own);
    d.ToDhcp? && Matches(xid, mac, d.payload) && TypeOf(d.payload) == kind
  }

  function OfferedBy(xid: u32, mac: Mac, own: u32, frame: Str): Option<u32> {
    if Takes(xid, mac, own, frame, OFFER) || Takes(xid, mac, own, frame, ACK)
    then Some(Be32(Demux(frame, own).payload, 16))
    else None
  }

  /** The address in the last OFFER or ACK taken. */
  function LastOffered(xid: u32, mac: Mac, own: u32, frames: seq<Str>): Option<u32> {
    if frames == [] then None
    else if OfferedBy(xid, mac, own, Last(frames)).Some? then OfferedBy(xid, mac, own, Last(frames))
    else LastOffered(xid, mac, own, DropLast(frames))
  }

  lemma OneFrame(l: Lease, mac: Mac, own: u32, frame: Str)
    requires l.active
    ensures var m := ReceiveFrame(l, mac, own, frame);
            && m.active && m.xid == l.xid
            && (m.gotOffer <==> l.gotOffer || Takes(l.xid, mac, own, frame, OFFER))
            && (m.gotAck <==> l.gotAck || Takes(l.xid, mac, own, frame, ACK))
            && m.offeredIp == (match OfferedBy(l.xid, mac, own, frame) case Some(ip) => ip case None => l.offeredIp)
            && (!(exists kind: byte :: Takes(l.xid, mac, own, frame, kind)) ==> m == l)
  {
    hide Demux, Scan;
    var d := Demux(frame, own);
    if d.ToDhcp? && Matches(l.xid, mac, d.payload) {
      FieldsAreOwn(d.payload[240..], Found(0, 0, 0, 0), Found(0, l.serverIp, l.mask, l.router));
      assert Takes(l.xid, mac, own, frame, TypeOf(d.payload));
    }
  }

  /** A reply to this transaction, of whatever type. */
  predicate Replies(xid: u32, mac: Mac, own: u32, frame: Str) {
    var d := Demux(frame, own);
    d.ToDhcp? && Matches(xid, mac, d.payload)
  }

  /** The server identifier after a frame that found `server`. */
  function ServerOf(xid: u32, mac: Mac, own: u32, frame: Str, server: u32): u32 {
    if Replies(xid, mac, own, frame) then Scan(Demux(frame, own).payload[240..], Found(0, server, 0, 0)).server
    else server
  }

  /** The server identifier in the last reply that has one, 0 if none has. */
  function LastServer(xid: u32, mac: Mac, own: u32, frames: seq<Str>): u32 {
    if frames == [] then 0 else ServerOf(xid, mac, own, Last(frames), LastServer(xid, mac, own, DropLast(frames)))
  }

  lemma ServerStep(l: Lease, mac: Mac, own: u32, frame: Str)
    requires l.active
    ensures ReceiveFrame(l, mac, own, frame).serverIp == ServerOf(l.xid, mac, own, frame, l.serverIp)
  {
    hide Demux, Scan, Matches, TypeOf, Be32;
    var d := Demux(frame, own);
    if Replies(l.xid, mac, own, frame) {
      ReplyIsLong(l.xid, mac, own, frame);
      FieldsAreOwn(d.payload[240..], Found(0, l.serverIp, 0, 0), Found(0, l.serverIp, l.mask, l.router));
    }
  }

  lemma ReplyIsLong(xid: u32, mac: Mac, own: u32, frame: Str)
    requires Replies(xid, mac, own, frame)
    ensures |Demux(frame, own).payload| >= 240
  {
    hide Demux;
  }

  /** Over any frame sequence the server asked is the one named last. */
  lemma {:induction false} ServerTracksFrames(l: Lease, mac: Mac, own: u32, frames: seq<Str>)
    requires l.active && l.serverIp == 0
    ensures LeaseAfter(l, mac, own, frames).serverIp == LastServer(l.xid, mac, own, frames)
  {
    hide ServerOf, ReceiveFrame, Takes, LastOffered;
    if frames != [] {
      ServerTracksFrames(l, mac, own, DropLast(frames));
      LeaseTracksFrames(l, mac, own, DropLast(frames));
      ServerStep(LeaseAfter(l, mac, own, DropLast(frames)), mac, own, Last(frames));
    }
  }

  /** Over any frame sequence: the flags say exactly whether a matching OFFER or ACK came, and
      the address is the one in the last of them. */
  lemma {:induction false} LeaseTracksFrames(l: Lease, mac: Mac, own: u32, frames: seq<Str>)
    requires l.active
    ensures var m := LeaseAfter(l, mac, own, frames);
            && m.active && m.xid == l.xid
            && (m.gotOffer <==> l.gotOffer || exists i :: 0 <= i < |frames| && Takes(l.xid, mac, own, frames[i], OFFER))
            && (m.gotAck <==> l.gotAck || exists i :: 0 <= i < |frames| && Takes(l.xid, mac, own, frames[i], ACK))
            && m.offeredIp == (match LastOffered(l.xid, mac, own, frames) case Some(ip) => ip case None => l.offeredIp)
  {
    hide Takes, ReceiveFrame, OfferedBy;
    if frames != [] {
      var r := DropLast(frames);
      LeaseTracksFrames(l, mac, own, r);
      OneFrame(LeaseAfter(l, mac, own, r), mac, own, Last(frames));
      assert frames == r + [Last(frames)];
    }
  }

  /** Frames that are not replies to this transaction never change the lease. */
  lemma {:induction false} StrangersIgnored(l: Lease, mac: Mac, own: u32, frames: seq<Str>)
    requires forall i, kind: byte :: 0 <= i < |frames| ==> !Takes(l.xid, mac, own, frames[i], kind)
    ensures LeaseAfter(l, mac, own, frames) == l
  {
    hide Takes, ReceiveFrame;
    if frames != [] {
      StrangersIgnored(l, mac, own, DropLast(frames));
      assert frames[|frames| - 1] == Last(frames);
      if l.active {
        OneFrame(l, mac, own, Last(frames));
      } else {
        Inactive(l, mac, own, Last(frames));
      }
    }
  }

  lemma Inactive(l: Lease, mac: Mac, own: u32, frame: Str)
    requires !l.active
    ensures ReceiveFrame(l, mac, own, frame) == l
  {
    hide Demux;
  }
}
