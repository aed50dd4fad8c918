/** What a frame comes to, said of the decoder it is handed to: the layers added, the error, and the payload left. */
module DispatcherOutcome {
  import opened Bytes
  import opened FrameDecoders
  import opened SomeIpHeaders
  import opened Dispatcher
  import opened DispatcherProperties

  // ----- layers and errors -----

  /** The layers that the application decoders add. */
  function Added(o: Options, apps: Apps, h: Handed): seq<Header> {
    match h
    case Nothing => []
    case ToDoIp(data) => if apps.doIp(data).result.Ok? then [DoIp] else []
    case ToRtps(data) => if apps.rtps(data).result.Ok? then [Rtps] else []
    case ToGptp(data) => if apps.gptp(data).result.Ok? then [Gptp(apps.gptp(data).result.value)] else []
    case ToSomeIp(data, discoveryPort, n) =>
      var r := apps.someIp(data).result;
      if r.Err? || (!discoveryPort && !(8 <= r.value.length <= |data|)) then []
      else if !discoveryPort || !Discovers(o, apps, h) then [SomeIp(r.value)]
      else
        var sd := apps.sd(data[16..]).result;
        if sd.Ok? then [SomeIp(r.value), SomeIpSd(sd.value)] else [SomeIp(r.value)]
  }

  /** A service-discovery body is looked for: the header says so, a layer is left, and the bytes go on behind it. */
  predicate Discovers(o: Options, apps: Apps, h: Handed)
    requires h.ToSomeIp? && apps.someIp(h.data).result.Ok?
    ensures Discovers(o, apps, h) ==> |h.data| >= 16
  {
    apps.someIp(h.data).result.value.discovery && h.layers + 1 < o.maxLayers && |h.data| >= 16
  }

  /** The error that the application decoders leave: none for a header that was only looked for, or behind SOME/IP. */
  function Complaint(apps: Apps, h: Handed): Option<Code> {
    match h
    case Nothing => None
    case ToDoIp(data) => ErrorOf(apps.doIp(data).result)
    case ToRtps(data) => ErrorOf(apps.rtps(data).result)
    case ToGptp(data) => ErrorOf(apps.gptp(data).result)
    case ToSomeIp(data, discoveryPort, _) => if discoveryPort then ErrorOf(apps.someIp(data).result) else None
  }

  function ErrorOf<T>(r: Result<T>): Option<Code> {
    if r.Err? then Some(r.code) else None
  }

  /** Only layers and error of a result. */
  ghost predicate Became(o: Options, apps: Apps, st: Stack, h: Handed, r: Stack) {
    r.layers == st.layers + Added(o, apps, h) && r.error == if Complaint(apps, h).Some? then Complaint(apps, h) else st.error
  }

  lemma {:induction false} DiscoveryBecomes(o: Options, apps: Apps, st: Stack, data: seq<byte>)
    requires st.error.None?
    ensures Became(o, apps, st, ToSomeIp(data, true, |st.layers|), OnDiscovery(o, apps, st, data))
  {
  }

  lemma {:induction false} ApplicationBecomes(o: Options, apps: Apps, st: Stack, data: seq<byte>, src: u16, dst: u16)
    requires st.error.None?
    ensures Became(o, apps, st, HandedByApplication(o, |st.layers|, data, src, dst), OnApplication(o, apps, st, data, src, dst))
  {
    DiscoveryBecomes(o, apps, st, data);
    RtpsIff(src, dst, data);
    hide OnDiscovery, LikelyRtpsPort, RtpsMagic, RtpsPort, SaysRtps;
  }

  lemma {:induction false} TransportBecomes(o: Options, apps: Apps, st: Stack, data: seq<byte>, protocol: byte)
    requires st.error.None?
    ensures var plain := OnTransport(o.(decodeApplication := false), apps, st, data, protocol);
            Became(o, apps, plain, HandedByTransport(o, |st.layers|, data, protocol), OnTransport(o, apps, st, data, protocol))
  {
    NothingBecomes(o, apps, OnTransport(o.(decodeApplication := false), apps, st, data, protocol));
    hide DecodeUdp, DecodeTcp, OnApplication, Became;
    var udp, tcp := DecodeUdp(data), DecodeTcp(data);
    if protocol == 17 && udp.Ok? {
      hide HandedByApplication;
      var next := st.With(Udp(udp.value), Some(data[8..]));
      ApplicationBecomes(o, apps, next, data[8..], udp.value.srcPort, udp.value.dstPort);
    } else if protocol == 6 && tcp.Ok? {
      var n := tcp.value.fields.dataOffset * 4;
      var next := st.With(Tcp(tcp.value), Some(data[n..]));
      ApplicationBecomes(o, apps, next, data[n..], tcp.value.fields.srcPort, tcp.value.fields.dstPort);
    }
  }

  lemma {:induction false} NothingBecomes(o: Options, apps: Apps, st: Stack)
    ensures Became(o, apps, st, Nothing, st)
  {
  }

  lemma {:induction false} NetworkBecomes(o: Options, apps: Apps, st: Stack, data: seq<byte>)
    requires st.error.None?
    ensures var plain := OnIPv4(o.(decodeApplication := false), apps, st, data);
            Became(o, apps, plain, HandedByNetwork(o, |st.layers|, data), OnIPv4(o, apps, st, data))
  {
    NothingBecomes(o, apps, OnIPv4(o.(decodeApplication := false), apps, st, data));
    hide DecodeIPv4, OnTransport, HandedByTransport, Became;
    var ip := DecodeIPv4(data, o.validateChecksum, true);
    if ip.Ok? {
      var rest := data[ip.value.fields.ihl * 4..];
      TransportBecomes(o, apps, st.With(IPv4(ip.value), Some(rest)), rest, ip.value.fields.protocol);
    }
  }

  lemma {:induction false} PtpBecomes(o: Options, apps: Apps, st: Stack, data: seq<byte>)
    requires st.error.None? && |st.layers| == 1
    ensures var h := if data != [] && 1 < o.maxLayers then ToGptp(data) else Nothing;
            Became(o, apps, st, h, OnGptp(o, apps, st, data))
  {
  }

  /** The frame without its application: gPTP is one, though it comes directly over Ethernet. */
  function Plain(o: Options, apps: Apps, frame: seq<byte>): Stack {
    match DecodeEthernet(frame)
    case Ok(eth) =>
      if eth.etherType == 0x88F7 then Start(frame).With(Ethernet(eth), Some(frame[eth.headerLen..]))
      else DecodeFrame(o.(decodeApplication := false), apps, frame)
    case Err(_) => DecodeFrame(o.(decodeApplication := false), apps, frame)
  }

  /** Every frame: the layers up to the transport header, then those of the decoder it is handed to, and its error. */
  lemma {:induction false} FrameBecomes(o: Options, apps: Apps, frame: seq<byte>)
    ensures Became(o, apps, Plain(o, apps, frame), HandedByFrame(o, frame), DecodeFrame(o, apps, frame))
  {
    NothingBecomes(o, apps, Plain(o, apps, frame));
    var eth := DecodeEthernet(frame);
    if frame != [] && eth.Ok? {
      var rest := frame[eth.value.headerLen..];
      var st := Start(frame).With(Ethernet(eth.value), Some(rest));
      hide DecodeEthernet, OnIPv4, OnGptp, HandedByNetwork, Became;
      if eth.value.etherType == 0x0800 {
        NetworkBecomes(o, apps, st, rest);
      } else if eth.value.etherType == 0x88F7 {
        PtpBecomes(o, apps, st, rest);
      }
    }
  }

  /** The headers and the error without the application, for the bytes behind a network layer's `below`. */
  function TransportHeaders(o: Options, below: seq<Header>, protocol: byte, data: seq<byte>): (seq<Header>, Option<Code>) {
    if |below| >= o.maxLayers then (below, None)
    else if protocol == 17 then
      match DecodeUdp(data)
      case Err(code) => (below, Some(code))
      case Ok(udp) => (below + [Udp(udp)], None)
    else if protocol == 6 then
      match DecodeTcp(data)
      case Err(code) => (below, Some(code))
      case Ok(tcp) => (below + [Tcp(tcp)], None)
    else (below, None)
  }

  function NetworkHeaders(o: Options, below: seq<Header>, data: seq<byte>): (seq<Header>, Option<Code>) {
    match DecodeIPv4(data, o.validateChecksum, true)
    case Err(code) => (below, Some(code))
    case Ok(ip) => TransportHeaders(o, below + [IPv4(ip)], ip.fields.protocol, data[ip.fields.ihl * 4..])
  }

  function FrameHeaders(o: Options, frame: seq<byte>): (seq<Header>, Option<Code>) {
    match DecodeEthernet(frame)
    case Err(code) => ([], Some(code))
    case Ok(eth) =>
      if eth.etherType == 0x0800 then NetworkHeaders(o, [Ethernet(eth)], frame[eth.headerLen..]) else ([Ethernet(eth)], None)
  }

  lemma {:induction false} NetworkIs(o: Options, apps: Apps, st: Stack, data: seq<byte>)
    requires st.error.None?
    ensures var r := OnIPv4(o.(decodeApplication := false), apps, st, data);
            (r.layers, r.error) == NetworkHeaders(o, st.layers, data)
  {
    hide DecodeIPv4, DecodeUdp, DecodeTcp, OnApplication;
  }

  /** The headers up to the transport header, or to the first that does not decode, whose error is then kept. */
  lemma {:induction false} PlainIs(o: Options, apps: Apps, frame: seq<byte>)
    ensures (Plain(o, apps, frame).layers, Plain(o, apps, frame).error) == FrameHeaders(o, frame)
  {
    if frame == [] { NothingDecodes(); }
    match DecodeEthernet(frame)
    case Err(_) =>
    case Ok(eth) =>
      hide DecodeEthernet, OnIPv4, NetworkHeaders;
      var rest := frame[eth.headerLen..];
      var st := Start(frame).With(Ethernet(eth), Some(rest));
      assert st.layers == [Ethernet(eth)];
      NetworkIs(o, apps, st, rest);
  }

  lemma {:induction false} NothingDecodes()
    ensures DecodeEthernet([]) == Err(BufferTooSmall)
  {
  }

  /** Likewise for a packet without a frame around it. */
  lemma {:induction false} PacketBecomes(o: Options, apps: Apps, data: seq<byte>)
    ensures var r := DecodeFromIp(o, apps, data);
            var plain := DecodeFromIp(o.(decodeApplication := false), apps, data);
            && (plain.layers, plain.error) == NetworkHeaders(o, [], data)
            && Became(o, apps, plain, HandedByNetwork(o, 0, data), r)
  {
    hide OnIPv4, HandedByNetwork, NetworkHeaders, Became;
    if data == [] {
      NoPacket(o, apps);
    } else {
      NetworkIs(o, apps, Start(data), data);
      NetworkBecomes(o, apps, Start(data), data);
    }
  }

  lemma {:induction false} NoPacket(o: Options, apps: Apps)
    ensures NetworkHeaders(o, [], []) == ([], Some(BufferTooSmall)) && HandedByNetwork(o, 0, []) == Nothing
    ensures forall st :: Became(o, apps, st, Nothing, st)
  {
  }

  // ----- the payload -----

  /** The bytes that a header takes. */
  function SizeOf(h: Header): nat {
    match h
    case Ethernet(eth) => eth.headerLen
    case IPv4(ip) => ip.fields.ihl * 4
    case Udp(_) => 8
    case Tcp(tcp) => tcp.fields.dataOffset * 4
    case SomeIp(_) => 16
    case SomeIpSd(n) => n
    case DoIp => 8
    case Gptp(n) => n
    case Rtps => 0
  }

  function SizeOfAll(layers: seq<Header>): nat {
    if layers == [] then 0 else SizeOfAll(layers[..|layers| - 1]) + SizeOf(layers[|layers| - 1])
  }

  lemma {:induction false} OneMoreHeader(layers: seq<Header>, h: Header)
    ensures SizeOfAll(layers + [h]) == SizeOfAll(layers) + SizeOf(h)
  {
    assert (layers + [h])[..|layers|] == layers;
  }

  /** The payload is what lies behind all headers. */
  ghost predicate Behind(frame: seq<byte>, st: Stack) {
    SizeOfAll(st.layers) <= |frame| && st.payload == Some(frame[SizeOfAll(st.layers)..])
  }

  lemma {:induction false} NextBehind(frame: seq<byte>, st: Stack, data: seq<byte>, h: Header)
    requires Behind(frame, st) && st.payload == Some(data) && SizeOf(h) <= |data|
    ensures Behind(frame, st.With(h, Some(data[SizeOf(h)..])))
  {
    OneMoreHeader(st.layers, h);
    var n := SizeOfAll(st.layers);
    assert frame[n..][SizeOf(h)..] == frame[n + SizeOf(h)..];
  }

  /** What an application decoder may leave behind the headers instead: nothing behind RTPS, nothing behind a gPTP message
      that announces more than there is, and the SOME/IP header itself when the service-discovery body behind it failed. */
  ghost predicate Left(o: Options, apps: Apps, frame: seq<byte>, st: Stack, h: Handed, r: Stack) {
    r.payload.Some? ==>
      match h
      case ToRtps(data) => if apps.rtps(data).result.Ok? then r.payload.value == [] else r.payload == st.payload
      case ToGptp(data) =>
        if apps.gptp(data).result.Ok? && apps.gptp(data).result.value as int > |data| then r.payload.value == []
        else Behind(frame, r)
      case ToSomeIp(data, true, _) =>
        if apps.someIp(data).result.Ok? && Discovers(o, apps, h) && apps.sd(data[16..]).result.Err?
        then r.payload == st.payload
        else Behind(frame, r)
      case _ => Behind(frame, r)
  }

  lemma {:induction false} DiscoveryLeaves(o: Options, apps: Apps, frame: seq<byte>, st: Stack, data: seq<byte>)
    requires Behind(frame, st) && st.payload == Some(data)
    ensures Left(o, apps, frame, st, ToSomeIp(data, true, |st.layers|), OnDiscovery(o, apps, st, data))
  {
    var d := apps.someIp(data);
    if d.result.Ok? && |data| >= 16 {
      var header, body := SomeIp(d.result.value), data[16..];
      NextBehind(frame, st, data, header);
      var st1 := st.With(header, Some(body));
      var sd := apps.sd(body).result;
      if sd.Ok? && sd.value <= |body| { NextBehind(frame, st1, body, SomeIpSd(sd.value)); }
    }
  }

  lemma {:induction false} DoIpLeaves(o: Options, apps: Apps, frame: seq<byte>, st: Stack, data: seq<byte>)
    requires Behind(frame, st) && st.payload == Some(data)
    ensures Left(o, apps, frame, st, ToDoIp(data), OnDoIp(apps, st, data))
  {
    if |data| >= 8 { NextBehind(frame, st, data, DoIp); }
  }

  lemma {:induction false} OtherPortLeaves(o: Options, apps: Apps, frame: seq<byte>, st: Stack, data: seq<byte>)
    requires Behind(frame, st) && st.payload == Some(data) && |data| >= 16
    ensures Left(o, apps, frame, st, ToSomeIp(data, false, |st.layers|), OnOtherPort(apps, st, data))
  {
    if apps.someIp(data).result.Ok? { NextBehind(frame, st, data, SomeIp(apps.someIp(data).result.value)); }
  }

  lemma {:induction false} ApplicationLeaves(
      o: Options, apps: Apps, frame: seq<byte>, st: Stack, data: seq<byte>, src: u16, dst: u16)
    requires Behind(frame, st) && st.payload == Some(data)
    ensures Left(o, apps, frame, st, HandedByApplication(o, |st.layers|, data, src, dst), OnApplication(o, apps, st, data, src, dst))
  {
    DiscoveryLeaves(o, apps, frame, st, data);
    DoIpLeaves(o, apps, frame, st, data);
    if |data| >= 16 { OtherPortLeaves(o, apps, frame, st, data); }
    RtpsIff(src, dst, data);
    NothingLeft(o, apps, frame, st);
    RtpsLeaves(o, apps, frame, st, data);
    OtherPortShort(apps, st, data);
    hide OnDiscovery, OnDoIp, OnOtherPort, OnRtps, LikelyRtpsPort, RtpsMagic, RtpsPort, SaysRtps, Left, Behind;
  }

  lemma {:induction false} OtherPortShort(apps: Apps, st: Stack, data: seq<byte>)
    ensures |data| < 16 ==> OnOtherPort(apps, st, data) == st
  {
  }

  lemma {:induction false} NothingLeft(o: Options, apps: Apps, frame: seq<byte>, st: Stack)
    requires Behind(frame, st)
    ensures Left(o, apps, frame, st, Nothing, st)
  {
  }

  lemma {:induction false} RtpsLeaves(o: Options, apps: Apps, frame: seq<byte>, st: Stack, data: seq<byte>)
    requires Behind(frame, st) && st.payload == Some(data)
    ensures Left(o, apps, frame, st, ToRtps(data), OnRtps(apps, st, data))
  {
  }

  lemma {:induction false} TransportLeaves(o: Options, apps: Apps, frame: seq<byte>, st: Stack, data: seq<byte>, protocol: byte)
    requires Behind(frame, st) && st.payload == Some(data)
    ensures var plain := OnTransport(o.(decodeApplication := false), apps, st, data, protocol);
            && Behind(frame, plain)
            && Left(o, apps, frame, plain, HandedByTransport(o, |st.layers|, data, protocol), OnTransport(o, apps, st, data, protocol))
  {
    var udp, tcp := DecodeUdp(data), DecodeTcp(data);
    if |st.layers| < o.maxLayers && protocol == 17 && udp.Ok? {
      hide DecodeUdp, DecodeTcp, OnApplication, HandedByApplication, Left;
      NextBehind(frame, st, data, Udp(udp.value));
      var next := st.With(Udp(udp.value), Some(data[8..]));
      ApplicationLeaves(o, apps, frame, next, data[8..], udp.value.srcPort, udp.value.dstPort);
      NothingLeft(o, apps, frame, next);
      hide Behind;
    } else if |st.layers| < o.maxLayers && protocol == 6 && tcp.Ok? {
      hide DecodeUdp, DecodeTcp, OnApplication, Left;
      var n := tcp.value.fields.dataOffset * 4;
      NextBehind(frame, st, data, Tcp(tcp.value));
      var next := st.With(Tcp(tcp.value), Some(data[n..]));
      ApplicationLeaves(o, apps, frame, next, data[n..], tcp.value.fields.srcPort, tcp.value.fields.dstPort);
      NothingLeft(o, apps, frame, next);
      hide Behind;
    } else {
      hide DecodeUdp, DecodeTcp, OnApplication;
    }
  }

  lemma {:induction false} NetworkLeaves(o: Options, apps: Apps, frame: seq<byte>, st: Stack, data: seq<byte>)
    requires Behind(frame, st) && st.payload == Some(data)
    ensures var plain := OnIPv4(o.(decodeApplication := false), apps, st, data);
            && Behind(frame, plain)
            && Left(o, apps, frame, plain, HandedByNetwork(o, |st.layers|, data), OnIPv4(o, apps, st, data))
  {
    var ip := DecodeIPv4(data, o.validateChecksum, true);
    if ip.Ok? {
      hide DecodeIPv4, OnTransport, HandedByTransport, Left;
      NextBehind(frame, st, data, IPv4(ip.value));
      hide Behind;
      var rest := data[ip.value.fields.ihl * 4..];
      TransportLeaves(o, apps, frame, st.With(IPv4(ip.value), Some(rest)), rest, ip.value.fields.protocol);
    } else {
      hide DecodeIPv4;
    }
  }

  lemma {:induction false} PtpLeaves(o: Options, apps: Apps, frame: seq<byte>, st: Stack, data: seq<byte>)
    requires Behind(frame, st) && st.payload == Some(data) && |st.layers| == 1
    ensures var h := if data != [] && 1 < o.maxLayers then ToGptp(data) else Nothing;
            Left(o, apps, frame, st, h, OnGptp(o, apps, st, data))
  {
    var r := apps.gptp(data).result;
    if r.Ok? && r.value <= |data| { NextBehind(frame, st, data, Gptp(r.value)); }
  }

  /** Every frame: what is left is what lies behind all headers that were decoded, with the three exceptions named. */
  lemma {:induction false} FrameLeaves(o: Options, apps: Apps, frame: seq<byte>)
    ensures Behind(frame, Plain(o, apps, frame))
    ensures Left(o, apps, frame, Plain(o, apps, frame), HandedByFrame(o, frame), DecodeFrame(o, apps, frame))
  {
    var eth := DecodeEthernet(frame);
    assert Behind(frame, Start(frame)) by { assert frame[0..] == frame; }
    if frame != [] && eth.Ok? {
      var rest := frame[eth.value.headerLen..];
      NextBehind(frame, Start(frame), frame, Ethernet(eth.value));
      var st := Start(frame).With(Ethernet(eth.value), Some(rest));
      NothingLeft(o, apps, frame, st);
      hide DecodeEthernet, OnIPv4, OnGptp, HandedByNetwork, Left, Behind;
      if eth.value.etherType == 0x0800 {
        NetworkLeaves(o, apps, frame, st, rest);
      } else if eth.value.etherType == 0x88F7 {
        PtpLeaves(o, apps, frame, st, rest);
      }
    }
  }
}
