/** What every frame comes to: the shape of the layer list, its agreement with the packet view, and its validation. */
module DispatcherProperties {
  import opened Bytes
  import opened FrameDecoders
  import opened SomeIpHeaders
  import opened Dispatcher
  import PacketView
  import Validation
  import SomeIpSd
  import HeaderOptions

  // ----- the shape of every layer list -----

  predicate IsApplication(h: Header) {
    h.SomeIp? || h.SomeIpSd? || h.DoIp? || h.Rtps?
  }

  /** Network, transport and applications above whatever `base` layers come first. */
  ghost predicate Above(layers: seq<Header>, base: nat) {
    && base < |layers| && layers[base].IPv4?
    && (base + 1 < |layers| ==> layers[base + 1].Udp? || layers[base + 1].Tcp?)
    && forall i :: base + 2 <= i < |layers| ==> IsApplication(layers[i])
  }

  ghost predicate Stacked(layers: seq<Header>) {
    layers != [] ==>
      && layers[0].Ethernet?
      && (|layers| == 1 || (|layers| == 2 && layers[1].Gptp?) || Above(layers, 1))
  }

  /** What the stages above the network layer keep. */
  ghost predicate Keeps(o: Options, st: Stack, after: Stack) {
    && st.layers <= after.layers
    && (forall i :: |st.layers| <= i < |after.layers| ==> IsApplication(after.layers[i]))
    && (|after.layers| <= o.maxLayers || after.layers == st.layers)
    && (after.complete <==> after.error.None?)
  }

  lemma {:induction false} ApplicationKeeps(o: Options, apps: Apps, st: Stack, data: seq<byte>, src: u16, dst: u16)
    requires st.complete <==> st.error.None?
    ensures Keeps(o, st, OnApplication(o, apps, st, data, src, dst))
  {
    if data != [] && |st.layers| < o.maxLayers {
      DiscoveryKeeps(o, apps, st, data);
      hide OnDiscovery, LikelyRtpsPort, RtpsMagic;
    }
  }

  lemma {:induction false} DiscoveryKeeps(o: Options, apps: Apps, st: Stack, data: seq<byte>)
    requires (st.complete <==> st.error.None?) && |st.layers| < o.maxLayers
    ensures Keeps(o, st, OnDiscovery(o, apps, st, data))
  {
  }

  lemma {:induction false} TransportShape(o: Options, apps: Apps, st: Stack, data: seq<byte>, protocol: byte)
    requires st.complete <==> st.error.None?
    ensures var r := OnTransport(o, apps, st, data, protocol);
            && (r.complete <==> r.error.None?)
            && st.layers <= r.layers
            && (r.layers == st.layers || |r.layers| <= o.maxLayers)
            && (|st.layers| < |r.layers| ==> r.layers[|st.layers|].Udp? || r.layers[|st.layers|].Tcp?)
            && forall i :: |st.layers| + 1 <= i < |r.layers| ==> IsApplication(r.layers[i])
  {
    hide DecodeUdp, DecodeTcp, OnApplication;
    var udp, tcp := DecodeUdp(data), DecodeTcp(data);
    if protocol == PROTOCOL_UDP && udp.Ok? {
      var next := st.With(Udp(udp.value), Some(data[8..]));
      ApplicationKeeps(o, apps, next, data[8..], udp.value.srcPort, udp.value.dstPort);
    } else if protocol == PROTOCOL_TCP && tcp.Ok? {
      var n := tcp.value.fields.dataOffset * 4;
      var next := st.With(Tcp(tcp.value), Some(data[n..]));
      ApplicationKeeps(o, apps, next, data[n..], tcp.value.fields.srcPort, tcp.value.fields.dstPort);
    }
  }

  lemma {:induction false} NetworkShape(o: Options, apps: Apps, st: Stack, data: seq<byte>)
    requires st.complete <==> st.error.None?
    ensures var r := OnIPv4(o, apps, st, data);
            && (r.complete <==> r.error.None?)
            && (r.layers == st.layers || (st.layers <= r.layers && Above(r.layers, |st.layers|)))
            && (|r.layers| <= |st.layers| + 1 || |r.layers| <= o.maxLayers)
  {
    hide DecodeIPv4, OnTransport;
    var ip := DecodeIPv4(data, o.validateChecksum, true);
    if ip.Ok? {
      var rest := data[ip.value.fields.ihl * 4..];
      TransportShape(o, apps, st.With(IPv4(ip.value), Some(rest)), rest, ip.value.fields.protocol);
    }
  }

  /** Every frame gives a list in layer order, no longer than the limit unless that is below two, and the result is
      marked complete exactly when it carries no error. */
  lemma {:induction false} FrameShape(o: Options, apps: Apps, data: seq<byte>)
    ensures var r := DecodeFrame(o, apps, data);
            && Stacked(r.layers)
            && (|r.layers| <= 2 || |r.layers| <= o.maxLayers)
            && (r.complete <==> r.error.None?)
  {
    hide OnIPv4, DecodeEthernet;
    var eth := DecodeEthernet(data);
    if data != [] && eth.Ok? {
      var rest := data[eth.value.headerLen..];
      var st := Start(data).With(Ethernet(eth.value), Some(rest));
      NetworkShape(o, apps, st, rest);
    }
  }

  // ----- the validator accepts what the dispatcher emits -----

  /** The name under which each header reports itself; the validator has no rule for "RTPS". */
  function NameOf(h: Header): Validation.Name {
    match h
    case Ethernet(_) => Validation.Ethernet
    case IPv4(_) => Validation.IPv4
    case Udp(_) => Validation.Udp
    case Tcp(_) => Validation.Tcp
    case SomeIp(_) => Validation.SomeIp
    case SomeIpSd(_) => Validation.SomeIpSd
    case DoIp => Validation.DoIp
    case Gptp(_) => Validation.Gptp
    case Rtps => Validation.OtherName("RTPS")
  }

  ghost predicate Describes(ls: seq<Validation.ProtocolLayer>, headers: seq<Header>) {
    |ls| == |headers| && forall i :: 0 <= i < |ls| ==> ls[i].name == NameOf(headers[i])
  }

  lemma {:induction false} StackedIsLayered(ls: seq<Validation.ProtocolLayer>, headers: seq<Header>, i: nat)
    requires Describes(ls, headers) && Stacked(headers) && i < |ls|
    ensures Validation.LayeredAt(ls, i)
  {
    assert i > 0 && ls[1].name.IPv4? ==> ls[1].name == NameOf(headers[1]);
    assert forall j :: 0 <= j < i ==> ls[j].name == NameOf(headers[j]);
  }

  /** For every input the layer list passes the layering check in both modes, wherever the layers are said to lie. */
  lemma {:induction false} FramesPassLayering(o: Options, apps: Apps, data: seq<byte>, ls: seq<Validation.ProtocolLayer>)
    requires Describes(ls, DecodeFrame(o, apps, data).layers)
    ensures Validation.LayeringErrors(ls, |ls|) == []
  {
    FrameShape(o, apps, data);
    var headers := DecodeFrame(o, apps, data).layers;
    hide DecodeFrame, Stacked, Describes, Validation.LayeredAt;
    forall i | 0 <= i < |ls| ensures Validation.LayeredAt(ls, i) {
      StackedIsLayered(ls, headers, i);
    }
    Validation.LayeringAcceptsIff(ls, |ls|);
  }

  /** A list decoded from an IP packet is refused unless it is empty: it does not begin with a link layer. */
  lemma {:induction false} IpPacketsFailLayering(o: Options, apps: Apps, data: seq<byte>, ls: seq<Validation.ProtocolLayer>)
    requires Describes(ls, DecodeFromIp(o, apps, data).layers)
    ensures Validation.LayeringErrors(ls, |ls|) == [] <==> ls == []
  {
    if data != [] { NetworkShape(o, apps, Start(data), data); }
    Validation.LayeringAcceptsIff(ls, |ls|);
    hide OnIPv4, Validation.LayeringErrors;
    if ls != [] { assert !Validation.LayeredAt(ls, 0); }
  }

  // ----- staying inside the packet -----

  /** Which application decoder is handed which bytes, and on top of how many layers. */
  datatype Handed =
    | Nothing
    | ToDoIp(data: seq<byte>)
    | ToRtps(data: seq<byte>)
    | ToGptp(data: seq<byte>)
    | ToSomeIp(data: seq<byte>, discoveryPort: bool, layers: nat)

  /** Ports of the RTPS mapping, up to domain 230: the multicast port of a domain, or one of its unicast ports. */
  predicate RtpsPort(port: u16) {
    port != 13400 && 7400 <= port <= 64920 && ((port - 7400) % 250 == 0 || (port - 7400) % 250 >= 10)
  }

  /** The bytes begin with "RTPS". */
  predicate SaysRtps(data: seq<byte>) {
    |data| >= 4 && data[0] == 0x52 && data[1] == 0x54 && data[2] == 0x50 && data[3] == 0x53
  }

  lemma {:induction false} RtpsIff(src: u16, dst: u16, data: seq<byte>)
    ensures LikelyRtpsPort(src) <==> RtpsPort(src)
    ensures LikelyRtpsPort(dst) <==> RtpsPort(dst)
    ensures RtpsMagic(data) <==> SaysRtps(data)
  {
    if |data| >= 4 {
      var m := data[..4];
      assert m[0] == data[0] && m[1] == data[1] && m[2] == data[2] && m[3] == data[3];
    }
  }

  function HandedByApplication(o: Options, n: nat, data: seq<byte>, src: u16, dst: u16): Handed {
    if data == [] || n >= o.maxLayers then Nothing
    else if src == 13400 || dst == 13400 then ToDoIp(data)
    else if (RtpsPort(src) || RtpsPort(dst)) && SaysRtps(data) then ToRtps(data)
    else if src == 30490 || dst == 30490 then ToSomeIp(data, true, n)
    else if |data| < 16 then Nothing
    else ToSomeIp(data, false, n)
  }

  function HandedByTransport(o: Options, n: nat, data: seq<byte>, protocol: byte): Handed {
    if n >= o.maxLayers || !o.decodeApplication then Nothing
    else if protocol == 17 then
      match DecodeUdp(data)
      case Err(_) => Nothing
      case Ok(udp) => HandedByApplication(o, n + 1, data[8..], udp.srcPort, udp.dstPort)
    else if protocol == 6 then
      match DecodeTcp(data)
      case Err(_) => Nothing
      case Ok(tcp) => HandedByApplication(o, n + 1, data[tcp.fields.dataOffset * 4..], tcp.fields.srcPort, tcp.fields.dstPort)
    else Nothing
  }

  function HandedByNetwork(o: Options, n: nat, data: seq<byte>): Handed {
    match DecodeIPv4(data, o.validateChecksum, true)
    case Err(_) => Nothing
    case Ok(ip) => HandedByTransport(o, n + 1, data[ip.fields.ihl * 4..], ip.fields.protocol)
  }

  /** A function of the frame and the options alone. */
  function HandedByFrame(o: Options, frame: seq<byte>): Handed {
    match DecodeEthernet(frame)
    case Err(_) => Nothing
    case Ok(eth) =>
      var rest := frame[eth.headerLen..];
      if eth.etherType == 0x0800 then HandedByNetwork(o, 1, rest)
      else if eth.etherType == 0x88F7 && rest != [] && 1 < o.maxLayers then ToGptp(rest)
      else Nothing
  }

  /** A discovery body behind a SOME/IP header leads outside when its decoder reads elsewhere or reports a size beyond
      the bytes. */
  predicate BodyLeaves(apps: Apps, body: seq<byte>) {
    !apps.sd(body).inside || (apps.sd(body).result.Ok? && apps.sd(body).result.value > |body|)
  }

  /** When the decoder that is handed the bytes leads outside: it reads elsewhere, or the dispatcher cuts off more than
      there is. */
  predicate Leaves(o: Options, apps: Apps, h: Handed) {
    match h
    case Nothing => false
    case ToDoIp(data) => !apps.doIp(data).inside || (apps.doIp(data).result.Ok? && |data| < 8)
    case ToRtps(data) => !apps.rtps(data).inside
    case ToGptp(data) => !apps.gptp(data).inside
    case ToSomeIp(data, discoveryPort, n) =>
      var d := apps.someIp(data);
      || !d.inside
      || (discoveryPort && d.result.Ok?
          && (|data| < 16 || (d.result.value.discovery && n + 1 < o.maxLayers && BodyLeaves(apps, data[16..]))))
  }

  lemma {:induction false} DiscoveryStays(o: Options, apps: Apps, st: Stack, data: seq<byte>)
    requires st.payload.Some?
    ensures OnDiscovery(o, apps, st, data).payload.None? <==> Leaves(o, apps, ToSomeIp(data, true, |st.layers|))
  {
  }

  lemma {:induction false} ApplicationStays(o: Options, apps: Apps, st: Stack, data: seq<byte>, src: u16, dst: u16)
    requires st.payload.Some?
    ensures OnApplication(o, apps, st, data, src, dst).payload.None? <==>
            Leaves(o, apps, HandedByApplication(o, |st.layers|, data, src, dst))
  {
    DiscoveryStays(o, apps, st, data);
    RtpsIff(src, dst, data);
    hide OnDiscovery, LikelyRtpsPort, RtpsMagic, RtpsPort, SaysRtps, BodyLeaves;
  }

  lemma {:induction false} TransportStays(o: Options, apps: Apps, st: Stack, data: seq<byte>, protocol: byte)
    requires st.payload.Some?
    ensures OnTransport(o, apps, st, data, protocol).payload.None? <==>
            Leaves(o, apps, HandedByTransport(o, |st.layers|, data, protocol))
  {
    assert !Leaves(o, apps, Nothing);
    hide DecodeUdp, DecodeTcp, OnApplication, Leaves;
    var udp, tcp := DecodeUdp(data), DecodeTcp(data);
    if protocol == PROTOCOL_UDP && udp.Ok? {
      hide HandedByApplication;
      var next := st.With(Udp(udp.value), Some(data[8..]));
      ApplicationStays(o, apps, next, data[8..], udp.value.srcPort, udp.value.dstPort);
    } else if protocol == PROTOCOL_TCP && tcp.Ok? {
      var n := tcp.value.fields.dataOffset * 4;
      var next := st.With(Tcp(tcp.value), Some(data[n..]));
      ApplicationStays(o, apps, next, data[n..], tcp.value.fields.srcPort, tcp.value.fields.dstPort);
    }
  }

  lemma {:induction false} NetworkStays(o: Options, apps: Apps, st: Stack, data: seq<byte>)
    requires st.payload.Some?
    ensures OnIPv4(o, apps, st, data).payload.None? <==> Leaves(o, apps, HandedByNetwork(o, |st.layers|, data))
  {
    assert !Leaves(o, apps, Nothing);
    hide DecodeIPv4, OnTransport, HandedByTransport, Leaves;
    var ip := DecodeIPv4(data, o.validateChecksum, true);
    if ip.Ok? {
      var rest := data[ip.value.fields.ihl * 4..];
      TransportStays(o, apps, st.With(IPv4(ip.value), Some(rest)), rest, ip.value.fields.protocol);
    }
  }

  /** For every frame and any application decoders: decoding stays inside the bytes exactly unless the decoder that the
      frame is handed to leads outside. */
  lemma {:induction false} FrameStaysInsideIff(o: Options, apps: Apps, frame: seq<byte>)
    ensures DecodeFrame(o, apps, frame).payload.Some? <==> !Leaves(o, apps, HandedByFrame(o, frame))
  {
    var eth := DecodeEthernet(frame);
    if frame != [] && eth.Ok? {
      hide DecodeEthernet, OnIPv4, HandedByNetwork;
      var rest := frame[eth.value.headerLen..];
      NetworkStays(o, apps, Start(frame).With(Ethernet(eth.value), Some(rest)), rest);
    }
  }

  // ----- with the SOME/IP and service-discovery decoders of the repository -----

  /** Of the discovery header the dispatcher uses the reported size; the decoder tests every read against its bytes. */
  function SdSize(s: seq<byte>, limits: SomeIpSd.Limits): Decoded<nat> {
    match SomeIpSd.Decode(s, limits)
    case Ok(header, _) => Decoded(Ok(SomeIpSd.HeaderSize(header)), true)
    case Err(code) => Decoded(Err(if code.BufferTooSmall? then BufferTooSmall else TruncatedPayload), true)
  }

  ghost predicate Real(apps: Apps, limits: SomeIpSd.Limits) {
    (forall s :: apps.someIp(s) == DecodeSomeIp(s)) && forall s :: apps.sd(s) == SdSize(s, limits)
  }

  /** The span the dispatcher forms behind a service-discovery header lies within the bytes exactly when the announced
      entries stay below 2^32 - 8 bytes (or the packet is more than 4 GiB longer than the message). */
  lemma {:induction false} SdSliceInsideIff(body: seq<byte>, limits: SomeIpSd.Limits)
    requires SomeIpSd.Decode(body, limits).Ok?
    ensures var r, size := SomeIpSd.Decode(body, limits), SdSize(body, limits).result;
            && size.Ok?
            && (Slice(body, size.value).Some? <==>
                r.header.entriesLength < TWO32 - 8 || |body| >= r.consumed + TWO32)
  {
    SomeIpSd.ReportedSizeIff(body, limits);
    hide SomeIpSd.Decode, SomeIpSd.HeaderSize;
  }

  /** A discovery message that decodes although its announced entries wrap around, without 4 GiB more behind it. */
  predicate Wraps(body: seq<byte>, limits: SomeIpSd.Limits) {
    match SomeIpSd.Decode(body, limits)
    case Err(_) => false
    case Ok(_, consumed) => Be32(body, 4) >= TWO32 - 8 && |body| < consumed + TWO32
  }

  lemma {:induction false} EntriesLengthRead(body: seq<byte>, limits: SomeIpSd.Limits)
    requires SomeIpSd.Decode(body, limits).Ok?
    ensures |body| >= 12 && SomeIpSd.Decode(body, limits).header.entriesLength == Be32(body, 4)
  {
    hide SomeIpSd.EntriesFrom, SomeIpSd.OptionsFrom, Be32;
  }

  lemma {:induction false} BodyLeavesIff(apps: Apps, limits: SomeIpSd.Limits, body: seq<byte>)
    requires Real(apps, limits)
    ensures BodyLeaves(apps, body) <==> Wraps(body, limits)
  {
    assert apps.sd(body) == SdSize(body, limits);
    if SomeIpSd.Decode(body, limits).Ok? {
      SdSliceInsideIff(body, limits);
      EntriesLengthRead(body, limits);
      hide SomeIpSd.Decode, Be32;
    }
  }

  /** An accepted SOME/IP segment that announces more bytes than there are. */
  predicate SegmentTooLong(data: seq<byte>) {
    Verdict(data).Ok? && IsSegment(data[14]) && Be32(data, 4) + 8 > |data|
  }

  /** An accepted SOME/IP-SD header with a wrapping body, where a layer for it is left. */
  predicate DiscoveryWraps(o: Options, data: seq<byte>, n: nat, limits: SomeIpSd.Limits) {
    Verdict(data).Ok? && Verdict(data).value.discovery && n + 1 < o.maxLayers && Wraps(data[16..], limits)
  }

  /** For every frame whose bytes go to SOME/IP, said of these bytes: decoding leaves them exactly for a segment that
      announces more than is there, on any port, and on the discovery port for a body whose entries wrap around. */
  lemma {:induction false} SomeIpStaysInsideIff(o: Options, apps: Apps, limits: SomeIpSd.Limits, frame: seq<byte>)
    requires Real(apps, limits) && HandedByFrame(o, frame).ToSomeIp?
    ensures var h := HandedByFrame(o, frame);
            DecodeFrame(o, apps, frame).payload.None? <==>
            SegmentTooLong(h.data) || (h.discoveryPort && DiscoveryWraps(o, h.data, h.layers, limits))
  {
    FrameStaysInsideIff(o, apps, frame);
    var h := HandedByFrame(o, frame);
    hide HandedByFrame, DecodeFrame, BodyLeaves, Wraps;
    CopyOutsideIff(h.data);
    assert apps.someIp(h.data) == DecodeSomeIp(h.data);
    if |h.data| >= 16 { BodyLeavesIff(apps, limits, h.data[16..]); }
    hide Verdict, Copied, Be32;
  }

  // ----- two frames that lead outside -----

  /** Ethernet, IPv4 and UDP to port 30490. */
  function Headers(): (s: seq<byte>)
    ensures |s| == 42
  {
    Zeros(42)[12 := 0x08][14 := 0x45][17 := 56][23 := PROTOCOL_UDP][36 := 0x77][37 := 0x1A][39 := 36]
  }

  /** A SOME/IP-SD header, and a SOME/IP segment that announces a thousand bytes and has twelve. */
  function DiscoveryHeader(): (s: seq<byte>)
    ensures |s| == 16
  {
    Zeros(16)[0 := 0xFF][1 := 0xFF][2 := 0x81][7 := 20][12 := 1][14 := 2]
  }

  function LongSegment(): (s: seq<byte>)
    ensures |s| == 20
  {
    Zeros(20)[6 := 0x03][7 := 0xE8][12 := 1][14 := 0x22]
  }

  function WrappingFrame(): seq<byte> {
    Headers() + (DiscoveryHeader() + SomeIpSd.WRAPPING)
  }

  function SegmentFrame(): seq<byte> {
    Headers() + LongSegment()
  }

  const DEFAULTS := Options(false, true, 16, false)

  lemma {:induction false} HeadersEthernet(rest: seq<byte>)
    ensures var r := DecodeEthernet(Headers() + rest);
            r.Ok? && r.value.headerLen == 14 && r.value.etherType == ETHERTYPE_IPV4
  {
  }

  lemma {:induction false} HeadersIPv4(rest: seq<byte>)
    ensures var r := DecodeIPv4((Headers() + rest)[14..], false, true);
            r.Ok? && r.value.fields.ihl == 5 && r.value.fields.protocol == PROTOCOL_UDP
  {
    hide HeaderOptions.Parse;
    var s := (Headers() + rest)[14..];
    assert s[0] == 0x45 && s[2] == 0 && s[3] == 56 && s[9] == PROTOCOL_UDP;
  }

  lemma {:induction false} HeadersUdp(rest: seq<byte>)
    ensures var s := (Headers() + rest)[14..][20..]; var r := DecodeUdp(s);
            r.Ok? && r.value.srcPort == 0 && r.value.dstPort == PORT_SD && s[8..] == rest
  {
    var s := (Headers() + rest)[14..][20..];
    assert s[0] == 0 && s[1] == 0 && s[2] == 0x77 && s[3] == 0x1A && s[4] == 0 && s[5] == 36;
  }

  lemma {:induction false} HeadersHand(message: seq<byte>)
    requires message != [] && message[0] != 0x52
    ensures HandedByFrame(DEFAULTS, Headers() + message) == ToSomeIp(message, true, 3)
  {
    HeadersEthernet(message);
    HeadersIPv4(message);
    HeadersUdp(message);
    hide Headers, DecodeEthernet, DecodeIPv4, DecodeUdp;
  }

  lemma {:induction false} DiscoveryHeaderRead(rest: seq<byte>)
    ensures var r := Verdict(DiscoveryHeader() + rest); r.Ok? && r.value.discovery
  {
    var s := DiscoveryHeader() + rest;
    assert s[0] == 0xFF && s[1] == 0xFF && s[2] == 0x81 && s[3] == 0 && s[12] == 1 && s[14] == 2;
    assert s[4] == 0 && s[5] == 0 && s[6] == 0 && s[7] == 20;
  }

  /** Seventy bytes whose last twelve announce 2^32 - 8 bytes of entries. */
  lemma {:induction false} WrappingDiscoveryLeavesBytes(apps: Apps, limits: SomeIpSd.Limits)
    requires Real(apps, limits)
    ensures |WrappingFrame()| == 70 && DecodeFrame(DEFAULTS, apps, WrappingFrame()).payload.None?
  {
    var message := DiscoveryHeader() + SomeIpSd.WRAPPING;
    assert message[0] == 0xFF;
    HeadersHand(message);
    DiscoveryHeaderRead(SomeIpSd.WRAPPING);
    SomeIpSd.WrappingFields();
    SomeIpSd.WrappedSizeDecodes(limits);
    SomeIpStaysInsideIff(DEFAULTS, apps, limits, WrappingFrame());
    hide Real, HandedByFrame, DecodeFrame, Headers, DiscoveryHeader, Verdict, Be32, SomeIpSd.WRAPPING, SomeIpSd.Decode;
    assert message[16..] == SomeIpSd.WRAPPING;
  }

  /** Sixty-two bytes with a segment of which 988 bytes would be copied. */
  lemma {:induction false} LongSegmentLeavesBytes(apps: Apps, limits: SomeIpSd.Limits)
    requires Real(apps, limits)
    ensures |SegmentFrame()| == 62 && DecodeFrame(DEFAULTS, apps, SegmentFrame()).payload.None?
    ensures Copied(LongSegment()) == 988
  {
    LongSegmentRead();
    HeadersHand(LongSegment());
    SomeIpStaysInsideIff(DEFAULTS, apps, limits, SegmentFrame());
    hide Real, HandedByFrame, DecodeFrame, Headers, LongSegment, Verdict, Be32;
  }

  lemma {:induction false} LongSegmentRead()
    ensures var s := LongSegment(); s[0] == 0 && Verdict(s).Ok? && IsSegment(s[14]) && Be32(s, 4) == 1000
  {
    var s := LongSegment();
    assert s[12] == 1 && s[14] == 0x22 && s[4] == 0 && s[5] == 0 && s[6] == 3 && s[7] == 0xE8;
    assert s[17] == 0 && s[18] == 0 && s[19] == 0;
  }

  // ----- agreement with the packet view -----

  /** The layers of a frame whose application layer is left alone. */
  lemma {:induction false} PlainLayers(o: Options, apps: Apps, data: seq<byte>)
    requires !o.decodeApplication && |DecodeFrame(o, apps, data).layers| >= 2
    requires DecodeFrame(o, apps, data).layers[1].IPv4?
    ensures var r, eth := DecodeFrame(o, apps, data), DecodeEthernet(data);
            && eth.Ok? && eth.value.etherType == ETHERTYPE_IPV4 && r.layers[0] == Ethernet(eth.value)
            && var ip := DecodeIPv4(data[eth.value.headerLen..], o.validateChecksum, true);
               && ip.Ok? && r.layers[1] == IPv4(ip.value)
               && var rest := data[eth.value.headerLen..][ip.value.fields.ihl * 4..];
                  && (|r.layers| == 2 || |r.layers| == 3)
                  && (|r.layers| == 3 ==>
                        && (r.layers[2].Udp? ==> ip.value.fields.protocol == PROTOCOL_UDP && DecodeUdp(rest) == Ok(r.layers[2].udp)
                                                 && r.payload == Some(rest[8..]))
                        && (r.layers[2].Tcp? ==> ip.value.fields.protocol == PROTOCOL_TCP && DecodeTcp(rest) == Ok(r.layers[2].tcp)
                                                 && r.payload == Some(rest[r.layers[2].tcp.fields.dataOffset * 4..]))
                        && (r.layers[2].Udp? || r.layers[2].Tcp?))
  {
    hide DecodeEthernet, DecodeIPv4, DecodeUdp, DecodeTcp, OnApplication;
  }

  function SixFlags(f: TcpFields): TcpFields {
    f.(flags := f.flags % 0x40)
  }

  ghost predicate ThreeLayers(layers: seq<Header>) {
    |layers| >= 3 && layers[0].Ethernet? && layers[1].IPv4? && (layers[2].Udp? || layers[2].Tcp?)
  }

  /** The view of a frame shows these headers, where they lie. */
  ghost predicate ShowsHeaders(data: seq<byte>, layers: seq<Header>)
    requires ThreeLayers(layers)
  {
    var eth, ip := layers[0].eth, layers[1].ip.fields;
    && PacketView.ViewIPv4(data) == Some(ip)
    && PacketView.L3Offset(data) == eth.headerLen
    && PacketView.L4Offset(data) == eth.headerLen + ip.ihl * 4
    && (layers[2].Udp? ==> PacketView.ViewUdp(data) == Some(layers[2].udp) && PacketView.ViewTcp(data).None?)
    && (layers[2].Tcp? ==> PacketView.ViewUdp(data).None? && PacketView.ViewTcp(data) == Some(SixFlags(layers[2].tcp.fields)))
  }

  /** The headers and the bytes behind them. */
  ghost predicate Shows(data: seq<byte>, st: Stack)
    requires ThreeLayers(st.layers)
  {
    ShowsHeaders(data, st.layers) && Some(PacketView.Payload(data)) == st.payload
  }

  /** Whenever the dispatcher decodes Ethernet, IPv4 and a transport header and leaves the application alone, the view
      shows the same headers, offsets and payload exactly when the frame carries at most one VLAN tag; with two it shows
      nothing. */
  lemma {:induction false} ViewAgreesIffNoSecondTag(o: Options, apps: Apps, data: seq<byte>)
    requires !o.decodeApplication && |DecodeFrame(o, apps, data).layers| == 3
    ensures var r := DecodeFrame(o, apps, data);
            && ThreeLayers(r.layers)
            && (Shows(data, r) <==> r.layers[0].eth.inner.None?)
            && (ShowsHeaders(data, r.layers) <==> r.layers[0].eth.inner.None?)
            && (r.layers[0].eth.inner.Some? ==>
                  PacketView.ViewIPv4(data).None? && PacketView.ViewUdp(data).None? && PacketView.ViewTcp(data).None?)
  {
    FrameShape(o, apps, data);
    PlainLayers(o, apps, data);
    var r := DecodeFrame(o, apps, data);
    var eth := r.layers[0].eth;
    if eth.inner.Some? {
      PacketView.DoubleTagsHideIPv4(data);
    } else {
      SingleTagAgrees(o, data, r);
    }
  }

  /** Decoding the application adds layers behind the first three and changes none of these. */
  lemma {:induction false} ApplicationsKeepHeaders(o: Options, apps: Apps, data: seq<byte>)
    requires |DecodeFrame(o, apps, data).layers| >= 3
    ensures DecodeFrame(o.(decodeApplication := false), apps, data).layers == DecodeFrame(o, apps, data).layers[..3]
  {
    FrameShape(o, apps, data);
    var eth := DecodeEthernet(data).value;
    hide DecodeEthernet;
    var rest := data[eth.headerLen..];
    var st := Start(data).With(Ethernet(eth), Some(rest));
    var ip := DecodeIPv4(rest, o.validateChecksum, true);
    hide DecodeIPv4, OnTransport;
    if ip.Ok? {
      var segment := rest[ip.value.fields.ihl * 4..];
      TransportKeepsHeader(o, apps, st.With(IPv4(ip.value), Some(segment)), segment, ip.value.fields.protocol);
    }
  }

  lemma {:induction false} TransportKeepsHeader(o: Options, apps: Apps, st: Stack, data: seq<byte>, protocol: byte)
    requires st.complete <==> st.error.None?
    ensures var n := |st.layers|;
            var full, plain := OnTransport(o, apps, st, data, protocol), OnTransport(o.(decodeApplication := false), apps, st, data, protocol);
            |full.layers| > n ==> plain.layers == full.layers[..n + 1]
  {
    hide DecodeUdp, DecodeTcp, OnApplication;
    var udp, tcp := DecodeUdp(data), DecodeTcp(data);
    if protocol == PROTOCOL_UDP && udp.Ok? {
      var next := st.With(Udp(udp.value), Some(data[8..]));
      ApplicationKeeps(o, apps, next, data[8..], udp.value.srcPort, udp.value.dstPort);
    } else if protocol == PROTOCOL_TCP && tcp.Ok? {
      var n := tcp.value.fields.dataOffset * 4;
      var next := st.With(Tcp(tcp.value), Some(data[n..]));
      ApplicationKeeps(o, apps, next, data[n..], tcp.value.fields.srcPort, tcp.value.fields.dstPort);
    }
  }

  /** With any options: whenever Ethernet, IPv4 and a transport header are decoded, the view shows the same headers and
      offsets exactly when the frame carries at most one VLAN tag, and its payload is then what lies behind them. */
  lemma {:induction false} HeadersAgreeIffNoSecondTag(o: Options, apps: Apps, data: seq<byte>)
    requires |DecodeFrame(o, apps, data).layers| >= 3
    ensures var r, plain := DecodeFrame(o, apps, data), DecodeFrame(o.(decodeApplication := false), apps, data);
            && ThreeLayers(r.layers)
            && (ShowsHeaders(data, r.layers) <==> r.layers[0].eth.inner.None?)
            && (r.layers[0].eth.inner.None? ==> plain.payload == Some(PacketView.Payload(data)))
  {
    ApplicationsKeepHeaders(o, apps, data);
    ViewAgreesIffNoSecondTag(o.(decodeApplication := false), apps, data);
    hide DecodeFrame, PacketView.ViewIPv4, PacketView.ViewUdp, PacketView.ViewTcp, PacketView.L3Offset, PacketView.L4Offset, PacketView.Payload;
  }

  lemma {:induction false} SingleTagAgrees(o: Options, data: seq<byte>, r: Stack)
    requires |r.layers| == 3 && ThreeLayers(r.layers)
    requires var eth, ip := r.layers[0].eth, r.layers[1].ip;
             && DecodeEthernet(data) == Ok(eth) && eth.inner.None? && eth.etherType == ETHERTYPE_IPV4
             && DecodeIPv4(data[eth.headerLen..], o.validateChecksum, true) == Ok(ip)
             && var rest := data[eth.headerLen..][ip.fields.ihl * 4..];
                && (r.layers[2].Udp? ==> ip.fields.protocol == PROTOCOL_UDP && DecodeUdp(rest) == Ok(r.layers[2].udp)
                                         && r.payload == Some(rest[8..]))
                && (r.layers[2].Tcp? ==> ip.fields.protocol == PROTOCOL_TCP && DecodeTcp(rest) == Ok(r.layers[2].tcp)
                                         && r.payload == Some(rest[r.layers[2].tcp.fields.dataOffset * 4..]))
    ensures Shows(data, r)
  {
    hide DecodeEthernet, DecodeIPv4, DecodeUdp, DecodeTcp, SixFlags;
    hide PacketView.ViewIPv4, PacketView.L3Offset, PacketView.Payload, PacketView.ViewUdp, PacketView.ViewTcp;
    var eth, ip := r.layers[0].eth, r.layers[1].ip;
    PacketView.IPv4Agrees(data, o.validateChecksum);
    var i, n := eth.headerLen, ip.fields.ihl * 4;
    assert PacketView.L4Offset(data) == i + n;
    hide PacketView.L4Offset;
    assert data[i..][n..] == data[i + n..];
    if r.layers[2].Udp? {
      UdpShows(data, ip.fields, r.layers[2].udp);
    } else {
      TcpShows(data, ip.fields, r.layers[2].tcp);
    }
  }

  lemma {:induction false} UdpShows(data: seq<byte>, ip: IPv4Fields, udp: UdpHeader)
    requires PacketView.ViewIPv4(data) == Some(ip) && ip.protocol == PROTOCOL_UDP && PacketView.L4Offset(data) <= |data|
    requires DecodeUdp(data[PacketView.L4Offset(data)..]) == Ok(udp)
    ensures PacketView.ViewUdp(data) == Some(udp) && PacketView.ViewTcp(data).None?
    ensures PacketView.Payload(data) == data[PacketView.L4Offset(data)..][8..]
  {
    PacketView.UdpAgrees(data, ip);
    hide DecodeUdp, PacketView.ViewIPv4, PacketView.L4Offset, PacketView.Payload, PacketView.ViewUdp;
    var i := PacketView.L4Offset(data);
    assert data[i..][8..] == data[i + 8..];
  }

  lemma {:induction false} TcpShows(data: seq<byte>, ip: IPv4Fields, tcp: TcpHeader)
    requires PacketView.ViewIPv4(data) == Some(ip) && ip.protocol == PROTOCOL_TCP && PacketView.L4Offset(data) <= |data|
    requires DecodeTcp(data[PacketView.L4Offset(data)..]) == Ok(tcp)
    ensures PacketView.ViewTcp(data) == Some(SixFlags(tcp.fields)) && PacketView.ViewUdp(data).None?
    ensures PacketView.Payload(data) == data[PacketView.L4Offset(data)..][tcp.fields.dataOffset * 4..]
  {
    PacketView.TcpAgrees(data, ip);
    hide DecodeTcp, PacketView.ViewIPv4, PacketView.L4Offset, PacketView.Payload, PacketView.ViewTcp;
    var i, m := PacketView.L4Offset(data), tcp.fields.dataOffset * 4;
    assert data[i..][m..] == data[i + m..];
  }

  /** Two tags, IPv4 and UDP from port 0 to port 0: a frame of three layers of which the view shows none. */
  lemma {:induction false} DoubleTaggedFrame(apps: Apps)
    ensures var o := Options(false, false, 16, false);
            var r := DecodeFrame(o, apps, TwiceTagged());
            && |r.layers| == 3 && ThreeLayers(r.layers)
            && r.layers[0].eth.inner.Some? && !Shows(TwiceTagged(), r)
  {
    var o := Options(false, false, 16, false);
    var data := TwiceTagged();
    TwiceTaggedEthernet();
    TwiceTaggedIPv4();
    TwiceTaggedUdp();
    hide TwiceTagged, DecodeEthernet, DecodeIPv4, DecodeUdp, OnApplication, Shows;
    assert |DecodeFrame(o, apps, data).layers| == 3;
    ViewAgreesIffNoSecondTag(o, apps, data);
  }

  function TwiceTagged(): (s: seq<byte>)
    ensures |s| == 50
  {
    Zeros(50)[12 := 0x81][16 := 0x81][20 := 0x08][22 := 0x45][25 := 28][31 := PROTOCOL_UDP][47 := 8]
  }

  lemma {:induction false} TwiceTaggedEthernet()
    ensures var r := DecodeEthernet(TwiceTagged());
            r.Ok? && r.value.inner.Some? && r.value.headerLen == 22 && r.value.etherType == ETHERTYPE_IPV4
  {
  }

  lemma {:induction false} TwiceTaggedIPv4()
    ensures var r := DecodeIPv4(TwiceTagged()[22..], false, true);
            r.Ok? && r.value.fields.ihl == 5 && r.value.fields.protocol == PROTOCOL_UDP
  {
    hide HeaderOptions.Parse;
    var s := TwiceTagged()[22..];
    assert s[0] == 0x45 && s[2] == 0 && s[3] == 28 && s[9] == PROTOCOL_UDP;
  }

  lemma {:induction false} TwiceTaggedUdp()
    ensures DecodeUdp(TwiceTagged()[22..][20..]).Ok?
  {
    var s := TwiceTagged()[22..][20..];
    assert s[4] == 0 && s[5] == 8;
  }
}
