/** The dispatcher that takes a frame apart layer by layer. */
module Dispatcher {
  import opened Bytes
  import opened FrameDecoders
  import opened SomeIpHeaders

  const PORT_DOIP: u16 := 13400
  const PORT_SD: u16 := 30490

  /** `stopOnError` makes no difference: nothing is decoded behind a header that failed, with or without it. */
  datatype Options = Options(stopOnError: bool, decodeApplication: bool, maxLayers: nat, validateChecksum: bool)

  datatype Header =
    | Ethernet(eth: EthernetHeader)
    | IPv4(ip: IPv4Header)
    | Udp(udp: UdpHeader)
    | Tcp(tcp: TcpHeader)
    | SomeIp(info: SomeIpInfo)
    | SomeIpSd(size: nat)
    | DoIp
    | Gptp(messageLength: u16)
    | Rtps

  /** The application decoders: any functions, known here only by what the dispatcher uses of their results. */
  datatype Apps = Apps(
    doIp: seq<byte> -> Decoded<()>,
    someIp: seq<byte> -> Decoded<SomeIpInfo>,
    sd: seq<byte> -> Decoded<nat>,
    gptp: seq<byte> -> Decoded<u16>,
    rtps: seq<byte> -> Decoded<()>)

  /** What is left behind `n` bytes; nothing when the program would form a span outside the bytes. */
  function Slice(s: seq<byte>, n: nat): Option<seq<byte>> {
    if n <= |s| then Some(s[n..]) else None
  }

  /** Without a payload the program has left the bytes of the packet. */
  datatype Stack = Stack(layers: seq<Header>, payload: Option<seq<byte>>, error: Option<Code>, complete: bool)
  {
    function With(h: Header, payload: Option<seq<byte>>): Stack {
      this.(layers := layers + [h], payload := payload)
    }

    function Failed(code: Code): Stack {
      this.(error := Some(code), complete := false)
    }

    /** The same, unless a decoder read elsewhere. */
    function Provided(inside: bool): Stack {
      if inside then this else this.(payload := None)
    }

    /** A failure that does not replace an earlier one. */
    function FailedFirst(code: Code): Stack {
      if error.None? then Failed(code) else this
    }
  }

  // ----- what each stage makes of the result so far -----

  predicate LikelyRtpsPort(port: u16) {
    && port != PORT_DOIP && 7400 <= port <= 7400 + 250 * 230 + 20
    && ((port - 7400) % 250 == 0 || (port - 7400) % 250 >= 10)
  }

  predicate RtpsMagic(data: seq<byte>) {
    |data| >= 4 && data[..4] == [0x52, 0x54, 0x50, 0x53]
  }

  function OnRtps(apps: Apps, st: Stack, data: seq<byte>): Stack {
    var d := apps.rtps(data);
    match d.result
    case Err(code) => st.Failed(code).Provided(d.inside)
    case Ok(_) => st.With(Rtps, Some([])).Provided(d.inside)
  }

  function OnDiscoveryBody(apps: Apps, st: Stack, body: seq<byte>): Stack {
    var d := apps.sd(body);
    match d.result
    case Err(_) => st.Provided(d.inside)
    case Ok(n) => st.With(SomeIpSd(n), Slice(body, n)).Provided(d.inside)
  }

  function OnDiscovery(o: Options, apps: Apps, st: Stack, data: seq<byte>): Stack {
    var d := apps.someIp(data);
    match d.result
    case Err(code) => st.FailedFirst(code).Provided(d.inside)
    case Ok(info) =>
      var body := Slice(data, 16);
      if info.discovery && |st.layers| + 1 < o.maxLayers && body.Some?
      then OnDiscoveryBody(apps, st.With(SomeIp(info), st.payload), body.value).Provided(d.inside)
      else st.With(SomeIp(info), body).Provided(d.inside)
  }

  function OnDoIp(apps: Apps, st: Stack, data: seq<byte>): Stack {
    var d := apps.doIp(data);
    match d.result
    case Err(code) => st.FailedFirst(code).Provided(d.inside)
    case Ok(_) => st.With(DoIp, Slice(data, 8)).Provided(d.inside)
  }

  /** A SOME/IP header is looked for on any other port; whether it is believed is decided after decoding. */
  function OnOtherPort(apps: Apps, st: Stack, data: seq<byte>): Stack {
    if |data| < 16 then st
    else
      var d := apps.someIp(data);
      if d.result.Ok? && 8 <= d.result.value.length <= |data|
      then st.With(SomeIp(d.result.value), Some(data[16..])).Provided(d.inside)
      else st.Provided(d.inside)
  }

  function OnApplication(o: Options, apps: Apps, st: Stack, data: seq<byte>, src: u16, dst: u16): Stack {
    if data == [] || |st.layers| >= o.maxLayers then st
    else if src == PORT_DOIP || dst == PORT_DOIP then OnDoIp(apps, st, data)
    else if (LikelyRtpsPort(src) || LikelyRtpsPort(dst)) && RtpsMagic(data) then OnRtps(apps, st, data)
    else if src == PORT_SD || dst == PORT_SD then OnDiscovery(o, apps, st, data)
    else OnOtherPort(apps, st, data)
  }

  function OnTransport(o: Options, apps: Apps, st: Stack, data: seq<byte>, protocol: byte): Stack {
    if |st.layers| >= o.maxLayers then st
    else if protocol == PROTOCOL_UDP then
      match DecodeUdp(data)
      case Err(code) => st.Failed(code)
      case Ok(udp) =>
        var rest := data[8..];
        var next := st.With(Udp(udp), Some(rest));
        if o.decodeApplication then OnApplication(o, apps, next, rest, udp.srcPort, udp.dstPort) else next
    else if protocol == PROTOCOL_TCP then
      match DecodeTcp(data)
      case Err(code) => st.Failed(code)
      case Ok(tcp) =>
        var rest := data[tcp.fields.dataOffset * 4..];
        var next := st.With(Tcp(tcp), Some(rest));
        if o.decodeApplication && rest != []
        then OnApplication(o, apps, next, rest, tcp.fields.srcPort, tcp.fields.dstPort) else next
    else st
  }

  function OnGptp(o: Options, apps: Apps, st: Stack, data: seq<byte>): Stack {
    if data == [] || |st.layers| >= o.maxLayers then st
    else
      var d := apps.gptp(data);
      match d.result
      case Err(code) => st.Failed(code).Provided(d.inside)
      case Ok(n) => st.With(Gptp(n), Some(if n <= |data| then data[n..] else [])).Provided(d.inside)
  }

  function Start(data: seq<byte>): Stack {
    Stack([], Some(data), None, true)
  }

  function OnIPv4(o: Options, apps: Apps, st: Stack, data: seq<byte>): Stack {
    match DecodeIPv4(data, o.validateChecksum, true)
    case Err(code) => st.Failed(code)
    case Ok(ip) =>
      var rest := data[ip.fields.ihl * 4..];
      OnTransport(o, apps, st.With(IPv4(ip), Some(rest)), rest, ip.fields.protocol)
  }

  function DecodeFrame(o: Options, apps: Apps, data: seq<byte>): Stack {
    if data == [] then Start(data).Failed(BufferTooSmall)
    else
      match DecodeEthernet(data)
      case Err(code) => Start(data).Failed(code)
      case Ok(eth) =>
        var rest := data[eth.headerLen..];
        var st := Start(data).With(Ethernet(eth), Some(rest));
        if eth.etherType == ETHERTYPE_IPV4 then OnIPv4(o, apps, st, rest)
        else if eth.etherType == ETHERTYPE_PTP then OnGptp(o, apps, st, rest)
        else st
  }

  function DecodeFromIp(o: Options, apps: Apps, data: seq<byte>): Stack {
    if data == [] then Start(data).Failed(BufferTooSmall) else OnIPv4(o, apps, Start(data), data)
  }

  // ----- the program -----

  class DecodeStackResult {
    var layers: seq<Header>
    var payload: Option<seq<byte>>
    var error: Option<Code>
    var complete: bool

    function Value(): Stack
      reads this
    {
      Stack(layers, payload, error, complete)
    }

    constructor (data: seq<byte>)
      ensures Value() == Start(data)
    {
      layers, payload, error, complete := [], Some(data), None, true;
    }

    method Fail(code: Code)
      modifies this
      ensures Value() == old(Value()).Failed(code)
    {
      error := Some(code);
      complete := false;
    }

    method Keep(inside: bool)
      modifies this
      ensures Value() == old(Value()).Provided(inside)
    {
      if !inside { payload := None; }
    }

    method Push(h: Header)
      modifies this
      ensures Value() == old(Value()).With(h, old(payload))
    {
      layers := layers + [h];
    }
  }

  method DecodeRtps(o: Options, apps: Apps, result: DecodeStackResult, data: seq<byte>)
    requires data != [] && |result.layers| < o.maxLayers
    modifies result
    ensures result.Value() == OnRtps(apps, old(result.Value()), data)
  {
    var d := apps.rtps(data);
    if d.result.Err? {
      result.Fail(d.result.code);
    } else {
      result.Push(Rtps);
      result.payload := Some([]);
    }
    result.Keep(d.inside);
  }

  method DecodeDiscovery(o: Options, apps: Apps, result: DecodeStackResult, data: seq<byte>)
    modifies result
    ensures result.Value() == OnDiscovery(o, apps, old(result.Value()), data)
  {
    var d := apps.someIp(data);
    var r := d.result;
    if r.Ok? {
      result.Push(SomeIp(r.value));
      var body := Slice(data, 16);
      if r.value.discovery && |result.layers| < o.maxLayers && body.Some? {
        var sd := apps.sd(body.value);
        if sd.result.Ok? {
          result.Push(SomeIpSd(sd.result.value));
          result.payload := Slice(body.value, sd.result.value);
        }
        result.Keep(sd.inside);
      } else {
        result.payload := body;
      }
    } else if result.error.None? {
      result.Fail(r.code);
    }
    result.Keep(d.inside);
  }

  method DecodeDoIp(apps: Apps, result: DecodeStackResult, data: seq<byte>)
    modifies result
    ensures result.Value() == OnDoIp(apps, old(result.Value()), data)
  {
    var d := apps.doIp(data);
    if d.result.Ok? {
      result.Push(DoIp);
      result.payload := Slice(data, 8);
    } else if result.error.None? {
      result.Fail(d.result.code);
    }
    result.Keep(d.inside);
  }

  method DecodeApplication(o: Options, apps: Apps, result: DecodeStackResult, data: seq<byte>, src: u16, dst: u16)
    modifies result
    ensures result.Value() == OnApplication(o, apps, old(result.Value()), data, src, dst)
  {
    hide OnDiscovery, OnDoIp, OnRtps;
    if data == [] || |result.layers| >= o.maxLayers { return; }
    if src == PORT_DOIP || dst == PORT_DOIP {
      DecodeDoIp(apps, result, data);
      return;
    }
    if LikelyRtpsPort(src) || LikelyRtpsPort(dst) {
      if RtpsMagic(data) {
        DecodeRtps(o, apps, result, data);
        return;
      }
    }
    if src == PORT_SD || dst == PORT_SD {
      DecodeDiscovery(o, apps, result, data);
      return;
    }
    if |data| >= 16 {
      var d := apps.someIp(data);
      var r := d.result;
      if r.Ok? && 8 <= r.value.length <= |data| {
        result.Push(SomeIp(r.value));
        result.payload := Some(data[16..]);
      }
      result.Keep(d.inside);
    }
  }

  method DecodeTransport(o: Options, apps: Apps, result: DecodeStackResult, data: seq<byte>, protocol: byte)
    modifies result
    ensures result.Value() == OnTransport(o, apps, old(result.Value()), data, protocol)
  {
    hide OnApplication, DecodeUdp, DecodeTcp;
    if |result.layers| >= o.maxLayers { return; }
    if protocol == PROTOCOL_UDP {
      var r := DecodeUdp(data);
      if r.Err? {
        result.Fail(r.code);
      } else {
        result.Push(Udp(r.value));
        result.payload := Some(data[8..]);
        if o.decodeApplication {
          DecodeApplication(o, apps, result, data[8..], r.value.srcPort, r.value.dstPort);
        }
      }
    } else if protocol == PROTOCOL_TCP {
      var r := DecodeTcp(data);
      if r.Err? {
        result.Fail(r.code);
      } else {
        result.Push(Tcp(r.value));
        var rest := data[r.value.fields.dataOffset * 4..];
        result.payload := Some(rest);
        if o.decodeApplication && rest != [] {
          DecodeApplication(o, apps, result, rest, r.value.fields.srcPort, r.value.fields.dstPort);
        }
      }
    }
  }

  method DecodeNetwork(o: Options, apps: Apps, result: DecodeStackResult, data: seq<byte>)
    modifies result
    ensures result.Value() == OnIPv4(o, apps, old(result.Value()), data)
  {
    hide OnTransport, DecodeIPv4;
    var r := DecodeIPv4(data, o.validateChecksum, true);
    if r.Err? {
      result.Fail(r.code);
    } else {
      result.Push(IPv4(r.value));
      var rest := data[r.value.fields.ihl * 4..];
      result.payload := Some(rest);
      DecodeTransport(o, apps, result, rest, r.value.fields.protocol);
    }
  }

  method DecodePtp(o: Options, apps: Apps, result: DecodeStackResult, data: seq<byte>)
    modifies result
    ensures result.Value() == OnGptp(o, apps, old(result.Value()), data)
  {
    if data == [] || |result.layers| >= o.maxLayers { return; }
    var d := apps.gptp(data);
    var r := d.result;
    if r.Err? {
      result.Fail(r.code);
    } else {
      result.Push(Gptp(r.value));
      result.payload := Some(if r.value <= |data| then data[r.value..] else []);
    }
    result.Keep(d.inside);
  }

  method Decode(o: Options, apps: Apps, data: seq<byte>) returns (result: DecodeStackResult)
    ensures fresh(result) && result.Value() == DecodeFrame(o, apps, data)
  {
    hide OnIPv4, OnGptp, DecodeEthernet;
    result := new DecodeStackResult(data);
    if data == [] {
      result.Fail(BufferTooSmall);
      return;
    }
    var eth := ParseEthernet(data);
    if eth.Err? {
      result.Fail(eth.code);
      return;
    }
    result.Push(Ethernet(eth.value));
    var rest := data[eth.value.headerLen..];
    result.payload := Some(rest);
    if eth.value.etherType == ETHERTYPE_IPV4 {
      DecodeNetwork(o, apps, result, rest);
    } else if eth.value.etherType == ETHERTYPE_PTP {
      DecodePtp(o, apps, result, rest);
    }
  }

  method DecodeIp(o: Options, apps: Apps, data: seq<byte>) returns (result: DecodeStackResult)
    ensures fresh(result) && result.Value() == DecodeFromIp(o, apps, data)
  {
    hide OnIPv4;
    result := new DecodeStackResult(data);
    if data == [] {
      result.Fail(BufferTooSmall);
      return;
    }
    DecodeNetwork(o, apps, result, data);
  }
}
