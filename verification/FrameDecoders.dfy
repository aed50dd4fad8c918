/** The decoders of Ethernet, IPv4, UDP and TCP headers. Each reads from the start of the bytes it is given. */
module FrameDecoders {
  import opened Bytes
  import Checksum
  import HeaderOptions

  const ETHERTYPE_IPV4: u16 := 0x0800
  const ETHERTYPE_VLAN: u16 := 0x8100
  const ETHERTYPE_QINQ: u16 := 0x88A8
  const ETHERTYPE_PTP: u16 := 0x88F7
  const PROTOCOL_TCP: byte := 6
  const PROTOCOL_UDP: byte := 17

  datatype Code = BufferTooSmall | InvalidHeader | InvalidChecksum | InvalidVersion | InvalidLength | MalformedData | TruncatedPayload

  datatype Result<+T> = Ok(value: T) | Err(code: Code)

  /** What a decoder makes of the bytes it is given, and whether it reads only these. */
  datatype Decoded<+T> = Decoded(result: Result<T>, inside: bool)

  // ----- Ethernet -----

  datatype VlanTag = VlanTag(tpid: u16, tci: u16)

  datatype EthernetHeader = EthernetHeader(
    dst: seq<byte>, src: seq<byte>, vlan: Option<VlanTag>, inner: Option<VlanTag>, etherType: u16, headerLen: nat)

  predicate IsTag(etherType: u16) {
    etherType == ETHERTYPE_VLAN || etherType == ETHERTYPE_QINQ
  }

  /** The tags between the addresses and the type of a frame. */
  function DecodeEthernet(s: seq<byte>): (r: Result<EthernetHeader>)
    ensures r.Ok? ==> r.value.headerLen <= |s|
  {
    if |s| < 14 then Err(BufferTooSmall)
    else
      var first := Be16(s, 12);
      if !IsTag(first) then Ok(EthernetHeader(s[..6], s[6..12], None, None, first, 14))
      else if |s| < 18 then Err(BufferTooSmall)
      else
        var outer, second := VlanTag(first, Be16(s, 14)), Be16(s, 16);
        if !IsTag(second) then Ok(EthernetHeader(s[..6], s[6..12], Some(outer), None, second, 18))
        else if |s| < 22 then Err(BufferTooSmall)
        else Ok(EthernetHeader(s[..6], s[6..12], Some(outer), Some(VlanTag(second, Be16(s, 18))), Be16(s, 20), 22))
  }

  method ParseEthernet(s: seq<byte>) returns (r: Result<EthernetHeader>)
    ensures r == DecodeEthernet(s)
  {
    hide Be16;
    if |s| < 14 { return Err(BufferTooSmall); }
    var offset := 0;
    var dst := s[offset..offset + 6];
    offset := offset + 6;
    var src := s[offset..offset + 6];
    offset := offset + 6;
    var etherType := Be16(s, offset);
    offset := offset + 2;
    var vlan: Option<VlanTag>, inner: Option<VlanTag> := None, None;
    if IsTag(etherType) {
      if |s| < offset + 2 { return Err(BufferTooSmall); }
      vlan := Some(VlanTag(etherType, Be16(s, offset)));
      offset := offset + 2;
      if |s| < offset + 2 { return Err(BufferTooSmall); }
      etherType := Be16(s, offset);
      offset := offset + 2;
      if IsTag(etherType) {
        if |s| < offset + 2 { return Err(BufferTooSmall); }
        inner := Some(VlanTag(etherType, Be16(s, offset)));
        offset := offset + 2;
        if |s| < offset + 2 { return Err(BufferTooSmall); }
        etherType := Be16(s, offset);
        offset := offset + 2;
      }
    }
    r := Ok(EthernetHeader(dst, src, vlan, inner, etherType, offset));
  }

  // ----- IPv4 -----

  datatype IPv4Fields = IPv4Fields(
    version: nat, ihl: nat, dscp: nat, ecn: nat, totalLength: u16, identification: u16, dontFragment: bool,
    moreFragments: bool, fragmentOffset: nat, ttl: byte, protocol: byte, checksum: u16, src: seq<byte>, dst: seq<byte>)

  datatype IPv4Header = IPv4Header(
    fields: IPv4Fields, options: seq<HeaderOptions.Item>, optionsMalformed: bool, checksumValid: bool)

  /** The decoder keeps the three flag bits together first. */
  function DecodeIPv4Fields(s: seq<byte>): IPv4Fields
    requires |s| >= 20
  {
    var flagsFrag := Be16(s, 6);
    var flags := flagsFrag / 0x2000 % 8;
    IPv4Fields(s[0] / 16 % 16, s[0] % 16, s[1] / 4 % 64, s[1] % 4, Be16(s, 2), Be16(s, 4),
               flags / 2 % 2 == 1, flags % 2 == 1, flagsFrag % 0x2000, s[8], s[9], Be16(s, 10), s[12..16], s[16..20])
  }

  function DecodeIPv4(s: seq<byte>, validate: bool, allowBad: bool): (r: Result<IPv4Header>)
    ensures r.Ok? ==> 20 <= r.value.fields.ihl * 4 <= |s|
  {
    if |s| < 20 then Err(BufferTooSmall)
    else
      var f := DecodeIPv4Fields(s);
      var n := f.ihl * 4;
      if f.version != 4 then Err(InvalidVersion)
      else if f.ihl < 5 then Err(InvalidHeader)
      else if |s| < n then Err(BufferTooSmall)
      else
        var opts := HeaderOptions.Parse(s[20..n]);
        var valid := !validate || Checksum.Value(s[..n]) == 0;
        if !valid && !allowBad then Err(InvalidChecksum)
        else if f.totalLength < n then Err(InvalidLength)
        else Ok(IPv4Header(f, opts.items, opts.malformed, valid))
  }

  // ----- UDP and TCP -----

  datatype UdpHeader = UdpHeader(srcPort: u16, dstPort: u16, length: u16, checksum: u16)

  function DecodeUdp(s: seq<byte>): (r: Result<UdpHeader>)
    ensures r.Ok? ==> |s| >= 8
  {
    if |s| < 8 then Err(BufferTooSmall)
    else if Be16(s, 4) < 8 then Err(InvalidLength)
    else Ok(UdpHeader(Be16(s, 0), Be16(s, 2), Be16(s, 4), Be16(s, 6)))
  }

  datatype TcpFields = TcpFields(
    srcPort: u16, dstPort: u16, seqNum: u32, ackNum: u32, dataOffset: nat, flags: nat, window: u16, checksum: u16,
    urgent: u16)

  datatype TcpHeader = TcpHeader(fields: TcpFields, options: seq<HeaderOptions.Item>)

  /** Nine flag bits. */
  function DecodeTcpFields(s: seq<byte>): TcpFields
    requires |s| >= 20
  {
    TcpFields(Be16(s, 0), Be16(s, 2), Be32(s, 4), Be32(s, 8), Be16(s, 12) / 0x1000 % 16, Be16(s, 12) % 0x200, Be16(s, 14),
              Be16(s, 16), Be16(s, 18))
  }

  function DecodeTcp(s: seq<byte>): (r: Result<TcpHeader>)
    ensures r.Ok? ==> 20 <= r.value.fields.dataOffset * 4 <= |s|
  {
    if |s| < 20 then Err(BufferTooSmall)
    else
      var f := DecodeTcpFields(s);
      if f.dataOffset < 5 then Err(InvalidHeader)
      else if |s| < f.dataOffset * 4 then Err(BufferTooSmall)
      else Ok(TcpHeader(f, HeaderOptions.OnlySized(HeaderOptions.Parse(s[20..f.dataOffset * 4]).items)))
  }
}
