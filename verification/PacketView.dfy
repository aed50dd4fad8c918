/** A second reading of the same frames: field access by absolute offsets, without decoding layer by layer. */
module PacketView {
  import opened Bytes
  import opened FrameDecoders
  import HeaderOptions

  predicate HasVlan(s: seq<byte>) {
    |s| >= 14 && (Be16(s, 12) == ETHERTYPE_VLAN || Be16(s, 12) == ETHERTYPE_QINQ)
  }

  /** The type behind the first tag. */
  function VlanEtherType(s: seq<byte>): Option<u16> {
    if !HasVlan(s) || |s| < 18 then None else Some(Be16(s, 16))
  }

  /** A second tag is skipped only when it is marked 0x8100. */
  function L3Offset(s: seq<byte>): (n: nat) {
    if !HasVlan(s) then 14
    else if |s| > 20 && Be16(s, 16) == ETHERTYPE_VLAN then 22
    else 18
  }

  function ViewIPv4(s: seq<byte>): (r: Option<IPv4Fields>)
  {
    var i := L3Offset(s);
    if |s| < i + 20 then None
    else
      var checkType := if HasVlan(s) && VlanEtherType(s).Some? then VlanEtherType(s).value else Be16(s, 12);
      if checkType != ETHERTYPE_IPV4 || s[i] / 16 % 16 != 4 then None
      else
        var flags := Be16(s, i + 6);
        Some(IPv4Fields(s[i] / 16 % 16, s[i] % 16, s[i + 1] / 4 % 64, s[i + 1] % 4, Be16(s, i + 2), Be16(s, i + 4),
                        flags / 0x4000 % 2 == 1, flags / 0x2000 % 2 == 1, flags % 0x2000, s[i + 8], s[i + 9],
                        Be16(s, i + 10), s[i + 12..i + 16], s[i + 16..i + 20]))
  }

  function L4Offset(s: seq<byte>): (n: nat) {
    match ViewIPv4(s)
    case None => L3Offset(s)
    case Some(ip) => L3Offset(s) + ip.ihl * 4
  }

  function ViewUdp(s: seq<byte>): Option<UdpHeader> {
    var i, ip := L4Offset(s), ViewIPv4(s);
    if ip.None? || ip.value.protocol != PROTOCOL_UDP || |s| < i + 8 then None
    else Some(UdpHeader(Be16(s, i), Be16(s, i + 2), Be16(s, i + 4), Be16(s, i + 6)))
  }

  /** Six flag bits. */
  function ViewTcp(s: seq<byte>): Option<TcpFields> {
    var i, ip := L4Offset(s), ViewIPv4(s);
    if ip.None? || ip.value.protocol != PROTOCOL_TCP || |s| < i + 20 then None
    else
      var offsetFlags := Be16(s, i + 12);
      Some(TcpFields(Be16(s, i), Be16(s, i + 2), Be32(s, i + 4), Be32(s, i + 8), offsetFlags / 0x1000 % 16,
                     offsetFlags % 0x40, Be16(s, i + 14), Be16(s, i + 16), Be16(s, i + 18)))
  }

  function Payload(s: seq<byte>): seq<byte> {
    match ViewIPv4(s)
    case None => []
    case Some(ip) =>
      var tcp := ViewTcp(s);
      var offset := L4Offset(s) + (if ip.protocol == PROTOCOL_UDP then 8
                                   else if ip.protocol == PROTOCOL_TCP && tcp.Some? then tcp.value.dataOffset * 4
                                   else 0);
      if offset >= |s| then [] else s[offset..]
  }

  // ----- agreement with the decoders -----

  lemma {:induction false} ReadBehind(s: seq<byte>, k: nat, i: nat)
    requires k <= |s|
    ensures k + i + 2 <= |s| ==> Be16(s[k..], i) == Be16(s, k + i)
    ensures k + i + 4 <= |s| ==> Be32(s[k..], i) == Be32(s, k + i)
  {
  }

  lemma {:induction false} FlagBits(w: u16)
    ensures w / 0x2000 % 8 / 2 % 2 == w / 0x4000 % 2
    ensures w / 0x2000 % 8 % 2 == w / 0x2000 % 2
  {
    var q := w / 0x2000;
    assert q < 8 && q / 2 == w / 0x4000;
  }

  /** Where a frame has at most one tag, both readings find the network layer at the same place. */
  lemma {:induction false} NetworkLayerAgrees(s: seq<byte>)
    requires DecodeEthernet(s).Ok? && DecodeEthernet(s).value.inner.None?
    ensures L3Offset(s) == DecodeEthernet(s).value.headerLen
    ensures |s| >= L3Offset(s) + 20 ==>
              (if HasVlan(s) && VlanEtherType(s).Some? then VlanEtherType(s).value else Be16(s, 12))
              == DecodeEthernet(s).value.etherType
  {
    hide Be16;
  }

  lemma {:induction false} IPv4FieldsAgree(s: seq<byte>, i: nat)
    requires i + 20 <= |s| && i == L3Offset(s) && ViewIPv4(s).Some?
    ensures ViewIPv4(s).value == DecodeIPv4Fields(s[i..])
  {
    FlagBits(Be16(s, i + 6));
    ReadBehind(s, i, 2);
    ReadBehind(s, i, 4);
    ReadBehind(s, i, 6);
    ReadBehind(s, i, 10);
    hide Be16, L3Offset;
    assert s[i..][12..16] == s[i + 12..i + 16] && s[i..][16..20] == s[i + 16..i + 20];
  }

  /** With at most one tag: the view shows exactly the header the decoder decodes, and the decoder refuses what the view
      shows exactly when the header length is below five words, runs past the bytes, or exceeds the total length. */
  lemma {:induction false} IPv4Agrees(s: seq<byte>, validate: bool)
    requires DecodeEthernet(s).Ok? && DecodeEthernet(s).value.inner.None?
    requires DecodeEthernet(s).value.etherType == ETHERTYPE_IPV4
    ensures var i := L3Offset(s);
            var r := DecodeIPv4(s[DecodeEthernet(s).value.headerLen..], validate, true);
            && i == DecodeEthernet(s).value.headerLen
            && (r.Ok? ==> ViewIPv4(s) == Some(r.value.fields))
            && (r.Ok? <==>
                && ViewIPv4(s).Some?
                && var ip := ViewIPv4(s).value;
                   ip.ihl >= 5 && i + ip.ihl * 4 <= |s| && ip.totalLength >= ip.ihl * 4)
  {
    NetworkLayerAgrees(s);
    var i := L3Offset(s);
    if |s| >= i + 20 {
      assert ViewIPv4(s).Some? <==> s[i] / 16 % 16 == 4;
      if ViewIPv4(s).Some? { IPv4FieldsAgree(s, i); }
    }
    hide DecodeEthernet, L3Offset, VlanEtherType, HasVlan, Checksum.Value, Be16;
  }

  /** With two tags the view shows no network layer at all, whatever the frame carries. */
  lemma {:induction false} DoubleTagsHideIPv4(s: seq<byte>)
    requires DecodeEthernet(s).Ok? && DecodeEthernet(s).value.inner.Some?
    ensures ViewIPv4(s).None? && ViewUdp(s).None? && ViewTcp(s).None? && Payload(s) == []
  {
    hide Be16;
  }

  lemma {:induction false} UdpAgrees(s: seq<byte>, ip: IPv4Fields)
    requires ViewIPv4(s) == Some(ip) && ip.protocol == PROTOCOL_UDP && L4Offset(s) <= |s|
    ensures var r := DecodeUdp(s[L4Offset(s)..]);
            && (r.Ok? ==> ViewUdp(s) == Some(r.value) && Payload(s) == s[L4Offset(s) + 8..])
            && (r.Ok? <==> ViewUdp(s).Some? && ViewUdp(s).value.length >= 8)
  {
    var i := L4Offset(s);
    ReadBehind(s, i, 0);
    ReadBehind(s, i, 2);
    ReadBehind(s, i, 4);
    ReadBehind(s, i, 6);
    hide ViewIPv4, L4Offset, Be16;
  }

  /** The flags agree on the six bits the view keeps. */
  lemma {:induction false} TcpAgrees(s: seq<byte>, ip: IPv4Fields)
    requires ViewIPv4(s) == Some(ip) && ip.protocol == PROTOCOL_TCP && L4Offset(s) <= |s|
    ensures var r, i := DecodeTcp(s[L4Offset(s)..]), L4Offset(s);
            && (r.Ok? ==>
                var f := r.value.fields;
                ViewTcp(s) == Some(f.(flags := f.flags % 0x40)) && i + f.dataOffset * 4 <= |s|
                && Payload(s) == s[i + f.dataOffset * 4..])
            && (r.Ok? <==> ViewTcp(s).Some? && ViewTcp(s).value.dataOffset >= 5 && i + ViewTcp(s).value.dataOffset * 4 <= |s|)
  {
    hide ViewIPv4, L4Offset, Be16, Be32, DecodeTcpFields, HeaderOptions.Parse, HeaderOptions.OnlySized;
    var i := L4Offset(s);
    if i + 20 <= |s| {
      TcpFieldsAgree(s, i);
    }
  }

  lemma {:induction false} TcpFieldsAgree(s: seq<byte>, i: nat)
    requires i + 20 <= |s|
    ensures var f := DecodeTcpFields(s[i..]);
            && f.(flags := f.flags % 0x40)
               == TcpFields(Be16(s, i), Be16(s, i + 2), Be32(s, i + 4), Be32(s, i + 8), Be16(s, i + 12) / 0x1000 % 16,
                            Be16(s, i + 12) % 0x40, Be16(s, i + 14), Be16(s, i + 16), Be16(s, i + 18))
  {
    ReadBehind(s, i, 0);
    ReadBehind(s, i, 2);
    ReadBehind(s, i, 4);
    ReadBehind(s, i, 8);
    ReadBehind(s, i, 12);
    ReadBehind(s, i, 14);
    ReadBehind(s, i, 16);
    ReadBehind(s, i, 18);
    SixOfNine(Be16(s, i + 12));
    hide Be16, Be32;
  }

  lemma {:induction false} SixOfNine(w: u16)
    ensures w % 0x200 % 0x40 == w % 0x40
  {
    assert w == w / 0x200 * 0x200 + w % 0x200;
  }
}
