/** The decoders of `FrameDecoders` against the layouts of IEEE 802.3, 802.1Q, RFC 791, RFC 768 and RFC 9293: the fields,
    written again in network order, are the bytes they came from. */
module HeaderLayouts {
  import opened Bytes
  import opened FrameDecoders
  import Checksum
  import HeaderOptions

  function Two(w: u16): seq<byte> {
    [w / 256, w % 256]
  }

  lemma {:induction false} TwoOf(hi: byte, lo: byte)
    ensures Two(hi as int * 256 + lo as int) == [hi, lo]
  {
    DivModUnique(hi as int * 256 + lo as int, hi, lo);
  }

  lemma {:induction false} TwoAt(s: seq<byte>, i: nat)
    requires i + 2 <= |s|
    ensures Two(Be16(s, i)) == s[i..i + 2] == [s[i], s[i + 1]]
  {
    TwoOf(s[i], s[i + 1]);
  }

  // ----- Ethernet -----

  function TagBytes(tag: Option<VlanTag>): seq<byte> {
    match tag
    case None => []
    case Some(t) => Two(t.tpid) + Two(t.tci)
  }

  /** Destination, source, the tags in order, and the type. */
  function EthernetBytes(h: EthernetHeader): seq<byte> {
    h.dst + h.src + TagBytes(h.vlan) + TagBytes(h.inner) + Two(h.etherType)
  }

  /** A tag begins at `i`: its type is that of 802.1Q or of 802.1ad. */
  predicate TagAt(s: seq<byte>, i: nat)
    requires i + 2 <= |s|
  {
    (s[i] == 0x81 && s[i + 1] == 0x00) || (s[i] == 0x88 && s[i + 1] == 0xA8)
  }

  lemma {:induction false} TagIff(s: seq<byte>, i: nat)
    requires i + 2 <= |s|
    ensures IsTag(Be16(s, i)) <==> TagAt(s, i)
  {
    TwoAt(s, i);
  }

  /** Where the header of a frame ends, given its tags; beyond the bytes if they end before. */
  function HeaderEnd(s: seq<byte>): nat {
    if |s| < 14 || !TagAt(s, 12) then 14
    else if |s| < 18 || !TagAt(s, 16) then 18
    else 22
  }

  /** Decoding fails exactly when the bytes end before the header does, and then as too short. */
  lemma {:induction false} EthernetFailsIff(s: seq<byte>)
    ensures DecodeEthernet(s).Err? <==> |s| < HeaderEnd(s)
    ensures DecodeEthernet(s).Err? ==> DecodeEthernet(s).code.BufferTooSmall?
    ensures DecodeEthernet(s).Ok? ==> DecodeEthernet(s).value.headerLen == HeaderEnd(s)
  {
    if |s| >= 14 { TagIff(s, 12); }
    if |s| >= 18 { TagIff(s, 16); }
    hide IsTag, Be16, TagAt;
  }

  /** A decoded header, written again, is the bytes it was decoded from; the addresses are six bytes each, and a tag is
      there exactly where the bytes have one. */
  lemma {:induction false} EthernetReencodes(s: seq<byte>)
    requires DecodeEthernet(s).Ok?
    ensures var h := DecodeEthernet(s).value;
            && h.headerLen <= |s| && EthernetBytes(h) == s[..h.headerLen]
            && |h.dst| == 6 && |h.src| == 6
            && (h.vlan.Some? <==> h.headerLen >= 18) && (h.inner.Some? <==> h.headerLen == 22)
  {
    TagIff(s, 12);
    TwoAt(s, 12);
    if |s| >= 18 {
      TagIff(s, 16);
      TwoAt(s, 14);
      TwoAt(s, 16);
    }
    if |s| >= 22 {
      TwoAt(s, 18);
      TwoAt(s, 20);
    }
    hide IsTag, Be16, TagAt, Two;
  }

  // ----- IPv4 -----

  /** The word with the flags: bit 15 reserved, then "don't fragment", "more fragments", and the offset. */
  function FlagsWord(reserved: bool, f: IPv4Fields): int {
    (if reserved then 32768 else 0) + (if f.dontFragment then 16384 else 0) + (if f.moreFragments then 8192 else 0)
    + f.fragmentOffset
  }

  lemma {:induction false} FlagsSplit(w: u16)
    ensures var flags := w / 0x2000 % 8;
            w == (if w >= 32768 then 32768 else 0) + (if flags / 2 % 2 == 1 then 16384 else 0)
                 + (if flags % 2 == 1 then 8192 else 0) + w % 0x2000
  {
    var flags := w / 0x2000;
    assert w == flags * 0x2000 + w % 0x2000 && flags < 8;
  }

  /** The fields are those of the twenty bytes; their ranges make the reading unique. */
  lemma {:induction false} IPv4Reencodes(s: seq<byte>)
    requires |s| >= 20
    ensures var f := DecodeIPv4Fields(s);
            && f.version < 16 && f.ihl < 16 && s[0] as int == f.version * 16 + f.ihl
            && f.dscp < 64 && f.ecn < 4 && s[1] as int == f.dscp * 4 + f.ecn
            && s[2..4] == Two(f.totalLength) && s[4..6] == Two(f.identification)
            && f.fragmentOffset < 8192 && s[6] as int * 256 + s[7] as int == FlagsWord(s[6] >= 128, f)
            && s[8] == f.ttl && s[9] == f.protocol && s[10..12] == Two(f.checksum)
            && s[12..16] == f.src && s[16..20] == f.dst
  {
    TwoAt(s, 2);
    TwoAt(s, 4);
    TwoAt(s, 10);
    FlagsSplit(Be16(s, 6));
    hide Two;
  }

  /** Where the length field of an IPv4 header says that it ends. */
  function IPv4End(s: seq<byte>): nat
    requires |s| >= 20
  {
    s[0] as int % 16 * 4
  }

  /** A header is decoded exactly when its twenty bytes are there, it is of version 4, it has at least five words, all of
      them there, it is not longer than the datagram, and its checksum is right where that is asked for. */
  lemma {:induction false} IPv4DecodesIff(s: seq<byte>, validate: bool, allowBad: bool)
    ensures DecodeIPv4(s, validate, allowBad).Ok? <==>
            && |s| >= 20 && s[0] as int / 16 == 4 && 20 <= IPv4End(s) <= |s|
            && (validate && !allowBad ==> Checksum.Checks(s[..IPv4End(s)]))
            && s[2] as int * 256 + s[3] as int >= IPv4End(s)
  {
    hide HeaderOptions.Parse, Checksum.Value;
  }

  /** Otherwise the first of these that fails names the error. */
  lemma {:induction false} IPv4Errors(s: seq<byte>, validate: bool, allowBad: bool)
    requires DecodeIPv4(s, validate, allowBad).Err?
    ensures DecodeIPv4(s, validate, allowBad).code ==
            if |s| < 20 then BufferTooSmall
            else if s[0] as int / 16 != 4 then InvalidVersion
            else if IPv4End(s) < 20 then InvalidHeader
            else if |s| < IPv4End(s) then BufferTooSmall
            else if validate && !allowBad && !Checksum.Checks(s[..IPv4End(s)]) then InvalidChecksum
            else InvalidLength
  {
    hide HeaderOptions.Parse, Checksum.Value;
  }

  /** What is decoded: the fields, the options behind the first twenty bytes, and the verdict on the checksum. */
  lemma {:induction false} IPv4Decoded(s: seq<byte>, validate: bool, allowBad: bool)
    requires DecodeIPv4(s, validate, allowBad).Ok?
    ensures var h := DecodeIPv4(s, validate, allowBad).value;
            && 20 <= |s| && 20 <= IPv4End(s) <= |s|
            && h.fields == DecodeIPv4Fields(s) && h.fields.ihl * 4 == IPv4End(s)
            && h.options == HeaderOptions.Parse(s[20..IPv4End(s)]).items
            && h.optionsMalformed == HeaderOptions.Parse(s[20..IPv4End(s)]).malformed
            && (h.checksumValid <==> (validate ==> Checksum.Checks(s[..IPv4End(s)])))
  {
    hide HeaderOptions.Parse, Checksum.Value;
  }

  // ----- UDP and TCP -----

  /** A datagram is decoded exactly when its eight bytes are there and its length is not below eight; its fields are these
      bytes. */
  lemma {:induction false} UdpReencodes(s: seq<byte>)
    ensures DecodeUdp(s).Ok? <==> |s| >= 8 && s[4] as int * 256 + s[5] as int >= 8
    ensures DecodeUdp(s).Err? ==> DecodeUdp(s).code == if |s| < 8 then BufferTooSmall else InvalidLength
    ensures DecodeUdp(s).Ok? ==>
              var h := DecodeUdp(s).value; Two(h.srcPort) + Two(h.dstPort) + Two(h.length) + Two(h.checksum) == s[..8]
  {
    if |s| >= 8 {
      TwoAt(s, 0);
      TwoAt(s, 2);
      TwoAt(s, 4);
      TwoAt(s, 6);
    }
    hide Two;
  }

  function Four(w: u32): seq<byte> {
    [w / 0x100_0000, w / 0x1_0000 % 256, w / 0x100 % 256, w % 256]
  }

  lemma {:induction false} FourAt(s: seq<byte>, i: nat)
    requires i + 4 <= |s|
    ensures Four(Be32(s, i)) == s[i..i + 4]
  {
    WordBytes(s[i], s[i + 1], s[i + 2], s[i + 3]);
    hide Word;
  }

  /** The fields of a TCP header are its bytes; of byte 12 the upper half is the data offset, and the nine lowest bits of
      the word at 12 are the flags. */
  lemma {:induction false} TcpReencodes(s: seq<byte>)
    requires |s| >= 20
    ensures var f := DecodeTcpFields(s);
            && s[..4] == Two(f.srcPort) + Two(f.dstPort) && s[4..8] == Four(f.seqNum) && s[8..12] == Four(f.ackNum)
            && f.dataOffset == s[12] as int / 16 && f.flags == s[12] as int % 2 * 256 + s[13] as int
            && s[14..16] == Two(f.window) && s[16..18] == Two(f.checksum) && s[18..20] == Two(f.urgent)
  {
    hide Two, Four, Be16, Be32;
    TwoAt(s, 0);
    TwoAt(s, 2);
    assert s[..4] == s[0..2] + s[2..4];
    FourAt(s, 4);
    FourAt(s, 8);
    TwoAt(s, 14);
    TwoAt(s, 16);
    TwoAt(s, 18);
    OffsetWord(s);
  }

  lemma {:induction false} OffsetWord(s: seq<byte>)
    requires |s| >= 20
    ensures Be16(s, 12) / 0x1000 % 16 == s[12] as int / 16
    ensures Be16(s, 12) % 0x200 == s[12] as int % 2 * 256 + s[13] as int
  {
    OffsetAndFlags(s[12], s[13]);
  }

  lemma {:induction false} OffsetAndFlags(hi: byte, lo: byte)
    ensures var w := hi as int * 256 + lo as int;
            w / 0x1000 % 16 == hi as int / 16 && w % 0x200 == hi as int % 2 * 256 + lo as int
  {
    var w := hi as int * 256 + lo as int;
    assert hi as int == hi as int / 2 * 2 + hi as int % 2;
    assert w == hi as int / 2 * 0x200 + (hi as int % 2 * 256 + lo as int);
    assert hi as int == hi as int / 16 * 16 + hi as int % 16;
    assert w == hi as int / 16 * 0x1000 + (hi as int % 16 * 256 + lo as int);
  }

  /** A segment is decoded exactly when twenty bytes and all the words of its offset, at least five, are there. */
  lemma {:induction false} TcpDecodesIff(s: seq<byte>)
    ensures DecodeTcp(s).Ok? <==> |s| >= 20 && 20 <= s[12] as int / 16 * 4 <= |s|
    ensures DecodeTcp(s).Err? ==>
              DecodeTcp(s).code == if |s| >= 20 && s[12] as int / 16 < 5 then InvalidHeader else BufferTooSmall
    ensures DecodeTcp(s).Ok? ==>
              && DecodeTcp(s).value.fields == DecodeTcpFields(s)
              && DecodeTcp(s).value.options == HeaderOptions.OnlySized(HeaderOptions.Parse(s[20..s[12] as int / 16 * 4]).items)
  {
    if |s| >= 20 { TcpReencodes(s); }
    hide HeaderOptions.Parse, HeaderOptions.OnlySized, Two, Four;
  }
}
