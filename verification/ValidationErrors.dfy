/** Every error the validator can report, said of the layers and bytes themselves. */
module ValidationErrors {
  import opened Bytes
  import opened Validation
  import Checksum

  // ----- layering -----

  predicate IsNetwork(n: Name) { n == IPv4 || n == IPv6 }
  predicate IsTransport(n: Name) { n == Udp || n == Tcp || n == Sctp }
  predicate IsApplication(n: Name) { n == SomeIp || n == SomeIpSd || n == DoIp || n == Uds || n == Dds || n == Gptp }

  /** What is wrong with layer `i` among those before it. */
  ghost predicate Flawed(layers: seq<ProtocolLayer>, i: nat, p: Problem)
    requires i < |layers|
  {
    var n, before := layers[i].name, layers[..i];
    match p
    case FirstNotLink => i == 0 && n != Ethernet && n != Vlan && n != Ppp && n != Raw
    case IPv4AfterIPv6 => n == IPv4 && exists l :: l in before && l.name == IPv6
    case IPv6AfterIPv4 => n == IPv6 && exists l :: l in before && l.name == IPv4
    case NetworkAfterTransport =>
      IsNetwork(n) && exists l :: l in before && (IsTransport(l.name) || IsApplication(l.name))
    case TransportWithoutNetwork => IsTransport(n) && forall l :: l in before ==> !IsNetwork(l.name)
    case TransportAfterApplication => IsTransport(n) && exists l :: l in before && IsApplication(l.name)
    case ApplicationWithoutNetwork =>
      IsApplication(n) && n != Gptp && forall l :: l in before ==> !IsNetwork(l.name) && !IsTransport(l.name)
    case _ => false
  }

  ghost predicate SaysSeen(layers: seq<ProtocolLayer>, i: nat, seen: Seen)
    requires i <= |layers|
  {
    var before := layers[..i];
    && (seen.ipv4 <==> exists l :: l in before && l.name == IPv4)
    && (seen.ipv6 <==> exists l :: l in before && l.name == IPv6)
    && (seen.transport <==> exists l :: l in before && IsTransport(l.name))
    && (seen.application <==> exists l :: l in before && IsApplication(l.name))
  }

  lemma {:induction false} SeenIs(layers: seq<ProtocolLayer>, i: nat)
    requires i <= |layers|
    ensures SaysSeen(layers, i, SeenBefore(layers, i))
  {
    var before := layers[..i];
    assert forall j :: 0 <= j < i ==> layers[j] == before[j] && layers[j] in before;
  }

  /** The same, with what was seen before given. */
  predicate FlawOf(n: Name, first: bool, seen: Seen, p: Problem) {
    match p
    case FirstNotLink => first && n != Ethernet && n != Vlan && n != Ppp && n != Raw
    case IPv4AfterIPv6 => n == IPv4 && seen.ipv6
    case IPv6AfterIPv4 => n == IPv6 && seen.ipv4
    case NetworkAfterTransport => IsNetwork(n) && (seen.transport || seen.application)
    case TransportWithoutNetwork => IsTransport(n) && !seen.ipv4 && !seen.ipv6
    case TransportAfterApplication => IsTransport(n) && seen.application
    case ApplicationWithoutNetwork => IsApplication(n) && n != Gptp && !seen.ipv4 && !seen.ipv6 && !seen.transport
    case _ => false
  }

  lemma {:induction false} FlawBySeen(layers: seq<ProtocolLayer>, i: nat, seen: Seen, p: Problem)
    requires i < |layers| && SaysSeen(layers, i, seen)
    ensures Flawed(layers, i, p) <==> FlawOf(layers[i].name, i == 0, seen, p)
  {
    hide IsTransport, IsApplication;
  }

  lemma {:induction false} OneLayer(l: ProtocolLayer, first: bool, seen: Seen, e: Error)
    ensures e in LayerErrors(l, first, seen) <==> e.offset == l.offset && FlawOf(l.name, first, seen, e.problem)
  {
    hide OrderErrors, FlawOf;
    OneLayerOrder(l, first, seen, e);
    FirstFlaw(l, first, seen, e);
  }

  lemma {:induction false} FirstFlaw(l: ProtocolLayer, first: bool, seen: Seen, e: Error)
    ensures e in When(first && !Link(l.name), l, FirstNotLink) <==>
            e.offset == l.offset && e.problem.FirstNotLink? && FlawOf(l.name, first, seen, e.problem)
  {
  }

  lemma {:induction false} OneLayerOrder(l: ProtocolLayer, first: bool, seen: Seen, e: Error)
    ensures e in OrderErrors(l, seen) <==>
            e.offset == l.offset && !e.problem.FirstNotLink? && FlawOf(l.name, first, seen, e.problem)
  {
  }

  lemma {:induction false} LayerErrorsAre(layers: seq<ProtocolLayer>, i: nat, e: Error)
    requires i < |layers|
    ensures e in LayerErrors(layers[i], i == 0, SeenBefore(layers, i)) <==>
            e.offset == layers[i].offset && Flawed(layers, i, e.problem)
  {
    SeenIs(layers, i);
    hide SeenBefore, LayerErrors, Flawed, FlawOf, SaysSeen;
    OneLayer(layers[i], i == 0, SeenBefore(layers, i), e);
    FlawBySeen(layers, i, SeenBefore(layers, i), e.problem);
  }

  /** The errors of layering are exactly the flaws of the layers, each at the offset of its layer. */
  lemma {:induction false} LayeringErrorsAre(layers: seq<ProtocolLayer>, n: nat, e: Error)
    requires n <= |layers|
    ensures e in LayeringErrors(layers, n) <==>
            exists i :: 0 <= i < n && e.offset == layers[i].offset && Flawed(layers, i, e.problem)
  {
    hide LayerErrors, SeenBefore, Flawed;
    if n > 0 {
      LayeringErrorsAre(layers, n - 1, e);
      LayerErrorsAre(layers, n - 1, e);
    }
  }

  // ----- lengths -----

  lemma {:induction false} EndIs(l: ProtocolLayer)
    ensures End(l) == (l.offset + l.headerLength + l.payloadLength) % 18446744073709551616
  {
    var n := l.headerLength + l.payloadLength;
    assert Total(l) == if n < TWO64 then n else n - TWO64;
  }

  /** Layer `i` starts behind the end of the one before, or its own length does not fit 64 bits. */
  ghost predicate BadLength(layers: seq<ProtocolLayer>, i: nat, p: Problem)
    requires i < |layers|
  {
    match p
    case Gap(lastEnd) => lastEnd == (if i == 0 then 0 else End(layers[i - 1])) && layers[i].offset > lastEnd
    case HeaderTooLong => layers[i].headerLength + layers[i].payloadLength >= 18446744073709551616
    case _ => false
  }

  lemma {:induction false} LengthErrorsOfAre(layers: seq<ProtocolLayer>, i: nat, e: Error)
    requires i < |layers|
    ensures e in LengthErrorsOf(layers[i], EndBefore(layers, i)) <==>
            e.offset == layers[i].offset && BadLength(layers, i, e.problem)
  {
    HeaderTooLongIff(layers[i]);
    hide Total, End;
  }

  lemma {:induction false} LengthErrorsAre(layers: seq<ProtocolLayer>, n: nat, e: Error)
    requires n <= |layers|
    ensures e in LengthErrors(layers, n) <==>
            exists i :: 0 <= i < n && e.offset == layers[i].offset && BadLength(layers, i, e.problem)
  {
    hide LengthErrorsOf, EndBefore, BadLength;
    if n > 0 {
      LengthErrorsAre(layers, n - 1, e);
      LengthErrorsOfAre(layers, n - 1, e);
    }
  }

  /** The greatest end of a layer, 0 without any. */
  ghost predicate GreatestEnd(layers: seq<ProtocolLayer>, end: nat) {
    && (forall i :: 0 <= i < |layers| ==> End(layers[i]) <= end)
    && (end == 0 || exists i :: 0 <= i < |layers| && End(layers[i]) == end)
  }

  lemma {:induction false} FurthestIsReached(layers: seq<ProtocolLayer>, n: nat)
    requires n <= |layers|
    ensures forall i :: 0 <= i < n ==> End(layers[i]) <= Furthest(layers, n)
    ensures Furthest(layers, n) == 0 || exists i :: 0 <= i < n && End(layers[i]) == Furthest(layers, n)
  {
    hide End;
    if n > 0 { FurthestIsReached(layers, n - 1); }
  }

  lemma {:induction false} FurthestIs(layers: seq<ProtocolLayer>, end: nat)
    ensures GreatestEnd(layers, end) <==> end == Furthest(layers, |layers|)
  {
    FurthestIsReached(layers, |layers|);
    hide Furthest, End;
  }

  /** The errors of lengths are these at each layer, and one more if the greatest end lies behind the packet. */
  lemma {:induction false} AllLengthErrorsAre(layers: seq<ProtocolLayer>, total: u64, e: Error)
    ensures e in AllLengthErrors(layers, total) <==>
            || (exists i :: 0 <= i < |layers| && e.offset == layers[i].offset && BadLength(layers, i, e.problem))
            || (e.problem.PacketTooShort? && e.offset == 0 && e.problem.expected > total
                && GreatestEnd(layers, e.problem.expected))
  {
    LengthErrorsAre(layers, |layers|, e);
    if e.problem.PacketTooShort? { FurthestIs(layers, e.problem.expected); }
    hide LengthErrors, Furthest, GreatestEnd, BadLength;
  }

  // ----- checksums -----

  /** `l` is the last layer of its name. */
  ghost predicate LastOf(layers: seq<ProtocolLayer>, l: ProtocolLayer) {
    exists i :: 0 <= i < |layers| && layers[i] == l && forall j :: i < j < |layers| ==> layers[j].name != l.name
  }

  lemma {:induction false} LastNamedIs(layers: seq<ProtocolLayer>, n: nat, name: Name)
    requires n <= |layers|
    ensures var r := LastNamed(layers, n, name);
            && (r.None? <==> forall i :: 0 <= i < n ==> layers[i].name != name)
            && (r.Some? ==> r.value.name == name)
            && (r.Some? ==> exists i :: 0 <= i < n && layers[i] == r.value && forall j :: i < j < n ==> layers[j].name != name)
  {
    if n > 0 && layers[n - 1].name != name { LastNamedIs(layers, n - 1, name); }
  }

  lemma {:induction false} LastOfIff(layers: seq<ProtocolLayer>, l: ProtocolLayer)
    ensures LastOf(layers, l) <==> LastNamed(layers, |layers|, l.name) == Some(l)
  {
    LastNamedIs(layers, |layers|, l.name);
  }

  /** The pseudo header in bytes: both addresses, the protocol, and the length in two words. */
  lemma {:induction false} PseudoSumIs(packet: seq<byte>, ip: ProtocolLayer, protocol: byte, length: u64)
    requires ip.offset + 20 <= |packet|
    ensures PseudoSum(packet, ip, protocol, length) ==
            Checksum.ByteSum(packet[ip.offset + 12..ip.offset + 20]) + protocol + length % 65536 + length / 65536 % 65536
  {
    var a := packet[ip.offset + 12..ip.offset + 20];
    EightBytes(a);
    assert forall i :: 0 <= i < 8 ==> a[i] == packet[ip.offset + 12 + i];
  }

  lemma {:induction false} EightBytes(a: seq<byte>)
    requires |a| == 8
    ensures Checksum.ByteSum(a) == Be16(a, 0) + Be16(a, 2) + Be16(a, 4) + Be16(a, 6)
  {
    TwoMore(a);
    TwoMore(a[..6]);
    TwoMore(a[..4]);
    TwoMore(a[..2]);
    assert a[..6][..4] == a[..4] && a[..4][..2] == a[..2] && a[..2][..0] == [];
  }

  lemma {:induction false} TwoMore(a: seq<byte>)
    requires |a| >= 2 && |a| % 2 == 0
    ensures Checksum.ByteSum(a) == Checksum.ByteSum(a[..|a| - 2]) + Be16(a, |a| - 2)
  {
    assert a[..|a| - 1][..|a| - 2] == a[..|a| - 2];
  }

  /** Sum of the pseudo header of a segment. */
  ghost function Pseudo(packet: seq<byte>, ip: ProtocolLayer, protocol: byte, l: ProtocolLayer): nat
    requires ip.offset + 20 <= |packet|
  {
    var length := (l.headerLength + l.payloadLength) % 18446744073709551616;
    Checksum.ByteSum(packet[ip.offset + 12..ip.offset + 20]) + protocol + length % 65536 + length / 65536 % 65536
  }

  function Word16(packet: seq<byte>, i: nat): nat
    requires i + 2 <= |packet|
  {
    packet[i] as int * 256 + packet[i + 1] as int
  }

  /** The field at `i` is the complement of the pseudo header, as the program computes it; 0 if the addresses are not in
      the packet. */
  ghost predicate Meets(packet: seq<byte>, i: nat, l: ProtocolLayer, ip: ProtocolLayer, protocol: byte)
    requires i + 2 <= |packet|
  {
    if ip.offset + 20 > |packet| then Word16(packet, i) == 0
    else Word16(packet, i) != 65535 && (Pseudo(packet, ip, protocol, l) + Word16(packet, i)) % 65535 == 0
  }

  /** The verdict on a UDP datagram: its eight bytes are there, and with an IPv4 layer the checksum is 0 or meets. */
  lemma {:induction false} UdpVerdict(packet: seq<byte>, l: ProtocolLayer, ip: Option<ProtocolLayer>)
    ensures UdpSums(packet, l, ip) <==>
            && l.offset + 8 <= |packet|
            && (ip.None? || Word16(packet, l.offset + 6) == 0 || Meets(packet, l.offset + 6, l, ip.value, 17))
  {
    if l.offset + 8 <= |packet| && ip.Some? && ip.value.offset + 20 <= |packet| {
      UdpSumsIff(packet, l, ip.value);
      PseudoSumIs(packet, ip.value, 17, Total(l));
      hide UdpSums, PseudoSum, Checksum.ByteSum;
    }
  }

  /** The verdict on a TCP segment, for which 0 is a checksum like any other. */
  lemma {:induction false} TcpVerdict(packet: seq<byte>, l: ProtocolLayer, ip: Option<ProtocolLayer>)
    ensures TcpSums(packet, l, ip) <==>
            l.offset + 20 <= |packet| && (ip.None? || Meets(packet, l.offset + 16, l, ip.value, 6))
  {
    if l.offset + 20 <= |packet| && ip.Some? && ip.value.offset + 20 <= |packet| {
      TcpSumsIff(packet, l, ip.value);
      PseudoSumIs(packet, ip.value, 6, Total(l));
      hide TcpSums, PseudoSum, Checksum.ByteSum;
    }
  }

  ghost predicate BadSum(packet: seq<byte>, l: ProtocolLayer, ip: Option<ProtocolLayer>) {
    match l.name
    case IPv4 => !Checksum.ValidatorAccepts(packet, l.offset)
    case Udp => !UdpSums(packet, l, ip)
    case Tcp => !TcpSums(packet, l, ip)
    case _ => false
  }

  /** The errors of checksums: one for the last IPv4, the last UDP and the last TCP layer, where its verdict is bad; the
      last two are judged with the last IPv4 layer. */
  lemma {:induction false} ChecksumErrorsAre(packet: seq<byte>, layers: seq<ProtocolLayer>, e: Error)
    ensures var ip := LastNamed(layers, |layers|, IPv4);
            e in ChecksumErrors(packet, layers) <==>
            && packet != []
            && exists l :: LastOf(layers, l) && BadSum(packet, l, ip) && e == Error(l.offset, BadChecksum(l.name))
  {
    hide LastOf, LastNamed, UdpSums, TcpSums, Checksum.ValidatorAccepts;
    NoneNamed(layers);
    forall l ensures LastOf(layers, l) <==> LastNamed(layers, |layers|, l.name) == Some(l) { LastOfIff(layers, l); }
    NamedSo(layers, IPv4);
    NamedSo(layers, Udp);
    NamedSo(layers, Tcp);
  }

  lemma {:induction false} NoneNamed(layers: seq<ProtocolLayer>)
    ensures layers == [] ==> forall l :: !LastOf(layers, l)
  {
  }

  lemma {:induction false} NamedSo(layers: seq<ProtocolLayer>, name: Name)
    ensures var r := LastNamed(layers, |layers|, name); r.Some? ==> r.value.name == name
  {
    LastNamedIs(layers, |layers|, name);
  }
}
