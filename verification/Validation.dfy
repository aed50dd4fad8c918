/** The cross-protocol validator: layering, lengths and checksums of a packet that was already taken apart. */
module Validation {
  import opened Bytes
  import Checksum

  datatype Name =
    | Ethernet | Vlan | Ppp | Raw | IPv4 | IPv6 | Udp | Tcp | Sctp
    | SomeIp | SomeIpSd | DoIp | Uds | Dds | Gptp | OtherName(text: string)

  datatype ProtocolLayer = ProtocolLayer(name: Name, offset: u64, headerLength: u64, payloadLength: u64)

  datatype Mode = Strict | Lenient

  datatype Problem =
    | FirstNotLink | IPv4AfterIPv6 | IPv6AfterIPv4 | NetworkAfterTransport | TransportWithoutNetwork
    | TransportAfterApplication | ApplicationWithoutNetwork
    | Gap(lastEnd: u64) | HeaderTooLong | PacketTooShort(expected: u64)
    | BadChecksum(name: Name)

  /** Every error code of the program follows from the problem. */
  datatype Error = Error(offset: u64, problem: Problem)

  /** What a mode lets through of the full list of errors: strict validation stops at the first. */
  function Cut(mode: Mode, errors: seq<Error>): seq<Error> {
    if mode.Strict? && errors != [] then [errors[0]] else errors
  }

  /** Lenient validation reports everything, strict validation no more than the first error, and an error if there is one. */
  lemma {:induction false} CutIs(mode: Mode, errors: seq<Error>)
    ensures Cut(mode, errors) <= errors && (Cut(mode, errors) == [] <==> errors == [])
    ensures mode == Lenient ==> Cut(mode, errors) == errors
    ensures mode == Strict ==> |Cut(mode, errors)| <= 1
  {
  }

  lemma {:induction false} CutOfParts(mode: Mode, a: seq<Error>, b: seq<Error>)
    ensures mode.Strict? && a != [] ==> Cut(mode, a + b) == Cut(mode, a)
    ensures mode.Lenient? || a == [] ==> Cut(mode, a + b) == a + Cut(mode, b)
  {
    if a == [] { assert a + b == b; }
  }

  // ----- layering -----

  predicate Link(n: Name) { n.Ethernet? || n.Vlan? || n.Ppp? || n.Raw? }
  predicate Transport(n: Name) { n.Udp? || n.Tcp? || n.Sctp? }
  predicate Application(n: Name) { n.SomeIp? || n.SomeIpSd? || n.DoIp? || n.Uds? || n.Dds? || n.Gptp? }

  datatype Seen = Seen(ipv4: bool, ipv6: bool, transport: bool, application: bool)

  /** Which kinds of layers come before layer `i`. */
  ghost function SeenBefore(layers: seq<ProtocolLayer>, i: nat): Seen
    requires i <= |layers|
  {
    Seen(exists j :: 0 <= j < i && layers[j].name.IPv4?,
         exists j :: 0 <= j < i && layers[j].name.IPv6?,
         exists j :: 0 <= j < i && Transport(layers[j].name),
         exists j :: 0 <= j < i && Application(layers[j].name))
  }

  function When(bad: bool, l: ProtocolLayer, p: Problem): seq<Error> {
    if bad then [Error(l.offset, p)] else []
  }

  function LayerErrors(l: ProtocolLayer, first: bool, seen: Seen): seq<Error> {
    When(first && !Link(l.name), l, FirstNotLink) + OrderErrors(l, seen)
  }

  function OrderErrors(l: ProtocolLayer, seen: Seen): seq<Error> {
    match l.name
    case IPv4 => When(seen.ipv6, l, IPv4AfterIPv6) + When(seen.transport || seen.application, l, NetworkAfterTransport)
    case IPv6 => When(seen.ipv4, l, IPv6AfterIPv4) + When(seen.transport || seen.application, l, NetworkAfterTransport)
    case _ =>
      if Transport(l.name) then
        When(!seen.ipv4 && !seen.ipv6, l, TransportWithoutNetwork) + When(seen.application, l, TransportAfterApplication)
      else if Application(l.name) && !l.name.Gptp? then
        When(!seen.transport && !seen.ipv4 && !seen.ipv6, l, ApplicationWithoutNetwork)
      else []
  }

  ghost function LayeringErrors(layers: seq<ProtocolLayer>, n: nat): seq<Error>
    requires n <= |layers|
  {
    if n == 0 then [] else LayeringErrors(layers, n - 1) + LayerErrors(layers[n - 1], n == 1, SeenBefore(layers, n - 1))
  }

  lemma {:induction false} PrefixOfSum(a: seq<Error>, b: seq<Error>, c: seq<Error>)
    requires a <= b
    ensures a <= b + c
  {
  }

  lemma {:induction false} LayeringErrorsGrow(layers: seq<ProtocolLayer>, i: nat, n: nat)
    requires i <= n <= |layers|
    ensures LayeringErrors(layers, i) <= LayeringErrors(layers, n)
    decreases n - i
  {
    hide LayerErrors, SeenBefore;
    if i < n {
      LayeringErrorsGrow(layers, i, n - 1);
      PrefixOfSum(LayeringErrors(layers, i), LayeringErrors(layers, n - 1), LayerErrors(layers[n - 1], n == 1, SeenBefore(layers, n - 1)));
    }
  }

  function SeenWith(seen: Seen, n: Name): Seen {
    Seen(seen.ipv4 || n.IPv4?, seen.ipv6 || n.IPv6?, seen.transport || Transport(n), seen.application || Application(n))
  }

  lemma {:induction false} SeenGrows(layers: seq<ProtocolLayer>, i: nat)
    requires i < |layers|
    ensures SeenBefore(layers, i + 1) == SeenWith(SeenBefore(layers, i), layers[i].name)
  {
    hide Transport, Application;
  }

  /** One layer among those seen before: the errors it adds, only the first in strict mode. */
  method CheckOrder(mode: Mode, l: ProtocolLayer, seen: Seen) returns (errors: seq<Error>)
    ensures errors == Cut(mode, OrderErrors(l, seen))
  {
    errors := [];
    if l.name.IPv4? {
      if seen.ipv6 {
        errors := [Error(l.offset, IPv4AfterIPv6)];
        if mode.Strict? { return; }
      }
      if seen.transport || seen.application {
        errors := errors + [Error(l.offset, NetworkAfterTransport)];
      }
    } else if l.name.IPv6? {
      if seen.ipv4 {
        errors := [Error(l.offset, IPv6AfterIPv4)];
        if mode.Strict? { return; }
      }
      if seen.transport || seen.application {
        errors := errors + [Error(l.offset, NetworkAfterTransport)];
      }
    } else if Transport(l.name) {
      if !seen.ipv4 && !seen.ipv6 {
        errors := [Error(l.offset, TransportWithoutNetwork)];
        if mode.Strict? { return; }
      }
      if seen.application {
        errors := errors + [Error(l.offset, TransportAfterApplication)];
      }
    } else if Application(l.name) {
      if !l.name.Gptp? && !seen.transport && !seen.ipv4 && !seen.ipv6 {
        errors := [Error(l.offset, ApplicationWithoutNetwork)];
      }
    }
  }

  method CheckLayer(mode: Mode, l: ProtocolLayer, first: bool, seen: Seen) returns (errors: seq<Error>)
    ensures errors == Cut(mode, LayerErrors(l, first, seen))
  {
    hide OrderErrors, Link;
    errors := [];
    if first && !Link(l.name) {
      errors := [Error(l.offset, FirstNotLink)];
      if mode.Strict? { return; }
    }
    CutOfParts(mode, When(first && !Link(l.name), l, FirstNotLink), OrderErrors(l, seen));
    var more := CheckOrder(mode, l, seen);
    errors := errors + more;
  }

  lemma {:induction false} LayeringErrorsStep(layers: seq<ProtocolLayer>, i: nat)
    requires i < |layers|
    ensures LayeringErrors(layers, i + 1) == LayeringErrors(layers, i) + LayerErrors(layers[i], i == 0, SeenBefore(layers, i))
  {
    hide LayerErrors, SeenBefore;
  }

  /** In strict mode the errors of the first layer that has any decide. */
  lemma {:induction false} StrictStops(layers: seq<ProtocolLayer>, i: nat)
    requires i < |layers| && LayeringErrors(layers, i) == []
    requires LayerErrors(layers[i], i == 0, SeenBefore(layers, i)) != []
    ensures Cut(Strict, LayeringErrors(layers, |layers|)) == Cut(Strict, LayerErrors(layers[i], i == 0, SeenBefore(layers, i)))
  {
    hide LayerErrors, SeenBefore, LayeringErrors;
    var before, here := LayeringErrors(layers, i), LayerErrors(layers[i], i == 0, SeenBefore(layers, i));
    LayeringErrorsGrow(layers, i + 1, |layers|);
    LayeringErrorsStep(layers, i);
    assert before + here == here;
  }

  method ValidateLayering(mode: Mode, layers: seq<ProtocolLayer>) returns (errors: seq<Error>)
    ensures errors == Cut(mode, LayeringErrors(layers, |layers|))
  {
    hide LayerErrors;
    errors := [];
    var seen := Seen(false, false, false, false);
    NothingSeen(layers);
    hide SeenBefore;
    for i := 0 to |layers|
      invariant errors == LayeringErrors(layers, i)
      invariant mode.Strict? ==> errors == []
      invariant seen == SeenBefore(layers, i)
    {
      var more := CheckLayer(mode, layers[i], i == 0, seen);
      if more != [] && mode.Strict? {
        StrictStops(layers, i);
        errors := more;
        return;
      }
      errors := errors + more;
      SeenGrows(layers, i);
      seen := SeenWith(seen, layers[i].name);
    }
  }

  lemma {:induction false} NothingSeen(layers: seq<ProtocolLayer>)
    ensures SeenBefore(layers, 0) == Seen(false, false, false, false)
  {
  }

  /** The layer lists without an error, said of positions: a link layer first, one network family, transport above a
      network layer and below the applications, applications above one of the two unless they are gPTP. */
  ghost predicate LayeredAt(layers: seq<ProtocolLayer>, i: nat)
    requires i < |layers|
  {
    var n := layers[i].name;
    && (i == 0 ==> Link(n))
    && (n.IPv4? || n.IPv6? ==>
          forall j :: 0 <= j < i ==> !Transport(layers[j].name) && !Application(layers[j].name))
    && (n.IPv4? ==> forall j :: 0 <= j < i ==> !layers[j].name.IPv6?)
    && (n.IPv6? ==> forall j :: 0 <= j < i ==> !layers[j].name.IPv4?)
    && (Transport(n) ==>
          && (exists j :: 0 <= j < i && (layers[j].name.IPv4? || layers[j].name.IPv6?))
          && forall j :: 0 <= j < i ==> !Application(layers[j].name))
    && (Application(n) && !n.Gptp? ==>
          exists j :: 0 <= j < i && (layers[j].name.IPv4? || layers[j].name.IPv6? || Transport(layers[j].name)))
  }

  lemma {:induction false} LayerErrorsIff(layers: seq<ProtocolLayer>, i: nat)
    requires i < |layers|
    ensures LayerErrors(layers[i], i == 0, SeenBefore(layers, i)) == [] <==> LayeredAt(layers, i)
  {
  }

  lemma {:induction false} LayeringAcceptsIff(layers: seq<ProtocolLayer>, n: nat)
    requires n <= |layers|
    ensures LayeringErrors(layers, n) == [] <==> forall i :: 0 <= i < n ==> LayeredAt(layers, i)
  {
    hide LayerErrors, LayeredAt;
    if n > 0 {
      LayeringAcceptsIff(layers, n - 1);
      LayerErrorsIff(layers, n - 1);
    }
  }

  // ----- lengths -----

  /** Lengths wrap around as 64-bit sizes do. */
  function Total(l: ProtocolLayer): u64 {
    (l.headerLength + l.payloadLength) % TWO64
  }

  function End(l: ProtocolLayer): u64 {
    (l.offset + Total(l)) % TWO64
  }

  function EndBefore(layers: seq<ProtocolLayer>, i: nat): u64
    requires i <= |layers|
  {
    if i == 0 then 0 else End(layers[i - 1])
  }

  function Furthest(layers: seq<ProtocolLayer>, n: nat): u64
    requires n <= |layers|
  {
    if n == 0 then 0
    else if Furthest(layers, n - 1) < End(layers[n - 1]) then End(layers[n - 1]) else Furthest(layers, n - 1)
  }

  function LengthErrorsOf(l: ProtocolLayer, lastEnd: u64): seq<Error> {
    When(l.offset > lastEnd, l, Gap(lastEnd)) + When(l.headerLength > Total(l), l, HeaderTooLong)
  }

  function LengthErrors(layers: seq<ProtocolLayer>, n: nat): seq<Error>
    requires n <= |layers|
  {
    if n == 0 then [] else LengthErrors(layers, n - 1) + LengthErrorsOf(layers[n - 1], EndBefore(layers, n - 1))
  }

  function AllLengthErrors(layers: seq<ProtocolLayer>, total: u64): seq<Error> {
    var expected := Furthest(layers, |layers|);
    LengthErrors(layers, |layers|) + if expected > total then [Error(0, PacketTooShort(expected))] else []
  }

  lemma {:induction false} LengthErrorsGrow(layers: seq<ProtocolLayer>, i: nat, n: nat)
    requires i <= n <= |layers|
    ensures LengthErrors(layers, i) <= LengthErrors(layers, n)
    decreases n - i
  {
    hide LengthErrorsOf, EndBefore;
    if i < n {
      LengthErrorsGrow(layers, i, n - 1);
    }
  }

  lemma {:induction false} StrictStopsLengths(layers: seq<ProtocolLayer>, i: nat, total: u64)
    requires i < |layers| && LengthErrors(layers, i) == []
    requires LengthErrorsOf(layers[i], EndBefore(layers, i)) != []
    ensures Cut(Strict, AllLengthErrors(layers, total)) == [LengthErrorsOf(layers[i], EndBefore(layers, i))[0]]
  {
    var before, here := LengthErrors(layers, i), LengthErrorsOf(layers[i], EndBefore(layers, i));
    LengthErrorsGrow(layers, i + 1, |layers|);
    assert LengthErrors(layers, i + 1) == before + here;
    hide LengthErrorsOf, EndBefore, Furthest, LengthErrors;
    assert before + here == here;
  }

  method CheckLength(mode: Mode, l: ProtocolLayer, lastEnd: u64, total: u64) returns (errors: seq<Error>)
    requires total == Total(l)
    ensures errors == Cut(mode, LengthErrorsOf(l, lastEnd))
  {
    hide Total;
    errors := [];
    if l.offset > lastEnd {
      errors := [Error(l.offset, Gap(lastEnd))];
      if mode.Strict? { return; }
    }
    if l.headerLength > total {
      errors := errors + [Error(l.offset, HeaderTooLong)];
    }
  }

  method ValidateLengths(mode: Mode, layers: seq<ProtocolLayer>, total: u64) returns (errors: seq<Error>)
    ensures errors == Cut(mode, AllLengthErrors(layers, total))
  {
    hide Total, LengthErrorsOf;
    errors := [];
    if layers == [] { return; }
    var expected: u64, lastEnd: u64 := 0, 0;
    for i := 0 to |layers|
      invariant errors == LengthErrors(layers, i)
      invariant mode.Strict? ==> errors == []
      invariant expected == Furthest(layers, i) && lastEnd == EndBefore(layers, i)
    {
      var l := layers[i];
      var layerTotal := Total(l);
      var more := CheckLength(mode, l, lastEnd, layerTotal);
      if more != [] && mode.Strict? {
        StrictStopsLengths(layers, i, total);
        errors := more;
        return;
      }
      errors := errors + more;
      lastEnd := (l.offset + layerTotal) % TWO64;
      expected := if expected < lastEnd then lastEnd else expected;
    }
    if expected > total {
      errors := errors + [Error(0, PacketTooShort(expected))];
    }
  }

  /** The lengths accepted: no layer's own length wraps around, no layer starts beyond the 64-bit end of the one before,
      and every 64-bit end is inside the packet. The end itself may have wrapped, and layers may overlap. */
  ghost predicate LengthsFit(layers: seq<ProtocolLayer>, total: u64) {
    forall i :: 0 <= i < |layers| ==> LengthFitsAt(layers, i) && End(layers[i]) <= total
  }

  ghost predicate LengthFitsAt(layers: seq<ProtocolLayer>, i: nat)
    requires i < |layers|
  {
    layers[i].headerLength + layers[i].payloadLength < TWO64 && layers[i].offset <= EndBefore(layers, i)
  }

  lemma {:induction false} HeaderTooLongIff(l: ProtocolLayer)
    ensures l.headerLength > Total(l) <==> l.headerLength + l.payloadLength >= TWO64
  {
    if l.headerLength + l.payloadLength >= TWO64 {
      assert Total(l) == l.headerLength + l.payloadLength - TWO64;
    }
  }

  lemma {:induction false} LengthErrorsOfIff(layers: seq<ProtocolLayer>, i: nat)
    requires i < |layers|
    ensures LengthErrorsOf(layers[i], EndBefore(layers, i)) == [] <==> LengthFitsAt(layers, i)
  {
    HeaderTooLongIff(layers[i]);
    hide Total, EndBefore;
  }

  lemma {:induction false} LengthErrorsIff(layers: seq<ProtocolLayer>, n: nat)
    requires n <= |layers|
    ensures LengthErrors(layers, n) == [] <==> forall i :: 0 <= i < n ==> LengthFitsAt(layers, i)
  {
    hide LengthErrorsOf, EndBefore, LengthFitsAt;
    if n > 0 {
      LengthErrorsIff(layers, n - 1);
      LengthErrorsOfIff(layers, n - 1);
    }
  }

  lemma {:induction false} FurthestIsMax(layers: seq<ProtocolLayer>, n: nat, total: u64)
    requires n <= |layers|
    ensures Furthest(layers, n) <= total <==> forall i :: 0 <= i < n ==> End(layers[i]) <= total
  {
    hide End;
    if n > 0 { FurthestIsMax(layers, n - 1, total); }
  }

  lemma {:induction false} LengthsAcceptIff(layers: seq<ProtocolLayer>, total: u64)
    ensures AllLengthErrors(layers, total) == [] <==> LengthsFit(layers, total)
  {
    LengthErrorsIff(layers, |layers|);
    FurthestIsMax(layers, |layers|, total);
    hide LengthFitsAt, LengthErrors, Furthest, End;
  }

  /** Accepted layers really lie in the packet exactly when none of their ends wraps around. */
  lemma {:induction false} AcceptedLayersLieInsideIff(layers: seq<ProtocolLayer>, total: u64)
    requires AllLengthErrors(layers, total) == []
    ensures (forall i :: 0 <= i < |layers| ==> TrueEnd(layers[i]) <= total) <==>
            forall i :: 0 <= i < |layers| ==> TrueEnd(layers[i]) < TWO64
  {
    LengthsAcceptIff(layers, total);
    hide AllLengthErrors, EndBefore, End;
    forall i | 0 <= i < |layers| && TrueEnd(layers[i]) < TWO64 ensures TrueEnd(layers[i]) <= total {
      assert LengthFitsAt(layers, i) && End(layers[i]) <= total;
      NoWrapEnd(layers[i]);
    }
  }

  lemma {:induction false} NoWrapEnd(l: ProtocolLayer)
    requires TrueEnd(l) < TWO64
    ensures End(l) == TrueEnd(l)
  {
  }

  /** Where a layer ends, without wrapping around. */
  function TrueEnd(l: ProtocolLayer): nat {
    l.offset + l.headerLength + l.payloadLength
  }

  /** A layer that ends at 2^64 + 4 is accepted in a packet of a hundred bytes. */
  lemma {:induction false} WrappedEndAccepted()
    ensures var layers := [ProtocolLayer(Ethernet, 0, 14, 86), ProtocolLayer(IPv4, 14, 20, TWO64 - 30)];
            AllLengthErrors(layers, 100) == [] && TrueEnd(layers[1]) == TWO64 + 4
  {
    var layers := [ProtocolLayer(Ethernet, 0, 14, 86), ProtocolLayer(IPv4, 14, 20, TWO64 - 30)];
    assert End(layers[0]) == 100 && End(layers[1]) == 4;
    LengthsAcceptIff(layers, 100);
    hide AllLengthErrors;
    assert LengthFitsAt(layers, 0) && LengthFitsAt(layers, 1);
  }

  // ----- overlaps -----

  /** Some byte of the packet belongs to both layers. */
  ghost predicate Overlap(a: ProtocolLayer, b: ProtocolLayer) {
    exists p :: Covers(a, p) && Covers(b, p)
  }

  predicate Covers(l: ProtocolLayer, p: nat) {
    l.offset <= p < TrueEnd(l)
  }

  ghost predicate OverlapFree(layers: seq<ProtocolLayer>) {
    forall i, j :: 0 <= i < j < |layers| ==> !Overlap(layers[i], layers[j])
  }

  /** The greatest end among the first `n` layers. */
  function Reach(layers: seq<ProtocolLayer>, n: nat): nat
    requires n <= |layers|
  {
    if n == 0 then 0
    else if Reach(layers, n - 1) < TrueEnd(layers[n - 1]) then TrueEnd(layers[n - 1])
    else Reach(layers, n - 1)
  }

  lemma {:induction false} ReachIsMax(layers: seq<ProtocolLayer>, n: nat)
    requires n <= |layers|
    ensures forall i :: 0 <= i < n ==> TrueEnd(layers[i]) <= Reach(layers, n)
    ensures EndBefore(layers, n) <= Reach(layers, n)
  {
    if n > 0 {
      ReachIsMax(layers, n - 1);
      assert End(layers[n - 1]) <= TrueEnd(layers[n - 1]) by { WrapsDown(layers[n - 1]); }
    }
  }

  lemma {:induction false} WrapsDown(l: ProtocolLayer)
    ensures End(l) <= TrueEnd(l)
  {
  }

  /** Layers without gaps leave no byte out below their greatest end. */
  lemma {:induction false} ReachIsCovered(layers: seq<ProtocolLayer>, n: nat, p: nat)
    requires n <= |layers| && p < Reach(layers, n)
    requires forall i :: 0 <= i < n ==> layers[i].offset <= EndBefore(layers, i)
    ensures exists i :: 0 <= i < n && Covers(layers[i], p)
  {
    hide EndBefore;
    ReachIsMax(layers, n - 1);
    if p < Reach(layers, n - 1) {
      ReachIsCovered(layers, n - 1, p);
    } else {
      assert Covers(layers[n - 1], p);
    }
  }

  lemma {:induction false} EarlyStartOverlaps(layers: seq<ProtocolLayer>, i: nat)
    requires i < |layers| && layers[i].offset < TrueEnd(layers[i]) && layers[i].offset < Reach(layers, i)
    requires forall j :: 0 <= j < i ==> layers[j].offset <= EndBefore(layers, j)
    ensures exists k :: 0 <= k < i && Overlap(layers[k], layers[i])
  {
    ReachIsCovered(layers, i, layers[i].offset);
    var k :| 0 <= k < i && Covers(layers[k], layers[i].offset);
    assert Covers(layers[i], layers[i].offset) && Overlap(layers[k], layers[i]);
  }

  /** Of the accepted lists, those without an overlap are exactly the ones in which every layer that is not empty starts
      at or behind the end of all layers before it. */
  lemma {:induction false} OverlapFreeIff(layers: seq<ProtocolLayer>, total: u64)
    requires AllLengthErrors(layers, total) == []
    ensures OverlapFree(layers) <==>
            forall i :: 0 <= i < |layers| && layers[i].offset < TrueEnd(layers[i]) ==> Reach(layers, i) <= layers[i].offset
  {
    LengthsAcceptIff(layers, total);
    hide AllLengthErrors, EndBefore, End, Reach;
    assert forall i :: 0 <= i < |layers| ==> LengthFitsAt(layers, i) && layers[i].offset <= EndBefore(layers, i);
    if OverlapFree(layers) {
      forall i | 0 <= i < |layers| && layers[i].offset < TrueEnd(layers[i])
        ensures Reach(layers, i) <= layers[i].offset
      {
        if layers[i].offset < Reach(layers, i) { EarlyStartOverlaps(layers, i); }
      }
    }
    if forall i :: 0 <= i < |layers| && layers[i].offset < TrueEnd(layers[i]) ==> Reach(layers, i) <= layers[i].offset {
      forall i, j | 0 <= i < j < |layers| ensures !Overlap(layers[i], layers[j]) {
        ReachIsMax(layers, j);
      }
    }
  }

  /** If no layer is empty and no end wraps around, that is: each layer starts exactly at the end of the one before. */
  lemma {:induction false} OverlapFreeIffEndToEnd(layers: seq<ProtocolLayer>, total: u64)
    requires AllLengthErrors(layers, total) == []
    requires forall i :: 0 <= i < |layers| ==> layers[i].offset < TrueEnd(layers[i]) < TWO64
    ensures OverlapFree(layers) <==> forall i :: 0 <= i < |layers| ==> layers[i].offset == EndBefore(layers, i)
  {
    LengthsAcceptIff(layers, total);
    OverlapFreeIff(layers, total);
    hide AllLengthErrors, OverlapFree, End;
    forall i | 0 <= i < |layers| ensures layers[i].offset <= EndBefore(layers, i) <= Reach(layers, i) {
      assert LengthFitsAt(layers, i);
      ReachIsMax(layers, i);
    }
    if forall i :: 0 <= i < |layers| ==> layers[i].offset == EndBefore(layers, i) {
      forall i | 0 <= i < |layers| ensures Reach(layers, i) == EndBefore(layers, i) {
        EndToEndReach(layers, i);
      }
    }
  }

  lemma {:induction false} EndToEndReach(layers: seq<ProtocolLayer>, n: nat)
    requires n <= |layers| && forall i :: 0 <= i < |layers| ==> layers[i].offset < TrueEnd(layers[i]) < TWO64
    requires forall i :: 0 <= i < |layers| ==> layers[i].offset == EndBefore(layers, i)
    ensures Reach(layers, n) == EndBefore(layers, n)
  {
    if n > 0 {
      EndToEndReach(layers, n - 1);
      NoWrapEnd(layers[n - 1]);
      hide End;
    }
  }

  /** Two layers over the same hundred bytes: they overlap and are accepted. */
  lemma {:induction false} OverlapAccepted()
    ensures var layers := [ProtocolLayer(Ethernet, 0, 14, 86), ProtocolLayer(IPv4, 0, 20, 80)];
            AllLengthErrors(layers, 100) == [] && Overlap(layers[0], layers[1])
  {
    var layers := [ProtocolLayer(Ethernet, 0, 14, 86), ProtocolLayer(IPv4, 0, 20, 80)];
    assert End(layers[0]) == 100 && End(layers[1]) == 100;
    LengthsAcceptIff(layers, 100);
    hide AllLengthErrors;
    assert LengthFitsAt(layers, 0) && LengthFitsAt(layers, 1);
    assert Covers(layers[0], 0) && Covers(layers[1], 0);
  }

  // ----- checksums -----

  /** The words of the pseudo header the program sums: addresses, protocol, length. */
  function PseudoSum(packet: seq<byte>, ip: ProtocolLayer, protocol: byte, length: u64): nat
    requires ip.offset + 20 <= |packet|
  {
    Be16(packet, ip.offset + 12) + Be16(packet, ip.offset + 14) + Be16(packet, ip.offset + 16) + Be16(packet, ip.offset + 18)
    + protocol + length % 0x1_0000 + length / 0x1_0000 % 0x1_0000
  }

  function PseudoChecksum(packet: seq<byte>, ip: ProtocolLayer, protocol: byte, length: u64): u16 {
    if ip.offset + 20 > |packet| then 0
    else
      assert PseudoSum(packet, ip, protocol, length) < TWO32;
      0xFFFF - Checksum.Fold(PseudoSum(packet, ip, protocol, length))
  }

  /** One of the two loops over an address: its two words. */
  method AddAddress(packet: seq<byte>, at: nat, sum: u32) returns (r: u32)
    requires at + 4 <= |packet| && sum < 0x1_0000_0000 - 0x2_0000
    ensures r == sum + Be16(packet, at) + Be16(packet, at + 2)
  {
    hide Be16;
    r := sum;
    ghost var seen := 0;
    var i := 0;
    while i < 4
      invariant i == 2 * seen && seen <= 2
      invariant r == sum + (if seen > 0 then Be16(packet, at) else 0) + (if seen > 1 then Be16(packet, at + 2) else 0)
    {
      r := r + Be16(packet, at + i);
      i, seen := i + 2, seen + 1;
    }
  }

  method CalculatePseudoChecksum(packet: seq<byte>, ip: ProtocolLayer, protocol: byte, length: u64) returns (r: u16)
    requires Checksum.InReach(packet, ip.offset, 20)
    ensures r == PseudoChecksum(packet, ip, protocol, length)
  {
    hide Be16, Checksum.Fold;
    if (ip.offset + 20) % TWO64 > |packet| {
      Checksum.TooFar(packet, ip.offset, 20);
      return 0;
    }
    var sum := AddAddress(packet, ip.offset + 12, 0);
    sum := AddAddress(packet, ip.offset + 16, sum);
    sum := sum + protocol + length % 0x1_0000;
    if length > 0xFFFF {
      sum := sum + length / 0x1_0000 % 0x1_0000;
    }
    sum := Checksum.FoldCarries(sum);
    r := 0xFFFF - sum;
  }

  function LastNamed(layers: seq<ProtocolLayer>, n: nat, name: Name): Option<ProtocolLayer>
    requires n <= |layers|
  {
    if n == 0 then None else if layers[n - 1].name == name then Some(layers[n - 1]) else LastNamed(layers, n - 1, name)
  }

  ghost predicate IPv4Sums(packet: seq<byte>, l: ProtocolLayer) {
    Checksum.ValidatorAccepts(packet, l.offset)
  }

  /** A zero field of UDP over IPv4 means that there is no checksum. */
  ghost predicate UdpSums(packet: seq<byte>, l: ProtocolLayer, ip: Option<ProtocolLayer>) {
    && l.offset + 8 <= |packet|
    && (ip.Some? && Be16(packet, l.offset + 6) != 0 ==>
          Be16(packet, l.offset + 6) == PseudoChecksum(packet, ip.value, 17, Total(l)))
  }

  ghost predicate TcpSums(packet: seq<byte>, l: ProtocolLayer, ip: Option<ProtocolLayer>) {
    && l.offset + 20 <= |packet|
    && (ip.Some? ==> Be16(packet, l.offset + 16) == PseudoChecksum(packet, ip.value, 6, Total(l)))
  }

  ghost function ChecksumErrors(packet: seq<byte>, layers: seq<ProtocolLayer>): seq<Error> {
    if packet == [] || layers == [] then []
    else
      var ip, udp, tcp := LastNamed(layers, |layers|, IPv4), LastNamed(layers, |layers|, Udp), LastNamed(layers, |layers|, Tcp);
      (if ip.Some? then When(!IPv4Sums(packet, ip.value), ip.value, BadChecksum(IPv4)) else [])
      + (if udp.Some? then When(!UdpSums(packet, udp.value, ip), udp.value, BadChecksum(Udp)) else [])
      + (if tcp.Some? then When(!TcpSums(packet, tcp.value, ip), tcp.value, BadChecksum(Tcp)) else [])
  }

  method ValidateUdpChecksum(packet: seq<byte>, l: ProtocolLayer, ip: Option<ProtocolLayer>) returns (ok: bool)
    requires Checksum.InReach(packet, l.offset, 8) && (ip.Some? ==> Checksum.InReach(packet, ip.value.offset, 20))
    ensures ok <==> UdpSums(packet, l, ip)
  {
    hide PseudoChecksum, Total;
    if (l.offset + 8) % TWO64 > |packet| {
      Checksum.TooFar(packet, l.offset, 8);
      return false;
    }
    var field := Be16(packet, l.offset + 6);
    if field == 0 && ip.Some? { return true; }
    if ip.None? { return true; }
    var calculated := CalculatePseudoChecksum(packet, ip.value, 17, Total(l));
    ok := calculated == field;
  }

  method ValidateTcpChecksum(packet: seq<byte>, l: ProtocolLayer, ip: Option<ProtocolLayer>) returns (ok: bool)
    requires Checksum.InReach(packet, l.offset, 20) && (ip.Some? ==> Checksum.InReach(packet, ip.value.offset, 20))
    ensures ok <==> TcpSums(packet, l, ip)
  {
    hide PseudoChecksum, Total;
    if (l.offset + 20) % TWO64 > |packet| {
      Checksum.TooFar(packet, l.offset, 20);
      return false;
    }
    if ip.None? { return true; }
    var calculated := CalculatePseudoChecksum(packet, ip.value, 6, Total(l));
    ok := calculated == Be16(packet, l.offset + 16);
  }

  /** No layer that is looked at, given the mode, has an offset so near to 2^64 that the program reads elsewhere. */
  ghost predicate ReadsInside(mode: Mode, packet: seq<byte>, layers: seq<ProtocolLayer>) {
    packet == [] || layers == [] ||
    var ip, udp, tcp := LastNamed(layers, |layers|, IPv4), LastNamed(layers, |layers|, Udp), LastNamed(layers, |layers|, Tcp);
    var afterIp := mode.Lenient? || (ip.Some? ==> IPv4Sums(packet, ip.value));
    var afterUdp := afterIp && (mode.Lenient? || (udp.Some? ==> UdpSums(packet, udp.value, ip)));
    && (ip.Some? ==> Checksum.InReach(packet, ip.value.offset, 20))
    && (udp.Some? && afterIp ==> Checksum.InReach(packet, udp.value.offset, 8))
    && (tcp.Some? && afterUdp ==> Checksum.InReach(packet, tcp.value.offset, 20))
  }

  method ValidateChecksums(mode: Mode, packet: seq<byte>, layers: seq<ProtocolLayer>) returns (errors: seq<Error>)
    requires ReadsInside(mode, packet, layers)
    ensures errors == Cut(mode, ChecksumErrors(packet, layers))
  {
    hide UdpSums, TcpSums, PseudoChecksum;
    errors := [];
    if packet == [] || layers == [] { return; }
    var ip: Option<ProtocolLayer>, udp: Option<ProtocolLayer>, tcp: Option<ProtocolLayer> := None, None, None;
    for i := 0 to |layers|
      invariant ip == LastNamed(layers, i, IPv4) && udp == LastNamed(layers, i, Udp) && tcp == LastNamed(layers, i, Tcp)
    {
      if layers[i].name == IPv4 { ip := Some(layers[i]); }
      else if layers[i].name == Udp { udp := Some(layers[i]); }
      else if layers[i].name == Tcp { tcp := Some(layers[i]); }
    }
    if ip.Some? {
      var ok := Checksum.ValidateIpv4Checksum(packet, ip.value.offset);
      if !ok {
        errors := errors + [Error(ip.value.offset, BadChecksum(IPv4))];
        if mode.Strict? { return; }
      }
    }
    if udp.Some? {
      var ok := ValidateUdpChecksum(packet, udp.value, ip);
      if !ok {
        errors := errors + [Error(udp.value.offset, BadChecksum(Udp))];
        if mode.Strict? { return; }
      }
    }
    if tcp.Some? {
      var ok := ValidateTcpChecksum(packet, tcp.value, ip);
      if !ok {
        errors := errors + [Error(tcp.value.offset, BadChecksum(Tcp))];
      }
    }
  }

  // ----- what the transport checksums are worth -----

  ghost predicate SameAt(a: seq<byte>, b: seq<byte>, i: nat) {
    |a| == |b| && (i + 2 <= |a| ==> a[i..i + 2] == b[i..i + 2])
  }

  lemma {:induction false} SameWord(a: seq<byte>, b: seq<byte>, i: nat)
    requires SameAt(a, b, i) && i + 2 <= |a|
    ensures Be16(a, i) == Be16(b, i)
  {
    assert a[i] == a[i..i + 2][0] == b[i] && a[i + 1] == a[i..i + 2][1] == b[i + 1];
  }

  /** The check does not look at the transport bytes: changing them keeps the verdict, as long as the checksum field is
      left alone. */
  lemma {:induction false} TransportBytesAreNotCovered(a: seq<byte>, b: seq<byte>, l: ProtocolLayer, ip: ProtocolLayer)
    requires |a| == |b| && ip.offset + 20 <= l.offset <= |a| && a[..l.offset] == b[..l.offset]
    ensures SameAt(a, b, l.offset + 16) ==> (TcpSums(a, l, Some(ip)) <==> TcpSums(b, l, Some(ip)))
    ensures SameAt(a, b, l.offset + 6) ==> (UdpSums(a, l, Some(ip)) <==> UdpSums(b, l, Some(ip)))
  {
    assert forall i :: 0 <= i < l.offset ==> a[i] == a[..l.offset][i] == b[i];
    assert forall p: byte :: PseudoChecksum(a, ip, p, Total(l)) == PseudoChecksum(b, ip, p, Total(l));
    hide PseudoChecksum, Total;
    if SameAt(a, b, l.offset + 16) && l.offset + 20 <= |a| { SameWord(a, b, l.offset + 16); }
    if SameAt(a, b, l.offset + 6) && l.offset + 8 <= |a| { SameWord(a, b, l.offset + 6); }
  }

  lemma {:induction false} PseudoIff(packet: seq<byte>, ip: ProtocolLayer, protocol: byte, length: u64, field: u16)
    requires ip.offset + 20 <= |packet| && protocol > 0
    ensures PseudoChecksum(packet, ip, protocol, length) == field <==>
            field != 0xFFFF && (PseudoSum(packet, ip, protocol, length) + field) % 0xFFFF == 0
  {
    var n := PseudoSum(packet, ip, protocol, length);
    assert 0 < n < TWO32;
    hide PseudoSum;
    Checksum.FoldIsResidue(n);
    Checksum.MeetsField(n, field);
  }

  /** The segments accepted: pseudo header plus field make a multiple of 65535, and the field is not 65535. */
  lemma {:induction false} TcpSumsIff(packet: seq<byte>, l: ProtocolLayer, ip: ProtocolLayer)
    requires l.offset + 20 <= |packet| && ip.offset + 20 <= |packet|
    ensures var field := Be16(packet, l.offset + 16);
            TcpSums(packet, l, Some(ip)) <==> field != 0xFFFF && (PseudoSum(packet, ip, 6, Total(l)) + field) % 0xFFFF == 0
  {
    PseudoIff(packet, ip, 6, Total(l), Be16(packet, l.offset + 16));
  }

  lemma {:induction false} UdpSumsIff(packet: seq<byte>, l: ProtocolLayer, ip: ProtocolLayer)
    requires l.offset + 8 <= |packet| && ip.offset + 20 <= |packet|
    ensures var field := Be16(packet, l.offset + 6);
            UdpSums(packet, l, Some(ip)) <==>
            field == 0 || (field != 0xFFFF && (PseudoSum(packet, ip, 17, Total(l)) + field) % 0xFFFF == 0)
  {
    PseudoIff(packet, ip, 17, Total(l), Be16(packet, l.offset + 6));
  }

  function SegmentSum(packet: seq<byte>, l: ProtocolLayer): nat
    requires l.offset + Total(l) <= |packet|
  {
    Checksum.Sum(Checksum.Words(packet[l.offset..l.offset + Total(l)]))
  }

  /** The checksum of a segment is right (RFC 768, section 3.1 of RFC 9293): pseudo header and all its words together
      make a multiple of 65535. */
  ghost predicate RightSum(packet: seq<byte>, l: ProtocolLayer, ip: ProtocolLayer, protocol: byte) {
    && ip.offset + 20 <= |packet| && l.offset + Total(l) <= |packet|
    && (PseudoSum(packet, ip, protocol, Total(l)) + SegmentSum(packet, l)) % 0xFFFF == 0
  }

  lemma {:induction false} FieldInSum(packet: seq<byte>, l: ProtocolLayer, k: nat)
    requires l.offset + Total(l) <= |packet| && 2 * k + 1 < Total(l)
    ensures Be16(packet, l.offset + 2 * k) <= SegmentSum(packet, l)
  {
    hide Total;
    var segment := packet[l.offset..l.offset + Total(l)];
    var words := Checksum.Words(segment);
    assert words[k] == Be16(segment, 2 * k) == Be16(packet, l.offset + 2 * k);
    Checksum.SumWithout(words, k);
  }

  /** A right TCP segment is accepted exactly when its other words, which the program leaves out, make a multiple of
      65535, and its field is not 65535. */
  lemma {:induction false} RightTcpAcceptedIff(packet: seq<byte>, l: ProtocolLayer, ip: ProtocolLayer)
    requires Total(l) >= 20 && RightSum(packet, l, ip, 6)
    ensures var field := Be16(packet, l.offset + 16);
            && field <= SegmentSum(packet, l)
            && (TcpSums(packet, l, Some(ip)) <==> field != 0xFFFF && (SegmentSum(packet, l) - field) % 0xFFFF == 0)
  {
    TcpSumsIff(packet, l, ip);
    FieldInSum(packet, l, 8);
    hide TcpSums, SegmentSum, PseudoSum, Total;
    Checksum.CongruentRest(SegmentSum(packet, l), PseudoSum(packet, ip, 6, Total(l)), Be16(packet, l.offset + 16));
  }

  /** Likewise for UDP, where a zero field is always accepted. */
  lemma {:induction false} RightUdpAcceptedIff(packet: seq<byte>, l: ProtocolLayer, ip: ProtocolLayer)
    requires Total(l) >= 8 && RightSum(packet, l, ip, 17)
    ensures var field := Be16(packet, l.offset + 6);
            && field <= SegmentSum(packet, l)
            && (UdpSums(packet, l, Some(ip)) <==>
                field == 0 || (field != 0xFFFF && (SegmentSum(packet, l) - field) % 0xFFFF == 0))
  {
    UdpSumsIff(packet, l, ip);
    FieldInSum(packet, l, 3);
    hide UdpSums, SegmentSum, PseudoSum, Total;
    Checksum.CongruentRest(SegmentSum(packet, l), PseudoSum(packet, ip, 17, Total(l)), Be16(packet, l.offset + 6));
  }

  lemma {:induction false} TwoWords(n: nat, k: nat, w: u16, j: nat, v: u16)
    requires 2 * k + 1 < n && 2 * j + 1 < n && k != j
    ensures Checksum.Sum(Checksum.Words(Checksum.WithWord(Checksum.WithWord(Zeros(n), k, w), j, v))) == w + v
  {
    hide Checksum.WithWord, Checksum.Words, Checksum.Sum;
    Checksum.SumOfZeros(n);
    var words := Checksum.Words(Zeros(n));
    Checksum.SumUpdated(words, k, w);
    Checksum.SumUpdated(words[k := w], j, v);
  }

  lemma {:induction false} NoAddresses(packet: seq<byte>, ip: ProtocolLayer, protocol: byte, length: u16)
    requires ip.offset == 0 && |packet| >= 20 && packet[..20] == Zeros(20)
    ensures PseudoSum(packet, ip, protocol, length) == protocol + length
  {
    assert forall i :: 0 <= i < 20 ==> packet[i] == packet[..20][i] == 0;
  }

  function FirstWords(n: nat, j: nat, v: u16): (s: seq<byte>)
    requires 2 * j + 1 < n && 0 < j
    ensures |s| == n
  {
    Checksum.WithWord(Checksum.WithWord(Zeros(n), 0, 1), j, v)
  }

  /** A segment whose only words are 1 and, in its checksum field, `v`, behind a blank IPv4 header. */
  lemma {:induction false} LoneWords(n: u16, j: nat, v: u16, protocol: byte, ip: ProtocolLayer, l: ProtocolLayer)
    requires 2 * j + 1 < n && 0 < j && ip.offset == 0 && l.offset == 20 && Total(l) == n
    ensures var packet := Zeros(20) + FirstWords(n, j, v);
            && PseudoSum(packet, ip, protocol, n) == protocol + n
            && SegmentSum(packet, l) == 1 + v && Be16(packet, 20 + 2 * j) == v
  {
    hide Total, FirstWords, PseudoSum, SegmentSum, Be16, Zeros;
    var packet := Zeros(20) + FirstWords(n, j, v);
    assert packet[..20] == Zeros(20);
    NoAddresses(packet, ip, protocol, n);
    LoneSum(n, j, v, l);
    LoneField(n, j, v);
  }

  lemma {:induction false} LoneSum(n: u16, j: nat, v: u16, l: ProtocolLayer)
    requires 2 * j + 1 < n && 0 < j && l.offset == 20 && Total(l) == n
    ensures SegmentSum(Zeros(20) + FirstWords(n, j, v), l) == 1 + v
  {
    hide Total, FirstWords, Zeros, Checksum.Sum, Checksum.Words;
    var segment := FirstWords(n, j, v);
    assert (Zeros(20) + segment)[20..20 + n] == segment;
    SumOfFirst(n, j, v);
  }

  lemma {:induction false} LoneField(n: u16, j: nat, v: u16)
    requires 2 * j + 1 < n && 0 < j
    ensures Be16(Zeros(20) + FirstWords(n, j, v), 20 + 2 * j) == v
  {
    hide FirstWords, Zeros;
    FieldOfFirst(n, j, v);
  }

  lemma {:induction false} FieldOfFirst(n: nat, j: nat, v: u16)
    requires 2 * j + 1 < n && 0 < j
    ensures Be16(FirstWords(n, j, v), 2 * j) == v
  {
    var s := FirstWords(n, j, v);
    hide FirstWords;
    assert Checksum.Words(s)[j] == Be16(s, 2 * j);
  }

  lemma {:induction false} SumOfFirst(n: nat, j: nat, v: u16)
    requires 2 * j + 1 < n && 0 < j
    ensures Checksum.Sum(Checksum.Words(FirstWords(n, j, v))) == 1 + v
  {
    TwoWords(n, 0, 1, j, v);
  }

  lemma {:induction false} FirstBytes(n: nat, j: nat, v: u16)
    requires 2 * j + 1 < n && 0 < j
    ensures FirstWords(n, j, v) == Zeros(n)[0 := 0][1 := 1][2 * j := v / 256][2 * j + 1 := v % 256]
  {
    hide Checksum.WithWord, Zeros;
    Checksum.WrittenTwice(n, 0, 1, j, v);
  }

  /** A TCP segment with source port 1 and the right checksum FF E4, between addresses 0.0.0.0: refused. */
  lemma {:induction false} RightTcpRefused()
    ensures var packet := Zeros(20) + Zeros(20)[0 := 0][1 := 1][16 := 0xFF][17 := 0xE4];
            var ip, l := ProtocolLayer(IPv4, 0, 20, 20), ProtocolLayer(Tcp, 20, 20, 0);
            RightSum(packet, l, ip, 6) && !TcpSums(packet, l, Some(ip))
  {
    hide SegmentSum, PseudoSum, TcpSums, FirstWords, Zeros, Be16;
    var packet := Zeros(20) + FirstWords(20, 8, 0xFFE4);
    var ip, l := ProtocolLayer(IPv4, 0, 20, 20), ProtocolLayer(Tcp, 20, 20, 0);
    FirstBytes(20, 8, 0xFFE4);
    LoneWords(20, 8, 0xFFE4, 6, ip, l);
    RightTcpAcceptedIff(packet, l, ip);
  }

  /** A UDP datagram with source port 1 and the right checksum FF E5: refused. */
  lemma {:induction false} RightUdpRefused()
    ensures var packet := Zeros(20) + Zeros(8)[0 := 0][1 := 1][6 := 0xFF][7 := 0xE5];
            var ip, l := ProtocolLayer(IPv4, 0, 20, 8), ProtocolLayer(Udp, 20, 8, 0);
            RightSum(packet, l, ip, 17) && !UdpSums(packet, l, Some(ip))
  {
    hide SegmentSum, PseudoSum, UdpSums, FirstWords, Zeros, Be16;
    var packet := Zeros(20) + FirstWords(8, 3, 0xFFE5);
    var ip, l := ProtocolLayer(IPv4, 0, 20, 8), ProtocolLayer(Udp, 20, 8, 0);
    FirstBytes(8, 3, 0xFFE5);
    LoneWords(8, 3, 0xFFE5, 17, ip, l);
    RightUdpAcceptedIff(packet, l, ip);
  }
}
