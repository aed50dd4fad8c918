/** What the blocks of a pcapng file say of the calls that wrote it, in plain numbers. */
module PcapngPackets {
  import opened Bytes
  import opened Packets
  import opened Pcapng
  import opened PcapngReading

  // ----- the calls -----

  /** The interfaces described so far; a packet comes with a default one if there is none. */
  function Known(w: WriterOptions, calls: seq<Call>): seq<InterfaceInfo> {
    if calls == [] then []
    else
      var before := Known(w, calls[..|calls| - 1]);
      match calls[|calls| - 1]
      case Describe(info) => before + [info]
      case Write(_, _, _) =>
        if before == [] then [InterfaceInfo([100, 101, 102, 97, 117, 108, 116], [], 1, 65535, 0, w.nanos)] else before
      case Report(_, _, _, _) => before
  }

  datatype Accepted = Accepted(p: Packet, id: u32, comment: seq<byte>)

  /** The packets written: those whose interface is known. */
  function Written(w: WriterOptions, calls: seq<Call>): seq<Accepted> {
    if calls == [] then []
    else
      var before, last := Written(w, calls[..|calls| - 1]), calls[|calls| - 1];
      if last.Write? && last.id < |Known(w, calls)| then before + [Accepted(last.p, last.id, last.comment)] else before
  }

  datatype Reported = Reported(id: u32, received: u64, dropped: u64, now: int, nanos: bool)

  /** The statistics written, each with the resolution of its interface, or of the writer if no interface is known. */
  function Statistics(w: WriterOptions, calls: seq<Call>): seq<Reported> {
    if calls == [] then []
    else
      var pre, last := calls[..|calls| - 1], calls[|calls| - 1];
      var before, known := Statistics(w, pre), Known(w, pre);
      if last.Report? && (known == [] || last.id < |known|)
      then before + [Reported(last.id, last.received, last.dropped, last.now, if known == [] then w.nanos else known[last.id].nanos)]
      else before
  }

  // ----- the blocks -----

  function InterfaceBlocks(bs: seq<Block>): seq<Block> {
    if bs == [] then [] else InterfaceBlocks(bs[..|bs| - 1]) + if bs[|bs| - 1].Interface? then [bs[|bs| - 1]] else []
  }

  function PacketBlocks(bs: seq<Block>): seq<Block> {
    if bs == [] then [] else PacketBlocks(bs[..|bs| - 1]) + if bs[|bs| - 1].Enhanced? then [bs[|bs| - 1]] else []
  }

  function StatisticsBlocks(bs: seq<Block>): seq<Block> {
    if bs == [] then [] else StatisticsBlocks(bs[..|bs| - 1]) + if bs[|bs| - 1].Statistics? then [bs[|bs| - 1]] else []
  }

  /** The values of the options with a code. */
  function Values(opts: seq<Opt>, code: u16): seq<seq<byte>> {
    if opts == [] then []
    else Values(opts[..|opts| - 1], code) + if opts[|opts| - 1].code == code then [opts[|opts| - 1].value] else []
  }

  predicate IsText(values: seq<seq<byte>>, text: seq<byte>) {
    values == if text == [] then [] else [text]
  }

  /** The number in bytes of the file's byte order. */
  function Number(o: Order, s: seq<byte>): nat {
    if s == [] then 0
    else if o.Little? then s[0] as int + 256 * Number(o, s[1..])
    else 256 * Number(o, s[..|s| - 1]) + s[|s| - 1] as int
  }

  predicate IsNumber(o: Order, values: seq<seq<byte>>, n: u64) {
    |values| == 1 && |values[0]| == 8 && Number(o, values[0]) == n
  }

  /** A stamp counts whole units of the resolution given as a power of ten, for times that fit 64 bits of such units. */
  predicate IsStamp(stamp: u64, resolution: int, t: int) {
    && (resolution == 6 || resolution == 9)
    && var unit := if resolution == 9 then 1 else 1000;
       0 <= t < 18446744073709551616 * unit ==> stamp * unit == t - t % unit
  }

  predicate IsSection(b: Block, w: WriterOptions) {
    && b.Section?
    && IsText(Values(b.opts, 1), w.comment) && IsText(Values(b.opts, 2), w.hardware)
    && IsText(Values(b.opts, 3), w.os) && IsText(Values(b.opts, 4), w.application)
  }

  predicate IsInterface(o: Order, b: Block, info: InterfaceInfo) {
    && b.Interface? && b.linkType == info.linkType % 65536 && b.snapLen == info.snapLen
    && IsText(Values(b.opts, 2), info.name) && IsText(Values(b.opts, 3), info.description)
    && (if info.speed > 0 then IsNumber(o, Values(b.opts, 8), info.speed) else Values(b.opts, 8) == [])
    && Values(b.opts, 9) == [[if info.nanos then 9 else 6]]
  }

  /** A packet block and the interface block it names hold a packet. */
  predicate HoldsPacket(b: Block, interface: Block, a: Accepted) {
    && b.Enhanced? && interface.Interface? && b.id == a.id
    && b.data == a.p.data[..if |a.p.data| < interface.snapLen then |a.p.data| else interface.snapLen]
    && b.originalLen == |a.p.data| % 4294967296
    && IsText(Values(b.opts, 1), a.comment)
    && |Values(interface.opts, 9)| == 1 && |Values(interface.opts, 9)[0]| == 1
    && IsStamp(b.ts, Values(interface.opts, 9)[0][0], a.p.ts)
  }

  predicate HoldsReport(o: Order, b: Block, r: Reported) {
    && b.Statistics? && b.id == r.id && IsStamp(b.ts, if r.nanos then 9 else 6, r.now)
    && IsNumber(o, Values(b.opts, 4), r.received) && IsNumber(o, Values(b.opts, 5), r.dropped)
  }

  ghost predicate HoldsInterfaces(o: Order, known: seq<InterfaceInfo>, interfaces: seq<Block>) {
    |interfaces| == |known| && forall i :: 0 <= i < |interfaces| ==> IsInterface(o, interfaces[i], known[i])
  }

  ghost predicate HoldsPackets(written: seq<Accepted>, interfaces: seq<Block>, packets: seq<Block>) {
    && |packets| == |written|
    && forall i :: 0 <= i < |packets| ==>
         written[i].id < |interfaces| && HoldsPacket(packets[i], interfaces[written[i].id], written[i])
  }

  ghost predicate HoldsReports(o: Order, reported: seq<Reported>, reports: seq<Block>) {
    |reports| == |reported| && forall i :: 0 <= i < |reports| ==> HoldsReport(o, reports[i], reported[i])
  }

  /** What has been written so far, apart from how it was asked for. */
  ghost predicate Holds(
      o: Order, w: WriterOptions, known: seq<InterfaceInfo>, written: seq<Accepted>, reported: seq<Reported>, bs: seq<Block>)
  {
    && bs != [] && IsSection(bs[0], w)
    && HoldsInterfaces(o, known, InterfaceBlocks(bs))
    && HoldsPackets(written, InterfaceBlocks(bs), PacketBlocks(bs))
    && HoldsReports(o, reported, StatisticsBlocks(bs))
  }

  // ----- numbers and options -----

  lemma {:induction false} FourBytes(o: Order, s: seq<byte>)
    requires |s| == 4
    ensures Number(o, s) == Get32(o, s)
  {
    if o.Little? {
      var a, b, c := s[1..], s[2..], s[3..];
      assert a[1..] == b && b[1..] == c && c[1..] == [];
      assert Number(o, c) == s[3] as int && Number(o, b) == s[2] as int + 256 * Number(o, c);
      assert Number(o, a) == s[1] as int + 256 * Number(o, b);
    } else {
      var a, b, c := s[..3], s[..2], s[..1];
      assert a[..2] == b && b[..1] == c && c[..0] == [];
      assert Number(o, c) == s[0] as int && Number(o, b) == 256 * Number(o, c) + s[1] as int;
      assert Number(o, a) == 256 * Number(o, b) + s[2] as int;
    }
  }

  /** Four bytes more at the end that counts most. */
  lemma {:induction false} FourMore(o: Order, low: seq<byte>, high: seq<byte>)
    requires |low| == 4
    ensures Number(o, if o.Little? then low + high else high + low) == Number(o, low) + 4294967296 * Number(o, high)
  {
    var a, b, c, d := low[0], low[1], low[2], low[3];
    FourBytes(o, low);
    if o.Little? {
      assert low + high == [a] + ([b] + ([c] + ([d] + high)));
      Front(o, a, [b] + ([c] + ([d] + high)));
      Front(o, b, [c] + ([d] + high));
      Front(o, c, [d] + high);
      Front(o, d, high);
    } else {
      assert high + low == (((high + [a]) + [b]) + [c]) + [d];
      Behind(o, ((high + [a]) + [b]) + [c], d);
      Behind(o, (high + [a]) + [b], c);
      Behind(o, high + [a], b);
      Behind(o, high, a);
    }
  }

  lemma {:induction false} Front(o: Order, b: byte, s: seq<byte>)
    requires o.Little?
    ensures Number(o, [b] + s) == b as int + 256 * Number(o, s)
  {
    assert ([b] + s)[1..] == s;
  }

  lemma {:induction false} Behind(o: Order, s: seq<byte>, b: byte)
    requires o.Big?
    ensures Number(o, s + [b]) == 256 * Number(o, s) + b as int
  {
    assert (s + [b])[..|s|] == s;
  }

  lemma {:induction false} EightBytes(o: Order, n: u64)
    ensures Number(o, Put64(o, n)) == n
  {
    hide Put32, Number;
    var low, high := Put32(o, n % TWO32), Put32(o, n / TWO32);
    FourMore(o, low, high);
    FourBytes(o, low);
    FourBytes(o, high);
    Read32(o, n % TWO32, low);
    Read32(o, n / TWO32, high);
  }

  lemma {:induction false} ValuesOfParts(a: seq<Opt>, b: seq<Opt>, code: u16)
    ensures Values(a + b, code) == Values(a, code) + Values(b, code)
    decreases |b|
  {
    if b == [] {
      assert a + b == a;
    } else {
      var b1 := b[..|b| - 1];
      assert (a + b)[..|a + b| - 1] == a + b1;
      ValuesOfParts(a, b1, code);
    }
  }

  lemma {:induction false} ValuesOfOne(opt: Opt, code: u16)
    ensures Values([opt], code) == if opt.code == code then [opt.value] else []
    ensures Values([], code) == []
  {
    assert [opt][..0] == [];
  }

  lemma {:induction false} ValuesOfText(own: u16, text: seq<byte>, code: u16)
    ensures if own == code then IsText(Values(TextOption(own, text), code), text) else Values(TextOption(own, text), code) == []
  {
    ValuesOfOne(Opt(own, text), code);
    hide Values;
  }

  // ----- each kind of block -----

  lemma {:induction false} ValuesOfFour(a: seq<Opt>, b: seq<Opt>, c: seq<Opt>, d: seq<Opt>, code: u16)
    ensures Values(a + b + c + d, code) == Values(a, code) + Values(b, code) + Values(c, code) + Values(d, code)
  {
    hide Values;
    ValuesOfParts(a + b + c, d, code);
    ValuesOfParts(a + b, c, code);
    ValuesOfParts(a, b, code);
  }

  lemma {:induction false} SectionText(w: WriterOptions, code: u16)
    requires 1 <= code <= 4
    ensures IsText(Values(SectionBlock(w).opts, code),
                   if code == 1 then w.comment else if code == 2 then w.hardware else if code == 3 then w.os else w.application)
  {
    hide TextOption, Values;
    ValuesOfFour(TextOption(1, w.comment), TextOption(2, w.hardware), TextOption(3, w.os), TextOption(4, w.application), code);
    ValuesOfText(1, w.comment, code);
    ValuesOfText(2, w.hardware, code);
    ValuesOfText(3, w.os, code);
    ValuesOfText(4, w.application, code);
  }

  lemma {:induction false} SectionSays(w: WriterOptions)
    ensures IsSection(SectionBlock(w), w)
  {
    SectionText(w, 1);
    SectionText(w, 2);
    SectionText(w, 3);
    SectionText(w, 4);
    hide Values, IsText, TextOption;
  }

  lemma {:induction false} InterfaceValues(o: Order, info: InterfaceInfo, code: u16)
    requires code in {2, 3, 8, 9}
    ensures var values := Values(InterfaceBlock(o, info).opts, code);
            match code
            case 2 => IsText(values, info.name)
            case 3 => IsText(values, info.description)
            case 8 => values == if info.speed > 0 then [Put64(o, info.speed)] else []
            case _ => values == [[if info.nanos then 9 else 6]]
  {
    hide TextOption, Values, Put64;
    var speed := if info.speed > 0 then [Opt(8, Put64(o, info.speed))] else [];
    var resolution := Opt(9, [if info.nanos then 9 else 6]);
    ValuesOfFour(TextOption(2, info.name), TextOption(3, info.description), speed, [resolution], code);
    ValuesOfOne(Opt(8, Put64(o, info.speed)), code);
    ValuesOfOne(resolution, code);
    ValuesOfText(2, info.name, code);
    ValuesOfText(3, info.description, code);
  }

  lemma {:induction false} InterfaceSays(o: Order, info: InterfaceInfo)
    ensures IsInterface(o, InterfaceBlock(o, info), info)
  {
    InterfaceValues(o, info, 2);
    InterfaceValues(o, info, 3);
    InterfaceValues(o, info, 8);
    InterfaceValues(o, info, 9);
    EightBytes(o, info.speed);
    hide TextOption, Values, Put64, Number, IsText;
  }

  lemma {:induction false} StampSays(nanos: bool, t: int)
    ensures IsStamp(StampFor(nanos, t), if nanos then 9 else 6, t)
  {
    var unit := if nanos then 1 else 1000;
    if 0 <= t < 18446744073709551616 * unit {
      assert t / 1000 * 1000 == t - t % 1000;
    }
  }

  lemma {:induction false} PacketSays(o: Order, info: InterfaceInfo, id: u32, p: Packet, comment: seq<byte>, interface: Block)
    requires IsInterface(o, interface, info)
    ensures HoldsPacket(PacketBlock(info, id, p, comment), interface, Accepted(p, id, comment))
  {
    StampSays(info.nanos, p.ts);
    ValuesOfText(1, comment, 1);
    hide TextOption, Values, StampFor, IsStamp;
    assert p.data[..|p.data|] == p.data;
  }

  lemma {:induction false} ReportSays(o: Order, nanos: bool, id: u32, received: u64, dropped: u64, now: int)
    ensures HoldsReport(o, StatisticsBlock(o, nanos, id, received, dropped, now), Reported(id, received, dropped, now, nanos))
  {
    var a, b := Opt(4, Put64(o, received)), Opt(5, Put64(o, dropped));
    StampSays(nanos, now);
    EightBytes(o, received);
    EightBytes(o, dropped);
    assert [a, b] == [a] + [b];
    ValuesOfParts([a], [b], 4);
    ValuesOfParts([a], [b], 5);
    ValuesOfOne(a, 4);
    ValuesOfOne(b, 4);
    ValuesOfOne(a, 5);
    ValuesOfOne(b, 5);
    hide Values, StampFor, IsStamp, Put64, Number;
  }

  // ----- over every run -----

  lemma {:induction false} Filters(bs: seq<Block>, b: Block)
    ensures InterfaceBlocks(bs + [b]) == if b.Interface? then InterfaceBlocks(bs) + [b] else InterfaceBlocks(bs)
    ensures PacketBlocks(bs + [b]) == if b.Enhanced? then PacketBlocks(bs) + [b] else PacketBlocks(bs)
    ensures StatisticsBlocks(bs + [b]) == if b.Statistics? then StatisticsBlocks(bs) + [b] else StatisticsBlocks(bs)
  {
    assert (bs + [b])[..|bs|] == bs;
  }

  lemma {:induction false} Kinds(o: Order, info: InterfaceInfo, id: u32, p: Packet, comment: seq<byte>, nanos: bool, n: u64, m: u64, now: int)
    ensures InterfaceBlock(o, info).Interface? && PacketBlock(info, id, p, comment).Enhanced?
    ensures StatisticsBlock(o, nanos, id, n, m, now).Statistics?
  {
  }

  lemma {:induction false} HoldsInterface(
      o: Order, w: WriterOptions, known: seq<InterfaceInfo>, written: seq<Accepted>, reported: seq<Reported>, bs: seq<Block>,
      info: InterfaceInfo)
    requires Holds(o, w, known, written, reported, bs)
    ensures Holds(o, w, known + [info], written, reported, bs + [InterfaceBlock(o, info)])
  {
    hide InterfaceBlock, IsSection, IsInterface, HoldsInterfaces, HoldsPackets, HoldsReports;
    hide InterfaceBlocks, PacketBlocks, StatisticsBlocks, PacketBlock, StatisticsBlock;
    InterfaceSays(o, info);
    var b := InterfaceBlock(o, info);
    Kinds(o, info, 0, Packet([], 0), [], false, 0, 0, 0);
    Filters(bs, b);
    MoreInterfaces(o, known, InterfaceBlocks(bs), info, b);
    StillHolds(written, InterfaceBlocks(bs), PacketBlocks(bs), b);
  }

  lemma {:induction false} MoreInterfaces(o: Order, known: seq<InterfaceInfo>, interfaces: seq<Block>, info: InterfaceInfo, b: Block)
    requires HoldsInterfaces(o, known, interfaces) && IsInterface(o, b, info)
    ensures HoldsInterfaces(o, known + [info], interfaces + [b])
  {
    hide IsInterface;
  }

  lemma {:induction false} OneInterface(o: Order, known: seq<InterfaceInfo>, interfaces: seq<Block>, i: nat)
    requires HoldsInterfaces(o, known, interfaces) && i < |known|
    ensures i < |interfaces| && IsInterface(o, interfaces[i], known[i])
  {
    hide IsInterface;
  }

  lemma {:induction false} StillHolds(written: seq<Accepted>, interfaces: seq<Block>, packets: seq<Block>, b: Block)
    requires HoldsPackets(written, interfaces, packets)
    ensures HoldsPackets(written, interfaces + [b], packets)
  {
    hide HoldsPacket;
  }

  lemma {:induction false} MorePackets(written: seq<Accepted>, interfaces: seq<Block>, packets: seq<Block>, a: Accepted, b: Block)
    requires HoldsPackets(written, interfaces, packets) && a.id < |interfaces| && HoldsPacket(b, interfaces[a.id], a)
    ensures HoldsPackets(written + [a], interfaces, packets + [b])
  {
    hide HoldsPacket;
  }

  lemma {:induction false} MoreReports(o: Order, reported: seq<Reported>, reports: seq<Block>, r: Reported, b: Block)
    requires HoldsReports(o, reported, reports) && HoldsReport(o, b, r)
    ensures HoldsReports(o, reported + [r], reports + [b])
  {
    hide HoldsReport;
  }

  lemma {:induction false} HoldsWritten(
      o: Order, w: WriterOptions, known: seq<InterfaceInfo>, written: seq<Accepted>, reported: seq<Reported>, bs: seq<Block>,
      a: Accepted)
    requires Holds(o, w, known, written, reported, bs) && a.id < |known|
    ensures Holds(o, w, known, written + [a], reported, bs + [PacketBlock(known[a.id], a.id, a.p, a.comment)])
  {
    hide PacketBlock, InterfaceBlock, StatisticsBlock, IsSection, IsInterface, HoldsInterfaces, HoldsPacket, HoldsPackets, HoldsReports;
    hide InterfaceBlocks, PacketBlocks, StatisticsBlocks;
    var b := PacketBlock(known[a.id], a.id, a.p, a.comment);
    Kinds(o, known[a.id], a.id, a.p, a.comment, false, 0, 0, 0);
    OneInterface(o, known, InterfaceBlocks(bs), a.id);
    PacketSays(o, known[a.id], a.id, a.p, a.comment, InterfaceBlocks(bs)[a.id]);
    Filters(bs, b);
    MorePackets(written, InterfaceBlocks(bs), PacketBlocks(bs), a, b);
  }

  lemma {:induction false} HoldsStatistics(
      o: Order, w: WriterOptions, known: seq<InterfaceInfo>, written: seq<Accepted>, reported: seq<Reported>, bs: seq<Block>,
      r: Reported)
    requires Holds(o, w, known, written, reported, bs)
    ensures Holds(o, w, known, written, reported + [r], bs + [StatisticsBlock(o, r.nanos, r.id, r.received, r.dropped, r.now)])
  {
    hide PacketBlock, InterfaceBlock, StatisticsBlock, IsSection, HoldsReport, HoldsReports, HoldsPackets, HoldsInterfaces;
    hide InterfaceBlocks, PacketBlocks, StatisticsBlocks;
    var b := StatisticsBlock(o, r.nanos, r.id, r.received, r.dropped, r.now);
    Kinds(o, DefaultInterface(w), r.id, Packet([], 0), [], r.nanos, r.received, r.dropped, r.now);
    ReportSays(o, r.nanos, r.id, r.received, r.dropped, r.now);
    Filters(bs, b);
    MoreReports(o, reported, StatisticsBlocks(bs), r, b);
  }

  ghost predicate StateHolds(o: Order, w: WriterOptions, calls: seq<Call>, s: State) {
    s.interfaces == Known(w, calls) && Holds(o, w, Known(w, calls), Written(w, calls), Statistics(w, calls), s.blocks)
  }

  lemma {:induction false} LogsGrow(w: WriterOptions, pre: seq<Call>, c: Call)
    ensures var calls, known := pre + [c], Known(w, pre);
            && (c.Describe? ==> Known(w, calls) == known + [c.info])
            && (c.Write? ==> Known(w, calls) == if known == [] then [DefaultInterface(w)] else known)
            && (c.Report? ==> Known(w, calls) == known)
            && Written(w, calls) ==
               (if c.Write? && c.id < |Known(w, calls)| then Written(w, pre) + [Accepted(c.p, c.id, c.comment)] else Written(w, pre))
            && (!c.Report? ==> Statistics(w, calls) == Statistics(w, pre))
            && (c.Report? && (known == [] || c.id < |known|) ==>
                  Statistics(w, calls) == Statistics(w, pre)
                  + [Reported(c.id, c.received, c.dropped, c.now, if known == [] then w.nanos else known[c.id].nanos)])
  {
    assert (pre + [c])[..|pre|] == pre;
  }

  lemma {:induction false} DescribeHolds(o: Order, w: WriterOptions, pre: seq<Call>, s: State, info: InterfaceInfo)
    requires StateHolds(o, w, pre, s)
    ensures StateHolds(o, w, pre + [Describe(info)], Step(o, w, s, Describe(info)))
  {
    hide Holds, InterfaceBlock, Known, Written, Statistics;
    LogsGrow(w, pre, Describe(info));
    HoldsInterface(o, w, Known(w, pre), Written(w, pre), Statistics(w, pre), s.blocks, info);
  }

  /** The state in which a packet is written: with some interface. */
  lemma {:induction false} SomeInterface(o: Order, w: WriterOptions, written: seq<Accepted>, reported: seq<Reported>, s: State)
    requires Holds(o, w, s.interfaces, written, reported, s.blocks)
    ensures var t := if s.interfaces == [] then WithInterface(o, s, DefaultInterface(w)) else s;
            Holds(o, w, t.interfaces, written, reported, t.blocks)
  {
    hide Holds, InterfaceBlock;
    if s.interfaces == [] {
      HoldsInterface(o, w, [], written, reported, s.blocks, DefaultInterface(w));
    }
  }

  lemma {:induction false} WriteHolds(o: Order, w: WriterOptions, pre: seq<Call>, s: State, p: Packet, id: u32, comment: seq<byte>)
    requires StateHolds(o, w, pre, s)
    ensures StateHolds(o, w, pre + [Write(p, id, comment)], Step(o, w, s, Write(p, id, comment)))
  {
    hide Holds, InterfaceBlock, PacketBlock, Known, Written, Statistics, DefaultInterface;
    LogsGrow(w, pre, Write(p, id, comment));
    var written, reported := Written(w, pre), Statistics(w, pre);
    var t := if s.interfaces == [] then WithInterface(o, s, DefaultInterface(w)) else s;
    SomeInterface(o, w, written, reported, s);
    assert s.interfaces == [] ==> t.interfaces == [DefaultInterface(w)];
    if id < |t.interfaces| {
      HoldsWritten(o, w, t.interfaces, written, reported, t.blocks, Accepted(p, id, comment));
    }
  }

  lemma {:induction false} ReportHolds(o: Order, w: WriterOptions, pre: seq<Call>, s: State, c: Call)
    requires StateHolds(o, w, pre, s) && c.Report? && Allowed(s, c)
    ensures StateHolds(o, w, pre + [c], Step(o, w, s, c))
  {
    hide Holds, StatisticsBlock, Known, Written, Statistics;
    LogsGrow(w, pre, c);
    var known := Known(w, pre);
    HoldsStatistics(o, w, known, Written(w, pre), Statistics(w, pre), s.blocks,
                    Reported(c.id, c.received, c.dropped, c.now, if known == [] then w.nanos else known[c.id].nanos));
  }

  lemma {:induction false} FreshHolds(o: Order, w: WriterOptions)
    ensures StateHolds(o, w, [], State([SectionBlock(w)], []))
  {
    SectionSays(w);
    var b := SectionBlock(w);
    assert b.Section? && [] + [b] == [b];
    hide IsSection, SectionBlock;
    Filters([], b);
  }

  lemma {:induction false} RunHolds(o: Order, w: WriterOptions, calls: seq<Call>)
    requires AllAllowed(o, w, calls)
    ensures StateHolds(o, w, calls, Run(o, w, calls))
  {
    hide StateHolds, Step, Allowed, SectionBlock;
    if calls == [] {
      FreshHolds(o, w);
    } else {
      var pre, last := calls[..|calls| - 1], calls[|calls| - 1];
      RunHolds(o, w, pre);
      var s := Run(o, w, pre);
      CallHolds(o, w, pre, s, last);
      assert calls == pre + [last];
    }
  }

  lemma {:induction false} CallHolds(o: Order, w: WriterOptions, pre: seq<Call>, s: State, c: Call)
    requires StateHolds(o, w, pre, s) && Allowed(s, c)
    ensures StateHolds(o, w, pre + [c], Step(o, w, s, c))
  {
    hide StateHolds, Step;
    match c
    case Describe(info) => DescribeHolds(o, w, pre, s, info);
    case Write(p, id, comment) => WriteHolds(o, w, pre, s, p, id, comment);
    case Report(_, _, _, _) => ReportHolds(o, w, pre, s, c);
  }

  /** The counters of the writer count blocks. */
  lemma {:induction false} CountsAre(bs: seq<Block>)
    ensures InterfacesIn(bs) == |InterfaceBlocks(bs)| && PacketsIn(bs) == |PacketBlocks(bs)|
  {
    if bs != [] { CountsAre(bs[..|bs| - 1]); }
  }

  /** Over every run the packet counter is the number of packets whose interface is known. */
  lemma {:induction false} PacketCounterIs(o: Order, w: WriterOptions, calls: seq<Call>)
    requires AllAllowed(o, w, calls)
    ensures PacketsIn(Run(o, w, calls).blocks) == |Written(w, calls)|
    ensures InterfacesIn(Run(o, w, calls).blocks) == |Known(w, calls)|
  {
    RunHolds(o, w, calls);
    CountsAre(Run(o, w, calls).blocks);
    hide Run, Written, Known, HoldsPacket, IsInterface, IsSection, HoldsReports;
  }

  /** Over every run, the blocks a reader gets back from the file say exactly what was asked for: the section's texts, each
      interface described, each packet whose interface is known (cut to the snap length of that interface, with its length,
      its comment, and its time in the resolution that the interface block announces), and each report. */
  lemma {:induction false} EveryCallIsInTheFile(o: Order, w: WriterOptions, calls: seq<Call>)
    requires AllAllowed(o, w, calls) && Small(Run(o, w, calls).blocks) && AllReadable(Run(o, w, calls).blocks)
    ensures var read := ReadFile(o, EncodeAll(o, Run(o, w, calls).blocks));
            read.Some? && Holds(o, w, Known(w, calls), Written(w, calls), Statistics(w, calls), read.value)
  {
    RunHolds(o, w, calls);
    FileReadsBackIff(o, Run(o, w, calls).blocks);
    hide Run, ReadFile, Small, AllReadable, Holds;
  }
}
