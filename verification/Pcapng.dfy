/** The blocks of a pcapng file (sections 3 and 4 of draft-ietf-opsawg-pcapng) and the writer that emits them. */
module Pcapng {
  import opened Bytes
  import opened Packets

  const SECTION_HEADER: u32 := 0x0A0D0D0A
  const INTERFACE_DESCRIPTION: u32 := 1
  const INTERFACE_STATISTICS: u32 := 5
  const ENHANCED_PACKET: u32 := 6
  const BYTE_ORDER_MAGIC: u32 := 0x1A2B3C4D
  const UNSPECIFIED_LENGTH: u64 := 0xFFFF_FFFF_FFFF_FFFF

  /** An option: code and value. */
  datatype Opt = Opt(code: u16, value: seq<byte>)

  datatype Block =
    | Section(opts: seq<Opt>)
    | Interface(linkType: u16, snapLen: u32, opts: seq<Opt>)
    | Enhanced(id: u32, ts: u64, data: seq<byte>, originalLen: u32, opts: seq<Opt>)
    | Statistics(id: u32, ts: u64, opts: seq<Opt>)

  function Padding(len: nat): (n: nat)
    ensures n < 4 && (len + n) % 4 == 0
  {
    (4 - len % 4) % 4
  }

  function Padded(s: seq<byte>): (r: seq<byte>)
    ensures |r| == |s| + Padding(|s|)
  {
    s + Zeros(Padding(|s|))
  }

  // ----- sizes, as the writer computes them -----

  function OptionsSize(opts: seq<Opt>): nat {
    if opts == [] then 4
    else OptionsSize(opts[..|opts| - 1]) + 4 + |opts[|opts| - 1].value| + Padding(|opts[|opts| - 1].value|)
  }

  function HeadSize(b: Block): nat {
    match b
    case Section(_) => 24
    case Interface(_, _, _) => 16
    case Enhanced(_, _, _, _, _) => 28
    case Statistics(_, _, _) => 20
  }

  function DataSize(b: Block): nat {
    if b.Enhanced? then |b.data| + Padding(|b.data|) else 0
  }

  function Size(b: Block): nat {
    HeadSize(b) + DataSize(b) + OptionsSize(b.opts) + 4
  }

  // ----- bytes, as the writer emits them -----

  function OptionBytes(o: Order, opt: Opt): seq<byte> {
    Put16(o, opt.code) + Put16(o, |opt.value| % 0x1_0000) + Padded(opt.value)
  }

  function OptionList(o: Order, opts: seq<Opt>): seq<byte> {
    if opts == [] then [] else OptionList(o, opts[..|opts| - 1]) + OptionBytes(o, opts[|opts| - 1])
  }

  function OptionsBytes(o: Order, opts: seq<Opt>): seq<byte> {
    OptionList(o, opts) + Put16(o, 0) + Put16(o, 0)
  }

  /** The fixed fields of a block, with the block length `len` in its place. */
  function Head(o: Order, len: u32, b: Block): (s: seq<byte>)
    ensures |s| == HeadSize(b)
  {
    match b
    case Section(_) =>
      Put32(o, SECTION_HEADER) + Put32(o, len) + Put32(o, BYTE_ORDER_MAGIC) + Put16(o, 1) + Put16(o, 0)
      + Put64(o, UNSPECIFIED_LENGTH)
    case Interface(linkType, snapLen, _) =>
      Put32(o, INTERFACE_DESCRIPTION) + Put32(o, len) + Put16(o, linkType) + Put16(o, 0) + Put32(o, snapLen)
    case Enhanced(id, ts, data, originalLen, _) =>
      Put32(o, ENHANCED_PACKET) + Put32(o, len) + Put32(o, id) + Put32(o, ts / TWO32) + Put32(o, ts % TWO32)
      + Put32(o, |data| % TWO32) + Put32(o, originalLen)
    case Statistics(id, ts, _) =>
      Put32(o, INTERFACE_STATISTICS) + Put32(o, len) + Put32(o, id) + Put32(o, ts / TWO32) + Put32(o, ts % TWO32)
  }

  function Data(b: Block): (s: seq<byte>)
    ensures |s| == DataSize(b)
  {
    if b.Enhanced? then Padded(b.data) else []
  }

  function Encode(o: Order, b: Block): seq<byte> {
    var len := Size(b) % TWO32;
    Head(o, len, b) + Data(b) + OptionsBytes(o, b.opts) + Put32(o, len)
  }

  function EncodeAll(o: Order, bs: seq<Block>): seq<byte> {
    if bs == [] then [] else EncodeAll(o, bs[..|bs| - 1]) + Encode(o, bs[|bs| - 1])
  }

  lemma {:induction false} OptionsSizeIsLength(o: Order, opts: seq<Opt>)
    ensures |OptionList(o, opts)| + 4 == OptionsSize(opts)
    ensures |OptionsBytes(o, opts)| == OptionsSize(opts)
  {
    hide Put16, Padding, Zeros;
    if opts != [] {
      OptionsSizeIsLength(o, opts[..|opts| - 1]);
    }
  }

  lemma {:induction false} OptionsAreAligned(opts: seq<Opt>)
    ensures OptionsSize(opts) % 4 == 0
  {
    hide Padding;
    if opts != [] {
      OptionsAreAligned(opts[..|opts| - 1]);
      var v := |opts[|opts| - 1].value|;
      SumOfFours(OptionsSize(opts[..|opts| - 1]) + 4, v + Padding(v));
    }
  }

  lemma {:induction false} SumOfFours(a: int, b: int)
    requires a % 4 == 0 && b % 4 == 0
    ensures (a + b) % 4 == 0
  {
  }

  /** The size computed beforehand is the number of bytes really emitted, and a multiple of four. */
  lemma {:induction false} SizeIsLength(o: Order, b: Block)
    ensures |Encode(o, b)| == Size(b)
    ensures Size(b) % 4 == 0 && Size(b) >= HeadSize(b) + 8
  {
    hide Put32, Head, Data, OptionsBytes, OptionsSize, Padding;
    OptionsSizeIsLength(o, b.opts);
    assert |OptionList(o, b.opts)| >= 0;
    OptionsAreAligned(b.opts);
    SumOfFours(HeadSize(b) + 4, DataSize(b));
    SumOfFours(HeadSize(b) + 4 + DataSize(b), OptionsSize(b.opts));
  }

  // ----- the writer -----

  datatype InterfaceInfo = InterfaceInfo(
    name: seq<byte>, description: seq<byte>, linkType: u32, snapLen: u32, speed: u64, nanos: bool)

  datatype WriterOptions = WriterOptions(
    hardware: seq<byte>, os: seq<byte>, application: seq<byte>, comment: seq<byte>, nanos: bool)

  /** "default" */
  const DEFAULT_NAME: seq<byte> := [100, 101, 102, 97, 117, 108, 116]
  /** "Wadjet-Link" */
  const APPLICATION: seq<byte> := [87, 97, 100, 106, 101, 116, 45, 76, 105, 110, 107]

  function TextOption(code: u16, text: seq<byte>): seq<Opt> {
    if text == [] then [] else [Opt(code, text)]
  }

  function SectionBlock(w: WriterOptions): Block {
    Section(TextOption(1, w.comment) + TextOption(2, w.hardware) + TextOption(3, w.os) + TextOption(4, w.application))
  }

  function InterfaceBlock(o: Order, info: InterfaceInfo): Block {
    Interface(info.linkType % 0x1_0000, info.snapLen,
              TextOption(2, info.name) + TextOption(3, info.description)
              + (if info.speed > 0 then [Opt(8, Put64(o, info.speed))] else [])
              + [Opt(9, [if info.nanos then 9 else 6])])
  }

  function StampFor(nanos: bool, ts: int): u64 {
    (if nanos then ts else TotalMicroseconds(ts)) % TWO64
  }

  function PacketBlock(info: InterfaceInfo, id: u32, p: Packet, comment: seq<byte>): Block {
    Enhanced(id, StampFor(info.nanos, p.ts),
             if |p.data| < info.snapLen then p.data else p.data[..info.snapLen],
             |p.data| % TWO32, TextOption(1, comment))
  }

  function StatisticsBlock(o: Order, nanos: bool, id: u32, received: u64, dropped: u64, now: int): Block {
    Statistics(id, StampFor(nanos, now), [Opt(4, Put64(o, received)), Opt(5, Put64(o, dropped))])
  }

  // ----- calls -----

  /** The blocks in the file and the interfaces known to the writer. */
  datatype State = State(blocks: seq<Block>, interfaces: seq<InterfaceInfo>)

  datatype Call =
    | Describe(info: InterfaceInfo)
    | Write(p: Packet, id: u32, comment: seq<byte>)
    | Report(id: u32, received: u64, dropped: u64, now: int)

  function DefaultInterface(w: WriterOptions): InterfaceInfo {
    InterfaceInfo(DEFAULT_NAME, [], 1, 65535, 0, w.nanos)
  }

  function WithInterface(o: Order, s: State, info: InterfaceInfo): State {
    State(s.blocks + [InterfaceBlock(o, info)], s.interfaces + [info])
  }

  /** Reading the interface list with an identifier that was never given out is undefined, so it is ruled out; with
      no interface at all the identifier is not looked at. */
  predicate Allowed(s: State, c: Call) {
    c.Report? && s.interfaces != [] ==> c.id < |s.interfaces|
  }

  /** A packet without any interface gets a default one described first; an unknown interface is refused. */
  function Step(o: Order, w: WriterOptions, s: State, c: Call): State
    requires Allowed(s, c)
  {
    match c
    case Describe(info) => WithInterface(o, s, info)
    case Write(p, id, comment) =>
      var t := if s.interfaces == [] then WithInterface(o, s, DefaultInterface(w)) else s;
      if id < |t.interfaces| then t.(blocks := t.blocks + [PacketBlock(t.interfaces[id], id, p, comment)]) else t
    case Report(id, received, dropped, now) =>
      var nanos := if s.interfaces == [] then w.nanos else s.interfaces[id].nanos;
      s.(blocks := s.blocks + [StatisticsBlock(o, nanos, id, received, dropped, now)])
  }

  // ----- what every file of the writer is -----

  function InterfacesIn(bs: seq<Block>): nat {
    if bs == [] then 0 else InterfacesIn(bs[..|bs| - 1]) + if bs[|bs| - 1].Interface? then 1 else 0
  }

  function PacketsIn(bs: seq<Block>): nat {
    if bs == [] then 0 else PacketsIn(bs[..|bs| - 1]) + if bs[|bs| - 1].Enhanced? then 1 else 0
  }

  /** Every packet block names an interface described before it. */
  ghost predicate Described(bs: seq<Block>) {
    forall i :: 0 <= i < |bs| && bs[i].Enhanced? ==> bs[i].id < InterfacesIn(bs[..i])
  }

  function CountedBytes(bs: seq<Block>): nat {
    if bs == [] then 0 else CountedBytes(bs[..|bs| - 1]) + Size(bs[|bs| - 1]) % TWO32
  }

  ghost predicate WellFormed(bs: seq<Block>) {
    && bs != [] && bs[0].Section? && (forall i :: 0 < i < |bs| ==> !bs[i].Section?)
    && Described(bs)
  }

  lemma {:induction false} AppendKeepsWellFormed(bs: seq<Block>, b: Block)
    requires WellFormed(bs) && !b.Section? && (b.Enhanced? ==> b.id < InterfacesIn(bs))
    ensures WellFormed(bs + [b])
    ensures InterfacesIn(bs + [b]) == InterfacesIn(bs) + if b.Interface? then 1 else 0
    ensures PacketsIn(bs + [b]) == PacketsIn(bs) + if b.Enhanced? then 1 else 0
    ensures CountedBytes(bs + [b]) == CountedBytes(bs) + Size(b) % TWO32
  {
    var cs := bs + [b];
    assert cs[..|bs|] == bs;
    forall i | 0 <= i < |cs| && cs[i].Enhanced? ensures cs[i].id < InterfacesIn(cs[..i]) {
      assert cs[..i] == bs[..i];
    }
  }

  lemma {:induction false} EncodeGrows(o: Order, bs: seq<Block>, b: Block)
    ensures EncodeAll(o, bs + [b]) == EncodeAll(o, bs) + Encode(o, b)
  {
    assert (bs + [b])[..|bs|] == bs;
  }

  /** A file that holds only its section header. */
  lemma {:induction false} FreshFile(o: Order, b: Block)
    requires b.Section?
    ensures WellFormed([b]) && InterfacesIn([b]) == 0 && PacketsIn([b]) == 0
    ensures CountedBytes([b]) == Size(b) % TWO32
    ensures EncodeAll(o, [b]) == Encode(o, b)
  {
    hide Encode, Size;
    assert [b][..0] == [];
  }

  lemma {:induction false} Assoc(a: seq<byte>, b: seq<byte>, c: seq<byte>)
    ensures (a + b) + c == a + (b + c)
  {
  }
}
