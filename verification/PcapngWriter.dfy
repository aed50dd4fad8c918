/** The pcapng writer as an object: every call appends whole blocks to the file. */
module PcapngWriter {
  import opened Bytes
  import opened Packets
  import opened Pcapng

  class Writer {
    const order: Order
    const options: WriterOptions
    var file: seq<byte>
    var interfaces: seq<InterfaceInfo>
    var packetCount: nat
    var bytesWritten: nat

    ghost var blocks: seq<Block>   // the blocks completed so far
    ghost var base: seq<byte>      // the file up to the block being written
    ghost var tail: seq<byte>      // the part of that block already written

    ghost predicate Valid()
      reads this
    {
      && file == EncodeAll(order, blocks)
      && WellFormed(blocks)
      && InterfacesIn(blocks) == |interfaces|
      && PacketsIn(blocks) == packetCount
      && CountedBytes(blocks) == bytesWritten
    }

    constructor (order: Order, options: WriterOptions, osInfo: seq<byte>)
      ensures Valid() && interfaces == [] && this.order == order
      ensures blocks == [SectionBlock(this.options)]
      ensures this.options == options.(os := if options.os == [] then osInfo else options.os,
                                       application := if options.application == []
                                                      then [87, 97, 100, 106, 101, 116, 45, 76, 105, 110, 107]
                                                      else options.application)
    {
      this.order := order;
      this.options := options.(os := if options.os == [] then osInfo else options.os,
                               application := if options.application == [] then APPLICATION else options.application);
      file, interfaces, packetCount, bytesWritten := [], [], 0, 0;
      blocks, base, tail := [], [], [];
      new;
      WriteSectionHeader();
    }

    // ----- raw writes -----

    method WriteBytes(s: seq<byte>)
      requires file == base + tail
      modifies this`file, this`tail
      ensures tail == old(tail) + s && file == base + tail
    {
      file := file + s;
      Assoc(base, tail, s);
      tail := tail + s;
    }

    method WriteU16(v: u16)
      requires file == base + tail
      modifies this`file, this`tail
      ensures tail == old(tail) + Put16(order, v) && file == base + tail
    {
      WriteBytes(Put16(order, v));
    }

    method WriteU32(v: u32)
      requires file == base + tail
      modifies this`file, this`tail
      ensures tail == old(tail) + Put32(order, v) && file == base + tail
    {
      WriteBytes(Put32(order, v));
    }

    method WriteU64(v: u64)
      requires file == base + tail
      modifies this`file, this`tail
      ensures tail == old(tail) + Put64(order, v) && file == base + tail
    {
      WriteBytes(Put64(order, v));
    }

    method WritePadded(data: seq<byte>)
      requires file == base + tail
      modifies this`file, this`tail
      ensures tail == old(tail) + Padded(data) && file == base + tail
    {
      WriteBytes(data);
      var padding := (4 - |data| % 4) % 4;
      if padding > 0 {
        WriteBytes(Zeros(padding));
      }
      Assoc(old(tail), data, Zeros(padding));
    }

    method WriteOption(opt: Opt)
      requires file == base + tail
      modifies this`file, this`tail
      ensures tail == old(tail) + OptionBytes(order, opt) && file == base + tail
    {
      hide Put16;
      WriteU16(opt.code);
      WriteU16(|opt.value| % 0x1_0000);
      if opt.value != [] {
        WritePadded(opt.value);
      }
      ghost var c, n := Put16(order, opt.code), Put16(order, |opt.value| % 0x1_0000);
      Assoc(old(tail), c, n);
      Assoc(old(tail), c + n, Padded(opt.value));
    }

    method WriteOptions(opts: seq<Opt>)
      requires file == base + tail
      modifies this`file, this`tail
      ensures tail == old(tail) + OptionsBytes(order, opts) && file == base + tail
    {
      hide Put16, OptionBytes;
      for i := 0 to |opts|
        invariant tail == old(tail) + OptionList(order, opts[..i]) && file == base + tail
      {
        WriteOption(opts[i]);
        assert opts[..i + 1][..i] == opts[..i];
        Assoc(old(tail), OptionList(order, opts[..i]), OptionBytes(order, opts[i]));
      }
      assert opts[..|opts|] == opts;
      WriteU16(0);
      WriteU16(0);
      ghost var l, z := OptionList(order, opts), Put16(order, 0);
      Assoc(old(tail), l, z);
      Assoc(old(tail), l + z, z);
    }

    /** The loop that every block writer runs before it writes the block length. */
    static method ComputeOptionsSize(opts: seq<Opt>) returns (n: nat)
      ensures n == OptionsSize(opts)
    {
      n := 4;
      for i := 0 to |opts|
        invariant n == OptionsSize(opts[..i])
      {
        assert opts[..i + 1][..i] == opts[..i];
        n := n + 4 + |opts[i].value| + Padding(|opts[i].value|);
      }
      assert opts[..|opts|] == opts;
    }

    // ----- section and interface blocks -----

    method SectionOptions() returns (opts: seq<Opt>)
      ensures opts == SectionBlock(options).opts
    {
      opts := [];
      if options.comment != [] { opts := opts + [Opt(1, options.comment)]; }
      if options.hardware != [] { opts := opts + [Opt(2, options.hardware)]; }
      if options.os != [] { opts := opts + [Opt(3, options.os)]; }
      if options.application != [] { opts := opts + [Opt(4, options.application)]; }
    }

    method WriteSectionHeader()
      requires file == [] && base == [] && tail == [] && blocks == []
      requires bytesWritten == 0 && packetCount == 0 && interfaces == []
      modifies this`file, this`tail, this`blocks, this`bytesWritten
      ensures Valid() && blocks == [SectionBlock(options)]
    {
      hide Encode, EncodeAll, WellFormed, InterfacesIn, PacketsIn, CountedBytes, Size;
      FreshFile(order, SectionBlock(options));
      WriteSectionFields();
      blocks := [SectionBlock(options)];
      assert base + tail == tail;
    }

    method WriteSectionFields()
      requires file == base + tail && tail == []
      modifies this`file, this`tail, this`bytesWritten
      ensures tail == Encode(order, SectionBlock(options)) && file == base + tail
      ensures bytesWritten == old(bytesWritten) + Size(SectionBlock(options)) % TWO32
    {
      hide Put16, Put32, Put64, OptionsBytes, OptionsSize;
      var opts := SectionOptions();
      var optionsSize := ComputeOptionsSize(opts);
      var blockLen := (24 + optionsSize + 4) % TWO32;
      WriteU32(SECTION_HEADER);
      WriteU32(blockLen);
      WriteU32(BYTE_ORDER_MAGIC);
      WriteU16(1);
      WriteU16(0);
      WriteU64(UNSPECIFIED_LENGTH);
      assert [] + Put32(order, SECTION_HEADER) == Put32(order, SECTION_HEADER);
      FinishBlock(SectionBlock(options), opts, blockLen);
    }

    /** The end of every block: its options and its length once more. */
    method FinishBlock(ghost b: Block, opts: seq<Opt>, blockLen: u32)
      requires opts == b.opts && blockLen == Size(b) % TWO32
      requires file == base + tail && tail + [] == Head(order, blockLen, b) + Data(b)
      modifies this`file, this`tail, this`bytesWritten
      ensures tail == Encode(order, b) && file == base + tail
      ensures bytesWritten == old(bytesWritten) + blockLen
    {
      hide Head, Data, OptionsBytes, Size, Put32;
      assert tail + [] == tail;
      WriteOptions(opts);
      WriteU32(blockLen);
      bytesWritten := bytesWritten + blockLen;
    }

    /** Accounts for a block just appended to the file. */
    ghost method Append(b: Block)
      requires base == EncodeAll(order, blocks) && file == base + Encode(order, b)
      modifies this`blocks
      ensures blocks == old(blocks) + [b] && file == EncodeAll(order, blocks)
    {
      EncodeGrows(order, blocks, b);
      blocks := blocks + [b];
    }

    method AddInterface(info: InterfaceInfo) returns (id: nat)
      requires Valid()
      modifies this`file, this`base, this`tail, this`blocks, this`bytesWritten, this`interfaces
      ensures Valid() && id == old(|interfaces|) && interfaces == old(interfaces) + [info]
      ensures State(blocks, interfaces) == Step(order, options, old(State(blocks, interfaces)), Describe(info))
    {
      hide EncodeAll, Encode, WellFormed, InterfacesIn, PacketsIn, CountedBytes, Size;
      id := |interfaces|;
      interfaces := interfaces + [info];
      AppendKeepsWellFormed(blocks, InterfaceBlock(order, info));
      WriteInterfaceBlock(info);
      Append(InterfaceBlock(order, info));
    }

    method InterfaceOptions(info: InterfaceInfo) returns (opts: seq<Opt>)
      ensures opts == InterfaceBlock(order, info).opts
    {
      opts := [];
      if info.name != [] { opts := opts + [Opt(2, info.name)]; }
      if info.description != [] { opts := opts + [Opt(3, info.description)]; }
      if info.speed > 0 { opts := opts + [Opt(8, Put64(order, info.speed))]; }
      opts := opts + [Opt(9, [if info.nanos then 9 else 6])];
    }

    method WriteInterfaceBlock(info: InterfaceInfo)
      modifies this`file, this`base, this`tail, this`bytesWritten
      ensures base == old(file) && file == base + Encode(order, InterfaceBlock(order, info))
      ensures bytesWritten == old(bytesWritten) + Size(InterfaceBlock(order, info)) % TWO32
    {
      hide Put16, Put32, Put64, OptionsBytes, OptionsSize;
      base, tail := file, [];
      var opts := InterfaceOptions(info);
      var optionsSize := ComputeOptionsSize(opts);
      var blockLen := (16 + optionsSize + 4) % TWO32;
      WriteU32(INTERFACE_DESCRIPTION);
      WriteU32(blockLen);
      WriteU16(info.linkType % 0x1_0000);
      WriteU16(0);
      WriteU32(info.snapLen);
      assert [] + Put32(order, INTERFACE_DESCRIPTION) == Put32(order, INTERFACE_DESCRIPTION);
      FinishBlock(InterfaceBlock(order, info), opts, blockLen);
    }

    // ----- packet blocks -----

    /** Without interfaces a default one is described first; an unknown interface is then refused. */
    method WritePacket(p: Packet, id: u32, comment: seq<byte>) returns (ok: bool)
      requires Valid()
      modifies this
      ensures Valid()
      ensures ok == (id < |interfaces|)
      ensures State(blocks, interfaces) == Step(order, options, old(State(blocks, interfaces)), Write(p, id, comment))
    {
      hide EncodeAll, Encode, WellFormed, InterfacesIn, PacketsIn, CountedBytes, Size, InterfaceBlock;
      if interfaces == [] {
        var _ := AddInterface(DefaultInterface(options));
      }
      if id >= |interfaces| {
        return false;
      }
      AppendKeepsWellFormed(blocks, PacketBlock(interfaces[id], id, p, comment));
      WriteEnhancedPacket(interfaces[id], p, id, comment);
      packetCount := packetCount + 1;
      Append(PacketBlock(interfaces[id], id, p, comment));
      return true;
    }

    method WriteEnhancedPacket(iface: InterfaceInfo, p: Packet, id: u32, comment: seq<byte>)
      modifies this`file, this`base, this`tail, this`bytesWritten
      ensures base == old(file) && file == base + Encode(order, PacketBlock(iface, id, p, comment))
      ensures bytesWritten == old(bytesWritten) + Size(PacketBlock(iface, id, p, comment)) % TWO32
    {
      hide Put32, OptionsBytes, OptionsSize, StampFor, Head;
      base, tail := file, [];
      var timestamp := StampFor(iface.nanos, p.ts);
      var captured: u32 := if |p.data| < iface.snapLen then |p.data| else iface.snapLen;
      var dataPadding := Padding(captured);
      var opts := if comment != [] then [Opt(1, comment)] else [];
      var optionsSize := ComputeOptionsSize(opts);
      var blockLen := (28 + captured + dataPadding + optionsSize + 4) % TWO32;
      ghost var b := PacketBlock(iface, id, p, comment);
      assert b.data == p.data[..captured];
      WriteEnhancedHead(b, blockLen, id, timestamp, captured, |p.data| % TWO32);
      ghost var head := tail;
      WriteBytes(p.data[..captured]);
      if dataPadding > 0 {
        WriteBytes(Zeros(dataPadding));
      }
      Assoc(head, b.data, Zeros(dataPadding));
      assert tail + [] == tail;
      FinishBlock(b, opts, blockLen);
    }

    method WriteEnhancedHead(ghost b: Block, blockLen: u32, id: u32, ts: u64, captured: u32, original: u32)
      requires b.Enhanced? && b.id == id && b.ts == ts && |b.data| == captured && b.originalLen == original
      requires file == base + tail && tail == []
      modifies this`file, this`tail
      ensures tail == Head(order, blockLen, b) && file == base + tail
    {
      hide Put32;
      WriteU32(ENHANCED_PACKET);
      WriteU32(blockLen);
      WriteU32(id);
      WriteU32(ts / TWO32);
      WriteU32(ts % TWO32);
      WriteU32(captured);
      WriteU32(original);
      assert [] + Put32(order, ENHANCED_PACKET) == Put32(order, ENHANCED_PACKET);
    }

    // ----- statistics blocks -----

    method WriteStatistics(id: u32, received: u64, dropped: u64, now: int)
      requires Valid() && Allowed(State(blocks, interfaces), Report(id, received, dropped, now))
      modifies this`file, this`base, this`tail, this`bytesWritten, this`blocks
      ensures Valid()
      ensures State(blocks, interfaces)
              == Step(order, options, old(State(blocks, interfaces)), Report(id, received, dropped, now))
    {
      hide EncodeAll, Encode, WellFormed, InterfacesIn, PacketsIn, CountedBytes, Size, Put64;
      var ts := now % TWO64;
      if !options.nanos && interfaces == [] {
        ts := TotalMicroseconds(now) % TWO64;
      } else if interfaces != [] && !interfaces[id].nanos {
        ts := TotalMicroseconds(now) % TWO64;
      }
      ghost var b := StatisticsBlock(order, if interfaces == [] then options.nanos else interfaces[id].nanos,
                                     id, received, dropped, now);
      AppendKeepsWellFormed(blocks, b);
      WriteStatisticsFields(id, ts, received, dropped);
      Append(b);
    }

    method WriteStatisticsFields(id: u32, ts: u64, received: u64, dropped: u64)
      modifies this`file, this`base, this`tail, this`bytesWritten
      ensures var b := Statistics(id, ts, [Opt(4, Put64(order, received)), Opt(5, Put64(order, dropped))]);
              && base == old(file) && file == base + Encode(order, b)
              && bytesWritten == old(bytesWritten) + Size(b) % TWO32
    {
      hide Put16, Put32, Put64, OptionsBytes, OptionsSize;
      base, tail := file, [];
      var opts := [Opt(4, Put64(order, received)), Opt(5, Put64(order, dropped))];
      var optionsSize := ComputeOptionsSize(opts);
      var blockLen := (20 + optionsSize + 4) % TWO32;
      WriteU32(INTERFACE_STATISTICS);
      WriteU32(blockLen);
      WriteU32(id);
      WriteU32(ts / TWO32);
      WriteU32(ts % TWO32);
      assert [] + Put32(order, INTERFACE_STATISTICS) == Put32(order, INTERFACE_STATISTICS);
      FinishBlock(Statistics(id, ts, opts), opts, blockLen);
    }
  }
}
