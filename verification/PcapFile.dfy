/** Classic pcap files: the writer, the reader, and what one makes of the other's output. */
module PcapFile {
  import opened Bytes
  import opened Packets

  const MAGIC_NATIVE: u32 := 0xA1B2C3D4
  const MAGIC_SWAPPED: u32 := 0xD4C3B2A1
  const MAGIC_NSEC_NATIVE: u32 := 0xA1B23C4D
  const MAGIC_NSEC_SWAPPED: u32 := 0x4D3CB2A1

  const FILE_HEADER: nat := 24
  const PACKET_HEADER: nat := 16
  const MAX_FRAME_SIZE: nat := 1522

  // ----- writer -----

  datatype WriterOptions = WriterOptions(linkType: u32, snaplen: u32, nanos: bool)

  /** The file header as a host of byte order `o` lays it out. */
  function FileHeader(o: Order, opts: WriterOptions): (s: seq<byte>)
    ensures |s| == FILE_HEADER
  {
    Put32(o, if opts.nanos then MAGIC_NSEC_NATIVE else MAGIC_NATIVE) + Put16(o, 2) + Put16(o, 4)
    + Put32(o, 0) + Put32(o, 0) + Put32(o, opts.snaplen) + Put32(o, opts.linkType)
  }

  function CapturedLen(opts: WriterOptions, p: Packet): u32 {
    if |p.data| < opts.snaplen then |p.data| else opts.snaplen
  }

  function Fraction(opts: WriterOptions, p: Packet): u32 {
    (if opts.nanos then Nanoseconds(p.ts) else Microseconds(p.ts)) % TWO32
  }

  function PacketHeader(o: Order, opts: WriterOptions, p: Packet): (s: seq<byte>)
    ensures |s| == PACKET_HEADER
  {
    Put32(o, Seconds(p.ts) % TWO32) + Put32(o, Fraction(opts, p))
    + Put32(o, CapturedLen(opts, p)) + Put32(o, |p.data| % TWO32)
  }

  function Record(o: Order, opts: WriterOptions, p: Packet): (s: seq<byte>)
    ensures |s| == PACKET_HEADER + CapturedLen(opts, p)
  {
    PacketHeader(o, opts, p) + p.data[..CapturedLen(opts, p)]
  }

  function Body(o: Order, opts: WriterOptions, ps: seq<Packet>): seq<byte> {
    if ps == [] then [] else Record(o, opts, ps[0]) + Body(o, opts, ps[1..])
  }

  function FileOf(o: Order, opts: WriterOptions, ps: seq<Packet>): seq<byte> {
    FileHeader(o, opts) + Body(o, opts, ps)
  }

  lemma {:induction false} BodyAppends(o: Order, opts: WriterOptions, ps: seq<Packet>, qs: seq<Packet>)
    ensures Body(o, opts, ps + qs) == Body(o, opts, ps) + Body(o, opts, qs)
  {
    if ps == [] {
      assert ps + qs == qs;
    } else {
      assert (ps + qs)[1..] == ps[1..] + qs;
      BodyAppends(o, opts, ps[1..], qs);
    }
  }

  lemma {:induction false} FileGrows(o: Order, opts: WriterOptions, ps: seq<Packet>, p: Packet)
    ensures FileOf(o, opts, ps + [p]) == FileOf(o, opts, ps) + Record(o, opts, p)
  {
    hide FileHeader, Record;
    BodyAppends(o, opts, ps, [p]);
    assert [p][1..] == [];
    assert Body(o, opts, [p]) == Record(o, opts, p) + [];
  }

  class Writer {
    const order: Order
    const opts: WriterOptions
    var file: seq<byte>
    var packetCount: nat
    var bytesWritten: nat
    ghost var written: seq<Packet>

    ghost predicate Valid()
      reads this
    {
      && file == FileOf(order, opts, written)
      && packetCount == |written|
      && bytesWritten == |file| - FILE_HEADER
    }

    constructor (order: Order, opts: WriterOptions)
      ensures Valid() && written == [] && this.order == order && this.opts == opts
    {
      this.order, this.opts := order, opts;
      file := FileHeader(order, opts);
      packetCount, bytesWritten := 0, 0;
      written := [];
    }

    method WritePacket(p: Packet)
      requires Valid()
      modifies this
      ensures Valid() && written == old(written) + [p]
    {
      hide FileHeader, PacketHeader, Body, FileOf;
      var inclLen := if |p.data| < opts.snaplen then |p.data| else opts.snaplen;
      var header := PacketHeader(order, opts, p);
      file := file + header;
      file := file + p.data[..inclLen];
      packetCount := packetCount + 1;
      bytesWritten := bytesWritten + PACKET_HEADER + inclLen;
      FileGrows(order, opts, written, p);
      written := written + [p];
    }
  }

  // ----- reader -----

  /** What the file header told the reader: its own byte order, and how to read the records. */
  datatype Config = Config(host: Order, swapped: bool, nanos: bool, snaplen: u32, linkType: u32)
  {
    function Field(s: seq<byte>): u32
      requires |s| == 4
    {
      if swapped then Swap32(Get32(host, s)) else Get32(host, s)
    }
  }

  function Field16(host: Order, swapped: bool, s: seq<byte>): u16
    requires |s| == 2
  {
    if swapped then Swap16(Get16(host, s)) else Get16(host, s)
  }

  /** The reader's verdict on a file header; nothing if it is short, unknown or of another version. */
  function ReadHeader(host: Order, mem: seq<byte>): Option<Config> {
    if |mem| < FILE_HEADER then None
    else
      var magic := Get32(host, mem[..4]);
      if magic !in {MAGIC_NATIVE, MAGIC_SWAPPED, MAGIC_NSEC_NATIVE, MAGIC_NSEC_SWAPPED} then None
      else
        var swapped := magic == MAGIC_SWAPPED || magic == MAGIC_NSEC_SWAPPED;
        var nanos := magic == MAGIC_NSEC_NATIVE || magic == MAGIC_NSEC_SWAPPED;
        if Field16(host, swapped, mem[4..6]) != 2 || Field16(host, swapped, mem[6..8]) != 4 then None
        else
          var c := Config(host, swapped, nanos, 0, 0);
          Some(c.(snaplen := c.Field(mem[16..20]), linkType := c.Field(mem[20..24])))
  }

  function Stamp(nanos: bool, sec: u32, fraction: u32): int {
    if nanos then FromUnix(sec, fraction) else FromUnixUsec(sec, fraction)
  }

  /** The record at the front of `s`: the packet and its length in the file. */
  function FirstRecord(c: Config, s: seq<byte>): (r: Option<(Packet, nat)>)
    ensures r.Some? ==> PACKET_HEADER <= r.value.1 <= |s|
  {
    if |s| < PACKET_HEADER then None
    else
      var incl := c.Field(s[8..12]);
      if incl > c.snaplen || incl > MAX_FRAME_SIZE * 10 || PACKET_HEADER + incl > |s| then None
      else Some((Packet(s[PACKET_HEADER..PACKET_HEADER + incl], Stamp(c.nanos, c.Field(s[..4]), c.Field(s[4..8]))),
                 PACKET_HEADER + incl))
  }

  /** All packets of a file body. */
  function Records(c: Config, s: seq<byte>): seq<Packet>
    decreases |s|
  {
    match FirstRecord(c, s)
    case None => []
    case Some((p, n)) => [p] + Records(c, s[n..])
  }

  class Reader {
    const memory: seq<byte>
    const config: Config
    var offset: nat
    var eof: bool

    ghost predicate Valid()
      reads this
    {
      FILE_HEADER <= offset <= |memory|
    }

    /** The packets still to come. */
    ghost function Rest(): seq<Packet>
      requires Valid()
      reads this
    {
      if eof then [] else Records(config, memory[offset..])
    }

    constructor (memory: seq<byte>, host: Order)
      requires ReadHeader(host, memory).Some?
      ensures Valid() && Rest() == Records(ReadHeader(host, memory).value, memory[FILE_HEADER..])
      ensures this.memory == memory && Some(config) == ReadHeader(host, memory)
    {
      this.memory := memory;
      config := ReadHeader(host, memory).value;
      offset, eof := FILE_HEADER, false;
    }

    method ReadBytes(size: nat) returns (s: Option<seq<byte>>)
      requires Valid()
      modifies this`offset
      ensures Valid()
      ensures if old(offset) + size > |memory| then s == None && offset == old(offset)
              else s == Some(memory[old(offset)..old(offset) + size]) && offset == old(offset) + size
    {
      if offset + size > |memory| {
        return None;
      }
      s := Some(memory[offset..offset + size]);
      offset := offset + size;
    }

    /** Hands out the packets of the body one by one; the end is final until a reset. */
    method NextPacket() returns (pkt: Option<Packet>)
      requires Valid()
      modifies this`offset, this`eof
      ensures Valid() && offset >= old(offset)
      ensures pkt.Some? ==> old(Rest()) == [pkt.value] + Rest() && offset > old(offset) && !old(eof)
      ensures pkt.None? ==> old(Rest()) == [] && eof
    {
      if eof {
        return None;
      }
      ghost var s := memory[offset..];
      var header := ReadBytes(PACKET_HEADER);
      if header.None? {
        eof := true;
        return None;
      }
      var h := header.value;
      assert h == s[..PACKET_HEADER];
      assert h[..4] == s[..4] && h[4..8] == s[4..8] && h[8..12] == s[8..12];
      var incl := config.Field(h[8..12]);
      if incl > config.snaplen || incl > MAX_FRAME_SIZE * 10 {
        eof := true;
        return None;
      }
      var data := ReadBytes(incl);
      if data.None? {
        eof := true;
        return None;
      }
      pkt := Some(Packet(data.value, Stamp(config.nanos, config.Field(h[..4]), config.Field(h[4..8]))));
      assert data.value == s[PACKET_HEADER..PACKET_HEADER + incl];
      assert memory[offset..] == s[PACKET_HEADER + incl..];
    }

    method ReadAll() returns (ps: seq<Packet>)
      requires Valid()
      modifies this`offset, this`eof
      ensures Valid() && ps == old(Rest()) && eof && Rest() == []
    {
      hide Records;
      ps := [];
      var pkt := NextPacket();
      while pkt.Some?
        invariant Valid()
        invariant pkt.Some? ==> old(Rest()) == ps + ([pkt.value] + Rest())
        invariant pkt.None? ==> old(Rest()) == ps && eof
        decreases |memory| - offset, pkt.Some?
      {
        ghost var left := Rest();
        Regroup(ps, pkt.value, left);
        ps := ps + [pkt.value];
        pkt := NextPacket();
        assert left == [] ==> ps + left == ps;
      }
    }

    static lemma {:induction false} Regroup(ps: seq<Packet>, p: Packet, rest: seq<Packet>)
      ensures ps + ([p] + rest) == (ps + [p]) + rest
    {
    }

    /** Reading starts again at the first packet. */
    method Reset()
      requires Valid()
      modifies this`offset, this`eof
      ensures Valid() && Rest() == Records(config, memory[FILE_HEADER..])
    {
      eof := false;
      offset := FILE_HEADER;
    }
  }
}
