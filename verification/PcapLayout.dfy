/** The bytes of a classic pcap file in plain numbers: where the fields lie, which headers and records a reader takes, and
    what it makes of them. */
module PcapLayout {
  import opened Bytes
  import opened Packets
  import opened PcapFile
  import PcapRoundTrip

  // ----- what is written -----

  function Least(a: nat, b: nat): nat {
    if a < b then a else b
  }

  lemma {:induction false} WordAt(o: Order, s: seq<byte>, i: nat, w: u32)
    requires i + 4 <= |s| && s[i..i + 4] == Put32(o, w)
    ensures Get32(o, s[i..i + 4]) == w
  {
    Read32(o, w, s[i..i + 4]);
  }

  lemma {:induction false} HalfAt(o: Order, s: seq<byte>, i: nat, w: u16)
    requires i + 2 <= |s| && s[i..i + 2] == Put16(o, w)
    ensures Get16(o, s[i..i + 2]) == w
  {
    Read16(o, w, s[i..i + 2]);
  }

  /** Twenty-four bytes: magic, version 2.4, two zero words, snap length, link type. */
  predicate IsFileHeader(o: Order, opts: WriterOptions, s: seq<byte>) {
    && |s| == 24
    && Get32(o, s[0..4]) == (if opts.nanos then 0xA1B23C4D else 0xA1B2C3D4)
    && Get16(o, s[4..6]) == 2 && Get16(o, s[6..8]) == 4
    && Get32(o, s[8..12]) == 0 && Get32(o, s[12..16]) == 0
    && Get32(o, s[16..20]) == opts.snaplen && Get32(o, s[20..24]) == opts.linkType
  }

  predicate HeaderParts(o: Order, magic: u32, snaplen: u32, linkType: u32, s: seq<byte>) {
    && |s| == 24 && s[0..4] == Put32(o, magic) && s[4..6] == Put16(o, 2) && s[6..8] == Put16(o, 4)
    && s[8..12] == Put32(o, 0) && s[12..16] == Put32(o, 0) && s[16..20] == Put32(o, snaplen) && s[20..24] == Put32(o, linkType)
  }

  lemma {:induction false} HeaderHasParts(o: Order, opts: WriterOptions)
    ensures HeaderParts(o, if opts.nanos then 0xA1B23C4D else 0xA1B2C3D4, opts.snaplen, opts.linkType, FileHeader(o, opts))
  {
    hide Put16, Put32;
  }

  lemma {:induction false} FileHeaderIs(o: Order, opts: WriterOptions)
    ensures IsFileHeader(o, opts, FileHeader(o, opts))
  {
    HeaderHasParts(o, opts);
    hide Put16, Put32, Get16, Get32, FileHeader;
    var s := FileHeader(o, opts);
    WordAt(o, s, 0, if opts.nanos then 0xA1B23C4D else 0xA1B2C3D4);
    HalfAt(o, s, 4, 2);
    HalfAt(o, s, 6, 4);
    WordAt(o, s, 8, 0);
    WordAt(o, s, 12, 0);
    WordAt(o, s, 16, opts.snaplen);
    WordAt(o, s, 20, opts.linkType);
  }

  /** Sixteen bytes and the kept data: seconds and fraction, truncated toward zero and cut to 32 bits, then how much is
      kept and how much there was. */
  predicate IsRecord(o: Order, opts: WriterOptions, p: Packet, s: seq<byte>) {
    var kept, nsec := Least(|p.data|, opts.snaplen), p.ts - TruncDiv(p.ts, 1_000_000_000) * 1_000_000_000;
    && |s| == 16 + kept && s[16..] == p.data[..kept]
    && Get32(o, s[0..4]) == TruncDiv(p.ts, 1_000_000_000) % 4294967296
    && Get32(o, s[4..8]) == (if opts.nanos then nsec else TruncDiv(nsec, 1000)) % 4294967296
    && Get32(o, s[8..12]) == kept
    && Get32(o, s[12..16]) == |p.data| % 4294967296
  }

  predicate RecordParts(o: Order, sec: u32, fraction: u32, kept: u32, original: u32, data: seq<byte>, s: seq<byte>) {
    && |s| == 16 + |data| && s[16..] == data && s[0..4] == Put32(o, sec) && s[4..8] == Put32(o, fraction)
    && s[8..12] == Put32(o, kept) && s[12..16] == Put32(o, original)
  }

  lemma {:induction false} RecordHasParts(o: Order, opts: WriterOptions, p: Packet)
    ensures var kept := Least(|p.data|, opts.snaplen);
            RecordParts(o, Seconds(p.ts) % TWO32, Fraction(opts, p), kept, |p.data| % TWO32, p.data[..kept], Record(o, opts, p))
  {
    hide Put32, Seconds, Fraction;
  }

  lemma {:induction false} RecordIs(o: Order, opts: WriterOptions, p: Packet)
    ensures IsRecord(o, opts, p, Record(o, opts, p))
  {
    RecordHasParts(o, opts, p);
    hide Put32, Get32, TruncDiv, Record;
    var s := Record(o, opts, p);
    WordAt(o, s, 0, Seconds(p.ts) % TWO32);
    WordAt(o, s, 4, Fraction(opts, p));
    WordAt(o, s, 8, Least(|p.data|, opts.snaplen));
    WordAt(o, s, 12, |p.data| % TWO32);
  }

  /** A time that seconds can tell is split at the second. */
  lemma {:induction false} RecordTime(o: Order, opts: WriterOptions, p: Packet, s: seq<byte>)
    requires IsRecord(o, opts, p, s) && 0 <= p.ts < 4294967296 * 1_000_000_000
    ensures var sec, fraction := Get32(o, s[0..4]), Get32(o, s[4..8]);
            && (opts.nanos ==> sec * 1_000_000_000 + fraction == p.ts && fraction < 1_000_000_000)
            && (!opts.nanos ==> sec * 1_000_000_000 + fraction * 1000 == p.ts - p.ts % 1000 && fraction < 1_000_000)
  {
    SplitTime(p.ts);
    var sec := TruncDiv(p.ts, 1_000_000_000);
    var nsec := p.ts - sec * 1_000_000_000;
    Below32(sec);
    Below32(nsec);
    Below32(TruncDiv(nsec, 1000));
    hide Get32, TruncDiv;
  }

  lemma {:induction false} Below32(n: int)
    ensures 0 <= n < 4294967296 ==> n % 4294967296 == n
  {
  }

  lemma {:induction false} SplitTime(t: int)
    requires 0 <= t < 4294967296 * 1_000_000_000
    ensures var sec := TruncDiv(t, 1_000_000_000); var nsec := t - sec * 1_000_000_000;
            && 0 <= sec < 4294967296 && 0 <= nsec < 1_000_000_000
            && TruncDiv(nsec, 1000) * 1000 == nsec - t % 1000
            && 0 <= TruncDiv(nsec, 1000) < 1_000_000
  {
    var sec := t / 1_000_000_000;
    var nsec := t - sec * 1_000_000_000;
    assert t == sec * 1_000_000 * 1000 + nsec / 1000 * 1000 + nsec % 1000;
  }

  // ----- what is read -----

  /** A file header in byte order `o`. */
  predicate IsHeader(o: Order, nanos: bool, s: seq<byte>) {
    && |s| >= 24 && Get32(o, s[..4]) == (if nanos then 0xA1B23C4D else 0xA1B2C3D4)
    && Get16(o, s[4..6]) == 2 && Get16(o, s[6..8]) == 4
  }

  lemma {:induction false} Swapped32(host: Order, o: Order, s: seq<byte>)
    requires |s| == 4 && host != o
    ensures Swap32(Get32(host, s)) == Get32(o, s)
  {
    WordBytes(s[0], s[1], s[2], s[3]);
    WordBytes(s[3], s[2], s[1], s[0]);
    hide Word;
  }

  lemma {:induction false} Swapped16(host: Order, o: Order, s: seq<byte>)
    requires |s| == 2 && host != o
    ensures Swap16(Get16(host, s)) == Get16(o, s)
  {
    DivModUnique(Get16(host, s), if host.Little? then s[1] else s[0], if host.Little? then s[0] else s[1]);
  }

  /** The four numbers a host tells files by: its own two and the same two swapped. */
  lemma {:induction false} MagicIs(host: Order, o: Order, nanos: bool, s: seq<byte>)
    requires |s| == 4
    ensures Get32(o, s) == (if nanos then 0xA1B23C4D else 0xA1B2C3D4) <==>
            Get32(host, s) == if host == o then (if nanos then MAGIC_NSEC_NATIVE else MAGIC_NATIVE)
                              else if nanos then MAGIC_NSEC_SWAPPED else MAGIC_SWAPPED
  {
    MagicSwaps();
    hide Get32, Swap32;
    if host != o {
      Swapped32(host, o, s);
      Swapped32(o, host, s);
    }
  }

  lemma {:induction false} MagicSwaps()
    ensures Swap32(0xA1B2C3D4) == MAGIC_SWAPPED && Swap32(0xA1B23C4D) == MAGIC_NSEC_SWAPPED
    ensures Swap32(MAGIC_SWAPPED) == 0xA1B2C3D4 && Swap32(MAGIC_NSEC_SWAPPED) == 0xA1B23C4D
  {
    assert Swap32(0xA1B2C3D4) == 0xD4C3B2A1 && Swap32(0xA1B23C4D) == 0x4D3CB2A1;
    hide Swap32;
    GetPut32(Big, 0xA1B2C3D4);
    GetPut32(Big, 0xA1B23C4D);
  }

  lemma {:induction false} HeaderFits(host: Order, o: Order, nanos: bool, s: seq<byte>)
    requires IsHeader(o, nanos, s)
    ensures ReadHeader(host, s) == Some(Config(host, host != o, nanos, Get32(o, s[16..20]), Get32(o, s[20..24])))
  {
    MagicIs(host, o, nanos, s[..4]);
    if host != o {
      Swapped16(host, o, s[4..6]);
      Swapped16(host, o, s[6..8]);
      Swapped32(host, o, s[16..20]);
      Swapped32(host, o, s[20..24]);
    }
    hide Get16, Get32, Swap16, Swap32;
  }

  /** A host takes exactly the headers that are one in some byte order. */
  lemma {:induction false} HeaderTakenIff(host: Order, s: seq<byte>)
    ensures ReadHeader(host, s).Some? <==> exists o, nanos :: IsHeader(o, nanos, s)
    ensures forall o, nanos :: IsHeader(o, nanos, s) ==>
              ReadHeader(host, s) == Some(Config(host, host != o, nanos, Get32(o, s[16..20]), Get32(o, s[20..24])))
  {
    forall o, nanos | IsHeader(o, nanos, s)
      ensures ReadHeader(host, s) == Some(Config(host, host != o, nanos, Get32(o, s[16..20]), Get32(o, s[20..24])))
    {
      HeaderFits(host, o, nanos, s);
    }
    if ReadHeader(host, s).Some? {
      TakenIsHeader(host, s);
    }
  }

  lemma {:induction false} TakenIsHeader(host: Order, s: seq<byte>)
    requires ReadHeader(host, s).Some?
    ensures var c := ReadHeader(host, s).value; IsHeader(if c.swapped then host.Other() else host, c.nanos, s)
  {
    var c := ReadHeader(host, s).value;
    var o := if c.swapped then host.Other() else host;
    MagicIs(host, o, c.nanos, s[..4]);
    if c.swapped {
      Swapped16(host, o, s[4..6]);
      Swapped16(host, o, s[6..8]);
    }
    hide Get16, Get32, Swap16, Swap32;
  }

  lemma {:induction false} FieldIs(o: Order, c: Config, s: seq<byte>)
    requires |s| == 4 && (c.swapped <==> c.host != o)
    ensures c.Field(s) == Get32(o, s)
  {
    hide Get32, Swap32;
    if c.swapped { Swapped32(c.host, o, s); }
  }

  /** The record at the front of a body in byte order `o` is taken exactly when it is no longer than the snap length and
      15220 bytes, and all there; it is then its data, at the time of its seconds and fraction. */
  lemma {:induction false} RecordTakenIff(host: Order, o: Order, nanos: bool, snaplen: u32, linkType: u32, s: seq<byte>)
    ensures var r := FirstRecord(Config(host, host != o, nanos, snaplen, linkType), s);
            && (r.Some? <==>
                |s| >= 16 && Get32(o, s[8..12]) <= snaplen && Get32(o, s[8..12]) <= 15220 && 16 + Get32(o, s[8..12]) <= |s|)
            && (r.Some? ==>
                  var n, sec, fraction := Get32(o, s[8..12]), Get32(o, s[0..4]), Get32(o, s[4..8]);
                  && r.value.1 == 16 + n && r.value.0.data == s[16..16 + n]
                  && r.value.0.ts == sec * 1_000_000_000 + if nanos then fraction else fraction * 1000)
  {
    var c := Config(host, host != o, nanos, snaplen, linkType);
    hide Get32, c.Field, Stamp;
    if |s| >= 16 {
      FieldIs(o, c, s[0..4]);
      FieldIs(o, c, s[4..8]);
      FieldIs(o, c, s[8..12]);
      StampIs(nanos, Get32(o, s[0..4]), Get32(o, s[4..8]));
    }
  }

  lemma {:induction false} StampIs(nanos: bool, sec: u32, fraction: u32)
    ensures Stamp(nanos, sec, fraction) == sec * 1_000_000_000 + if nanos then fraction else fraction * 1000
  {
  }

  /** The packets a reader refuses among those written are the ones of which more than 15220 bytes were kept. */
  lemma {:induction false} RefusedIff(opts: WriterOptions, p: Packet)
    ensures !PcapRoundTrip.WithinReaderLimit(opts, p) <==> Least(|p.data|, opts.snaplen) > 15220
  {
  }

  /** A packet as it is read back, within the times that seconds can tell. */
  lemma {:induction false} KeptIs(opts: WriterOptions, p: Packet)
    requires 0 <= p.ts < 4294967296 * 1_000_000_000
    ensures PcapRoundTrip.Kept(opts, p) ==
            Packet(p.data[..Least(|p.data|, opts.snaplen)], if opts.nanos then p.ts else p.ts - p.ts % 1000)
  {
    PcapRoundTrip.TimeSurvives(opts, p);
  }
}
