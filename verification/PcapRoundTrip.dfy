/** Reading back what the pcap writer wrote, on any host, whole or cut short. */
module PcapRoundTrip {
  import opened Bytes
  import opened Packets
  import opened PcapFile

  /** What a host of byte order `host` reads from a file: its packets, or nothing for a bad header. */
  function ReadFile(host: Order, mem: seq<byte>): Option<seq<Packet>> {
    match ReadHeader(host, mem)
    case None => None
    case Some(c) => Some(Records(c, mem[FILE_HEADER..]))
  }

  /** A packet as the file keeps it: cut to the snap length, its time at the chosen resolution. */
  function Kept(opts: WriterOptions, p: Packet): Packet {
    Packet(p.data[..CapturedLen(opts, p)], Stamp(opts.nanos, Seconds(p.ts) % TWO32, Fraction(opts, p)))
  }

  function KeptAll(opts: WriterOptions, ps: seq<Packet>): seq<Packet> {
    if ps == [] then [] else [Kept(opts, ps[0])] + KeptAll(opts, ps[1..])
  }

  predicate WithinReaderLimit(opts: WriterOptions, p: Packet) {
    CapturedLen(opts, p) <= MAX_FRAME_SIZE * 10
  }

  /** The packets before the first one that the reader refuses. */
  function Readable(opts: WriterOptions, ps: seq<Packet>): (r: seq<Packet>)
    ensures r <= ps
    ensures r == ps <==> forall i :: 0 <= i < |ps| ==> WithinReaderLimit(opts, ps[i])
  {
    if ps == [] || !WithinReaderLimit(opts, ps[0]) then []
    else
      var t := Readable(opts, ps[1..]);
      assert ps == [ps[0]] + ps[1..];
      assert forall i :: 0 <= i < |ps[1..]| ==> ps[1..][i] == ps[i + 1];
      assert (forall i :: 0 <= i < |ps| ==> WithinReaderLimit(opts, ps[i])) <==>
             (forall i :: 0 <= i < |ps[1..]| ==> WithinReaderLimit(opts, ps[1..][i])) by {
        if forall i :: 0 <= i < |ps[1..]| ==> WithinReaderLimit(opts, ps[1..][i]) {
          forall i | 0 <= i < |ps| ensures WithinReaderLimit(opts, ps[i]) {
            if i > 0 { assert ps[i] == ps[1..][i - 1]; }
          }
        }
      }
      [ps[0]] + t
  }

  /** The packets whose records lie wholly in the first `m` bytes of the body. */
  function Fitting(opts: WriterOptions, ps: seq<Packet>, m: nat): seq<Packet> {
    if ps == [] || PACKET_HEADER + CapturedLen(opts, ps[0]) > m then []
    else [ps[0]] + Fitting(opts, ps[1..], m - PACKET_HEADER - CapturedLen(opts, ps[0]))
  }

  /** The configuration with which `host` reads a file written on a host of order `w`. */
  function ConfigFor(host: Order, w: Order, opts: WriterOptions): Config {
    Config(host, host != w, opts.nanos, opts.snaplen, opts.linkType)
  }

  lemma {:induction false} FieldReads(host: Order, w: Order, opts: WriterOptions, v: u32)
    ensures ConfigFor(host, w, opts).Field(Put32(w, v)) == v
  {
    GetPut32(w, v);
  }

  lemma {:induction false} FileHeaderFields(w: Order, opts: WriterOptions, s: seq<byte>)
    requires FileHeader(w, opts) <= s
    ensures s[..4] == Put32(w, if opts.nanos then MAGIC_NSEC_NATIVE else MAGIC_NATIVE)
    ensures s[4..6] == Put16(w, 2) && s[6..8] == Put16(w, 4)
    ensures s[16..20] == Put32(w, opts.snaplen) && s[20..24] == Put32(w, opts.linkType)
  {
    hide Put32, Put16;
  }

  /** A host recognises its own magic and the swapped one. */
  lemma {:induction false} MagicReads(host: Order, w: Order, nanos: bool)
    ensures Get32(host, Put32(w, if nanos then MAGIC_NSEC_NATIVE else MAGIC_NATIVE)) ==
            if host == w then (if nanos then MAGIC_NSEC_NATIVE else MAGIC_NATIVE)
            else (if nanos then MAGIC_NSEC_SWAPPED else MAGIC_SWAPPED)
  {
    assert Swap32(MAGIC_NATIVE) == MAGIC_SWAPPED && Swap32(MAGIC_NSEC_NATIVE) == MAGIC_NSEC_SWAPPED;
    hide Put32, Get32, Swap32;
    GetPut32(w, if nanos then MAGIC_NSEC_NATIVE else MAGIC_NATIVE);
  }

  /** All four magic variants: the header is read back on either kind of host. */
  lemma {:induction false} HeaderReads(host: Order, w: Order, opts: WriterOptions, body: seq<byte>)
    ensures ReadHeader(host, FileHeader(w, opts) + body) == Some(ConfigFor(host, w, opts))
  {
    var mem := FileHeader(w, opts) + body;
    FileHeaderFields(w, opts, mem);
    hide Put32, Put16, Get32, Get16, FileHeader, Swap32, Swap16, ConfigFor;
    MagicReads(host, w, opts.nanos);
    GetPut16(w, 2);
    GetPut16(w, 4);
    FieldReads(host, w, opts, opts.snaplen);
    FieldReads(host, w, opts, opts.linkType);
  }

  /** One written record in front of anything. */
  lemma {:induction false} RecordReads(host: Order, w: Order, opts: WriterOptions, p: Packet, rest: seq<byte>)
    ensures FirstRecord(ConfigFor(host, w, opts), Record(w, opts, p) + rest) ==
            if WithinReaderLimit(opts, p) then Some((Kept(opts, p), |Record(w, opts, p)|)) else None
  {
    hide Put32, Get32;
    var s := Record(w, opts, p) + rest;
    HeaderFields(w, opts, p, s);
    FieldReads(host, w, opts, Seconds(p.ts) % TWO32);
    FieldReads(host, w, opts, Fraction(opts, p));
    FieldReads(host, w, opts, CapturedLen(opts, p));
    assert s[PACKET_HEADER..PACKET_HEADER + CapturedLen(opts, p)] == p.data[..CapturedLen(opts, p)];
  }

  lemma {:induction false} HeaderFields(w: Order, opts: WriterOptions, p: Packet, s: seq<byte>)
    requires PacketHeader(w, opts, p) <= s
    ensures s[..4] == Put32(w, Seconds(p.ts) % TWO32)
    ensures s[4..8] == Put32(w, Fraction(opts, p))
    ensures s[8..12] == Put32(w, CapturedLen(opts, p))
  {
    hide Put32;
  }

  /** A record that is cut short is not read. */
  lemma {:induction false} CutRecordIsNotRead(host: Order, w: Order, opts: WriterOptions, p: Packet, m: nat)
    requires m < |Record(w, opts, p)|
    ensures FirstRecord(ConfigFor(host, w, opts), Record(w, opts, p)[..m]) == None
  {
    if m >= PACKET_HEADER {
      hide Put32, Get32;
      HeaderFields(w, opts, p, Record(w, opts, p)[..m]);
      FieldReads(host, w, opts, CapturedLen(opts, p));
    }
  }

  /** The body, cut after any number of bytes, gives back exactly the packets whose records are whole, up
      to the first one over the reader's limit. */
  lemma {:induction false} BodyReads(host: Order, w: Order, opts: WriterOptions, ps: seq<Packet>, m: nat)
    requires m <= |Body(w, opts, ps)|
    ensures Records(ConfigFor(host, w, opts), Body(w, opts, ps)[..m]) == KeptAll(opts, Readable(opts, Fitting(opts, ps, m)))
    decreases |ps|
  {
    hide Record, FirstRecord, Kept, ConfigFor, KeptAll, Readable;
    var c, s := ConfigFor(host, w, opts), Body(w, opts, ps)[..m];
    if ps == [] {
      assert s == [];
      ShortBodyIsEmpty(c, s);
      NothingKept(opts);
    } else {
      var r := Record(w, opts, ps[0]);
      if |r| > m {
        assert s == r[..m];
        CutRecordIsNotRead(host, w, opts, ps[0], m);
        NothingKept(opts);
      } else {
        var tail := Body(w, opts, ps[1..])[..m - |r|];
        assert s == r + tail;
        RecordReads(host, w, opts, ps[0], tail);
        BodyReads(host, w, opts, ps[1..], m - |r|);
        assert s[|r|..] == tail;
        KeptCons(opts, ps[0], Fitting(opts, ps[1..], m - |r|));
      }
    }
  }

  lemma {:induction false} NothingKept(opts: WriterOptions)
    ensures KeptAll(opts, Readable(opts, [])) == []
  {
  }

  lemma {:induction false} KeptCons(opts: WriterOptions, p: Packet, t: seq<Packet>)
    ensures KeptAll(opts, Readable(opts, [p] + t)) ==
            if WithinReaderLimit(opts, p) then [Kept(opts, p)] + KeptAll(opts, Readable(opts, t)) else []
  {
    hide Kept, CapturedLen;
    assert ([p] + t)[1..] == t;
    var r := Readable(opts, t);
    assert ([p] + r)[1..] == r;
  }

  lemma {:induction false} ShortBodyIsEmpty(c: Config, s: seq<byte>)
    requires |s| < PACKET_HEADER
    ensures FirstRecord(c, s) == None
  {
  }

  lemma {:induction false} EverythingFits(w: Order, opts: WriterOptions, ps: seq<Packet>)
    ensures Fitting(opts, ps, |Body(w, opts, ps)|) == ps
  {
    if ps != [] {
      EverythingFits(w, opts, ps[1..]);
    }
  }

  /** The round trip, for a writer on any host and a reader on any host: the packets come back in order as
      the file keeps them, up to the first over the reader's limit; all of them exactly when none is over it. */
  lemma {:induction false} RoundTrip(host: Order, w: Order, opts: WriterOptions, ps: seq<Packet>)
    ensures ReadFile(host, FileOf(w, opts, ps)) == Some(KeptAll(opts, Readable(opts, ps)))
    ensures ReadFile(host, FileOf(w, opts, ps)) == Some(KeptAll(opts, ps)) <==>
            forall i :: 0 <= i < |ps| ==> WithinReaderLimit(opts, ps[i])
  {
    hide FileHeader, ReadHeader, Body, Records, Fitting, KeptAll;
    var b := Body(w, opts, ps);
    HeaderReads(host, w, opts, b);
    BodyReads(host, w, opts, ps, |b|);
    EverythingFits(w, opts, ps);
    assert b[..|b|] == b;
    assert FileOf(w, opts, ps)[FILE_HEADER..] == b;
    KeptLength(opts, ps);
    KeptLength(opts, Readable(opts, ps));
  }

  lemma {:induction false} KeptLength(opts: WriterOptions, ps: seq<Packet>)
    ensures |KeptAll(opts, ps)| == |ps|
  {
    hide Kept;
    if ps != [] { KeptLength(opts, ps[1..]); }
  }

  /** A written file cut anywhere after its header gives back exactly the packets written before the cut. */
  lemma {:induction false} CutFile(host: Order, w: Order, opts: WriterOptions, ps: seq<Packet>, m: nat)
    requires FILE_HEADER <= m <= |FileOf(w, opts, ps)|
    ensures ReadFile(host, FileOf(w, opts, ps)[..m]) == Some(KeptAll(opts, Readable(opts, Fitting(opts, ps, m - FILE_HEADER))))
  {
    hide FileHeader, ReadHeader, Body, Records, Fitting, Readable, KeptAll;
    var b := Body(w, opts, ps);
    var f := FileOf(w, opts, ps)[..m];
    assert f == FileHeader(w, opts) + b[..m - FILE_HEADER];
    HeaderReads(host, w, opts, b[..m - FILE_HEADER]);
    BodyReads(host, w, opts, ps, m - FILE_HEADER);
    assert f[FILE_HEADER..] == b[..m - FILE_HEADER];
  }

  /** Any file at all, cut anywhere: the packets read are a prefix of those read from the whole. */
  lemma {:induction false} CutBodyReadsPrefix(c: Config, s: seq<byte>, m: nat)
    requires m <= |s|
    ensures Records(c, s[..m]) <= Records(c, s)
    decreases |s|
  {
    CutRecordAgrees(c, s, m);
    match FirstRecord(c, s[..m])
    case None =>
    case Some((p, n)) =>
      assert s[..m][n..] == s[n..][..m - n];
      CutBodyReadsPrefix(c, s[n..], m - n);
  }

  lemma {:induction false} CutRecordAgrees(c: Config, s: seq<byte>, m: nat)
    requires m <= |s|
    ensures FirstRecord(c, s[..m]).Some? ==> FirstRecord(c, s) == FirstRecord(c, s[..m])
  {
    if m >= PACKET_HEADER {
      var t := s[..m];
      assert t[..4] == s[..4] && t[4..8] == s[4..8] && t[8..12] == s[8..12];
      var incl := c.Field(s[8..12]);
      if PACKET_HEADER + incl <= m {
        assert t[PACKET_HEADER..PACKET_HEADER + incl] == s[PACKET_HEADER..PACKET_HEADER + incl];
      }
    }
  }

  lemma {:induction false} CutHeaderAgrees(host: Order, mem: seq<byte>, m: nat)
    requires FILE_HEADER <= m <= |mem|
    ensures ReadHeader(host, mem[..m]) == ReadHeader(host, mem)
  {
    hide Get16, Get32, Swap16, Swap32;
    var t := mem[..m];
    assert t[..4] == mem[..4] && t[4..6] == mem[4..6] && t[6..8] == mem[6..8];
    assert t[16..20] == mem[16..20] && t[20..24] == mem[20..24];
  }

  lemma {:induction false} AnyCutFileReadsPrefix(host: Order, mem: seq<byte>, m: nat)
    requires FILE_HEADER <= m <= |mem| && ReadFile(host, mem).Some?
    ensures ReadFile(host, mem[..m]).Some?
    ensures ReadFile(host, mem[..m]).value <= ReadFile(host, mem).value
  {
    hide ReadHeader, Records;
    CutHeaderAgrees(host, mem, m);
    var t := mem[..m];
    assert t[FILE_HEADER..] == mem[FILE_HEADER..][..m - FILE_HEADER];
    CutBodyReadsPrefix(ReadHeader(host, mem).value, mem[FILE_HEADER..], m - FILE_HEADER);
  }

  /** The time that is read back is the time written, at the file's resolution, exactly when the time
      written lies between the epoch and 2^32 seconds after it. */
  lemma {:induction false} TimeSurvives(opts: WriterOptions, p: Packet)
    ensures Kept(opts, p).ts == (if opts.nanos then p.ts else p.ts - p.ts % 1000) <==>
            0 <= p.ts < TWO32 * NANOS
  {
    var sec, ns := Seconds(p.ts), Nanoseconds(p.ts);
    if 0 <= p.ts {
      assert 0 <= ns < NANOS && p.ts == sec * NANOS + ns;
      assert p.ts % 1000 == ns % 1000;
      if p.ts < TWO32 * NANOS {
        assert sec % TWO32 == sec;
      } else {
        assert sec >= TWO32;
      }
    }
  }
}
