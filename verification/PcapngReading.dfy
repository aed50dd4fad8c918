/** A reader for pcapng files, written from the format alone, and what it makes of the writer's files. */
module PcapngReading {
  import opened Bytes
  import opened Pcapng

  // ----- following the block lengths -----

  /** The length of the block at the front: at least 12, a multiple of four, inside the file, and repeated
      at the end of the block. */
  function FrontLength(o: Order, s: seq<byte>): (r: Option<nat>)
    ensures r.Some? ==> 12 <= r.value <= |s|
  {
    if |s| < 12 then None
    else
      var len := Get32(o, s[4..8]);
      if len < 12 || len % 4 != 0 || len > |s| || Get32(o, s[len - 4..len]) != len then None else Some(len)
  }

  function Split(o: Order, s: seq<byte>): Option<seq<seq<byte>>>
    decreases |s|
  {
    if s == [] then Some([])
    else
      match FrontLength(o, s)
      case None => None
      case Some(n) =>
        match Split(o, s[n..])
        case None => None
        case Some(rest) => Some([s[..n]] + rest)
  }

  ghost predicate Small(bs: seq<Block>) {
    forall i :: 0 <= i < |bs| ==> Size(bs[i]) < TWO32
  }

  function EncodeEach(o: Order, bs: seq<Block>): seq<seq<byte>> {
    if bs == [] then [] else [Encode(o, bs[0])] + EncodeEach(o, bs[1..])
  }

  lemma {:induction false} EncodeFront(o: Order, bs: seq<Block>)
    requires bs != []
    ensures EncodeAll(o, bs) == Encode(o, bs[0]) + EncodeAll(o, bs[1..])
  {
    hide Encode;
    var init, last := bs[..|bs| - 1], bs[|bs| - 1];
    if |bs| == 1 {
      assert init == [] && bs[1..] == [];
    } else {
      EncodeFront(o, init);
      assert init[1..] == bs[1..][..|bs| - 2];
      Assoc(Encode(o, bs[0]), EncodeAll(o, init[1..]), Encode(o, last));
    }
  }

  /** Both length fields of an emitted block. */
  lemma {:induction false} LengthFields(o: Order, b: Block)
    ensures |Encode(o, b)| == Size(b) >= 24
    ensures var e := Encode(o, b);
            e[4..8] == Put32(o, Size(b) % TWO32) && e[|e| - 4..] == Put32(o, Size(b) % TWO32)
  {
    SizeIsLength(o, b);
    HeadLength(o, Size(b) % TWO32, b);
    hide Put32, Head, Data, OptionsBytes, Size;
    var len := Size(b) % TWO32;
    var e := Encode(o, b);
    assert e[4..8] == Head(o, len, b)[4..8];
  }

  lemma {:induction false} HeadLength(o: Order, len: u32, b: Block)
    ensures |Head(o, len, b)| >= 16 && Head(o, len, b)[4..8] == Put32(o, len)
  {
    hide Put16, Put32, Put64;
  }

  /** The leading length is the number of bytes emitted exactly when that number fits in 32 bits; the
      trailing length always repeats the leading one. */
  lemma {:induction false} LeadingLengthIsExact(o: Order, b: Block)
    ensures |Encode(o, b)| >= 24
    ensures var e := Encode(o, b);
            && (Get32(o, e[4..8]) == |e| <==> Size(b) < TWO32)
            && e[4..8] == e[|e| - 4..]
  {
    hide Encode, Size, Put32, Get32;
    LengthFields(o, b);
    Read32(o, Size(b) % TWO32, Encode(o, b)[4..8]);
  }

  lemma {:induction false} BlockAtFront(o: Order, b: Block, rest: seq<byte>)
    requires Size(b) < TWO32
    ensures FrontLength(o, Encode(o, b) + rest) == Some(|Encode(o, b)|)
  {
    hide Encode, Size, Put32, Get32;
    LengthFields(o, b);
    SizeIsLength(o, b);
    var e := Encode(o, b);
    var s, n := e + rest, |e|;
    assert s[4..8] == e[4..8] && s[n - 4..n] == e[n - 4..];
    Read32(o, Size(b), s[4..8]);
  }

  /** The file of every run of the writer splits into its blocks and ends exactly at its end. */
  lemma {:induction false} FileSplits(o: Order, bs: seq<Block>)
    requires Small(bs)
    ensures Split(o, EncodeAll(o, bs)) == Some(EncodeEach(o, bs))
    decreases |bs|
  {
    hide Encode, Size, FrontLength;
    if bs != [] {
      var e, rest := Encode(o, bs[0]), EncodeAll(o, bs[1..]);
      EncodeFront(o, bs);
      BlockAtFront(o, bs[0], rest);
      LengthFields(o, bs[0]);
      assert forall i :: 0 <= i < |bs[1..]| ==> bs[1..][i] == bs[i + 1];
      FileSplits(o, bs[1..]);
      assert (e + rest)[|e|..] == rest && (e + rest)[..|e|] == e;
    }
  }

  /** The byte counter of the writer is the length of the file. */
  lemma {:induction false} CounterIsFileLength(o: Order, bs: seq<Block>)
    requires Small(bs)
    ensures CountedBytes(bs) == |EncodeAll(o, bs)|
  {
    hide Encode, Size;
    if bs != [] {
      CounterIsFileLength(o, bs[..|bs| - 1]);
      SizeIsLength(o, bs[|bs| - 1]);
    }
  }

  // ----- decoding the blocks -----

  function ParseOptions(o: Order, s: seq<byte>): Option<seq<Opt>>
    decreases |s|
  {
    if |s| < 4 then None
    else
      var code, n := Get16(o, s[..2]), Get16(o, s[2..4]);
      if code == 0 then if n == 0 && |s| == 4 then Some([]) else None
      else if 4 + n + Padding(n) > |s| then None
      else
        match ParseOptions(o, s[4 + n + Padding(n)..])
        case None => None
        case Some(rest) => Some([Opt(code, s[4..4 + n])] + rest)
  }

  function Decode(o: Order, s: seq<byte>): Option<Block>
    requires |s| >= 12
  {
    var kind, end := Get32(o, s[..4]), |s| - 4;
    if kind == SECTION_HEADER && end >= 24 && Get32(o, s[8..12]) == BYTE_ORDER_MAGIC then
      match ParseOptions(o, s[24..end])
      case None => None
      case Some(opts) => Some(Section(opts))
    else if kind == INTERFACE_DESCRIPTION && end >= 16 then
      match ParseOptions(o, s[16..end])
      case None => None
      case Some(opts) => Some(Interface(Get16(o, s[8..10]), Get32(o, s[12..16]), opts))
    else if kind == INTERFACE_STATISTICS && end >= 20 then
      match ParseOptions(o, s[20..end])
      case None => None
      case Some(opts) => Some(Statistics(Get32(o, s[8..12]), Get32(o, s[12..16]) * TWO32 + Get32(o, s[16..20]), opts))
    else if kind == ENHANCED_PACKET && end >= 28 then
      var n := Get32(o, s[20..24]);
      if 28 + n + Padding(n) > end then None
      else
        match ParseOptions(o, s[28 + n + Padding(n)..end])
        case None => None
        case Some(opts) =>
          Some(Enhanced(Get32(o, s[8..12]), Get32(o, s[12..16]) * TWO32 + Get32(o, s[16..20]),
                        s[28..28 + n], Get32(o, s[24..28]), opts))
    else None
  }

  /** Options a reader can tell apart: a code other than the end mark, a length that fits its field. */
  ghost predicate ReadableOptions(opts: seq<Opt>) {
    forall i :: 0 <= i < |opts| ==> opts[i].code != 0 && |opts[i].value| < 0x1_0000
  }

  lemma {:induction false} OptionsFront(o: Order, opts: seq<Opt>)
    requires opts != []
    ensures OptionList(o, opts) == OptionBytes(o, opts[0]) + OptionList(o, opts[1..])
  {
    hide OptionBytes;
    var init, last := opts[..|opts| - 1], opts[|opts| - 1];
    if |opts| == 1 {
      assert init == [] && opts[1..] == [];
    } else {
      OptionsFront(o, init);
      assert init[1..] == opts[1..][..|opts| - 2];
      Assoc(OptionBytes(o, opts[0]), OptionList(o, init[1..]), OptionBytes(o, last));
    }
  }

  lemma {:induction false} OptionAtFront(o: Order, opt: Opt, rest: seq<byte>)
    requires opt.code != 0 && |opt.value| < 0x1_0000
    ensures var s, n := OptionBytes(o, opt) + rest, |opt.value|;
            && |s| >= 4 + n + Padding(n)
            && Get16(o, s[..2]) == opt.code && Get16(o, s[2..4]) == n
            && s[4..4 + n] == opt.value && s[4 + n + Padding(n)..] == rest
  {
    hide Put16, Get16, Zeros, Padding;
    var s, n := OptionBytes(o, opt) + rest, |opt.value|;
    assert s[..2] == Put16(o, opt.code) && s[2..4] == Put16(o, n);
    Read16(o, opt.code, s[..2]);
    Read16(o, n, s[2..4]);
  }

  lemma {:induction false} OptionsReadBack(o: Order, opts: seq<Opt>)
    requires ReadableOptions(opts)
    ensures ParseOptions(o, OptionsBytes(o, opts)) == Some(opts)
    decreases |opts|
  {
    hide Put16, Get16, OptionBytes, Padding;
    var z := Put16(o, 0);
    if opts == [] {
      var s := OptionsBytes(o, opts);
      assert s[..2] == z && s[2..4] == z;
      Read16(o, 0, z);
    } else {
      OptionsFront(o, opts);
      var front, rest := OptionBytes(o, opts[0]), OptionsBytes(o, opts[1..]);
      assert OptionsBytes(o, opts) == front + rest by {
        Assoc(front, OptionList(o, opts[1..]), z);
        Assoc(front, OptionList(o, opts[1..]) + z, z);
      }
      OptionAtFront(o, opts[0], rest);
      assert forall i :: 0 <= i < |opts[1..]| ==> opts[1..][i] == opts[i + 1];
      OptionsReadBack(o, opts[1..]);
      assert [Opt(opts[0].code, opts[0].value)] + opts[1..] == opts;
    }
  }

  lemma {:induction false} SectionReads(o: Order, b: Block, len: u32, s: seq<byte>)
    requires b.Section? && Head(o, len, b) <= s
    ensures Get32(o, s[..4]) == 0x0A0D0D0A && Get32(o, s[8..12]) == 0x1A2B3C4D
    ensures Get16(o, s[12..14]) == 1 && Get16(o, s[14..16]) == 0
    ensures s[16..24] == [255, 255, 255, 255, 255, 255, 255, 255]
  {
    UnspecifiedBytes(o);
    hide Put16, Put32, Put64, Get16, Get32;
    Read32(o, SECTION_HEADER, s[..4]);
    Read32(o, BYTE_ORDER_MAGIC, s[8..12]);
    Read16(o, 1, s[12..14]);
    Read16(o, 0, s[14..16]);
    assert s[16..24] == Put64(o, UNSPECIFIED_LENGTH);
  }

  lemma {:induction false} UnspecifiedBytes(o: Order)
    ensures Put64(o, UNSPECIFIED_LENGTH) == [255, 255, 255, 255, 255, 255, 255, 255]
  {
  }

  lemma {:induction false} InterfaceReads(o: Order, b: Block, len: u32, s: seq<byte>)
    requires b.Interface? && Head(o, len, b) <= s
    ensures Get32(o, s[..4]) == 1
    ensures Get16(o, s[8..10]) == b.linkType && Get16(o, s[10..12]) == 0 && Get32(o, s[12..16]) == b.snapLen
  {
    hide Put16, Put32, Get16, Get32;
    Read32(o, INTERFACE_DESCRIPTION, s[..4]);
    Read16(o, b.linkType, s[8..10]);
    Read16(o, 0, s[10..12]);
    Read32(o, b.snapLen, s[12..16]);
  }

  lemma {:induction false} StatisticsReads(o: Order, b: Block, len: u32, s: seq<byte>)
    requires b.Statistics? && Head(o, len, b) <= s
    ensures Get32(o, s[..4]) == 5 && Get32(o, s[8..12]) == b.id
    ensures Get32(o, s[12..16]) * TWO32 + Get32(o, s[16..20]) == b.ts
  {
    hide Put32, Get32;
    Read32(o, INTERFACE_STATISTICS, s[..4]);
    Read32(o, b.id, s[8..12]);
    Read32(o, b.ts / TWO32, s[12..16]);
    Read32(o, b.ts % TWO32, s[16..20]);
  }

  lemma {:induction false} EnhancedReads(o: Order, b: Block, len: u32, s: seq<byte>)
    requires b.Enhanced? && Head(o, len, b) <= s && |b.data| < TWO32
    ensures Get32(o, s[..4]) == 6 && Get32(o, s[8..12]) == b.id
    ensures Get32(o, s[12..16]) * TWO32 + Get32(o, s[16..20]) == b.ts
    ensures Get32(o, s[20..24]) == |b.data| && Get32(o, s[24..28]) == b.originalLen
  {
    hide Put32, Get32;
    Read32(o, ENHANCED_PACKET, s[..4]);
    Read32(o, b.id, s[8..12]);
    Read32(o, b.ts / TWO32, s[12..16]);
    Read32(o, b.ts % TWO32, s[16..20]);
    Read32(o, |b.data|, s[20..24]);
    Read32(o, b.originalLen, s[24..28]);
  }

  /** Padding is zero bytes, and after the options come four of them. */
  lemma {:induction false} FillIsZero(o: Order, opts: seq<Opt>, s: seq<byte>)
    ensures Padded(s)[..|s|] == s && |Padded(s)| < |s| + 4
    ensures forall i :: |s| <= i < |Padded(s)| ==> Padded(s)[i] == 0
    ensures OptionsBytes(o, opts) == OptionList(o, opts) + [0, 0, 0, 0]
  {
    assert Put16(o, 0) == [0, 0];
    hide Put16, OptionList;
  }

  /** Where the data and the options of an emitted block lie. */
  lemma {:induction false} PartsOfBlock(o: Order, b: Block)
    ensures |Encode(o, b)| == Size(b) && Head(o, Size(b) % TWO32, b) <= Encode(o, b)
    ensures var e, h, d := Encode(o, b), HeadSize(b), DataSize(b);
            && h + d <= |e| - 4
            && e[h + d..|e| - 4] == OptionsBytes(o, b.opts)
            && (b.Enhanced? ==> e[h..h + |b.data|] == b.data)
  {
    SizeIsLength(o, b);
    var h, d := Head(o, Size(b) % TWO32, b), Data(b);
    var opts, end := OptionsBytes(o, b.opts), Put32(o, Size(b) % TWO32);
    Pieces(h, d, opts, end);
    assert b.Enhanced? ==> d == b.data + Zeros(Padding(|b.data|));
    hide Put32, Head, Data, OptionsBytes, OptionsSize, Padding, Zeros;
    var e := Encode(o, b);
    assert e == h + d + opts + end;
    if b.Enhanced? {
      assert e[|h|..|h| + |b.data|] == e[|h|..|h| + |d|][..|b.data|];
    }
  }

  lemma {:induction false} Pieces(a: seq<byte>, b: seq<byte>, c: seq<byte>, d: seq<byte>)
    ensures var e := a + b + c + d;
            a <= e && e[|a|..|a| + |b|] == b && e[|a| + |b|..|e| - |d|] == c && |a| + |b| <= |e| - |d|
  {
  }

  /** Every block the writer emits decodes to what was written. */
  lemma {:induction false} BlockReadsBack(o: Order, b: Block)
    requires Size(b) < TWO32 && ReadableOptions(b.opts)
    ensures |Encode(o, b)| >= 24 && Decode(o, Encode(o, b)) == Some(b)
  {
    hide Encode, Get16, Get32, ParseOptions, OptionsBytes, Head, OptionsSize, Padding;
    SizeIsLength(o, b);
    PartsOfBlock(o, b);
    OptionsReadBack(o, b.opts);
    var e := Encode(o, b);
    match b
    case Section(_) => SectionReads(o, b, Size(b), e);
    case Interface(_, _, _) => InterfaceReads(o, b, Size(b), e);
    case Statistics(_, _, _) => StatisticsReads(o, b, Size(b), e);
    case Enhanced(_, _, _, _, _) => EnhancedReads(o, b, Size(b), e);
  }

  function DecodeEach(o: Order, ss: seq<seq<byte>>): Option<seq<Block>> {
    if ss == [] then Some([])
    else if |ss[0]| < 12 then None
    else
      var first, rest := Decode(o, ss[0]), DecodeEach(o, ss[1..]);
      if first.Some? && rest.Some? then Some([first.value] + rest.value) else None
  }

  function ReadFile(o: Order, s: seq<byte>): Option<seq<Block>> {
    match Split(o, s)
    case None => None
    case Some(ss) => DecodeEach(o, ss)
  }

  lemma {:induction false} BlocksReadBack(o: Order, bs: seq<Block>)
    requires Small(bs) && forall i :: 0 <= i < |bs| ==> ReadableOptions(bs[i].opts)
    ensures DecodeEach(o, EncodeEach(o, bs)) == Some(bs)
    decreases |bs|
  {
    hide Encode, Decode, Size;
    if bs != [] {
      BlockReadsBack(o, bs[0]);
      assert forall i :: 0 <= i < |bs[1..]| ==> bs[1..][i] == bs[i + 1];
      BlocksReadBack(o, bs[1..]);
      assert EncodeEach(o, bs)[0] == Encode(o, bs[0]) && EncodeEach(o, bs)[1..] == EncodeEach(o, bs[1..]);
      assert [bs[0]] + bs[1..] == bs;
    }
  }

  /** A whole file reads back as the blocks that were written. */
  lemma {:induction false} FileReadsBack(o: Order, bs: seq<Block>)
    requires Small(bs) && forall i :: 0 <= i < |bs| ==> ReadableOptions(bs[i].opts)
    ensures ReadFile(o, EncodeAll(o, bs)) == Some(bs)
  {
    FileSplits(o, bs);
    BlocksReadBack(o, bs);
  }

  // ----- what can be read back at all -----

  ghost predicate AllReadable(bs: seq<Block>) {
    forall i :: 0 <= i < |bs| ==> ReadableOptions(bs[i].opts)
  }

  lemma {:induction false} OptionsSizeFront(opt: Opt, rest: seq<Opt>)
    ensures OptionsSize([opt] + rest) == 4 + |opt.value| + Padding(|opt.value|) + OptionsSize(rest)
    decreases |rest|
  {
    hide Padding;
    var all := [opt] + rest;
    if rest == [] {
      assert all[..0] == [] && all == [opt];
    } else {
      assert all[..|all| - 1] == [opt] + rest[..|rest| - 1];
      OptionsSizeFront(opt, rest[..|rest| - 1]);
    }
  }

  /** Parsed options can be told apart, and are as long as they were. */
  lemma {:induction false} ParsedOptions(o: Order, s: seq<byte>)
    requires ParseOptions(o, s).Some?
    ensures ReadableOptions(ParseOptions(o, s).value) && OptionsSize(ParseOptions(o, s).value) == |s|
    decreases |s|
  {
    hide Get16, Padding;
    var code, n := Get16(o, s[..2]), Get16(o, s[2..4]);
    if code != 0 {
      var tail := s[4 + n + Padding(n)..];
      var rest := ParseOptions(o, tail).value;
      ParsedOptions(o, tail);
      OptionsSizeFront(Opt(code, s[4..4 + n]), rest);
      hide OptionsSize, ParseOptions;
    }
  }

  /** So is a decoded block. */
  lemma {:induction false} DecodedBlock(o: Order, s: seq<byte>)
    requires |s| >= 12 && Decode(o, s).Some?
    ensures var b := Decode(o, s).value; Size(b) == |s| && ReadableOptions(b.opts)
  {
    hide Get16, Get32, ParseOptions, OptionsSize, Padding, ReadableOptions;
    var kind, end := Get32(o, s[..4]), |s| - 4;
    if kind == SECTION_HEADER && end >= 24 && Get32(o, s[8..12]) == BYTE_ORDER_MAGIC {
      ParsedOptions(o, s[24..end]);
    } else if kind == INTERFACE_DESCRIPTION && end >= 16 {
      ParsedOptions(o, s[16..end]);
    } else if kind == INTERFACE_STATISTICS && end >= 20 {
      ParsedOptions(o, s[20..end]);
    } else {
      var n := Get32(o, s[20..24]);
      ParsedOptions(o, s[28 + n + Padding(n)..end]);
    }
  }

  lemma {:induction false} DecodedBlocks(o: Order, ss: seq<seq<byte>>)
    requires DecodeEach(o, ss).Some? && forall i :: 0 <= i < |ss| ==> |ss[i]| < TWO32
    ensures Small(DecodeEach(o, ss).value) && AllReadable(DecodeEach(o, ss).value)
    decreases |ss|
  {
    hide Decode, ReadableOptions, Size;
    if ss != [] {
      assert forall i :: 0 <= i < |ss[1..]| ==> ss[1..][i] == ss[i + 1];
      DecodedBlock(o, ss[0]);
      DecodedBlocks(o, ss[1..]);
    }
  }

  /** Blocks cut out by their lengths are below 2^32 bytes. */
  lemma {:induction false} SplitBlocksAreSmall(o: Order, s: seq<byte>)
    requires Split(o, s).Some?
    ensures forall i :: 0 <= i < |Split(o, s).value| ==> |Split(o, s).value[i]| < TWO32
    decreases |s|
  {
    hide Get32;
    if s != [] {
      var n := FrontLength(o, s).value;
      assert n < TWO32;
      hide FrontLength;
      SplitBlocksAreSmall(o, s[n..]);
    }
  }

  /** A file reads back as the blocks that were written exactly when every block stays below 2^32 bytes and its options
      can be told apart. */
  lemma {:induction false} FileReadsBackIff(o: Order, bs: seq<Block>)
    ensures ReadFile(o, EncodeAll(o, bs)) == Some(bs) <==> Small(bs) && AllReadable(bs)
  {
    var file := EncodeAll(o, bs);
    if Small(bs) && AllReadable(bs) {
      FileReadsBack(o, bs);
    }
    if ReadFile(o, file) == Some(bs) {
      SplitBlocksAreSmall(o, file);
      DecodedBlocks(o, Split(o, file).value);
    }
  }

  // ----- every run of the writer -----

  ghost predicate AllAllowed(o: Order, w: WriterOptions, calls: seq<Call>)
    decreases |calls|, 0
  {
    calls == [] || (AllAllowed(o, w, calls[..|calls| - 1])
                    && Allowed(Run(o, w, calls[..|calls| - 1]), calls[|calls| - 1]))
  }

  /** What a fresh writer holds after these calls. */
  ghost function Run(o: Order, w: WriterOptions, calls: seq<Call>): State
    requires AllAllowed(o, w, calls)
    decreases |calls|, 1
  {
    if calls == [] then State([SectionBlock(w)], [])
    else Step(o, w, Run(o, w, calls[..|calls| - 1]), calls[|calls| - 1])
  }

  /** Option values are assumed to fit their length fields. */
  predicate Short(text: seq<byte>) {
    |text| < 0x1_0000
  }

  predicate ShortCall(c: Call) {
    match c
    case Describe(info) => Short(info.name) && Short(info.description)
    case Write(_, _, comment) => Short(comment)
    case Report(_, _, _, _) => true
  }

  predicate ShortTexts(w: WriterOptions) {
    Short(w.comment) && Short(w.hardware) && Short(w.os) && Short(w.application)
  }

  lemma {:induction false} WrittenOptionsAreReadable(o: Order, w: WriterOptions, s: State, c: Call)
    requires Allowed(s, c) && ShortCall(c) && AllReadable(s.blocks)
    ensures AllReadable(Step(o, w, s, c).blocks)
  {
    hide Put64, StampFor;
    assert ReadableOptions(InterfaceBlock(o, DefaultInterface(w)).opts);
    if c.Describe? { assert ReadableOptions(InterfaceBlock(o, c.info).opts); }
  }

  lemma {:induction false} CallKeepsWellFormed(o: Order, w: WriterOptions, s: State, c: Call)
    requires Allowed(s, c) && WellFormed(s.blocks) && InterfacesIn(s.blocks) == |s.interfaces|
    ensures var t := Step(o, w, s, c); WellFormed(t.blocks) && InterfacesIn(t.blocks) == |t.interfaces|
  {
    hide WellFormed, InterfacesIn, TextOption, StampFor, Put64;
    var t := s;
    match c
    case Describe(info) => AppendKeepsWellFormed(s.blocks, InterfaceBlock(o, info));
    case Write(p, id, comment) =>
      if s.interfaces == [] {
        AppendKeepsWellFormed(s.blocks, InterfaceBlock(o, DefaultInterface(w)));
        t := WithInterface(o, s, DefaultInterface(w));
      }
      if id < |t.interfaces| { AppendKeepsWellFormed(t.blocks, PacketBlock(t.interfaces[id], id, p, comment)); }
    case Report(id, received, dropped, now) =>
      var nanos := if s.interfaces == [] then w.nanos else s.interfaces[id].nanos;
      AppendKeepsWellFormed(s.blocks, StatisticsBlock(o, nanos, id, received, dropped, now));
  }

  /** Every run: one section header first, and every packet block names an interface described before it. */
  lemma {:induction false} EveryRunIsWellFormed(o: Order, w: WriterOptions, calls: seq<Call>)
    requires AllAllowed(o, w, calls)
    ensures var s := Run(o, w, calls); WellFormed(s.blocks) && InterfacesIn(s.blocks) == |s.interfaces|
  {
    hide Step, WellFormed, InterfacesIn, Allowed;
    if calls == [] {
      FreshFile(o, SectionBlock(w));
    } else {
      var before, last := calls[..|calls| - 1], calls[|calls| - 1];
      EveryRunIsWellFormed(o, w, before);
      CallKeepsWellFormed(o, w, Run(o, w, before), last);
    }
  }

  lemma {:induction false} EveryRunIsReadable(o: Order, w: WriterOptions, calls: seq<Call>)
    requires AllAllowed(o, w, calls) && ShortTexts(w) && forall i :: 0 <= i < |calls| ==> ShortCall(calls[i])
    ensures AllReadable(Run(o, w, calls).blocks)
  {
    hide Step, AllReadable, Allowed, ShortCall, ShortTexts;
    if calls == [] {
      SectionIsReadable(w);
    } else {
      var before, last := calls[..|calls| - 1], calls[|calls| - 1];
      EveryRunIsReadable(o, w, before);
      WrittenOptionsAreReadable(o, w, Run(o, w, before), last);
    }
  }

  lemma {:induction false} SectionIsReadable(w: WriterOptions)
    requires ShortTexts(w)
    ensures AllReadable([SectionBlock(w)])
  {
  }

  /** Over every sequence of calls whose blocks stay below 2^32 bytes, following the leading lengths cuts the file into
      the written blocks and ends at its end, and the byte counter is the file length. */
  lemma {:induction false} EveryRunSplits(o: Order, w: WriterOptions, calls: seq<Call>)
    requires AllAllowed(o, w, calls) && Small(Run(o, w, calls).blocks)
    ensures var bs := Run(o, w, calls).blocks; var file := EncodeAll(o, bs);
            Split(o, file) == Some(EncodeEach(o, bs)) && CountedBytes(bs) == |file|
  {
    var bs := Run(o, w, calls).blocks;
    FileSplits(o, bs);
    CounterIsFileLength(o, bs);
  }

  /** And a reader gets back every block with the fields and options it was written with exactly when the blocks stay
      below that limit and their texts fit 16-bit lengths, as they do when the caller gives only such texts. */
  lemma {:induction false} EveryRunReadsBack(o: Order, w: WriterOptions, calls: seq<Call>)
    requires AllAllowed(o, w, calls)
    ensures var bs := Run(o, w, calls).blocks;
            && (ReadFile(o, EncodeAll(o, bs)) == Some(bs) <==> Small(bs) && AllReadable(bs))
            && (ShortTexts(w) && (forall i :: 0 <= i < |calls| ==> ShortCall(calls[i])) ==> AllReadable(bs))
  {
    FileReadsBackIff(o, Run(o, w, calls).blocks);
    hide AllReadable, ReadFile, Small, ShortTexts, ShortCall, Run;
    if ShortTexts(w) && forall i :: 0 <= i < |calls| ==> ShortCall(calls[i]) {
      EveryRunIsReadable(o, w, calls);
    }
  }

  /** Option codes are fixed and not 0, so this is a matter of lengths alone. */
  lemma {:induction false} ReadableIsShort(o: Order, w: WriterOptions, calls: seq<Call>)
    requires AllAllowed(o, w, calls)
    ensures var bs := Run(o, w, calls).blocks;
            AllReadable(bs) <==> forall i, j :: 0 <= i < |bs| && 0 <= j < |bs[i].opts| ==> Short(bs[i].opts[j].value)
  {
    RunCodes(o, w, calls);
    hide Run;
  }

  ghost predicate Coded(bs: seq<Block>) {
    forall i, j :: 0 <= i < |bs| && 0 <= j < |bs[i].opts| ==> bs[i].opts[j].code != 0
  }

  lemma {:induction false} RunCodes(o: Order, w: WriterOptions, calls: seq<Call>)
    requires AllAllowed(o, w, calls)
    ensures Coded(Run(o, w, calls).blocks)
  {
    hide Step, Allowed, Coded;
    if calls == [] {
      SectionCodes(w);
    } else {
      var before, last := calls[..|calls| - 1], calls[|calls| - 1];
      RunCodes(o, w, before);
      StepCodes(o, w, Run(o, w, before), last);
    }
  }

  lemma {:induction false} SectionCodes(w: WriterOptions)
    ensures Coded([SectionBlock(w)])
  {
  }

  lemma {:induction false} StepCodes(o: Order, w: WriterOptions, s: State, c: Call)
    requires Allowed(s, c) && Coded(s.blocks)
    ensures Coded(Step(o, w, s, c).blocks)
  {
    hide Put64, StampFor;
  }
}
