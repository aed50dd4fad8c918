/** SOME/IP service discovery messages: their entries and options. */
module SomeIpSd {
  import opened Bytes

  const ENTRY_SIZE := 16

  /** The last four bytes of an entry are a minor version, or a counter and an eventgroup. */
  datatype Tail = Service(minorVersion: u32) | Eventgroup(counter: nat, eventgroup: u16)

  datatype Entry = Entry(
    kind: byte, index1: byte, index2: byte, numOptions1: nat, numOptions2: nat, service: u16, instance: u16,
    majorVersion: byte, ttl: nat, tail: Tail)

  datatype SdOption = SdOption(kind: byte, data: seq<byte>)

  datatype SdHeader = SdHeader(flags: byte, entriesLength: u32, entries: seq<Entry>, optionsLength: u32, options: seq<SdOption>)

  datatype Code = BufferTooSmall | TruncatedPayload
  datatype Result = Ok(header: SdHeader, consumed: nat) | Err(code: Code)

  datatype Limits = Limits(maxEntries: nat, maxOptions: nat)

  // ----- one entry, one option -----

  predicate IsEventgroup(kind: byte) {
    kind / 2 % 4 == 3
  }

  function ParseEntry(s: seq<byte>): Entry
    requires |s| == ENTRY_SIZE
  {
    Entry(s[0], s[1], s[2], s[3] / 16, s[3] % 16, Be16(s, 4), Be16(s, 6), s[8], Word(0, s[9], s[10], s[11]),
          ParseTail(IsEventgroup(s[0]), Be32(s, 12)))
  }

  ghost predicate ProperEntry(e: Entry) {
    && e.numOptions1 < 16 && e.numOptions2 < 16 && e.ttl < 0x100_0000
    && (e.tail.Eventgroup? <==> IsEventgroup(e.kind))
    && (e.tail.Eventgroup? ==> e.tail.counter < 16)
  }

  ghost function EncodeEntry(e: Entry): (s: seq<byte>)
    requires ProperEntry(e)
    ensures |s| == ENTRY_SIZE
  {
    [e.kind, e.index1, e.index2, e.numOptions1 * 16 + e.numOptions2] + Put16(Big, e.service) + Put16(Big, e.instance)
    + [e.majorVersion] + Put32(Big, e.ttl)[1..] + EncodeTail(e.tail)
  }

  lemma {:induction false} BigWord(w: u32)
    ensures var s := Put32(Big, w); Word(s[0], s[1], s[2], s[3]) == w
  {
    GetPut32(Big, w);
  }

  lemma {:induction false} BigHalf(w: u16)
    ensures var s := Put16(Big, w); s[0] as int * 256 + s[1] as int == w
  {
  }

  lemma {:induction false} SmallWord(w: u32)
    requires w < 0x100_0000
    ensures Put32(Big, w)[0] == 0
  {
  }

  lemma {:induction false} TailReads(c: nat, hi: byte, lo: byte)
    requires c < 16
    ensures var w := Word(0, c, hi, lo); w / 0x1_0000 % 16 == c && w % 0x1_0000 == hi as int * 256 + lo as int
  {
    var w, low := Word(0, c, hi, lo), hi as int * 256 + lo as int;
    assert w == c * 0x1_0000 + low;
    hide Word;
    Halves(w, c, low);
  }

  lemma {:induction false} Halves(w: int, high: int, low: u16)
    requires w == high * 0x1_0000 + low
    ensures w / 0x1_0000 == high && w % 0x1_0000 == low
  {
  }

  ghost function EncodeTail(t: Tail): (s: seq<byte>)
    requires t.Eventgroup? ==> t.counter < 16
    ensures |s| == 4
  {
    match t
    case Service(minor) => Put32(Big, minor)
    case Eventgroup(counter, group) => [0, counter] + Put16(Big, group)
  }

  function ParseTail(eventgroup: bool, last: u32): Tail {
    if eventgroup then Eventgroup(last / 0x1_0000 % 16, last % 0x1_0000) else Service(last)
  }

  lemma {:induction false} TailRoundTrip(t: Tail)
    requires t.Eventgroup? ==> t.counter < 16
    ensures var s := EncodeTail(t); ParseTail(t.Eventgroup?, Word(s[0], s[1], s[2], s[3])) == t
  {
    hide Put16, Put32, Word;
    match t
    case Service(minor) => BigWord(minor);
    case Eventgroup(counter, group) =>
      var g := Put16(Big, group);
      BigHalf(group);
      TailReads(counter, g[0], g[1]);
  }

  /** Where the fields of an entry lie. */
  lemma {:induction false} EntryLayout(e: Entry)
    requires ProperEntry(e)
    ensures var s := EncodeEntry(e);
            && s[..4] == [e.kind, e.index1, e.index2, e.numOptions1 * 16 + e.numOptions2]
            && s[4..6] == Put16(Big, e.service) && s[6..8] == Put16(Big, e.instance) && s[8] == e.majorVersion
            && s[9..12] == Put32(Big, e.ttl)[1..] && s[12..] == EncodeTail(e.tail)
  {
    hide Put16, Put32, EncodeTail;
  }

  /** An entry reads back from its sixteen bytes. */
  lemma {:induction false} EntryRoundTrip(e: Entry)
    requires ProperEntry(e)
    ensures ParseEntry(EncodeEntry(e)) == e
  {
    EntryLayout(e);
    TailRoundTrip(e.tail);
    BigHalf(e.service);
    BigHalf(e.instance);
    BigWord(e.ttl);
    SmallWord(e.ttl);
    var s := EncodeEntry(e);
    hide Put16, Put32, Word, EncodeTail, ParseTail, EncodeEntry;
    Nibbles(e.numOptions1, e.numOptions2);
    assert s[0] == s[..4][0] && s[1] == s[..4][1] && s[2] == s[..4][2] && s[3] == s[..4][3];
    assert s[4] == s[4..6][0] && s[5] == s[4..6][1] && s[6] == s[6..8][0] && s[7] == s[6..8][1];
    assert s[9] == s[9..12][0] && s[10] == s[9..12][1] && s[11] == s[9..12][2];
    assert s[12] == s[12..][0] && s[13] == s[12..][1] && s[14] == s[12..][2] && s[15] == s[12..][3];
  }

  lemma {:induction false} Nibbles(a: nat, b: nat)
    requires b < 16
    ensures (a * 16 + b) / 16 == a && (a * 16 + b) % 16 == b
  {
  }

  /** What one round of the option loop sees at `i`: how far it goes on (0 to stop) and the option, if there is one. */
  datatype Round = Round(option: Option<SdOption>, consumed: nat)

  function ParseOption(s: seq<byte>, i: nat): (r: Round)
    ensures r.consumed > 0 ==> r.consumed >= 3 && i + r.consumed <= |s|
    ensures r.option.Some? ==> r.consumed > 0
  {
    if i + 3 > |s| then Round(None, 0)
    else
      var length := Be16(s, i);
      if length == 0 then Round(None, 3)
      else if i + 2 + length > |s| then Round(None, 0)
      else Round(Some(SdOption(s[i + 2], s[i + 3..i + 2 + length])), 2 + length)
  }

  // ----- the loops -----

  /** Whole entries from `i` on, at most `budget`. */
  function EntriesFrom(s: seq<byte>, i: nat, end: nat, budget: nat): seq<Entry>
    requires end <= |s|
    decreases budget
  {
    if i + ENTRY_SIZE > end || budget == 0 then []
    else [ParseEntry(s[i..i + ENTRY_SIZE])] + EntriesFrom(s, i + ENTRY_SIZE, end, budget - 1)
  }

  /** Options that begin before `end`; the last may reach beyond it, but not beyond the bytes. */
  function OptionsFrom(s: seq<byte>, i: nat, end: nat, budget: nat): seq<SdOption>
    decreases budget
  {
    var r := ParseOption(s, i);
    if i >= end || budget == 0 then []
    else if r.consumed == 0 then []
    else (if r.option.Some? then [r.option.value] else []) + OptionsFrom(s, i + r.consumed, end, budget - 1)
  }

  method ParseEntries(s: seq<byte>, end: nat, limits: Limits) returns (entries: seq<Entry>)
    requires end <= |s|
    ensures entries == EntriesFrom(s, 8, end, limits.maxEntries)
  {
    hide ParseEntry;
    entries := [];
    var offset, count := 8, 0;
    while offset + ENTRY_SIZE <= end && count < limits.maxEntries
      invariant count <= limits.maxEntries
      invariant entries + EntriesFrom(s, offset, end, limits.maxEntries - count) == EntriesFrom(s, 8, end, limits.maxEntries)
    {
      entries := entries + [ParseEntry(s[offset..offset + ENTRY_SIZE])];
      offset := offset + ENTRY_SIZE;
      count := count + 1;
    }
  }

  method ParseOptions(s: seq<byte>, start: nat, end: nat, limits: Limits) returns (options: seq<SdOption>)
    ensures options == OptionsFrom(s, start, end, limits.maxOptions)
  {
    hide ParseOption;
    options := [];
    var offset, count := start, 0;
    while offset < end && count < limits.maxOptions
      invariant count <= limits.maxOptions
      invariant options + OptionsFrom(s, offset, end, limits.maxOptions - count) == OptionsFrom(s, start, end, limits.maxOptions)
    {
      var r := ParseOption(s, offset);
      if r.option.Some? { options := options + [r.option.value]; }
      if r.consumed == 0 { break; }
      offset := offset + r.consumed;
      count := count + 1;
    }
  }

  // ----- a whole message -----

  /** The end of the entries is computed in 32 bits. */
  function EntriesEnd(s: seq<byte>): nat
    requires |s| >= 12
  {
    (8 + Be32(s, 4)) % TWO32
  }

  function Decode(s: seq<byte>, limits: Limits): Result {
    if |s| < 12 then Err(BufferTooSmall)
    else
      var e := EntriesEnd(s);
      if e > |s| || e + 4 > |s| then Err(TruncatedPayload)
      else
        var end := e + 4 + Be32(s, e);
        if end > |s| then Err(TruncatedPayload)
        else Ok(SdHeader(s[0], Be32(s, 4), EntriesFrom(s, 8, e, limits.maxEntries), Be32(s, e),
                         OptionsFrom(s, e + 4, end, limits.maxOptions)), end)
  }

  method DecodeMessage(s: seq<byte>, limits: Limits) returns (r: Result)
    ensures r == Decode(s, limits)
  {
    hide EntriesFrom, OptionsFrom, Be32;
    if |s| < 12 { return Err(BufferTooSmall); }
    var e := (8 + Be32(s, 4)) % TWO32;
    if e > |s| { return Err(TruncatedPayload); }
    var entries := ParseEntries(s, e, limits);
    if e + 4 > |s| { return Err(TruncatedPayload); }
    var end := e + 4 + Be32(s, e);
    if end > |s| { return Err(TruncatedPayload); }
    var options := ParseOptions(s, e + 4, end, limits);
    r := Ok(SdHeader(s[0], Be32(s, 4), entries, Be32(s, e), options), end);
  }

  /** The size a header reports of itself. */
  function HeaderSize(h: SdHeader): nat {
    12 + h.entriesLength + h.optionsLength
  }

  /** The reported size is the number of bytes the message took exactly when the end of the entries did not wrap
      around; otherwise it is 2^32 too large. */
  lemma {:induction false} ReportedSizeIff(s: seq<byte>, limits: Limits)
    requires Decode(s, limits).Ok?
    ensures var r := Decode(s, limits);
            && r.consumed <= |s|
            && (HeaderSize(r.header) == r.consumed <==> r.header.entriesLength < TWO32 - 8)
            && (r.header.entriesLength >= TWO32 - 8 ==> HeaderSize(r.header) == r.consumed + TWO32)
  {
    hide EntriesFrom, OptionsFrom, Be32;
  }

  const WRAPPING: seq<byte> := [0, 0, 0, 0, 0xFF, 0xFF, 0xFF, 0xF8, 0, 0, 0, 0]

  lemma {:induction false} WrappingFields()
    ensures |WRAPPING| == 12 && Be32(WRAPPING, 4) == TWO32 - 8 && Be32(WRAPPING, 0) == 0
  {
  }

  /** Twelve bytes that announce 2^32 - 8 bytes of entries: they decode, and report 2^32 + 4 bytes of themselves. */
  lemma {:induction false} WrappedSizeDecodes(limits: Limits)
    ensures var r := Decode(WRAPPING, limits); r.Ok? && r.consumed == 4 && HeaderSize(r.header) == TWO32 + 4
  {
    WrappingFields();
    hide EntriesFrom, OptionsFrom, Be32, WRAPPING;
    assert EntriesEnd(WRAPPING) == 0;
  }

  // ----- what arbitrary bytes give -----

  ghost function EncodeOption(o: SdOption): seq<byte> {
    Put16(Big, (|o.data| + 1) % 0x1_0000) + [o.kind] + o.data
  }

  ghost predicate OccursAt(s: seq<byte>, k: nat, o: SdOption) {
    k + |EncodeOption(o)| <= |s| && s[k..k + |EncodeOption(o)|] == EncodeOption(o)
  }

  /** Every decoded option stands in the bytes, whole, and behind those before it. */
  lemma {:induction false} OptionsOccur(s: seq<byte>, i: nat, end: nat, budget: nat) returns (at: seq<nat>)
    ensures var os := OptionsFrom(s, i, end, budget);
            && |at| == |os|
            && (forall k :: 0 <= k < |os| ==> i <= at[k] && OccursAt(s, at[k], os[k]))
            && forall k :: 0 < k < |os| ==> at[k - 1] + |EncodeOption(os[k - 1])| <= at[k]
    decreases budget
  {
    hide EncodeOption, OccursAt;
    var r := ParseOption(s, i);
    at := [];
    if i < end && budget > 0 && r.consumed > 0 {
      var later := OptionsOccur(s, i + r.consumed, end, budget - 1);
      if r.option.Some? {
        OptionAt(s, i);
        hide ParseOption;
        at := [i] + later;
        var os, rest := OptionsFrom(s, i, end, budget), OptionsFrom(s, i + r.consumed, end, budget - 1);
        assert os == [r.option.value] + rest;
        assert forall k :: 0 < k < |os| ==> os[k] == rest[k - 1] && at[k] == later[k - 1];
      } else {
        at := later;
        assert [] + OptionsFrom(s, i + r.consumed, end, budget - 1) == OptionsFrom(s, i, end, budget);
      }
    }
  }

  lemma {:induction false} OptionAt(s: seq<byte>, i: nat)
    requires ParseOption(s, i).option.Some?
    ensures var r := ParseOption(s, i);
            OccursAt(s, i, r.option.value) && |EncodeOption(r.option.value)| == r.consumed
  {
    hide Put16;
    var r := ParseOption(s, i);
    var o := r.option.value;
    PutBytes16(s[i], s[i + 1]);
    assert |o.data| + 1 == Be16(s, i);
    assert s[i..i + r.consumed] == [s[i], s[i + 1]] + [s[i + 2]] + s[i + 3..i + r.consumed];
  }

  // ----- round trip -----

  ghost predicate ProperEntries(es: seq<Entry>) {
    forall i :: 0 <= i < |es| ==> ProperEntry(es[i])
  }

  ghost predicate ProperOptions(os: seq<SdOption>) {
    forall i :: 0 <= i < |os| ==> |os[i].data| < 0xFFFF
  }

  ghost function EncodeEntries(es: seq<Entry>): (s: seq<byte>)
    requires ProperEntries(es)
    ensures |s| == ENTRY_SIZE * |es|
  {
    if es == [] then [] else EncodeEntry(es[0]) + EncodeEntries(es[1..])
  }

  ghost function EncodeOptions(os: seq<SdOption>): seq<byte> {
    if os == [] then [] else EncodeOption(os[0]) + EncodeOptions(os[1..])
  }

  /** The entries written at `i` are read from there. */
  lemma {:induction false} EntriesReadBack(s: seq<byte>, i: nat, es: seq<Entry>, budget: nat)
    requires ProperEntries(es) && |es| <= budget
    requires i + ENTRY_SIZE * |es| <= |s| && s[i..i + ENTRY_SIZE * |es|] == EncodeEntries(es)
    ensures EntriesFrom(s, i, i + ENTRY_SIZE * |es|, budget) == es
    decreases |es|
  {
    hide ParseEntry, EncodeEntry, ProperEntry;
    if es != [] {
      var rest := es[1..];
      RestIsProper(es);
      EntryRoundTrip(es[0]);
      var e, t := EncodeEntry(es[0]), EncodeEntries(rest);
      Parts(s, i, e, t);
      EntriesReadBack(s, i + ENTRY_SIZE, rest, budget - 1);
      hide EncodeEntries, ProperEntries;
      assert i + ENTRY_SIZE + ENTRY_SIZE * |rest| == i + ENTRY_SIZE * |es|;
      assert [es[0]] + rest == es;
    }
  }

  lemma {:induction false} RestIsProper(es: seq<Entry>)
    requires es != [] && ProperEntries(es)
    ensures ProperEntries(es[1..]) && ProperEntry(es[0])
  {
    hide ProperEntry;
    assert forall k :: 0 <= k < |es[1..]| ==> es[1..][k] == es[k + 1];
  }

  /** Two encodings, one behind the other. */
  lemma {:induction false} Parts(s: seq<byte>, i: nat, e: seq<byte>, t: seq<byte>)
    requires i + |e| + |t| <= |s| && s[i..i + |e| + |t|] == e + t
    ensures s[i..i + |e|] == e && s[i + |e|..i + |e| + |t|] == t
  {
    var both := s[i..i + |e| + |t|];
    assert both[..|e|] == s[i..i + |e|] && both[|e|..] == s[i + |e|..i + |e| + |t|];
  }

  lemma {:induction false} OptionReads(s: seq<byte>, i: nat, o: SdOption)
    requires |o.data| < 0xFFFF && OccursAt(s, i, o)
    ensures ParseOption(s, i) == Round(Some(o), |EncodeOption(o)|)
  {
    var n, e := |o.data|, EncodeOption(o);
    assert |e| == 3 + n;
    forall k | 0 <= k < |e| ensures s[i + k] == e[k] { assert s[i..i + |e|][k] == e[k]; }
    BigHalf(n + 1);
    assert Be16(s, i) == n + 1;
    assert s[i + 3..i + 3 + n] == o.data by {
      assert s[i + 3..i + 3 + n] == s[i..i + |e|][3..] == e[3..] == o.data;
    }
  }

  /** The options written at `i` are read from there, up to the given end. */
  lemma {:induction false} OptionsReadBack(s: seq<byte>, i: nat, os: seq<SdOption>, budget: nat)
    requires ProperOptions(os) && |os| <= budget
    requires i + |EncodeOptions(os)| <= |s| && s[i..i + |EncodeOptions(os)|] == EncodeOptions(os)
    ensures OptionsFrom(s, i, i + |EncodeOptions(os)|, budget) == os
    decreases |os|
  {
    hide ParseOption, EncodeOption;
    if os != [] {
      var e, t := EncodeOption(os[0]), EncodeOptions(os[1..]);
      Parts(s, i, e, t);
      OptionReads(s, i, os[0]);
      assert forall k :: 0 <= k < |os[1..]| ==> os[1..][k] == os[k + 1];
      OptionsReadBack(s, i + |e|, os[1..], budget - 1);
      assert [os[0]] + os[1..] == os;
    }
  }

  ghost predicate ProperHeader(h: SdHeader, limits: Limits) {
    && ProperEntries(h.entries) && ProperOptions(h.options)
    && |h.entries| <= limits.maxEntries && |h.options| <= limits.maxOptions
    && h.entriesLength == ENTRY_SIZE * |h.entries| && h.entriesLength < TWO32 - 8
    && h.optionsLength == |EncodeOptions(h.options)|
  }

  ghost function Encode(h: SdHeader, limits: Limits): seq<byte>
    requires ProperHeader(h, limits)
  {
    [h.flags, 0, 0, 0] + Put32(Big, h.entriesLength) + EncodeEntries(h.entries) + Put32(Big, h.optionsLength)
    + EncodeOptions(h.options)
  }

  lemma {:induction false} Be32Reads(s: seq<byte>, i: nat, w: u32)
    requires i + 4 <= |s| && s[i..i + 4] == Put32(Big, w)
    ensures Be32(s, i) == w
  {
    BigWord(w);
    hide Put32, Word;
    var t := s[i..i + 4];
    assert s[i] == t[0] && s[i + 1] == t[1] && s[i + 2] == t[2] && s[i + 3] == t[3];
  }

  /** Decoding a well-formed message within the limits gives exactly its entries and options, in order, whatever
      follows it. */
  lemma {:induction false} RoundTrip(h: SdHeader, limits: Limits, rest: seq<byte>)
    requires ProperHeader(h, limits)
    ensures Decode(Encode(h, limits) + rest, limits) == Ok(h, |Encode(h, limits)|)
  {
    hide Put32, EncodeEntries, EncodeOptions, EntriesFrom, OptionsFrom, ProperEntries, ProperOptions, Be32;
    var m := Encode(h, limits);
    var s := m + rest;
    var e := 8 + h.entriesLength;
    assert s[4..8] == Put32(Big, h.entriesLength);
    Be32Reads(s, 4, h.entriesLength);
    assert s[e..e + 4] == Put32(Big, h.optionsLength);
    Be32Reads(s, e, h.optionsLength);
    assert s[8..e] == EncodeEntries(h.entries);
    assert s[e + 4..|m|] == EncodeOptions(h.options);
    EntriesReadBack(s, 8, h.entries, limits.maxEntries);
    OptionsReadBack(s, e + 4, h.options, limits.maxOptions);
  }

  // ----- the same in plain numbers -----

  lemma {:induction false} EventgroupKinds(kind: byte)
    ensures IsEventgroup(kind) <==> kind as int % 8 in {6, 7}
  {
    var high, low := kind as int / 8, kind as int % 8;
    assert kind as int / 2 == high * 4 + low / 2;
  }

  /** An entry is read from its sixteen bytes; kinds 6 and 7, whatever their upper five bits, are of eventgroups. */
  lemma {:induction false} EntryIs(s: seq<byte>)
    requires |s| == 16
    ensures var e := ParseEntry(s);
            && [e.kind, e.index1, e.index2, e.majorVersion] == [s[0], s[1], s[2], s[8]]
            && e.numOptions1 == s[3] as int / 16 && e.numOptions2 == s[3] as int % 16
            && e.service == s[4] as int * 256 + s[5] as int && e.instance == s[6] as int * 256 + s[7] as int
            && e.ttl == s[9] as int * 65536 + s[10] as int * 256 + s[11] as int
            && (e.tail.Eventgroup? <==> s[0] as int % 8 in {6, 7})
  {
    EventgroupKinds(s[0]);
    hide IsEventgroup;
  }

  /** Its last four bytes are a minor version, or four bits of counter and an eventgroup. */
  lemma {:induction false} EntryTailIs(s: seq<byte>)
    requires |s| == 16
    ensures ParseEntry(s).tail == if s[0] as int % 8 in {6, 7}
              then Eventgroup(s[13] as int % 16, s[14] as int * 256 + s[15] as int)
              else Service(s[12] as int * 16777216 + s[13] as int * 65536 + s[14] as int * 256 + s[15] as int)
  {
    EventgroupKinds(s[0]);
    hide IsEventgroup;
    var low, high := s[14] as int * 256 + s[15] as int, s[12] as int * 256 + s[13] as int;
    Halves(Be32(s, 12), high, low);
    assert high == s[12] as int * 16 * 16 + s[13] as int;
  }

  /** As many entries as fit and are allowed, one every sixteen bytes. */
  lemma {:induction false} EntriesAre(s: seq<byte>, i: nat, end: nat, budget: nat)
    requires i <= end <= |s|
    ensures var es := EntriesFrom(s, i, end, budget);
            && |es| == (if (end - i) / 16 < budget then (end - i) / 16 else budget)
            && forall k :: 0 <= k < |es| ==> i + 16 * k + 16 <= |s| && es[k] == ParseEntry(s[i + 16 * k..i + 16 * k + 16])
    decreases budget
  {
    hide ParseEntry;
    if i + 16 <= end && budget > 0 {
      EntriesAre(s, i + 16, end, budget - 1);
      var es, rest := EntriesFrom(s, i, end, budget), EntriesFrom(s, i + 16, end, budget - 1);
      assert es == [ParseEntry(s[i..i + 16])] + rest;
      forall k | 0 <= k < |es| ensures i + 16 * k + 16 <= |s| && es[k] == ParseEntry(s[i + 16 * k..i + 16 * k + 16]) {
        if k > 0 { assert es[k] == rest[k - 1]; }
      }
    }
  }

  /** An option in bytes: a length that counts kind and data but not itself, the kind, the data. */
  lemma {:induction false} OptionIs(o: SdOption)
    requires |o.data| < 65535
    ensures var n := |o.data| + 1; EncodeOption(o) == [n / 256, n % 256, o.kind] + o.data
  {
  }

  /** One round of the options, for any bytes: a zero length passes over three bytes, and counts against the budget. */
  lemma {:induction false} OptionsByFirst(s: seq<byte>, i: nat, end: nat, budget: nat)
    ensures var os := OptionsFrom(s, i, end, budget);
            if i >= end || budget == 0 || i + 3 > |s| then os == []
            else
              var n := s[i] as int * 256 + s[i + 1] as int;
              if n == 0 then os == OptionsFrom(s, i + 3, end, budget - 1)
              else if i + 2 + n > |s| then os == []
              else os == [SdOption(s[i + 2], s[i + 3..i + 2 + n])] + OptionsFrom(s, i + 2 + n, end, budget - 1)
  {
  }

  /** A message is decoded exactly when its two lengths, the first as 32 bits keep its end, stay within the bytes. */
  lemma {:induction false} DecodesIff(s: seq<byte>, limits: Limits)
    ensures Decode(s, limits).Ok? <==>
            && |s| >= 12
            && var e := (8 + s[4] as int * 16777216 + s[5] as int * 65536 + s[6] as int * 256 + s[7] as int) % 4294967296;
               e + 4 <= |s| && e + 4 + Be32(s, e) <= |s|
    ensures Decode(s, limits).Err? ==> Decode(s, limits).code == if |s| < 12 then BufferTooSmall else TruncatedPayload
    ensures Decode(s, limits).Ok? ==>
              var r := Decode(s, limits);
              && r.header.flags == s[0] && r.header.entriesLength == Be32(s, 4)
              && var e := (8 + Be32(s, 4)) % 4294967296;
                 && r.consumed == e + 4 + r.header.optionsLength && r.consumed <= |s| && r.header.optionsLength == Be32(s, e)
                 && r.header.entries == EntriesFrom(s, 8, e, limits.maxEntries)
                 && r.header.options == OptionsFrom(s, e + 4, r.consumed, limits.maxOptions)
  {
    hide EntriesFrom, OptionsFrom;
  }
}
