/** The TLVs behind gPTP messages (clause 14 of IEEE 1588) and the path trace carried in one of them. */
module GptpTlvs {
  import opened Bytes

  datatype Tlv = Tlv(kind: u16, value: seq<byte>)

  function Encode(t: Tlv): seq<byte> {
    Put16(Big, t.kind) + Put16(Big, |t.value| % 0x1_0000) + t.value
  }

  function EncodeAll(ts: seq<Tlv>): seq<byte> {
    if ts == [] then [] else Encode(ts[0]) + EncodeAll(ts[1..])
  }

  ghost predicate Proper(ts: seq<Tlv>) {
    forall i :: 0 <= i < |ts| ==> |ts[i].value| < 0x1_0000
  }

  /** Where the parser cannot go on: less than a header, or a TLV longer than what is left. */
  predicate Stuck(s: seq<byte>) {
    |s| < 4 || 4 + Be16(s, 2) > |s|
  }

  /** One TLV and the bytes it took. */
  function ParseTlv(s: seq<byte>): (r: Option<(Tlv, nat)>)
    ensures r.None? <==> Stuck(s)
    ensures r.Some? ==> 4 <= r.value.1 <= |s|
  {
    if |s| < 4 then None
    else
      var n := 4 + Be16(s, 2);
      if n > |s| then None else Some((Tlv(Be16(s, 0), s[4..n]), n))
  }

  function ParseAll(s: seq<byte>): seq<Tlv>
    decreases |s|
  {
    match ParseTlv(s)
    case None => []
    case Some((t, n)) => [t] + ParseAll(s[n..])
  }

  method ParseTlvArray(s: seq<byte>) returns (tlvs: seq<Tlv>)
    ensures tlvs == ParseAll(s)
  {
    hide ParseTlv;
    tlvs := [];
    var rest := s;
    while |rest| >= 4
      invariant ParseAll(s) == tlvs + ParseAll(rest)
      decreases |rest|
    {
      var r := ParseTlv(rest);
      if r.None? { return; }
      var (tlv, n) := r.value;
      Regroup(tlvs, tlv, ParseAll(rest[n..]));
      tlvs := tlvs + [tlv];
      rest := rest[n..];
    }
  }

  lemma {:induction false} Regroup(a: seq<Tlv>, t: Tlv, b: seq<Tlv>)
    ensures a + ([t] + b) == (a + [t]) + b
  {
  }

  lemma {:induction false} FrontTlv(t: Tlv, rest: seq<byte>)
    requires |t.value| < 0x1_0000
    ensures ParseTlv(Encode(t) + rest) == Some((t, |Encode(t)|)) && (Encode(t) + rest)[|Encode(t)|..] == rest
  {
    var s, n := Encode(t) + rest, |t.value|;
    assert s[..2] == Put16(Big, t.kind) && s[2..4] == Put16(Big, n);
    Read16(Big, t.kind, s[..2]);
    Read16(Big, n, s[2..4]);
    hide Put16;
    assert Be16(s, 0) == Get16(Big, s[..2]) && Be16(s, 2) == Get16(Big, s[2..4]);
    assert s[4..4 + n] == t.value;
  }

  lemma {:induction false} ParsedFront(s: seq<byte>)
    requires !Stuck(s)
    ensures var (t, n) := ParseTlv(s).value; |t.value| < 0x1_0000 && Encode(t) == s[..n]
  {
    var n := |s[4..4 + Be16(s, 2)]|;
    assert n == Be16(s, 2);
    PutBytes16(s[0], s[1]);
    PutBytes16(s[2], s[3]);
  }

  /** A TLV in bytes: type and length, most significant byte first, and the value. */
  lemma {:induction false} EncodeIs(t: Tlv)
    requires |t.value| < 65536
    ensures var n := |t.value|; Encode(t) == [t.kind / 256, t.kind % 256, n / 256, n % 256] + t.value
  {
  }

  /** The parser stops where less than four bytes are left or less than the length says. */
  lemma {:induction false} StuckIff(s: seq<byte>)
    ensures Stuck(s) <==> |s| < 4 || 4 + s[2] as int * 256 + s[3] as int > |s|
  {
  }

  /** The parser finds exactly the one way to read the bytes as TLVs followed by a tail at which no TLV can begin. */
  lemma {:induction false} SplitIffParsed(s: seq<byte>, ts: seq<Tlv>)
    ensures ParseAll(s) == ts <==> exists tail :: IsSplit(s, ts, tail)
    decreases |s|
  {
    if ParseAll(s) == ts {
      var tail := ParsedIsSplit(s);
    }
    if tail :| IsSplit(s, ts, tail) {
      SplitIsParsed(s, ts, tail);
    }
  }

  ghost predicate IsSplit(s: seq<byte>, ts: seq<Tlv>, tail: seq<byte>) {
    s == EncodeAll(ts) + tail && Proper(ts) && Stuck(tail)
  }

  lemma {:induction false} ParsedIsSplit(s: seq<byte>) returns (tail: seq<byte>)
    ensures IsSplit(s, ParseAll(s), tail)
    decreases |s|
  {
    hide Encode, Stuck;
    if Stuck(s) {
      tail := s;
      assert EncodeAll([]) + tail == s;
    } else {
      var (t, n) := ParseTlv(s).value;
      ParsedFront(s);
      tail := ParsedIsSplit(s[n..]);
      hide ParseTlv;
      var ts := ParseAll(s[n..]);
      assert ([t] + ts)[1..] == ts;
      assert s == s[..n] + s[n..];
      Chain(Encode(t), EncodeAll(ts), tail);
    }
  }

  lemma {:induction false} Chain(a: seq<byte>, b: seq<byte>, c: seq<byte>)
    ensures (a + b) + c == a + (b + c)
  {
  }

  lemma {:induction false} SplitIsParsed(s: seq<byte>, ts: seq<Tlv>, tail: seq<byte>)
    requires IsSplit(s, ts, tail)
    ensures ParseAll(s) == ts
    decreases |ts|
  {
    hide Encode, Stuck, ParseTlv;
    if ts == [] {
      assert s == tail;
    } else {
      var rest := EncodeAll(ts[1..]) + tail;
      Chain(Encode(ts[0]), EncodeAll(ts[1..]), tail);
      FrontTlv(ts[0], rest);
      assert forall i :: 0 <= i < |ts[1..]| ==> ts[1..][i] == ts[i + 1];
      SplitIsParsed(rest, ts[1..], tail);
      assert [ts[0]] + ts[1..] == ts;
    }
  }

  // ----- path trace -----

  const CLOCK_ID_SIZE := 8

  function Join(ids: seq<seq<byte>>): seq<byte> {
    if ids == [] then [] else Join(ids[..|ids| - 1]) + ids[|ids| - 1]
  }

  ghost predicate ClockIds(ids: seq<seq<byte>>) {
    forall i :: 0 <= i < |ids| ==> |ids[i]| == CLOCK_ID_SIZE
  }

  /** Nothing unless the value is a positive multiple of eight bytes; otherwise its clock identities in order. */
  method ParsePathTrace(value: seq<byte>) returns (r: Option<seq<seq<byte>>>)
    ensures r.Some? <==> |value| >= 8 && |value| % 8 == 0
    ensures r.Some? ==> |r.value| == |value| / 8 && ClockIds(r.value) && Join(r.value) == value
    ensures r.Some? ==> forall i :: 0 <= i < |r.value| ==> r.value[i] == value[8 * i..8 * i + 8]
  {
    if |value| < CLOCK_ID_SIZE || |value| % CLOCK_ID_SIZE != 0 {
      return None;
    }
    var ids: seq<seq<byte>> := [];
    var i := 0;
    while i < |value|
      invariant i <= |value| && i % CLOCK_ID_SIZE == 0 && |ids| == i / CLOCK_ID_SIZE
      invariant ClockIds(ids) && Join(ids) == value[..i]
      invariant forall k :: 0 <= k < |ids| ==> ids[k] == value[8 * k..8 * k + 8]
    {
      var id := value[i..i + CLOCK_ID_SIZE];
      assert (ids + [id])[..|ids|] == ids;
      assert value[..i] + id == value[..i + CLOCK_ID_SIZE];
      ids := ids + [id];
      i := i + CLOCK_ID_SIZE;
    }
    assert value[..i] == value;
    r := Some(ids);
  }

  /** A value is the join of one list of clock identities only, so the parser gives back the list that was written. */
  lemma {:induction false} JoinIsInjective(a: seq<seq<byte>>, b: seq<seq<byte>>)
    requires ClockIds(a) && ClockIds(b) && Join(a) == Join(b)
    ensures a == b
    decreases |a| + |b|
  {
    JoinLength(a);
    JoinLength(b);
    if a != [] && b != [] {
      var a1, b1, x, y := a[..|a| - 1], b[..|b| - 1], a[|a| - 1], b[|b| - 1];
      assert Join(a)[|Join(a)| - 8..] == x && Join(b)[|Join(b)| - 8..] == y;
      assert Join(a)[..|Join(a)| - 8] == Join(a1) && Join(b)[..|Join(b)| - 8] == Join(b1);
      JoinIsInjective(a1, b1);
      assert a == a1 + [x] && b == b1 + [y];
    }
  }

  lemma {:induction false} JoinLength(ids: seq<seq<byte>>)
    requires ClockIds(ids)
    ensures |Join(ids)| == 8 * |ids|
  {
    if ids != [] { JoinLength(ids[..|ids| - 1]); }
  }
}
