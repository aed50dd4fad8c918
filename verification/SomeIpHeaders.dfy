/** The SOME/IP header decoder, as far as its verdict and the fields the dispatcher uses. */
module SomeIpHeaders {
  import opened Bytes
  import opened FrameDecoders

  const MAX_TP_MESSAGE: int := 16 * 1024 * 1024

  datatype SomeIpInfo = SomeIpInfo(length: u32, discovery: bool)

  /** With the options the dispatcher uses: the version is checked and segments are handed to the reassembler. What it
      makes of a segment has no influence on the result. */
  function Verdict(s: seq<byte>): (r: Result<SomeIpInfo>)
    ensures r.Ok? ==> |s| >= 16 && r.value.length >= 8
  {
    if |s| < 16 then Err(BufferTooSmall)
    else
      var length := Be32(s, 4);
      if s[12] != 1 then Err(InvalidVersion)
      else if length < 8 then Err(InvalidLength)
      else if IsSegment(s[14]) && (length < 12 || length > MAX_TP_MESSAGE) then Err(InvalidLength)
      else if IsSegment(s[14]) && |s| < 20 then Err(BufferTooSmall)
      else if IsSegment(s[14]) && Word(0, s[17], s[18], s[19]) * 4 + (length - 12) > MAX_TP_MESSAGE then Err(InvalidLength)
      else Ok(SomeIpInfo(length, Be16(s, 0) == 0xFFFF && Be16(s, 2) == 0x8100))
  }

  /** How many bytes the reassembler copies, starting at byte 20: the announced length, whatever is there. */
  function Copied(s: seq<byte>): nat {
    if Verdict(s).Ok? && IsSegment(s[14]) && Be32(s, 4) >= 12 then Be32(s, 4) - 12 else 0
  }

  function DecodeSomeIp(s: seq<byte>): Decoded<SomeIpInfo> {
    Decoded(Verdict(s), Copied(s) > 0 ==> 20 + Copied(s) <= |s|)
  }

  /** The decoder reads beyond its bytes exactly for a segment that it accepts and that announces more than is there. */
  lemma {:induction false} CopyOutsideIff(s: seq<byte>)
    ensures !DecodeSomeIp(s).inside <==> Verdict(s).Ok? && IsSegment(s[14]) && Be32(s, 4) + 8 > |s|
  {
  }

  predicate IsSegment(messageType: byte) {
    messageType / 0x20 % 2 == 1
  }

  /** The bytes 4 to 7 as a number: the announced length, counted from byte 8 on. */
  function Announced(s: seq<byte>): nat
    requires |s| >= 16
  {
    s[4] as int * 16777216 + s[5] as int * 65536 + s[6] as int * 256 + s[7] as int
  }

  /** What is accepted: version 1, at least eight bytes announced, and a segment only with its own four bytes and within
      sixteen megabytes. */
  lemma {:induction false} AcceptedIff(s: seq<byte>)
    ensures Verdict(s).Ok? <==>
            && |s| >= 16 && s[12] == 1 && Announced(s) >= 8
            && (s[14] as int / 32 % 2 == 1 ==>
                  && 12 <= Announced(s) <= 16777216 && |s| >= 20
                  && (s[17] as int * 65536 + s[18] as int * 256 + s[19] as int) * 4 + (Announced(s) - 12) <= 16777216)
    ensures Verdict(s).Ok? ==>
              && Verdict(s).value.length == Announced(s)
              && (Verdict(s).value.discovery <==> s[..4] == [0xFF, 0xFF, 0x81, 0x00])
    ensures Verdict(s).Err? ==>
              Verdict(s).code == (if |s| < 16 then BufferTooSmall
                                  else if s[12] != 1 then InvalidVersion
                                  else if 12 <= Announced(s) <= 16777216 && |s| < 20 then BufferTooSmall
                                  else InvalidLength)
  {
  }

  /** A segment is copied from byte 20 on, as long as it announces. */
  lemma {:induction false} CopiedIs(s: seq<byte>)
    ensures Copied(s) == if Verdict(s).Ok? && s[14] as int / 32 % 2 == 1 then Announced(s) - 12 else 0
  {
  }
}
