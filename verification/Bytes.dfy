/** Bytes, machine words and the byte orders in which the program reads and writes them. */
module Bytes {

  type byte = b: int | 0 <= b < 256
  type u16 = w: int | 0 <= w < 0x1_0000
  type u32 = w: int | 0 <= w < 0x1_0000_0000
  type u64 = w: int | 0 <= w < 0x1_0000_0000_0000_0000

  const TWO32: int := 0x1_0000_0000
  const TWO64: int := 0x1_0000_0000_0000_0000

  datatype Option<+T> = None | Some(value: T)

  /** Division that truncates toward zero, as `/` and `duration_cast` do in C++. */
  function TruncDiv(a: int, d: int): (q: int)
    requires d > 0
  {
    if a >= 0 then a / d else -((-a) / d)
  }

  function Zeros(n: nat): (s: seq<byte>)
    ensures |s| == n
  {
    seq(n, _ => 0)
  }

  /** The byte order of the host that writes or reads a file. */
  datatype Order = Little | Big
  {
    function Other(): Order {
      if Little? then Big else Little
    }
  }

  /** The 32-bit word with these bytes, most significant first. */
  function Word(b3: byte, b2: byte, b1: byte, b0: byte): (w: u32) {
    b3 as int * 0x100_0000 + b2 as int * 0x1_0000 + b1 as int * 0x100 + b0 as int
  }

  function Put16(o: Order, w: u16): (s: seq<byte>)
    ensures |s| == 2
  {
    if o.Little? then [w % 256, w / 256] else [w / 256, w % 256]
  }

  function Put32(o: Order, w: u32): (s: seq<byte>)
    ensures |s| == 4
  {
    if o.Little?
    then [w % 256, w / 0x100 % 256, w / 0x1_0000 % 256, w / 0x100_0000]
    else [w / 0x100_0000, w / 0x1_0000 % 256, w / 0x100 % 256, w % 256]
  }

  function Put64(o: Order, w: u64): (s: seq<byte>)
    ensures |s| == 8
  {
    if o.Little?
    then Put32(o, w % TWO32) + Put32(o, w / TWO32)
    else Put32(o, w / TWO32) + Put32(o, w % TWO32)
  }

  function Get16(o: Order, s: seq<byte>): (w: u16)
    requires |s| == 2
  {
    var a, b := s[0] as int, s[1] as int;
    if o.Little? then a + b * 256 else a * 256 + b
  }

  function Get32(o: Order, s: seq<byte>): (w: u32)
    requires |s| == 4
  {
    if o.Little? then Word(s[3], s[2], s[1], s[0]) else Word(s[0], s[1], s[2], s[3])
  }

  /** A big-endian 16-bit field at offset `i` of a packet. */
  function Be16(s: seq<byte>, i: nat): (w: u16)
    requires i + 2 <= |s|
  {
    s[i] as int * 256 + s[i + 1] as int
  }

  /** A big-endian 32-bit field at offset `i` of a packet. */
  function Be32(s: seq<byte>, i: nat): (w: u32)
    requires i + 4 <= |s|
  {
    Word(s[i], s[i + 1], s[i + 2], s[i + 3])
  }

  function Swap16(w: u16): (r: u16) {
    w / 256 + w % 256 * 256
  }

  function Swap32(w: u32): (r: u32) {
    Word(w % 256, w / 0x100 % 256, w / 0x1_0000 % 256, w / 0x100_0000)
  }

  lemma {:induction false} WordBytes(b3: byte, b2: byte, b1: byte, b0: byte)
    ensures var w := Word(b3, b2, b1, b0);
            w % 256 == b0 && w / 0x100 % 256 == b1 && w / 0x1_0000 % 256 == b2 && w / 0x100_0000 == b3
  {
    var w := Word(b3, b2, b1, b0);
    DivByStages(w);
    var q2 := b3 as int * 256 + b2 as int;
    var q1 := q2 * 256 + b1 as int;
    DivModUnique(w, q1, b0);
    DivModUnique(q1, q2, b1);
    DivModUnique(q2, b3, b2);
  }

  lemma {:induction false} DivModUnique(w: int, q: int, r: byte)
    requires w == q * 256 + r as int
    ensures w / 256 == q && w % 256 == r
  {
  }

  lemma {:induction false} DivByStages(w: u32)
    ensures w / 0x1_0000 == w / 0x100 / 0x100
    ensures w / 0x100_0000 == w / 0x100 / 0x100 / 0x100
  {
    var q1 := w / 0x100;
    var q2 := q1 / 0x100;
    var q3 := q2 / 0x100;
    assert q2 * 0x1_0000 <= w < q2 * 0x1_0000 + 0x1_0000;
    assert q3 * 0x100_0000 <= w < q3 * 0x100_0000 + 0x100_0000;
  }

  lemma {:induction false} BytesWord(w: u32)
    ensures Word(w / 0x100_0000, w / 0x1_0000 % 256, w / 0x100 % 256, w % 256) == w
  {
    DivByStages(w);
    var q1 := w / 0x100;
    var q2 := q1 / 0x100;
    assert w == q1 * 0x100 + w % 256;
    assert q1 == q2 * 0x100 + q1 % 256;
    assert q2 == q2 / 0x100 * 0x100 + q2 % 256;
  }

  lemma {:induction false} GetPut16(o: Order, w: u16)
    ensures Get16(o, Put16(o, w)) == w
    ensures Get16(o.Other(), Put16(o, w)) == Swap16(w)
    ensures Swap16(Swap16(w)) == w
  {
    DivModUnique(Swap16(w), w % 256, w / 256);
  }

  lemma {:induction false} GetPut32(o: Order, w: u32)
    ensures Get32(o, Put32(o, w)) == w
    ensures Get32(o.Other(), Put32(o, w)) == Swap32(w)
    ensures Swap32(Swap32(w)) == w
  {
    BytesWord(w);
    WordBytes(w % 256, w / 0x100 % 256, w / 0x1_0000 % 256, w / 0x100_0000);
  }

  /** Reading in the order of writing gives the word back. */
  lemma {:induction false} Read16(o: Order, w: u16, s: seq<byte>)
    requires s == Put16(o, w)
    ensures Get16(o, s) == w
  {
    GetPut16(o, w);
  }

  lemma {:induction false} Read32(o: Order, w: u32, s: seq<byte>)
    requires s == Put32(o, w)
    ensures Get32(o, s) == w
  {
    GetPut32(o, w);
  }

  /** Writing what two bytes say gives the two bytes. */
  lemma {:induction false} PutBytes16(hi: byte, lo: byte)
    ensures Put16(Big, hi as int * 256 + lo as int) == [hi, lo]
  {
    DivModUnique(hi as int * 256 + lo as int, hi, lo);
  }

  // ----- the same in plain numbers -----

  lemma {:induction false} Widths()
    ensures TWO32 == 4294967296 && TWO64 == 18446744073709551616
  {
  }

  /** What the bytes of a word mean in either order. */
  lemma {:induction false} ByteOrders(b3: byte, b2: byte, b1: byte, b0: byte)
    ensures Get32(Big, [b3, b2, b1, b0]) == b3 as int * 16777216 + b2 as int * 65536 + b1 as int * 256 + b0 as int
    ensures Get32(Little, [b0, b1, b2, b3]) == b3 as int * 16777216 + b2 as int * 65536 + b1 as int * 256 + b0 as int
    ensures Get16(Big, [b1, b0]) == b1 as int * 256 + b0 as int && Get16(Little, [b0, b1]) == b1 as int * 256 + b0 as int
    ensures Be16([b1, b0], 0) == b1 as int * 256 + b0 as int
    ensures Be32([b3, b2, b1, b0], 0) == b3 as int * 16777216 + b2 as int * 65536 + b1 as int * 256 + b0 as int
  {
  }

  /** What is left over has the sign of the number divided, and is smaller than the divisor. */
  lemma {:induction false} TruncDivMeaning(a: int, d: int)
    requires d > 0
    ensures var r := a - TruncDiv(a, d) * d; -d < r < d && (a >= 0 ==> r >= 0) && (a <= 0 ==> r <= 0)
  {
  }

  /** Fields of packets are big-endian wherever they lie. */
  lemma {:induction false} FieldsAt(s: seq<byte>, i: nat)
    ensures i + 2 <= |s| ==> Be16(s, i) == s[i] as int * 256 + s[i + 1] as int
    ensures i + 4 <= |s| ==>
              Be32(s, i) == s[i] as int * 16777216 + s[i + 1] as int * 65536 + s[i + 2] as int * 256 + s[i + 3] as int
  {
  }
}
