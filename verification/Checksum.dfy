/** The one's-complement checksum of IPv4 headers (section 3.1 of RFC 791, RFC 1071) and the validator's variant of it. */
module Checksum {
  import opened Bytes

  /** The number of bytes below which a 32-bit sum of their words cannot wrap around. */
  const NO_WRAP: int := 0x2_0002

  // ----- sums of words -----

  /** The 16-bit big-endian words of a byte string; an odd last byte is the high byte of its word. */
  function Words(s: seq<byte>): (ws: seq<u16>)
    ensures |ws| == (|s| + 1) / 2
  {
    seq((|s| + 1) / 2, i requires 0 <= i < (|s| + 1) / 2 =>
          if 2 * i + 1 < |s| then Be16(s, 2 * i) else s[2 * i] as int * 256)
  }

  function Sum(ws: seq<u16>): nat {
    if ws == [] then 0 else Sum(ws[..|ws| - 1]) + ws[|ws| - 1]
  }

  lemma {:induction false} EmptySum(ws: seq<u16>)
    ensures Sum(ws[..0]) == 0
  {
  }

  lemma {:induction false} SumBound(ws: seq<u16>)
    ensures Sum(ws) <= 0xFFFF * |ws|
  {
    if ws != [] { SumBound(ws[..|ws| - 1]); }
  }

  lemma {:induction false} SumOfParts(a: seq<u16>, b: seq<u16>)
    ensures Sum(a + b) == Sum(a) + Sum(b)
    decreases |b|
  {
    if b == [] {
      assert a + b == a;
    } else {
      SumOfParts(a, b[..|b| - 1]);
      assert (a + b)[..|a + b| - 1] == a + b[..|b| - 1];
    }
  }

  lemma {:induction false} SumAround(ws: seq<u16>, k: nat)
    requires k < |ws|
    ensures Sum(ws) == Sum(ws[..k]) + ws[k] + Sum(ws[k + 1..])
  {
    assert ws == ws[..k] + ([ws[k]] + ws[k + 1..]);
    SumOfParts(ws[..k], [ws[k]] + ws[k + 1..]);
    SumOfParts([ws[k]], ws[k + 1..]);
    assert Sum([ws[k]]) == ws[k] by { assert [ws[k]][..0] == []; }
  }

  lemma {:induction false} SumWithout(ws: seq<u16>, k: nat)
    requires k < |ws|
    ensures Sum(ws) == Sum(ws[..k] + ws[k + 1..]) + ws[k]
  {
    SumAround(ws, k);
    SumOfParts(ws[..k], ws[k + 1..]);
  }

  lemma {:induction false} SumUpdated(ws: seq<u16>, k: nat, w: u16)
    requires k < |ws|
    ensures Sum(ws[k := w]) == Sum(ws) - ws[k] + w
  {
    SumAround(ws, k);
    SumAround(ws[k := w], k);
    assert ws[k := w][..k] == ws[..k] && ws[k := w][k + 1..] == ws[k + 1..];
  }

  lemma {:induction false} WithoutOne(ws: seq<u16>, k: nat)
    requires k < |ws|
    ensures multiset(ws[..k] + ws[k + 1..]) == multiset(ws) - multiset{ws[k]}
  {
    assert ws == ws[..k] + [ws[k]] + ws[k + 1..];
  }

  lemma {:induction false} SumOfPermutation(a: seq<u16>, b: seq<u16>)
    requires multiset(a) == multiset(b)
    ensures Sum(a) == Sum(b)
    decreases |a|
  {
    if a == [] {
      assert |multiset(b)| == 0;
    } else {
      hide Sum;
      assert a[0] in multiset(b);
      var k :| 0 <= k < |b| && b[k] == a[0];
      SumWithout(b, k);
      SumWithout(a, 0);
      WithoutOne(b, k);
      WithoutOne(a, 0);
      SumOfPermutation(a[..0] + a[1..], b[..k] + b[k + 1..]);
    }
  }

  lemma {:induction false} SumIsZero(ws: seq<u16>)
    ensures Sum(ws) == 0 <==> forall i :: 0 <= i < |ws| ==> ws[i] == 0
  {
    if ws != [] {
      SumIsZero(ws[..|ws| - 1]);
      assert forall i :: 0 <= i < |ws| - 1 ==> ws[..|ws| - 1][i] == ws[i];
    }
  }

  // ----- folding -----

  /** The fold of the program: add the high half to the low half until nothing is left above 16 bits. */
  function Fold(n: u32): (r: u16)
    decreases n
  {
    if n / 0x1_0000 == 0 then n else Fold(n % 0x1_0000 + n / 0x1_0000)
  }

  /** Arithmetic of one's-complement words: the residue mod 65535, where only 0 itself is written 0. */
  function Residue(n: nat): (r: u16) {
    if n == 0 then 0 else 1 + (n - 1) % 0xFFFF
  }

  lemma {:induction false} DropMultiple(n: nat, k: nat)
    ensures (n + k * 0xFFFF) % 0xFFFF == n % 0xFFFF
    decreases k
  {
    if k > 0 { DropMultiple(n, k - 1); }
  }

  lemma {:induction false} FoldStep(n: u32)
    requires n >= 0x1_0000
    ensures n % 0x1_0000 + n / 0x1_0000 < n
    ensures Residue(n % 0x1_0000 + n / 0x1_0000) == Residue(n)
  {
    var lo, hi := n % 0x1_0000, n / 0x1_0000;
    assert n == lo + hi + hi * 0xFFFF;
    DropMultiple(lo + hi - 1, hi);
  }

  /** The folding loop computes the one's-complement residue of the sum. */
  lemma {:induction false} FoldIsResidue(n: u32)
    ensures Fold(n) == Residue(n)
    decreases n
  {
    if n >= 0x1_0000 {
      FoldStep(n);
      FoldIsResidue(n % 0x1_0000 + n / 0x1_0000);
    }
  }

  lemma {:induction false} ResidueMeaning(n: nat)
    ensures Residue(n) % 0xFFFF == n % 0xFFFF
    ensures Residue(n) == 0 <==> n == 0
    ensures Residue(n) == 0xFFFF <==> n > 0 && n % 0xFFFF == 0
  {
    if n > 0 {
      var q, r := (n - 1) / 0xFFFF, (n - 1) % 0xFFFF;
      if r + 1 < 0xFFFF {
        DropMultiple(r + 1, q);
      } else {
        DropMultiple(0, q + 1);
      }
    }
  }

  /** The value the program returns for any bytes, with the wrap-around of its 32-bit sum. */
  function Value(s: seq<byte>): (r: u16) {
    0xFFFF - Fold(Sum(Words(s)) % TWO32)
  }

  lemma {:induction false} NoWrap(s: seq<byte>)
    requires |s| <= NO_WRAP
    ensures Value(s) == 0xFFFF - Residue(Sum(Words(s)))
  {
    var ws := Words(s);
    SumBound(ws);
    hide Words, Sum, Residue, Fold;
    FoldIsResidue(Sum(ws));
  }

  lemma {:induction false} WordsGrow(s: seq<byte>, i: nat)
    requires 2 * i + 1 < |s|
    ensures Words(s)[..i + 1] == Words(s)[..i] + [Be16(s, 2 * i)]
  {
  }

  lemma {:induction false} SumGrows(s: seq<byte>, i: nat)
    requires 2 * i + 1 < |s|
    ensures Sum(Words(s)[..i + 1]) == Sum(Words(s)[..i]) + Be16(s, 2 * i)
  {
    var ws := Words(s);
    WordsGrow(s, i);
    hide Words;
    assert ws[..i + 1][..i] == ws[..i];
  }

  /** The sum when the loop over whole words ends. */
  lemma {:induction false} SumEnds(s: seq<byte>)
    ensures var n := Sum(Words(s)[..|s| / 2]);
            Sum(Words(s)) == if |s| % 2 == 0 then n else n + s[|s| - 1] as int * 256
  {
    var ws := Words(s);
    if |s| % 2 == 0 {
      assert ws[..|s| / 2] == ws;
    } else {
      assert ws[..|ws| - 1] == ws[..|s| / 2];
    }
  }

  lemma {:induction false} AddWrapped(a: nat, w: u16)
    ensures (a % TWO32 + w) % TWO32 == (a + w) % TWO32
  {
  }

  method CalculateChecksum(data: seq<byte>) returns (r: u16)
    ensures r == Value(data)
  {
    hide Words, Sum;
    var sum: u32 := 0;
    var i := 0;
    ghost var ws, k := Words(data), 0;
    EmptySum(ws);
    while i + 1 < |data|
      invariant i == 2 * k <= |data|
      invariant sum == Sum(ws[..k]) % TWO32
    {
      var word := data[i] as int * 256 + data[i + 1] as int;
      SumGrows(data, k);
      AddWrapped(Sum(ws[..k]), word);
      sum := (sum + word) % TWO32;
      i, k := i + 2, k + 1;
    }
    SumEnds(data);
    if |data| % 2 != 0 {
      AddWrapped(Sum(ws[..k]), data[|data| - 1] as int * 256);
      sum := (sum + data[|data| - 1] as int * 256) % TWO32;
    }
    sum := FoldCarries(sum);
    r := 0xFFFF - sum;
  }

  method FoldCarries(n: u32) returns (sum: u32)
    ensures sum == Fold(n) < 0x1_0000
  {
    sum := n;
    while sum / 0x1_0000 != 0
      invariant Fold(sum) == Fold(n)
      decreases sum
    {
      FoldStep(sum);
      sum := sum % 0x1_0000 + sum / 0x1_0000;
    }
  }

  // ----- what the checksum promises -----

  /** The check of a received header: computed over all of it, field included, the result is 0. */
  ghost predicate Checks(s: seq<byte>) {
    Value(s) == 0
  }

  /** A header checks exactly when its words sum to a multiple of 65535 and some byte is not zero. */
  lemma {:induction false} ChecksIff(s: seq<byte>)
    requires |s| <= NO_WRAP
    ensures Checks(s) <==> Sum(Words(s)) % 0xFFFF == 0 && exists i :: 0 <= i < |s| && s[i] != 0
  {
    NoWrap(s);
    ResidueMeaning(Sum(Words(s)));
    SumIsZero(Words(s));
    ZeroWords(s);
  }

  lemma {:induction false} ZeroWords(s: seq<byte>)
    ensures (forall i :: 0 <= i < |Words(s)| ==> Words(s)[i] == 0) <==> forall i :: 0 <= i < |s| ==> s[i] == 0
  {
    if forall i :: 0 <= i < |Words(s)| ==> Words(s)[i] == 0 {
      forall i | 0 <= i < |s| ensures s[i] == 0 {
        assert Words(s)[i / 2] == 0;
      }
    }
  }

  /** The same bytes with 16-bit word `k` replaced. */
  function WithWord(s: seq<byte>, k: nat, w: u16): (r: seq<byte>)
    requires 2 * k + 1 < |s|
    ensures |r| == |s| && Words(r) == Words(s)[k := w]
  {
    var r := s[2 * k := w / 256][2 * k + 1 := w % 256];
    assert forall i :: 0 <= i < |Words(s)| ==> Words(r)[i] == Words(s)[k := w][i];
    r
  }

  /** Storing the checksum of a header in a zeroed field makes the header check. */
  lemma {:induction false} StoredChecksumChecks(s: seq<byte>, k: nat)
    requires |s| <= NO_WRAP && 2 * k + 1 < |s| && Words(s)[k] == 0
    ensures Checks(WithWord(s, k, Value(s)))
  {
    var c := Value(s);
    var r := WithWord(s, k, c);
    NoWrap(s);
    NoWrap(r);
    SumUpdated(Words(s), k, c);
    var n := Sum(Words(s));
    ResidueMeaning(n);
    ResidueMeaning(n + c);
    SumToMultiple(n, c);
  }

  lemma {:induction false} SumToMultiple(n: nat, c: nat)
    requires c == 0xFFFF - Residue(n)
    ensures (n + c) % 0xFFFF == 0 && n + c > 0
  {
    if n > 0 {
      var q := (n - 1) / 0xFFFF;
      assert n + c == (q + 1) * 0xFFFF;
    }
  }

  /** A damaged word goes unnoticed exactly when it is congruent to the right one and the header is not all zero. */
  lemma {:induction false} DamagedWord(s: seq<byte>, k: nat, w: u16)
    requires |s| <= NO_WRAP && 2 * k + 1 < |s| && Checks(s)
    ensures var r := WithWord(s, k, w);
            Checks(r) <==> w % 0xFFFF == Words(s)[k] % 0xFFFF && exists i :: 0 <= i < |r| && r[i] != 0
  {
    var r := WithWord(s, k, w);
    ChecksIff(s);
    ChecksIff(r);
    SumUpdated(Words(s), k, w);
    CongruentExchange(Sum(Words(s)), Words(s)[k], w);
  }

  lemma {:induction false} CongruentExchange(n: nat, previous: u16, w: u16)
    requires n % 0xFFFF == 0 && previous <= n
    ensures (n - previous + w) % 0xFFFF == 0 <==> w % 0xFFFF == previous % 0xFFFF
  {
    var q := n / 0xFFFF;
    assert n == q * 0xFFFF;
  }

  /** The checksum does not depend on the order of the words. */
  lemma {:induction false} OrderOfWords(a: seq<byte>, b: seq<byte>)
    requires multiset(Words(a)) == multiset(Words(b))
    ensures Value(a) == Value(b)
  {
    SumOfPermutation(Words(a), Words(b));
  }

  // ----- the validator -----

  function Field(header: seq<byte>): u16
    requires |header| >= 20
  {
    Be16(header, 10)
  }

  /** What the validator computes: over the first twenty bytes, the checksum field included. */
  function ValidatorValue(header: seq<byte>): u16 {
    if |header| < 20 then 0 else Value(header[..20])
  }

  method CalculateIpv4Checksum(header: seq<byte>) returns (r: u16)
    ensures r == ValidatorValue(header)
    ensures |header| < 20 ==> r == 0
  {
    hide Words, Sum;
    if |header| < 20 {
      return 0;
    }
    var sum := SumTwenty(header[..20]);
    sum := FoldCarries(sum);
    r := 0xFFFF - sum;
  }

  method SumTwenty(h: seq<byte>) returns (sum: u32)
    requires |h| == 20
    ensures sum == Sum(Words(h))
  {
    hide Words, Sum, Be16;
    sum := 0;
    ghost var ws, k := Words(h), 0;
    EmptySum(ws);
    var i := 0;
    while i < 20
      invariant i == 2 * k <= 20
      invariant sum == Sum(ws[..k]) <= 0xFFFF * k
    {
      SumGrows(h, k);
      sum := sum + Be16(h, i);
      i, k := i + 2, k + 1;
    }
    assert ws[..10] == ws;
  }

  /** The test `offset + n <= size` of the program, in 64 bits, is right: when it passes, the bytes are there. */
  predicate InReach(packet: seq<byte>, offset: u64, n: nat) {
    (offset + n) % TWO64 <= |packet| ==> offset + n <= |packet|
  }

  /** It is wrong exactly when the sum wraps around to a size within the packet; the program then reads elsewhere. */
  lemma {:induction false} OutOfReachIff(packet: seq<byte>, offset: u64, n: nat)
    requires n < TWO64
    ensures !InReach(packet, offset, n) <==>
            offset + n >= TWO64 && offset + n - TWO64 <= |packet| && |packet| < offset + n
  {
    if offset + n >= TWO64 { assert (offset + n) % TWO64 == offset + n - TWO64; }
  }

  ghost predicate ValidatorAccepts(packet: seq<byte>, offset: nat) {
    offset + 20 <= |packet| && ValidatorValue(packet[offset..offset + 20]) == Be16(packet, offset + 10)
  }

  method ValidateIpv4Checksum(packet: seq<byte>, offset: u64) returns (ok: bool)
    requires InReach(packet, offset, 20)
    ensures ok <==> ValidatorAccepts(packet, offset)
  {
    if (offset + 20) % TWO64 > |packet| {
      TooFar(packet, offset, 20);
      return false;
    }
    var header := packet[offset..offset + 20];
    var calculated := CalculateIpv4Checksum(header);
    var field := header[10] as int * 256 + header[11] as int;
    ok := calculated == field;
  }

  lemma {:induction false} TooFar(packet: seq<byte>, offset: u64, n: nat)
    requires (offset + n) % TWO64 > |packet|
    ensures offset + n > |packet|
  {
  }

  /** The headers the validator accepts: those whose other words plus twice the field make a positive multiple of 65535,
      with a field below 65535. */
  lemma {:induction false} ValidatorAcceptsIff(packet: seq<byte>, offset: nat)
    requires offset + 20 <= |packet|
    ensures var h := packet[offset..offset + 20];
            ValidatorAccepts(packet, offset) <==>
            Field(h) < 0xFFFF && Sum(Words(h)) > 0 && (Sum(Words(h)) + Field(h)) % 0xFFFF == 0
  {
    var h := packet[offset..offset + 20];
    assert h[..20] == h;
    assert Be16(packet, offset + 10) == Field(h) == Words(h)[5];
    NoWrap(h);
    SumAround(Words(h), 5);
    MeetsField(Sum(Words(h)), Field(h));
  }

  lemma {:induction false} MeetsField(n: nat, c: u16)
    requires n > 0 || c == 0
    ensures 0xFFFF - Residue(n) == c <==> c < 0xFFFF && n > 0 && (n + c) % 0xFFFF == 0
  {
    if n > 0 {
      var q, r := (n - 1) / 0xFFFF, (n - 1) % 0xFFFF;
      assert n + c == q * 0xFFFF + (1 + r + c);
      DropMultiple(1 + r + c, q);
    }
  }

  /** Of the right headers of any length, the validator, which reads twenty bytes, accepts those whose options sum to
      the checksum field mod 65535, with a field below 65535 and something in the first twenty bytes. */
  lemma {:induction false} ValidatorOnRightHeadersIff(packet: seq<byte>, offset: nat, n: nat)
    requires 20 <= n <= NO_WRAP && offset + n <= |packet| && Checks(packet[offset..offset + n])
    ensures var h := packet[offset..offset + 20];
            ValidatorAccepts(packet, offset) <==>
            Field(h) < 0xFFFF && Sum(Words(h)) > 0
            && (Sum(Words(packet[offset + 20..offset + n])) - Field(h)) % 0xFFFF == 0
  {
    hide Words, Sum, ValidatorAccepts, Checks, Field;
    var h, options := packet[offset..offset + 20], packet[offset + 20..offset + n];
    ValidatorAcceptsIff(packet, offset);
    assert packet[offset..offset + n] == h + options;
    RightParts(h, options);
    CongruentRest(Sum(Words(options)), Sum(Words(h)), Field(h));
  }

  lemma {:induction false} RightParts(h: seq<byte>, options: seq<byte>)
    requires |h| % 2 == 0 && |h + options| <= NO_WRAP && Checks(h + options)
    ensures (Sum(Words(options)) + Sum(Words(h))) % 0xFFFF == 0
  {
    hide Words, Sum, Checks;
    ChecksIff(h + options);
    EvenPartsOfWords(h, options);
    SumOfParts(Words(h), Words(options));
  }

  lemma {:induction false} EvenPartsOfWords(a: seq<byte>, b: seq<byte>)
    requires |a| % 2 == 0
    ensures Words(a + b) == Words(a) + Words(b)
  {
  }

  /** From a sum that vanishes mod 65535, a part added on one side may be taken away on the other. */
  lemma {:induction false} CongruentRest(p: nat, s: nat, c: nat)
    requires (p + s) % 0xFFFF == 0
    ensures (s + c) % 0xFFFF == 0 <==> (p - c) % 0xFFFF == 0
  {
    var q := (p + s) / 0xFFFF;
    assert p + s == q * 0xFFFF;
    if (s + c) % 0xFFFF == 0 {
      var j := (s + c) / 0xFFFF;
      assert p - c == (q - j) * 0xFFFF;
      MultipleVanishes(q - j);
    }
    if (p - c) % 0xFFFF == 0 {
      var j := (p - c) / 0xFFFF;
      assert s + c == (q - j) * 0xFFFF;
      MultipleVanishes(q - j);
    }
  }

  lemma {:induction false} MultipleVanishes(k: int)
    ensures (k * 0xFFFF) % 0xFFFF == 0
  {
  }

  /** Of the right headers without options, only those whose checksum field is 0. */
  lemma {:induction false} ValidatorOnRightHeaders(packet: seq<byte>, offset: nat)
    requires offset + 20 <= |packet| && Checks(packet[offset..offset + 20])
    ensures ValidatorAccepts(packet, offset) <==> Be16(packet, offset + 10) == 0
  {
    var h := packet[offset..offset + 20];
    ValidatorOnRightHeadersIff(packet, offset, 20);
    assert packet[offset + 20..offset + 20] == [] && Words([]) == [];
    ChecksIff(h);
    assert Be16(packet, offset + 10) == Field(h);
    NotZero(h);
    hide Words, ValidatorAccepts, Checks;
    SmallMultiple(Field(h));
  }

  lemma {:induction false} NotZero(h: seq<byte>)
    requires exists i :: 0 <= i < |h| && h[i] != 0
    ensures Sum(Words(h)) > 0
  {
    SumIsZero(Words(h));
    ZeroWords(h);
  }

  lemma {:induction false} SmallMultiple(c: u16)
    ensures c < 0xFFFF && (0 - c) % 0xFFFF == 0 <==> c == 0
  {
  }

  lemma {:induction false} SumOfZeros(n: nat)
    ensures Sum(Words(Zeros(n))) == 0
    ensures forall i :: 0 <= i < |Words(Zeros(n))| ==> Words(Zeros(n))[i] == 0
  {
    SumIsZero(Words(Zeros(n)));
  }

  lemma {:induction false} OneWordValue(n: nat, k: nat, w: u16)
    requires n <= NO_WRAP && 2 * k + 1 < n
    ensures Value(WithWord(Zeros(n), k, w)) == 0xFFFF - Residue(w)
  {
    hide Words, WithWord, Residue;
    SumOfZeros(n);
    SumUpdated(Words(Zeros(n)), k, w);
    NoWrap(WithWord(Zeros(n), k, w));
  }

  lemma {:induction false} WrittenTwice(n: nat, k: nat, w: u16, j: nat, v: u16)
    requires 2 * k + 1 < n && 2 * j + 1 < n && k != j
    ensures WithWord(WithWord(Zeros(n), k, w), j, v) ==
            Zeros(n)[2 * k := w / 256][2 * k + 1 := w % 256][2 * j := v / 256][2 * j + 1 := v % 256]
  {
    hide Words;
  }

  /** 45 00 ... with the right checksum BA FF: a right header that the validator refuses. */
  lemma {:induction false} RightHeaderRefused()
    ensures var h := Zeros(20)[0 := 0x45][1 := 0][10 := 0xBA][11 := 0xFF];
            Checks(h) && !ValidatorAccepts(h, 0)
  {
    hide Words, WithWord, Checks, ValidatorAccepts, Zeros;
    WrittenTwice(20, 0, 0x4500, 5, 0xBAFF);
    RightAndRefused();
  }

  lemma {:induction false} RightAndRefused()
    ensures var h := WithWord(WithWord(Zeros(20), 0, 0x4500), 5, 0xBAFF); Checks(h) && !ValidatorAccepts(h, 0)
  {
    hide Words, WithWord, Value, Checks, ValidatorAccepts, Zeros;
    var blank := WithWord(Zeros(20), 0, 0x4500);
    OneWordValue(20, 0, 0x4500);
    assert Value(blank) == 0xBAFF;
    BlankField();
    StoredChecksumChecks(blank, 5);
    var h := WithWord(blank, 5, 0xBAFF);
    assert h[0..20] == h;
    ValidatorOnRightHeaders(h, 0);
    WordIsField(h);
  }

  lemma {:induction false} WordIsField(h: seq<byte>)
    requires |h| >= 12
    ensures Words(h)[5] == Be16(h, 10)
  {
  }

  lemma {:induction false} BlankField()
    ensures Words(WithWord(Zeros(20), 0, 0x4500))[5] == 0
  {
    hide WithWord;
  }

  // ----- the same in plain numbers -----

  /** Bytes at even places count 256 times as much as those at odd ones. */
  function ByteSum(s: seq<byte>): nat {
    if s == [] then 0
    else ByteSum(s[..|s| - 1]) + s[|s| - 1] as int * if |s| % 2 == 1 then 256 else 1
  }

  lemma {:induction false} WordsOfFront(s: seq<byte>)
    requires s != []
    ensures var front, n := s[..|s| - 1], |Words(s)|;
            && (|s| % 2 == 1 ==> Words(s) == Words(front) + [s[|s| - 1] as int * 256])
            && (|s| % 2 == 0 ==> Words(front) == Words(s)[..n - 1] + [s[|s| - 2] as int * 256]
                                 && Words(s)[n - 1] == s[|s| - 2] as int * 256 + s[|s| - 1] as int)
  {
  }

  lemma {:induction false} WordsSumBytes(s: seq<byte>)
    ensures Sum(Words(s)) == ByteSum(s)
  {
    if s != [] {
      var front, ws := s[..|s| - 1], Words(s);
      WordsSumBytes(front);
      WordsOfFront(s);
      hide Words;
      if |s| % 2 == 1 {
        assert ws[..|ws| - 1] == Words(front);
      } else {
        var w := s[|s| - 2] as int * 256;
        SumOfParts(ws[..|ws| - 1], [w]);
        assert Sum([w]) == w by { assert [w][..0] == []; }
      }
    }
  }

  /** The value for any bytes at all, from the sum of its bytes as 32 bits keep it. */
  lemma {:induction false} ValueIs(s: seq<byte>)
    ensures var n := ByteSum(s) % 4294967296; Value(s) == if n == 0 then 65535 else 65534 - (n - 1) % 65535
  {
    WordsSumBytes(s);
    hide Words, Sum, Fold;
    FoldIsResidue(ByteSum(s) % TWO32);
  }

  /** What the validator accepts, from the twenty bytes alone. */
  lemma {:induction false} ValidatorIs(packet: seq<byte>, offset: nat)
    ensures ValidatorAccepts(packet, offset) <==>
            && offset + 20 <= |packet|
            && var n, c := ByteSum(packet[offset..offset + 20]), packet[offset + 10] as int * 256 + packet[offset + 11] as int;
               c < 65535 && n > 0 && (n + c) % 65535 == 0
  {
    if offset + 20 <= |packet| {
      ValidatorAcceptsIff(packet, offset);
      WordsSumBytes(packet[offset..offset + 20]);
      hide Words, Sum, ByteSum, ValidatorAccepts;
    }
  }
}
