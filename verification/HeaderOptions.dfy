/** The option areas of IPv4 headers (section 3.1 of RFC 791) and TCP headers (section 3.1 of RFC 9293), and the two
    parsers that read them. */
module HeaderOptions {
  import opened Bytes

  const END_OF_LIST: byte := 0
  const NO_OPERATION: byte := 1

  datatype Item = Item(kind: byte, data: seq<byte>)

  datatype Parsed = Parsed(items: seq<Item>, consumed: nat, malformed: bool)
  {
    function After(items: seq<Item>, n: nat): Parsed {
      Parsed(items + this.items, n + consumed, malformed)
    }
  }

  // ----- the format -----

  function Encode(i: Item): seq<byte> {
    if i.kind <= NO_OPERATION then [i.kind] else [i.kind, (|i.data| + 2) % 256] + i.data
  }

  function EncodeAll(items: seq<Item>): seq<byte> {
    if items == [] then [] else Encode(items[0]) + EncodeAll(items[1..])
  }

  /** A truncated or badly sized option at the front. */
  predicate BadFront(s: seq<byte>) {
    s != [] && s[0] > NO_OPERATION && (|s| == 1 || s[1] < 2 || s[1] as int > |s|)
  }

  /** What the format admits: one-byte options carry no data, the end mark comes last, a length fits its byte. */
  ghost predicate Proper(items: seq<Item>) {
    forall k :: 0 <= k < |items| ==>
      && |items[k].data| <= 253
      && (items[k].kind <= NO_OPERATION ==> items[k].data == [])
      && (items[k].kind == END_OF_LIST ==> k == |items| - 1)
  }

  ghost predicate Closed(items: seq<Item>) {
    items != [] && items[|items| - 1].kind == END_OF_LIST
  }

  function OnlySized(items: seq<Item>): seq<Item> {
    if items == [] then []
    else (if items[0].kind > NO_OPERATION then [items[0]] else []) + OnlySized(items[1..])
  }

  // ----- one reading of the bytes -----

  /** The length and the option at a front that is neither an end mark nor bad. */
  function FrontLength(s: seq<byte>): (n: nat)
    requires s != [] && s[0] != END_OF_LIST && !BadFront(s)
    ensures 0 < n <= |s|
  {
    if s[0] == NO_OPERATION then 1 else s[1]
  }

  function FrontItem(s: seq<byte>): Item
    requires s != [] && s[0] != END_OF_LIST && !BadFront(s)
  {
    if s[0] == NO_OPERATION then Item(NO_OPERATION, []) else Item(s[0], s[2..s[1]])
  }

  function Parse(s: seq<byte>): (p: Parsed)
    decreases |s|
  {
    if s == [] then Parsed([], 0, false)
    else if s[0] == END_OF_LIST then Parsed([Item(END_OF_LIST, [])], 1, false)
    else if BadFront(s) then Parsed([], 0, true)
    else Parse(s[FrontLength(s)..]).After([FrontItem(s)], FrontLength(s))
  }

  lemma {:induction false} FrontEncodes(s: seq<byte>)
    requires s != [] && s[0] != END_OF_LIST && !BadFront(s)
    ensures Encode(FrontItem(s)) == s[..FrontLength(s)]
    ensures FrontItem(s).kind == s[0] && |FrontItem(s).data| <= 253
    ensures s[0] == NO_OPERATION ==> FrontItem(s).data == []
  {
  }

  /** What follows a well-formed option at the front, seen from the encoding. */
  lemma {:induction false} EncodedFront(i: Item, rest: seq<byte>)
    requires i.kind != END_OF_LIST && |i.data| <= 253 && (i.kind == NO_OPERATION ==> i.data == [])
    ensures var s := Encode(i) + rest;
            && s != [] && s[0] != END_OF_LIST && !BadFront(s)
            && FrontLength(s) == |Encode(i)| && FrontItem(s) == i && s[FrontLength(s)..] == rest
  {
    var s := Encode(i) + rest;
    if i.kind > NO_OPERATION {
      assert s[1] as int == |i.data| + 2;
      assert s[2..s[1]] == i.data;
    }
  }

  /** Where the parser came to a halt, and whether it calls that malformed. */
  ghost predicate Halted(p: Parsed, s: seq<byte>) {
    && p.consumed <= |s|
    && (p.malformed <==> !Closed(p.items) && BadFront(s[p.consumed..]))
    && (!p.malformed <==> Closed(p.items) || p.consumed == |s|)
  }

  /** Writing the parsed options again gives exactly the consumed prefix; what stopped the parser is the end, an end
      mark, or a truncated or badly sized option, and only the last is called malformed. */
  lemma {:induction false} ReencodesPrefix(s: seq<byte>)
    ensures var p := Parse(s);
            && p.consumed <= |s|
            && Proper(p.items)
            && EncodeAll(p.items) == s[..p.consumed]
            && Halted(p, s)
    decreases |s|
  {
    hide Encode, EncodeAll, Proper, Closed;
    NothingIsProper();
    if s != [] && s[0] == END_OF_LIST {
      PrependProper(Item(END_OF_LIST, []), []);
      assert [Item(END_OF_LIST, [])] + [] == [Item(END_OF_LIST, [])];
      EndEncodes();
    } else if s != [] && !BadFront(s) {
      var n, i := FrontLength(s), FrontItem(s);
      var q := Parse(s[n..]);
      ReencodesPrefix(s[n..]);
      FrontEncodes(s);
      hide FrontItem, BadFront;
      PrependProper(i, q.items);
      assert s[..n] + s[n..][..q.consumed] == s[..n + q.consumed];
      assert s[n..][q.consumed..] == s[n + q.consumed..];
    }
  }

  lemma {:induction false} EndEncodes()
    ensures Encode(Item(END_OF_LIST, [])) == [END_OF_LIST]
  {
  }

  lemma {:induction false} NothingIsProper()
    ensures Proper([]) && !Closed([]) && EncodeAll([]) == []
  {
  }

  lemma {:induction false} PrependProper(i: Item, items: seq<Item>)
    requires Proper(items) && |i.data| <= 253
    requires i.kind <= NO_OPERATION ==> i.data == []
    requires i.kind == END_OF_LIST ==> items == []
    ensures Proper([i] + items)
    ensures Closed([i] + items) <==> i.kind == END_OF_LIST || Closed(items)
    ensures EncodeAll([i] + items) == Encode(i) + EncodeAll(items)
  {
    hide Encode;
    assert ([i] + items)[1..] == items;
  }

  /** Parsing what was written gives it back: the whole of the bytes, or everything up to the end mark. */
  lemma {:induction false} RoundTrip(items: seq<Item>, rest: seq<byte>)
    requires Proper(items) && (rest == [] || Closed(items))
    ensures Parse(EncodeAll(items) + rest) == Parsed(items, |EncodeAll(items)|, false)
    decreases |items|
  {
    hide Encode, BadFront;
    if items == [] {
      assert EncodeAll(items) + rest == [];
    } else {
      var i, tail := items[0], items[1..];
      var after := EncodeAll(tail) + rest;
      Associates(Encode(i), EncodeAll(tail), rest);
      assert [i] + tail == items;
      if i.kind != END_OF_LIST {
        assert forall k :: 0 <= k < |tail| ==> tail[k] == items[k + 1];
        RoundTrip(tail, rest);
        EncodedFront(i, after);
      } else {
        EndEncodes();
        assert tail == [] && i == Item(END_OF_LIST, []);
      }
    }
  }

  lemma {:induction false} Associates(a: seq<byte>, b: seq<byte>, c: seq<byte>)
    ensures (a + b) + c == a + (b + c)
  {
  }

  // ----- the two parsers -----

  /** The front of `raw[i..]` in terms of `raw`. */
  lemma {:induction false} FrontAt(raw: seq<byte>, i: nat)
    requires i < |raw| && raw[i] != END_OF_LIST
    ensures BadFront(raw[i..]) <==>
            raw[i] > NO_OPERATION && (i + 1 >= |raw| || raw[i + 1] < 2 || i + raw[i + 1] as int > |raw|)
    ensures !BadFront(raw[i..]) ==>
              var n := FrontLength(raw[i..]);
              && n == (if raw[i] == NO_OPERATION then 1 else raw[i + 1])
              && FrontItem(raw[i..]) == Item(raw[i], if n == 1 then [] else raw[i + 2..i + n])
              && raw[i..][n..] == raw[i + n..]
  {
    if !BadFront(raw[i..]) {
      var n := FrontLength(raw[i..]);
      assert raw[i..][n..] == raw[i + n..];
      if n > 1 { assert raw[i..][2..n] == raw[i + 2..i + n]; }
    }
  }

  /** One round of the parsers: stop with `p`, or take an option and go on behind it. */
  lemma {:induction false} ParseAt(raw: seq<byte>, i: nat)
    requires i < |raw|
    ensures raw[i] == END_OF_LIST ==> Parse(raw[i..]) == Parsed([Item(END_OF_LIST, [])], 1, false)
    ensures raw[i] != END_OF_LIST && BadFront(raw[i..]) ==> Parse(raw[i..]) == Parsed([], 0, true)
    ensures raw[i] != END_OF_LIST && !BadFront(raw[i..]) ==>
              var n := FrontLength(raw[i..]); Parse(raw[i..]) == Parse(raw[i + n..]).After([FrontItem(raw[i..])], n)
  {
    if raw[i] != END_OF_LIST {
      FrontAt(raw, i);
      hide BadFront, FrontItem;
    }
  }

  /** Taking the option `item` of `n` bytes at `i`: it goes behind those found before, and the verdict is decided later. */
  ghost predicate Takes(raw: seq<byte>, i: nat, options: seq<Item>, item: Item, n: nat)
    requires i + n <= |raw|
  {
    && options + Parse(raw[i..]).items == (options + [item]) + Parse(raw[i + n..]).items
    && Parse(raw[i..]).malformed == Parse(raw[i + n..]).malformed
  }

  lemma {:induction false} ItemsAt(raw: seq<byte>, i: nat, options: seq<Item>)
    requires i < |raw| && raw[i] != END_OF_LIST && !BadFront(raw[i..])
    ensures i + FrontLength(raw[i..]) <= |raw|
    ensures Takes(raw, i, options, FrontItem(raw[i..]), FrontLength(raw[i..]))
  {
    ParseAt(raw, i);
    hide Parse, BadFront, FrontItem;
  }

  lemma {:induction false} OneByteAt(raw: seq<byte>, i: nat, options: seq<Item>)
    requires i < |raw| && raw[i] == NO_OPERATION
    ensures Takes(raw, i, options, Item(NO_OPERATION, []), 1)
  {
    FrontAt(raw, i);
    hide Parse, BadFront, FrontItem, FrontLength, Takes;
    ItemsAt(raw, i, options);
  }

  lemma {:induction false} SizedAt(raw: seq<byte>, i: nat, options: seq<Item>)
    requires i + 1 < |raw| && raw[i] > NO_OPERATION && raw[i + 1] >= 2 && i + raw[i + 1] as int <= |raw|
    ensures Takes(raw, i, options, Item(raw[i], raw[i + 2..i + raw[i + 1] as int]), raw[i + 1])
  {
    FrontAt(raw, i);
    hide Parse, BadFront, FrontItem, FrontLength, Takes;
    ItemsAt(raw, i, options);
  }

  lemma {:induction false} StopAt(raw: seq<byte>, i: nat)
    requires i < |raw|
    ensures raw[i] == END_OF_LIST ==> Parse(raw[i..]) == Parsed([Item(END_OF_LIST, [])], 1, false)
    ensures raw[i] > NO_OPERATION && (i + 1 >= |raw| || raw[i + 1] < 2 || i + raw[i + 1] as int > |raw|) ==>
              Parse(raw[i..]) == Parsed([], 0, true)
  {
    ParseAt(raw, i);
    if raw[i] != END_OF_LIST { FrontAt(raw, i); }
    hide Parse, BadFront, FrontItem, FrontLength;
  }

  method ParseIpv4Options(raw: seq<byte>) returns (options: seq<Item>, malformed: bool)
    ensures options == Parse(raw).items && malformed == Parse(raw).malformed
  {
    hide Parse;
    options, malformed := [], false;
    var i := 0;
    assert raw[0..] == raw;
    while i < |raw|
      invariant i <= |raw|
      invariant Parse(raw).items == options + Parse(raw[i..]).items
      invariant Parse(raw).malformed == Parse(raw[i..]).malformed
    {
      var kind := raw[i];
      StopAt(raw, i);
      if kind == END_OF_LIST {
        options := options + [Item(kind, [])];
        return;
      } else if kind == NO_OPERATION {
        OneByteAt(raw, i, options);
        options := options + [Item(kind, [])];
        i := i + 1;
      } else {
        if i + 1 >= |raw| {
          malformed := true;
          return;
        }
        var length := raw[i + 1];
        if length < 2 || i + length > |raw| {
          malformed := true;
          return;
        }
        SizedAt(raw, i, options);
        options := options + [Item(kind, raw[i + 2..i + length])];
        i := i + length;
      }
    }
    NothingLeft(raw, i);
  }

  lemma {:induction false} NothingLeft(raw: seq<byte>, i: nat)
    requires i == |raw|
    ensures Parse(raw[i..]) == Parsed([], 0, false)
  {
  }

  /** The TCP parser keeps the options that carry a length and says nothing of malformed ones. */
  method ParseTcpOptions(raw: seq<byte>) returns (options: seq<Item>)
    ensures options == OnlySized(Parse(raw).items)
  {
    hide Parse, BadFront, FrontItem, FrontLength, OnlySized;
    options := [];
    var offset := 0;
    assert raw[0..] == raw;
    OnlySizedFront(Item(END_OF_LIST, []), []);
    assert [Item(END_OF_LIST, [])] + [] == [Item(END_OF_LIST, [])];
    OnlySizedOfNone();
    while offset < |raw|
      invariant offset <= |raw|
      invariant OnlySized(Parse(raw).items) == options + OnlySized(Parse(raw[offset..]).items)
    {
      var kind := raw[offset];
      ParseAt(raw, offset);
      if kind == END_OF_LIST {
        return;
      }
      FrontAt(raw, offset);
      if kind == NO_OPERATION {
        OnlySizedFront(Item(kind, []), Parse(raw[offset + 1..]).items);
        offset := offset + 1;
        continue;
      }
      if offset + 1 >= |raw| {
        return;
      }
      var length := raw[offset + 1];
      if length < 2 || offset + length > |raw| {
        return;
      }
      var item := Item(kind, raw[offset + 2..offset + length]);
      OnlySizedFront(item, Parse(raw[offset + length..]).items);
      options := options + [item];
      offset := offset + length;
    }
    NothingLeft(raw, offset);
  }

  lemma {:induction false} OnlySizedOfNone()
    ensures OnlySized([]) == []
  {
  }

  lemma {:induction false} OnlySizedFront(i: Item, items: seq<Item>)
    ensures OnlySized([i] + items) == (if i.kind > NO_OPERATION then [i] else []) + OnlySized(items)
  {
    assert ([i] + items)[1..] == items;
  }

  /** What the TCP parser keeps of the common reading: every option but NOP and end of list, in order. */
  lemma {:induction false} OnlySizedIsFilter(items: seq<Item>)
    ensures forall i :: i in OnlySized(items) <==> i in items && i.kind > NO_OPERATION
    ensures forall k :: 0 <= k < |items| ==> OnlySized(items) == OnlySized(items[..k]) + OnlySized(items[k..])
  {
    forall k | 0 <= k < |items|
      ensures OnlySized(items) == OnlySized(items[..k]) + OnlySized(items[k..])
    {
      OnlySizedParts(items[..k], items[k..]);
      assert items[..k] + items[k..] == items;
    }
    if items != [] {
      OnlySizedIsFilter(items[1..]);
    }
  }

  lemma {:induction false} OnlySizedParts(a: seq<Item>, b: seq<Item>)
    ensures OnlySized(a + b) == OnlySized(a) + OnlySized(b)
  {
    hide OnlySized;
    if a == [] {
      assert a + b == b;
      OnlySizedOfNone();
    } else {
      var first, tail := a[0], a[1..];
      OnlySizedParts(tail, b);
      OnlySizedFront(first, tail);
      OnlySizedFront(first, tail + b);
      assert [first] + tail == a && [first] + (tail + b) == a + b;
      Together(if first.kind > NO_OPERATION then [first] else [], OnlySized(tail), OnlySized(b));
    }
  }

  lemma {:induction false} Together(a: seq<Item>, b: seq<Item>, c: seq<Item>)
    ensures (a + b) + c == a + (b + c)
  {
  }

  // ----- the same in plain numbers -----

  /** Kinds 0 and 1 are single bytes; any other has a length that counts its kind and itself. */
  lemma {:induction false} EncodeIs(kind: byte, data: seq<byte>)
    requires |data| <= 253
    ensures Encode(Item(kind, data)) == if kind <= 1 then [kind] else [kind, |data| + 2] + data
  {
  }

  /** A reading by its first byte, for any bytes at all. */
  lemma {:induction false} ParseByFirst(s: seq<byte>)
    ensures var p := Parse(s);
            if s == [] then p == Parsed([], 0, false)
            else if s[0] == 0 then p == Parsed([Item(0, [])], 1, false)
            else if s[0] == 1 then
              var q := Parse(s[1..]); p == Parsed([Item(1, [])] + q.items, 1 + q.consumed, q.malformed)
            else if |s| == 1 || s[1] < 2 || s[1] as int > |s| then p == Parsed([], 0, true)
            else
              var n: nat, q := s[1], Parse(s[s[1]..]);
              p == Parsed([Item(s[0], s[2..n])] + q.items, n + q.consumed, q.malformed)
  {
  }
}
