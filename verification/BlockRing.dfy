/** The block ring (TPACKET_V3): kernel fill steps interleaved with the steps of `next_packet_v3`. */
module BlockRing {
  import opened Bytes
  import opened Packets
  import opened RingOrder

  /** A packet header in a block, with the bytes it points at; `tp_snaplen` is the number of bytes. */
  datatype Header = Header(data: seq<byte>, mac: nat, next: nat, sec: nat, nsec: nat)

  const ZERO_HEADER := Header([], 0, 0, 0, 0)

  /** A block: packet count, offset of the first header and the headers by offset. */
  datatype Block = Block(numPkts: nat, first: nat, at: map<nat, Header>)
  {
    function At(off: nat): Header {
      if off in at then at[off] else ZERO_HEADER
    }
  }

  predicate Bad(blockSize: nat, h: Header) {
    |h.data| == 0 || |h.data| > blockSize || h.mac == 0
  }

  function PacketOf(h: Header): Packet {
    Packet(h.data, FromUnix(h.sec, h.nsec))
  }

  // ----- what a block holds -----

  /** The packets handed out when `n` headers are left and the next one is at `off`. */
  function Rest(blockSize: nat, b: Block, off: nat, n: nat): seq<Packet>
    decreases n
  {
    var h := b.At(off);
    if n == 0 || Bad(blockSize, h) then []
    else [PacketOf(h)] + if n > 1 && h.next != 0 then Rest(blockSize, b, off + h.next, n - 1) else []
  }

  function Contents(blockSize: nat, b: Block): seq<Packet> {
    Rest(blockSize, b, b.first, b.numPkts)
  }

  function Total(blockSize: nat, bs: seq<Block>): seq<Packet> {
    if bs == [] then [] else Total(blockSize, bs[..|bs| - 1]) + Contents(blockSize, bs[|bs| - 1])
  }

  /** The headers reached by following the chain, whether usable or not. */
  function Chain(b: Block, off: nat, n: nat): seq<Header>
    decreases n
  {
    if n == 0 then []
    else [b.At(off)] + if n > 1 && b.At(off).next != 0 then Chain(b, off + b.At(off).next, n - 1) else []
  }

  function PacketsOf(hs: seq<Header>): seq<Packet> {
    if hs == [] then [] else [PacketOf(hs[0])] + PacketsOf(hs[1..])
  }

  /** A block whose chain reaches all its packets and whose headers are all usable. */
  ghost predicate WellFormed(blockSize: nat, b: Block) {
    && |Chain(b, b.first, b.numPkts)| == b.numPkts
    && forall h :: h in Chain(b, b.first, b.numPkts) ==> !Bad(blockSize, h)
  }

  /** The headers before the first bad one. */
  function GoodPrefix(blockSize: nat, hs: seq<Header>): (r: seq<Header>)
    ensures r <= hs
    ensures forall i :: 0 <= i < |r| ==> !Bad(blockSize, r[i])
    ensures |r| < |hs| ==> Bad(blockSize, hs[|r|])
  {
    if hs == [] || Bad(blockSize, hs[0]) then [] else [hs[0]] + GoodPrefix(blockSize, hs[1..])
  }

  /** Whether the chain goes on behind a header when `n` are left. */
  predicate GoesOn(h: Header, n: nat) {
    n > 1 && h.next != 0
  }

  lemma {:induction false} OneHeader(blockSize: nat, b: Block, off: nat, n: nat)
    requires n > 0
    ensures var h := b.At(off);
            && Chain(b, off, n) == [h] + (if GoesOn(h, n) then Chain(b, off + h.next, n - 1) else [])
            && Rest(blockSize, b, off, n) ==
               if Bad(blockSize, h) then []
               else [PacketOf(h)] + if GoesOn(h, n) then Rest(blockSize, b, off + h.next, n - 1) else []
  {
    hide Bad, PacketOf;
  }

  /** Any block hands out the prefix of its chain before the first bad header, in order and nothing else. */
  lemma {:induction false} RestIsGoodPrefix(blockSize: nat, b: Block, off: nat, n: nat)
    ensures Rest(blockSize, b, off, n) == PacketsOf(GoodPrefix(blockSize, Chain(b, off, n)))
    decreases n
  {
    hide Rest, Chain, GoesOn, Bad, PacketsOf, GoodPrefix, PacketOf, Block.At;
    NothingToHandOut(blockSize, b, off);
    if n > 0 {
      var h := b.At(off);
      var tail := if GoesOn(h, n) then Chain(b, off + h.next, n - 1) else [];
      OneHeader(blockSize, b, off, n);
      GoodCons(blockSize, h, tail);
      PacketsCons(h, GoodPrefix(blockSize, tail));
      if GoesOn(h, n) { RestIsGoodPrefix(blockSize, b, off + h.next, n - 1); }
      var rest := if GoesOn(h, n) then Rest(blockSize, b, off + h.next, n - 1) else [];
      assert rest == PacketsOf(GoodPrefix(blockSize, tail));
    }
  }

  lemma {:induction false} NothingToHandOut(blockSize: nat, b: Block, off: nat)
    ensures Rest(blockSize, b, off, 0) == [] && Chain(b, off, 0) == []
    ensures GoodPrefix(blockSize, []) == [] && PacketsOf([]) == []
  {
  }

  lemma {:induction false} GoodCons(blockSize: nat, h: Header, t: seq<Header>)
    ensures GoodPrefix(blockSize, [h] + t) == if Bad(blockSize, h) then [] else [h] + GoodPrefix(blockSize, t)
  {
    assert ([h] + t)[1..] == t;
  }

  lemma {:induction false} PacketsCons(h: Header, t: seq<Header>)
    ensures PacketsOf([h] + t) == [PacketOf(h)] + PacketsOf(t)
  {
    assert ([h] + t)[1..] == t;
  }

  /** A well-formed block hands out all its packets. */
  lemma {:induction false} WellFormedHandsOutAll(blockSize: nat, b: Block)
    requires WellFormed(blockSize, b)
    ensures |Contents(blockSize, b)| == b.numPkts
    ensures Contents(blockSize, b) == PacketsOf(Chain(b, b.first, b.numPkts))
  {
    RestIsGoodPrefix(blockSize, b, b.first, b.numPkts);
    var hs := Chain(b, b.first, b.numPkts);
    assert forall i :: 0 <= i < |hs| ==> hs[i] in hs;
    assert GoodPrefix(blockSize, hs) == hs;
    PacketsLength(hs);
  }

  lemma {:induction false} PacketsLength(hs: seq<Header>)
    ensures |PacketsOf(hs)| == |hs|
  {
    if hs != [] { PacketsLength(hs[1..]); }
  }

  lemma {:induction false} TotalSplits(blockSize: nat, a: seq<Block>, b: seq<Block>)
    ensures Total(blockSize, a + b) == Total(blockSize, a) + Total(blockSize, b)
  {
    hide Contents;
    if b == [] {
      assert a + b == a;
    } else {
      var b1 := b[..|b| - 1];
      assert (a + b)[..|a + b| - 1] == a + b1 && (a + b)[|a + b| - 1] == b[|b| - 1];
      TotalSplits(blockSize, a, b1);
    }
  }

  // ----- the two-sided step system -----

  /** Where the consumer stands inside `next_packet_v3`. */
  datatype Pc =
    | Idle                    // between calls
    | Check                   // about to read the status of the current block
    | Polling                 // waiting in poll
    | Recheck                 // poll reported data, about to read the status again
    | Ready                   // the status said the block is ours
    | Extract                 // about to copy the packet under the cursor
    | Release(again: bool)    // about to hand the block back, then retry or return

  datatype Sys = Sys(
    blockSize: nat,
    blocks: seq<Block>, user: seq<bool>,               // shared memory
    fill: nat,                                         // kernel side
    cur: nat, remaining: nat, pos: nat, pc: Pc,        // consumer side
    packets: nat, bytes: nat,                          // statistics
    owned: nat, produced: seq<Block>, delivered: seq<Packet>)  // history

  datatype Action =
    | Fill(b: Block)          // the kernel hands over a block, at any moment
    | Begin                   // the consumer enters next_packet_v3
    | Poll(ready: bool)       // poll returns
    | Advance                 // the consumer takes its next step

  ghost predicate Enabled(s: Sys, a: Action)
    requires Shape(s)
  {
    match a
    case Fill(_) => !s.user[s.fill]
    case Begin => s.pc.Idle?
    case Poll(_) => s.pc.Polling?
    case Advance => !s.pc.Idle? && !s.pc.Polling?
  }

  ghost predicate Shape(s: Sys) {
    |s.blocks| == |s.user| && s.cur < |s.user| && s.fill < |s.user|
  }

  function Apply(s: Sys, a: Action): Sys
    requires Shape(s)
  {
    match a
    case Fill(b) =>
      s.(blocks := s.blocks[s.fill := b], user := s.user[s.fill := true], fill := Succ(|s.user|, s.fill),
      owned := s.owned + 1, produced := s.produced + [b])
    case Begin => s.(pc := if s.remaining == 0 then Check else Extract)
    case Poll(ready) => s.(pc := if ready then Recheck else Idle)
    case Advance => Advanced(s)
  }

  function Advanced(s: Sys): Sys
    requires Shape(s)
  {
    match s.pc
    case Idle => s
    case Polling => s
    case Check => s.(pc := if s.user[s.cur] then Ready else Polling)
    case Recheck => s.(pc := if s.user[s.cur] then Ready else Idle)
    case Ready =>
      var b := s.blocks[s.cur];
      if b.numPkts == 0 then s.(pc := Release(true))
      else s.(remaining := b.numPkts, pos := b.first, pc := Extract)
    case Extract =>
      var h := s.blocks[s.cur].At(s.pos);
      if Bad(s.blockSize, h) then s.(pc := Release(false))
      else if s.remaining > 1 && h.next != 0
      then Copied(s, h).(remaining := s.remaining - 1, pos := s.pos + h.next, pc := Idle)
      else Copied(s, h).(pc := Release(false))
    case Release(again) =>
      s.(user := s.user[s.cur := false], cur := Succ(|s.user|, s.cur), remaining := 0,
      pc := if again then Check else Idle, owned := if s.owned == 0 then 0 else s.owned - 1)
  }

  function Copied(s: Sys, h: Header): Sys {
    s.(packets := (s.packets + 1) % TWO64, bytes := (s.bytes + |h.data|) % TWO64,
    delivered := s.delivered + [PacketOf(h)])
  }

  /** The ring as it is created: every block belongs to the kernel. */
  ghost predicate Init(s: Sys) {
    && Shape(s)
    && (forall i :: 0 <= i < |s.user| ==> !s.user[i])
    && s.fill == s.cur == 0 && s.remaining == 0 && s.pc == Idle
    && s.packets == s.bytes == 0 && s.owned == 0 && s.produced == [] && s.delivered == []
  }

  /** What the block at the cursor has still to hand out. */
  function CurrentRest(s: Sys): seq<Packet>
    requires Shape(s)
  {
    if s.pc.Release? then []
    else if s.remaining > 0 then Rest(s.blockSize, s.blocks[s.cur], s.pos, s.remaining)
    else Contents(s.blockSize, s.blocks[s.cur])
  }

  /** The blocks in user hands, oldest first. */
  ghost function Held(s: Sys): seq<Block>
    requires s.owned <= |s.produced|
  {
    s.produced[|s.produced| - s.owned..]
  }

  /** The packets still to be handed out: the rest of the current block, then the other held blocks. */
  ghost function Pending(s: Sys): seq<Packet>
    requires Shape(s) && s.owned <= |s.produced|
  {
    if s.owned == 0 then [] else CurrentRest(s) + Total(s.blockSize, Held(s)[1..])
  }

  ghost function AsQueue(s: Sys): Queue
    requires Shape(s) && s.owned <= |s.produced|
  {
    Queue(s.delivered, Pending(s))
  }

  /** Who owns what. */
  ghost predicate Ownership(s: Sys) {
    OwnsLatest(s.blocks, s.user, s.cur, s.fill, s.owned, s.produced)
  }

  /** The blocks in user hands are the latest ones produced, in ring order. */
  ghost predicate OwnsLatest(blocks: seq<Block>, user: seq<bool>, cur: nat, fill: nat, owned: nat, produced: seq<Block>) {
    && |blocks| == |user|
    && Owns(user, cur, fill, owned)
    && owned <= |produced|
    && OwnedSlots(blocks, cur, owned) == produced[|produced| - owned..]
  }

  /** Where the consumer may stand. */
  ghost predicate Control(s: Sys)
    requires Shape(s)
  {
    // it works only on a block handed over to it
    && (s.pc.Ready? || s.pc.Extract? || s.pc.Release? || s.remaining > 0 ==> s.user[s.cur])
    && (s.pc.Check? || s.pc.Polling? || s.pc.Recheck? || s.pc.Ready? ==> s.remaining == 0)
    && (s.pc.Extract? ==> s.remaining > 0)
  }

  /** What was delivered, with the rest of the current block, is everything up to that block. */
  ghost predicate Drained(s: Sys)
    requires Shape(s) && s.owned <= |s.produced|
  {
    if s.owned == 0 then s.delivered == Total(s.blockSize, s.produced)
    else s.delivered + CurrentRest(s) == Total(s.blockSize, s.produced[..|s.produced| - s.owned + 1])
  }

  ghost predicate Inv(s: Sys) {
    Shape(s) && Ownership(s) && Control(s) && Drained(s) && Counted(s.packets, s.bytes, s.delivered)
  }

  lemma {:induction false} InitInv(s: Sys)
    requires Init(s)
    ensures Inv(s)
  {
  }

  lemma {:induction false} CurrentIsOldestHeld(s: Sys)
    requires Shape(s) && Ownership(s)
    ensures s.user[s.cur] <==> s.owned > 0
    ensures s.owned > 0 ==> s.blocks[s.cur] == Held(s)[0]
  {
    assert Slot(|s.user|, s.cur, 0) == s.cur;
  }

  lemma {:induction false} TotalSnoc(blockSize: nat, bs: seq<Block>, b: Block)
    ensures Total(blockSize, bs + [b]) == Total(blockSize, bs) + Contents(blockSize, b)
  {
    assert (bs + [b])[..|bs|] == bs;
  }

  lemma {:induction false} FillAccounts(s: Sys, b: Block)
    requires Shape(s) && Shape(Apply(s, Fill(b))) && s.owned <= |s.produced| && Drained(s)
    requires if s.owned == 0 then s.remaining == 0 && !s.pc.Release? && s.fill == s.cur else s.fill != s.cur
    ensures Drained(Apply(s, Fill(b)))
  {
    var s1 := Apply(s, Fill(b));
    var p := s1.produced[..|s1.produced| - s1.owned + 1];
    if s.owned == 0 {
      assert p == s.produced + [b];
      TotalSnoc(s.blockSize, s.produced, b);
    } else {
      assert p == s.produced[..|s.produced| - s.owned + 1];
      assert CurrentRest(s1) == CurrentRest(s);
    }
  }

  lemma {:induction false} FillOwnsLatest(
      blocks: seq<Block>, user: seq<bool>, cur: nat, fill: nat, owned: nat, produced: seq<Block>, b: Block)
    requires fill < |user| && OwnsLatest(blocks, user, cur, fill, owned, produced) && !user[fill]
    ensures OwnsLatest(blocks[fill := b], user[fill := true], cur, Succ(|user|, fill), owned + 1, produced + [b])
    ensures owned <= |produced| && (fill == cur <==> owned == 0)
  {
    FillAppends(blocks, user, cur, fill, owned, b);
    hide OwnedSlots, Succ;
    assert (produced + [b])[|produced| + 1 - (owned + 1)..] == produced[|produced| - owned..] + [b];
  }

  lemma {:induction false} FillKeeps(s: Sys, b: Block)
    requires Inv(s) && Enabled(s, Fill(b))
    ensures Inv(Apply(s, Fill(b)))
  {
    hide Rest, Total, Counted, Drained, OwnsLatest;
    FillOwnsLatest(s.blocks, s.user, s.cur, s.fill, s.owned, s.produced, b);
    CurrentIsOldestHeld(s);
    FillAccounts(s, b);
  }

  lemma {:induction false} ReleaseAccounts(s: Sys, s1: Sys)
    requires Shape(s) && Shape(s1) && 0 < s.owned <= |s.produced|
    requires s.pc.Release? && Drained(s)
    requires s1.owned == s.owned - 1 && s1.produced == s.produced && s1.delivered == s.delivered
    requires s1.blockSize == s.blockSize && s1.remaining == 0 && !s1.pc.Release?
    requires s1.owned > 0 ==> s1.blocks[s1.cur] == Held(s1)[0]
    ensures Drained(s1)
  {
    var p := s.produced[..|s.produced| - s.owned + 1];
    if s1.owned == 0 {
      assert p == s.produced;
    } else {
      assert s1.produced[..|s1.produced| - s1.owned + 1] == p + [s1.blocks[s1.cur]];
      TotalSnoc(s.blockSize, p, s1.blocks[s1.cur]);
    }
  }

  lemma {:induction false} ReleaseOwnsLatest(blocks: seq<Block>, user: seq<bool>, cur: nat, fill: nat, owned: nat, produced: seq<Block>)
    requires OwnsLatest(blocks, user, cur, fill, owned, produced) && owned > 0
    ensures OwnsLatest(blocks, user[cur := false], Succ(|user|, cur), fill, owned - 1, produced)
  {
    ReleaseDropsFirst(blocks, user, cur, fill, owned);
    hide OwnedSlots, Slot, Succ;
    assert produced[|produced| - owned..][1..] == produced[|produced| - (owned - 1)..];
  }

  lemma {:induction false} ReleaseOwns(s: Sys)
    requires Shape(s) && Ownership(s) && s.pc.Release? && s.user[s.cur]
    ensures var s1 := Advanced(s); s.owned > 0 && Shape(s1) && Ownership(s1) && s1.owned == s.owned - 1
  {
    CurrentIsOldestHeld(s);
    ReleaseOwnsLatest(s.blocks, s.user, s.cur, s.fill, s.owned, s.produced);
    hide OwnsLatest;
  }

  lemma {:induction false} ReleaseKeeps(s: Sys)
    requires Inv(s) && s.pc.Release?
    ensures Inv(Advanced(s))
  {
    hide Rest, Counted, Total, Drained, CurrentRest, Owns, OwnedSlots;
    ReleaseOwns(s);
    var s1 := Advanced(s);
    CurrentIsOldestHeld(s1);
    ReleaseAccounts(s, s1);
  }

  /** Copying a packet, or dropping the rest of a block at a bad header, accounts for every packet. */
  lemma {:induction false} ExtractAccounts(s: Sys)
    requires Shape(s) && s.pc.Extract? && s.remaining > 0
    ensures s.delivered + CurrentRest(s) == Advanced(s).delivered + CurrentRest(Advanced(s))
  {
    var h := s.blocks[s.cur].At(s.pos);
    var s1 := Advanced(s);
    if Bad(s.blockSize, h) {
      assert CurrentRest(s) == [] == CurrentRest(s1);
    } else {
      assert CurrentRest(s) == [PacketOf(h)] + CurrentRest(s1);
      assert s.delivered + ([PacketOf(h)] + CurrentRest(s1)) == (s.delivered + [PacketOf(h)]) + CurrentRest(s1);
    }
  }

  lemma {:induction false} ExtractCounts(s: Sys)
    requires Shape(s) && s.pc.Extract? && Counted(s.packets, s.bytes, s.delivered)
    ensures Counted(Advanced(s).packets, Advanced(s).bytes, Advanced(s).delivered)
  {
    CountOne(s.packets, s.bytes, s.delivered, PacketOf(s.blocks[s.cur].At(s.pos)));
  }

  lemma {:induction false} ExtractKeeps(s: Sys)
    requires Inv(s) && s.pc.Extract?
    ensures Inv(Advanced(s))
  {
    hide OwnsLatest, Total, Rest, Counted, CurrentRest;
    CurrentIsOldestHeld(s);
    ExtractAccounts(s);
    ExtractCounts(s);
  }

  lemma {:induction false} EmptyBlockHoldsNothing(blockSize: nat, b: Block)
    ensures b.numPkts == 0 ==> Contents(blockSize, b) == []
  {
  }

  lemma {:induction false} QuietKeeps(s: Sys, a: Action)
    requires Inv(s) && Enabled(s, a) && !a.Fill?
    requires a.Advance? ==> !s.pc.Extract? && !s.pc.Release?
    ensures Inv(Apply(s, a))
    ensures Apply(s, a).delivered == s.delivered
  {
    hide OwnsLatest, Total, Rest, Counted;
    CurrentIsOldestHeld(s);
    EmptyBlockHoldsNothing(s.blockSize, s.blocks[s.cur]);
    var s1 := Apply(s, a);
    assert CurrentRest(s1) == CurrentRest(s);
  }

  /** Every step of either side keeps the invariant. */
  lemma {:induction false} StepKeeps(s: Sys, a: Action)
    requires Inv(s) && Enabled(s, a)
    ensures Inv(Apply(s, a))
  {
    if a.Fill? {
      FillKeeps(s, a.b);
    } else if a.Advance? && s.pc.Extract? {
      ExtractKeeps(s);
    } else if a.Advance? && s.pc.Release? {
      ReleaseKeeps(s);
    } else {
      QuietKeeps(s, a);
    }
  }

  lemma {:induction false} SplitAt(blockSize: nat, bs: seq<Block>, m: nat)
    requires m <= |bs|
    ensures Total(blockSize, bs) == Total(blockSize, bs[..m]) + Total(blockSize, bs[m..])
  {
    assert bs == bs[..m] + bs[m..];
    TotalSplits(blockSize, bs[..m], bs[m..]);
  }

  /** Nothing is lost, repeated or reordered. */
  lemma {:induction false} Conservation(s: Sys)
    requires Shape(s) && s.owned <= |s.produced| && Drained(s)
    ensures s.delivered + Pending(s) == Total(s.blockSize, s.produced)
  {
    if s.owned > 0 {
      var m := |s.produced| - s.owned + 1;
      SplitAt(s.blockSize, s.produced, m);
      assert Held(s)[1..] == s.produced[m..];
      assert s.delivered + (CurrentRest(s) + Total(s.blockSize, s.produced[m..])) ==
             (s.delivered + CurrentRest(s)) + Total(s.blockSize, s.produced[m..]);
    }
  }

  /** A block is handed back only when everything it had to hand out was delivered. */
  lemma {:induction false} ReleasedOnlyWhenDrained(s: Sys)
    requires Inv(s) && s.pc.Release?
    ensures s.owned > 0 && s.user[s.cur]
    ensures s.delivered == Total(s.blockSize, s.produced[..|s.produced| - s.owned + 1])
  {
    CurrentIsOldestHeld(s);
  }

  /** The step of the abstract queue that a step of the system amounts to. */
  function QueueStepOf(s: Sys, a: Action): QueueStep
    requires Shape(s)
  {
    if a.Fill? then Enqueue(Contents(s.blockSize, a.b))
    else if a.Advance? && s.pc.Extract? && !Bad(s.blockSize, s.blocks[s.cur].At(s.pos)) then Dequeue
    else Stutter
  }

  lemma {:induction false} Cancel(a: seq<Packet>, x: seq<Packet>, y: seq<Packet>)
    requires a + x == a + y
    ensures x == y
  {
    assert x == (a + x)[|a|..] && y == (a + y)[|a|..];
  }

  /** The delivered history decides what the queue did, given that every packet is accounted for. */
  lemma {:induction false} AccountsDecideQueueStep(d: seq<Packet>, w: seq<Packet>, d1: seq<Packet>, w1: seq<Packet>, a: QueueStep, x: seq<Packet>)
    requires d1 + w1 == d + w + (if a.Enqueue? then a.ps else [])
    requires d1 == d + x && |x| == if a.Dequeue? then 1 else 0
    ensures QueueNext(Queue(d, w), a, Queue(d1, w1))
  {
    match a
    case Enqueue(ps) =>
      assert d + w + ps == d + (w + ps);
      Cancel(d, w1, w + ps);
    case Dequeue =>
      assert d + w + [] == d + w;
      assert d + (x + w1) == d + w;
      Cancel(d, x + w1, w);
    case Stutter =>
      assert d + w + [] == d + w && d + x == d;
      Cancel(d, w, w1);
  }

  lemma {:induction false} ProducedGrows(s: Sys, a: Action)
    requires Shape(s) && Enabled(s, a)
    ensures var q, s1 := QueueStepOf(s, a), Apply(s, a);
            && Total(s1.blockSize, s1.produced) == Total(s.blockSize, s.produced) + (if q.Enqueue? then q.ps else [])
            && s1.delivered == s.delivered + if q.Dequeue? then [PacketOf(s.blocks[s.cur].At(s.pos))] else []
  {
    if a.Fill? { TotalSnoc(s.blockSize, s.produced, a.b); }
    assert s.delivered + [] == s.delivered;
  }

  /** The block ring refines the queue: a fill enqueues what the block holds, a copy dequeues the head,
      every other step leaves the queue alone. */
  lemma {:induction false} StepRefinesQueue(s: Sys, a: Action)
    requires Inv(s) && Enabled(s, a)
    ensures Inv(Apply(s, a))
    ensures QueueNext(AsQueue(s), QueueStepOf(s, a), AsQueue(Apply(s, a)))
  {
    hide Owns, OwnedSlots, Total, Rest, Counted, Drained, Pending, Control;
    StepKeeps(s, a);
    var s1 := Apply(s, a);
    Conservation(s);
    Conservation(s1);
    var q := QueueStepOf(s, a);
    ProducedGrows(s, a);
    var x := if q.Dequeue? then [PacketOf(s.blocks[s.cur].At(s.pos))] else [];
    AccountsDecideQueueStep(s.delivered, Pending(s), s1.delivered, Pending(s1), q, x);
  }

  /** A run: every interleaving of the two sides. */
  ghost predicate IsRun(run: seq<Sys>, acts: seq<Action>) {
    && |run| == |acts| + 1 && Init(run[0])
    && forall i :: 0 <= i < |acts| ==> Shape(run[i]) && Enabled(run[i], acts[i]) && run[i + 1] == Apply(run[i], acts[i])
  }

  /** In every reachable state of every interleaving: delivered packets, then the rest of the current
      block, then the other blocks in user hands, are what the kernel produced. */
  lemma {:induction false} EveryInterleavingConserves(run: seq<Sys>, acts: seq<Action>, i: nat)
    requires IsRun(run, acts) && i < |run|
    ensures Inv(run[i])
    ensures run[i].delivered + Pending(run[i]) == Total(run[i].blockSize, run[i].produced)
  {
    if i == 0 {
      InitInv(run[0]);
    } else {
      EveryInterleavingConserves(run, acts, i - 1);
      StepKeeps(run[i - 1], acts[i - 1]);
    }
    Conservation(run[i]);
  }

  /** With well-formed blocks only, that is every packet of every block, exactly once and in order. */
  lemma {:induction false} WellFormedLosesNothing(blockSize: nat, bs: seq<Block>)
    requires forall b :: b in bs ==> WellFormed(blockSize, b)
    ensures Total(blockSize, bs) == AllPackets(bs)
  {
    if bs != [] {
      WellFormedLosesNothing(blockSize, bs[..|bs| - 1]);
      WellFormedHandsOutAll(blockSize, bs[|bs| - 1]);
    }
  }

  function AllPackets(bs: seq<Block>): seq<Packet> {
    if bs == [] then []
    else
      var b := bs[|bs| - 1];
      AllPackets(bs[..|bs| - 1]) + PacketsOf(Chain(b, b.first, b.numPkts))
  }
}
