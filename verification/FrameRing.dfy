/** The frame ring (TPACKET_V2): the block ring with one packet in every block. */
module FrameRing {
  import opened Bytes
  import opened Packets
  import opened RingOrder
  import B = BlockRing

  const MAX_PACKET_LEN := 65535

  /** A frame; `tp_snaplen` is the number of bytes. */
  datatype Frame = Frame(data: seq<byte>, sec: nat, nsec: nat)

  predicate Bad(f: Frame) {
    |f.data| == 0 || |f.data| > MAX_PACKET_LEN
  }

  function PacketOf(f: Frame): Packet {
    Packet(f.data, FromUnix(f.sec, f.nsec))
  }

  function Contents(f: Frame): seq<Packet> {
    if Bad(f) then [] else [PacketOf(f)]
  }

  /** Where the consumer stands inside `next_packet_v2`. */
  datatype Pc = Idle | Check | Polling | Recheck | Copy | Release

  datatype Sys = Sys(
    frames: seq<Frame>, user: seq<bool>, fill: nat, cur: nat, pc: Pc,
    packets: nat, bytes: nat,
    owned: nat, produced: seq<Frame>, delivered: seq<Packet>)

  datatype Action = Fill(f: Frame) | Begin | Poll(ready: bool) | Advance

  ghost predicate Shape(s: Sys) {
    |s.frames| == |s.user| && s.cur < |s.user| && s.fill < |s.user|
  }

  ghost predicate Enabled(s: Sys, a: Action)
    requires Shape(s)
  {
    match a
    case Fill(_) => !s.user[s.fill]
    case Begin => s.pc.Idle?
    case Poll(_) => s.pc.Polling?
    case Advance => !s.pc.Idle? && !s.pc.Polling?
  }

  function Apply(s: Sys, a: Action): Sys
    requires Shape(s)
  {
    match a
    case Fill(f) =>
      s.(frames := s.frames[s.fill := f], user := s.user[s.fill := true], fill := Succ(|s.user|, s.fill),
      owned := s.owned + 1, produced := s.produced + [f])
    case Begin => s.(pc := Check)
    case Poll(ready) => s.(pc := if ready then Recheck else Idle)
    case Advance =>
      match s.pc
      case Idle => s
      case Polling => s
      case Check => s.(pc := if s.user[s.cur] then Copy else Polling)
      case Recheck => s.(pc := if s.user[s.cur] then Copy else Idle)
      case Copy =>
        var f := s.frames[s.cur];
        if Bad(f) then s.(pc := Release)
        else s.(pc := Release, packets := (s.packets + 1) % TWO64, bytes := (s.bytes + |f.data|) % TWO64,
             delivered := s.delivered + [PacketOf(f)])
      case Release =>
        s.(user := s.user[s.cur := false], cur := Succ(|s.user|, s.cur), pc := Idle,
        owned := if s.owned == 0 then 0 else s.owned - 1)
  }

  // ----- the frame ring as a block ring -----

  function AsBlock(f: Frame): B.Block {
    B.Block(1, 0, map[0 := B.Header(f.data, 1, 0, f.sec, f.nsec)])
  }

  function AsBlocks(fs: seq<Frame>): (bs: seq<B.Block>)
    ensures |bs| == |fs| && forall i :: 0 <= i < |fs| ==> bs[i] == AsBlock(fs[i])
  {
    seq(|fs|, i requires 0 <= i < |fs| => AsBlock(fs[i]))
  }

  function LiftPc(pc: Pc): B.Pc {
    match pc
    case Idle => B.Idle
    case Check => B.Check
    case Polling => B.Polling
    case Recheck => B.Recheck
    case Copy => B.Ready
    case Release => B.Release(false)
  }

  function Lift(s: Sys): B.Sys {
    B.Sys(MAX_PACKET_LEN, AsBlocks(s.frames), s.user, s.fill, s.cur, if s.pc.Release? then 1 else 0, 0, LiftPc(s.pc),
          s.packets, s.bytes, s.owned, AsBlocks(s.produced), s.delivered)
  }

  function LiftAction(a: Action): B.Action {
    match a
    case Fill(f) => B.Fill(AsBlock(f))
    case Begin => B.Begin
    case Poll(ready) => B.Poll(ready)
    case Advance => B.Advance
  }

  /** Each step of the frame ring is one step of the block ring; the copy is two. */
  lemma {:induction false} StepLifts(s: Sys, a: Action)
    requires Shape(s) && Enabled(s, a)
    ensures B.Shape(Lift(s)) && B.Enabled(Lift(s), LiftAction(a))
    ensures a.Advance? && s.pc.Copy? ==>
              var mid := B.Apply(Lift(s), B.Advance);
              B.Shape(mid) && mid.pc.Extract? && B.Enabled(mid, B.Advance) && Lift(Apply(s, a)) == B.Apply(mid, B.Advance)
    ensures !(a.Advance? && s.pc.Copy?) ==> Lift(Apply(s, a)) == B.Apply(Lift(s), LiftAction(a))
  {
    if a.Fill? {
      assert AsBlocks(s.frames[s.fill := a.f]) == AsBlocks(s.frames)[s.fill := AsBlock(a.f)];
      assert AsBlocks(s.produced + [a.f]) == AsBlocks(s.produced) + [AsBlock(a.f)];
    }
  }

  ghost predicate Init(s: Sys) {
    && Shape(s)
    && (forall i :: 0 <= i < |s.user| ==> !s.user[i])
    && s.fill == s.cur == 0 && s.pc == Idle
    && s.packets == s.bytes == 0 && s.owned == 0 && s.produced == [] && s.delivered == []
  }

  ghost predicate Inv(s: Sys) {
    Shape(s) && B.Inv(Lift(s))
  }

  ghost function AsQueue(s: Sys): Queue
    requires Inv(s)
  {
    B.AsQueue(Lift(s))
  }

  lemma {:induction false} FrameIsItsBlock(f: Frame)
    ensures B.Contents(MAX_PACKET_LEN, AsBlock(f)) == Contents(f)
  {
  }

  function QueueStepOf(s: Sys, a: Action): QueueStep
    requires Shape(s)
  {
    if a.Fill? then Enqueue(Contents(a.f))
    else if a.Advance? && s.pc.Copy? && !Bad(s.frames[s.cur]) then Dequeue
    else Stutter
  }

  /** The frame ring refines the same queue. */
  lemma {:induction false} StepRefinesQueue(s: Sys, a: Action)
    requires Inv(s) && Enabled(s, a)
    ensures Inv(Apply(s, a))
    ensures QueueNext(AsQueue(s), QueueStepOf(s, a), AsQueue(Apply(s, a)))
  {
    hide B.Inv, B.AsQueue;
    StepLifts(s, a);
    B.StepRefinesQueue(Lift(s), LiftAction(a));
    if a.Fill? {
      FrameIsItsBlock(a.f);
    } else if a.Advance? && s.pc.Copy? {
      B.StepRefinesQueue(B.Apply(Lift(s), B.Advance), B.Advance);
    }
  }

  ghost predicate IsRun(run: seq<Sys>, acts: seq<Action>) {
    && |run| == |acts| + 1 && Init(run[0])
    && forall i :: 0 <= i < |acts| ==> Shape(run[i]) && Enabled(run[i], acts[i]) && run[i + 1] == Apply(run[i], acts[i])
  }

  function AllContents(fs: seq<Frame>): seq<Packet> {
    if fs == [] then [] else AllContents(fs[..|fs| - 1]) + Contents(fs[|fs| - 1])
  }

  /** What the kernel produced, frame by frame and in plain numbers. */
  lemma {:induction false} ContentsGrow(fs: seq<Frame>, f: Frame)
    ensures AllContents([]) == []
    ensures AllContents(fs + [f]) ==
            AllContents(fs) + if 0 < |f.data| <= 65535 then [Packet(f.data, f.sec * 1_000_000_000 + f.nsec)] else []
  {
    assert (fs + [f])[..|fs|] == fs;
  }

  lemma {:induction false} TotalIsContents(fs: seq<Frame>)
    ensures B.Total(MAX_PACKET_LEN, AsBlocks(fs)) == AllContents(fs)
  {
    if fs != [] {
      assert AsBlocks(fs)[..|fs| - 1] == AsBlocks(fs[..|fs| - 1]);
      TotalIsContents(fs[..|fs| - 1]);
      FrameIsItsBlock(fs[|fs| - 1]);
    }
  }

  /** In every interleaving, delivered packets then waiting packets are the usable frames in the order
      the kernel produced them, and the statistics count what was delivered. */
  lemma {:induction false} EveryInterleavingConserves(run: seq<Sys>, acts: seq<Action>, i: nat)
    requires IsRun(run, acts) && i < |run|
    ensures Inv(run[i])
    ensures run[i].delivered + AsQueue(run[i]).waiting == AllContents(run[i].produced)
    ensures Counted(run[i].packets, run[i].bytes, run[i].delivered)
  {
    if i == 0 {
      B.InitInv(Lift(run[0]));
    } else {
      EveryInterleavingConserves(run, acts, i - 1);
      StepRefinesQueue(run[i - 1], acts[i - 1]);
    }
    B.Conservation(Lift(run[i]));
    TotalIsContents(run[i].produced);
  }

  // ----- the call as the program makes it -----

  /** One call of `next_packet_v2`: at most one poll, during which the kernel hands over `arrivals`. */
  ghost function Call(s: Sys, arrivals: seq<Frame>, ready: bool): Sys
    requires Shape(s)
  {
    if s.user[s.cur] then Finished(s)
    else
      var s1 := Filled(s, arrivals);
      if ready && s1.user[s1.cur] then Finished(s1) else s1
  }

  ghost function Filled(s: Sys, fs: seq<Frame>): (s1: Sys)
    requires Shape(s)
    ensures Shape(s1) && s1.pc == s.pc && s1.delivered == s.delivered
    decreases |fs|
  {
    if fs == [] || s.user[s.fill] then s else Filled(Apply(s, Fill(fs[0])), fs[1..])
  }

  ghost function Finished(s: Sys): Sys
    requires Shape(s)
  {
    Apply(Apply(s.(pc := Copy), Advance), Advance)
  }

  lemma {:induction false} FilledKeepsInv(s: Sys, fs: seq<Frame>)
    requires Inv(s)
    ensures Inv(Filled(s, fs))
    decreases |fs|
  {
    if fs != [] && !s.user[s.fill] {
      StepRefinesQueue(s, Fill(fs[0]));
      FilledKeepsInv(Apply(s, Fill(fs[0])), fs[1..]);
    }
  }

  lemma {:induction false} CallKeepsInv(s: Sys, arrivals: seq<Frame>, ready: bool)
    requires Inv(s) && s.pc.Idle?
    ensures Inv(Call(s, arrivals, ready))
  {
    hide B.Inv;
    if s.user[s.cur] {
      FinishKeepsInv(s);
    } else {
      FilledKeepsInv(s, arrivals);
      var s1 := Filled(s, arrivals);
      if ready && s1.user[s1.cur] {
        FinishKeepsInv(s1);
      }
    }
  }

  lemma {:induction false} FinishKeepsInv(s: Sys)
    requires Inv(s) && s.pc.Idle? && s.user[s.cur]
    ensures Inv(Finished(s))
  {
    hide B.Inv;
    StepRefinesQueue(s, Begin);
    StepRefinesQueue(s.(pc := Check), Advance);
    StepRefinesQueue(s.(pc := Copy), Advance);
    StepRefinesQueue(Apply(s.(pc := Copy), Advance), Advance);
  }

  // ----- a call as a run of steps -----

  ghost predicate Runnable(s: Sys, acts: seq<Action>)
    requires Shape(s)
    decreases |acts|
  {
    acts == [] || (Enabled(s, acts[0]) && Runnable(Apply(s, acts[0]), acts[1..]))
  }

  ghost function Exec(s: Sys, acts: seq<Action>): (s1: Sys)
    requires Shape(s)
    ensures Shape(s1)
    decreases |acts|
  {
    if acts == [] then s else Exec(Apply(s, acts[0]), acts[1..])
  }

  lemma {:induction false} RunThen(s: Sys, a: seq<Action>, b: seq<Action>)
    requires Shape(s) && Runnable(s, a) && Runnable(Exec(s, a), b)
    ensures Runnable(s, a + b) && Exec(s, a + b) == Exec(Exec(s, a), b)
    decreases |a|
  {
    hide Enabled;
    if a == [] {
      assert a + b == b;
    } else {
      RunThen(Apply(s, a[0]), a[1..], b);
      assert (a + b)[1..] == a[1..] + b;
    }
  }

  lemma {:induction false} RunOne(s: Sys, a: Action)
    requires Shape(s) && Enabled(s, a)
    ensures Runnable(s, [a]) && Exec(s, [a]) == Apply(s, a)
  {
    assert [a][1..] == [];
  }

  /** The kernel's steps during a poll. */
  ghost function FillSteps(s: Sys, fs: seq<Frame>): seq<Action>
    requires Shape(s)
    decreases |fs|
  {
    if fs == [] || s.user[s.fill] then [] else [Fill(fs[0])] + FillSteps(Apply(s, Fill(fs[0])), fs[1..])
  }

  lemma {:induction false} FillsRun(s: Sys, fs: seq<Frame>)
    requires Shape(s)
    ensures Runnable(s, FillSteps(s, fs)) && Exec(s, FillSteps(s, fs)) == Filled(s, fs)
    decreases |fs|
  {
    if fs != [] && !s.user[s.fill] {
      var s1 := Apply(s, Fill(fs[0]));
      FillsRun(s1, fs[1..]);
      RunOne(s, Fill(fs[0]));
      RunThen(s, [Fill(fs[0])], FillSteps(s1, fs[1..]));
    }
  }

  lemma {:induction false} FillIgnoresPc(s: Sys, pc: Pc, fs: seq<Frame>)
    requires Shape(s)
    ensures Filled(s.(pc := pc), fs) == Filled(s, fs).(pc := pc)
    decreases |fs|
  {
    if fs != [] && !s.user[s.fill] {
      FillIgnoresPc(Apply(s, Fill(fs[0])), pc, fs[1..]);
    }
  }

  /** Two steps from the decision to copy. */
  lemma {:induction false} FinishRuns(s: Sys)
    requires Shape(s)
    ensures var copying := s.(pc := Copy);
            Runnable(copying, [Advance, Advance]) && Exec(copying, [Advance, Advance]) == Finished(s)
  {
    var copying := s.(pc := Copy);
    RunOne(copying, Advance);
    RunOne(Apply(copying, Advance), Advance);
    RunThen(copying, [Advance], [Advance]);
  }

  /** The steps of one call. */
  ghost function CallSteps(s: Sys, arrivals: seq<Frame>, ready: bool): seq<Action>
    requires Shape(s)
  {
    if s.user[s.cur] then [Begin, Advance] + [Advance, Advance]
    else
      var polling := s.(pc := Polling);
      [Begin, Advance] + (FillSteps(polling, arrivals) + ([Poll(ready)] + AfterPoll(Filled(polling, arrivals), ready)))
  }

  ghost function AfterPoll(s: Sys, ready: bool): seq<Action>
    requires Shape(s)
  {
    if !ready then [] else if s.user[s.cur] then [Advance] + [Advance, Advance] else [Advance]
  }

  lemma {:induction false} BeginRuns(s: Sys)
    requires Shape(s) && s.pc.Idle?
    ensures Runnable(s, [Begin, Advance])
    ensures Exec(s, [Begin, Advance]) == s.(pc := if s.user[s.cur] then Copy else Polling)
  {
    RunOne(s, Begin);
    RunOne(Apply(s, Begin), Advance);
    RunThen(s, [Begin], [Advance]);
    assert [Begin] + [Advance] == [Begin, Advance];
  }

  lemma {:induction false} PollRuns(s: Sys, ready: bool)
    requires Shape(s) && s.pc.Polling?
    ensures var acts := [Poll(ready)] + AfterPoll(s, ready);
            && Runnable(s, acts)
            && Exec(s, acts) == if ready && s.user[s.cur] then Finished(s) else s.(pc := Idle)
  {
    var polled := Apply(s, Poll(ready));
    RunOne(s, Poll(ready));
    if ready {
      RunOne(polled, Advance);
      if s.user[s.cur] {
        FinishRuns(polled);
        RunThen(polled, [Advance], [Advance, Advance]);
      }
    }
    RunThen(s, [Poll(ready)], AfterPoll(s, ready));
  }

  /** A call of `next_packet_v2` is a run of enabled steps of the ring: it begins, reads the status, polls if the frame
      is not ours while the kernel hands over frames, reads again, copies and releases. */
  lemma {:induction false} CallIsRun(s: Sys, arrivals: seq<Frame>, ready: bool)
    requires Shape(s) && s.pc.Idle?
    ensures Runnable(s, CallSteps(s, arrivals, ready))
    ensures Exec(s, CallSteps(s, arrivals, ready)) == Call(s, arrivals, ready)
  {
    hide Exec, Runnable, Filled, Finished, FillSteps, AfterPoll;
    BeginRuns(s);
    if s.user[s.cur] {
      FinishRuns(s);
      RunThen(s, [Begin, Advance], [Advance, Advance]);
    } else {
      var polling := s.(pc := Polling);
      var filled := Filled(polling, arrivals);
      FillsRun(polling, arrivals);
      PollRuns(filled, ready);
      RunThen(polling, FillSteps(polling, arrivals), [Poll(ready)] + AfterPoll(filled, ready));
      RunThen(s, [Begin, Advance], FillSteps(polling, arrivals) + ([Poll(ready)] + AfterPoll(filled, ready)));
      FillIgnoresPc(s, Polling, arrivals);
      SameFinish(Filled(s, arrivals), filled);
    }
  }

  lemma {:induction false} SameFinish(s: Sys, t: Sys)
    requires Shape(s) && t == s.(pc := Polling)
    ensures Finished(t) == Finished(s)
  {
  }

  // ----- nothing waits for ever -----

  /** `n` calls during which the kernel is silent. */
  ghost function SilentCalls(s: Sys, n: nat): Sys
    requires Shape(s)
    decreases n
  {
    if n == 0 then s else SilentCalls(SilentCall(s), n - 1)
  }

  ghost function SilentCall(s: Sys): (s1: Sys)
    requires Shape(s)
    ensures Shape(s1)
  {
    Call(s, [], false)
  }

  lemma {:induction false} SilentCallReleases(s: Sys)
    requires Inv(s) && s.pc.Idle?
    ensures var s1 := SilentCall(s);
            Inv(s1) && s1.pc.Idle? && s1.produced == s.produced && s1.owned == if s.owned > 0 then s.owned - 1 else 0
  {
    OwnedMeansReady(s);
    CallKeepsInv(s, [], false);
    hide Inv;
    FinishReleases(s);
    hide Finished;
  }

  lemma {:induction false} OwnedMeansReady(s: Sys)
    requires Inv(s)
    ensures s.user[s.cur] <==> s.owned > 0
  {
    B.CurrentIsOldestHeld(Lift(s));
    hide B.Drained, B.Control;
  }

  lemma {:induction false} FinishReleases(s: Sys)
    requires Shape(s)
    ensures var t := Finished(s); t.pc.Idle? && t.produced == s.produced && t.owned == if s.owned > 0 then s.owned - 1 else 0
  {
    hide Bad, PacketOf;
  }

  /** When the kernel falls silent, one call for each frame in user hands delivers everything that was produced. */
  lemma {:induction false} SilentCallsDrain(s: Sys, n: nat)
    requires Inv(s) && s.pc.Idle? && n >= s.owned
    ensures var t := SilentCalls(s, n); t.owned == 0 && t.delivered == AllContents(s.produced)
    decreases n
  {
    hide Inv, SilentCall, Shape, AllContents;
    HasShape(s);
    if n == 0 {
      AllDelivered(s);
    } else {
      SilentCallReleases(s);
      SilentCallsDrain(SilentCall(s), n - 1);
    }
  }

  lemma {:induction false} HasShape(s: Sys)
    requires Inv(s)
    ensures Shape(s)
  {
    hide B.Inv;
  }

  lemma {:induction false} AllDelivered(s: Sys)
    requires Inv(s) && s.owned == 0
    ensures s.delivered == AllContents(s.produced)
  {
    B.Conservation(Lift(s));
    TotalIsContents(s.produced);
    hide B.Inv;
  }

  class Session {
    const frames: array<Frame>
    const user: array<bool>

    var cur: nat
    var packets: nat
    var bytes: nat

    var fill: nat  // the kernel's own cursor
    ghost var owned: nat
    ghost var produced: seq<Frame>
    ghost var delivered: seq<Packet>

    ghost function State(pc: Pc): Sys
      reads this, frames, user
    {
      Sys(frames[..], user[..], fill, cur, pc, packets, bytes, owned, produced, delivered)
    }

    constructor (count: nat)
      requires count > 0
      ensures Init(State(Idle)) && fresh(frames) && fresh(user) && frames.Length == count
    {
      frames := new Frame[count](_ => Frame([], 0, 0));
      user := new bool[count](_ => false);
      cur, packets, bytes, fill := 0, 0, 0, 0;
      owned, produced, delivered := 0, [], [];
    }

    method KernelRuns(fs: seq<Frame>)
      requires Shape(State(Idle))
      modifies this`fill, this`owned, this`produced, frames, user
      ensures State(Idle) == Filled(old(State(Idle)), fs)
      decreases |fs|
    {
      if fs != [] && !user[fill] {
        ghost var s1 := Apply(State(Idle), Fill(fs[0]));
        frames[fill] := fs[0];
        user[fill] := true;
        fill, owned, produced := (fill + 1) % user.Length, owned + 1, produced + [fs[0]];
        assert State(Idle) == s1;
        KernelRuns(fs[1..]);
      }
    }

    /** A frame of ours yields its packet unless it is empty or larger than 65535 bytes. */
    ghost predicate Answers(f: Frame, pkt: Option<Packet>) {
      && (pkt.Some? <==> 0 < |f.data| <= 65535)
      && (pkt.Some? ==> pkt.value == Packet(f.data, f.sec * 1_000_000_000 + f.nsec))
    }

    method NextPacketV2(arrivals: seq<Frame>, ready: bool) returns (pkt: Option<Packet>)
      requires Inv(State(Idle))
      modifies this, frames, user
      ensures Inv(State(Idle))
      ensures State(Idle) == Call(old(State(Idle)), arrivals, ready)
      ensures delivered == old(delivered) + if pkt.Some? then [pkt.value] else []
      ensures old(user[cur]) ==> Answers(old(frames[cur]), pkt)
    {
      hide B.Inv;
      CallKeepsInv(State(Idle), arrivals, ready);
      if !user[cur] {
        KernelRuns(arrivals);
        if !ready {
          return None;
        }
        if !user[cur] {
          return None;
        }
      }
      pkt := TakeFrame();
    }

    /** The frame under the cursor is ours: copy it unless its length is invalid, then hand it back. */
    method TakeFrame() returns (pkt: Option<Packet>)
      requires Shape(State(Idle))
      modifies this, user
      ensures State(Idle) == Finished(old(State(Idle)))
      ensures delivered == old(delivered) + if pkt.Some? then [pkt.value] else []
      ensures Answers(old(frames[cur]), pkt)
    {
      var f := frames[cur];
      if |f.data| == 0 || |f.data| > MAX_PACKET_LEN {
        ReleaseFrame();
        return None;
      }
      pkt := Some(Packet(f.data, FromUnix(f.sec, f.nsec)));
      ReleaseFrame();
      packets := (packets + 1) % TWO64;
      bytes := (bytes + |f.data|) % TWO64;
      delivered := delivered + [pkt.value];
    }

    method ReleaseFrame()
      requires Shape(State(Release))
      modifies this`cur, this`owned, user
      ensures State(Idle) == Apply(old(State(Release)), Advance)
    {
      user[cur] := false;
      cur := (cur + 1) % user.Length;
      owned := if owned == 0 then 0 else owned - 1;
      assert user[..] == old(user[..])[old(cur) := false];
    }
  }
}
