/** Calls of `next_packet_v3`: each is a run of steps of the block ring, and nothing waits for ever. */
module BlockRingCalls {
  import opened Packets
  import opened RingOrder
  import opened BlockRing
  import opened BlockRingSession

  // ----- a call as a run of steps -----

  ghost predicate Runnable(s: Sys, acts: seq<Action>)
    requires Shape(s)
    decreases |acts|
  {
    acts == [] || (Enabled(s, acts[0]) && Shape(Apply(s, acts[0])) && Runnable(Apply(s, acts[0]), acts[1..]))
  }

  ghost function Exec(s: Sys, acts: seq<Action>): Sys
    requires Shape(s) && Runnable(s, acts)
    decreases |acts|
  {
    if acts == [] then s else Exec(Apply(s, acts[0]), acts[1..])
  }

  lemma {:induction false} RunThen(s: Sys, a: seq<Action>, b: seq<Action>)
    requires Shape(s) && Runnable(s, a) && Shape(Exec(s, a)) && Runnable(Exec(s, a), b)
    ensures Runnable(s, a + b) && Exec(s, a + b) == Exec(Exec(s, a), b)
    decreases |a|
  {
    hide Enabled, Shape, Apply;
    if a == [] {
      assert a + b == b;
    } else {
      RunThen(Apply(s, a[0]), a[1..], b);
      assert (a + b)[1..] == a[1..] + b;
    }
  }

  lemma {:induction false} RunOne(s: Sys, a: Action)
    requires Shape(s) && Enabled(s, a) && Shape(Apply(s, a))
    ensures Runnable(s, [a]) && Exec(s, [a]) == Apply(s, a)
  {
    hide Shape, Apply, Enabled;
    assert [a][1..] == [];
  }

  lemma {:induction false} HasShape(s: Sys)
    requires Inv(s)
    ensures Shape(s) && s.owned <= |s.produced|
  {
  }

  /** The kernel's steps during a poll. */
  ghost function FillSteps(s: Sys, bs: seq<Block>): seq<Action>
    requires Inv(s)
    decreases |bs|
  {
    if bs == [] || s.user[s.fill] then []
    else
      FillKeeps(s, bs[0]);
      [Fill(bs[0])] + FillSteps(Apply(s, Fill(bs[0])), bs[1..])
  }

  lemma {:induction false} FillsRun(s: Sys, bs: seq<Block>)
    requires Inv(s)
    ensures Shape(s) && Runnable(s, FillSteps(s, bs)) && Exec(s, FillSteps(s, bs)) == Filled(s, bs)
    decreases |bs|
  {
    HasShape(s);
    if bs != [] && !s.user[s.fill] {
      FillKeeps(s, bs[0]);
      var s1 := Apply(s, Fill(bs[0]));
      HasShape(s1);
      hide Inv;
      FillsRun(s1, bs[1..]);
      RunOne(s, Fill(bs[0]));
      HasShape(Filled(s1, bs[1..]));
      RunThen(s, [Fill(bs[0])], FillSteps(s1, bs[1..]));
    }
  }

  /** The steps until the consumer returns. */
  ghost function DriveSteps(s: Sys, polls: seq<PollEvent>): seq<Action>
    requires Inv(s)
    decreases |polls|, s.owned, Rank(s.pc)
  {
    if s.pc.Idle? then []
    else if s.pc.Polling? then
      if polls == [] then [Poll(false)]
      else
        var s1 := Filled(s, polls[0].arrivals);
        StepKeeps(s1, Poll(polls[0].ready));
        FillSteps(s, polls[0].arrivals)
        + ([Poll(polls[0].ready)] + DriveSteps(Apply(s1, Poll(polls[0].ready)), polls[1..]))
    else
      StepKeeps(s, Advance);
      AdvanceShrinks(s);
      [Advance] + DriveSteps(Apply(s, Advance), polls)
  }

  ghost predicate IsRunTo(s: Sys, acts: seq<Action>, t: Sys)
    requires Shape(s)
  {
    Runnable(s, acts) && Exec(s, acts) == t
  }

  lemma {:induction false} Chain(s: Sys, a: seq<Action>, s1: Sys, b: seq<Action>, t: Sys)
    requires Shape(s) && IsRunTo(s, a, s1) && Shape(s1) && IsRunTo(s1, b, t)
    ensures IsRunTo(s, a + b, t)
  {
    hide Shape;
    RunThen(s, a, b);
  }

  lemma {:induction false} StepRun(s: Sys, a: Action)
    requires Inv(s) && Enabled(s, a)
    ensures Inv(Apply(s, a)) && Shape(s) && Shape(Apply(s, a)) && IsRunTo(s, [a], Apply(s, a))
  {
    HasShape(s);
    StepKeeps(s, a);
    hide Inv;
    HasShape(Apply(s, a));
    RunOne(s, a);
  }

  lemma {:induction false} DriveIsRun(s: Sys, polls: seq<PollEvent>)
    requires Inv(s)
    ensures Shape(s) && IsRunTo(s, DriveSteps(s, polls), Drive(s, polls))
    decreases |polls|, s.owned, Rank(s.pc)
  {
    HasShape(s);
    hide Inv, Shape;
    if s.pc.Polling? {
      if polls == [] {
        StepRun(s, Poll(false));
      } else {
        var s1, e := Filled(s, polls[0].arrivals), polls[0];
        FillsRun(s, e.arrivals);
        StepRun(s1, Poll(e.ready));
        var s2 := Apply(s1, Poll(e.ready));
        DriveIsRun(s2, polls[1..]);
        hide Apply, Filled, FillSteps;
        Chain(s1, [Poll(e.ready)], s2, DriveSteps(s2, polls[1..]), Drive(s2, polls[1..]));
        Chain(s, FillSteps(s, e.arrivals), s1, [Poll(e.ready)] + DriveSteps(s2, polls[1..]), Drive(s2, polls[1..]));
      }
    } else if !s.pc.Idle? {
      StepRun(s, Advance);
      AdvanceShrinks(s);
      var s1 := Apply(s, Advance);
      hide Apply;
      DriveIsRun(s1, polls);
      Chain(s, [Advance], s1, DriveSteps(s1, polls), Drive(s1, polls));
    }
  }

  /** A call of `next_packet_v3` is a run of enabled steps of the ring, with the kernel's fills inside its polls. */
  lemma {:induction false} CallIsRun(s: Sys, polls: seq<PollEvent>)
    requires Inv(s) && s.pc.Idle?
    ensures Shape(s) && Inv(Apply(s, Begin))
    ensures IsRunTo(s, [Begin] + DriveSteps(Apply(s, Begin), polls), Call(s, polls))
  {
    StepRun(s, Begin);
    hide Inv, Shape;
    var s1 := Apply(s, Begin);
    DriveIsRun(s1, polls);
    hide Apply, Drive, DriveSteps;
    Chain(s, [Begin], s1, DriveSteps(s1, polls), Drive(s1, polls));
  }

  // ----- progress -----

  /** How many blocks the user side has handed back. */
  function Back(s: Sys): int {
    |s.produced| - s.owned
  }

  /** The consumer is about to deliver a packet or to hand a block back. */
  predicate Busy(s: Sys) {
    s.pc.Release? || s.pc.Extract? || (s.owned > 0 && (s.pc.Ready? || s.pc.Check? || s.pc.Recheck?))
  }

  /** What can only grow; and once a block is handed back, all blocks handed back have been delivered. */
  ghost predicate Moves(s: Sys, t: Sys)
    requires t.owned <= |t.produced|
  {
    && s.produced <= t.produced && s.delivered <= t.delivered && t.blockSize == s.blockSize && Back(s) <= Back(t)
    && (Back(s) < Back(t) ==> Total(t.blockSize, t.produced[..Back(t)]) <= t.delivered)
  }

  ghost predicate Gains(s: Sys, t: Sys) {
    |t.delivered| > |s.delivered| || Back(t) > Back(s)
  }

  lemma {:induction false} StepMoves(s: Sys)
    requires Inv(s) && Enabled(s, Advance)
    ensures var t := Apply(s, Advance);
            t.owned <= |t.produced| && Moves(s, t) && (Busy(s) ==> Gains(s, t) || Busy(t))
  {
    CurrentIsOldestHeld(s);
    if s.pc.Release? { ReleasedOnlyWhenDrained(s); }
    HasShape(s);
    hide Inv, Bad, Total, Held;
    if s.pc.Extract? { ExtractMoves(s); }
  }

  lemma {:induction false} ExtractMoves(s: Sys)
    requires Shape(s) && s.owned <= |s.produced| && s.pc.Extract?
    ensures var t := Apply(s, Advance); Moves(s, t) && (Gains(s, t) || Busy(t))
  {
    hide Bad, Total;
  }

  lemma {:induction false} FilledMoves(s: Sys, bs: seq<Block>)
    requires Inv(s)
    ensures var t := Filled(s, bs); t.owned <= |t.produced| && Moves(s, t) && Back(t) == Back(s)
    decreases |bs|
  {
    HasShape(s);
    if bs != [] && !s.user[s.fill] {
      FillKeeps(s, bs[0]);
      hide Inv, Moves;
      FillMoves(s, bs[0]);
      var s1 := Apply(s, Fill(bs[0]));
      HasShape(s1);
      hide Apply;
      FilledMoves(s1, bs[1..]);
      Compose(s, s1, Filled(s1, bs[1..]));
    } else {
      Standstill(s, s.pc);
    }
  }

  lemma {:induction false} FillMoves(s: Sys, b: Block)
    requires Shape(s) && s.owned <= |s.produced|
    ensures var t := Apply(s, Fill(b)); t.owned <= |t.produced| && Moves(s, t) && Back(t) == Back(s) && Back(s) >= 0
  {
    hide Total;
  }

  lemma {:induction false} Standstill(s: Sys, pc: Pc)
    requires s.owned <= |s.produced|
    ensures Moves(s, s.(pc := pc))
  {
  }

  lemma {:induction false} Compose(s: Sys, s1: Sys, t: Sys)
    requires s1.owned <= |s1.produced| && t.owned <= |t.produced| && Back(s1) >= 0
    requires Moves(s, s1) && Moves(s1, t)
    ensures Moves(s, t)
    ensures Gains(s, s1) || Gains(s1, t) ==> Gains(s, t)
  {
    hide Total;
    if Back(s1) == Back(t) { assert t.produced[..Back(t)] == s1.produced[..Back(s1)]; }
  }

  lemma {:induction false} DriveMoves(s: Sys, polls: seq<PollEvent>)
    requires Inv(s)
    ensures var t := Drive(s, polls); t.owned <= |t.produced| && Moves(s, t) && (Busy(s) ==> Gains(s, t))
    decreases |polls|, s.owned, Rank(s.pc)
  {
    HasShape(s);
    HasShape(Drive(s, polls));
    hide Inv, Moves, Gains, Drive, Rank, Shape;
    if s.pc.Polling? {
      DrivePolls(s, polls);
      Standstill(s, Idle);
      if polls != [] {
        var e := polls[0];
        var filled := Filled(s, e.arrivals);
        var s1 := filled.(pc := if e.ready then Recheck else Idle);
        FilledMoves(s, e.arrivals);
        Standstill(filled, s1.pc);
        Compose(s, filled, s1);
        DriveMoves(s1, polls[1..]);
        Compose(s, s1, Drive(s1, polls[1..]));
      }
    } else if s.pc.Idle? {
      DriveStops(s, polls);
      Standstill(s, Idle);
    } else {
      DriveAdvances(s, polls);
      AdvanceShrinks(s);
      StepMoves(s);
      var s1 := Apply(s, Advance);
      hide Apply, Busy;
      DriveMoves(s1, polls);
      Compose(s, s1, Drive(s1, polls));
    }
  }

  lemma {:induction false} DriveStops(s: Sys, polls: seq<PollEvent>)
    requires Inv(s) && s.pc.Idle?
    ensures Drive(s, polls) == s
  {
  }

  /** While some block is ours, a call delivers a packet or hands a block back, whatever the kernel does meanwhile. */
  lemma {:induction false} CallMakesProgress(s: Sys, polls: seq<PollEvent>)
    requires Inv(s) && s.pc.Idle?
    ensures var t := Call(s, polls); t.owned <= |t.produced| && Moves(s, t) && (s.owned > 0 ==> Gains(s, t))
  {
    HasShape(s);
    CurrentIsOldestHeld(s);
    StepKeeps(s, Begin);
    BeginIsBusy(s);
    var s1 := Apply(s, Begin);
    Standstill(s, s1.pc);
    hide Inv, Moves, Gains, Busy, Drive, Shape;
    HasShape(s1);
    DriveMoves(s1, polls);
    Compose(s, s1, Drive(s1, polls));
  }

  lemma {:induction false} BeginIsBusy(s: Sys)
    requires Shape(s)
    ensures s.owned > 0 ==> Busy(Apply(s, Begin))
    ensures Apply(s, Begin) == s.(pc := Apply(s, Begin).pc)
  {
  }

  /** Calls one after the other, each with what the kernel does during its polls. */
  ghost function Calls(s: Sys, calls: seq<seq<PollEvent>>): (t: Sys)
    requires Inv(s) && s.pc.Idle?
    ensures Inv(t) && t.pc.Idle?
    decreases |calls|
  {
    if calls == [] then s else Calls(Call(s, calls[0]), calls[1..])
  }

  /** What waits, as a number of calls. */
  ghost function Waiting(s: Sys): nat
    requires Inv(s)
  {
    |Pending(s)| + s.owned
  }

  /** Calls that are still needed at `s` for all that had been produced at `s0`. */
  ghost function Left(s0: Sys, s: Sys): int {
    if Back(s) >= |s0.produced| then 0
    else |Total(s0.blockSize, s0.produced)| - |s.delivered| + |s0.produced| - Back(s)
  }

  lemma {:induction false} NotYet(s0: Sys, s: Sys)
    requires Inv(s) && s.owned <= |s.produced| && Moves(s0, s) && Back(s) < |s0.produced|
    ensures s.owned > 0 && |s.delivered| <= |Total(s0.blockSize, s0.produced)|
  {
    var m := Back(s) + 1;
    assert s.produced[..m] == s0.produced[..m];
    SplitAt(s0.blockSize, s0.produced, m);
    hide Total, CurrentRest, Ownership, Control, Counted;
  }

  lemma {:induction false} Done(s0: Sys, s: Sys)
    requires Inv(s0) && Inv(s) && s.owned <= |s.produced| && Moves(s0, s) && Back(s) >= |s0.produced|
    ensures Total(s0.blockSize, s0.produced) <= s.delivered
  {
    HasShape(s0);
    if Back(s) > Back(s0) {
      hide Inv;
      var blocks := s.produced[..Back(s)];
      SplitAt(s0.blockSize, blocks, |s0.produced|);
      assert blocks[..|s0.produced|] == s0.produced;
      hide Total;
    }
  }

  lemma {:induction false} CallLeavesLess(s0: Sys, s: Sys, polls: seq<PollEvent>)
    requires Inv(s) && s.pc.Idle? && s.owned <= |s.produced| && Moves(s0, s)
    ensures var s1 := Call(s, polls);
            && s1.owned <= |s1.produced| && Moves(s0, s1)
            && Left(s0, s) >= 0 && Left(s0, s1) <= (if Left(s0, s) > 0 then Left(s0, s) - 1 else 0)
            && (Left(s0, s) == 0 <==> Back(s) >= |s0.produced|)
  {
    var s1 := Call(s, polls);
    CallMakesProgress(s, polls);
    hide Call;
    HasShape(s);
    if Back(s) < |s0.produced| { NotYet(s0, s); }
    hide Inv, Total;
    Compose(s0, s, s1);
  }

  lemma {:induction false} CallsDeliver(s0: Sys, s: Sys, calls: seq<seq<PollEvent>>)
    requires Inv(s0) && Inv(s) && s.pc.Idle? && s.owned <= |s.produced| && Moves(s0, s) && |calls| >= Left(s0, s)
    ensures Total(s0.blockSize, s0.produced) <= Calls(s, calls).delivered
    ensures Back(Calls(s, calls)) >= |s0.produced|
    decreases |calls|
  {
    hide Inv, Moves, Left, Total, Call;
    if calls == [] {
      CallLeavesLess(s0, s, []);
      Done(s0, s);
    } else {
      CallLeavesLess(s0, s, calls[0]);
      CallsDeliver(s0, Call(s, calls[0]), calls[1..]);
    }
  }

  /** As many calls as there are waiting packets and held blocks deliver everything that had been produced before them,
      and hand all those blocks back, whatever the kernel hands over meanwhile. */
  lemma {:induction false} CallsDeliverWhatWaits(s: Sys, calls: seq<seq<PollEvent>>)
    requires Inv(s) && s.pc.Idle? && |calls| >= Waiting(s)
    ensures Total(s.blockSize, s.produced) <= Calls(s, calls).delivered
    ensures Back(Calls(s, calls)) >= |s.produced|
  {
    HasShape(s);
    Conservation(s);
    Standstill(s, Idle);
    hide Inv, Total, Pending, Calls;
    CallsDeliver(s, s, calls);
  }

  // ----- a silent kernel -----

  ghost function Silence(n: nat): (calls: seq<seq<PollEvent>>)
    ensures |calls| == n
  {
    seq(n, _ => [])
  }

  lemma {:induction false} SilentDrive(s: Sys)
    requires Inv(s)
    ensures Drive(s, []).produced == s.produced
    decreases s.owned, Rank(s.pc)
  {
    HasShape(s);
    hide Inv, Rank;
    if s.pc.Polling? {
      DrivePolls(s, []);
    } else if !s.pc.Idle? {
      DriveAdvances(s, []);
      AdvanceShrinks(s);
      AdvanceProducesNothing(s);
      hide Apply, Drive;
      SilentDrive(Apply(s, Advance));
    }
  }

  lemma {:induction false} AdvanceProducesNothing(s: Sys)
    requires Shape(s)
    ensures Apply(s, Advance).produced == s.produced
  {
    hide Bad;
  }

  lemma {:induction false} SilentCalls(s: Sys, n: nat)
    requires Inv(s) && s.pc.Idle?
    ensures Calls(s, Silence(n)).produced == s.produced && Calls(s, Silence(n)).blockSize == s.blockSize
    decreases n
  {
    if n > 0 {
      StepKeeps(s, Begin);
      HasShape(s);
      SilentDrive(Apply(s, Begin));
      CallMakesProgress(s, []);
      hide Inv, Drive;
      assert Silence(n)[1..] == Silence(n - 1);
      SilentCalls(Call(s, []), n - 1);
    }
  }

  /** When the kernel falls silent, as many calls deliver everything and leave nothing in user hands. */
  lemma {:induction false} SilentCallsDrain(s: Sys, n: nat)
    requires Inv(s) && s.pc.Idle? && n >= Waiting(s)
    ensures var t := Calls(s, Silence(n));
            t.owned == 0 && Pending(t) == [] && t.delivered == Total(s.blockSize, s.produced)
  {
    var t := Calls(s, Silence(n));
    SilentCalls(s, n);
    CallsDeliverWhatWaits(s, Silence(n));
    HasShape(t);
    NothingHeld(t);
    hide Inv, Calls, Pending, Waiting;
  }

  lemma {:induction false} NothingHeld(t: Sys)
    requires Inv(t)
    ensures t.owned == 0 ==> Pending(t) == [] && t.delivered == Total(t.blockSize, t.produced)
  {
  }
}
