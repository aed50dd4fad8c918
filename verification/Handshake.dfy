/** The handshake between `capture_loop` and the destructor: two threads, the flags `running_` and
    `in_capture_loop_`, the socket descriptor, the ring pointer and the mapped ring memory. Every access to one of these
    is one step. Closing the socket and storing -1 in the descriptor count as one, since the loop sees only the latter. */
module Handshake {

  datatype LoopPc =
    | Start     // before `running_ = true`
    | Marked    // before `in_capture_loop_ = true`
    | Test      // before reading `running_` in the loop condition
    | Enter     // in next_packet, before reading the descriptor
    | Ring      // before reading the ring pointer
    | Touch     // about to access ring memory
    | Leave     // before `in_capture_loop_ = false`
    | Done

  datatype DtorPc =
    | Alive     // before `running_ = false`
    | Wait      // before reading `in_capture_loop_`
    | Close     // before closing the socket
    | Unmap     // before unmapping the ring
    | Clear     // before `ring_buffer = nullptr`
    | Gone

  /** `faulted` records an access to ring memory that is no longer mapped. */
  datatype Sys = Sys(
    running: bool, inLoop: bool, open: bool, pointer: bool, mapped: bool, loop: LoopPc, dtor: DtorPc, faulted: bool)

  /** A step of either thread. `more` resolves what the loop condition and the length of a packet read
      leave open: whether the packet limit allows another round, whether another access follows. */
  datatype Step = LoopStep(more: bool) | DtorStep

  function LoopNext(s: Sys, more: bool): (r: Sys)
    ensures r.dtor == s.dtor
  {
    match s.loop
    case Start => s.(running := true, loop := Marked)
    case Marked => s.(inLoop := true, loop := Test)
    case Test => s.(loop := if s.running && more then Enter else Leave)
    case Enter => s.(loop := if s.open then Ring else Test)
    case Ring => s.(loop := if s.pointer then Touch else Test)
    case Touch => s.(faulted := s.faulted || !s.mapped, loop := if more then Touch else Test)
    case Leave => s.(inLoop := false, loop := Done)
    case Done => s
  }

  function DtorNext(s: Sys): (r: Sys)
    ensures !r.dtor.Alive?
  {
    match s.dtor
    case Alive => s.(running := false, dtor := Wait)
    case Wait => if s.inLoop then s else s.(dtor := Close)
    case Close => s.(open := false, dtor := Unmap)
    case Unmap => s.(mapped := false, dtor := Clear)
    case Clear => s.(pointer := false, dtor := Gone)
    case Gone => s
  }

  function Next(s: Sys, a: Step): Sys {
    match a
    case LoopStep(more) => LoopNext(s, more)
    case DtorStep => DtorNext(s)
  }

  function Exec(s: Sys, steps: seq<Step>): Sys
    decreases |steps|
  {
    if steps == [] then s else Exec(Next(s, steps[0]), steps[1..])
  }

  /** The session before either thread has begun. */
  const FRESH := Sys(false, false, true, true, true, Start, Alive, false)

  /** What the flags are at each point of the two threads: the destructor closes the descriptor, then unmaps the ring, then
      clears the pointer; the loop is announced from its first test of `running_` until it is left. */
  ghost predicate FlagsFollow(s: Sys) {
    && (s.open <==> s.dtor.Alive? || s.dtor.Wait? || s.dtor.Close?)
    && (s.mapped <==> s.dtor.Alive? || s.dtor.Wait? || s.dtor.Close? || s.dtor.Unmap?)
    && (s.pointer <==> !s.dtor.Gone?)
    && (s.inLoop <==> s.loop.Test? || s.loop.Enter? || s.loop.Ring? || s.loop.Touch? || s.loop.Leave?)
    && (s.loop.Start? ==> !s.running)
    && (s.dtor.Alive? && !s.loop.Start? ==> s.running)
  }

  lemma {:induction false} FlagsAlwaysFollow(s: Sys, steps: seq<Step>)
    requires FlagsFollow(s)
    ensures FlagsFollow(Exec(s, steps))
    decreases |steps|
  {
    if steps != [] {
      FlagsAlwaysFollow(Next(s, steps[0]), steps[1..]);
    }
  }

  /** Over every schedule of a fresh session. */
  lemma {:induction false} EveryScheduleFollows(steps: seq<Step>)
    ensures FlagsFollow(Exec(FRESH, steps))
  {
    FlagsAlwaysFollow(FRESH, steps);
  }

  ghost predicate CanFault(s: Sys) {
    exists steps :: Exec(s, steps).faulted
  }

  /** The loop is inside next_packet. */
  predicate InPacket(pc: LoopPc) {
    pc.Enter? || pc.Ring? || pc.Touch?
  }

  /** What holds until the destructor starts. */
  ghost predicate BeforeStop(s: Sys) {
    && s.dtor.Alive? && s.open && s.pointer && s.mapped && !s.faulted
    && (s.inLoop <==> s.loop.Test? || s.loop.Leave? || InPacket(s.loop))
  }

  /** What holds from the destructor's stop on, if the loop had already set `running_`. */
  ghost predicate AfterStop(s: Sys) {
    && !s.running && !s.loop.Start? && !s.dtor.Alive? && !s.faulted
    && (s.inLoop <==> s.loop.Test? || s.loop.Leave? || InPacket(s.loop))
    && (s.dtor.Wait? ==> s.mapped)
    && (!s.dtor.Wait? ==> !InPacket(s.loop))
  }

  lemma {:induction false} AfterStopNeverFaults(s: Sys, steps: seq<Step>)
    requires AfterStop(s)
    ensures !Exec(s, steps).faulted
    decreases |steps|
  {
    if steps != [] {
      AfterStopNeverFaults(Next(s, steps[0]), steps[1..]);
    }
  }

  /** Up to the destructor, every schedule stays in `BeforeStop`. */
  lemma {:induction false} ReachedBeforeStop(s: Sys, steps: seq<Step>)
    requires BeforeStop(s) && Exec(s, steps).dtor.Alive?
    ensures BeforeStop(Exec(s, steps))
    decreases |steps|
  {
    if steps != [] {
      if steps[0].DtorStep? {
        DtorOnlyAdvances(Next(s, steps[0]), steps[1..]);
      } else {
        ReachedBeforeStop(Next(s, steps[0]), steps[1..]);
      }
    }
  }

  lemma {:induction false} DtorOnlyAdvances(s: Sys, steps: seq<Step>)
    requires !s.dtor.Alive?
    ensures !Exec(s, steps).dtor.Alive?
    decreases |steps|
  {
    hide LoopNext, DtorNext;
    if steps != [] {
      DtorOnlyAdvances(Next(s, steps[0]), steps[1..]);
    }
  }

  lemma {:induction false} FaultLater(s: Sys, a: Step)
    requires CanFault(Next(s, a))
    ensures CanFault(s)
  {
    var rest :| Exec(Next(s, a), rest).faulted;
    assert ([a] + rest)[1..] == rest;
    assert Exec(s, [a] + rest).faulted;
  }

  /** A loop past the pointer check can still touch the ring once it is unmapped. */
  lemma {:induction false} TouchAfterUnmap(s: Sys)
    requires s.loop.Touch? && s.dtor.Close?
    ensures CanFault(s)
  {
    var unmapped := Next(Next(s, DtorStep), DtorStep);
    var touched := Next(unmapped, LoopStep(true));
    assert Exec(touched, []).faulted;
    FaultLater(unmapped, LoopStep(true));
    FaultLater(Next(s, DtorStep), DtorStep);
    FaultLater(s, DtorStep);
  }

  /** A loop that starts after the destructor's wait runs up to the ring. */
  lemma {:induction false} StartAfterWait(s: Sys)
    requires s.loop.Start? && s.dtor.Close? && s.open && s.pointer
    ensures CanFault(s)
  {
    var go := LoopStep(true);
    var marked := Next(s, go);            // running_ = true
    var inside := Next(marked, go);       // in_capture_loop_ = true
    var entered := Next(inside, go);      // the loop condition holds
    var checked := Next(entered, go);     // the descriptor is still there
    var aimed := Next(checked, go);       // so is the ring
    hide Exec, CanFault;
    TouchAfterUnmap(aimed);
    FaultLater(checked, go);
    FaultLater(entered, go);
    FaultLater(inside, go);
    FaultLater(marked, go);
    FaultLater(s, go);
  }

  /** The destructor outruns a loop that has not yet set `running_`: its wait ends at once. */
  lemma {:induction false} EarlyStopCanFault(s: Sys)
    requires BeforeStop(s) && s.loop.Start?
    ensures CanFault(Next(s, DtorStep))
  {
    var stopped := Next(s, DtorStep);
    StartAfterWait(Next(stopped, DtorStep));
    FaultLater(stopped, DtorStep);
  }

  /** When the destructor starts, some schedule reads unmapped ring memory if and only if the loop has not
      yet stored `running_ = true`. Publishing `in_capture_loop_` before that moment is not needed. */
  lemma {:induction false} UnmapIsSafeIffLoopMarked(steps: seq<Step>)
    requires Exec(FRESH, steps).dtor.Alive?
    ensures var s := Exec(FRESH, steps);
            CanFault(Next(s, DtorStep)) <==> s.loop.Start?
  {
    var s := Exec(FRESH, steps);
    ReachedBeforeStop(FRESH, steps);
    if s.loop.Start? {
      EarlyStopCanFault(s);
    } else {
      forall more ensures !Exec(Next(s, DtorStep), more).faulted {
        AfterStopNeverFaults(Next(s, DtorStep), more);
      }
    }
  }
}
