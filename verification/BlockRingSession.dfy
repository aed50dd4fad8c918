/** `next_packet_v3` as the program runs it, proved to follow the step system of the block ring. */
module BlockRingSession {
  import opened Bytes
  import opened Packets
  import opened RingOrder
  import opened BlockRing

  /** One call of poll: the blocks the kernel hands over meanwhile, and whether data is reported. */
  datatype PollEvent = PollEvent(arrivals: seq<Block>, ready: bool)

  /** The kernel hands over blocks as long as it owns the next one; the others are dropped. */
  ghost function Filled(s: Sys, bs: seq<Block>): (s1: Sys)
    requires Inv(s)
    ensures Inv(s1) && s1.pc == s.pc && s1.delivered == s.delivered
    decreases |bs|
  {
    if bs == [] || s.user[s.fill] then s
    else
      FillKeeps(s, bs[0]);
      Filled(Apply(s, Fill(bs[0])), bs[1..])
  }

  function Rank(pc: Pc): nat {
    match pc
    case Idle => 0
    case Release(_) => 1
    case Extract => 2
    case Ready => 3
    case Recheck => 4
    case Polling => 4
    case Check => 5
  }

  /** The consumer's steps until it returns, with the kernel acting at each poll. When `polls` is used up
      poll times out. */
  ghost function Drive(s: Sys, polls: seq<PollEvent>): (s1: Sys)
    requires Inv(s)
    ensures Inv(s1) && s1.pc == Idle
    decreases |polls|, s.owned, Rank(s.pc)
  {
    if s.pc.Idle? then s
    else if s.pc.Polling? then
      if polls == [] then
        StepKeeps(s, Poll(false));
        Apply(s, Poll(false))
      else
        var s1 := Filled(s, polls[0].arrivals);
        StepKeeps(s1, Poll(polls[0].ready));
        Drive(Apply(s1, Poll(polls[0].ready)), polls[1..])
    else
      StepKeeps(s, Advance);
      AdvanceShrinks(s);
      Drive(Apply(s, Advance), polls)
  }

  lemma {:induction false} AdvanceShrinks(s: Sys)
    requires Inv(s) && Enabled(s, Advance)
    ensures var s1 := Apply(s, Advance);
            s1.owned < s.owned || (s1.owned == s.owned && Rank(s1.pc) < Rank(s.pc))
  {
    hide Drained, Counted, Bad, Held, Owns, OwnedSlots;
    CurrentIsOldestHeld(s);
    match s.pc
    case Release(_) =>
    case Extract =>
    case _ =>
  }

  lemma {:induction false} DriveAdvances(s: Sys, polls: seq<PollEvent>)
    requires Inv(s) && Enabled(s, Advance)
    ensures Inv(Apply(s, Advance))
    ensures Drive(s, polls) == Drive(Apply(s, Advance), polls)
    ensures Apply(s, Advance).pc.Idle? ==> Drive(s, polls) == Apply(s, Advance)
  {
    StepKeeps(s, Advance);
  }

  /** One call of `next_packet_v3`. */
  ghost function Call(s: Sys, polls: seq<PollEvent>): (s1: Sys)
    requires Inv(s) && s.pc.Idle?
    ensures Inv(s1) && s1.pc == Idle
  {
    StepKeeps(s, Begin);
    Drive(Apply(s, Begin), polls)
  }

  lemma {:induction false} DrivePolls(s: Sys, polls: seq<PollEvent>)
    requires Inv(s) && s.pc.Polling?
    ensures polls == [] ==> Drive(s, polls) == s.(pc := Idle)
    ensures polls != [] ==>
              var s1 := Filled(s, polls[0].arrivals).(pc := if polls[0].ready then Recheck else Idle);
              && Inv(s1)
              && Drive(s, polls) == Drive(s1, polls[1..])
              && (!polls[0].ready ==> Drive(s, polls) == s1)
  {
    if polls != [] {
      StepKeeps(Filled(s, polls[0].arrivals), Poll(polls[0].ready));
    }
  }

  /** A header yields its packet unless it is empty, larger than a block, or has no packet offset. */
  ghost predicate Answers(blockSize: nat, h: Header, pkt: Option<Packet>) {
    && (pkt.Some? <==> 0 < |h.data| <= blockSize && h.mac != 0)
    && (pkt.Some? ==> pkt.value == Packet(h.data, h.sec * 1_000_000_000 + h.nsec))
  }

  ghost predicate Delivers(s: Sys, t: Sys, h: Header) {
    || (Answers(s.blockSize, h, None) && t.delivered == s.delivered)
    || (Answers(s.blockSize, h, Some(PacketOf(h))) && t.delivered == s.delivered + [PacketOf(h)])
  }

  lemma {:induction false} DeliversAnswers(s: Sys, t: Sys, h: Header, pkt: Option<Packet>)
    requires t.delivered == s.delivered + if pkt.Some? then [pkt.value] else []
    ensures Delivers(s, t, h) ==> Answers(s.blockSize, h, pkt)
  {
    hide Bad;
    if pkt.Some? { assert t.delivered[|s.delivered|] == pkt.value; }
  }

  lemma {:induction false} HeaderAnswers(blockSize: nat, h: Header)
    ensures Answers(blockSize, h, if Bad(blockSize, h) then None else Some(PacketOf(h)))
  {
  }

  lemma {:induction false} ExtractDelivers(s: Sys, polls: seq<PollEvent>)
    requires Inv(s) && s.pc.Extract?
    ensures Delivers(s, Drive(s, polls), s.blocks[s.cur].At(s.pos))
  {
    hide Ownership, Control, Drained, Counted, Drive;
    DriveAdvances(s, polls);
    var s1 := Apply(s, Advance);
    if s1.pc.Release? {
      DriveAdvances(s1, polls);
    }
  }

  lemma {:induction false} CheckDelivers(s: Sys, polls: seq<PollEvent>)
    requires Inv(s) && s.pc.Check? && s.user[s.cur] && s.blocks[s.cur].numPkts > 0
    ensures Delivers(s, Drive(s, polls), s.blocks[s.cur].At(s.blocks[s.cur].first))
  {
    hide Ownership, Control, Drained, Counted, Drive;
    DriveAdvances(s, polls);
    var s1 := Apply(s, Advance);
    DriveAdvances(s1, polls);
    var s2 := Apply(s1, Advance);
    ExtractDelivers(s2, polls);
  }

  /** What a call delivers when a packet is left in the current block, or the next block is ours and not empty. */
  lemma {:induction false} CallDelivers(s: Sys, polls: seq<PollEvent>)
    requires Inv(s) && s.pc.Idle?
    ensures s.remaining > 0 ==> Delivers(s, Call(s, polls), s.blocks[s.cur].At(s.pos))
    ensures s.remaining == 0 && s.user[s.cur] && s.blocks[s.cur].numPkts > 0 ==>
              Delivers(s, Call(s, polls), s.blocks[s.cur].At(s.blocks[s.cur].first))
  {
    StepKeeps(s, Begin);
    hide Ownership, Control, Drained, Counted, Drive, Answers;
    var s1 := Apply(s, Begin);
    if s.remaining > 0 {
      ExtractDelivers(s1, polls);
    } else if s.user[s.cur] && s.blocks[s.cur].numPkts > 0 {
      CheckDelivers(s1, polls);
    }
  }

  /** What a call returns, given that it is what was delivered: the packet of the header under the cursor, or of the first
      header of a new block, exactly when that header is usable. */
  lemma {:induction false} CallAnswers(s: Sys, polls: seq<PollEvent>, pkt: Option<Packet>)
    requires Inv(s) && s.pc.Idle? && Call(s, polls).delivered == s.delivered + if pkt.Some? then [pkt.value] else []
    ensures s.remaining > 0 ==> Answers(s.blockSize, s.blocks[s.cur].At(s.pos), pkt)
    ensures s.remaining == 0 && s.user[s.cur] && s.blocks[s.cur].numPkts > 0 ==>
              Answers(s.blockSize, s.blocks[s.cur].At(s.blocks[s.cur].first), pkt)
  {
    CallDelivers(s, polls);
    DeliversAnswers(s, Call(s, polls), s.blocks[s.cur].At(s.pos), pkt);
    DeliversAnswers(s, Call(s, polls), s.blocks[s.cur].At(s.blocks[s.cur].first), pkt);
    hide Delivers, Answers, Call, Ownership, Control, Drained, Counted;
  }

  class Session {
    const blockSize: nat
    const blocks: array<Block>
    const user: array<bool>

    var cur: nat
    var remaining: nat
    var pos: nat
    var packets: nat
    var bytes: nat

    var fill: nat  // the kernel's own cursor
    ghost var owned: nat
    ghost var produced: seq<Block>
    ghost var delivered: seq<Packet>

    ghost function State(pc: Pc): Sys
      reads this, blocks, user
    {
      Sys(blockSize, blocks[..], user[..], fill, cur, remaining, pos, pc, packets, bytes, owned, produced, delivered)
    }

    ghost predicate Valid()
      reads this, blocks, user
    {
      Inv(State(Idle))
    }

    constructor (blockSize: nat, count: nat)
      requires count > 0
      ensures Valid() && Init(State(Idle))
      ensures fresh(blocks) && fresh(user) && blocks.Length == count && this.blockSize == blockSize
    {
      this.blockSize := blockSize;
      blocks := new Block[count](_ => Block(0, 0, map[]));
      user := new bool[count](_ => false);
      cur, remaining, pos, packets, bytes := 0, 0, 0, 0, 0;
      fill, owned, produced, delivered := 0, 0, [], [];
      new;
      InitInv(State(Idle));
    }

    /** The kernel side, while the consumer is at `pc`. */
    method KernelRuns(bs: seq<Block>, ghost pc: Pc)
      requires Inv(State(pc))
      modifies this`fill, this`owned, this`produced, blocks, user
      ensures State(pc) == Filled(old(State(pc)), bs)
      decreases |bs|
    {
      if bs != [] && !user[fill] {
        FillKeeps(State(pc), bs[0]);
        ghost var s1 := Apply(State(pc), Fill(bs[0]));
        blocks[fill] := bs[0];
        user[fill] := true;
        fill, owned, produced := Succ(user.Length, fill), owned + 1, produced + [bs[0]];
        assert State(pc) == s1;
        KernelRuns(bs[1..], pc);
      }
    }

    /** Hands the current block back and moves to the next one. */
    method ReleaseBlock(ghost again: bool)
      requires Inv(State(Release(again)))
      modifies this`cur, this`remaining, this`owned, user
      ensures State(if again then Check else Idle) == Apply(old(State(Release(again))), Advance)
      ensures owned < old(owned)
    {
      CurrentIsOldestHeld(State(Release(again)));
      remaining := 0;
      user[cur] := false;
      cur := (cur + 1) % user.Length;
      owned := owned - 1;
      assert user[..] == old(user[..])[old(cur) := false];
    }

    /** Reads the status of the current block, and polls once if it is not ours yet. */
    method AwaitBlock(polls: seq<PollEvent>) returns (ours: bool, rest: seq<PollEvent>)
      requires Inv(State(Check))
      modifies this`fill, this`owned, this`produced, blocks, user
      ensures ours ==> Inv(State(Ready)) && Drive(State(Ready), rest) == Drive(old(State(Check)), polls)
      ensures !ours ==> State(Idle) == Drive(old(State(Check)), polls)
      ensures |rest| < |polls| || (rest == polls && owned == old(owned))
    {
      hide Ownership, Drained, Counted, Drive, Filled;
      rest := polls;
      DriveAdvances(State(Check), rest);
      if user[cur] {
        return true, rest;
      }
      DrivePolls(State(Polling), rest);
      if rest == [] {
        return false, rest;
      }
      var ready := rest[0].ready;
      KernelRuns(rest[0].arrivals, Polling);
      rest := rest[1..];
      if !ready {
        return false, rest;
      }
      DriveAdvances(State(Recheck), rest);
      return user[cur], rest;
    }

    method NextPacketV3(polls: seq<PollEvent>) returns (pkt: Option<Packet>)
      requires Valid()
      modifies this, blocks, user
      ensures Valid()
      ensures State(Idle) == Call(old(State(Idle)), polls)
      ensures delivered == old(delivered) + if pkt.Some? then [pkt.value] else []
      ensures old(remaining) > 0 ==> Answers(blockSize, old(blocks[cur].At(pos)), pkt)
      ensures old(remaining) == 0 && old(user[cur]) && old(blocks[cur].numPkts) > 0 ==>
                Answers(blockSize, old(blocks[cur].At(blocks[cur].first)), pkt)
    {
      pkt := RunToReturn(polls);
      CallAnswers(old(State(Idle)), polls, pkt);
      hide Answers, Call, Ownership, Drained, Counted, Control;
    }

    /** The loop of the call, against the step system alone. */
    method RunToReturn(polls: seq<PollEvent>) returns (pkt: Option<Packet>)
      requires Valid()
      modifies this, blocks, user
      ensures Valid()
      ensures State(Idle) == Call(old(State(Idle)), polls)
      ensures delivered == old(delivered) + if pkt.Some? then [pkt.value] else []
    {
      hide Ownership, Drained, Counted;
      StepKeeps(State(Idle), Begin);
      ghost var goal := Call(State(Idle), polls);
      hide Drive;
      var rest := polls;
      while remaining == 0
        invariant Inv(State(if remaining == 0 then Check else Extract))
        invariant Drive(State(if remaining == 0 then Check else Extract), rest) == goal
        invariant delivered == old(delivered)
        decreases |rest|, owned, if remaining == 0 then 1 else 0
      {
        var ours;
        ours, rest := AwaitBlock(rest);
        if !ours {
          return None;
        }
        DriveAdvances(State(Ready), rest);
        if blocks[cur].numPkts == 0 {
          DriveAdvances(State(Release(true)), rest);
          ReleaseBlock(true);
          continue;
        }
        remaining := blocks[cur].numPkts;
        pos := blocks[cur].first;
      }
      pkt := TakePacket(rest);
    }

    /** The second half of the call: the packet under the cursor. */
    method TakePacket(ghost rest: seq<PollEvent>) returns (pkt: Option<Packet>)
      requires Inv(State(Extract))
      modifies this, user
      ensures Valid()
      ensures State(Idle) == Drive(old(State(Extract)), rest)
      ensures delivered == old(delivered) + if pkt.Some? then [pkt.value] else []
      ensures Answers(blockSize, old(blocks[cur].At(pos)), pkt)
    {
      hide Ownership, Drained, Counted, Drive, Bad, Answers;
      DriveAdvances(State(Extract), rest);
      var h := blocks[cur].At(pos);
      HeaderAnswers(blockSize, h);
      if Bad(blockSize, h) {
        DriveAdvances(State(Release(false)), rest);
        ReleaseBlock(false);
        return None;
      }
      pkt := Some(PacketOf(h));
      packets := (packets + 1) % TWO64;
      bytes := (bytes + |h.data|) % TWO64;
      delivered := delivered + [PacketOf(h)];
      if remaining > 1 && h.next != 0 {
        remaining := remaining - 1;
        pos := pos + h.next;
      } else {
        DriveAdvances(State(Release(false)), rest);
        ReleaseBlock(false);
      }
    }
  }
}
