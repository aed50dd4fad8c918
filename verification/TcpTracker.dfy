/** The TCP connection tracker: a one-sided reading of the state machine in section 3.3.2 of RFC 9293. */
module TcpTracker {
  import opened Bytes

  datatype TcpState =
    | Closed | Listen | SynSent | SynReceived | Established | FinWait1 | FinWait2 | Closing | TimeWait | CloseWait | LastAck

  /** What the tracker uses of a decoded header; the last three come from its options. */
  datatype Header = Header(
    fin: bool, syn: bool, rst: bool, ack: bool, seqNum: u32, ackNum: u32, window: u16,
    mss: Option<u16>, windowScale: Option<byte>, sackPermitted: bool)

  datatype Connection = Connection(
    state: TcpState, remoteSeq: u32, remoteAck: u32, remoteWindow: u16, remoteWindowScale: byte, remoteMss: u16,
    hasSackPerm: bool, lastSeen: int)

  datatype Key = Key(localIp: u32, remoteIp: u32, localPort: u16, remotePort: u16)

  /** Times are nanoseconds of a steady clock. */
  const SECOND: int := 1_000_000_000

  function NewConnection(now: int): Connection {
    Connection(Closed, 0, 0, 65535, 0, 536, false, now)
  }

  function NextState(s: TcpState, h: Header): TcpState {
    match s
    case Closed => if h.syn && !h.ack then SynReceived else s
    case Listen => if h.syn && !h.ack then SynReceived else s
    case SynSent => if h.syn && h.ack then Established else if h.syn then SynReceived else s
    case SynReceived => if h.ack && !h.syn then Established else s
    case Established => if h.fin then CloseWait else if h.rst then Closed else s
    case FinWait1 =>
      if h.fin && h.ack then TimeWait else if h.fin then Closing else if h.ack then FinWait2 else if h.rst then Closed else s
    case FinWait2 => if h.fin then TimeWait else if h.rst then Closed else s
    case Closing => if h.ack then TimeWait else if h.rst then Closed else s
    case CloseWait => if h.rst then Closed else s
    case LastAck => if h.ack || h.rst then Closed else s
    case TimeWait => if h.rst then Closed else s
  }

  function Update(c: Connection, h: Header, now: int): Connection {
    Connection(
      NextState(c.state, h),
      if h.syn then h.seqNum else c.remoteSeq,
      if h.ack then h.ackNum else c.remoteAck,
      h.window,
      if h.windowScale.Some? then h.windowScale.value else c.remoteWindowScale,
      if h.mss.Some? then h.mss.value else c.remoteMss,
      c.hasSackPerm || h.sackPermitted,
      now)
  }

  predicate Flagged(c: Connection, h: Header) {
    && (c.state.Established? || c.state.FinWait1? || c.state.FinWait2? || c.state.CloseWait? || c.state.Closing? || c.state.LastAck?)
    && !h.syn && !h.fin && h.seqNum <= c.remoteSeq
  }

  predicate Expired(c: Connection, now: int) {
    var elapsed := TruncDiv(now - c.lastSeen, SECOND);
    match c.state
    case Closed => true
    case TimeWait => elapsed >= 30
    case SynSent => elapsed >= 120
    case SynReceived => elapsed >= 120
    case _ => false
  }

  // ----- one connection -----

  datatype Segment = Segment(h: Header, now: int)

  /** A connection created at `start` and then driven by updates alone. */
  function Driven(start: int, ss: seq<Segment>): Connection {
    if ss == [] then NewConnection(start)
    else Update(Driven(start, ss[..|ss| - 1]), ss[|ss| - 1].h, ss[|ss| - 1].now)
  }

  predicate Opens(s: Segment) { s.h.syn && !s.h.ack }
  predicate Joins(s: Segment) { s.h.ack && !s.h.syn }

  /** A SYN without ACK; later an ACK without SYN; later still a FIN. */
  ghost predicate Opened(ss: seq<Segment>) {
    exists i :: 0 <= i < |ss| && Opens(ss[i])
  }

  ghost predicate Joined(ss: seq<Segment>) {
    exists i, j :: 0 <= i < j < |ss| && Opens(ss[i]) && Joins(ss[j])
  }

  ghost predicate Finished(ss: seq<Segment>) {
    exists i, j, k :: 0 <= i < j < k < |ss| && Opens(ss[i]) && Joins(ss[j]) && ss[k].h.fin
  }

  /** The segments since the last reset that counted. A reset counts only once the handshake is complete, and not
      together with the FIN that first closes the connection. */
  ghost function Since(ss: seq<Segment>): seq<Segment> {
    if ss == [] then []
    else
      var before, last := Since(ss[..|ss| - 1]), ss[|ss| - 1];
      if last.h.rst && Joined(before) && (Finished(before) || !last.h.fin) then [] else before + [last]
  }

  ghost function Reading(ss: seq<Segment>): TcpState {
    if Finished(ss) then CloseWait else if Joined(ss) then Established else if Opened(ss) then SynReceived else Closed
  }

  lemma {:induction false} OpenedGrows(ss: seq<Segment>, s: Segment)
    ensures Opened(ss + [s]) <==> Opened(ss) || Opens(s)
  {
    hide Opens;
    var all, n := ss + [s], |ss|;
    if i :| 0 <= i < n && Opens(ss[i]) { assert Opens(all[i]); }
    if Opens(s) { assert Opens(all[n]); }
  }

  lemma {:induction false} JoinedGrows(ss: seq<Segment>, s: Segment)
    ensures Joined(ss + [s]) <==> Joined(ss) || (Opened(ss) && Joins(s))
    ensures Joined(ss) ==> Opened(ss)
  {
    hide Opens, Joins;
    var all, n := ss + [s], |ss|;
    if i, j :| 0 <= i < j < n && Opens(ss[i]) && Joins(ss[j]) { assert Opens(all[i]) && Joins(all[j]); }
    if i :| 0 <= i < n && Opens(ss[i]) && Joins(s) { assert Opens(all[i]) && Joins(all[n]); }
  }

  lemma {:induction false} FinishedGrows(ss: seq<Segment>, s: Segment)
    ensures Finished(ss + [s]) <==> Finished(ss) || (Joined(ss) && s.h.fin)
    ensures Finished(ss) ==> Joined(ss)
  {
    hide Opens, Joins;
    var all, n := ss + [s], |ss|;
    if i, j, k :| 0 <= i < j < k < n && Opens(ss[i]) && Joins(ss[j]) && ss[k].h.fin {
      assert Opens(all[i]) && Joins(all[j]) && all[k].h.fin;
    }
    if i, j :| 0 <= i < j < n && Opens(ss[i]) && Joins(ss[j]) && s.h.fin {
      assert Opens(all[i]) && Joins(all[j]) && all[n].h.fin;
    }
  }

  /** The state of a tracked connection tells how much of SYN, ACK, FIN was seen, in this order, since the last reset
      that counted; no other state is ever reached. */
  lemma {:induction false} StateReadsTrace(start: int, ss: seq<Segment>)
    ensures Driven(start, ss).state == Reading(Since(ss))
    ensures Driven(start, ss).state in {Closed, SynReceived, Established, CloseWait}
  {
    hide Opened, Joined, Finished;
    if ss == [] {
      NothingSeen();
    } else {
      StateReadsTrace(start, ss[..|ss| - 1]);
      var before, last := Since(ss[..|ss| - 1]), ss[|ss| - 1];
      OpenedGrows(before, last);
      JoinedGrows(before, last);
      FinishedGrows(before, last);
      NothingSeen();
    }
  }

  lemma {:induction false} NothingSeen()
    ensures !Opened([]) && !Joined([]) && !Finished([])
  {
  }

  /** Without resets the state is read off the whole trace. */
  lemma {:induction false} StateWithoutResets(start: int, ss: seq<Segment>)
    requires forall i :: 0 <= i < |ss| ==> !ss[i].h.rst
    ensures Since(ss) == ss && Driven(start, ss).state == Reading(ss)
  {
    hide Reading, Driven, Joined, Finished;
    if ss != [] {
      StateWithoutResets(start, ss[..|ss| - 1]);
    }
    StateReadsTrace(start, ss);
  }

  /** Established at the end: a SYN without ACK, later an ACK without SYN, and after that neither FIN nor RST. */
  ghost predicate HandshakeIntact(ss: seq<Segment>, i: nat, j: nat) {
    && i < j < |ss| && Opens(ss[i]) && Joins(ss[j])
    && forall k :: j < k < |ss| ==> !ss[k].h.fin && !ss[k].h.rst
  }

  lemma {:induction false} EstablishedOnlyIf(start: int, ss: seq<Segment>)
    requires Driven(start, ss).state.Established?
    ensures exists i, j :: HandshakeIntact(ss, i, j)
  {
    var k := |ss| - 1;
    var before, last := ss[..k], ss[k];
    if Driven(start, before).state.Established? {
      EstablishedOnlyIf(start, before);
      var i: nat, j: nat :| HandshakeIntact(before, i, j);
      assert HandshakeIntact(ss, i, j);
    } else {
      StateReadsTrace(start, before);
      SinceIsSuffix(before);
      var p := |before| - |Since(before)|;
      assert Driven(start, before).state.SynReceived? && Joins(last);
      hide Joined, Finished, Since, Driven;
      var i :| 0 <= i < |Since(before)| && Opens(Since(before)[i]);
      assert HandshakeIntact(ss, p + i, k);
    }
  }

  lemma {:induction false} SinceIsSuffix(ss: seq<Segment>)
    ensures |Since(ss)| <= |ss| && Since(ss) == ss[|ss| - |Since(ss)|..]
  {
    hide Joined, Finished;
    if ss != [] {
      SinceIsSuffix(ss[..|ss| - 1]);
    }
  }

  /** Index of the last segment with SYN. */
  ghost predicate LastSyn(ss: seq<Segment>, i: nat) {
    i < |ss| && ss[i].h.syn && forall k :: i < k < |ss| ==> !ss[k].h.syn
  }

  /** The sequence number kept is that of the last SYN segment, or 0 before any. */
  lemma {:induction false} RemoteSeqIsLastSyn(start: int, ss: seq<Segment>)
    ensures (forall i :: 0 <= i < |ss| ==> !ss[i].h.syn) ==> Driven(start, ss).remoteSeq == 0
    ensures forall i: nat :: LastSyn(ss, i) ==> Driven(start, ss).remoteSeq == ss[i].h.seqNum
  {
    hide NextState;
    if ss != [] {
      var k := |ss| - 1;
      var before := ss[..k];
      RemoteSeqIsLastSyn(start, before);
      assert forall i :: 0 <= i < k ==> before[i] == ss[i];
      forall i: nat | LastSyn(ss, i)
        ensures Driven(start, ss).remoteSeq == ss[i].h.seqNum
      {
        if i < k { assert LastSyn(before, i); }
      }
    }
  }

  /** The connection is past its handshake, as its trace says. */
  ghost predicate PastHandshake(ss: seq<Segment>) {
    Reading(Since(ss)) in {Established, CloseWait}
  }

  lemma {:induction false} PastHandshakeHasSyn(ss: seq<Segment>)
    requires PastHandshake(ss)
    ensures exists i :: LastSyn(ss, i)
  {
    SinceIsSuffix(ss);
    var suffix := Since(ss);
    var i :| 0 <= i < |suffix| && Opens(suffix[i]);
    var k := |ss| - |suffix| + i;
    assert suffix[i] == ss[|ss| - |suffix|..][i] == ss[k];
    assert Opens(ss[k]) && ss[k].h.syn;
    SomeLastSyn(ss, k);
  }

  lemma {:induction false} SomeLastSyn(ss: seq<Segment>, i: nat)
    requires i < |ss| && ss[i].h.syn
    ensures exists j :: LastSyn(ss, j)
    decreases |ss| - i
  {
    if k :| i < k < |ss| && ss[k].h.syn {
      SomeLastSyn(ss, k);
    } else {
      assert LastSyn(ss, i);
    }
  }

  /** Over every trace and for every next header: it is called a retransmission exactly when it carries neither SYN nor
      FIN, the connection is past its handshake, and its number does not exceed that of the last SYN. */
  lemma {:induction false} FlaggedIff(start: int, ss: seq<Segment>, h: Header)
    ensures Flagged(Driven(start, ss), h) <==>
              && !h.syn && !h.fin && PastHandshake(ss)
              && exists i: nat :: LastSyn(ss, i) && h.seqNum <= ss[i].h.seqNum
  {
    StateReadsTrace(start, ss);
    RemoteSeqIsLastSyn(start, ss);
    if PastHandshake(ss) { PastHandshakeHasSyn(ss); }
    hide Driven, Reading, Since;
  }

  lemma {:induction false} LastSynIsUnique(ss: seq<Segment>, i: nat, j: nat)
    requires LastSyn(ss, i) && LastSyn(ss, j)
    ensures i == j
  {
  }

  /** Duplicate numbers are to be recognised. A number that some earlier segment carried, at any distance, is recognised
      exactly past the handshake and up to the number of the last SYN: data beyond that never is. */
  lemma {:induction false} RepeatIsFlaggedIff(start: int, ss: seq<Segment>, h: Header, earlier: nat, syn: nat)
    requires earlier < |ss| && ss[earlier].h.seqNum == h.seqNum && !h.syn && !h.fin && LastSyn(ss, syn)
    ensures Flagged(Driven(start, ss), h) <==> PastHandshake(ss) && ss[earlier].h.seqNum <= ss[syn].h.seqNum
  {
    FlaggedIff(start, ss, h);
    hide Driven, PastHandshake, Flagged;
    if i: nat :| LastSyn(ss, i) && h.seqNum <= ss[i].h.seqNum { LastSynIsUnique(ss, i, syn); }
  }

  /** A number `d` bytes beyond the last SYN is flagged exactly past the handshake and when it wrapped around. */
  lemma {:induction false} AdvanceIsFlaggedIff(start: int, ss: seq<Segment>, h: Header, syn: nat, d: nat)
    requires !h.syn && !h.fin && LastSyn(ss, syn)
    requires 0 < d < TWO32 && h.seqNum == (ss[syn].h.seqNum + d) % TWO32
    ensures Flagged(Driven(start, ss), h) <==> PastHandshake(ss) && ss[syn].h.seqNum + d >= TWO32
  {
    FlaggedIff(start, ss, h);
    hide Driven, PastHandshake, Flagged;
    if i: nat :| LastSyn(ss, i) && h.seqNum <= ss[i].h.seqNum { LastSynIsUnique(ss, i, syn); }
  }

  function Plain(syn: bool, ack: bool, n: u32): Header {
    Header(false, syn, false, ack, n, 0, 65535, None, None, false)
  }

  /** Data sent twice goes unnoticed; new data after the numbers wrapped around is flagged. */
  lemma {:induction false} RetransmissionMistakes()
    ensures var first := [Segment(Plain(true, false, 100), 0), Segment(Plain(false, true, 101), 0)];
            var data := Plain(false, true, 101);
            !Flagged(Driven(0, first + [Segment(data, 0)]), data)
    ensures var first := [Segment(Plain(true, false, 0xFFFF_FFFF), 0), Segment(Plain(false, true, 0), 0)];
            Flagged(Driven(0, first), Plain(false, true, 0))
  {
    var a, b, d := Segment(Plain(true, false, 100), 0), Segment(Plain(false, true, 101), 0), Segment(Plain(false, true, 101), 0);
    assert ([a, b] + [d])[..2] == [a, b] && [a, b][..1] == [a] && [a][..0] == [];
    var c, e := Segment(Plain(true, false, 0xFFFF_FFFF), 0), Segment(Plain(false, true, 0), 0);
    assert [c, e][..1] == [c] && [c][..0] == [];
  }

  // ----- the other fields -----

  ghost predicate LastAcked(ss: seq<Segment>, i: nat) {
    i < |ss| && ss[i].h.ack && forall k :: i < k < |ss| ==> !ss[k].h.ack
  }

  ghost predicate LastMss(ss: seq<Segment>, i: nat) {
    i < |ss| && ss[i].h.mss.Some? && forall k :: i < k < |ss| ==> ss[k].h.mss.None?
  }

  ghost predicate LastScale(ss: seq<Segment>, i: nat) {
    i < |ss| && ss[i].h.windowScale.Some? && forall k :: i < k < |ss| ==> ss[k].h.windowScale.None?
  }

  lemma {:induction false} DrivenBy(start: int, ss: seq<Segment>)
    requires ss != []
    ensures var c, h, d := Driven(start, ss), ss[|ss| - 1].h, Driven(start, ss[..|ss| - 1]);
            && c.remoteWindow == h.window && c.lastSeen == ss[|ss| - 1].now
            && c.hasSackPerm == (d.hasSackPerm || h.sackPermitted)
            && c.remoteAck == (if h.ack then h.ackNum else d.remoteAck)
            && c.remoteMss == (match h.mss case Some(m) => m case None => d.remoteMss)
            && c.remoteWindowScale == (match h.windowScale case Some(n) => n case None => d.remoteWindowScale)
  {
    hide NextState;
  }

  /** A connection remembers the last window, the time of the last segment, and whether selective acknowledgement was ever
      permitted. */
  lemma {:induction false} WindowIsLast(start: int, ss: seq<Segment>)
    ensures var c := Driven(start, ss);
            && c.remoteWindow == (if ss == [] then 65535 else ss[|ss| - 1].h.window)
            && c.lastSeen == (if ss == [] then start else ss[|ss| - 1].now)
            && (c.hasSackPerm <==> exists i :: 0 <= i < |ss| && ss[i].h.sackPermitted)
  {
    if ss != [] {
      var k := |ss| - 1;
      WindowIsLast(start, ss[..k]);
      DrivenBy(start, ss);
      hide Driven;
      assert forall i :: 0 <= i < k ==> ss[..k][i] == ss[i];
    }
  }

  /** The acknowledgement number of the last segment with ACK, or 0. */
  lemma {:induction false} AckIsLast(start: int, ss: seq<Segment>)
    ensures (forall i :: 0 <= i < |ss| ==> !ss[i].h.ack) ==> Driven(start, ss).remoteAck == 0
    ensures forall i: nat :: LastAcked(ss, i) ==> Driven(start, ss).remoteAck == ss[i].h.ackNum
  {
    if ss != [] {
      var k := |ss| - 1;
      var before := ss[..k];
      AckIsLast(start, before);
      DrivenBy(start, ss);
      hide Driven;
      assert forall i :: 0 <= i < k ==> before[i] == ss[i];
      forall i: nat | LastAcked(ss, i) ensures Driven(start, ss).remoteAck == ss[i].h.ackNum {
        if i < k { assert LastAcked(before, i); }
      }
    }
  }

  /** The last segment size given, or 536. */
  lemma {:induction false} MssIsLast(start: int, ss: seq<Segment>)
    ensures (forall i :: 0 <= i < |ss| ==> ss[i].h.mss.None?) ==> Driven(start, ss).remoteMss == 536
    ensures forall i: nat :: LastMss(ss, i) ==> Some(Driven(start, ss).remoteMss) == ss[i].h.mss
  {
    if ss != [] {
      var k := |ss| - 1;
      var before := ss[..k];
      MssIsLast(start, before);
      DrivenBy(start, ss);
      hide Driven;
      assert forall i :: 0 <= i < k ==> before[i] == ss[i];
      forall i: nat | LastMss(ss, i) ensures Some(Driven(start, ss).remoteMss) == ss[i].h.mss {
        if i < k { assert LastMss(before, i); }
      }
    }
  }

  /** The last window scale given, or 0. */
  lemma {:induction false} ScaleIsLast(start: int, ss: seq<Segment>)
    ensures (forall i :: 0 <= i < |ss| ==> ss[i].h.windowScale.None?) ==> Driven(start, ss).remoteWindowScale == 0
    ensures forall i: nat :: LastScale(ss, i) ==> Some(Driven(start, ss).remoteWindowScale) == ss[i].h.windowScale
  {
    if ss != [] {
      var k := |ss| - 1;
      var before := ss[..k];
      ScaleIsLast(start, before);
      DrivenBy(start, ss);
      hide Driven;
      assert forall i :: 0 <= i < k ==> before[i] == ss[i];
      forall i: nat | LastScale(ss, i) ensures Some(Driven(start, ss).remoteWindowScale) == ss[i].h.windowScale {
        if i < k { assert LastScale(before, i); }
      }
    }
  }

  /** The states that no tracked connection reaches, for connections that a caller puts into them. */
  lemma {:induction false} OtherStates(h: Header)
    ensures NextState(Listen, h) == if h.syn && !h.ack then SynReceived else Listen
    ensures NextState(SynSent, h) == if !h.syn then SynSent else if h.ack then Established else SynReceived
    ensures NextState(FinWait1, h) == if h.fin then (if h.ack then TimeWait else Closing)
                                      else if h.ack then FinWait2 else if h.rst then Closed else FinWait1
    ensures NextState(FinWait2, h) == if h.fin then TimeWait else if h.rst then Closed else FinWait2
    ensures NextState(Closing, h) == if h.ack then TimeWait else if h.rst then Closed else Closing
    ensures NextState(LastAck, h) == if h.ack || h.rst then Closed else LastAck
    ensures NextState(TimeWait, h) == if h.rst then Closed else TimeWait
  {
  }

  /** A cleanup removes closed connections, and others exactly from 30 seconds in TIME_WAIT and two minutes half-open. */
  lemma {:induction false} ExpiredIff(c: Connection, now: int)
    ensures Expired(c, now) <==>
            || c.state.Closed?
            || (c.state.TimeWait? && now - c.lastSeen >= 30_000_000_000)
            || ((c.state.SynSent? || c.state.SynReceived?) && now - c.lastSeen >= 120_000_000_000)
  {
  }

  // ----- the table -----

  type Table = map<Key, Connection>

  datatype Op = Look(key: Key, now: int) | Feed(key: Key, h: Header, now: int) | Cleanup(now: int) | Clear

  /** A segment is fed to the connection of its key, which is created when missing. */
  function Step(t: Table, op: Op): Table {
    match op
    case Look(k, now) => if k in t then t else t[k := NewConnection(now)]
    case Feed(k, h, now) => t[k := Update(if k in t then t[k] else NewConnection(now), h, now)]
    case Cleanup(now) => map k | k in t && !Expired(t[k], now) :: t[k]
    case Clear => map[]
  }

  function Run(ops: seq<Op>): Table {
    if ops == [] then map[] else Step(Run(ops[..|ops| - 1]), ops[|ops| - 1])
  }

  datatype Trail = Trail(start: int, segments: seq<Segment>)

  /** The segments of one key since its connection was last created. */
  function TrailOf(ops: seq<Op>, k: Key): Option<Trail> {
    if ops == [] then None
    else
      var before := TrailOf(ops[..|ops| - 1], k);
      match ops[|ops| - 1]
      case Look(l, now) => if l == k && before.None? then Some(Trail(now, [])) else before
      case Feed(l, h, now) =>
        if l != k then before
        else if before.None? then Some(Trail(now, [Segment(h, now)]))
        else Some(Trail(before.value.start, before.value.segments + [Segment(h, now)]))
      case Cleanup(now) =>
        if before.Some? && Expired(Driven(before.value.start, before.value.segments), now) then None else before
      case Clear => None
  }

  /** Connections do not interfere: each is driven by the segments of its own key alone. */
  lemma {:induction false} ConnectionsAreIndependent(ops: seq<Op>, k: Key)
    ensures k in Run(ops) <==> TrailOf(ops, k).Some?
    ensures k in Run(ops) ==> Run(ops)[k] == Driven(TrailOf(ops, k).value.start, TrailOf(ops, k).value.segments)
  {
    hide Update, Expired, NewConnection;
    if ops != [] {
      var before, last := TrailOf(ops[..|ops| - 1], k), ops[|ops| - 1];
      ConnectionsAreIndependent(ops[..|ops| - 1], k);
      if last.Feed? {
        var s := Segment(last.h, last.now);
        DrivenOnce(last.now, s);
        if before.Some? { DrivenFurther(before.value.start, before.value.segments, s); }
      }
    }
  }

  lemma {:induction false} DrivenFurther(start: int, ss: seq<Segment>, s: Segment)
    ensures Driven(start, ss + [s]) == Update(Driven(start, ss), s.h, s.now)
  {
    assert (ss + [s])[..|ss|] == ss;
  }

  lemma {:induction false} DrivenOnce(start: int, s: Segment)
    ensures Driven(start, [s]) == Update(NewConnection(start), s.h, s.now)
  {
    DrivenFurther(start, [], s);
    assert [] + [s] == [s];
  }

  /** Right after a cleanup only half-open connections younger than two minutes, established ones and those the peer
      has closed are left. */
  lemma {:induction false} AfterCleanup(ops: seq<Op>, now: int, k: Key)
    requires k in Run(ops + [Cleanup(now)])
    ensures k in Run(ops) && Run(ops + [Cleanup(now)])[k] == Run(ops)[k]
    ensures var c := Run(ops)[k];
            c.state.Established? || c.state.CloseWait? || (c.state.SynReceived? && now - c.lastSeen < 120_000_000_000)
  {
    assert (ops + [Cleanup(now)])[..|ops|] == ops;
    ConnectionsAreIndependent(ops, k);
    var t := TrailOf(ops, k).value;
    StateReadsTrace(t.start, t.segments);
    hide Driven, Run, TrailOf, Reading, Since, Expired;
    NotExpired(Run(ops)[k], now);
  }

  lemma {:induction false} NotExpired(c: Connection, now: int)
    requires !Expired(c, now)
    ensures !c.state.Closed? && (c.state.SynReceived? ==> now - c.lastSeen < 120_000_000_000)
  {
  }

  class TcpConnectionTracker {
    var connections: Table

    constructor ()
      ensures connections == map[]
    {
      connections := map[];
    }

    method GetConnection(key: Key, createIfMissing: bool, now: int) returns (r: Option<Connection>)
      modifies this
      ensures connections == if createIfMissing then Step(old(connections), Look(key, now)) else old(connections)
      ensures r == if key in connections then Some(connections[key]) else None
    {
      if key in connections {
        return Some(connections[key]);
      }
      if !createIfMissing {
        return None;
      }
      connections := connections[key := NewConnection(now)];
      r := Some(connections[key]);
    }

    method UpdateConnection(key: Key, h: Header, now: int)
      requires key in connections
      modifies this
      ensures connections == Step(old(connections), Feed(key, h, now))
    {
      var conn := connections[key].(lastSeen := now);
      if h.syn {
        conn := conn.(remoteSeq := h.seqNum);
        if h.ack { conn := conn.(remoteAck := h.ackNum); }
      } else if h.ack {
        conn := conn.(remoteAck := h.ackNum);
      }
      if h.mss.Some? { conn := conn.(remoteMss := h.mss.value); }
      if h.windowScale.Some? { conn := conn.(remoteWindowScale := h.windowScale.value); }
      if h.sackPermitted { conn := conn.(hasSackPerm := true); }
      conn := conn.(remoteWindow := h.window);
      conn := conn.(state := NextState(conn.state, h));
      connections := connections[key := conn];
    }

    method CleanupExpired(now: int)
      modifies this
      ensures connections == Step(old(connections), Cleanup(now))
    {
      hide Expired;
      var toErase, todo := {}, connections.Keys;
      while todo != {}
        invariant todo <= connections.Keys && toErase <= connections.Keys
        invariant forall k :: k in connections && k !in todo ==> (k in toErase <==> Expired(connections[k], now))
        invariant todo !! toErase
        decreases todo
      {
        var k :| k in todo;
        if Expired(connections[k], now) {
          toErase := toErase + {k};
        }
        todo := todo - {k};
      }
      while toErase != {}
        invariant connections.Keys <= old(connections).Keys && toErase <= connections.Keys
        invariant forall k :: k in old(connections) ==>
                    (k in connections <==> k in toErase || !Expired(old(connections)[k], now))
        invariant forall k :: k in connections ==> connections[k] == old(connections)[k]
        invariant forall k :: k in toErase ==> Expired(old(connections)[k], now)
        decreases toErase
      {
        var k :| k in toErase;
        connections := connections - {k};
        toErase := toErase - {k};
      }
    }

    method Reset()
      modifies this
      ensures connections == Step(old(connections), Clear)
    {
      connections := map[];
    }

    method Size() returns (n: nat)
      ensures n == |connections.Keys|
    {
      n := |connections|;
    }
  }
}
