/** A diagnostic session (ISO 14229-1) as it follows from the raw messages that pass by. */
module UdsSession {
  import opened Bytes
  import opened UdsSecurity

  const NEGATIVE_RESPONSE: byte := 0x7F
  const SESSION_CONTROL: byte := 0x10
  const ECU_RESET: byte := 0x11
  const SECURITY_ACCESS: byte := 0x27
  const DEFAULT_SESSION: byte := 1
  const PROGRAMMING_SESSION: byte := 2

  // ----- decoding -----

  /** The decoded messages that bear on a session; `Other` is every other or too short message. */
  datatype Content =
    | SessionRequest(kind: byte)
    | SessionResponse(kind: byte, p2: u16, p2Star: u16)
    | ResetRequest(resetType: byte)
    | SecurityRequest(accessType: byte, key: seq<byte>)
    | SecurityResponse(accessType: byte, seed: seq<byte>)
    | Negative(rejected: byte, code: byte)
    | Other

  datatype Decoded = Decoded(service: byte, content: Content)

  function DecodeRequest(data: seq<byte>): Decoded
    requires data != []
  {
    var sid := data[0];
    var sub := if |data| >= 2 then data[1] % 0x80 else 0;
    Decoded(sid,
      if |data| < 2 then Other
      else if sid == SESSION_CONTROL then SessionRequest(sub)
      else if sid == ECU_RESET then ResetRequest(sub)
      else if sid == SECURITY_ACCESS then SecurityRequest(sub, if sub % 2 == 0 then data[2..] else [])
      else Other)
  }

  function DecodeResponse(data: seq<byte>): Decoded
    requires data != [] && data[0] >= 0x40
  {
    var service := data[0] - 0x40;
    Decoded(service,
      if |data| < 2 then Other
      else if service == SESSION_CONTROL then
        if |data| >= 6 then SessionResponse(data[1], Be16(data, 2), Be16(data, 4)) else SessionResponse(data[1], 0, 0)
      else if service == SECURITY_ACCESS then SecurityResponse(data[1], if data[1] % 2 == 1 then data[2..] else [])
      else Other)
  }

  /** None when the message is too short to be one. */
  function Decode(data: seq<byte>): Option<Decoded> {
    if |data| < 1 then None
    else if data[0] == NEGATIVE_RESPONSE then
      if |data| < 3 then None else Some(Decoded(data[1], Negative(data[1], data[2])))
    else if data[0] / 0x40 % 2 == 1 then Some(DecodeResponse(data))
    else Some(DecodeRequest(data))
  }

  // ----- the session -----

  /** In milliseconds, which the program keeps as signed numbers. */
  datatype Timing = Timing(p2: int, p2Star: int, s3: int)

  const DEFAULT_TIMING: Timing := Timing(50, 5000, 5000)
  const PROGRAMMING_TIMING: Timing := Timing(50, 5000, 5000)

  datatype Session = Session(kind: byte, active: bool, timing: Timing, levels: Levels, lastActivity: int)
  {
    /** Elapsed time is compared in nanoseconds. */
    predicate TimedOut(now: int) {
      active && now - lastActivity > timing.s3 * 1_000_000
    }
  }

  function Fresh(now: int): Session {
    Session(DEFAULT_SESSION, false, DEFAULT_TIMING, map[], now)
  }

  function Transition(s: Session, kind: byte): Session {
    s.(kind := kind, active := true,
       levels := if s.kind != kind then OnKey(s.levels, Reset) else s.levels,
       timing := if kind == PROGRAMMING_SESSION then PROGRAMMING_TIMING else s.timing)
  }

  function Ended(s: Session, now: int): Session {
    Session(DEFAULT_SESSION, false, DEFAULT_TIMING, OnKey(s.levels, Reset), now)
  }

  function OnSessionResponse(s: Session, kind: byte, p2: u16, p2Star: u16): Session {
    var t := Transition(s, kind);
    t.(timing := Timing(if p2 > 0 then p2 else t.timing.p2, if p2Star > 0 then p2Star * 10 else t.timing.p2Star, t.timing.s3))
  }

  function OnDecoded(s: Session, d: Decoded, isRequest: bool, now: int): Session {
    var t := s.(lastActivity := now);
    match d.content
    case SessionResponse(kind, p2, p2Star) => if isRequest then t else OnSessionResponse(t, kind, p2, p2Star)
    case SecurityResponse(accessType, _) =>
      if isRequest || accessType % 2 == 1 then t else t.(levels := OnKey(t.levels, Accept((accessType + 1) / 2)))
    case ResetRequest(_) => if isRequest then Ended(t, now) else t
    case _ => t
  }

  datatype Action =
    | Message(data: seq<byte>, isRequest: bool)
    | ResetSession
    | RefreshTimeout
    | ForceKind(kind: byte)
    | UpdateTiming(timing: Timing)

  datatype Op = Op(now: int, act: Action)

  function Act(s: Session, op: Op): Session {
    match op.act
    case Message(data, isRequest) =>
      var d := Decode(data);
      if d.None? then s else OnDecoded(s, d.value, isRequest, op.now)
    case ResetSession => Ended(s, op.now)
    case RefreshTimeout => s.(lastActivity := op.now)
    case ForceKind(kind) => Transition(s, kind)
    case UpdateTiming(timing) => s.(timing := timing)
  }

  function Run(start: int, ops: seq<Op>): Session {
    if ops == [] then Fresh(start) else Act(Run(start, ops[..|ops| - 1]), ops[|ops| - 1])
  }

  // ----- what the raw bytes say -----

  /** A response `67 t` with t == 2 * n, told apart from a seed response by t being even. */
  predicate Grants(op: Op, n: byte) {
    op.act.Message? && !op.act.isRequest && |op.act.data| >= 2 && op.act.data[0] == 0x67 && op.act.data[1] == 2 * n as int
  }

  /** A response `50 k`, or the session type forced from outside. */
  function Opens(op: Op): Option<byte> {
    match op.act
    case Message(data, isRequest) => if !isRequest && |data| >= 2 && data[0] == 0x50 then Some(data[1]) else None
    case ForceKind(kind) => Some(kind)
    case _ => None
  }

  /** A request `11 r`, or a reset from outside. */
  predicate Ends(op: Op) {
    match op.act
    case Message(data, isRequest) => isRequest && |data| >= 2 && data[0] == 0x11
    case ResetSession => true
    case _ => false
  }

  function KindAfter(ops: seq<Op>): byte {
    if ops == [] then 1
    else
      var last := ops[|ops| - 1];
      if Ends(last) then 1
      else if Opens(last).Some? then Opens(last).value
      else KindAfter(ops[..|ops| - 1])
  }

  /** Operation `j` ends the session or changes its type. */
  ghost predicate Clears(ops: seq<Op>, j: nat)
    requires j < |ops|
  {
    Ends(ops[j]) || (Opens(ops[j]).Some? && Opens(ops[j]).value != KindAfter(ops[..j]))
  }

  /** One operation, seen only through what its bytes are. */
  lemma {:induction false} ActByBytes(s: Session, op: Op)
    ensures var t := Act(s, op);
            && (Ends(op) ==> t == Ended(s, op.now))
            && (Opens(op).Some? ==> t.kind == Opens(op).value && t.active)
            && (Opens(op).Some? ==> t.timing.s3 == if t.kind == PROGRAMMING_SESSION then 5000 else s.timing.s3)
            && (Opens(op).Some? ==> t.levels == if t.kind != s.kind then OnKey(s.levels, Reset) else s.levels)
            && (!Ends(op) && Opens(op).None? ==> t.kind == s.kind && t.active == s.active)
            && (!Ends(op) && Opens(op).None? && !op.act.UpdateTiming? ==> t.timing == s.timing)
            && (op.act.UpdateTiming? ==> t.timing == op.act.timing)
            && (!Ends(op) && Opens(op).None? && (forall n: byte :: !Grants(op, n)) ==> t.levels == s.levels)
            && (forall n: byte :: Grants(op, n) ==> t.levels == OnKey(s.levels, Accept(n)))
  {
    hide OnKey;
    forall n: byte | Grants(op, n)
      ensures Act(s, op).levels == OnKey(s.levels, Accept(n))
    {
      assert (2 * n as int + 1) / 2 == n;
    }
    if op.act.Message? && Decode(op.act.data).Some? && !op.act.isRequest {
      var c := Decode(op.act.data).value.content;
      if c.SecurityResponse? && c.accessType % 2 == 0 {
        assert Grants(op, (c.accessType + 1) / 2);
      }
    }
  }

  ghost predicate Granted(ops: seq<Op>, i: nat, n: byte) {
    i < |ops| && Grants(ops[i], n) && forall j :: i < j < |ops| ==> !Clears(ops, j)
  }

  lemma {:induction false} KindIs(start: int, ops: seq<Op>)
    ensures Run(start, ops).kind == KindAfter(ops)
  {
    if ops != [] {
      KindIs(start, ops[..|ops| - 1]);
      ActByBytes(Run(start, ops[..|ops| - 1]), ops[|ops| - 1]);
      hide Act;
    }
  }

  /** Over every run of raw messages and commands: a level is open exactly when a response to its key came, and after
      it neither a change of session type nor a reset. */
  lemma {:induction false} UnlockedIff(start: int, ops: seq<Op>, n: byte, now: int)
    ensures Unlocked(Run(start, ops).levels, n, now) <==> exists i :: Granted(ops, i, n)
    ensures At(Run(start, ops).levels, n).lockoutUntil.None?
  {
    if ops != [] {
      var k := |ops| - 1;
      var before, s := ops[..k], Run(start, ops[..k]);
      UnlockedIff(start, before, n, now);
      KindIs(start, before);
      ActByBytes(s, ops[k]);
      GrantedExtends(ops, n);
      KeyOnLevel(s.levels, n, now);
      hide Act, At, Unlocked, OnKey;
    }
  }

  lemma {:induction false} KeyOnLevel(ls: Levels, n: byte, now: int)
    requires At(ls, n).lockoutUntil.None?
    ensures forall m: byte :: var t := OnKey(ls, Accept(m));
              At(t, n).lockoutUntil.None? && (Unlocked(t, n, now) <==> m == n || Unlocked(ls, n, now))
    ensures var t := OnKey(ls, Reset); At(t, n).lockoutUntil.None? && !Unlocked(t, n, now)
  {
  }

  lemma {:induction false} GrantedExtends(ops: seq<Op>, n: byte)
    requires ops != []
    ensures var k := |ops| - 1;
            (exists i :: Granted(ops, i, n)) <==> Grants(ops[k], n) || (!Clears(ops, k) && exists i :: Granted(ops[..k], i, n))
  {
    hide Grants, Opens, Ends, KindAfter;
    var k := |ops| - 1;
    var before := ops[..k];
    assert forall j :: 0 <= j < k ==> before[j] == ops[j] && before[..j] == ops[..j];
    assert forall j :: 0 <= j < k ==> (Clears(before, j) <==> Clears(ops, j));
    if Grants(ops[k], n) {
      assert Granted(ops, k, n);
    }
    if i: nat :| Granted(ops, i, n) && i != k {
      assert Granted(before, i, n);
    }
    if i: nat :| Granted(before, i, n) && !Clears(ops, k) {
      assert Granted(ops, i, n);
    }
  }

  // ----- timing out -----

  predicate Touches(op: Op) {
    match op.act
    case Message(data, _) => data != [] && (data[0] == 0x7F ==> |data| >= 3)
    case ResetSession => true
    case RefreshTimeout => true
    case _ => false
  }

  ghost predicate Monotone(start: int, ops: seq<Op>) {
    && (forall i :: 0 <= i < |ops| ==> start <= ops[i].now)
    && forall i, j :: 0 <= i < j < |ops| ==> ops[i].now <= ops[j].now
  }

  ghost predicate Opened(ops: seq<Op>, i: nat) {
    i < |ops| && Opens(ops[i]).Some? && forall j :: i < j < |ops| ==> !Ends(ops[j])
  }

  ghost predicate SilentSince(start: int, ops: seq<Op>, t: int) {
    start < t && forall i :: 0 <= i < |ops| && Touches(ops[i]) ==> ops[i].now < t
  }

  /** The timeout in force: five seconds from the start, after a reset and after a change to programming; otherwise what
      was last set. */
  function S3After(ops: seq<Op>): int {
    if ops == [] then 5000
    else
      var last := ops[|ops| - 1];
      if Ends(last) || Opens(last) == Some(2) then 5000
      else if last.act.UpdateTiming? then last.act.timing.s3
      else S3After(ops[..|ops| - 1])
  }

  lemma {:induction false} S3Is(start: int, ops: seq<Op>)
    ensures Run(start, ops).timing.s3 == S3After(ops)
  {
    if ops != [] {
      S3Is(start, ops[..|ops| - 1]);
      ActByBytes(Run(start, ops[..|ops| - 1]), ops[|ops| - 1]);
      hide Act;
    }
  }

  lemma {:induction false} ActiveIff(start: int, ops: seq<Op>)
    ensures Run(start, ops).active <==> exists i :: Opened(ops, i)
  {
    if ops != [] {
      var k := |ops| - 1;
      ActiveIff(start, ops[..k]);
      ActByBytes(Run(start, ops[..k]), ops[k]);
      OpenedExtends(ops);
      hide Act, Opens, Ends, Opened;
    }
  }

  lemma {:induction false} SilentIff(start: int, ops: seq<Op>, t: int)
    requires Monotone(start, ops)
    ensures Run(start, ops).lastActivity < t <==> SilentSince(start, ops, t)
  {
    if ops != [] {
      var k := |ops| - 1;
      SilentIff(start, ops[..k], t);
      LastActivityMoves(Run(start, ops[..k]), ops[k]);
      hide Act;
      SilenceExtends(start, ops, t);
      LastActivityBound(start, ops[..k], ops[k].now);
    }
  }

  /** Over every run a session reads as timed out exactly when it was opened, not ended since, and nothing touched it
      for longer than the timeout in force. */
  lemma {:induction false} TimedOutIff(start: int, ops: seq<Op>, now: int)
    requires Monotone(start, ops)
    ensures Run(start, ops).TimedOut(now) <==>
            (exists i :: Opened(ops, i)) && SilentSince(start, ops, now - S3After(ops) * 1_000_000)
  {
    S3Is(start, ops);
    ActiveIff(start, ops);
    SilentIff(start, ops, now - S3After(ops) * 1_000_000);
    hide Run, S3After, Opened, SilentSince;
  }

  lemma {:induction false} LastActivityMoves(s: Session, op: Op)
    ensures Act(s, op).lastActivity == if Touches(op) then op.now else s.lastActivity
  {
    hide OnKey;
  }

  lemma {:induction false} LastActivityBound(start: int, ops: seq<Op>, t: int)
    requires start <= t && forall i :: 0 <= i < |ops| ==> ops[i].now <= t
    ensures Run(start, ops).lastActivity <= t
  {
    if ops != [] {
      LastActivityMoves(Run(start, ops[..|ops| - 1]), ops[|ops| - 1]);
      LastActivityBound(start, ops[..|ops| - 1], t);
      hide Act;
    }
  }

  lemma {:induction false} OpenedExtends(ops: seq<Op>)
    requires ops != []
    ensures var k := |ops| - 1;
            (exists i :: Opened(ops, i)) <==> Opens(ops[k]).Some? || (!Ends(ops[k]) && exists i :: Opened(ops[..k], i))
  {
    hide Opens, Ends;
    var k := |ops| - 1;
    var before := ops[..k];
    if Opens(ops[k]).Some? {
      assert Opened(ops, k);
    }
    if i: nat :| Opened(ops, i) && i != k {
      assert Opened(before, i);
    }
    if i: nat :| Opened(before, i) && !Ends(ops[k]) {
      assert forall j :: i < j < k ==> before[j] == ops[j];
      assert Opened(ops, i);
    }
  }

  lemma {:induction false} SilenceExtends(start: int, ops: seq<Op>, t: int)
    requires ops != []
    ensures var k := |ops| - 1;
            SilentSince(start, ops, t) <==> SilentSince(start, ops[..k], t) && (Touches(ops[k]) ==> ops[k].now < t)
  {
    hide Touches;
    var before := ops[..|ops| - 1];
    assert forall i :: 0 <= i < |before| ==> before[i] == ops[i];
  }

  // ----- the response times -----

  /** The 16-bit field at `i` of a session response with its timing, 0 for any other operation. */
  function ResponseField(op: Op, i: nat): nat
    requires i == 2 || i == 4
  {
    match op.act
    case Message(data, isRequest) =>
      if !isRequest && |data| >= 6 && data[0] == 0x50 then data[i] as int * 256 + data[i + 1] as int else 0
    case _ => 0
  }

  /** P2 in milliseconds: the last response that gives it, unless the timing was set, reset or changed to programming
      since. */
  function P2After(ops: seq<Op>): int {
    if ops == [] then 50
    else
      var last := ops[|ops| - 1];
      if last.act.UpdateTiming? then last.act.timing.p2
      else if ResponseField(last, 2) > 0 then ResponseField(last, 2)
      else if Ends(last) || Opens(last) == Some(2) then 50
      else P2After(ops[..|ops| - 1])
  }

  /** P2* likewise; responses give it in units of ten milliseconds. */
  function P2StarAfter(ops: seq<Op>): int {
    if ops == [] then 5000
    else
      var last := ops[|ops| - 1];
      if last.act.UpdateTiming? then last.act.timing.p2Star
      else if ResponseField(last, 4) > 0 then ResponseField(last, 4) * 10
      else if Ends(last) || Opens(last) == Some(2) then 5000
      else P2StarAfter(ops[..|ops| - 1])
  }

  lemma {:induction false} ResponseTimesMove(s: Session, op: Op)
    ensures var t := Act(s, op).timing;
            && t.p2 == (if op.act.UpdateTiming? then op.act.timing.p2
                        else if ResponseField(op, 2) > 0 then ResponseField(op, 2)
                        else if Ends(op) || Opens(op) == Some(2) then 50
                        else s.timing.p2)
            && t.p2Star == (if op.act.UpdateTiming? then op.act.timing.p2Star
                            else if ResponseField(op, 4) > 0 then ResponseField(op, 4) * 10
                            else if Ends(op) || Opens(op) == Some(2) then 5000
                            else s.timing.p2Star)
  {
    hide OnKey;
  }

  /** After every run the response times are those given by the raw bytes of the last response that carries them. */
  lemma {:induction false} ResponseTimesAre(start: int, ops: seq<Op>)
    ensures Run(start, ops).timing.p2 == P2After(ops) && Run(start, ops).timing.p2Star == P2StarAfter(ops)
  {
    if ops != [] {
      ResponseTimesAre(start, ops[..|ops| - 1]);
      ResponseTimesMove(Run(start, ops[..|ops| - 1]), ops[|ops| - 1]);
      hide Act, ResponseField, Ends, Opens;
    }
  }

  /** 50 03 00 32 01 F4: P2 is 50 ms and P2* five seconds. */
  lemma {:induction false} ResponseTimesRead(start: int)
    ensures var ops := [Op(start, Message([0x50, 0x03, 0x00, 0x32, 0x01, 0xF4], false))];
            P2After(ops) == 50 && P2StarAfter(ops) == 5000
  {
  }
}
