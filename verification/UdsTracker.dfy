/** The session trackers: one session, and the sessions of many control units. */
module UdsTracker {
  import opened Bytes
  import opened UdsSecurity
  import opened UdsSession

  class Tracker {
    var kind: byte
    var active: bool
    var timing: Timing
    const security: SecurityState
    var lastActivity: int

    function Abs(): Session
      reads this, security
    {
      Session(kind, active, timing, security.levels, lastActivity)
    }

    constructor (now: int)
      ensures Abs() == Fresh(now) && fresh(security)
    {
      kind, active, timing, lastActivity := DEFAULT_SESSION, false, DEFAULT_TIMING, now;
      security := new SecurityState();
    }

    method TransitionToSession(newKind: byte)
      modifies this, security
      ensures Abs() == Transition(old(Abs()), newKind)
    {
      hide OnKey;
      var oldKind := kind;
      kind, active := newKind, true;
      if oldKind != newKind {
        security.ResetAll();
      }
      if newKind == PROGRAMMING_SESSION {
        timing := PROGRAMMING_TIMING;
      }
    }

    method ResetInternal(now: int)
      modifies this, security
      ensures Abs() == Ended(old(Abs()), now)
    {
      hide OnKey;
      kind, active, timing := DEFAULT_SESSION, false, DEFAULT_TIMING;
      security.ResetAll();
      lastActivity := now;
    }

    method HandleSessionResponse(newKind: byte, p2: u16, p2Star: u16)
      modifies this, security
      ensures Abs() == OnSessionResponse(old(Abs()), newKind, p2, p2Star)
    {
      hide OnKey;
      TransitionToSession(newKind);
      if p2 > 0 {
        timing := timing.(p2 := p2);
      }
      if p2Star > 0 {
        timing := timing.(p2Star := p2Star * 10);
      }
    }

    method HandleSecurityResponse(accessType: byte)
      modifies this, security
      ensures Abs() == if accessType % 2 == 1 then old(Abs())
                       else old(Abs()).(levels := OnKey(old(security.levels), Accept((accessType + 1) / 2)))
    {
      hide OnKey;
      if accessType % 2 == 0 {
        security.KeyAccepted((accessType + 1) / 2);
      }
    }

    method ProcessDecoded(d: Decoded, isRequest: bool, now: int)
      modifies this, security
      ensures Abs() == OnDecoded(old(Abs()), d, isRequest, now)
    {
      hide OnKey, Transition;
      lastActivity := now;
      if !d.content.Negative? {
        match d.content
        case SessionResponse(newKind, p2, p2Star) =>
          if !isRequest { HandleSessionResponse(newKind, p2, p2Star); }
        case SecurityResponse(accessType, _) =>
          if !isRequest { HandleSecurityResponse(accessType); }
        case ResetRequest(_) =>
          if isRequest { ResetInternal(now); }
        case _ =>
      }
    }

    /** False, and nothing changed, when the message cannot be decoded. */
    method ProcessMessage(data: seq<byte>, isRequest: bool, now: int) returns (ok: bool)
      modifies this, security
      ensures Abs() == Act(old(Abs()), Op(now, Message(data, isRequest)))
      ensures ok <==> Decode(data).Some?
    {
      hide OnKey, OnDecoded;
      var d := Decode(data);
      if d.None? {
        return false;
      }
      ProcessDecoded(d.value, isRequest, now);
      ok := true;
    }

    method Perform(op: Op)
      modifies this, security
      ensures Abs() == Act(old(Abs()), op)
    {
      hide OnKey, OnDecoded;
      match op.act
      case Message(data, isRequest) => var _ := ProcessMessage(data, isRequest, op.now);
      case ResetSession => ResetInternal(op.now);
      case RefreshTimeout => lastActivity := op.now;
      case ForceKind(newKind) => TransitionToSession(newKind);
      case UpdateTiming(t) => timing := t;
    }
  }

  // ----- many control units -----

  /** What is done to the sessions of a manager. */
  datatype ManagerOp = ForUnit(address: u16, op: Op) | ResetEvery(now: int) | Remove(address: u16)

  type Sessions = map<u16, Session>

  function ManagerStep(m: Sessions, op: ManagerOp): Sessions {
    match op
    case ForUnit(a, o) => m[a := Act(if a in m then m[a] else Fresh(o.now), o)]
    case ResetEvery(now) => map a | a in m :: Act(m[a], Op(now, ResetSession))
    case Remove(a) => m - {a}
  }

  function ManagerRun(ops: seq<ManagerOp>): Sessions {
    if ops == [] then map[] else ManagerStep(ManagerRun(ops[..|ops| - 1]), ops[|ops| - 1])
  }

  /** The operations on one control unit since it was last removed; a reset of every session reaches it only once it
      exists. */
  function Project(ops: seq<ManagerOp>, a: u16): seq<Op> {
    if ops == [] then []
    else
      var before := Project(ops[..|ops| - 1], a);
      match ops[|ops| - 1]
      case ForUnit(b, o) => if a == b then before + [o] else before
      case ResetEvery(now) => if before == [] then [] else before + [Op(now, ResetSession)]
      case Remove(b) => if a == b then [] else before
  }

  /** Sessions do not interfere: each is the run of its own unit's operations alone. */
  lemma {:induction false} UnitsAreIndependent(ops: seq<ManagerOp>, a: u16)
    ensures a in ManagerRun(ops) <==> Project(ops, a) != []
    ensures a in ManagerRun(ops) ==> ManagerRun(ops)[a] == Run(Project(ops, a)[0].now, Project(ops, a))
  {
    hide Act, Fresh;
    if ops != [] {
      var before, last := Project(ops[..|ops| - 1], a), ops[|ops| - 1];
      UnitsAreIndependent(ops[..|ops| - 1], a);
      if last.ForUnit? {
        RunExtends(before, last.op);
      } else if last.ResetEvery? {
        RunExtends(before, Op(last.now, ResetSession));
      }
    }
  }

  lemma {:induction false} RunExtends(ops: seq<Op>, op: Op)
    ensures var all := ops + [op];
            Run(all[0].now, all) == Act(if ops == [] then Fresh(op.now) else Run(ops[0].now, ops), op)
  {
    hide Act, Fresh;
    var all := ops + [op];
    assert all[..|ops|] == ops;
  }

  class SessionManager {
    var trackers: map<u16, Tracker>

    /** No two control units share a tracker. */
    ghost predicate Valid()
      reads this, trackers.Values
    {
      forall a, b :: a in trackers && b in trackers && a != b ==>
        trackers[a] != trackers[b] && trackers[a].security != trackers[b].security
    }

    ghost function Footprint(): set<object>
      reads this
    {
      {this} + (set a | a in trackers :: trackers[a]) + (set a | a in trackers :: trackers[a].security)
    }

    ghost function Abs(): Sessions
      reads Footprint()
    {
      map a | a in trackers :: trackers[a].Abs()
    }

    constructor ()
      ensures Valid() && Abs() == map[]
    {
      trackers := map[];
    }

    method GetSession(a: u16, now: int) returns (t: Tracker)
      requires Valid()
      modifies this
      ensures Valid() && a in trackers && trackers[a] == t
      ensures trackers.Keys == old(trackers).Keys + {a}
      ensures forall b :: b in old(trackers) ==> trackers[b] == old(trackers)[b]
      ensures a !in old(trackers) ==> fresh(t) && fresh(t.security) && t.Abs() == Fresh(now)
    {
      if a !in trackers {
        t := new Tracker(now);
        trackers := trackers[a := t];
      } else {
        t := trackers[a];
      }
    }

    method Handle(a: u16, op: Op)
      requires Valid()
      modifies Footprint()
      ensures Valid() && Abs() == ManagerStep(old(Abs()), ForUnit(a, op))
    {
      hide Act, Fresh, Tracker.Abs;
      var t := GetSession(a, op.now);
      t.Perform(op);
    }

    method RemoveSession(a: u16)
      requires Valid()
      modifies this
      ensures Valid() && Abs() == ManagerStep(old(Abs()), Remove(a))
    {
      trackers := trackers - {a};
    }

    method ResetAll(now: int)
      requires Valid()
      modifies Footprint()
      ensures Valid() && trackers == old(trackers) && Abs() == ManagerStep(old(Abs()), ResetEvery(now))
    {
      hide Ended, Tracker.Abs;
      var todo := trackers.Keys;
      while todo != {}
        invariant todo <= trackers.Keys && trackers == old(trackers) && Valid()
        invariant forall a :: a in trackers && a in todo ==> trackers[a].Abs() == old(trackers[a].Abs())
        invariant forall a :: a in trackers && a !in todo ==> trackers[a].Abs() == Ended(old(trackers[a].Abs()), now)
        decreases todo
      {
        var a :| a in todo;
        trackers[a].ResetInternal(now);
        todo := todo - {a};
      }
    }
  }
}
