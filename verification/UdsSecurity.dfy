/** Security levels of a diagnostic session (SecurityAccess, service 0x27 of ISO 14229-1). */
module UdsSecurity {
  import opened Bytes

  /** Times are nanoseconds of a steady clock. */
  const MAX_FAILED_ATTEMPTS: int := 3
  const DEFAULT_LOCKOUT: int := 10_000_000_000

  datatype Level = Level(unlocked: bool, failedAttempts: byte, lockoutUntil: Option<int>, currentSeed: seq<byte>)
  {
    predicate LockedOut(now: int) {
      lockoutUntil.Some? && now < lockoutUntil.value
    }
  }

  const NEW_LEVEL: Level := Level(false, 0, None, [])

  type Levels = map<byte, Level>

  function At(ls: Levels, n: byte): Level {
    if n in ls then ls[n] else NEW_LEVEL
  }

  predicate LockedOut(ls: Levels, n: byte, now: int) {
    At(ls, n).LockedOut(now)
  }

  predicate Unlocked(ls: Levels, n: byte, now: int) {
    At(ls, n).unlocked && !LockedOut(ls, n, now)
  }

  datatype KeyEvent = Seed(level: byte, seed: seq<byte>) | Accept(level: byte) | Reject(level: byte, now: int) | Reset

  function OnKey(ls: Levels, op: KeyEvent): Levels {
    match op
    case Seed(n, seed) => ls[n := At(ls, n).(currentSeed := seed)]
    case Accept(n) => ls[n := Level(true, 0, None, [])]
    case Reject(n, now) =>
      var failed := (At(ls, n).failedAttempts + 1) % 256;
      ls[n := Level(At(ls, n).unlocked, failed,
                    if failed >= MAX_FAILED_ATTEMPTS then Some(now + DEFAULT_LOCKOUT) else At(ls, n).lockoutUntil, [])]
    case Reset => map n | n in ls :: ls[n].(unlocked := false, currentSeed := [])
  }

  function KeyRun(ops: seq<KeyEvent>): Levels {
    if ops == [] then map[] else OnKey(KeyRun(ops[..|ops| - 1]), ops[|ops| - 1])
  }

  // ----- what a run makes of a level -----

  /** Rejections of a level since its last acceptance. */
  function Failures(ops: seq<KeyEvent>, n: byte): nat {
    if ops == [] then 0
    else
      var last, before := ops[|ops| - 1], Failures(ops[..|ops| - 1], n);
      if last == Accept(n) then 0 else if last.Reject? && last.level == n then before + 1 else before
  }

  /** The clock does not run backwards. */
  ghost predicate KeysInTime(ops: seq<KeyEvent>) {
    forall i, j :: 0 <= i < j < |ops| && ops[i].Reject? && ops[j].Reject? ==> ops[i].now <= ops[j].now
  }

  /** Rejection `i` locks the level until ten seconds later: at least the third in a row, as counted in eight bits,
      and not forgiven by a later acceptance. */
  ghost predicate Locks(ops: seq<KeyEvent>, i: nat, n: byte, now: int) {
    && i < |ops| && ops[i].Reject? && ops[i].level == n
    && Failures(ops[..i + 1], n) % 256 >= 3
    && now < ops[i].now + 10_000_000_000
    && forall j :: i < j < |ops| ==> ops[j] != Accept(n)
  }

  predicate Rejects(op: KeyEvent, n: byte) {
    op.Reject? && op.level == n
  }

  lemma {:induction false} CountersMove(ls: Levels, op: KeyEvent, n: byte)
    ensures var before, after := At(ls, n), At(OnKey(ls, op), n);
            && after.failedAttempts == (if op == Accept(n) then 0
                                       else if Rejects(op, n) then (before.failedAttempts + 1) % 256
                                       else before.failedAttempts)
            && after.lockoutUntil == (if op == Accept(n) then None
                                     else if Rejects(op, n) && after.failedAttempts >= MAX_FAILED_ATTEMPTS
                                     then Some(op.now + DEFAULT_LOCKOUT)
                                     else before.lockoutUntil)
  {
  }

  lemma {:induction false} FailuresAreCounted(ops: seq<KeyEvent>, n: byte)
    ensures At(KeyRun(ops), n).failedAttempts == Failures(ops, n) % 256
  {
    hide At, OnKey;
    if ops == [] {
      NeverTouched(n);
    } else {
      var before := ops[..|ops| - 1];
      CountersMove(KeyRun(before), ops[|ops| - 1], n);
      FailuresAreCounted(before, n);
      OneMore(Failures(before, n));
    }
  }

  lemma {:induction false} NeverTouched(n: byte)
    ensures At(map[], n) == NEW_LEVEL
  {
  }

  lemma {:induction false} OneMore(n: nat)
    ensures (n % 256 + 1) % 256 == (n + 1) % 256
  {
  }

  /** A level is locked out exactly while some unforgiven rejection locks it. */
  lemma {:induction false} LockedOutIff(ops: seq<KeyEvent>, n: byte, now: int)
    requires KeysInTime(ops)
    ensures LockedOut(KeyRun(ops), n, now) <==> exists i :: Locks(ops, i, n, now)
  {
    if ops != [] {
      var k := |ops| - 1;
      var before, last := ops[..k], ops[k];
      LockedOutIff(before, n, now);
      FailuresAreCounted(ops, n);
      CountersMove(KeyRun(before), last, n);
      hide At, OnKey, Failures;
      assert ops[..k + 1] == ops;
      assert forall i :: 0 <= i < k ==> before[i] == ops[i] && before[..i + 1] == ops[..i + 1];
      assert last != Accept(n) ==> forall i: nat :: i != k ==> (Locks(ops, i, n, now) <==> Locks(before, i, n, now));
      if last.Reject? && last.level == n && Failures(ops, n) % 256 >= MAX_FAILED_ATTEMPTS {
        assert Locks(ops, k, n, now) <==> now < last.now + DEFAULT_LOCKOUT;
      } else {
        assert !Locks(ops, k, n, now);
      }
    }
  }

  /** A level is open exactly when some acceptance was not followed by a reset and no rejection locks it now. A
      rejection alone does not close an open level: it opens again when the lockout ends. */
  lemma {:induction false} UnlockedIff(ops: seq<KeyEvent>, n: byte, now: int)
    requires KeysInTime(ops)
    ensures Unlocked(KeyRun(ops), n, now) <==>
              && (exists i :: 0 <= i < |ops| && ops[i] == Accept(n) && forall j :: i < j < |ops| ==> !ops[j].Reset?)
              && !exists i :: Locks(ops, i, n, now)
  {
    LockedOutIff(ops, n, now);
    AcceptedIff(ops, n);
  }

  lemma {:induction false} AcceptedIff(ops: seq<KeyEvent>, n: byte)
    ensures At(KeyRun(ops), n).unlocked <==>
            exists i :: 0 <= i < |ops| && ops[i] == Accept(n) && forall j :: i < j < |ops| ==> !ops[j].Reset?
  {
    if ops != [] {
      var k := |ops| - 1;
      AcceptedIff(ops[..k], n);
      if At(KeyRun(ops), n).unlocked && ops[k] != Accept(n) {
        var i :| 0 <= i < k && ops[..k][i] == Accept(n) && forall j :: i < j < k ==> !ops[..k][j].Reset?;
        assert ops[i] == Accept(n) && forall j :: i < j < |ops| ==> (j < k ==> ops[..k][j] == ops[j]) && !ops[j].Reset?;
      }
      assert forall i :: 0 <= i < k ==> ops[..k][i] == ops[i];
    }
  }

  /** Level 1 opens, three wrong keys follow at once: shut five seconds later, open again after ten. */
  lemma {:induction false} ReopensAfterLockout()
    ensures var ops := [Accept(1), Reject(1, 0), Reject(1, 0), Reject(1, 0)];
            && !Unlocked(KeyRun(ops), 1, 5_000_000_000)
            && Unlocked(KeyRun(ops), 1, 10_000_000_000)
  {
    var a, r := Accept(1), Reject(1, 0);
    assert [a, r, r, r][..3] == [a, r, r] && [a, r, r][..2] == [a, r] && [a, r][..1] == [a] && [a][..0] == [];
    assert At(KeyRun([a, r]), 1) == Level(true, 1, None, []);
    assert At(KeyRun([a, r, r]), 1) == Level(true, 2, None, []);
  }

  /** The seed kept for a level: the last one given, until a key is judged or everything is reset. */
  lemma {:induction false} SeedIs(ops: seq<KeyEvent>, n: byte, i: nat)
    requires i < |ops|
    requires forall j :: i < j < |ops| ==>
               !(ops[j].Seed? && ops[j].level == n) && ops[j] != Accept(n) && !Rejects(ops[j], n) && !ops[j].Reset?
    ensures ops[i].Seed? && ops[i].level == n ==> At(KeyRun(ops), n).currentSeed == ops[i].seed
    ensures ops[i] == Accept(n) || Rejects(ops[i], n) || ops[i].Reset? ==> At(KeyRun(ops), n).currentSeed == []
    decreases |ops|
  {
    var k := |ops| - 1;
    if i < k {
      assert forall j :: 0 <= j < k ==> ops[..k][j] == ops[j];
      SeedIs(ops[..k], n, i);
    }
  }

  class SecurityState {
    var levels: Levels

    constructor ()
      ensures levels == map[]
    {
      levels := map[];
    }

    method IsUnlocked(level: byte, now: int) returns (r: bool)
      ensures r == Unlocked(levels, level, now)
    {
      if level !in levels {
        return false;
      }
      var it := levels[level];
      r := it.unlocked && !it.LockedOut(now);
    }

    /** The greatest open level, or 0. */
    method HighestUnlockedLevel(now: int) returns (highest: byte)
      ensures forall n: byte :: Unlocked(levels, n, now) ==> n <= highest
      ensures highest == 0 || Unlocked(levels, highest, now)
    {
      highest := 0;
      var todo := levels.Keys;
      while todo != {}
        invariant todo <= levels.Keys
        invariant forall n: byte :: Unlocked(levels, n, now) && n !in todo ==> n <= highest
        invariant highest == 0 || Unlocked(levels, highest, now)
        decreases todo
      {
        var n :| n in todo;
        if levels[n].unlocked && !levels[n].LockedOut(now) && n > highest {
          highest := n;
        }
        todo := todo - {n};
      }
    }

    method SeedRequested(level: byte, seed: seq<byte>)
      modifies this
      ensures levels == OnKey(old(levels), Seed(level, seed))
    {
      levels := levels[level := At(levels, level).(currentSeed := seed)];
    }

    method KeyAccepted(level: byte)
      modifies this
      ensures levels == OnKey(old(levels), Accept(level))
    {
      levels := levels[level := At(levels, level).(unlocked := true, failedAttempts := 0, lockoutUntil := None, currentSeed := [])];
    }

    method KeyRejected(level: byte, now: int)
      modifies this
      ensures levels == OnKey(old(levels), Reject(level, now))
    {
      var failed := (At(levels, level).failedAttempts + 1) % 256;
      levels := levels[level := At(levels, level).(failedAttempts := failed, currentSeed := [])];
      if failed >= MAX_FAILED_ATTEMPTS {
        levels := levels[level := levels[level].(lockoutUntil := Some(now + DEFAULT_LOCKOUT))];
      }
    }

    method ResetAll()
      modifies this
      ensures levels == OnKey(old(levels), Reset)
    {
      var todo := levels.Keys;
      while todo != {}
        invariant todo <= levels.Keys == old(levels).Keys
        invariant forall n :: n in levels && n in todo ==> levels[n] == old(levels)[n]
        invariant forall n :: n in levels && n !in todo ==> levels[n] == old(levels)[n].(unlocked := false, currentSeed := [])
        decreases todo
      {
        var n :| n in todo;
        levels := levels[n := levels[n].(unlocked := false, currentSeed := [])];
        todo := todo - {n};
      }
    }
  }
}
