/** When the fragment reassembler forgets, in plain nanoseconds. */
module ReassemblyTiming {
  import opened Bytes
  import opened Reassembler
  import opened ReassemblyRuns

  /** The clock reading at which the entry of `k` was last written: that of the latest fragment for it. */
  ghost predicate LastArrival(ops: seq<Op>, k: Key, j: nat) {
    && j < |ops| && ops[j].Arrive? && ops[j].f.key == k
    && forall i :: j < i < |ops| ==> !(ops[i].Arrive? && ops[i].f.key == k)
  }

  lemma {:induction false} LastUpdateIs(timeout: int, k: Key, ops: seq<Op>)
    requires k in Run(timeout, map[], ops)
    ensures exists j: nat :: LastArrival(ops, k, j) && Run(timeout, map[], ops)[k].lastUpdate == ops[j].t1
  {
    hide Expired, Complete;
    if ops != [] {
      var n := |ops| - 1;
      var pre, last := ops[..n], ops[n];
      if last.Arrive? && last.f.key == k {
        assert LastArrival(ops, k, n);
      } else {
        LastUpdateIs(timeout, k, pre);
        var j: nat :| LastArrival(pre, k, j) && Run(timeout, map[], pre)[k].lastUpdate == pre[j].t1;
        assert LastArrival(ops, k, j) && pre[j] == ops[j];
      }
    }
  }

  /** The clock reading with which an operation looks for old entries. */
  predicate Looks(op: Op, now: int) {
    op == Expire(now) || (op.Arrive? && op.t0 == now)
  }

  /** Over every run, an operation that looks at `now` removes an entry, unless it is the one that a fragment is for,
      exactly when the latest fragment for it is timeout + 1 seconds old or more. */
  lemma {:induction false} RemovedIff(timeout: int, ops: seq<Op>, op: Op, now: int, k: Key, j: nat)
    requires timeout >= 0 && Looks(op, now) && !(op.Arrive? && op.f.key == k)
    requires k in Run(timeout, map[], ops) && LastArrival(ops, k, j)
    ensures k !in Run(timeout, map[], ops + [op]) <==> now - ops[j].t1 >= (timeout + 1) * 1_000_000_000
  {
    assert (ops + [op])[..|ops|] == ops;
    LastUpdateIs(timeout, k, ops);
    var i: nat :| LastArrival(ops, k, i) && Run(timeout, map[], ops)[k].lastUpdate == ops[i].t1;
    assert i == j;
    ExpiredIff(timeout, now, Run(timeout, map[], ops)[k]);
    hide Run, Expired, Complete, Stored;
  }

  /** Two fragments of one datagram are joined exactly when the second comes less than timeout + 1 seconds after the first:
      one nanosecond before, and not at that moment. */
  lemma {:induction false} SecondFragmentJoinsIff(timeout: int, k: Key, a: seq<byte>, b: seq<byte>, t: int, t0: int, t1: int)
    requires timeout >= 0 && a != []
    ensures var ops := [Arrive(Fragment(k, 0, true, a), t, t), Arrive(Fragment(k, |a|, false, b), t0, t1)];
            Answer(timeout, map[], ops) == if t0 - t < (timeout + 1) * 1_000_000_000 then Some(a + b) else None
  {
    var f, g := Fragment(k, 0, true, a), Fragment(k, |a|, false, b);
    var ops := [Arrive(f, t, t), Arrive(g, t0, t1)];
    assert ops[..1] == [Arrive(f, t, t)] && ops[..1][..0] == [];
    var e := Stored(EMPTY, f, t);
    assert e == Entry([Piece(0, a)], false, 0, t);
    assert !Complete(e);
    assert Run(timeout, map[], ops[..1]) == map[k := e];
    ExpiredIff(timeout, t0, e);
    hide Expired;
    JoinedPair(a, b);
    var joined, alone := Stored(e, g, t1), Stored(EMPTY, g, t1);
    assert joined.fragments == [Piece(0, a), Piece(|a|, b)];
    assert alone.fragments == [Piece(|a|, b)];
    assert !Tiles(alone.fragments, 0);
  }

  lemma {:induction false} JoinedPair(a: seq<byte>, b: seq<byte>)
    requires a != []
    ensures Put([Piece(0, a)], Piece(|a|, b)) == [Piece(0, a), Piece(|a|, b)]
    ensures var ps := [Piece(0, a), Piece(|a|, b)];
            Tiles(ps, 0) && Length(ps) == |a| + |b| && Joined(ps) == a + b
  {
    assert [Piece(0, a)][1..] == [];
    var ps := [Piece(0, a), Piece(|a|, b)];
    var tail := [Piece(|a|, b)];
    assert ps[1..] == tail && tail[1..] == [];
    assert b + [] == b;
    assert Length(tail) == |b| && Joined(tail) == b;
  }
}
