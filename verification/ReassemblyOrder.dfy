/** Reassembly does not depend on the order in which the fragments of a datagram arrive. */
module ReassemblyOrder {
  import opened Bytes
  import opened Reassembler
  import opened ReassemblyRuns

  // ----- a payload cut into consecutive non-empty pieces -----

  ghost predicate IsCut(cut: seq<seq<byte>>) {
    cut != [] && forall i :: 0 <= i < |cut| ==> cut[i] != []
  }

  function Flatten(cut: seq<seq<byte>>): seq<byte> {
    if cut == [] then [] else cut[0] + Flatten(cut[1..])
  }

  function CutOffset(cut: seq<seq<byte>>, i: nat): nat
    requires i <= |cut|
  {
    if i == 0 then 0 else CutOffset(cut, i - 1) + |cut[i - 1]|
  }

  function CutPiece(cut: seq<seq<byte>>, i: nat): Piece
    requires i < |cut|
  {
    Piece(CutOffset(cut, i), cut[i])
  }

  function CutFragment(k: Key, cut: seq<seq<byte>>, i: nat): Fragment
    requires i < |cut|
  {
    Fragment(k, CutOffset(cut, i), i + 1 < |cut|, cut[i])
  }

  function CutPieces(cut: seq<seq<byte>>, i: nat): seq<Piece>
    requires i <= |cut|
    decreases |cut| - i
  {
    if i == |cut| then [] else [CutPiece(cut, i)] + CutPieces(cut, i + 1)
  }

  lemma {:induction false} OffsetsIncrease(cut: seq<seq<byte>>, i: nat, j: nat)
    requires IsCut(cut) && i < j <= |cut|
    ensures CutOffset(cut, i) < CutOffset(cut, j)
  {
    if i + 1 < j { OffsetsIncrease(cut, i, j - 1); }
  }

  lemma {:induction false} OffsetsInjective(cut: seq<seq<byte>>, i: nat, j: nat)
    requires IsCut(cut) && i < |cut| && j < |cut|
    requires CutOffset(cut, i) == CutOffset(cut, j)
    ensures i == j
  {
    if i < j { OffsetsIncrease(cut, i, j); } else if j < i { OffsetsIncrease(cut, j, i); }
  }

  lemma {:induction false} CutPiecesAreTheCut(cut: seq<seq<byte>>, i: nat)
    requires IsCut(cut) && i <= |cut|
    ensures Sorted(CutPieces(cut, i))
    ensures forall p :: p in CutPieces(cut, i) <==> exists j :: i <= j < |cut| && p == CutPiece(cut, j)
    ensures Tiles(CutPieces(cut, i), CutOffset(cut, i))
    ensures CutOffset(cut, i) + Length(CutPieces(cut, i)) == CutOffset(cut, |cut|)
    ensures Joined(CutPieces(cut, i)) == Flatten(cut[i..])
    decreases |cut| - i
  {
    if i < |cut| {
      CutPiecesAreTheCut(cut, i + 1);
      var ps, t := CutPieces(cut, i), CutPieces(cut, i + 1);
      assert ps[1..] == t && cut[i..][1..] == cut[i + 1..];
      forall p ensures p in ps <==> exists j :: i <= j < |cut| && p == CutPiece(cut, j) {
        assert p in ps <==> p == CutPiece(cut, i) || p in t;
      }
      forall b | 0 < b < |ps| ensures ps[0].off < ps[b].off {
        assert ps[b] in t;
        var j :| i + 1 <= j < |cut| && ps[b] == CutPiece(cut, j);
        OffsetsIncrease(cut, i, j);
      }
    }
  }

  /** Pieces of the cut that lie end to end from piece `i` to the end are all the remaining pieces. */
  lemma {:induction false} TilingForcesAll(cut: seq<seq<byte>>, i: nat, qs: seq<Piece>)
    requires IsCut(cut) && i <= |cut|
    requires forall q :: q in qs ==> exists j :: 0 <= j < |cut| && q == CutPiece(cut, j)
    requires Tiles(qs, CutOffset(cut, i))
    requires CutOffset(cut, i) + Length(qs) == CutOffset(cut, |cut|)
    ensures qs == CutPieces(cut, i)
    decreases qs
  {
    if qs == [] {
      if i < |cut| { OffsetsIncrease(cut, i, |cut|); }
    } else {
      assert qs[0] in qs;
      var j :| 0 <= j < |cut| && qs[0] == CutPiece(cut, j);
      if i < |cut| {
        OffsetsInjective(cut, i, j);
        assert forall q :: q in qs[1..] ==> q in qs;
        TilingForcesAll(cut, i + 1, qs[1..]);
      }
    }
  }

  // ----- runs in which datagram `k` carries the pieces of `cut` -----

  ghost predicate Carries(k: Key, cut: seq<seq<byte>>, op: Op) {
    && !op.Clear?
    && (op.Arrive? && op.f.key == k ==> exists i :: 0 <= i < |cut| && op.f == CutFragment(k, cut, i))
  }

  predicate For(k: Key, op: Op) {
    op.Arrive? && op.f.key == k
  }

  ghost predicate Arrived(ops: seq<Op>, f: Fragment) {
    exists j :: 0 <= j < |ops| && ops[j].Arrive? && ops[j].f == f
  }

  ghost function Seen(k: Key, cut: seq<seq<byte>>, ops: seq<Op>): set<nat> {
    set i: nat | i < |cut| && Arrived(ops, CutFragment(k, cut, i))
  }

  predicate IsIndex(cut: seq<seq<byte>>, i: nat) {
    i < |cut|
  }

  ghost function All(cut: seq<seq<byte>>): set<nat> {
    set i: nat | i < |cut| && IsIndex(cut, i)
  }

  function Clock(op: Op): int {
    match op
    case Arrive(_, t0, _) => t0
    case Expire(now) => now
    case Clear => 0
  }

  /** The entry of `k` never expires during the run. */
  ghost predicate Steady(timeout: int, k: Key, c: Cache, ops: seq<Op>) {
    forall j :: 0 <= j < |ops| && k in Run(timeout, c, ops[..j]) ==>
      !Expired(timeout, Clock(ops[j]), Run(timeout, c, ops[..j])[k])
  }

  ghost predicate HoldsPieces(cut: seq<seq<byte>>, s: set<nat>, e: Entry)
    requires cut != []
  {
    && s <= All(cut)
    && Sorted(e.fragments)
    && (forall p :: p in e.fragments <==> exists i :: i in s && i < |cut| && p == CutPiece(cut, i))
    && (e.seenLast <==> |cut| - 1 in s)
    && (e.seenLast ==> e.total == CutOffset(cut, |cut|))
  }

  ghost predicate Holds(k: Key, cut: seq<seq<byte>>, s: set<nat>, c: Cache)
    requires cut != []
  {
    if s == {} then k !in c else k in c && HoldsPieces(cut, s, c[k])
  }

  lemma {:induction false} StoringAddsPiece(k: Key, cut: seq<seq<byte>>, s: set<nat>, e: Entry, i: nat, now: int)
    requires IsCut(cut) && HoldsPieces(cut, s, e) && i < |cut|
    ensures HoldsPieces(cut, s + {i}, Stored(e, CutFragment(k, cut, i), now))
  {
    var p := CutPiece(cut, i);
    PutReplaces(e.fragments, p);
    forall q ensures q in Put(e.fragments, p) <==> exists j :: j in s + {i} && j < |cut| && q == CutPiece(cut, j) {
      if q in e.fragments && q.off == p.off {
        var j :| j in s && j < |cut| && q == CutPiece(cut, j);
        OffsetsInjective(cut, i, j);
      }
      if exists j :: j in s + {i} && j < |cut| && q == CutPiece(cut, j) {
        var j :| j in s + {i} && j < |cut| && q == CutPiece(cut, j);
        if j != i && q.off == p.off { OffsetsInjective(cut, i, j); }
      }
      assert q == p ==> i in s + {i} && q == CutPiece(cut, i);
    }
  }

  /** The completeness test succeeds exactly when every piece is there. */
  lemma {:induction false} CompleteIffAllSeen(cut: seq<seq<byte>>, s: set<nat>, e: Entry)
    requires IsCut(cut) && HoldsPieces(cut, s, e)
    ensures Complete(e) <==> s == All(cut)
    ensures Complete(e) ==> Joined(e.fragments) == Flatten(cut)
  {
    CutPiecesAreTheCut(cut, 0);
    assert cut[0..] == cut;
    var full := CutPieces(cut, 0);
    if Complete(e) {
      TilingForcesAll(cut, 0, e.fragments);
      forall i: nat | i < |cut| ensures i in s {
        assert CutPiece(cut, i) in full;
        var j :| j in s && j < |cut| && CutPiece(cut, i) == CutPiece(cut, j);
        OffsetsInjective(cut, i, j);
      }
      assert s == All(cut);
    }
    if s == All(cut) {
      forall p ensures p in e.fragments <==> p in full {
        if p in full {
          var j :| 0 <= j < |cut| && p == CutPiece(cut, j);
          assert j in s;
        }
      }
      SortedUnique(e.fragments, full);
    }
  }

  lemma {:induction false} SeenGrows(k: Key, cut: seq<seq<byte>>, ops: seq<Op>)
    requires IsCut(cut) && ops != [] && Carries(k, cut, ops[|ops| - 1])
    ensures var pre, op := ops[..|ops| - 1], ops[|ops| - 1];
            if For(k, op)
            then exists i :: 0 <= i < |cut| && op.f == CutFragment(k, cut, i) && Seen(k, cut, ops) == Seen(k, cut, pre) + {i}
            else Seen(k, cut, ops) == Seen(k, cut, pre)
  {
    var pre, op := ops[..|ops| - 1], ops[|ops| - 1];
    forall f ensures Arrived(ops, f) <==> Arrived(pre, f) || (op.Arrive? && op.f == f) {
      if Arrived(pre, f) {
        var j :| 0 <= j < |pre| && pre[j].Arrive? && pre[j].f == f;
        assert ops[j] == pre[j];
      }
      if op.Arrive? && op.f == f { assert ops[|ops| - 1].f == f; }
      if Arrived(ops, f) {
        var j :| 0 <= j < |ops| && ops[j].Arrive? && ops[j].f == f;
        assert j < |pre| ==> pre[j] == ops[j];
      }
    }
    if For(k, op) {
      var i :| 0 <= i < |cut| && op.f == CutFragment(k, cut, i);
      forall j: nat | j < |cut| ensures j in Seen(k, cut, ops) <==> j in Seen(k, cut, pre) + {i} {
        if CutFragment(k, cut, j) == CutFragment(k, cut, i) { OffsetsInjective(cut, i, j); }
      }
      assert Seen(k, cut, ops) == Seen(k, cut, pre) + {i};
    }
  }

  /** One call, in a run that has not completed the datagram before it. */
  lemma {:induction false} OneCall(timeout: int, k: Key, cut: seq<seq<byte>>, c: Cache, ops: seq<Op>)
    requires IsCut(cut) && ops != [] && Carries(k, cut, ops[|ops| - 1])
    requires Holds(k, cut, Seen(k, cut, ops[..|ops| - 1]), Run(timeout, c, ops[..|ops| - 1]))
    requires Steady(timeout, k, c, ops)
    ensures var s := Seen(k, cut, ops);
            if For(k, ops[|ops| - 1]) && s == All(cut)
            then Answer(timeout, c, ops) == Some(Flatten(cut)) && k !in Run(timeout, c, ops)
            else Holds(k, cut, s, Run(timeout, c, ops)) && (For(k, ops[|ops| - 1]) ==> Answer(timeout, c, ops) == None)
  {
    var pre, op := ops[..|ops| - 1], ops[|ops| - 1];
    assert ops[..|ops| - 1] == pre;
    SeenGrows(k, cut, ops);
    var c0 := Run(timeout, c, pre);
    if For(k, op) {
      var s := Seen(k, cut, pre);
      var i :| 0 <= i < |cut| && op.f == CutFragment(k, cut, i) && Seen(k, cut, ops) == s + {i};
      var e := if k in c0 then c0[k] else EMPTY;
      assert HoldsPieces(cut, s, e);
      StoringAddsPiece(k, cut, s, e, i, op.t1);
      CompleteIffAllSeen(cut, s + {i}, Stored(e, op.f, op.t1));
    }
  }

  /** The order theorem. From any cache that holds nothing for `k`, in any run in which the fragments of
      `k` are pieces of one cut -- in any order, repeated or not, with any other datagrams in between --
      and its entry does not expire, no call returns the datagram until the last missing piece
      arrives; that call returns exactly the payload that was cut, and the entry is gone. */
  lemma {:induction false} OrderIndependence(timeout: int, k: Key, cut: seq<seq<byte>>, c: Cache, ops: seq<Op>)
    requires IsCut(cut) && k !in c
    requires forall j :: 0 <= j < |ops| ==> Carries(k, cut, ops[j])
    requires Steady(timeout, k, c, ops)
    requires forall j :: 0 <= j < |ops| ==> Seen(k, cut, ops[..j]) != All(cut)
    ensures forall j :: 0 < j < |ops| && For(k, ops[j - 1]) ==> Answer(timeout, c, ops[..j]) == None
    ensures Seen(k, cut, ops) != All(cut) ==>
              && Holds(k, cut, Seen(k, cut, ops), Run(timeout, c, ops))
              && (ops != [] && For(k, ops[|ops| - 1]) ==> Answer(timeout, c, ops) == None)
    ensures Seen(k, cut, ops) == All(cut) ==>
              && ops != []
              && Answer(timeout, c, ops) == Some(Flatten(cut))
              && k !in Run(timeout, c, ops)
  {
    if ops == [] {
      assert 0 in All(cut);
    } else {
      var pre := ops[..|ops| - 1];
      forall j | 0 <= j <= |pre| ensures pre[..j] == ops[..j] {}
      OrderIndependence(timeout, k, cut, c, pre);
      OneCall(timeout, k, cut, c, ops);
      SeenGrows(k, cut, ops);
      forall j | 0 < j < |ops| && For(k, ops[j - 1]) ensures Answer(timeout, c, ops[..j]) == None {
        if j < |pre| { assert For(k, pre[j - 1]); }
      }
    }
  }

  // ----- a caller's condition under which nothing expires -----

  /** All clock readings of the run fall in one window no longer than the timeout. */
  ghost predicate InWindow(timeout: int, lo: int, op: Op) {
    match op
    case Arrive(_, t0, t1) => lo <= t0 < lo + (timeout + 1) * 1_000_000_000 && lo <= t1
    case Expire(now) => lo <= now < lo + (timeout + 1) * 1_000_000_000
    case Clear => true
  }

  lemma {:induction false} WithinTimeoutNotExpired(timeout: int, now: int, e: Entry)
    requires timeout >= 0 && now - e.lastUpdate < (timeout + 1) * 1_000_000_000
    ensures !Expired(timeout, now, e)
  {
  }

  lemma {:induction false} WindowIsSteady(timeout: int, lo: int, k: Key, c: Cache, ops: seq<Op>)
    requires timeout >= 0 && k !in c
    requires forall j :: 0 <= j < |ops| ==> InWindow(timeout, lo, ops[j]) && !ops[j].Clear?
    ensures Steady(timeout, k, c, ops)
    ensures k in Run(timeout, c, ops) ==> lo <= Run(timeout, c, ops)[k].lastUpdate
  {
    if ops != [] {
      var pre := ops[..|ops| - 1];
      WindowIsSteady(timeout, lo, k, c, pre);
      forall j | 0 <= j < |ops| && k in Run(timeout, c, ops[..j])
        ensures !Expired(timeout, Clock(ops[j]), Run(timeout, c, ops[..j])[k])
      {
        if j < |pre| {
          assert pre[..j] == ops[..j];
        } else {
          assert ops[..j] == pre;
          WithinTimeoutNotExpired(timeout, Clock(ops[j]), Run(timeout, c, pre)[k]);
        }
      }
    }
  }

  // ----- overlapping fragments -----

  /** The class comment says overlapping fragments are handled. Two fragments that overlap and
      together cover the datagram are never put together: the answer is nothing. */
  lemma {:induction false} OverlapIsNotReassembled(k: Key, a: seq<byte>, b: seq<byte>, timeout: int, t: int)
    requires |a| == 16 && |b| == 16 && timeout >= 0
    ensures var ops := [Arrive(Fragment(k, 0, true, a), t, t), Arrive(Fragment(k, 8, false, b), t, t)];
            Answer(timeout, map[], ops) == None
  {
    var f1, f2 := Fragment(k, 0, true, a), Fragment(k, 8, false, b);
    var ops := [Arrive(f1, t, t), Arrive(f2, t, t)];
    assert ops[..1] == [Arrive(f1, t, t)];
    assert ops[..1][..0] == [];
    var e1 := Stored(EMPTY, f1, t);
    assert !Complete(e1);
    assert Run(timeout, map[], ops[..1]) == map[k := e1];
    var e2 := Stored(e1, f2, t);
    var p := Piece(8, b);
    assert e1.fragments == [Piece(0, a)];
    assert Put([Piece(0, a)], p) == [Piece(0, a)] + Put([], p) by { assert [Piece(0, a)][1..] == []; }
    assert e2.fragments == [Piece(0, a), Piece(8, b)];
    assert e2.fragments[1..] == [Piece(8, b)];
    assert !Tiles(e2.fragments, 0);
  }
}
