/** What the fragment reassembler does over whole runs of calls. */
module ReassemblyRuns {
  import opened Bytes
  import opened Reassembler

  /** A call, with the clock readings it makes. */
  datatype Op =
    | Arrive(f: Fragment, t0: int, t1: int)
    | Expire(now: int)
    | Clear

  function Step(timeout: int, c: Cache, op: Op): (Cache, Option<seq<byte>>) {
    match op
    case Arrive(f, t0, t1) => Add(timeout, c, f, t0, t1)
    case Expire(now) => (Cleaned(timeout, c, now), None)
    case Clear => (map[], None)
  }

  function Run(timeout: int, c: Cache, ops: seq<Op>): Cache {
    if ops == [] then c else Step(timeout, Run(timeout, c, ops[..|ops| - 1]), ops[|ops| - 1]).0
  }

  /** The answer given by the last call of a run. */
  function Answer(timeout: int, c: Cache, ops: seq<Op>): Option<seq<byte>>
    requires ops != []
  {
    Step(timeout, Run(timeout, c, ops[..|ops| - 1]), ops[|ops| - 1]).1
  }

  // ----- any fragments: the cache against a log of what arrived -----

  datatype Arrival = Arrival(f: Fragment, at: int)

  function LatestAt(h: seq<Arrival>, o: nat): Option<seq<byte>> {
    if h == [] then None
    else if h[|h| - 1].f.offset == o then Some(h[|h| - 1].f.payload)
    else LatestAt(h[..|h| - 1], o)
  }

  /** Where the most recently received last fragment ends. */
  function LastEnd(h: seq<Arrival>): Option<nat> {
    if h == [] then None
    else if !h[|h| - 1].f.mf then Some(h[|h| - 1].f.offset + |h[|h| - 1].f.payload|)
    else LastEnd(h[..|h| - 1])
  }

  /** Said of positions: the last arrival at an offset, and the last one without "more fragments". */
  lemma {:induction false} LatestIs(h: seq<Arrival>, i: nat)
    requires i < |h|
    ensures (forall j :: i < j < |h| ==> h[j].f.offset != h[i].f.offset) ==> LatestAt(h, h[i].f.offset) == Some(h[i].f.payload)
    ensures !h[i].f.mf && (forall j :: i < j < |h| ==> h[j].f.mf) ==> LastEnd(h) == Some(h[i].f.offset + |h[i].f.payload|)
  {
    var n := |h| - 1;
    if i < n {
      assert forall j :: 0 <= j < n ==> h[..n][j] == h[j];
      LatestIs(h[..n], i);
    }
  }

  /** Without such an arrival there is none. */
  lemma {:induction false} LatestThere(h: seq<Arrival>, o: nat)
    ensures LatestAt(h, o).Some? <==> exists i :: 0 <= i < |h| && h[i].f.offset == o
    ensures LastEnd(h).Some? <==> exists i :: 0 <= i < |h| && !h[i].f.mf
  {
    if h != [] {
      var n := |h| - 1;
      assert forall j :: 0 <= j < n ==> h[..n][j] == h[j];
      LatestThere(h[..n], o);
    }
  }

  /** No gap and no overlap: the pieces lie end to end from 0. */
  ghost predicate Adjacent(ps: seq<Piece>) {
    && (ps != [] ==> ps[0].off == 0)
    && forall i :: 0 < i < |ps| ==> ps[i].off == ps[i - 1].End()
  }

  /** `ps` is the latest payload at each offset, in offset order. */
  ghost predicate LatestPieces(h: seq<Arrival>, ps: seq<Piece>) {
    && Sorted(ps)
    && forall p :: p in ps <==> LatestAt(h, p.off) == Some(p.data)
  }

  /** The fragments in the log make up exactly the datagram `out`. */
  ghost predicate Whole(h: seq<Arrival>, out: seq<byte>) {
    && LastEnd(h) == Some(|out|)
    && exists ps :: LatestPieces(h, ps) && Adjacent(ps) && out == Joined(ps)
  }

  ghost predicate HasWhole(h: seq<Arrival>) {
    exists out :: Whole(h, out)
  }

  /** An age in nanoseconds whose whole seconds exceed the timeout; a fraction of a second rounds toward 0. */
  predicate TooOld(timeout: int, age: int) {
    if timeout >= 0 then age >= (timeout + 1) * 1_000_000_000 else age > timeout * 1_000_000_000
  }

  function Aged(timeout: int, h: seq<Arrival>, now: int): seq<Arrival> {
    if h != [] && TooOld(timeout, now - h[|h| - 1].at) then [] else h
  }

  /** The test of the program, which divides durations, in plain nanoseconds. */
  lemma {:induction false} ExpiredIff(timeout: int, now: int, e: Entry)
    ensures Expired(timeout, now, e) <==> TooOld(timeout, now - e.lastUpdate)
  {
  }

  /** The arrivals for datagram `k` that still count: none survives a completion, an expiry or a clear. */
  ghost function Live(timeout: int, k: Key, ops: seq<Op>): seq<Arrival> {
    if ops == [] then []
    else
      var h := Live(timeout, k, ops[..|ops| - 1]);
      match ops[|ops| - 1]
      case Clear => []
      case Expire(now) => Aged(timeout, h, now)
      case Arrive(f, t0, t1) =>
        if f.key != k then Aged(timeout, h, t0)
        else
          var h1 := Aged(timeout, h, t0) + [Arrival(f, t1)];
          if HasWhole(h1) then [] else h1
  }

  ghost predicate Mirrors(h: seq<Arrival>, e: Entry) {
    && h != []
    && LatestPieces(h, e.fragments)
    && e.seenLast == LastEnd(h).Some?
    && (e.seenLast ==> e.total == LastEnd(h).value)
    && e.lastUpdate == h[|h| - 1].at
  }

  ghost predicate Matches(h: seq<Arrival>, c: Cache, k: Key) {
    if h == [] then k !in c else k in c && Mirrors(h, c[k])
  }

  lemma {:induction false} StoringExtendsLog(h: seq<Arrival>, e: Entry, f: Fragment, now: int)
    requires if h == [] then e == EMPTY else Mirrors(h, e)
    ensures Mirrors(h + [Arrival(f, now)], Stored(e, f, now))
  {
    var h1 := h + [Arrival(f, now)];
    assert h1[..|h1| - 1] == h;
    var p := Piece(f.offset, f.payload);
    PutReplaces(e.fragments, p);
    forall q ensures q in Put(e.fragments, p) <==> LatestAt(h1, q.off) == Some(q.data) {
      assert h == [] ==> q !in e.fragments;
    }
  }

  lemma {:induction false} TilesIsAdjacent(ps: seq<Piece>, from: nat)
    ensures Tiles(ps, from) <==>
            (ps != [] ==> ps[0].off == from) && forall i :: 0 < i < |ps| ==> ps[i].off == ps[i - 1].End()
    ensures |Joined(ps)| == Length(ps)
  {
    if ps != [] {
      var t := ps[1..];
      TilesIsAdjacent(t, ps[0].End());
      assert forall i :: 0 < i < |t| ==> t[i] == ps[i + 1] && t[i - 1] == ps[i];
      if Tiles(ps, from) {
        forall i | 0 < i < |ps| ensures ps[i].off == ps[i - 1].End() {
          if i > 1 { assert t[i - 1].off == t[i - 2].End(); }
        }
      } else if ps[0].off == from && t != [] && t[0].off == ps[0].End() {
        var i :| 0 < i < |t| && t[i].off != t[i - 1].End();
        assert ps[i + 1].off != ps[i].End();
      }
    }
  }

  /** The test made by the code holds exactly when the log holds a whole datagram. */
  lemma {:induction false} CompleteIffWhole(h: seq<Arrival>, e: Entry)
    requires Mirrors(h, e)
    ensures Complete(e) <==> HasWhole(h)
    ensures Complete(e) ==> Whole(h, Joined(e.fragments))
  {
    var ps := e.fragments;
    TilesIsAdjacent(ps, 0);
    if Complete(e) {
      assert LatestPieces(h, ps) && Adjacent(ps);
      assert Whole(h, Joined(ps));
    }
    if HasWhole(h) {
      var out :| Whole(h, out);
      var qs :| LatestPieces(h, qs) && Adjacent(qs) && out == Joined(qs);
      SortedUnique(ps, qs);
    }
  }

  /** The datagram made up by a log is unique. */
  lemma {:induction false} WholeIsUnique(h: seq<Arrival>, a: seq<byte>, b: seq<byte>)
    requires Whole(h, a) && Whole(h, b)
    ensures a == b
  {
    var ps :| LatestPieces(h, ps) && Adjacent(ps) && a == Joined(ps);
    var qs :| LatestPieces(h, qs) && Adjacent(qs) && b == Joined(qs);
    SortedUnique(ps, qs);
  }

  lemma {:induction false} CleanedMatches(timeout: int, h: seq<Arrival>, c: Cache, k: Key, now: int)
    requires Matches(h, c, k)
    ensures Matches(Aged(timeout, h, now), Cleaned(timeout, c, now), k)
  {
    hide LatestPieces, LastEnd, Expired, TooOld;
    if k in c { ExpiredIff(timeout, now, c[k]); }
  }

  /** A call for another datagram does not touch the entry of `k` beyond expiry. */
  lemma {:induction false} OtherArrival(timeout: int, h: seq<Arrival>, c: Cache, k: Key, f: Fragment, t0: int, t1: int)
    requires Matches(h, c, k) && f.key != k
    ensures Matches(Aged(timeout, h, t0), Add(timeout, c, f, t0, t1).0, k)
  {
    CleanedMatches(timeout, h, c, k, t0);
    hide Mirrors, Aged, Cleaned, Stored, Complete, Joined;
  }

  /** After every run, from an empty cache, the entry of each datagram mirrors the log of its live arrivals. */
  lemma {:induction false} CacheMirrorsLog(timeout: int, k: Key, ops: seq<Op>)
    ensures Matches(Live(timeout, k, ops), Run(timeout, map[], ops), k)
  {
    hide Aged, Cleaned, Add, HasWhole;
    if ops == [] {
      NothingMatches(k);
    } else {
      var pre := ops[..|ops| - 1];
      CacheMirrorsLog(timeout, k, pre);
      var h, c := Live(timeout, k, pre), Run(timeout, map[], pre);
      NothingMatches(k);
      hide Matches;
      match ops[|ops| - 1]
      case Clear =>
      case Expire(now) => CleanedMatches(timeout, h, c, k, now);
      case Arrive(f, t0, t1) =>
        if f.key == k {
          ArrivalAgainstLog(timeout, h, c, f, t0, t1);
        } else {
          OtherArrival(timeout, h, c, k, f, t0, t1);
        }
    }
  }

  lemma {:induction false} NothingMatches(k: Key)
    ensures Matches([], map[], k)
  {
  }

  /** One fragment for the entry of its own key, once the cache is cleaned. */
  lemma {:induction false} StoredAgainstLog(h: seq<Arrival>, c: Cache, f: Fragment, now: int)
    requires Matches(h, c, f.key)
    ensures var h1, e := h + [Arrival(f, now)], Stored(if f.key in c then c[f.key] else EMPTY, f, now);
            && (Complete(e) <==> HasWhole(h1))
            && (Complete(e) ==> Whole(h1, Joined(e.fragments)))
            && Mirrors(h1, e)
  {
    var e := if f.key in c then c[f.key] else EMPTY;
    hide Mirrors, Stored, Complete, HasWhole, Whole, Joined;
    StoringExtendsLog(h, e, f, now);
    CompleteIffWhole(h + [Arrival(f, now)], Stored(e, f, now));
  }

  lemma {:induction false} ArrivalAgainstLog(timeout: int, h: seq<Arrival>, c: Cache, f: Fragment, t0: int, t1: int)
    requires Matches(h, c, f.key)
    ensures var h1 := Aged(timeout, h, t0) + [Arrival(f, t1)];
            var (c1, out) := Add(timeout, c, f, t0, t1);
            && (out.Some? <==> HasWhole(h1))
            && (out.Some? ==> Whole(h1, out.value))
            && Matches(if HasWhole(h1) then [] else h1, c1, f.key)
  {
    CleanedMatches(timeout, h, c, f.key, t0);
    hide Aged, Cleaned, Mirrors, Stored, Complete, HasWhole, Whole, Joined;
    StoredAgainstLog(Aged(timeout, h, t0), Cleaned(timeout, c, t0), f, t1);
  }

  /** Every answer of every run, for any fragments (overlapping, rewritten, with several last
      fragments): a datagram is returned exactly when the live arrivals make one up, it is that
      datagram, and its entry is then gone. */
  lemma {:induction false} AnswerIsWhole(timeout: int, ops: seq<Op>, f: Fragment, t0: int, t1: int)
    ensures var h := Aged(timeout, Live(timeout, f.key, ops), t0) + [Arrival(f, t1)];
            var out := Answer(timeout, map[], ops + [Arrive(f, t0, t1)]);
            && (out.Some? <==> HasWhole(h))
            && (out.Some? ==> Whole(h, out.value) && f.key !in Run(timeout, map[], ops + [Arrive(f, t0, t1)]))
  {
    var all := ops + [Arrive(f, t0, t1)];
    assert all[..|all| - 1] == ops;
    CacheMirrorsLog(timeout, f.key, ops);
    ArrivalAgainstLog(timeout, Live(timeout, f.key, ops), Run(timeout, map[], ops), f, t0, t1);
  }

  /** Every byte of a returned datagram lies in exactly one stored piece, and is that piece's byte. */
  lemma {:induction false} BytesComeFromPieces(ps: seq<Piece>, from: nat, p: nat)
    requires Tiles(ps, from)
    requires from <= p < from + Length(ps)
    ensures |Joined(ps)| == Length(ps)
    ensures exists i :: 0 <= i < |ps| && ps[i].off <= p < ps[i].End() && Joined(ps)[p - from] == ps[i].data[p - ps[i].off]
    ensures forall i, j :: 0 <= i < j < |ps| && ps[i].off <= p < ps[i].End() ==> !(ps[j].off <= p < ps[j].End())
    ensures forall i :: 0 <= i < |ps| ==> from <= ps[i].off && ps[i].End() <= from + Length(ps)
  {
    TilesIsAdjacent(ps, from);
    EndsAreOrdered(ps, from);
    if p >= ps[0].End() {
      var t := ps[1..];
      BytesComeFromPieces(t, ps[0].End(), p);
      var i :| 0 <= i < |t| && t[i].off <= p < t[i].End()
               && Joined(t)[p - ps[0].End()] == t[i].data[p - t[i].off];
      assert ps[i + 1] == t[i];
    }
  }

  lemma {:induction false} EndsAreOrdered(ps: seq<Piece>, from: nat)
    requires Tiles(ps, from)
    ensures forall i, j :: 0 <= i < j < |ps| ==> ps[i].End() <= ps[j].off
    ensures forall i :: 0 <= i < |ps| ==> from <= ps[i].off && ps[i].End() <= from + Length(ps)
  {
    if ps != [] {
      var t := ps[1..];
      EndsAreOrdered(t, ps[0].End());
      forall i, j | 0 <= i < j < |ps| ensures ps[i].End() <= ps[j].off {
        assert ps[j] == t[j - 1];
        if i > 0 { assert ps[i] == t[i - 1]; }
      }
      forall i | 0 <= i < |ps| ensures from <= ps[i].off && ps[i].End() <= from + Length(ps) {
        if i > 0 { assert ps[i] == t[i - 1]; }
      }
    }
  }
}
