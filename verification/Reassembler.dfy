/** The IPv4 fragment reassembler: a cache of fragment lists, one entry per datagram key. */
module Reassembler {
  import opened Bytes

  datatype Key = Key(src: u32, dst: u32, proto: byte, id: u16)

  datatype Fragment = Fragment(key: Key, offset: nat, mf: bool, payload: seq<byte>)

  /** One element of the ordered map from offset to payload. */
  datatype Piece = Piece(off: nat, data: seq<byte>)
  {
    function End(): nat { off + |data| }
  }

  datatype Entry = Entry(fragments: seq<Piece>, seenLast: bool, total: nat, lastUpdate: int)

  type Cache = map<Key, Entry>

  const EMPTY := Entry([], false, 0, 0)

  const NANOS_PER_SECOND: int := 1_000_000_000

  // ----- the ordered map of one entry -----

  ghost predicate Sorted(ps: seq<Piece>) {
    forall i, j :: 0 <= i < j < |ps| ==> ps[i].off < ps[j].off
  }

  function Put(ps: seq<Piece>, p: Piece): seq<Piece> {
    if ps == [] then [p]
    else if p.off < ps[0].off then [p] + ps
    else if p.off == ps[0].off then [p] + ps[1..]
    else [ps[0]] + Put(ps[1..], p)
  }

  lemma {:induction false} InFront(p: Piece, ps: seq<Piece>)
    ensures forall q :: q in [p] + ps <==> q == p || q in ps
    ensures Sorted([p] + ps) <==> Sorted(ps) && forall q :: q in ps ==> p.off < q.off
  {
    var all := [p] + ps;
    assert all[0] == p && all[1..] == ps;
    SortedFront(all);
  }

  lemma {:induction false} SortedFront(all: seq<Piece>)
    requires all != []
    ensures Sorted(all) <==> Sorted(all[1..]) && forall q :: q in all[1..] ==> all[0].off < q.off
  {
    var ps := all[1..];
    assert forall i :: 0 <= i < |ps| ==> ps[i] == all[i + 1];
    assert forall j :: 0 < j < |all| ==> all[j] == ps[j - 1] && all[j] in ps;
  }

  /** Writing at an offset keeps the order, replaces what was at that offset and nothing else. */
  lemma {:induction false} PutReplaces(ps: seq<Piece>, p: Piece)
    requires Sorted(ps)
    ensures Sorted(Put(ps, p))
    ensures forall q :: q in Put(ps, p) <==> q == p || (q in ps && q.off != p.off)
  {
    hide Sorted;
    if ps == [] {
      assert [p] == [p] + ps;
      InFront(p, ps);
      assert Sorted(ps);
    } else {
      assert ps == [ps[0]] + ps[1..];
      InFront(ps[0], ps[1..]);
      if p.off < ps[0].off {
        InFront(p, ps);
      } else if p.off == ps[0].off {
        InFront(p, ps[1..]);
      } else {
        PutReplaces(ps[1..], p);
        InFront(ps[0], Put(ps[1..], p));
      }
    }
  }

  /** An ordered list is determined by its elements. */
  lemma {:induction false} SortedUnique(a: seq<Piece>, b: seq<Piece>)
    requires Sorted(a) && Sorted(b)
    requires forall q :: q in a <==> q in b
    ensures a == b
  {
    if a == [] {
      SomeElement(b);
    } else {
      assert a[0] in b && b != [];
      assert b[0] in a;
      assert a[0] == b[0];
      assert a == [a[0]] + a[1..] && b == [b[0]] + b[1..];
      forall q ensures q in a[1..] <==> q in b[1..] {
        assert q in a <==> q in b;
      }
      SortedUnique(a[1..], b[1..]);
    }
  }

  lemma {:induction false} SomeElement(b: seq<Piece>)
    ensures b != [] ==> exists q :: q in b
  {
    if b != [] { assert b[0] in b; }
  }

  /** Each piece starts where the one before it ends. */
  predicate Tiles(ps: seq<Piece>, from: nat) {
    ps == [] || (ps[0].off == from && Tiles(ps[1..], ps[0].End()))
  }

  function Length(ps: seq<Piece>): nat {
    if ps == [] then 0 else |ps[0].data| + Length(ps[1..])
  }

  function Joined(ps: seq<Piece>): seq<byte> {
    if ps == [] then [] else ps[0].data + Joined(ps[1..])
  }

  // ----- one call -----

  predicate Expired(timeout: int, now: int, e: Entry) {
    TruncDiv(now - e.lastUpdate, NANOS_PER_SECOND) > timeout
  }

  /** Whole seconds beyond the timeout are reached one second later. */
  lemma {:induction false} ExpiresAfter(timeout: int, now: int, e: Entry)
    requires timeout >= 0
    ensures Expired(timeout, now, e) <==> now - e.lastUpdate >= (timeout + 1) * 1_000_000_000
  {
  }

  function Cleaned(timeout: int, c: Cache, now: int): Cache {
    map k | k in c && !Expired(timeout, now, c[k]) :: c[k]
  }

  function Stored(e: Entry, f: Fragment, now: int): Entry {
    Entry(Put(e.fragments, Piece(f.offset, f.payload)),
          e.seenLast || !f.mf,
          if f.mf then e.total else f.offset + |f.payload|,
          now)
  }

  predicate Complete(e: Entry) {
    e.seenLast && Tiles(e.fragments, 0) && Length(e.fragments) == e.total
  }

  /** The cache and the answer after one fragment; `t0` and `t1` are the two clock readings of the call. */
  function Add(timeout: int, c: Cache, f: Fragment, t0: int, t1: int): (Cache, Option<seq<byte>>) {
    var c1 := Cleaned(timeout, c, t0);
    var e := Stored(if f.key in c1 then c1[f.key] else EMPTY, f, t1);
    if Complete(e) then (c1 - {f.key}, Some(Joined(e.fragments))) else (c1[f.key := e], None)
  }

  /** The bytes accumulated over the pieces, or nothing at the first gap. */
  method ContiguousSize(ps: seq<Piece>) returns (size: Option<nat>)
    ensures size == if Tiles(ps, 0) then Some(Length(ps)) else None
  {
    var acc: nat, offset: nat := 0, 0;
    for i := 0 to |ps|
      invariant Tiles(ps, 0) == Tiles(ps[i..], offset)
      invariant Length(ps) == acc + Length(ps[i..])
    {
      if ps[i].off != offset {
        return None;
      }
      assert ps[i..][1..] == ps[i + 1..];
      acc := acc + |ps[i].data|;
      offset := offset + |ps[i].data|;
    }
    return Some(acc);
  }

  method Gather(ps: seq<Piece>) returns (buf: seq<byte>)
    ensures buf == Joined(ps)
  {
    buf := [];
    for i := 0 to |ps|
      invariant Joined(ps) == buf + Joined(ps[i..])
    {
      assert ps[i..][1..] == ps[i + 1..];
      buf := buf + ps[i].data;
    }
  }

  class FragmentReassembler {
    const timeout: int
    var cache: Cache

    constructor (timeout: int)
      ensures this.timeout == timeout && cache == map[]
    {
      this.timeout := timeout;
      cache := map[];
    }

    method CleanupExpired(now: int)
      modifies this
      ensures cache == Cleaned(timeout, old(cache), now)
      ensures timeout >= 0 ==> forall k :: k in cache <==>
                k in old(cache) && now - old(cache)[k].lastUpdate < (timeout + 1) * 1_000_000_000
    {
      var todo := cache.Keys;
      while todo != {}
        invariant todo <= cache.Keys <= old(cache).Keys
        invariant forall k :: k in cache ==> cache[k] == old(cache)[k]
        invariant forall k :: k in old(cache) && k !in todo ==>
                    (k in cache <==> !Expired(timeout, now, old(cache)[k]))
        decreases |todo|
      {
        var k :| k in todo;
        if Expired(timeout, now, cache[k]) {
          cache := cache - {k};
        }
        todo := todo - {k};
      }
      forall k | k in old(cache) && timeout >= 0
        ensures Expired(timeout, now, old(cache)[k]) <==> now - old(cache)[k].lastUpdate >= (timeout + 1) * 1_000_000_000
      {
        ExpiresAfter(timeout, now, old(cache)[k]);
      }
    }

    method AddFragment(f: Fragment, t0: int, t1: int) returns (out: Option<seq<byte>>)
      modifies this
      ensures (cache, out) == Add(timeout, old(cache), f, t0, t1)
      // no other unexpired datagram is touched
      ensures forall k :: k != f.key && k in old(cache) && !Expired(timeout, t0, old(cache)[k]) ==>
                k in cache && cache[k] == old(cache)[k]
    {
      CleanupExpired(t0);
      var entry := if f.key in cache then cache[f.key] else EMPTY;
      entry := entry.(fragments := Put(entry.fragments, Piece(f.offset, f.payload)), lastUpdate := t1);
      if !f.mf {
        entry := entry.(seenLast := true, total := f.offset + |f.payload|);
      }
      cache := cache[f.key := entry];

      if entry.seenLast {
        var size := ContiguousSize(entry.fragments);
        if size == Some(entry.total) {
          var buf := Gather(entry.fragments);
          out := Some(buf);
          assert cache - {f.key} == Cleaned(timeout, old(cache), t0) - {f.key};
          cache := cache - {f.key};
          return;
        }
      }
      return None;
    }

    method Clear()
      modifies this
      ensures cache == map[]
    {
      cache := map[];
    }

    method Size() returns (n: nat)
      ensures n == |cache.Keys|
    {
      n := |cache|;
    }
  }
}
