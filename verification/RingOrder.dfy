/** The ownership discipline shared by both packet rings: a ring of slots, of which the user side
    owns a run starting at its cursor and the kernel side owns the rest. */
module RingOrder {
  import opened Bytes
  import opened Packets

  /** The cursor one step further, as the program computes it. */
  function Succ(n: nat, c: nat): (r: nat)
    requires c < n
    ensures r < n && r == if c + 1 == n then 0 else c + 1
  {
    (c + 1) % n
  }

  /** The slot `i` places after `c`. */
  function Slot(n: nat, c: nat, i: nat): (r: nat)
    requires c < n && i <= n
    ensures r < n
  {
    if c + i < n then c + i else c + i - n
  }

  /** The user side owns exactly the `owned` slots from `cur` on, and the kernel fills next after them. */
  ghost predicate Owns(user: seq<bool>, cur: nat, fill: nat, owned: nat) {
    && cur < |user| && owned <= |user|
    && fill == Slot(|user|, cur, owned)
    && forall i {:trigger Slot(|user|, cur, i)} :: 0 <= i < |user| ==> user[Slot(|user|, cur, i)] == (i < owned)
  }

  ghost function OwnedSlots<T>(slots: seq<T>, cur: nat, owned: nat): (r: seq<T>)
    requires cur < |slots| && owned <= |slots|
    ensures |r| == owned
  {
    seq(owned, i requires 0 <= i < owned => slots[Slot(|slots|, cur, i)])
  }

  /** The kernel may fill exactly when some slot is its own. */
  lemma {:induction false} FillEnabled(user: seq<bool>, cur: nat, fill: nat, owned: nat)
    requires Owns(user, cur, fill, owned)
    ensures user[fill] <==> owned == |user|
  {
    if owned == |user| {
      assert Slot(|user|, cur, 0) == fill;
    }
  }

  lemma {:induction false} FillAppends<T>(slots: seq<T>, user: seq<bool>, cur: nat, fill: nat, owned: nat, b: T)
    requires |slots| == |user| && Owns(user, cur, fill, owned) && !user[fill]
    ensures owned < |user|
    ensures Owns(user[fill := true], cur, Succ(|user|, fill), owned + 1)
    ensures OwnedSlots(slots[fill := b], cur, owned + 1) == OwnedSlots(slots, cur, owned) + [b]
  {
    FillEnabled(user, cur, fill, owned);
    var n := |user|;
    var user1 := user[fill := true];
    forall i {:trigger Slot(n, cur, i)} | 0 <= i < n ensures user1[Slot(n, cur, i)] == (i < owned + 1) {
      assert Slot(n, cur, i) == fill <==> i == owned;
      assert user[Slot(n, cur, i)] == (i < owned);
    }
    var slots1 := slots[fill := b];
    forall i | 0 <= i < owned ensures slots1[Slot(n, cur, i)] == slots[Slot(n, cur, i)] {
      assert Slot(n, cur, i) != fill;
    }
  }

  lemma {:induction false} ReleaseDropsFirst<T>(slots: seq<T>, user: seq<bool>, cur: nat, fill: nat, owned: nat)
    requires |slots| == |user| && Owns(user, cur, fill, owned) && owned > 0
    ensures Owns(user[cur := false], Succ(|user|, cur), fill, owned - 1)
    ensures OwnedSlots(slots, Succ(|user|, cur), owned - 1) == OwnedSlots(slots, cur, owned)[1..]
  {
    var n := |user|;
    var c1 := Succ(n, cur);
    var user1 := user[cur := false];
    forall i {:trigger Slot(n, c1, i)} | 0 <= i < n ensures user1[Slot(n, c1, i)] == (i < owned - 1) {
      assert Slot(n, c1, i) == Slot(n, cur, i + 1);
      if i + 1 < n {
        assert user[Slot(n, cur, i + 1)] == (i + 1 < owned);
      }
    }
    forall i | 0 <= i < owned - 1 ensures slots[Slot(n, c1, i)] == slots[Slot(n, cur, i + 1)] {
      assert Slot(n, c1, i) == Slot(n, cur, i + 1);
    }
  }

  // ----- the abstract queue both rings refine -----

  /** Packets handed to the caller so far, and packets still to be handed over, oldest first. */
  datatype Queue = Queue(delivered: seq<Packet>, waiting: seq<Packet>)

  datatype QueueStep = Enqueue(ps: seq<Packet>) | Dequeue | Stutter

  ghost predicate QueueNext(q: Queue, a: QueueStep, q1: Queue) {
    match a
    case Enqueue(ps) => q1 == Queue(q.delivered, q.waiting + ps)
    case Dequeue => q.waiting != [] && q1 == Queue(q.delivered + [q.waiting[0]], q.waiting[1..])
    case Stutter => q1 == q
  }

  function TotalBytes(ps: seq<Packet>): nat {
    if ps == [] then 0 else TotalBytes(ps[..|ps| - 1]) + |ps[|ps| - 1].data|
  }

  /** The 64-bit statistics agree with what was delivered. */
  ghost predicate Counted(packets: nat, bytes: nat, delivered: seq<Packet>) {
    packets == |delivered| % TWO64 && bytes == TotalBytes(delivered) % TWO64
  }

  lemma {:induction false} CountOne(packets: nat, bytes: nat, delivered: seq<Packet>, p: Packet)
    requires Counted(packets, bytes, delivered)
    ensures Counted((packets + 1) % TWO64, (bytes + |p.data|) % TWO64, delivered + [p])
  {
    var d1 := delivered + [p];
    assert d1[..|d1| - 1] == delivered;
  }
}
