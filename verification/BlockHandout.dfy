/** What a block hands out, header by header and in plain numbers. */
module BlockHandout {
  import opened Packets
  import opened BlockRing

  /** The header at `off` has a packet that is not empty, not larger than a block, and has an offset. */
  predicate UsableAt(blockSize: nat, b: Block, off: nat) {
    off in b.at && 0 < |b.at[off].data| <= blockSize && b.at[off].mac != 0
  }

  /** Usable headers, each at the offset reached by adding the `tp_next_offset` of the one before, which is not 0. */
  predicate IsPath(blockSize: nat, b: Block, first: nat, path: seq<nat>)
    decreases |path|
  {
    && path != [] && path[0] == first && UsableAt(blockSize, b, first)
    && (|path| > 1 ==> b.at[first].next != 0 && IsPath(blockSize, b, first + b.at[first].next, path[1..]))
  }

  /** The packets of the headers at these offsets, with times in nanoseconds. */
  function PacketsAt(b: Block, path: seq<nat>): (ps: seq<Packet>)
    requires forall i :: 0 <= i < |path| ==> path[i] in b.at
    ensures |ps| == |path|
  {
    seq(|path|, i requires 0 <= i < |path| =>
      Packet(b.at[path[i]].data, b.at[path[i]].sec * 1_000_000_000 + b.at[path[i]].nsec))
  }

  lemma {:induction false} PathIsThere(blockSize: nat, b: Block, first: nat, path: seq<nat>)
    requires IsPath(blockSize, b, first, path)
    ensures forall i :: 0 <= i < |path| ==> path[i] in b.at
    decreases |path|
  {
    if |path| > 1 {
      PathIsThere(blockSize, b, first + b.at[first].next, path[1..]);
      assert forall i :: 0 < i < |path| ==> path[i] == path[1..][i - 1];
    }
  }

  /** The chain goes on behind the header at `last`, with one more packet announced. */
  predicate GoesOnBehind(blockSize: nat, b: Block, last: nat) {
    last in b.at && b.at[last].next != 0 && UsableAt(blockSize, b, last + b.at[last].next)
  }

  lemma {:induction false} RestOne(blockSize: nat, b: Block, off: nat, n: nat)
    requires off in b.at
    ensures Rest(blockSize, b, off, n) ==
            if n == 0 || !UsableAt(blockSize, b, off) then []
            else [Packet(b.at[off].data, b.at[off].sec * 1_000_000_000 + b.at[off].nsec)]
                 + if n > 1 && b.at[off].next != 0 then Rest(blockSize, b, off + b.at[off].next, n - 1) else []
  {
    assert b.At(off) == b.at[off];
  }

  lemma {:induction false} RestSome(blockSize: nat, b: Block, off: nat, n: nat)
    ensures Rest(blockSize, b, off, n) != [] <==> n > 0 && UsableAt(blockSize, b, off)
  {
  }

  lemma {:induction false} PacketsFront(b: Block, path: seq<nat>)
    requires path != [] && forall i :: 0 <= i < |path| ==> path[i] in b.at
    ensures PacketsAt(b, path) ==
            [Packet(b.at[path[0]].data, b.at[path[0]].sec * 1_000_000_000 + b.at[path[0]].nsec)] + PacketsAt(b, path[1..])
  {
  }

  lemma {:induction false} RestAlongPath(blockSize: nat, b: Block, off: nat, n: nat, path: seq<nat>)
    requires IsPath(blockSize, b, off, path) && |path| <= n
    ensures forall i :: 0 <= i < |path| ==> path[i] in b.at
    ensures PacketsAt(b, path) <= Rest(blockSize, b, off, n)
    ensures |Rest(blockSize, b, off, n)| > |path| <==> |path| < n && GoesOnBehind(blockSize, b, path[|path| - 1])
    decreases |path|
  {
    hide Rest, UsableAt, PacketsAt, IsPath, GoesOnBehind;
    PathIsThere(blockSize, b, off, path);
    PathFront(blockSize, b, off, path);
    RestOne(blockSize, b, off, n);
    PacketsFront(b, path);
    var next, tail := off + b.at[off].next, path[1..];
    if |path| == 1 {
      OneOnPath(blockSize, b, off, n);
    } else {
      RestAlongPath(blockSize, b, next, n - 1, tail);
      assert path[|path| - 1] == tail[|tail| - 1];
    }
  }

  lemma {:induction false} PathFront(blockSize: nat, b: Block, off: nat, path: seq<nat>)
    requires IsPath(blockSize, b, off, path)
    ensures path != [] && path[0] == off && off in b.at && UsableAt(blockSize, b, off)
    ensures |path| > 1 ==> b.at[off].next != 0 && IsPath(blockSize, b, off + b.at[off].next, path[1..])
    ensures |path| == 1 ==> path[1..] == []
  {
    hide UsableAt;
    assert off in b.at by { UsableThere(blockSize, b, off); }
  }

  lemma {:induction false} UsableThere(blockSize: nat, b: Block, off: nat)
    requires UsableAt(blockSize, b, off)
    ensures off in b.at
  {
  }

  /** Behind a usable header: whether there is more, and what is handed out otherwise. */
  lemma {:induction false} OneOnPath(blockSize: nat, b: Block, off: nat, n: nat)
    requires off in b.at && UsableAt(blockSize, b, off) && n > 0
    ensures |Rest(blockSize, b, off, n)| >= 1
    ensures |Rest(blockSize, b, off, n)| > 1 <==> 1 < n && GoesOnBehind(blockSize, b, off)
    ensures PacketsAt(b, []) == []
  {
    RestOne(blockSize, b, off, n);
    if n > 1 { RestSome(blockSize, b, off + b.at[off].next, n - 1); }
    hide Rest, UsableAt;
  }

  /** Along any path of usable headers a block hands out exactly their packets; and it goes on behind the path exactly when
      it announces more packets, the chain does not end, and the next header is usable. */
  lemma {:induction false} HandsOutAlongPath(blockSize: nat, b: Block, path: seq<nat>)
    requires IsPath(blockSize, b, b.first, path) && |path| <= b.numPkts
    ensures forall i :: 0 <= i < |path| ==> path[i] in b.at
    ensures PacketsAt(b, path) <= Contents(blockSize, b)
    ensures |Contents(blockSize, b)| > |path| <==> |path| < b.numPkts && GoesOnBehind(blockSize, b, path[|path| - 1])
  {
    RestAlongPath(blockSize, b, b.first, b.numPkts, path);
    hide Rest;
  }

  /** It hands out anything at all exactly when it announces a packet and its first header is usable. */
  lemma {:induction false} HandsOutSomethingIff(blockSize: nat, b: Block)
    ensures Contents(blockSize, b) != [] <==> b.numPkts > 0 && UsableAt(blockSize, b, b.first)
  {
    RestSome(blockSize, b, b.first, b.numPkts);
  }
}
