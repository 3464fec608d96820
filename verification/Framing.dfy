/** Packet framing on a byte stream: each packet starts with its own 16-bit little-endian size and a
    16-bit id. `Split` is the one-shot parse of a whole stream; the theorem is that receiving the
    stream in any pieces delivers the same packets and keeps the same unparsed suffix. */
module Framing {
  import opened Wire

  const HEADER_SIZE := 4

  function SizeField(s: seq<byte>): nat
    requires |s| >= 2
  {
    var low: int, high: int := s[0], s[1];
    low + 256 * high
  }

  /** `stalled` is a header of size 0, on which the loop of OnRecv makes no progress: it hands out the
      same empty packet in every round. `packets` are those before it. */
  datatype Frames = Frames(packets: seq<seq<byte>>, rest: seq<byte>, stalled: bool)

  function Split(s: seq<byte>): Frames
    decreases |s|
  {
    if |s| < HEADER_SIZE || |s| < SizeField(s) then Frames([], s, false)
    else if SizeField(s) == 0 then Frames([], s, true)
    else
      var f := Split(s[SizeField(s)..]);
      Frames([s[..SizeField(s)]] + f.packets, f.rest, f.stalled)
  }

  /** What is left is shorter than a packet, so shorter than the largest size field. */
  lemma {:induction false} RestIsShort(s: seq<byte>)
    requires !Split(s).stalled
    ensures |Split(s).rest| <= 65534
    decreases |s|
  {
    if |s| >= HEADER_SIZE && |s| >= SizeField(s) {
      RestIsShort(s[SizeField(s)..]);
    }
  }

  /** Nothing is lost or reordered: packets and rest are the stream. */
  function Joined(packets: seq<seq<byte>>): seq<byte> {
    if packets == [] then [] else packets[0] + Joined(packets[1..])
  }

  lemma {:induction false} SplitLosesNothing(s: seq<byte>)
    ensures Joined(Split(s).packets) + Split(s).rest == s
    decreases |s|
  {
    if |s| < HEADER_SIZE || |s| < SizeField(s) || SizeField(s) == 0 {
      assert Joined([]) + s == s;
    } else {
      var n := SizeField(s);
      var head, f := s[..n], Split(s[n..]);
      SplitLosesNothing(s[n..]);
      JoinedStep(head, f.packets);
      Associative(head, Joined(f.packets), f.rest);
      assert head + s[n..] == s;
    }
  }

  lemma JoinedStep(head: seq<byte>, packets: seq<seq<byte>>)
    ensures Joined([head] + packets) == head + Joined(packets)
  {
    assert ([head] + packets)[1..] == packets;
  }

  /** Every packet is exactly as long as it says, unless that is too short for a size field. */
  lemma {:induction false} PacketsAreWhole(s: seq<byte>)
    ensures forall p :: p in Split(s).packets ==> |p| > 0 && (|p| >= 2 ==> SizeField(p) == |p|)
    decreases |s|
  {
    if |s| >= HEADER_SIZE && |s| >= SizeField(s) > 0 {
      PacketsAreWhole(s[SizeField(s)..]);
    }
  }

  /** A stream may be cut anywhere: parse the front, keep the rest, go on with more. */
  lemma {:induction false} SplitAppend(a: seq<byte>, b: seq<byte>)
    requires !Split(a).stalled
    ensures var front, back := Split(a), Split(Split(a).rest + b);
            Split(a + b) == Frames(front.packets + back.packets, back.rest, back.stalled)
    decreases |a|
  {
    if |a| < HEADER_SIZE || |a| < SizeField(a) {
      var back := Split(a + b);
      assert [] + back.packets == back.packets;
    } else {
      var n, head := SizeField(a), a[..SizeField(a)];
      SplitAppend(a[n..], b);
      var tail := Split(a[n..]);
      var back := Split(tail.rest + b);
      assert Split(a) == Frames([head] + tail.packets, tail.rest, false);
      assert SizeField(a + b) == n && (a + b)[..n] == head && (a + b)[n..] == a[n..] + b;
      assert Split(a + b).packets == [head] + (tail.packets + back.packets);
      Associative([head], tail.packets, back.packets);
    }
  }

  // ----- the loop of OnRecv, round by round -----

  /** One round from position `at`: the next position, or None when the loop breaks. */
  function Round(s: seq<byte>, at: nat): (next: Option<nat>)
    requires at <= |s|
    ensures next.Some? ==> at <= next.value <= |s|
  {
    if |s| - at < HEADER_SIZE || |s| - at < SizeField(s[at..]) then None else Some(at + SizeField(s[at..]))
  }

  /** The position after `n` rounds, or None when the loop has ended before. */
  function Rounds(s: seq<byte>, at: nat, n: nat): Option<nat>
    requires at <= |s|
    decreases n
  {
    if n == 0 then Some(at)
    else match Round(s, at)
      case None => None
      case Some(next) => Rounds(s, next, n - 1)
  }

  lemma RestOfRest(s: seq<byte>, i: nat, n: nat)
    requires i + n <= |s|
    ensures s[i..][n..] == s[i + n..]
  {
  }

  lemma {:induction false} StalledNeverEnds(s: seq<byte>, at: nat, n: nat)
    requires at <= |s| && Split(s[at..]).stalled
    ensures Rounds(s, at, n).Some?
    decreases n
  {
    if n > 0 {
      var size := SizeField(s[at..]);
      RestOfRest(s, at, size);
      StalledNeverEnds(s, at + size, n - 1);
    }
  }

  lemma {:induction false} OthersEnd(s: seq<byte>, at: nat) returns (n: nat)
    requires at <= |s| && !Split(s[at..]).stalled
    ensures Rounds(s, at, n).None?
    decreases |s| - at
  {
    if Round(s, at).None? {
      n := 1;
    } else {
      var size := SizeField(s[at..]);
      RestOfRest(s, at, size);
      n := OthersEnd(s, at + size);
      n := n + 1;
    }
  }

  /** The parse from a position at which a whole packet lies. */
  lemma SplitAt(s: seq<byte>, at: nat)
    requires at + HEADER_SIZE <= |s| && 0 < SizeField(s[at..]) <= |s| - at
    ensures var next := at + SizeField(s[at..]); var f := Split(s[next..]);
            Split(s[at..]) == Frames([s[at..next]] + f.packets, f.rest, f.stalled)
  {
    var now, n := s[at..], SizeField(s[at..]);
    assert now[..n] == s[at..at + n] && now[n..] == s[at + n..];
  }

  lemma SplitStops(s: seq<byte>, at: nat)
    requires at <= |s|
    requires |s| - at < HEADER_SIZE || |s| - at < SizeField(s[at..]) || SizeField(s[at..]) == 0
    ensures Split(s[at..]).packets == [] && Split(s[at..]).rest == s[at..]
    ensures Round(s, at) == if Split(s[at..]).stalled then Some(at) else None
  {
  }

  /** `n` rounds lead from `at` to `stop`, where the loop ends or stays. */
  ghost predicate Stops(s: seq<byte>, at: nat, n: nat, stop: int, stalled: bool)
    requires at <= |s|
  {
    0 <= stop <= |s| && Rounds(s, at, n) == Some(stop) && Round(s, stop) == if stalled then Some(stop) else None
  }

  /** The loop hands out one packet a round and stops, or stays, at the rest: behind it lies no whole packet,
      or a header that says 0. */
  lemma {:induction false} RoundsReachRest(s: seq<byte>, at: nat)
    requires at <= |s|
    ensures var f := Split(s[at..]); Stops(s, at, |f.packets|, |s| - |f.rest|, f.stalled)
    decreases |s| - at
  {
    if |s| - at < HEADER_SIZE || |s| - at < SizeField(s[at..]) || SizeField(s[at..]) == 0 {
      SplitStops(s, at);
    } else {
      var next := at + SizeField(s[at..]);
      SplitAt(s, at);
      RoundsReachRest(s, next);
      var f := Split(s[next..]);
      OneRoundMore(s, at, next, |f.packets|, |s| - |f.rest|, f.stalled);
    }
  }

  lemma OneRoundMore(s: seq<byte>, at: nat, next: nat, n: nat, stop: int, stalled: bool)
    requires at <= |s| && Round(s, at) == Some(next) && Stops(s, next, n, stop, stalled)
    ensures Stops(s, at, n + 1, stop, stalled)
  {
  }

  /** The loop of OnRecv ends if and only if the stream is not stalled. */
  lemma LoopEndsExactly(s: seq<byte>)
    ensures (exists n: nat :: Rounds(s, 0, n).None?) <==> !Split(s).stalled
  {
    assert s[0..] == s;
    if Split(s).stalled {
      forall n: nat ensures Rounds(s, 0, n).Some? {
        StalledNeverEnds(s, 0, n);
      }
    } else {
      var n := OthersEnd(s, 0);
    }
  }

  /** A header at `a` says that the next one is at `b`. */
  predicate LeadsTo(s: seq<byte>, a: nat, b: nat) {
    a < b <= |s| && a + HEADER_SIZE <= |s| && b == a + SizeField(s[a..])
  }

  /** `starts` are the positions of the first headers of the stream, each where the one before says. */
  ghost predicate HeaderChain(s: seq<byte>, starts: seq<nat>) {
    && starts != [] && starts[0] == 0 && starts[|starts| - 1] <= |s|
    && forall i, j :: 0 <= i && j == i + 1 && j < |starts| ==> LeadsTo(s, starts[i], starts[j])
  }

  predicate ZeroHeader(s: seq<byte>, at: nat) {
    at + HEADER_SIZE <= |s| && SizeField(s[at..]) == 0
  }

  function Shifted(starts: seq<nat>, shift: nat): (r: seq<nat>)
    ensures |r| == |starts| && forall i :: 0 <= i < |starts| ==> r[i] == starts[i] + shift
  {
    if starts == [] then [] else Shifted(starts[..|starts| - 1], shift) + [starts[|starts| - 1] + shift]
  }

  lemma LeadsFurther(s: seq<byte>, n: nat, a: nat, b: nat)
    requires n <= |s| && LeadsTo(s[n..], a, b)
    ensures LeadsTo(s, a + n, b + n)
  {
    RestOfRest(s, n, a);
  }

  /** A chain behind the first packet makes one from the start. */
  lemma ChainPrepend(s: seq<byte>, n: nat, starts: seq<nat>)
    requires HEADER_SIZE <= |s| && 0 < n == SizeField(s) <= |s| && HeaderChain(s[n..], starts)
    ensures HeaderChain(s, [0] + Shifted(starts, n))
  {
    var all := [0] + Shifted(starts, n);
    assert s[0..] == s && all[|all| - 1] == starts[|starts| - 1] + n;
    forall i, j | 0 <= i && j == i + 1 && j < |all| ensures LeadsTo(s, all[i], all[j]) {
      if i > 0 {
        assert LeadsTo(s[n..], starts[i - 1], starts[i]);
        LeadsFurther(s, n, starts[i - 1], starts[i]);
      }
    }
  }

  lemma {:induction false} StalledHasZeroHeader(s: seq<byte>) returns (starts: seq<nat>)
    requires Split(s).stalled
    ensures HeaderChain(s, starts) && ZeroHeader(s, starts[|starts| - 1])
    decreases |s|
  {
    if SizeField(s) == 0 {
      starts := [0];
      assert s[0..] == s;
    } else {
      var n := SizeField(s);
      var behind := StalledHasZeroHeader(s[n..]);
      ChainPrepend(s, n, behind);
      starts := [0] + Shifted(behind, n);
      RestOfRest(s, n, behind[|behind| - 1]);
    }
  }

  /** All starts of a chain that ends in a zero header lead into it. */
  lemma {:induction false} ZeroHeaderStalls(s: seq<byte>, starts: seq<nat>, i: nat)
    requires HeaderChain(s, starts) && ZeroHeader(s, starts[|starts| - 1]) && i < |starts|
    ensures starts[i] <= |s| && Split(s[starts[i]..]).stalled
    decreases |starts| - i
  {
    if i < |starts| - 1 {
      var j := i + 1;
      assert LeadsTo(s, starts[i], starts[j]);
      ZeroHeaderStalls(s, starts, j);
      RestOfRest(s, starts[i], SizeField(s[starts[i]..]));
    }
  }

  /** What stalls, in terms of the bytes alone: headers that follow one another from the first byte on,
      each as many bytes behind the one before as that one says, up to one that says 0. */
  lemma StalledMeansZeroHeader(s: seq<byte>)
    ensures Split(s).stalled <==> exists starts :: HeaderChain(s, starts) && ZeroHeader(s, starts[|starts| - 1])
  {
    if Split(s).stalled {
      var starts := StalledHasZeroHeader(s);
    }
    if starts :| HeaderChain(s, starts) && ZeroHeader(s, starts[|starts| - 1]) {
      ZeroHeaderStalls(s, starts, 0);
      assert s[0..] == s;
    }
  }

  /** Four zero bytes keep the loop running, whatever follows them. */
  lemma FourZeroBytesStall(rest: seq<byte>, n: nat)
    ensures Rounds([0, 0, 0, 0] + rest, 0, n).Some?
  {
    var s := [0, 0, 0, 0] + rest;
    assert s[0..] == s && SizeField(s) == 0;
    StalledNeverEnds(s, 0, n);
  }

  // ----- receiving in pieces -----

  function Stream(chunks: seq<seq<byte>>): seq<byte> {
    if chunks == [] then [] else Stream(chunks[..|chunks| - 1]) + chunks[|chunks| - 1]
  }

  /** `stuck` is a loop that does not end: the worker takes no further completion of this session,
      which never posts another receive. */
  datatype Received = Received(delivered: seq<seq<byte>>, unread: seq<byte>, stuck: bool)

  /** One receive completion. */
  function ReceiveOne(r: Received, chunk: seq<byte>): Received {
    if r.stuck then r
    else
      var f := Split(r.unread + chunk);
      Received(r.delivered + f.packets, f.rest, f.stalled)
  }

  function Receive(chunks: seq<seq<byte>>): Received {
    if chunks == [] then Received([], [], false)
    else ReceiveOne(Receive(chunks[..|chunks| - 1]), chunks[|chunks| - 1])
  }

  /** More bytes do not help a stalled stream. */
  lemma {:induction false} StalledStays(a: seq<byte>, b: seq<byte>)
    requires Split(a).stalled
    ensures Split(a + b) == Frames(Split(a).packets, Split(a).rest + b, true)
    decreases |a|
  {
    if SizeField(a) > 0 {
      var n := SizeField(a);
      assert (a + b)[..n] == a[..n] && (a + b)[n..] == a[n..] + b;
      StalledStays(a[n..], b);
    }
  }

  lemma PrefixDoesNotStall(a: seq<byte>, b: seq<byte>)
    requires !Split(a + b).stalled
    ensures !Split(a).stalled
  {
    if Split(a).stalled {
      StalledStays(a, b);
    }
  }

  /** Chunk independence: for every stream and every way of cutting it, exactly the packets of the
      one-shot parse are delivered, in order; the session gets stuck exactly when that parse stalls, and
      otherwise exactly its rest is unread. */
  lemma {:induction false} ChunkingDoesNotMatter(chunks: seq<seq<byte>>)
    ensures var r, f := Receive(chunks), Split(Stream(chunks));
            r.delivered == f.packets && r.stuck == f.stalled && (!r.stuck ==> r.unread == f.rest)
    decreases |chunks|
  {
    if chunks != [] {
      var front, last := chunks[..|chunks| - 1], chunks[|chunks| - 1];
      ChunkingDoesNotMatter(front);
      if Receive(front).stuck {
        StalledStays(Stream(front), last);
      } else {
        SplitAppend(Stream(front), last);
      }
    }
  }

  lemma SameStreamSamePackets(a: seq<seq<byte>>, b: seq<seq<byte>>)
    requires Stream(a) == Stream(b)
    ensures Receive(a).delivered == Receive(b).delivered && Receive(a).stuck == Receive(b).stuck
    ensures !Receive(a).stuck ==> Receive(a).unread == Receive(b).unread
  {
    ChunkingDoesNotMatter(a);
    ChunkingDoesNotMatter(b);
  }
}
