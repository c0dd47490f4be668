/** Packets over a byte stream: every packet is preceded by its length in two bytes, high
    byte first. Packets that cannot be sent at once are dropped, never torn. */
module TcpFraming {
  import opened Bytes

  const MAX_PACKET_SIZE := 64 * 1024
  const LENGTH_SIZE := 2
  const BUF_SIZE := MAX_PACKET_SIZE + LENGTH_SIZE

  type Packet = seq<Byte>

  /** The length is cut to 16 bits. */
  function Frame(p: Packet): (f: seq<Byte>)
    ensures |f| == LENGTH_SIZE + |p| && f[2..] == p
  {
    [|p| / 256 % 256, |p| % 256] + p
  }

  /** The first two bytes, the higher one first, are the length, as far as that fits. */
  lemma HighByteFirst(p: Packet, rest: seq<Byte>)
    ensures var stream := Frame(p) + rest;
      var high: int, low: int := stream[0], stream[1];
      (|p| < 0x1_0000 ==> 256 * high + low == |p|) && (|p| == 0x0102 ==> high == 1 && low == 2)
  {
  }

  function Frames(ps: seq<Packet>): seq<Byte> {
    if ps == [] then [] else Frame(ps[0]) + Frames(ps[1..])
  }

  lemma {:induction false} FramesOfTwo(ps: seq<Packet>, qs: seq<Packet>)
    ensures Frames(ps + qs) == Frames(ps) + Frames(qs)
  {
    hide Frame;
    if ps == [] {
      assert ps + qs == qs;
    } else {
      assert (ps + qs)[0] == ps[0] && (ps + qs)[1..] == ps[1..] + qs;
      FramesOfTwo(ps[1..], qs);
    }
  }

  lemma FramesOfOne(p: Packet)
    ensures Frames([p]) == Frame(p)
  {
    assert Frames([p][1..]) == [];
  }

  // ---------------------------------------------------------------- decoding

  function LengthOf(b: seq<Byte>): (n: nat)
    requires |b| >= LENGTH_SIZE
    ensures n < MAX_PACKET_SIZE
  {
    var high: int, low: int := b[0], b[1];
    256 * high + low
  }

  /** Not a whole frame yet. */
  predicate Partial(b: seq<Byte>) {
    |b| < LENGTH_SIZE || |b| < LENGTH_SIZE + LengthOf(b)
  }

  /** All the whole packets, and what is left. */
  function Deframe(b: seq<Byte>): (r: (seq<Packet>, seq<Byte>))
    ensures Partial(r.1)
    ensures forall p :: p in r.0 ==> |p| < MAX_PACKET_SIZE
    decreases |b|
  {
    if Partial(b) then ([], b)
    else
      var n := LengthOf(b);
      var rest := Deframe(b[LENGTH_SIZE + n..]);
      ([b[LENGTH_SIZE..LENGTH_SIZE + n]] + rest.0, rest.1)
  }

  predicate Fits(p: Packet) { |p| < MAX_PACKET_SIZE }

  lemma DeframeFrame(p: Packet, b: seq<Byte>)
    requires Fits(p)
    ensures Deframe(Frame(p) + b) == ([p] + Deframe(b).0, Deframe(b).1)
  {
    var f := Frame(p) + b;
    assert f[0] == |p| / 256 % 256 && f[1] == |p| % 256;
    assert LengthOf(f) == |p|;
    assert f[LENGTH_SIZE..LENGTH_SIZE + |p|] == p && f[LENGTH_SIZE + |p|..] == b;
  }

  lemma {:induction false} DeframeFrames(ps: seq<Packet>, left: seq<Byte>)
    requires Partial(left) && forall p :: p in ps ==> Fits(p)
    ensures Deframe(Frames(ps) + left) == (ps, left)
  {
    hide Frame, Partial;
    if ps == [] {
      assert Frames(ps) + left == left;
      PartialStays(left);
    } else {
      assert Frames(ps) + left == Frame(ps[0]) + (Frames(ps[1..]) + left);
      DeframeFrames(ps[1..], left);
      DeframeFrame(ps[0], Frames(ps[1..]) + left);
      assert [ps[0]] + ps[1..] == ps;
    }
  }

  lemma PartialStays(b: seq<Byte>)
    requires Partial(b)
    ensures Deframe(b) == ([], b)
  {
  }

  /** Packets survive the trip exactly if their lengths fit 16 bits: one more byte is let
      through by `Send`, but its frame says that the packet is empty. */
  lemma RoundTripIff(ps: seq<Packet>)
    ensures Deframe(Frames(ps)) == (ps, []) <==> forall p :: p in ps ==> Fits(p)
  {
    if forall p :: p in ps ==> Fits(p) {
      DeframeFrames(ps, []);
      assert Frames(ps) + [] == Frames(ps);
    }
  }

  /** The largest packet `Send` accepts arrives as an empty one, and its payload as frames. */
  lemma LargestArrivesEmpty(p: Packet)
    requires |p| == MAX_PACKET_SIZE
    ensures Deframe(Frame(p)) == ([[]] + Deframe(p).0, Deframe(p).1)
  {
    var f := Frame(p);
    assert f[0] == 0 && f[1] == 0;
    assert f[LENGTH_SIZE..LENGTH_SIZE + 0] == [] && f[LENGTH_SIZE + 0..] == p;
  }

  /** Whatever part of the stream has arrived: the packets in it come first and in order. */
  lemma {:induction false} ArrivedIsPrefix(got: seq<Packet>, left: seq<Byte>, sent: seq<Packet>)
    requires Partial(left) && Frames(got) + left <= Frames(sent)
    requires forall p :: p in got + sent ==> Fits(p)
    ensures got <= sent
    ensures Frames(got) + left == Frames(sent) ==> got == sent && left == []
  {
    hide Partial, Fits;
    DeframeFrames(got, left);
    PrefixOfFrames(Frames(got) + left, sent);
    RoundTripIff(sent);
  }

  lemma {:induction false} PrefixOfFrames(b: seq<Byte>, sent: seq<Packet>)
    requires b <= Frames(sent) && forall p :: p in sent ==> Fits(p)
    ensures Deframe(b).0 <= sent
    decreases |sent|
  {
    if sent != [] && !Partial(b) {
      var p, rest := sent[0], sent[1..];
      FirstOfStream(b, p, Frames(rest));
      PrefixOfFrames(b[LENGTH_SIZE + |p|..], rest);
    }
  }

  lemma FirstOfStream(b: seq<Byte>, p: Packet, rest: seq<Byte>)
    requires !Partial(b) && Fits(p) && b <= Frame(p) + rest
    ensures LengthOf(b) == |p| && b[LENGTH_SIZE..LENGTH_SIZE + |p|] == p
    ensures b[LENGTH_SIZE + |p|..] <= rest
  {
    var all := Frame(p) + rest;
    assert b[0] == all[0] && b[1] == all[1];
    var k := LENGTH_SIZE + |p|;
    assert b[LENGTH_SIZE..k] == all[LENGTH_SIZE..k] == p;
    assert b[k..] == all[k..|b|] == rest[..|b| - k];
  }

  // ---------------------------------------------------------------- the socket

  class AsyncTCPSocket {
    const outbuf: array<Byte>
    const inbuf: array<Byte>
    var outpos: nat
    var inpos: nat

    ghost var accepted: seq<Packet>   // packets of which something was sent
    ghost var wire: seq<Byte>         // what the stream has taken
    ghost var received: seq<Byte>     // what came in
    ghost var delivered: seq<Packet>  // packets handed on

    ghost predicate Shaped()
      reads this
    {
      outbuf.Length == BUF_SIZE && inbuf.Length == BUF_SIZE && outbuf != inbuf && outpos <= BUF_SIZE && inpos <= BUF_SIZE
    }

    /** No byte is lost, made up or out of place: what was taken and what waits are the frames
        of the accepted packets; what came in is the frames of those delivered and a part of one. */
    ghost predicate Valid()
      reads this, outbuf, inbuf
    {
      && Shaped()
      && wire + outbuf[..outpos] == Frames(accepted)
      && received == Frames(delivered) + inbuf[..inpos]
      && Partial(inbuf[..inpos]) && forall p :: p in delivered ==> Fits(p)
    }

    constructor ()
      ensures Valid() && outpos == 0 && accepted == [] && wire == [] && received == [] && delivered == []
      ensures fresh(outbuf) && fresh(inbuf)
    {
      outbuf, inbuf := new Byte[BUF_SIZE], new Byte[BUF_SIZE];
      outpos, inpos, accepted, wire, received, delivered := 0, 0, [], [], [], [];
    }

    /** Sends what waits. The stream takes `res` bytes, or fails. */
    method Flush(res: int) returns (r: int)
      requires Shaped() && outpos > 0
      modifies this`outpos, this`wire, outbuf
      ensures Shaped()
      ensures r > 0 <==> 0 < res <= old(outpos)
      ensures r > 0 ==> outpos == old(outpos) - res && wire == old(wire) + old(outbuf[..outpos])[..res]
      ensures r > 0 ==> r == res && outbuf[..outpos] == old(outbuf[..outpos])[res..]
      ensures r <= 0 ==> wire == old(wire) && outpos == old(outpos) && outbuf[..] == old(outbuf[..])
    {
      if res <= 0 {
        return res;
      }
      if res > outpos {
        return -1;
      }
      wire := wire + outbuf[..res];
      outpos := outpos - res;
      if outpos > 0 {
        MoveDown(outbuf, res, outpos);
      }
      return res;
    }

    /** Accepts a packet if nothing waits and the stream takes part of it. A packet dropped
        because something waits is reported as sent. */
    method Send(data: Packet, res: int) returns (r: int)
      requires Valid()
      modifies this`outpos, this`wire, this`accepted, outbuf
      ensures Valid()
      ensures var takes := |data| <= MAX_PACKET_SIZE && old(outpos) == 0 && 0 < res <= LENGTH_SIZE + |data|;
        && accepted == (if takes then old(accepted) + [data] else old(accepted))
        && (!takes ==> wire == old(wire) && outpos == old(outpos))
        && (takes ==> wire == old(wire) + Frame(data)[..res])
        && (r == |data| && r > 0 ==> takes || old(outpos) > 0)
        && (|data| <= MAX_PACKET_SIZE && old(outpos) > 0 ==> r == |data|)
        && (takes ==> r == |data|)
        && (!takes && (old(outpos) == 0 || |data| > MAX_PACKET_SIZE) ==> r <= 0)
    {
      if |data| > MAX_PACKET_SIZE {
        return -1;
      }
      if outpos > 0 {
        return |data|;
      }
      hide Frame, Frames, Partial, Fits;
      LoadFrame(data);
      var sent := Flush(res);
      if sent <= 0 {
        outpos := 0;
        return sent;
      }
      FramesOfTwo(accepted, [data]);
      FramesOfOne(data);
      SplitAt(old(wire), old(outbuf[..0]), Frame(data), res);
      accepted := accepted + [data];
      return |data|;
    }

    method LoadFrame(data: Packet)
      requires Shaped() && |data| <= MAX_PACKET_SIZE
      modifies this`outpos, outbuf
      ensures Shaped() && outpos == LENGTH_SIZE + |data| && outbuf[..outpos] == Frame(data)
    {
      CopyInto(outbuf, 0, [|data| / 256 % 256, |data| % 256]);
      CopyInto(outbuf, LENGTH_SIZE, data);
      outpos := LENGTH_SIZE + |data|;
    }

    static lemma SplitAt(wire: seq<Byte>, none: seq<Byte>, frame: seq<Byte>, n: nat)
      requires none == [] && n <= |frame|
      ensures wire + frame[..n] + frame[n..] == wire + none + frame
    {
    }

    method OnWriteEvent(res: int)
      requires Valid()
      modifies this`outpos, this`wire, outbuf
      ensures Valid()
      ensures var waits := old(outbuf[..outpos]);
        if 0 < res <= |waits| then wire == old(wire) + waits[..res] && outbuf[..outpos] == waits[res..]
        else wire == old(wire) && outbuf[..outpos] == waits
      ensures old(outpos) > 0 && res == old(outpos) ==> wire == Frames(accepted)
    {
      if outpos > 0 {
        var sent := Flush(res);
      }
    }

    /** Takes the first packet out of the buffer, if all of it is there. */
    method TakePacket() returns (taken: bool, packet: Packet)
      requires Shaped()
      modifies this`inpos, inbuf
      ensures Shaped()
      ensures var b := old(inbuf[..inpos]);
        && (taken <==> !Partial(b))
        && (!taken ==> inbuf[..inpos] == b)
        && (taken ==>
              && packet == b[LENGTH_SIZE..LENGTH_SIZE + LengthOf(b)]
              && inbuf[..inpos] == b[LENGTH_SIZE + LengthOf(b)..])
    {
      ghost var b := inbuf[..inpos];
      if inpos < LENGTH_SIZE {
        return false, [];
      }
      var high: int, low: int := inbuf[0], inbuf[1];
      var length := 256 * high + low;
      assert b[0] == inbuf[0] && b[1] == inbuf[1];
      if inpos < LENGTH_SIZE + length {
        return false, [];
      }
      packet := inbuf[LENGTH_SIZE..LENGTH_SIZE + length];
      assert packet == b[LENGTH_SIZE..LENGTH_SIZE + length];
      inpos := inpos - (LENGTH_SIZE + length);
      if inpos > 0 {
        MoveDown(inbuf, LENGTH_SIZE + length, inpos);
      }
      return true, packet;
    }

    /** Hands on every whole packet at the start of the buffer. */
    method ProcessInput() returns (packets: seq<Packet>)
      requires Shaped()
      modifies this`inpos, inbuf
      ensures Shaped()
      ensures packets == Deframe(old(inbuf[..inpos])).0 && inbuf[..inpos] == Deframe(old(inbuf[..inpos])).1
    {
      hide Deframe, LengthOf;
      packets := [];
      ghost var all := inbuf[..inpos];
      while true
        invariant Shaped()
        invariant Deframe(all).0 == packets + Deframe(inbuf[..inpos]).0
        invariant Deframe(all).1 == Deframe(inbuf[..inpos]).1
        decreases inpos
      {
        DeframeStep(inbuf[..inpos]);
        var taken, packet := TakePacket();
        if !taken {
          return;
        }
        packets := packets + [packet];
      }
    }

    static lemma DeframeStep(b: seq<Byte>)
      ensures Partial(b) ==> Deframe(b) == ([], b)
      ensures !Partial(b) ==>
        var n, rest := LengthOf(b), b[LENGTH_SIZE + LengthOf(b)..];
        |rest| < |b| && Deframe(b) == ([b[LENGTH_SIZE..LENGTH_SIZE + n]] + Deframe(rest).0, Deframe(rest).1)
    {
    }

    /** Bytes arrive, no more than there is room for. The input never fills the buffer. */
    method OnReadEvent(data: seq<Byte>)
      requires Valid() && |data| <= BUF_SIZE - inpos
      modifies this`inpos, this`received, this`delivered, inbuf
      ensures Valid()
      ensures received == old(received) + data
      ensures inpos <= MAX_PACKET_SIZE
      ensures old(delivered) <= delivered
    {
      hide Deframe, Frames, Partial, Fits;
      ghost var before := inbuf[..inpos];
      CopyInto(inbuf, inpos, data);
      inpos := inpos + |data|;
      var packets := ProcessInput();
      Arrived(delivered, before, data);
      received := received + data;
      delivered := delivered + packets;
      PartialIsShort(inbuf[..inpos]);
      if inpos >= BUF_SIZE {
        assert false;
      }
    }

    static lemma Arrived(delivered: seq<Packet>, before: seq<Byte>, data: seq<Byte>)
      ensures var d := Deframe(before + data);
        && Frames(delivered) + before + data == Frames(delivered + d.0) + d.1
        && forall p :: p in d.0 ==> Fits(p)
    {
      hide Deframe, Frames, Partial;
      DeframeIsInverse(before + data);
      AllFit(before + data);
      FramesOfTwo(delivered, Deframe(before + data).0);
      var d := Deframe(before + data);
      assert Frames(delivered) + before + data == Frames(delivered) + (before + data);
      assert Frames(delivered) + (Frames(d.0) + d.1) == Frames(delivered + d.0) + d.1;
    }

    static lemma AllFit(b: seq<Byte>)
      ensures forall p :: p in Deframe(b).0 ==> Fits(p)
    {
    }

    static lemma PartialIsShort(b: seq<Byte>)
      requires Partial(b)
      ensures |b| <= MAX_PACKET_SIZE
    {
    }

    static lemma {:induction false} DeframeIsInverse(b: seq<Byte>)
      ensures b == Frames(Deframe(b).0) + Deframe(b).1
      decreases |b|
    {
      if !Partial(b) {
        var n := LengthOf(b);
        var p, rest := b[LENGTH_SIZE..LENGTH_SIZE + n], b[LENGTH_SIZE + n..];
        DeframeIsInverse(rest);
        FrameOfFirst(b, p, rest);
        FramesOfTwo([p], Deframe(rest).0);
        FramesOfOne(p);
      }
    }

    static lemma FrameOfFirst(b: seq<Byte>, p: Packet, rest: seq<Byte>)
      requires !Partial(b) && p == b[LENGTH_SIZE..LENGTH_SIZE + LengthOf(b)] && rest == b[LENGTH_SIZE + LengthOf(b)..]
      ensures Frame(p) + rest == b
    {
      assert Frame(p) == b[..LENGTH_SIZE + LengthOf(b)];
    }
  }

  // ---------------------------------------------------------------- end to end

  /** Whatever was sent and received, in whatever portions: as long as the stream hands on what
      it took in order, the packets delivered are the first of those accepted, unaltered; and
      all of them once everything has arrived. */
  lemma EndToEnd(from: AsyncTCPSocket, to: AsyncTCPSocket)
    requires from.Valid() && to.Valid() && to.received <= from.wire
    requires forall p :: p in from.accepted ==> Fits(p)
    ensures to.delivered <= from.accepted
    ensures to.received == from.wire && from.outpos == 0 ==> to.delivered == from.accepted && to.inpos == 0
  {
    hide Frames, Partial, Fits;
    var left, waiting := to.inbuf[..to.inpos], from.outbuf[..from.outpos];
    assert from.wire == (from.wire + waiting)[..|from.wire|];
    assert to.received == Frames(from.accepted)[..|to.received|];
    ArrivedIsPrefix(to.delivered, left, from.accepted);
    assert from.outpos == 0 ==> from.wire + waiting == from.wire;
  }
}
