/** Two Established endpoints over a network that loses, repeats and reorders
    segments: on every run, what one side has read is a prefix of what the other
    side has written. */
module TcpNetwork {
  import opened Bytes
  import opened Wrappers
  import opened TcpProtocol

  /** One endpoint with its history: the stream it wrote from sequence number
      `base` on, what it has read, how much of its stream is acknowledged, and
      how much of the peer's stream has arrived. */
  datatype Peer = Peer(conn: Conn, base: nat, written: seq<Byte>, got: seq<Byte>, una: nat, arrived: nat)

  /** A segment once sent may arrive at any later time, any number of times, or
      never: the network only ever forgets to deliver. */
  datatype Net = Net(left: Peer, right: Peer, fromLeft: set<Segment>, fromRight: set<Segment>)

  datatype Event =
    | Writes(data: seq<Byte>, now: nat)
    | Reads(want: nat)
    | Flushes(now: nat)
    | Receives(segment: Segment, now: nat)
    | Ticks(now: nat)

  datatype Action = Action(onLeft: bool, event: Event)

  // ------------------------------------------------------ one endpoint

  function StepOf(p: Peer, e: Event): Step {
    match e
    case Writes(data, now) => Write(p.conn, data, now)
    case Reads(want) => Step(Read(p.conn, want), [])
    case Flushes(now) => if p.conn.state.Established? then FlushTx(p.conn, now) else Step(p.conn, [])
    case Receives(s, now) => OnSegment(p.conn, s, now)
    case Ticks(now) => Tick(p.conn, now)
  }

  /** The endpoint and its history after the event. */
  function After(p: Peer, e: Event): Peer {
    var q := p.(conn := StepOf(p, e).conn);
    match e
    case Writes(data, now) => q.(written := p.written + Accepted(p.conn, data))
    case Reads(want) => q.(got := p.got + ReadBytes(p.conn, want))
    case Receives(s, now) =>
      if p.conn.state.Closed? then q
      else q.(una := NewUna(p.conn, s.ack, p.una), arrived := Arrived(p.conn, s, p.arrived))
    case _ => q
  }

  /** What the run must respect: under 2^32 bytes per stream, no acknowledgement
      of the one byte after those in flight, no probe over data in flight. */
  predicate Respects(p: Peer, e: Event) {
    match e
    case Writes(data, now) => |p.written| + |Accepted(p.conn, data)| < MOD32
    case Receives(s, now) => s.ack < MOD32 && Acked(p.conn, s.ack) != p.conn.sndCur + 1
    case Ticks(now) => ProbeSafe(p.conn, now)
    case _ => true
  }

  // -------------------------------------------------------- invariant

  ghost predicate AcksArrived(s: Segment, base: nat, arrived: nat) {
    exists k: nat :: k <= arrived && s.ack == SeqAt(base, k)
  }

  ghost predicate SendOk(p: Peer, out: set<Segment>) {
    && |p.written| < MOD32
    && (p.conn.state.Established? ==> Aligned(p.conn, p.written, p.base, p.una))
    && forall s :: s in out ==> Carries(s, p.written, p.base)
  }

  ghost predicate ReceiveOk(q: Peer, back: set<Segment>, written: seq<Byte>, base: nat) {
    && q.arrived <= |written|
    && q.got <= written
    && (if q.conn.state.Established? then InOrder(q.conn, q.got, written, base, q.arrived) else q.conn.rx == [])
    && forall s :: s in back ==> AcksArrived(s, base, q.arrived)
  }

  /** The stream from `p` to `q`; `out` and `back` are all segments ever sent by
      `p` and by `q`. */
  ghost predicate Stream(p: Peer, q: Peer, out: set<Segment>, back: set<Segment>) {
    SendOk(p, out) && ReceiveOk(q, back, p.written, p.base) && p.una <= q.arrived
  }

  // ------------------------------------------------------ sending side

  ghost function SegmentSet(segs: seq<Segment>): set<Segment> {
    set s | s in segs
  }

  lemma CarriesMore(s: Segment, written: seq<Byte>, more: seq<Byte>, base: nat)
    requires Carries(s, written, base)
    ensures Carries(s, written + more, base)
  {
    if s.data != [] {
      var p: nat :| CarriesAt(s, written, base, p);
      assert CarriesAt(s, written + more, base, p);
    }
  }

  /** The wire stays truthful when truthful segments are added. */
  lemma WireCarries(out: set<Segment>, segs: seq<Segment>, written: seq<Byte>, base: nat)
    requires forall s :: s in out ==> Carries(s, written, base)
    requires AllCarry(segs, written, base)
    ensures forall s :: s in out + SegmentSet(segs) ==> Carries(s, written, base)
  {
  }

  lemma SendWrite(p: Peer, data: seq<Byte>, now: nat, out: set<Segment>)
    requires SendOk(p, out) && p.conn.state.Established? && Respects(p, Writes(data, now))
    ensures SendOk(After(p, Writes(data, now)), out + SegmentSet(Write(p.conn, data, now).sent))
  {
    var more := Accepted(p.conn, data);
    var written := p.written + more;
    var c1 := p.conn.(tx := p.conn.tx + more);
    assert c1.tx == written[p.una..];
    FlushAligned(c1, now, MAX_FLUSH_SEGS, written, p.base, p.una);
    forall s | s in out ensures Carries(s, written, p.base) { CarriesMore(s, p.written, more, p.base); }
    WireCarries(out, Write(p.conn, data, now).sent, written, p.base);
  }

  lemma SendReceive(p: Peer, s: Segment, now: nat, out: set<Segment>)
    requires SendOk(p, out) && p.conn.state.Established? && Respects(p, Receives(s, now))
    ensures SendOk(After(p, Receives(s, now)), out + SegmentSet(OnSegment(p.conn, s, now).sent))
  {
    OnSegmentAligned(p.conn, s, now, p.written, p.base, p.una);
    WireCarries(out, OnSegment(p.conn, s, now).sent, p.written, p.base);
  }

  lemma SendStep(p: Peer, e: Event, out: set<Segment>, back: set<Segment>, arrived: nat)
    requires SendOk(p, out) && Respects(p, e)
    requires p.una <= arrived <= |p.written|
    requires forall s :: s in back ==> AcksArrived(s, p.base, arrived)
    requires e.Receives? ==> e.segment in back
    ensures SendOk(After(p, e), out + SegmentSet(StepOf(p, e).sent))
    ensures After(p, e).una <= arrived
  {
    var c := p.conn;
    assert p.written + [] == p.written;
    if c.state.Established? {
      match e {
        case Writes(data, now) => SendWrite(p, data, now, out);
        case Reads(want) =>
        case Flushes(now) =>
          FlushAligned(c, now, MAX_FLUSH_SEGS, p.written, p.base, p.una);
          WireCarries(out, FlushTx(c, now).sent, p.written, p.base);
        case Receives(s, now) =>
          SendReceive(p, s, now, out);
          UnaArrived(c, s, p, arrived);
        case Ticks(now) =>
          TickAligned(c, now, p.written, p.base, p.una);
          WireCarries(out, Tick(c, now).sent, p.written, p.base);
      }
    }
  }

  /** Only bytes that have arrived are ever dropped from the ring. */
  lemma UnaArrived(c: Conn, s: Segment, p: Peer, arrived: nat)
    requires Aligned(c, p.written, p.base, p.una) && |p.written| < MOD32
    requires p.una <= arrived <= |p.written| && s.ack < MOD32
    requires AcksArrived(s, p.base, arrived)
    ensures NewUna(c, s.ack, p.una) <= arrived
  {
    var acked := Acked(c, s.ack);
    if 0 < acked <= c.sndCur {
      AckPosition(c, s.ack, p.base, p.una);
      var k: nat :| k <= arrived && s.ack == SeqAt(p.base, k);
      SeqAtInjective(p.base, k, p.una + acked);
    }
  }

  // ---------------------------------------------------- receiving side

  lemma WireAcks(back: set<Segment>, segs: seq<Segment>, base: nat, before: nat, arrived: nat)
    requires before <= arrived
    requires forall s :: s in back ==> AcksArrived(s, base, before)
    requires forall i :: 0 <= i < |segs| ==> segs[i].ack in {SeqAt(base, before), SeqAt(base, arrived)}
    ensures forall s :: s in back + SegmentSet(segs) ==> AcksArrived(s, base, arrived)
  {
    forall s | s in back ensures AcksArrived(s, base, arrived) {
      var k: nat :| k <= before && s.ack == SeqAt(base, k);
    }
  }

  /** A write, flush or tick does not touch what was received. */
  lemma SendingKeepsReceiver(p: Peer, e: Event)
    requires e.Writes? || e.Flushes? || e.Ticks?
    ensures var st := StepOf(p, e);
            && (if st.conn.state.Established? then SameReceiver(p.conn, st.conn)
                else p.conn.state.Established? ==> st.conn.rx == [])
            && AllAck(st.sent, p.conn.rcvNxt)
            && (p.conn.state.Closed? ==> st == Step(p.conn, []))
  {
    var c := p.conn;
    match e {
      case Writes(data, now) =>
        var c1 := c.(tx := c.tx + Accepted(c, data));
        FlushKeepsReceiver(c1, now, MAX_FLUSH_SEGS);
        FlushAcks(c1, now, MAX_FLUSH_SEGS);
      case Flushes(now) =>
        FlushKeepsReceiver(c, now, MAX_FLUSH_SEGS);
        FlushAcks(c, now, MAX_FLUSH_SEGS);
      case Ticks(now) =>
    }
  }

  lemma ReceiveStep(q: Peer, e: Event, back: set<Segment>, written: seq<Byte>, base: nat)
    requires ReceiveOk(q, back, written, base) && |written| < MOD32
    requires e.Receives? ==> Carries(e.segment, written, base)
    ensures ReceiveOk(After(q, e), back + SegmentSet(StepOf(q, e).sent), written, base)
    ensures q.arrived <= After(q, e).arrived
  {
    var c, sent := q.conn, StepOf(q, e).sent;
    match e {
      case Reads(want) =>
        var k := Min(want, |c.rx|);
        assert c.rx[..k] + c.rx[k..] == c.rx;
        if c.state.Established? {
          assert (q.got + c.rx[..k]) + c.rx[k..] == q.got + c.rx;
          assert q.got + c.rx[..k] <= written[..q.arrived];
        }
        WireAcks(back, [], base, q.arrived, q.arrived);
      case Receives(s, now) =>
        if c.state.Established? {
          OnSegmentInOrder(c, s, now, q.got, written, base, q.arrived);
          WireAcks(back, sent, base, q.arrived, After(q, e).arrived);
        } else {
          WireAcks(back, [], base, q.arrived, q.arrived);
        }
      case _ =>
        SendingKeepsReceiver(q, e);
        WireAcks(back, sent, base, q.arrived, q.arrived);
    }
  }

  // ------------------------------------------------------- whole runs

  function Acting(net: Net, a: Action): Peer {
    if a.onLeft then net.left else net.right
  }

  /** The action is possible and the run respects its conditions. */
  predicate Enabled(net: Net, a: Action) {
    && Respects(Acting(net, a), a.event)
    && (a.event.Receives? ==> a.event.segment in if a.onLeft then net.fromRight else net.fromLeft)
  }

  ghost function Next(net: Net, a: Action): Net {
    var p := Acting(net, a);
    var sent := SegmentSet(StepOf(p, a.event).sent);
    if a.onLeft then net.(left := After(p, a.event), fromLeft := net.fromLeft + sent)
    else net.(right := After(p, a.event), fromRight := net.fromRight + sent)
  }

  ghost function Run(net: Net, actions: seq<Action>): Net {
    if actions == [] then net
    else Next(Run(net, actions[..|actions| - 1]), actions[|actions| - 1])
  }

  ghost predicate Respected(net: Net, actions: seq<Action>) {
    forall i :: 0 <= i < |actions| ==> Enabled(Run(net, actions[..i]), actions[i])
  }

  /** Both streams are sound. */
  ghost predicate Sound(net: Net) {
    && Stream(net.left, net.right, net.fromLeft, net.fromRight)
    && Stream(net.right, net.left, net.fromRight, net.fromLeft)
  }

  /** A freshly established connection: each side expects the other's first byte. */
  predicate Fresh(net: Net) {
    && net.fromLeft == {} && net.fromRight == {}
    && FreshPeer(net.left, net.right.base) && FreshPeer(net.right, net.left.base)
  }

  predicate FreshPeer(p: Peer, peerBase: nat) {
    && p.conn.state.Established? && p.conn.tx == [] && p.conn.rx == [] && p.conn.sndCur == 0
    && p.conn.sndUna == SeqAt(p.base, 0) == p.conn.sndNxt && p.conn.rcvNxt == SeqAt(peerBase, 0)
    && p.written == [] && p.got == [] && p.una == 0 && p.arrived == 0
  }

  lemma StepSound(p: Peer, q: Peer, out: set<Segment>, back: set<Segment>, e: Event)
    requires Stream(p, q, out, back) && Stream(q, p, back, out) && Respects(p, e)
    requires e.Receives? ==> e.segment in back
    ensures var out' := out + SegmentSet(StepOf(p, e).sent);
            Stream(After(p, e), q, out', back) && Stream(q, After(p, e), back, out')
  {
    SendStep(p, e, out, back, q.arrived);
    ReceiveStep(p, e, out, q.written, q.base);
    var more := After(p, e).written;
    assert p.written <= more;
    if q.conn.state.Established? {
      assert more[..q.arrived] == p.written[..q.arrived];
    }
  }

  /** On every run from a fresh connection that respects the conditions, both
      streams stay sound: each ring holds exactly the unacknowledged rest of
      what was written, every segment ever sent carries the bytes belonging at
      its number, and only bytes that arrived are acknowledged. */
  lemma {:induction false} RunSound(net: Net, actions: seq<Action>)
    requires Fresh(net) && Respected(net, actions)
    ensures Sound(Run(net, actions))
    decreases |actions|
  {
    hide Sound, Enabled, Next;
    if actions == [] {
      FreshSound(net);
    } else {
      var n := |actions| - 1;
      var init, a := actions[..n], actions[n];
      assert forall i :: 0 <= i < n ==> init[..i] == actions[..i];
      assert forall i :: 0 <= i < n ==> Enabled(Run(net, actions[..i]), actions[i]);
      RunSound(net, init);
      assert Enabled(Run(net, init), a);
      ActionSound(Run(net, init), a);
    }
  }

  lemma FreshSound(net: Net)
    requires Fresh(net)
    ensures Sound(net)
  {
    assert net.left.written[0..] == [];
  }

  lemma ActionSound(net: Net, a: Action)
    requires Sound(net) && Enabled(net, a)
    ensures Sound(Next(net, a))
  {
    if a.onLeft {
      StepSound(net.left, net.right, net.fromLeft, net.fromRight, a.event);
    } else {
      StepSound(net.right, net.left, net.fromRight, net.fromLeft, a.event);
    }
  }

  /** End to end: whatever the network loses, repeats or reorders, what a side
      has read is a prefix of what the other side has written. */
  lemma ReadIsPrefix(net: Net, actions: seq<Action>)
    requires Fresh(net) && Respected(net, actions)
    ensures Run(net, actions).right.got <= Run(net, actions).left.written
    ensures Run(net, actions).left.got <= Run(net, actions).right.written
  {
    RunSound(net, actions);
  }
}
