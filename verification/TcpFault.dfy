/** Why the conditions of `TcpNetwork.ReadIsPrefix` are there: a run in which one
    acknowledgement names the byte after those in flight, and the peer ends up
    reading a stream with a byte missing. */
module TcpFault {
  import opened Bytes
  import opened TcpProtocol
  import opened TcpNetwork

  /** The action can happen: only segments that were sent arrive. */
  predicate Possible(net: Net, a: Action) {
    a.event.Receives? ==> a.event.segment in if a.onLeft then net.fromRight else net.fromLeft
  }

  ghost predicate AllPossible(net: Net, actions: seq<Action>) {
    forall i :: 0 <= i < |actions| ==> Possible(Run(net, actions[..i]), actions[i])
  }

  lemma OneMore(net: Net, actions: seq<Action>, a: Action)
    requires AllPossible(net, actions) && Possible(Run(net, actions), a)
    ensures AllPossible(net, actions + [a])
    ensures Run(net, actions + [a]) == Next(Run(net, actions), a)
  {
    var all := actions + [a];
    assert all[..|actions|] == actions;
    forall i | 0 <= i < |all| ensures Possible(Run(net, all[..i]), all[i]) {
      if i < |actions| { assert all[..i] == actions[..i]; }
    }
  }

  // The bytes of the run.
  const STREAM: seq<Byte> := [10, 11, 12, 13, 14, 15, 16, 17]

  /** An endpoint with segment size 2 before any traffic. */
  function Idle(): Conn {
    Conn(Established, 0, 0, 0, 0, 8192, 2, 0, 0, 1, 2920, 65536, 0, 0, 0, false, [], [])
  }

  function Start(): Net {
    Net(Peer(Idle(), 0, [], [], 0, 0), Peer(Idle(), 0, [], [], 0, 0), {}, {})
  }

  /** The sender after its first four writes: six bytes in four segments. */
  function AfterWrites(): Conn {
    Idle().(sndNxt := 6, sndCur := 6, retxTicks := 50, tx := STREAM[..6])
  }

  function Data(i: nat, j: nat): Segment
    requires i <= j <= 8
  {
    Segment(i, 0, 32768, STREAM[i..j])
  }

  lemma OneWrite(c: Conn, i: nat, j: nat)
    requires i < j <= 6 && j - i <= 2
    requires c == Idle().(sndNxt := i, sndCur := i, retxTicks := if i == 0 then 0 else 50, tx := STREAM[..i])
    ensures Write(c, STREAM[i..j], 0) ==
            Step(Idle().(sndNxt := j, sndCur := j, retxTicks := 50, tx := STREAM[..j]), [Data(i, j)])
  {
    var more := STREAM[i..j];
    assert Accepted(c, more) == more;
    var c1 := c.(tx := c.tx + more);
    assert c1.tx == STREAM[..j];
    assert FlushSize(c1) == j - i;
    var c2 := Sent(c1, j - i, 0);
    assert FlushSize(c2) == 0;
    assert Flush(c2, 0, 7) == Step(c2, []);
    assert c1.tx[i..j] == more;
    assert Header(c1, more) == Data(i, j);
  }

  /** The receiver when `r` bytes have arrived. */
  function Receiver(r: nat): Conn
    requires r <= 8
  {
    Idle().(sndWnd := if r == 0 then 8192 else 32768, rcvNxt := r, rx := STREAM[..r])
  }

  function Ack(r: nat): Segment
    requires r <= 8
  {
    Segment(0, r, 32768 - r, [])
  }

  lemma OneArrival(i: nat, j: nat)
    requires i < j <= 6
    ensures OnSegment(Receiver(i), Data(i, j), 0) == Step(Receiver(j), [Ack(j)])
  {
    assert STREAM[i..j] != [];
    assert STREAM[..i] + STREAM[i..j] == STREAM[..j];
    assert STREAM[i..j][..j - i] == STREAM[i..j];
  }

  /** The retransmission timeout: back to byte 0, one segment in flight. */
  function TimedOut(): Conn {
    AfterWrites().(sndNxt := 2, sndCur := 2, retxTicks := 150, retxCount := 1, retxBackoff := 2,
                   cwnd := 2, ssthresh := 4)
  }

  lemma TimeoutStep()
    ensures Tick(AfterWrites(), 50) == Step(TimedOut(), [Data(0, 2)])
  {
    assert STREAM[..6][..2] == STREAM[0..2];
  }

  /** An old acknowledgement of three bytes arrives while two are in flight. */
  function Skewed(): Conn {
    Idle().(sndUna := 3, sndNxt := 5, sndCur := 3, sndWnd := 32765, tx := STREAM[3..6],
            retxTicks := 150, cwnd := 4, ssthresh := 4, lastAck := 3)
  }

  lemma SkewFlush(c1: Conn)
    requires c1 == Skewed().(sndNxt := 2, sndCur := 0)
    ensures Flush(c1, 50, 8).conn == Skewed()
  {
    var c2 := Sent(c1, 2, 50);
    var c3 := Sent(c2, 1, 50);
    assert FlushSize(c1) == 2 && FlushSize(c2) == 1 && FlushSize(c3) == 0;
    assert Flush(c3, 50, 6) == Step(c3, []);
    assert Flush(c2, 50, 7).conn == c3;
  }

  lemma SkewStep()
    ensures Acked(TimedOut(), 3) == TimedOut().sndCur + 1
    ensures OnSegment(TimedOut(), Ack(3), 50).conn == Skewed()
  {
    var c1 := Slide(TimedOut().(sndWnd := 32765), 3);
    assert c1.tx == STREAM[3..6];
    SkewFlush(c1);
  }

  function MoreWritten(): Conn {
    Skewed().(sndNxt := 6, sndCur := 4, tx := STREAM[3..7])
  }

  lemma SixthWrite()
    ensures Write(Skewed(), STREAM[6..7], 50).conn == MoreWritten()
  {
    assert Accepted(Skewed(), STREAM[6..7]) == STREAM[6..7];
    var c1 := Skewed().(tx := Skewed().tx + STREAM[6..7]);
    assert c1.tx == STREAM[3..7];
    assert FlushSize(c1) == 1;
    var c2 := Sent(c1, 1, 50);
    assert FlushSize(c2) == 0;
    assert Flush(c2, 50, 7) == Step(c2, []);
  }

  function FiveAcked(): Conn {
    MoreWritten().(sndUna := 5, sndCur := 2, sndWnd := 32763, tx := STREAM[5..7], cwnd := 5, lastAck := 5)
  }

  lemma AckFiveStep()
    ensures OnSegment(MoreWritten(), Ack(5), 50).conn == FiveAcked()
  {
    var c := MoreWritten().(sndWnd := 32763);
    var c1 := Slide(c, 5);
    assert c1.tx == STREAM[5..7];
    assert FlushSize(c1) == 0;
    assert Flush(c1, 50, 8) == Step(c1, []);
  }

  /** Byte 7 of the stream leaves under number 6. */
  lemma SeventhWrite()
    ensures Write(FiveAcked(), STREAM[7..8], 50).sent == [Segment(6, 0, 32768, STREAM[7..8])]
  {
    assert Accepted(FiveAcked(), STREAM[7..8]) == STREAM[7..8];
    var c1 := FiveAcked().(tx := FiveAcked().tx + STREAM[7..8]);
    assert c1.tx == STREAM[5..8];
    assert FlushSize(c1) == 1;
    var c2 := Sent(c1, 1, 50);
    assert FlushSize(c2) == 0;
    assert Flush(c2, 50, 7) == Step(c2, []);
    assert c1.tx[2..3] == STREAM[7..8];
  }

  lemma WrongArrival()
    ensures OnSegment(Receiver(6), Segment(6, 0, 32768, STREAM[7..8]), 50).conn.rx == STREAM[..6] + STREAM[7..8]
  {
    assert STREAM[7..8] != [];
    assert STREAM[7..8][..1] == STREAM[7..8];
  }

  // ------------------------------------------------------ the whole run

  function Sender(k: nat): Conn
    requires k <= 6
  {
    Idle().(sndNxt := k, sndCur := k, retxTicks := if k == 0 then 0 else 50, tx := STREAM[..k])
  }

  lemma PeerWrites(p: Peer, i: nat, j: nat)
    requires i < j <= 6 && j - i <= 2
    requires p.conn == Sender(i) && p.written == STREAM[..i]
    ensures var e := Writes(STREAM[i..j], 0);
            && StepOf(p, e) == Step(Sender(j), [Data(i, j)])
            && After(p, e).conn == Sender(j) && After(p, e).written == STREAM[..j]
  {
    OneWrite(Sender(i), i, j);
    assert Accepted(Sender(i), STREAM[i..j]) == STREAM[i..j];
    assert STREAM[..i] + STREAM[i..j] == STREAM[..j];
  }

  /** One more write of the first phase. */
  lemma WriteMore(acts: seq<Action>, i: nat, j: nat) returns (next: seq<Action>)
    requires i < j <= 6 && j - i <= 2
    requires AllPossible(Start(), acts)
    requires var n := Run(Start(), acts); n.left.conn == Sender(i) && n.left.written == STREAM[..i]
    ensures AllPossible(Start(), next)
    ensures var n, m := Run(Start(), acts), Run(Start(), next);
            && m.left.conn == Sender(j) && m.left.written == STREAM[..j] && m.right == n.right
            && m.fromLeft == n.fromLeft + {Data(i, j)} && m.fromRight == n.fromRight
  {
    var a := Action(true, Writes(STREAM[i..j], 0));
    var n := Run(Start(), acts);
    PeerWrites(n.left, i, j);
    assert SegmentSet([Data(i, j)]) == {Data(i, j)};
    OneMore(Start(), acts, a);
    next := acts + [a];
    assert Run(Start(), next) == Next(n, a);
  }

  /** One more segment arrives in the second phase. */
  lemma ArriveMore(acts: seq<Action>, i: nat, j: nat) returns (next: seq<Action>)
    requires i < j <= 6
    requires AllPossible(Start(), acts)
    requires var n := Run(Start(), acts); n.right.conn == Receiver(i) && n.right.got == [] && Data(i, j) in n.fromLeft
    ensures AllPossible(Start(), next)
    ensures var n, m := Run(Start(), acts), Run(Start(), next);
            && m.right.conn == Receiver(j) && m.right.got == [] && m.left == n.left
            && m.fromLeft == n.fromLeft && m.fromRight == n.fromRight + {Ack(j)}
  {
    var a := Action(false, Receives(Data(i, j), 0));
    var n := Run(Start(), acts);
    OneArrival(i, j);
    assert SegmentSet([Ack(j)]) == {Ack(j)};
    OneMore(Start(), acts, a);
    next := acts + [a];
    assert Run(Start(), next) == Next(n, a);
  }

  /** Six bytes written in four segments, all arrived, every acknowledgement
      still on its way. */
  lemma AllArrived() returns (acts: seq<Action>)
    ensures At(acts, AfterWrites(), STREAM[..6])
  {
    acts := [];
    assert STREAM[..0] == [];
    acts := WriteMore(acts, 0, 1);
    acts := WriteMore(acts, 1, 3);
    acts := WriteMore(acts, 3, 5);
    acts := WriteMore(acts, 5, 6);
    acts := ArriveMore(acts, 0, 1);
    acts := ArriveMore(acts, 1, 3);
    acts := ArriveMore(acts, 3, 5);
    acts := ArriveMore(acts, 5, 6);
  }

  /** The sender is in state `c` having written `w`; the receiver waits for byte 6. */
  ghost predicate At(acts: seq<Action>, c: Conn, w: seq<Byte>) {
    var n := Run(Start(), acts);
    && AllPossible(Start(), acts)
    && n.left.conn == c && n.left.written == w
    && n.right.conn == Receiver(6) && n.right.got == []
    && Ack(3) in n.fromRight && Ack(5) in n.fromRight
  }

  lemma LeftActs(acts: seq<Action>, e: Event, c: Conn, w: seq<Byte>, c': Conn, w': seq<Byte>)
    returns (next: seq<Action>)
    requires At(acts, c, w)
    requires e.Receives? ==> e.segment in {Ack(3), Ack(5)}
    requires forall p: Peer :: p.conn == c && p.written == w ==> After(p, e).conn == c' && After(p, e).written == w'
    ensures At(next, c', w')
    ensures next == acts + [Action(true, e)]
  {
    OneMore(Start(), acts, Action(true, e));
    next := acts + [Action(true, e)];
  }

  lemma TimesOut(acts: seq<Action>) returns (next: seq<Action>)
    requires At(acts, AfterWrites(), STREAM[..6])
    ensures At(next, TimedOut(), STREAM[..6])
  {
    TimeoutStep();
    next := LeftActs(acts, Ticks(50), AfterWrites(), STREAM[..6], TimedOut(), STREAM[..6]);
  }

  lemma GetsAckThree(acts: seq<Action>) returns (next: seq<Action>)
    requires At(acts, TimedOut(), STREAM[..6])
    ensures At(next, Skewed(), STREAM[..6])
  {
    SkewStep();
    next := LeftActs(acts, Receives(Ack(3), 50), TimedOut(), STREAM[..6], Skewed(), STREAM[..6]);
  }

  lemma WritesSix(acts: seq<Action>) returns (next: seq<Action>)
    requires At(acts, Skewed(), STREAM[..6])
    ensures At(next, MoreWritten(), STREAM[..7])
  {
    SixthWrite();
    assert Accepted(Skewed(), STREAM[6..7]) == STREAM[6..7];
    assert STREAM[..6] + STREAM[6..7] == STREAM[..7];
    next := LeftActs(acts, Writes(STREAM[6..7], 50), Skewed(), STREAM[..6], MoreWritten(), STREAM[..7]);
  }

  lemma GetsAckFive(acts: seq<Action>) returns (next: seq<Action>)
    requires At(acts, MoreWritten(), STREAM[..7])
    ensures At(next, FiveAcked(), STREAM[..7])
  {
    AckFiveStep();
    next := LeftActs(acts, Receives(Ack(5), 50), MoreWritten(), STREAM[..7], FiveAcked(), STREAM[..7]);
  }

  lemma WritesSeven(acts: seq<Action>) returns (next: seq<Action>)
    requires At(acts, FiveAcked(), STREAM[..7])
    ensures At(next, Write(FiveAcked(), STREAM[7..8], 50).conn, STREAM)
    ensures Segment(6, 0, 32768, STREAM[7..8]) in Run(Start(), next).fromLeft
  {
    SeventhWrite();
    var last := Write(FiveAcked(), STREAM[7..8], 50);
    assert Accepted(FiveAcked(), STREAM[7..8]) == STREAM[7..8];
    assert STREAM[..7] + STREAM[7..8] == STREAM;
    next := LeftActs(acts, Writes(STREAM[7..8], 50), FiveAcked(), STREAM[..7], last.conn, STREAM);
    OneMore(Start(), acts, Action(true, Writes(STREAM[7..8], 50)));
    assert last.sent[0] in last.sent;
  }

  /** The peer takes byte 7 for byte 6 and reads everything. */
  lemma ReadsWrong(acts: seq<Action>, c: Conn) returns (next: seq<Action>)
    requires At(acts, c, STREAM)
    requires Segment(6, 0, 32768, STREAM[7..8]) in Run(Start(), acts).fromLeft
    ensures AllPossible(Start(), next)
    ensures Run(Start(), next).left.written == STREAM
    ensures Run(Start(), next).right.got == STREAM[..6] + STREAM[7..8]
  {
    var wrong := Action(false, Receives(Segment(6, 0, 32768, STREAM[7..8]), 50));
    OneMore(Start(), acts, wrong);
    WrongArrival();
    var after := acts + [wrong];
    var all := Action(false, Reads(100));
    OneMore(Start(), after, all);
    next := after + [all];
    var bad := STREAM[..6] + STREAM[7..8];
    assert bad[..7] == bad;
  }

  /** Without the condition on acknowledgements the end-to-end property fails:
      there is a run of possible actions after which the peer has read a stream
      that is not a prefix of what was written. */
  lemma AckPastFlightCorrupts()
    ensures exists net, actions ::
              && Fresh(net) && AllPossible(net, actions)
              && !(Run(net, actions).right.got <= Run(net, actions).left.written)
  {
    var acts := AllArrived();
    acts := TimesOut(acts);
    acts := GetsAckThree(acts);
    acts := WritesSix(acts);
    acts := GetsAckFive(acts);
    acts := WritesSeven(acts);
    acts := ReadsWrong(acts, Run(Start(), acts).left.conn);
    var n := Run(Start(), acts);
    assert n.right.got[6] == 17 && n.left.written[6] == 16;
    assert Fresh(Start());
  }
}
