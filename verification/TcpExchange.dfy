/** One lossless exchange: a flush, its delivery in order, and the last
    acknowledgement back. */
module TcpExchange {
  import opened Wrappers
  import opened TcpProtocol
  import opened TcpWindow

  /** What the receiver does with one segment: data in order goes in as far as there
      is room and is acknowledged, anything else is left alone. */
  lemma Received(d: Conn, s: Segment)
    ensures var r := Deliver(d, s);
            if s.data == [] || s.seqno != d.rcvNxt then r == Step(d, [])
            else
              && d.rx <= r.conn.rx <= d.rx + s.data
              && (r.conn.rx == d.rx + s.data || BUF_SIZE <= |r.conn.rx|)
              && (|d.rx| <= BUF_SIZE ==> |r.conn.rx| <= BUF_SIZE)
              && r.conn == d.(rx := r.conn.rx, rcvNxt := Add32(d.rcvNxt, |r.conn.rx| - |d.rx|))
              && r.sent == [Segment(d.sndNxt, r.conn.rcvNxt, Max(0, BUF_SIZE - |r.conn.rx|), [])]
  {
  }

  /** A whole segment in order: what the receiver takes is acknowledged last, after
      all that its acknowledgement lets out. */
  lemma AckedLast(d: Conn, s: Segment, now: nat)
    requires d.state.Established? && s.data != [] && s.seqno == d.rcvNxt
    ensures var r := OnSegment(d, s, now);
            && 0 < |r.sent| && var last := r.sent[|r.sent| - 1];
               && last.data == [] && last.ack == r.conn.rcvNxt && last.seqno == r.conn.sndNxt
               && last.wnd == Max(0, BUF_SIZE - |r.conn.rx|)
               && d.rx <= r.conn.rx <= d.rx + s.data
               && (r.conn.rx == d.rx + s.data || BUF_SIZE <= |r.conn.rx|)
  {
    hide OnAck, Deliver;
    var d0 := d.(sndWnd := s.wnd);
    OnAckKeepsReceiver(d0, s.ack, false, now);
    var d1 := ArmPersist(OnAck(d0, s.ack, false, now).conn, now);
    Received(d1, s);
  }

  /** Segments handed to the receiver one after the other. */
  function DeliverAll(d: Conn, segs: seq<Segment>): Step
    decreases |segs|
  {
    if segs == [] then Step(d, [])
    else
      var a := Deliver(d, segs[0]);
      var b := DeliverAll(a.conn, segs[1..]);
      Step(b.conn, a.sent + b.sent)
  }

  /** Each segment begins where the one before ended. */
  predicate Consecutive(segs: seq<Segment>, from: nat)
    decreases |segs|
  {
    segs == [] ||
    (segs[0].data != [] && segs[0].seqno == from && Consecutive(segs[1..], Add32(from, |segs[0].data|)))
  }

  lemma {:induction false} FlushConsecutive(c: Conn, now: nat, k: nat)
    ensures Consecutive(Flush(c, now, k).sent, c.sndNxt)
    decreases k
  {
    var n := FlushSize(c);
    if k > 0 && n > 0 {
      var c1 := Sent(c, n, now);
      FlushConsecutive(c1, now, k - 1);
      assert Flush(c, now, k).sent[1..] == Flush(c1, now, k - 1).sent;
    }
  }

  /** The last acknowledgement of a delivery that fits. */
  predicate Confirms(d: Conn, a: Segment) {
    a.data == [] && a.ack == d.rcvNxt && a.wnd == BUF_SIZE - |d.rx|
  }

  lemma {:induction false} AllArrive(d: Conn, segs: seq<Segment>)
    requires Consecutive(segs, d.rcvNxt) && d.rcvNxt < MOD32 && |d.rx| + |Payload(segs)| <= BUF_SIZE
    ensures var r := DeliverAll(d, segs);
            && r.conn == d.(rx := d.rx + Payload(segs), rcvNxt := Add32(d.rcvNxt, |Payload(segs)|))
            && |r.sent| == |segs|
            && (segs != [] ==> Confirms(r.conn, r.sent[|segs| - 1]))
    decreases |segs|
  {
    if segs == [] {
      assert d.rx + [] == d.rx;
    } else {
      var s := segs[0];
      var a := Deliver(d, s);
      Received(d, s);
      assert a.conn.rx == d.rx + s.data;
      AllArrive(a.conn, segs[1..]);
      AddTwice(d.rcvNxt, |s.data|, |Payload(segs[1..])|);
      assert (d.rx + s.data) + Payload(segs[1..]) == d.rx + Payload(segs);
    }
  }

  /** Sender and receiver agree on what has arrived, and the window is honest. */
  predicate InStep(c: Conn, d: Conn) {
    && c.sndCur == 0 && c.sndUna == c.sndNxt == d.rcvNxt < MOD32
    && |d.rx| <= BUF_SIZE && c.sndWnd <= BUF_SIZE - |d.rx|
  }

  /** When nothing is lost, a flush moves bytes from the sender's ring to the end of
      the receiver's, none lost and none twice, and the two are in step again after
      the acknowledgement. Something moves unless there is nothing to send or no
      room for it. */
  lemma LosslessExchange(c: Conn, d: Conn, now: nat, later: nat)
    requires InStep(c, d)
    ensures var f := FlushTx(c, now);
            var g := DeliverAll(d, f.sent);
            && (f.sent == [] <==> c.tx == [] || c.sndWnd == 0 || c.cwnd == 0 || c.mss == 0)
            && (f.sent != [] ==>
                  |g.sent| > 0 &&
                  var ack := g.sent[|g.sent| - 1];
                  var c' := OnAck(f.conn.(sndWnd := ack.wnd), ack.ack, true, later).conn;
                  && g.conn.rx + c'.tx == d.rx + c.tx && |d.rx| < |g.conn.rx|
                  && c'.sndUna == g.conn.rcvNxt && c'.sndWnd == BUF_SIZE - |g.conn.rx|)
  {
    hide Flush, DeliverAll, OnAck, Payload, Consecutive, Add32;
    var f := FlushTx(c, now);
    var g := DeliverAll(d, f.sent);
    FlushFillsWindow(c, now, MAX_FLUSH_SEGS);
    FlushSendsRing(c, now, MAX_FLUSH_SEGS);
    FlushConsecutive(c, now, MAX_FLUSH_SEGS);
    AllArrive(d, f.sent);
    NothingSentIff(c, now);
    if f.sent != [] {
      var n := f.conn.sndCur;
      SomethingSent(f.sent, c.sndNxt);
      FlushTouches(c, now, MAX_FLUSH_SEGS);
      Acknowledged(c, f.conn.(sndWnd := BUF_SIZE - |g.conn.rx|), n, g.conn.rcvNxt, later);
      assert (d.rx + c.tx[..n]) + c.tx[n..] == d.rx + c.tx by { assert c.tx[..n] + c.tx[n..] == c.tx; }
    }
  }

  lemma NothingSentIff(c: Conn, now: nat)
    requires c.sndCur == 0
    ensures FlushTx(c, now).sent == [] <==> c.tx == [] || c.sndWnd == 0 || c.cwnd == 0 || c.mss == 0
  {
  }

  lemma SomethingSent(segs: seq<Segment>, from: nat)
    requires segs != [] && Consecutive(segs, from)
    ensures 0 < |Payload(segs)|
  {
  }

  /** The acknowledgement of all `n` bytes in flight empties the ring of them. */
  lemma Acknowledged(c: Conn, f: Conn, n: nat, ack: nat, later: nat)
    requires f.tx == c.tx && f.sndUna == c.sndUna < MOD32 && f.sndCur == n
    requires 0 < n <= |c.tx| && n <= BUF_SIZE && ack == Add32(c.sndUna, n)
    ensures var c' := OnAck(f, ack, true, later).conn;
            c'.tx == c.tx[n..] && c'.sndUna == ack && c'.sndWnd == f.sndWnd
  {
    assert Acked(f, ack) == n;
    NewAckSlides(f, ack, true, later);
  }
}
