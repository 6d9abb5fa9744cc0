/** What a flush may send, how the congestion window moves, and how long a
    connection with a silent peer lasts, all told in the fields of the state. */
module TcpWindow {
  import opened Arithmetic
  import opened Bytes
  import opened Wrappers
  import opened TcpProtocol

  /** The data of a list of segments, end to end. */
  function Payload(segs: seq<Segment>): seq<Byte> {
    if segs == [] then [] else segs[0].data + Payload(segs[1..])
  }

  // ---------------------------------------------------------- flushing

  /** A flush stays inside the peer's window and the congestion window. It stops
      early only when the ring is sent out, the window is used up or segments
      have no size. */
  lemma {:induction false} FlushFillsWindow(c: Conn, now: nat, k: nat)
    ensures var r := Flush(c, now, k);
            && c.sndCur <= r.conn.sndCur <= Max(c.sndCur, Min(c.sndWnd, c.cwnd))
            && |r.sent| <= k
            && (|r.sent| < k ==>
                  |c.tx| <= r.conn.sndCur || Min(c.sndWnd, c.cwnd) <= r.conn.sndCur || c.mss == 0)
    decreases k
  {
    var n := FlushSize(c);
    if k > 0 && n > 0 {
      FlushFillsWindow(Sent(c, n, now), now, k - 1);
    }
  }

  /** It sends the ring from `snd_cur` on, each byte once and in order. */
  lemma {:induction false} FlushSendsRing(c: Conn, now: nat, k: nat)
    requires c.sndCur <= |c.tx|
    ensures var r := Flush(c, now, k);
            c.sndCur <= r.conn.sndCur <= |c.tx| && Payload(r.sent) == c.tx[c.sndCur..r.conn.sndCur]
    decreases k
  {
    hide Flush, FlushSize, Payload, Add32;
    var n := FlushSize(c);
    if k == 0 || n == 0 {
      FlushEnds(c, now, k);
      NoPayload();
    } else {
      var c1 := Sent(c, n, now);
      var rest := Flush(c1, now, k - 1);
      FlushUnfold(c, now, k);
      FlushSendsRing(c1, now, k - 1);
      PayloadFirst(Header(c, c.tx[c.sndCur..c1.sndCur]), rest.sent);
      Stretches(c.tx, c.sndCur, c1.sndCur, rest.conn.sndCur);
    }
  }

  lemma NoPayload()
    ensures Payload([]) == []
  {
  }

  lemma PayloadFirst(s: Segment, rest: seq<Segment>)
    ensures Payload([s] + rest) == s.data + Payload(rest)
  {
    assert ([s] + rest)[1..] == rest;
  }

  lemma Stretches(s: seq<Byte>, i: nat, j: nat, k: nat)
    requires i <= j <= k <= |s|
    ensures s[i..j] + s[j..k] == s[i..k]
  {
  }

  /** Segment `i` of a flush of `c`. */
  predicate Fills(c: Conn, segs: seq<Segment>, i: nat)
    requires i < |segs|
  {
    var s := segs[i];
    && s.seqno == Add32(c.sndNxt, |Payload(segs[..i])|)
    && s.ack == c.rcvNxt && s.wnd == Max(0, BUF_SIZE - |c.rx|)
    && 0 < |s.data| <= c.mss && (|s.data| < c.mss ==> i == |segs| - 1)
  }

  ghost predicate AllFill(c: Conn, segs: seq<Segment>) {
    forall i :: 0 <= i < |segs| ==> Fills(c, segs, i)
  }

  /** Every segment of a flush follows on from the one before, is full unless it is
      the last, and tells the peer what has arrived and how much room is left. */
  lemma {:induction false} FlushSegments(c: Conn, now: nat, k: nat)
    requires c.sndNxt < MOD32
    ensures AllFill(c, Flush(c, now, k).sent)
    decreases k
  {
    var n := FlushSize(c);
    if k > 0 && n > 0 {
      var c1 := Sent(c, n, now);
      var segs, rest := Flush(c, now, k).sent, Flush(c1, now, k - 1).sent;
      FlushSegments(c1, now, k - 1);
      if n < c.mss { NothingLeft(c1, now, k - 1, c, n); }
      forall i | 0 <= i < |segs| ensures Fills(c, segs, i) {
        if i > 0 {
          assert segs[i] == rest[i - 1] && Fills(c1, rest, i - 1);
          assert segs[..i][0] == segs[0] && segs[..i][1..] == rest[..i - 1];
          AddTwice(c.sndNxt, n, |Payload(rest[..i - 1])|);
        }
      }
    }
  }

  /** After a segment that was not full nothing more goes out. */
  lemma NothingLeft(c1: Conn, now: nat, k: nat, c: Conn, n: nat)
    requires n == FlushSize(c) && 0 < n < c.mss && c1 == Sent(c, n, now)
    ensures Flush(c1, now, k).sent == []
  {
    assert FlushSize(c1) == 0;
  }

  lemma AddTwice(a: nat, b: nat, d: nat)
    ensures Add32(Add32(a, b), d) == Add32(a, b + d)
  {
  }

  /** A flush changes nothing but the two send positions and, when it sends the
      first byte in flight, the retransmission timer. */
  lemma {:induction false} FlushTouches(c: Conn, now: nat, k: nat)
    ensures var r := Flush(c, now, k);
            var first := c.sndCur == 0 && c.sndUna == c.sndNxt && r.sent != [];
            && c.sndCur <= r.conn.sndCur && (r.sent == [] ==> r.conn == c)
            && r.conn.sndNxt == (if r.sent == [] then c.sndNxt else Add32(c.sndNxt, r.conn.sndCur - c.sndCur))
            && r.conn == c.(sndNxt := r.conn.sndNxt, sndCur := r.conn.sndCur,
                            retxTicks := if first then Add32(now, 50) else c.retxTicks,
                            retxCount := if first then 0 else c.retxCount,
                            retxBackoff := if first then 1 else c.retxBackoff)
    decreases k
  {
    hide Flush, FlushSize, Add32;
    var n := FlushSize(c);
    if k == 0 || n == 0 {
      FlushEnds(c, now, k);
    } else {
      var c1 := Sent(c, n, now);
      FlushUnfold(c, now, k);
      FlushTouches(c1, now, k - 1);
      var end := Flush(c1, now, k - 1).conn.sndCur;
      AddTwice(c.sndNxt, n, end - c1.sndCur);
    }
  }

  // -------------------------------------------------- congestion window

  /** The acknowledgement is one of bytes in flight, or of one byte more. */
  predicate NewAck(c: Conn, ack: nat) {
    0 < Acked(c, ack) <= c.sndCur + 1
  }

  /** `inc` is the quotient of `x` and `w`, or one if that is less. */
  predicate IsShare(inc: int, x: int, w: int) {
    1 <= inc && (inc == 1 || inc * w <= x) && x < (inc + 1) * w
  }

  /** Below the threshold a new acknowledgement widens the window by what it
      acknowledges, a segment at most. From the threshold on it is widened by the
      share of a segment that was acknowledged, rounded down, but at least by one. */
  lemma WindowGrows(c: Conn, ack: nat, pure: bool, now: nat)
    requires NewAck(c, ack)
    ensures var wider, acked := OnAck(c, ack, pure, now).conn.cwnd, Acked(c, ack);
            if c.cwnd < c.ssthresh then wider == Min(c.cwnd + Min(acked, c.mss), MAX32)
            else wider == MAX32 || IsShare(wider - c.cwnd, Min(c.mss * acked, MAX32), Max(c.cwnd, 1))
  {
    var acked, w := Acked(c, ack), Max(c.cwnd, 1);
    FlushTouches(Slide(c, ack), now, MAX_FLUSH_SEGS);
    Nonnegative(c.mss, acked);
    var share: nat := Min(c.mss * acked, MAX32);
    Quotient(share, w);
  }

  lemma Quotient(x: nat, w: nat)
    requires 0 < w
    ensures x / w * w <= x < (x / w + 1) * w
    ensures x / w < 1 ==> x < (1 + 1) * w
  {
    var q := x / w;
    assert x == w * q + x % w;
    assert (q + 1) * w == q * w + w;
    assert (1 + 1) * w == w + w;
  }

  /** A new acknowledgement takes what it acknowledges out of the ring and gives
      the connection its retransmissions back. */
  lemma NewAckSlides(c: Conn, ack: nat, pure: bool, now: nat)
    requires NewAck(c, ack)
    ensures var a := OnAck(c, ack, pure, now).conn;
            && a.sndUna == ack == a.lastAck && a.dupAcks == 0 && a.retxCount == 0 && a.retxBackoff == 1
            && a.tx == c.tx[Min(Acked(c, ack), |c.tx|)..]
            && (a.persistArm <==> c.persistArm && c.sndWnd == 0)
            && a.ssthresh == c.ssthresh && a.sndWnd == c.sndWnd
  {
    FlushTouches(Slide(c, ack), now, MAX_FLUSH_SEGS);
  }

  /** The state after repeats of an acknowledgement that the sender has already seen. */
  function Repeats(c: Conn, times: seq<nat>): Step
    decreases |times|
  {
    if times == [] then Step(c, [])
    else
      var a := OnAck(c, c.sndUna, true, times[0]);
      var b := Repeats(a.conn, times[1..]);
      Step(b.conn, a.sent + b.sent)
  }

  lemma RepeatOnce(c: Conn, now: nat)
    ensures Repeats(c, [now]) == OnAck(c, c.sndUna, true, now)
  {
    var a := OnAck(c, c.sndUna, true, now);
    assert Repeats(a.conn, []) == Step(a.conn, []);
    assert a.sent + [] == a.sent;
  }

  /** After a new acknowledgement two bare repeats of it change nothing but the
      count. The third sends the ring again from its start, with the threshold at
      half of what was in flight and the window three segments above it. */
  lemma ThirdRepeat(c: Conn, ack: nat, pure: bool, t0: nat, t1: nat, t2: nat, t3: nat)
    requires NewAck(c, ack)
    ensures var a := OnAck(c, ack, pure, t0).conn;
            var half := Max(Sub32(a.sndNxt, ack) / 2, 2 * a.mss);
            var r := Repeats(a, [t1, t2, t3]);
            && Repeats(a, [t1, t2]) == Step(a.(dupAcks := 2), [])
            && r.conn.ssthresh == half && r.conn.cwnd == Min(half + 3 * a.mss, MAX32)
            && r.conn.sndUna == ack && r.conn.tx == a.tx && r.conn.dupAcks == 3
            && r.conn.sndCur <= |a.tx| && Payload(r.sent) == a.tx[..r.conn.sndCur]
            && (r.sent != [] ==> r.sent[0].seqno == ack)
            && (a.tx != [] && 0 < a.mss && 0 < a.sndWnd ==> r.sent != [])
  {
    var a := OnAck(c, ack, pure, t0).conn;
    NewAckSlides(c, ack, pure, t0);
    var b1, b2 := a.(dupAcks := 1), a.(dupAcks := 2);
    assert OnAck(a, ack, true, t1) == Step(b1, []);
    assert OnAck(b1, ack, true, t2) == Step(b2, []);
    TwiceCounted(a, b1, b2, ack, t1, t2, t3);
    var f := FastRetransmit(a.(dupAcks := 3));
    assert OnAck(b2, ack, true, t3) == FlushTx(f, t3);
    FlushTouches(f, t3, MAX_FLUSH_SEGS);
    FlushSendsRing(f, t3, MAX_FLUSH_SEGS);
    FlushFillsWindow(f, t3, MAX_FLUSH_SEGS);
    FirstSegment(f, t3);
  }

  lemma TwiceCounted(a: Conn, b1: Conn, b2: Conn, ack: nat, t1: nat, t2: nat, t3: nat)
    requires a.sndUna == b1.sndUna == b2.sndUna == ack
    requires OnAck(a, ack, true, t1) == Step(b1, []) && OnAck(b1, ack, true, t2) == Step(b2, [])
    ensures Repeats(a, [t1, t2]) == Step(b2, [])
    ensures Repeats(a, [t1, t2, t3]) == OnAck(b2, ack, true, t3)
  {
    hide OnAck;
    assert [t1, t2][1..] == [t2] && [t1, t2, t3][1..] == [t2, t3] && [t2, t3][1..] == [t3];
    RepeatOnce(b1, t2);
    RepeatOnce(b2, t3);
    var third := OnAck(b2, ack, true, t3);
    assert [] + third.sent == third.sent;
    assert Repeats(b1, [t2, t3]) == third;
  }

  lemma FirstSegment(c: Conn, now: nat)
    ensures Flush(c, now, 8).sent != [] ==> Flush(c, now, 8).sent[0].seqno == c.sndNxt
  {
  }

  /** Every further repeat lets one more segment out. */
  lemma LaterRepeat(c: Conn, now: nat)
    requires 3 <= c.dupAcks && c.lastAck == c.sndUna
    ensures var r := OnAck(c, c.sndUna, true, now).conn;
            && r.cwnd == Min(c.cwnd + c.mss, MAX32) && r.ssthresh == c.ssthresh
            && r.sndUna == c.sndUna && r.tx == c.tx && c.sndCur <= r.sndCur
  {
    var c1 := c.(dupAcks := Min(c.dupAcks + 1, 255), cwnd := SatAdd32(c.cwnd, c.mss));
    FlushTouches(c1, now, MAX_FLUSH_SEGS);
  }

  /** An acknowledgement that is not new is a repeat only if it is bare and names
      both the first byte in flight and the byte named last; any other is ignored. */
  lemma OldAckIgnored(c: Conn, ack: nat, pure: bool, now: nat)
    requires !NewAck(c, ack) && !(pure && ack == c.sndUna == c.lastAck) && ack < MOD32 && c.sndUna < MOD32
    ensures OnAck(c, ack, pure, now) == Step(c, [])
  {
  }
}
