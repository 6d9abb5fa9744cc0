/** The two timers of a connection over any stretch of time: how often a silent
    peer is sent the same bytes and when the connection gives up, and how often a
    closed window is probed. */
module TcpTimers {
  import opened Bytes
  import opened Wrappers
  import opened TcpProtocol
  import opened TcpWindow

  /** Timer ticks at the given times and nothing else. */
  function TickAll(c: Conn, times: seq<nat>): Step
    decreases |times|
  {
    if times == [] then Step(c, [])
    else
      var a := Tick(c, times[0]);
      var b := TickAll(a.conn, times[1..]);
      Step(b.conn, a.sent + b.sent)
  }

  /** The `n` ticks that follow time `t`. */
  function Every(t: nat, n: nat): seq<nat> {
    seq(n, i requires 0 <= i < n => t + 1 + i)
  }

  lemma {:induction false} TickAllJoins(c: Conn, s: seq<nat>, t: seq<nat>)
    ensures var a := TickAll(c, s);
            var b := TickAll(a.conn, t);
            TickAll(c, s + t) == Step(b.conn, a.sent + b.sent)
    decreases |s|
  {
    hide Tick;
    if s == [] {
      assert s + t == t;
    } else {
      assert (s + t)[1..] == s[1..] + t;
      TickAllJoins(Tick(c, s[0]).conn, s[1..], t);
      var a := Tick(c, s[0]);
      var m := TickAll(a.conn, s[1..]);
      var b := TickAll(m.conn, t);
      assert a.sent + (m.sent + b.sent) == (a.sent + m.sent) + b.sent;
    }
  }

  // ------------------------------------------------------- a silent peer

  /** Bytes are in flight, no probe is armed, and the peer says nothing. */
  predicate Unheard(c: Conn) {
    && c.state.Established? && !c.persistArm
    && c.sndUna < MOD32 && c.sndNxt < MOD32 && c.sndNxt != c.sndUna
    && 0 < c.mss < MOD32 && c.tx != []
    && c.retxCount <= RETX_MAX && 1 <= c.retxBackoff
  }

  /** The segment that is sent again and again. */
  function Again(c: Conn): Segment {
    Segment(c.sndUna, c.rcvNxt, Max(0, BUF_SIZE - |c.rx|), c.tx[..Min(|c.tx|, c.mss)])
  }

  lemma NoTick(c: Conn, now: nat)
    requires Unheard(c) && now < c.retxTicks
    ensures Tick(c, now) == Step(c, [])
  {
  }

  /** One expiry of the timer: the first segment again, from scratch, twice as late
      as the last time but 16 * 50 ticks at most. The sixth gives up. */
  lemma Expiry(c: Conn, now: nat)
    requires Unheard(c) && c.retxTicks <= now
    ensures var r := Tick(c, now);
            if c.retxCount == 5 then r == Step(c.(state := Closed, rx := [], tx := []), [])
            else
              && r.sent == [Again(c)] && Unheard(r.conn) && Again(r.conn) == Again(c)
              && r.conn.tx == c.tx && r.conn.sndUna == c.sndUna && r.conn.sndCur == |Again(c).data|
              && r.conn.cwnd == c.mss && r.conn.ssthresh == Max(Sub32(c.sndNxt, c.sndUna) / 2, 2 * c.mss)
              && r.conn.retxCount == c.retxCount + 1 && r.conn.retxBackoff == Min(2 * c.retxBackoff, 16)
              && r.conn.retxTicks == Add32(now, 50 * r.conn.retxBackoff)
  {
    if c.retxCount < 5 {
      var n := |Again(c).data|;
      assert 0 < n < MOD32;
      NotSame(c.sndUna, n);
    }
  }

  lemma NotSame(una: nat, n: nat)
    requires una < MOD32 && 0 < n < MOD32
    ensures Add32(una, n) != una && Add32(una, n) < MOD32
  {
  }

  /** Whenever the ticks come: the same segment every time, and the connection is
      closed by the expiry after the fifth time. */
  lemma {:induction false} SameSegmentAgain(c: Conn, times: seq<nat>)
    requires Unheard(c)
    ensures var r := TickAll(c, times);
            && (forall i :: 0 <= i < |r.sent| ==> r.sent[i] == Again(c))
            && (if r.conn.state.Established?
                then Unheard(r.conn) && r.conn.tx == c.tx && r.conn.retxCount == c.retxCount + |r.sent|
                else r.conn.tx == [] && r.conn.rx == [] && c.retxCount + |r.sent| == 5)
    decreases |times|
  {
    hide Tick;
    if times != [] {
      var now := times[0];
      if now < c.retxTicks {
        NoTick(c, now);
        SameSegmentAgain(c, times[1..]);
      } else {
        Expiry(c, now);
        var a := Tick(c, now);
        if c.retxCount < 5 {
          SameSegmentAgain(a.conn, times[1..]);
        } else {
          ClosedStays(a.conn, times[1..]);
        }
      }
    }
  }

  lemma {:induction false} ClosedStays(c: Conn, times: seq<nat>)
    requires c.state.Closed?
    ensures TickAll(c, times) == Step(c, [])
    decreases |times|
  {
    if times != [] { ClosedStays(c, times[1..]); }
  }

  /** Ticks before the deadline do nothing. */
  lemma {:induction false} Quiet(c: Conn, t: nat, n: nat)
    requires Unheard(c) && t + n < c.retxTicks
    ensures TickAll(c, Every(t, n)) == Step(c, [])
    decreases n
  {
    if n > 0 {
      NoTick(c, t + 1);
      assert Every(t, n)[1..] == Every(t + 1, n - 1);
      Quiet(c, t + 1, n - 1);
    }
  }

  /** Times sent again within `n` ticks, when the first deadline is `d` ticks away. */
  function Resends(d: nat, backoff: nat, count: nat, n: nat): nat
    decreases 5 - count
  {
    if n < d || 5 <= count then 0
    else var bo := Min(2 * backoff, 16); 1 + Resends(50 * bo, bo, count + 1, n - d)
  }

  /** Ticks until the connection gives up. */
  function Lifetime(d: nat, backoff: nat, count: nat): nat
    decreases 5 - count
  {
    if 5 <= count then d
    else var bo := Min(2 * backoff, 16); d + Lifetime(50 * bo, bo, count + 1)
  }

  lemma Stages(d: nat, backoff: nat, count: nat, n: nat)
    ensures var bo := Min(2 * backoff, 16);
            && Lifetime(d, backoff, count) == (if 5 <= count then d else d + Lifetime(50 * bo, bo, count + 1))
            && Resends(d, backoff, count, n) ==
               (if n < d || 5 <= count then 0 else 1 + Resends(50 * bo, bo, count + 1, n - d))
  {
  }

  lemma NoWrap(a: nat, b: nat)
    requires a + b < MOD32
    ensures Add32(a, b) == a + b
  {
  }

  lemma {:induction false} Timeline(c: Conn, t: nat, d: nat, n: nat)
    requires Unheard(c) && 0 < d && c.retxTicks == t + d && t + n + 800 < MOD32
    ensures var r := TickAll(c, Every(t, n));
            && (r.conn.state.Closed? <==> Lifetime(d, c.retxBackoff, c.retxCount) <= n)
            && |r.sent| == Resends(d, c.retxBackoff, c.retxCount, n)
    decreases 5 - c.retxCount
  {
    hide Tick, TickAll, Every, Lifetime, Resends, Add32, Sub32, Again;
    Stages(d, c.retxBackoff, c.retxCount, n);
    if n < d {
      Quiet(c, t, n);
      LifetimeAtLeast(d, c.retxBackoff, c.retxCount);
    } else {
      var m := n - d;
      AtDeadline(c, t, d, m);
      Expiry(c, t + d);
      var a := Tick(c, t + d).conn;
      if c.retxCount < 5 {
        NoWrap(t + d, 50 * a.retxBackoff);
        Timeline(a, t + d, 50 * a.retxBackoff, m);
      } else {
        ClosedStays(a, Every(t + d, m));
      }
    }
  }

  lemma {:induction false} LifetimeAtLeast(d: nat, backoff: nat, count: nat)
    ensures d <= Lifetime(d, backoff, count)
    decreases 5 - count
  {
  }

  /** Nothing before the deadline, the expiry at it, the rest after it. */
  lemma AtDeadline(c: Conn, t: nat, d: nat, m: nat)
    requires Unheard(c) && 0 < d && c.retxTicks == t + d
    ensures var a := Tick(c, t + d);
            var b := TickAll(a.conn, Every(t + d, m));
            TickAll(c, Every(t, d + m)) == Step(b.conn, a.sent + b.sent)
  {
    hide Tick;
    var before, after := Every(t, d - 1), Every(t + d - 1, 1 + m);
    assert Every(t, d + m) == before + after;
    Quiet(c, t, d - 1);
    TickAllJoins(c, before, after);
    assert after[0] == t + d && after[1..] == Every(t + d, m);
    var r := TickAll(c, after);
    assert [] + r.sent == r.sent;
  }

  /** Bytes written to an idle connection at time `t` whose peer never answers are
      sent again 50, 150, 350, 750 and 1550 ticks later, and the connection is
      closed 2350 ticks later and not before. */
  lemma GivesUp(c: Conn, data: seq<Byte>, t: nat, n: nat)
    requires c.state.Established? && !c.persistArm && c.tx == [] && c.sndCur == 0
    requires c.sndUna == c.sndNxt < MOD32
    requires data != [] && 0 < c.mss <= MSS_MAX && 0 < c.sndWnd && 0 < c.cwnd && t + n + 800 < MOD32
    ensures var r := TickAll(Write(c, data, t).conn, Every(t, n));
            && (r.conn.state.Closed? <==> 2350 <= n)
            && |r.sent| == (if n < 50 then 0 else if n < 150 then 1 else if n < 350 then 2
                            else if n < 750 then 3 else if n < 1550 then 4 else 5)
  {
    var c1 := c.(tx := c.tx + Accepted(c, data));
    var w := FlushTx(c1, t);
    FlushFillsWindow(c1, t, MAX_FLUSH_SEGS);
    FlushTouches(c1, t, MAX_FLUSH_SEGS);
    FlushSendsRing(c1, t, MAX_FLUSH_SEGS);
    assert w.sent != [];
    NonEmpty(c1, t);
    NotSame(c1.sndNxt, w.conn.sndCur);
    Timeline(w.conn, t, 50, n);
    Doubling(n);
  }

  lemma NonEmpty(c: Conn, t: nat)
    requires FlushTx(c, t).sent != []
    ensures c.sndCur < FlushTx(c, t).conn.sndCur
  {
    var n := FlushSize(c);
    FlushFillsWindow(Sent(c, n, t), t, MAX_FLUSH_SEGS - 1);
  }

  lemma Doubling(n: nat)
    ensures Lifetime(50, 1, 0) == 2350
    ensures Resends(50, 1, 0, n) ==
            if n < 50 then 0 else if n < 150 then 1 else if n < 350 then 2
            else if n < 750 then 3 else if n < 1550 then 4 else 5
  {
    assert Lifetime(800, 16, 5) == 800 && Lifetime(800, 16, 4) == 1600;
    assert Lifetime(400, 8, 3) == 2000;
    assert Lifetime(200, 4, 2) == 2200;
    assert forall m: nat :: Resends(800, 16, 5, m) == 0;
    assert forall m: nat :: Resends(800, 16, 4, m) == if m < 800 then 0 else 1;
    assert forall m: nat :: Resends(400, 8, 3, m) == if m < 400 then 0 else if m < 1200 then 1 else 2;
    assert forall m: nat :: Resends(200, 4, 2, m) ==
                              if m < 200 then 0 else if m < 600 then 1 else if m < 1400 then 2 else 3;
  }

  // ----------------------------------------------------- a closed window

  /** Probing, with nothing in flight. */
  predicate Probing(c: Conn) {
    && c.state.Established? && c.persistArm && c.sndNxt == c.sndUna
    && 1 <= c.retxBackoff <= 64
  }

  function ProbeOf(c: Conn): Segment {
    Segment(c.sndUna, c.rcvNxt, Max(0, BUF_SIZE - |c.rx|), c.tx[..Min(|c.tx|, 1)])
  }

  /** Between probes nothing happens; a probe sends the first byte of the ring and
      puts the next one off, twice as long each time, 6000 ticks at most. */
  lemma ProbeTick(c: Conn, now: nat)
    requires Probing(c)
    ensures Tick(c, now) ==
            if now < c.persistTicks then Step(c, [])
            else Step(c.(persistTicks := Add32(now, Min(100 * c.retxBackoff, 6000)),
                         retxBackoff := Min(2 * c.retxBackoff, 64)), [ProbeOf(c)])
  {
  }

  lemma {:induction false} QuietProbe(c: Conn, t: nat, n: nat)
    requires Probing(c) && t + n < c.persistTicks
    ensures TickAll(c, Every(t, n)) == Step(c, [])
    decreases n
  {
    if n > 0 {
      ProbeTick(c, t + 1);
      assert Every(t, n)[1..] == Every(t + 1, n - 1);
      QuietProbe(c, t + 1, n - 1);
    }
  }

  lemma AtProbe(c: Conn, t: nat, d: nat, m: nat)
    requires Probing(c) && 0 < d && c.persistTicks == t + d
    ensures var a := Tick(c, t + d);
            var b := TickAll(a.conn, Every(t + d, m));
            TickAll(c, Every(t, d + m)) == Step(b.conn, a.sent + b.sent)
  {
    hide Tick;
    var before, after := Every(t, d - 1), Every(t + d - 1, 1 + m);
    assert Every(t, d + m) == before + after;
    QuietProbe(c, t, d - 1);
    TickAllJoins(c, before, after);
    assert after[0] == t + d && after[1..] == Every(t + d, m);
    var r := TickAll(c, after);
    assert [] + r.sent == r.sent;
  }

  /** Probes within `n` ticks, when the first is `d` ticks away. */
  function Probes(d: nat, backoff: nat, n: nat): nat
    decreases n
  {
    if n < d || d == 0 then 0 else 1 + Probes(Min(100 * backoff, 6000), Min(2 * backoff, 64), n - d)
  }

  lemma NextProbe(d: nat, backoff: nat, n: nat)
    requires 0 < d
    ensures Probes(d, backoff, n) ==
            if n < d then 0 else 1 + Probes(Min(100 * backoff, 6000), Min(2 * backoff, 64), n - d)
  {
  }

  lemma {:induction false} ProbeTimeline(c: Conn, t: nat, d: nat, n: nat)
    requires Probing(c) && 0 < d && c.persistTicks == t + d && t + n + 6000 < MOD32
    ensures var r := TickAll(c, Every(t, n));
            && |r.sent| == Probes(d, c.retxBackoff, n)
            && (forall i :: 0 <= i < |r.sent| ==> r.sent[i] == ProbeOf(c))
            && Probing(r.conn) && r.conn.tx == c.tx
    decreases n
  {
    hide Tick, TickAll, Every, Probes, Add32;
    NextProbe(d, c.retxBackoff, n);
    if n < d {
      QuietProbe(c, t, n);
    } else {
      var m := n - d;
      AtProbe(c, t, d, m);
      ProbeTick(c, t + d);
      NoWrap(t + d, Min(100 * c.retxBackoff, 6000));
      var a := Tick(c, t + d).conn;
      ProbeTimeline(a, t + d, Min(100 * c.retxBackoff, 6000), m);
      assert ProbeOf(a) == ProbeOf(c);
    }
  }

  lemma {:induction false} SteadyProbes(m: nat)
    ensures Probes(6000, 64, m) == m / 6000
    decreases m
  {
    if m >= 6000 { SteadyProbes(m - 6000); }
  }

  /** Probes within `n` ticks of the window closing. */
  function ProbesBy(n: nat): nat {
    if n < 100 then 0 else if n < 200 then 1 else if n < 400 then 2 else if n < 800 then 3
    else if n < 1600 then 4 else if n < 3200 then 5 else if n < 6400 then 6 else 7 + (n - 6400) / 6000
  }

  lemma ProbesAre(n: nat)
    ensures Probes(100, 1, n) == ProbesBy(n)
  {
    if n >= 6400 { SteadyProbes(n - 6400); }
    assert n >= 3200 ==> Probes(3200, 64, n - 3200) == if n < 6400 then 0 else 1 + Probes(6000, 64, n - 6400);
    assert n >= 1600 ==> Probes(1600, 32, n - 1600) == if n < 3200 then 0 else 1 + Probes(3200, 64, n - 3200);
    assert n >= 800 ==> Probes(800, 16, n - 800) == if n < 1600 then 0 else 1 + Probes(1600, 32, n - 1600);
    assert n >= 400 ==> Probes(400, 8, n - 400) == if n < 800 then 0 else 1 + Probes(800, 16, n - 800);
    assert n >= 200 ==> Probes(200, 4, n - 200) == if n < 400 then 0 else 1 + Probes(400, 8, n - 400);
    assert n >= 100 ==> Probes(100, 2, n - 100) == if n < 200 then 0 else 1 + Probes(200, 4, n - 200);
  }

  /** The probe timer is armed after a segment exactly when the peer's window is
      closed, or was found closed before and the segment acknowledges nothing new. */
  lemma ArmedIff(c: Conn, s: Segment, now: nat)
    requires c.state.Established?
    ensures var r := OnSegment(c, s, now).conn;
            && r.sndWnd == s.wnd
            && (r.persistArm <==> s.wnd == 0 || (c.persistArm && !NewAck(c, s.ack)))
            && r.persistTicks == if s.wnd == 0 && !c.persistArm then Add32(now, 100) else c.persistTicks
  {
    var c0 := c.(sndWnd := s.wnd);
    var a := OnAck(c0, s.ack, s.data == [], now);
    AckKeepsProbeTime(c0, s.ack, s.data == [], now);
    if NewAck(c0, s.ack) { NewAckSlides(c0, s.ack, s.data == [], now); }
  }

  lemma AckKeepsProbeTime(c: Conn, ack: nat, pure: bool, now: nat)
    ensures var a := OnAck(c, ack, pure, now).conn;
            && a.persistTicks == c.persistTicks && a.sndWnd == c.sndWnd
            && (!NewAck(c, ack) ==> a.persistArm == c.persistArm)
  {
    FlushTouches(Slide(c, ack), now, MAX_FLUSH_SEGS);
    var c1 := c.(dupAcks := Min(c.dupAcks + 1, 255));
    FlushTouches(FastRetransmit(c1), now, MAX_FLUSH_SEGS);
    FlushTouches(c1.(cwnd := SatAdd32(c1.cwnd, c1.mss)), now, MAX_FLUSH_SEGS);
  }

  /** A tick at which both timers are due first probes and then sends again. The
      back-off of the second is twice what it was before the tick, not what the probe
      made of it. */
  lemma BothTimers(c: Conn, now: nat)
    requires c.state.Established? && c.sndNxt != c.sndUna && c.sndNxt < MOD32 && c.sndUna < MOD32
    requires c.persistArm && c.persistTicks <= now && c.retxTicks <= now && c.retxCount < 5
    ensures var r := Tick(c, now);
            && |r.sent| == 2 && r.sent[0].seqno == c.sndNxt && r.sent[0].data == c.tx[..Min(|c.tx|, 1)]
            && r.sent[1].seqno == c.sndUna && r.sent[1].data == c.tx[..Min(|c.tx|, c.mss)]
            && r.conn.retxBackoff == Min(2 * c.retxBackoff, 16)
            && r.conn.retxTicks == Add32(now, 50 * Min(2 * c.retxBackoff, 16))
            && r.conn.persistTicks == Add32(now, Min(100 * c.retxBackoff, 6000))
  {
  }

  /** A segment at time `t` that acknowledges all in flight and closes the window
      is followed by probes with the first unsent byte after 100, 200, 400, 800,
      1600, 3200 and 6400 ticks and every 6000 ticks from then on, for ever. */
  lemma ClosedWindowProbed(c: Conn, s: Segment, t: nat, n: nat)
    requires c.state.Established? && !c.persistArm && 0 < c.sndCur < MOD32 && c.sndUna < MOD32
    requires c.sndNxt == s.ack == Add32(c.sndUna, c.sndCur) && s.wnd == 0 && s.data == []
    requires t + n + 6000 < MOD32
    ensures var c1 := OnSegment(c, s, t).conn;
            var r := TickAll(c1, Every(t, n));
            && c1.tx == c.tx[Min(c.sndCur, |c.tx|)..]
            && |r.sent| == ProbesBy(n) && r.conn.tx == c1.tx
            && forall i :: 0 <= i < |r.sent| ==>
                 r.sent[i].seqno == s.ack && r.sent[i].data == c1.tx[..Min(|c1.tx|, 1)]
  {
    var c0 := c.(sndWnd := 0);
    assert Acked(c0, s.ack) == c.sndCur;
    var slid := Slide(c0, s.ack);
    assert Flush(slid, t, MAX_FLUSH_SEGS) == Step(slid, []);
    var c1 := OnSegment(c, s, t).conn;
    assert c1 == ArmPersist(slid, t);
    ProbeTimeline(c1, t, 100, n);
    ProbesAre(n);
  }
}
