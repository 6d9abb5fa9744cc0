/** The data path of an Established connection (kernel/src/net/tcp.rs) as a
    function of its state: writing, flushing, reading, an incoming segment, the
    timer. Every operation gives the new state and the segments it sends. */
module TcpProtocol {
  import opened Bytes
  import opened Wrappers

  const MOD32: nat := 0x1_0000_0000
  const MAX32: nat := MOD32 - 1
  const BUF_SIZE: nat := 32 * 1024
  const MSS_MAX: nat := 1460
  const RETX_INIT: nat := 50
  const RETX_MAX: nat := 5
  const PERSIST_INIT: nat := 100
  const PERSIST_MAX: nat := 6000
  const MAX_FLUSH_SEGS: nat := 8

  function Add32(a: nat, b: nat): nat { (a + b) % MOD32 }
  function Sub32(a: nat, b: nat): nat { (a - b) % MOD32 }
  /** Saturating u32 addition. */
  function SatAdd32(a: nat, b: nat): nat { Min(a + b, MAX32) }

  datatype State = Established | Closed

  datatype Conn = Conn(
    state: State,
    sndNxt: nat, sndUna: nat, sndCur: nat, rcvNxt: nat, sndWnd: nat, mss: nat,
    retxTicks: nat, retxCount: nat, retxBackoff: nat,
    cwnd: nat, ssthresh: nat, dupAcks: nat, lastAck: nat,
    persistTicks: nat, persistArm: bool,
    rx: seq<Byte>, tx: seq<Byte>)

  datatype Segment = Segment(seqno: nat, ack: nat, wnd: nat, data: seq<Byte>)

  /** A step's outcome. */
  datatype Step = Step(conn: Conn, sent: seq<Segment>)

  /** The segment that `send_segment` builds around `data`. */
  function Header(c: Conn, data: seq<Byte>): Segment {
    Segment(c.sndNxt, c.rcvNxt, Max(0, BUF_SIZE - |c.rx|), data)
  }

  // ---------------------------------------------------------- sending

  /** Bytes that the next round of `flush_tx` sends; 0 ends the loop. */
  function FlushSize(c: Conn): (n: nat)
    ensures n <= c.mss && (n > 0 ==> c.sndCur + n <= |c.tx|)
  {
    var effWnd := Min(c.sndWnd, c.cwnd);
    if effWnd <= c.sndCur || |c.tx| <= c.sndCur then 0
    else Min(Min(|c.tx| - c.sndCur, c.mss), effWnd - c.sndCur)
  }

  /** The state after a round of `flush_tx` that sent `n` bytes. */
  function Sent(c: Conn, n: nat, now: nat): Conn {
    var firstSend := c.sndCur == 0 && c.sndUna == c.sndNxt;
    var c1 := c.(sndNxt := Add32(c.sndNxt, n), sndCur := c.sndCur + n);
    if firstSend then c1.(retxTicks := Add32(now, RETX_INIT), retxCount := 0, retxBackoff := 1) else c1
  }

  /** `flush_tx` with at most `k` segments left to send. */
  function Flush(c: Conn, now: nat, k: nat): Step
    decreases k, |c.tx|
  {
    var n := FlushSize(c);
    if k == 0 || n == 0 then Step(c, [])
    else
      var rest := Flush(Sent(c, n, now), now, k - 1);
      Step(rest.conn, [Header(c, c.tx[c.sndCur..c.sndCur + n])] + rest.sent)
  }

  lemma FlushUnfold(c: Conn, now: nat, k: nat)
    requires 0 < k && 0 < FlushSize(c)
    ensures var n := FlushSize(c);
            var rest := Flush(Sent(c, n, now), now, k - 1);
            Flush(c, now, k) == Step(rest.conn, [Header(c, c.tx[c.sndCur..c.sndCur + n])] + rest.sent)
  {
  }

  lemma FlushEnds(c: Conn, now: nat, k: nat)
    requires k == 0 || FlushSize(c) == 0
    ensures Flush(c, now, k) == Step(c, [])
  {
  }

  function FlushTx(c: Conn, now: nat): Step {
    Flush(c, now, MAX_FLUSH_SEGS)
  }

  /** Bytes that `tcp_write` takes from `data`. */
  function Accepted(c: Conn, data: seq<Byte>): seq<Byte> {
    if c.state.Established? then data[..Min(|data|, Max(0, BUF_SIZE - |c.tx|))] else []
  }

  function Write(c: Conn, data: seq<Byte>, now: nat): Step {
    if c.state.Established? then FlushTx(c.(tx := c.tx + Accepted(c, data)), now) else Step(c, [])
  }

  /** Bytes that `tcp_read` returns for a buffer of `want` bytes. */
  function ReadBytes(c: Conn, want: nat): seq<Byte> {
    c.rx[..Min(want, |c.rx|)]
  }

  function Read(c: Conn, want: nat): Conn {
    c.(rx := c.rx[Min(want, |c.rx|)..])
  }

  // -------------------------------------------------------- receiving

  function Acked(c: Conn, ack: nat): nat {
    Sub32(ack, c.sndUna)
  }

  /** Congestion window after `acked` new bytes: slow start below the threshold,
      else roughly one segment per round trip. */
  function Grown(cwnd: nat, ssthresh: nat, mss: nat, acked: nat): nat {
    if cwnd < ssthresh then SatAdd32(cwnd, Min(acked, mss))
    else SatAdd32(cwnd, Max(Min(mss * acked, MAX32) / Max(cwnd, 1), 1))
  }

  /** A new acknowledgement slides the window, whatever it acknowledges. */
  function Slide(c: Conn, ack: nat): Conn {
    var acked := Acked(c, ack);
    SlideBy(c, ack, acked, Grown(c.cwnd, c.ssthresh, c.mss, acked))
  }

  function SlideBy(c: Conn, ack: nat, acked: nat, wider: nat): Conn {
    c.(cwnd := wider, sndUna := ack,
       tx := c.tx[Min(acked, |c.tx|)..], sndCur := Max(0, c.sndCur - acked),
       retxCount := 0, retxBackoff := 1, dupAcks := 0, lastAck := ack,
       persistArm := c.persistArm && c.sndWnd == 0)
  }

  /** Back to the first unacknowledged byte. */
  function Rewind(c: Conn): Conn {
    c.(sndNxt := c.sndUna, sndCur := 0)
  }

  function FastRetransmit(c: Conn): Conn {
    var threshold := Max(Sub32(c.sndNxt, c.sndUna) / 2, c.mss * 2);
    Rewind(c.(ssthresh := threshold, cwnd := SatAdd32(threshold, c.mss * 3)))
  }

  function OnAck(c: Conn, ack: nat, pure: bool, now: nat): Step {
    var acked := Acked(c, ack);
    if 0 < acked <= c.sndCur + 1 then FlushTx(Slide(c, ack), now)
    else if acked == 0 && ack == c.lastAck && pure then OnDuplicate(c, now)
    else Step(c, [])
  }

  /** The third duplicate acknowledgement retransmits; later ones widen the window. */
  function OnDuplicate(c: Conn, now: nat): Step {
    var c1 := c.(dupAcks := Min(c.dupAcks + 1, 255));
    if c1.dupAcks == 3 then FlushTx(FastRetransmit(c1), now)
    else if c1.dupAcks > 3 then FlushTx(c1.(cwnd := SatAdd32(c1.cwnd, c1.mss)), now)
    else Step(c1, [])
  }

  function ArmPersist(c: Conn, now: nat): Conn {
    if c.sndWnd == 0 && !c.persistArm then c.(persistTicks := Add32(now, PERSIST_INIT), persistArm := true) else c
  }

  /** In-order data goes to the receive ring and is acknowledged. */
  function Deliver(c: Conn, s: Segment): Step {
    if s.data != [] && s.seqno == c.rcvNxt then
      var n := Min(|s.data|, Max(0, BUF_SIZE - |c.rx|));
      var c1 := c.(rx := c.rx + s.data[..n], rcvNxt := Add32(c.rcvNxt, n));
      Step(c1, [Header(c1, [])])
    else Step(c, [])
  }

  /** `tcp_handle_segment` on a segment with the ACK flag and no other. */
  function OnSegment(c: Conn, s: Segment, now: nat): Step {
    var c0 := c.(sndWnd := s.wnd);
    if c.state.Closed? then Step(c0, [])
    else
      var a := OnAck(c0, s.ack, s.data == [], now);
      var d := Deliver(ArmPersist(a.conn, now), s);
      Step(d.conn, a.sent + d.sent)
  }

  // ------------------------------------------------------------ timer

  predicate ProbeDue(c: Conn, now: nat) {
    c.state.Established? && c.persistArm && c.persistTicks <= now
  }

  /** The zero-window probe carries the first byte of the ring. */
  function Probe(c: Conn, now: nat): Step {
    if !ProbeDue(c, now) then Step(c, [])
    else Step(c.(persistTicks := Add32(now, Min(PERSIST_INIT * c.retxBackoff, PERSIST_MAX)),
                 retxBackoff := Min(Min(c.retxBackoff * 2, 255), 64)),
              [Header(c, c.tx[..Min(1, |c.tx|)])])
  }

  /** The retransmission timeout of `tcp_tick`; `backoff` is the value at the
      start of the tick. */
  function Timeout(c: Conn, backoff: nat, now: nat): Step {
    if Sub32(c.sndNxt, c.sndUna) == 0 || now < c.retxTicks then Step(c, [])
    else if RETX_MAX <= c.retxCount then Step(c.(state := Closed, rx := [], tx := []), [])
    else
      var threshold := Max(Sub32(c.sndNxt, c.sndUna) / 2, c.mss * 2);
      var c1 := Rewind(c.(ssthresh := threshold, cwnd := c.mss));
      var n := Min(|c1.tx|, c1.mss);
      var bo := Min(Min(backoff * 2, 255), 16);
      Step(c1.(sndNxt := Add32(c1.sndNxt, n), sndCur := n, retxCount := c1.retxCount + 1,
               retxBackoff := bo, retxTicks := Add32(now, RETX_INIT * bo)),
           [Header(c1, c1.tx[..n])])
  }

  function Tick(c: Conn, now: nat): Step {
    if c.state.Closed? then Step(c, [])
    else
      var p := Probe(c, now);
      var t := Timeout(p.conn, c.retxBackoff, now);
      Step(t.conn, p.sent + t.sent)
  }

  // ------------------------------------------------- sender alignment

  /** Sequence number of stream position `p` when the stream starts at `base`. */
  function SeqAt(base: nat, p: nat): nat { (base + p) % MOD32 }

  /** With `u` bytes of `written` acknowledged: the ring is the rest, and the
      two send positions agree with it. */
  predicate Aligned(c: Conn, written: seq<Byte>, base: nat, u: nat) {
    && u <= |written| && c.tx == written[u..]
    && c.sndCur <= |c.tx|
    && c.sndUna == SeqAt(base, u)
    && c.sndNxt == SeqAt(base, u + c.sndCur)
  }

  /** Segment data is what the stream holds at its sequence number. */
  ghost predicate Carries(s: Segment, written: seq<Byte>, base: nat) {
    s.data != [] ==> exists p: nat :: CarriesAt(s, written, base, p)
  }

  predicate CarriesAt(s: Segment, written: seq<Byte>, base: nat, p: nat) {
    p + |s.data| <= |written| && s.seqno == SeqAt(base, p) && s.data == written[p..p + |s.data|]
  }

  ghost predicate AllCarry(segs: seq<Segment>, written: seq<Byte>, base: nat) {
    forall i :: 0 <= i < |segs| ==> Carries(segs[i], written, base)
  }

  lemma SeqAtStep(base: nat, p: nat, n: nat)
    ensures Add32(SeqAt(base, p), n) == SeqAt(base, p + n)
  {
  }

  /** The parts of the state that only the receiving side uses. */
  predicate SameReceiver(c: Conn, c': Conn) {
    c'.rx == c.rx && c'.rcvNxt == c.rcvNxt && c'.state == c.state
  }

  /** Flushing keeps alignment, and what it sends is what the stream holds. */
  lemma {:induction false} FlushAligned(c: Conn, now: nat, k: nat, written: seq<Byte>, base: nat, u: nat)
    requires Aligned(c, written, base, u)
    ensures Aligned(Flush(c, now, k).conn, written, base, u)
    ensures AllCarry(Flush(c, now, k).sent, written, base)
    ensures SameReceiver(c, Flush(c, now, k).conn)
    decreases k
  {
    hide Flush, FlushSize;
    var n := FlushSize(c);
    if k == 0 || n == 0 {
      FlushEnds(c, now, k);
    } else {
      var c1 := Sent(c, n, now);
      FlushUnfold(c, now, k);
      SeqAtStep(base, u + c.sndCur, n);
      assert Aligned(c1, written, base, u);
      FlushAligned(c1, now, k - 1, written, base, u);
      var s := Header(c, c.tx[c.sndCur..c.sndCur + n]);
      assert CarriesAt(s, written, base, u + c.sndCur);
    }
  }

  /** Positions below 2^32 are told apart by their sequence numbers. */
  lemma SeqAtInjective(base: nat, p: nat, q: nat)
    requires p < MOD32 && q < MOD32 && SeqAt(base, p) == SeqAt(base, q)
    ensures p == q
  {
    var d := p - q;
    assert (base + p) / MOD32 * MOD32 - (base + q) / MOD32 * MOD32 == d;
  }

  /** What an acknowledgement `acked` bytes above `snd_una` names. */
  lemma AckPosition(c: Conn, ack: nat, base: nat, u: nat)
    requires c.sndUna == SeqAt(base, u) && ack < MOD32
    ensures ack == SeqAt(base, u + Acked(c, ack))
  {
    var una := c.sndUna;
    assert (una + Acked(c, ack)) % MOD32 == ack;
    SeqAtStep(base, u, Acked(c, ack));
  }

  /** The position acknowledged after `ack` arrives. */
  function NewUna(c: Conn, ack: nat, u: nat): nat {
    if 0 < Acked(c, ack) <= c.sndCur then u + Acked(c, ack) else u
  }

  /** An acknowledgement within the bytes in flight keeps the sender aligned. */
  lemma AckAligned(c: Conn, ack: nat, pure: bool, now: nat, written: seq<Byte>, base: nat, u: nat)
    requires Aligned(c, written, base, u) && ack < MOD32
    requires Acked(c, ack) != c.sndCur + 1
    ensures Aligned(OnAck(c, ack, pure, now).conn, written, base, NewUna(c, ack, u))
    ensures AllCarry(OnAck(c, ack, pure, now).sent, written, base)
    ensures SameReceiver(c, OnAck(c, ack, pure, now).conn)
  {
    hide Flush, Grown;
    var acked := Acked(c, ack);
    if 0 < acked <= c.sndCur {
      AckPosition(c, ack, base, u);
      var c1 := Slide(c, ack);
      assert c1.tx == written[u + acked..];
      FlushAligned(c1, now, MAX_FLUSH_SEGS, written, base, u + acked);
    } else if acked == 0 && ack == c.lastAck && pure {
      var c1 := c.(dupAcks := Min(c.dupAcks + 1, 255));
      if c1.dupAcks == 3 {
        FlushAligned(FastRetransmit(c1), now, MAX_FLUSH_SEGS, written, base, u);
      } else if c1.dupAcks > 3 {
        FlushAligned(c1.(cwnd := SatAdd32(c1.cwnd, c1.mss)), now, MAX_FLUSH_SEGS, written, base, u);
      }
    }
  }

  /** How far `snd_nxt` is from where the ring says it should be. */
  function Gap(c: Conn): nat {
    (c.sndNxt - c.sndUna - c.sndCur) % MOD32
  }

  lemma {:induction false} FlushKeepsGap(c: Conn, now: nat, k: nat)
    ensures Gap(Flush(c, now, k).conn) == Gap(c)
    decreases k
  {
    var n := FlushSize(c);
    if k > 0 && n > 0 {
      var c1 := Sent(c, n, now);
      assert (c.sndNxt + n) % MOD32 == c.sndNxt + n - (c.sndNxt + n) / MOD32 * MOD32;
      assert Gap(c1) == Gap(c);
      FlushKeepsGap(c1, now, k - 1);
    }
  }

  lemma AlignedHasNoGap(c: Conn, written: seq<Byte>, base: nat, u: nat)
    requires Aligned(c, written, base, u)
    ensures Gap(c) == 0
  {
    SeqAtStep(base, u, c.sndCur);
    assert c.sndNxt == (c.sndUna + c.sndCur) % MOD32;
  }

  /** The guard on acknowledgements lets one byte more than was sent be acknowledged. An
      aligned sender stays aligned exactly when that byte is not. */
  lemma AckAlignedIff(c: Conn, ack: nat, pure: bool, now: nat, written: seq<Byte>, base: nat, u: nat)
    requires Aligned(c, written, base, u) && ack < MOD32
    requires c.sndCur + 1 < MOD32
    ensures (exists v :: Aligned(OnAck(c, ack, pure, now).conn, written, base, v)) <==> Acked(c, ack) != c.sndCur + 1
  {
    hide Aligned, Flush;
    var after := OnAck(c, ack, pure, now).conn;
    if Acked(c, ack) == c.sndCur + 1 {
      var c1 := Slide(c, ack);
      AlignedHasNoGap(c, written, base, u);
      assert Gap(c1) == MOD32 - 1;
      FlushKeepsGap(c1, now, MAX_FLUSH_SEGS);
      forall v | Aligned(after, written, base, v) ensures false {
        AlignedHasNoGap(after, written, base, v);
      }
    } else {
      AckAligned(c, ack, pure, now, written, base, u);
    }
  }

  // ------------------------------------------------------ timer steps

  /** The zero-window probe sends the first unacknowledged byte under the number
      of the next unsent one. It carries the stream exactly when the ring is
      empty or those two bytes exist and agree, so for every content only when
      nothing is in flight. */
  lemma ProbeCarriesIff(c: Conn, now: nat, written: seq<Byte>, base: nat, u: nat)
    requires Aligned(c, written, base, u) && |written| < MOD32 && ProbeDue(c, now)
    ensures AllCarry(Probe(c, now).sent, written, base) <==>
            c.tx == [] || (c.sndCur < |c.tx| && c.tx[c.sndCur] == c.tx[0])
  {
    var s := Header(c, c.tx[..Min(1, |c.tx|)]);
    assert Probe(c, now).sent == [s];
    assert AllCarry([s], written, base) <==> Carries(s, written, base) by {
      assert [s][0] == s;
    }
    if c.tx != [] {
      if Carries(s, written, base) {
        var p: nat :| CarriesAt(s, written, base, p);
        SeqAtInjective(base, p, u + c.sndCur);
        assert s.data[0] == written[p];
      }
      if c.sndCur < |c.tx| && c.tx[c.sndCur] == c.tx[0] {
        assert CarriesAt(s, written, base, u + c.sndCur);
      }
    }
  }

  /** The probe, when due, finds nothing in flight or nothing to send. */
  predicate ProbeSafe(c: Conn, now: nat) {
    ProbeDue(c, now) ==> c.sndCur == 0 || c.tx == []
  }

  lemma TickAligned(c: Conn, now: nat, written: seq<Byte>, base: nat, u: nat)
    requires Aligned(c, written, base, u) && |written| < MOD32 && ProbeSafe(c, now)
    ensures Tick(c, now).conn.state.Established? ==>
              Aligned(Tick(c, now).conn, written, base, u) && SameReceiver(c, Tick(c, now).conn)
    ensures AllCarry(Tick(c, now).sent, written, base)
  {
    if c.state.Established? {
      var p := Probe(c, now);
      if ProbeDue(c, now) { ProbeCarriesIff(c, now, written, base, u); }
      var c0 := p.conn;
      var t := Timeout(c0, c.retxBackoff, now);
      if 0 < |t.sent| {
        var n := Min(|c0.tx|, c0.mss);
        SeqAtStep(base, u, n);
        var s := t.sent[0];
        assert s.data == c0.tx[..n];
        assert CarriesAt(s, written, base, u);
      }
    }
  }

  // ---------------------------------------------------- receiver side

  /** With `got` already read, the first `r` bytes of the peer's stream have
      arrived, and the next one is expected. */
  predicate InOrder(c: Conn, got: seq<Byte>, written: seq<Byte>, base: nat, r: nat) {
    r <= |written| && got + c.rx == written[..r] && c.rcvNxt == SeqAt(base, r)
  }

  /** Stream position after `s` was offered to the receiver. */
  function Arrived(c: Conn, s: Segment, r: nat): nat {
    if s.data != [] && s.seqno == c.rcvNxt then r + Min(|s.data|, Max(0, BUF_SIZE - |c.rx|)) else r
  }

  lemma NextBytes(got: seq<Byte>, rx: seq<Byte>, written: seq<Byte>, r: nat, data: seq<Byte>, n: nat)
    requires r + |data| <= |written| && n <= |data|
    requires got + rx == written[..r] && data == written[r..r + |data|]
    ensures got + (rx + data[..n]) == written[..r + n]
  {
    assert data[..n] == written[r..r + n];
    assert got + (rx + data[..n]) == (got + rx) + data[..n];
  }

  lemma DeliverInOrder(c: Conn, s: Segment, got: seq<Byte>, written: seq<Byte>, base: nat, r: nat)
    requires InOrder(c, got, written, base, r) && Carries(s, written, base) && |written| < MOD32
    ensures InOrder(Deliver(c, s).conn, got, written, base, Arrived(c, s, r))
    ensures r <= Arrived(c, s, r)
  {
    if s.data != [] && s.seqno == c.rcvNxt {
      var p: nat :| CarriesAt(s, written, base, p);
      SeqAtInjective(base, p, r);
      var n := Min(|s.data|, Max(0, BUF_SIZE - |c.rx|));
      SeqAtStep(base, r, n);
      NextBytes(got, c.rx, written, r, s.data, n);
    }
  }

  /** Delivery leaves the sending side alone. */
  lemma DeliverKeepsSender(c: Conn, s: Segment, written: seq<Byte>, base: nat, u: nat)
    requires Aligned(c, written, base, u)
    ensures Aligned(Deliver(c, s).conn, written, base, u)
    ensures AllCarry(Deliver(c, s).sent, written, base)
  {
  }

  /** A whole incoming segment, seen by the sending side. */
  lemma OnSegmentAligned(c: Conn, s: Segment, now: nat, written: seq<Byte>, base: nat, u: nat)
    requires Aligned(c, written, base, u) && c.state.Established?
    requires s.ack < MOD32 && Acked(c, s.ack) != c.sndCur + 1
    ensures Aligned(OnSegment(c, s, now).conn, written, base, NewUna(c, s.ack, u))
    ensures AllCarry(OnSegment(c, s, now).sent, written, base)
  {
    var c0 := c.(sndWnd := s.wnd);
    AckAligned(c0, s.ack, s.data == [], now, written, base, u);
    AfterAckAligned(OnAck(c0, s.ack, s.data == [], now), s, now, written, base, NewUna(c0, s.ack, u));
  }

  /** The rest of the segment handler after the acknowledgement part `a`. */
  lemma AfterAckAligned(a: Step, s: Segment, now: nat, written: seq<Byte>, base: nat, u: nat)
    requires Aligned(a.conn, written, base, u) && AllCarry(a.sent, written, base)
    ensures Aligned(Deliver(ArmPersist(a.conn, now), s).conn, written, base, u)
    ensures AllCarry(a.sent + Deliver(ArmPersist(a.conn, now), s).sent, written, base)
  {
    DeliverKeepsSender(ArmPersist(a.conn, now), s, written, base, u);
  }

  /** A whole incoming segment, seen by the receiving side. */
  lemma OnSegmentInOrder(c: Conn, s: Segment, now: nat, got: seq<Byte>, written: seq<Byte>, base: nat, r: nat)
    requires InOrder(c, got, written, base, r) && c.state.Established?
    requires Carries(s, written, base) && |written| < MOD32
    ensures OnSegment(c, s, now).conn.state.Established?
    ensures InOrder(OnSegment(c, s, now).conn, got, written, base, Arrived(c, s, r))
    ensures r <= Arrived(c, s, r)
    ensures forall i :: 0 <= i < |OnSegment(c, s, now).sent| ==>
              OnSegment(c, s, now).sent[i].ack in {SeqAt(base, r), SeqAt(base, Arrived(c, s, r))}
  {
    var c0 := c.(sndWnd := s.wnd);
    var a := OnAck(c0, s.ack, s.data == [], now);
    OnAckKeepsReceiver(c0, s.ack, s.data == [], now);
    OnAckAcks(c0, s.ack, s.data == [], now);
    var c2 := ArmPersist(a.conn, now);
    DeliverInOrder(c2, s, got, written, base, r);
  }

  lemma {:induction false} FlushKeepsReceiver(c: Conn, now: nat, k: nat)
    ensures SameReceiver(c, Flush(c, now, k).conn)
    decreases k
  {
    var n := FlushSize(c);
    if k > 0 && n > 0 {
      FlushKeepsReceiver(Sent(c, n, now), now, k - 1);
    }
  }

  lemma OnAckKeepsReceiver(c: Conn, ack: nat, pure: bool, now: nat)
    ensures SameReceiver(c, OnAck(c, ack, pure, now).conn)
  {
    FlushKeepsReceiver(Slide(c, ack), now, MAX_FLUSH_SEGS);
    var c1 := c.(dupAcks := Min(c.dupAcks + 1, 255));
    FlushKeepsReceiver(FastRetransmit(c1), now, MAX_FLUSH_SEGS);
    FlushKeepsReceiver(c1.(cwnd := SatAdd32(c1.cwnd, c1.mss)), now, MAX_FLUSH_SEGS);
  }

  /** Every segment acknowledges what its sender expected when it was sent. */
  ghost predicate AllAck(segs: seq<Segment>, ack: nat) {
    forall i :: 0 <= i < |segs| ==> segs[i].ack == ack
  }

  lemma {:induction false} FlushAcks(c: Conn, now: nat, k: nat)
    ensures AllAck(Flush(c, now, k).sent, c.rcvNxt)
    decreases k
  {
    var n := FlushSize(c);
    if k > 0 && n > 0 {
      FlushAcks(Sent(c, n, now), now, k - 1);
    }
  }

  lemma OnAckAcks(c: Conn, ack: nat, pure: bool, now: nat)
    ensures AllAck(OnAck(c, ack, pure, now).sent, c.rcvNxt)
  {
    FlushAcks(Slide(c, ack), now, MAX_FLUSH_SEGS);
    var c1 := c.(dupAcks := Min(c.dupAcks + 1, 255));
    FlushAcks(FastRetransmit(c1), now, MAX_FLUSH_SEGS);
    FlushAcks(c1.(cwnd := SatAdd32(c1.cwnd, c1.mss)), now, MAX_FLUSH_SEGS);
  }
}
