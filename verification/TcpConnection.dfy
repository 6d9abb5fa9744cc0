/** A connection slot of kernel/src/net/tcp.rs as the source keeps it: scalar
    fields and two byte rings, updated in place. Each operation is proved to do
    what `TcpProtocol` says. */
module TcpConnection {
  import opened Bytes
  import opened Wrappers
  import opened RingBuffer
  import opened TcpProtocol
  import opened TcpWindow

  class TcpConn {
    /** The scalar fields of the slot; the two byte sequences live in the rings. */
    var ctl: Conn
    var rx: RingBuf?
    var tx: RingBuf?

    ghost function Repr(): set<object>
      reads this
    {
      {this} + (if rx == null then {} else {rx, rx.buf}) + (if tx == null then {} else {tx, tx.buf})
    }

    ghost predicate Valid()
      reads Repr()
    {
      && ctl.mss <= MSS_MAX
      && (ctl.state.Established? <==> rx != null) && (ctl.state.Established? <==> tx != null)
      && (ctl.state.Established? ==>
            && rx.Valid() && tx.Valid() && rx != tx && rx.buf != tx.buf
            && rx.buf.Length == BUF_SIZE && tx.buf.Length == BUF_SIZE)
    }

    ghost function View(): Conn
      requires Valid()
      reads Repr()
    {
      ctl.(rx := if rx == null then [] else rx.Contents(), tx := if tx == null then [] else tx.Contents())
    }

    /** The state right after a handshake that ended with these numbers. */
    constructor (isn: nat, peerIsn: nat, window: nat, segmentSize: nat)
      requires isn < MOD32 && peerIsn < MOD32 && segmentSize <= MSS_MAX
      ensures Valid() && fresh(Repr())
      ensures var c := View();
              && c.state.Established? && c.tx == [] && c.rx == [] && c.sndCur == 0
              && c.sndUna == SeqAt(isn + 1, 0) == c.sndNxt && c.rcvNxt == SeqAt(peerIsn + 1, 0)
    {
      var first := (isn + 1) % MOD32;
      ctl := Conn(Established, first, first, 0, (peerIsn + 1) % MOD32, window, segmentSize,
                  RETX_INIT, 0, 1, MSS_MAX * 2, 64 * 1024, 0, isn, 0, false, [], []);
      rx := new RingBuf(BUF_SIZE);
      tx := new RingBuf(BUF_SIZE);
    }

    /** The segment built around `data` (`build_tcp_header`). */
    method SendSegment(data: seq<Byte>) returns (s: Segment)
      requires Valid() && ctl.state.Established?
      ensures s == Header(View(), data)
    {
      s := Segment(ctl.sndNxt, ctl.rcvNxt, Max(0, BUF_SIZE - rx.len), data);
    }

    // ------------------------------------------------------- sending

    /** One round of the loop of `flush_tx`; None ends the loop. */
    method FlushRound(now: nat) returns (r: Option<Segment>)
      requires Valid() && ctl.state.Established?
      modifies this`ctl
      ensures Valid()
      ensures var c, n := old(View()), FlushSize(old(View()));
              if n == 0 then r == None && View() == c
              else r == Some(Header(c, c.tx[c.sndCur..c.sndCur + n])) && View() == Sent(c, n, now)
    {
      hide Add32, RingBuf.Contents, RingBuf.Valid;
      var c := ctl;
      var effWnd := Min(c.sndWnd, c.cwnd);
      if effWnd <= c.sndCur { return None; }
      var unsent := if c.sndCur <= tx.len then tx.len - c.sndCur else 0;
      if unsent == 0 { return None; }
      var sendN := Min(Min(unsent, c.mss), effWnd - c.sndCur);
      if sendN == 0 { return None; }
      var bytes := tx.PeekFrom(c.sndCur, sendN);
      var s := SendSegment(bytes);
      var firstSend := c.sndCur == 0 && c.sndUna == c.sndNxt;
      ctl := ctl.(sndNxt := Add32(ctl.sndNxt, sendN), sndCur := ctl.sndCur + sendN);
      if firstSend {
        ctl := ctl.(retxTicks := Add32(now, RETX_INIT), retxCount := 0, retxBackoff := 1);
      }
      return Some(s);
    }

    method FlushTx(now: nat) returns (sent: seq<Segment>)
      requires Valid() && ctl.state.Established?
      modifies this`ctl
      ensures Valid()
      ensures Step(View(), sent) == TcpProtocol.FlushTx(old(View()), now)
      ensures var c, reached := old(View()), View().sndCur;
              && c.sndCur <= reached <= Max(c.sndCur, Min(c.sndWnd, c.cwnd))
              && (|sent| < 8 ==> |c.tx| <= reached || Min(c.sndWnd, c.cwnd) <= reached || c.mss == 0)
    {
      hide RingBuf.Contents, RingBuf.Valid, Sent, FlushSize, Header;
      sent := [];
      var left := MAX_FLUSH_SEGS;
      ghost var goal := Flush(View(), now, left);
      while 0 < left
        invariant 0 <= left
        invariant Valid() && ctl.state.Established?
        invariant var rest := Flush(View(), now, left); goal == Step(rest.conn, sent + rest.sent)
      {
        ghost var before := View();
        var r := FlushRound(now);
        if r.None? { break; }
        FlushUnfold(before, now, left);
        left := left - 1;
        ghost var rest := Flush(View(), now, left);
        assert sent + ([r.value] + rest.sent) == (sent + [r.value]) + rest.sent;
        sent := sent + [r.value];
      }
      assert sent + [] == sent;
      FlushFillsWindow(old(View()), now, MAX_FLUSH_SEGS);
    }

    method TcpWrite(data: seq<Byte>, now: nat) returns (pushed: nat, sent: seq<Segment>)
      requires Valid()
      modifies Repr()
      ensures Valid() && Repr() == old(Repr())
      ensures Step(View(), sent) == Write(old(View()), data, now)
      ensures pushed <= |data| && data[..pushed] == Accepted(old(View()), data)
      ensures if old(ctl.state.Established?) then pushed == |data| || |old(View()).tx| + pushed == BUF_SIZE
              else pushed == 0
    {
      hide Flush, RingBuf.Contents, RingBuf.Valid;
      if ctl.state != Established { return 0, []; }
      pushed := tx.Push(data);
      sent := FlushTx(now);
    }

    // ----------------------------------------------------- receiving

    method TcpRead(want: nat) returns (out: seq<Byte>)
      requires Valid()
      modifies Repr()
      ensures Valid() && Repr() == old(Repr())
      ensures out == ReadBytes(old(View()), want) && View() == Read(old(View()), want)
      ensures out + View().rx == old(View()).rx && (|out| == want || (|out| < want && View().rx == []))
    {
      if rx == null { return []; }
      out := rx.Pop(want);
    }

    /** New data acknowledged: congestion window, ring, counters. */
    method SlideWindow(ack: nat, acked: nat, wider: nat)
      requires Valid() && ctl.state.Established?
      modifies this`ctl, tx
      ensures Valid() && View() == SlideBy(old(View()), ack, acked, wider)
    {
      hide RingBuf.Contents, RingBuf.Valid;
      ghost var was := View();
      tx.Discard(acked);
      assert rx.Valid() && rx.Contents() == was.rx;
      assert tx.Contents() == was.tx[Min(acked, |was.tx|)..];
      ctl := ctl.(cwnd := wider, sndUna := ack, sndCur := Max(0, ctl.sndCur - acked),
                  retxCount := 0, retxBackoff := 1, dupAcks := 0, lastAck := ack,
                  persistArm := ctl.persistArm && ctl.sndWnd == 0);
    }

    method DuplicateAck(now: nat) returns (sent: seq<Segment>)
      requires Valid() && ctl.state.Established?
      modifies this`ctl
      ensures Valid()
      ensures Step(View(), sent) == OnDuplicate(old(View()), now)
    {
      hide Sub32, SatAdd32, Flush, RingBuf.Contents, RingBuf.Valid;
      sent := [];
      ctl := ctl.(dupAcks := Min(ctl.dupAcks + 1, 255));
      if ctl.dupAcks == 3 {
        var inFlight := Sub32(ctl.sndNxt, ctl.sndUna);
        var threshold := Max(inFlight / 2, ctl.mss * 2);
        ctl := ctl.(ssthresh := threshold, cwnd := SatAdd32(threshold, ctl.mss * 3));
        ctl := ctl.(sndNxt := ctl.sndUna, sndCur := 0);
        sent := FlushTx(now);
      } else if ctl.dupAcks > 3 {
        ctl := ctl.(cwnd := SatAdd32(ctl.cwnd, ctl.mss));
        sent := FlushTx(now);
      }
    }

    method HandleAck(ack: nat, noData: bool, now: nat) returns (sent: seq<Segment>)
      requires Valid() && ctl.state.Established?
      modifies this`ctl, tx
      ensures Valid()
      ensures Step(View(), sent) == OnAck(old(View()), ack, noData, now)
    {
      var acked := Sub32(ack, ctl.sndUna);
      sent := [];
      if 0 < acked <= ctl.sndCur + 1 {
        var wider := Grown(ctl.cwnd, ctl.ssthresh, ctl.mss, acked);
        SlideWindow(ack, acked, wider);
        sent := FlushTx(now);
      } else if acked == 0 && ack == ctl.lastAck && noData {
        sent := DuplicateAck(now);
      }
    }

    method DeliverData(s: Segment) returns (sent: seq<Segment>)
      requires Valid() && ctl.state.Established?
      modifies this`ctl, rx, rx.buf
      ensures Valid() && Step(View(), sent) == Deliver(old(View()), s)
    {
      sent := [];
      if s.data != [] && s.seqno == ctl.rcvNxt {
        var pushed := rx.Push(s.data);
        ctl := ctl.(rcvNxt := Add32(ctl.rcvNxt, pushed));
        var a := SendSegment([]);
        sent := [a];
      }
    }

    /** `tcp_handle_segment` for a segment with the ACK flag alone: the whole of
        it when Established, only the window when closed. */
    method TcpHandleSegment(s: Segment, now: nat) returns (sent: seq<Segment>)
      requires Valid()
      modifies Repr()
      ensures Valid() && Repr() == old(Repr())
      ensures Step(View(), sent) == OnSegment(old(View()), s, now)
    {
      hide OnAck, Deliver, RingBuf.Contents, RingBuf.Valid;
      ctl := ctl.(sndWnd := s.wnd);
      if ctl.state != Established { return []; }
      var acks := HandleAck(s.ack, s.data == [], now);
      if ctl.sndWnd == 0 && !ctl.persistArm {
        ctl := ctl.(persistTicks := Add32(now, PERSIST_INIT), persistArm := true);
      }
      var more := DeliverData(s);
      sent := acks + more;
    }

    // --------------------------------------------------------- timer

    method PersistProbe(now: nat) returns (sent: seq<Segment>)
      requires Valid() && ctl.state.Established?
      modifies this`ctl
      ensures Valid() && Step(View(), sent) == Probe(old(View()), now)
    {
      sent := [];
      if ctl.persistArm && ctl.persistTicks <= now {
        var probe := tx.PeekFrom(0, 1);
        var s := SendSegment(probe);
        sent := [s];
        var interval := Min(PERSIST_INIT * ctl.retxBackoff, PERSIST_MAX);
        ctl := ctl.(retxBackoff := Min(Min(ctl.retxBackoff * 2, 255), 64), persistTicks := Add32(now, interval));
      }
    }

    method Retransmit(backoff: nat, now: nat) returns (sent: seq<Segment>)
      requires Valid() && ctl.state.Established?
      modifies this
      ensures Valid() && Repr() <= old(Repr())
      ensures Step(View(), sent) == Timeout(old(View()), backoff, now)
    {
      hide Sub32, Add32, RingBuf.Contents, RingBuf.Valid;
      sent := [];
      var unacked := Sub32(ctl.sndNxt, ctl.sndUna);
      if 0 < unacked && ctl.retxTicks <= now {
        if RETX_MAX <= ctl.retxCount {
          rx, tx := null, null;
          ctl := ctl.(state := Closed);
          return;
        }
        var threshold := Max(unacked / 2, ctl.mss * 2);
        ctl := ctl.(ssthresh := threshold, cwnd := ctl.mss);
        ctl := ctl.(sndNxt := ctl.sndUna, sndCur := 0);
        var avail := Min(tx.len, ctl.mss);
        var bytes := tx.PeekFrom(0, avail);
        var s := SendSegment(bytes);
        sent := [s];
        var newBo := Min(Min(backoff * 2, 255), 16);
        ctl := ctl.(sndNxt := Add32(ctl.sndNxt, |bytes|), sndCur := |bytes|, retxCount := ctl.retxCount + 1,
                    retxBackoff := newBo, retxTicks := Add32(now, RETX_INIT * newBo));
      }
    }

    /** The part of `tcp_tick` for this connection. */
    method TcpTick(now: nat) returns (sent: seq<Segment>)
      requires Valid()
      modifies Repr()
      ensures Valid() && Repr() <= old(Repr())
      ensures Step(View(), sent) == Tick(old(View()), now)
    {
      if ctl.state != Established { return []; }
      var backoff := ctl.retxBackoff;
      var probes := PersistProbe(now);
      var resent := Retransmit(backoff, now);
      sent := probes + resent;
    }
  }
}
