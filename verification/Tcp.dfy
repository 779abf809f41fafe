/** A transmission control block of kernel/tcp.c and its buffers, updated in place. */
module Tcp {
  import opened Words
  import opened TcpSpec

  /** One transmission control block with its send, receive and out-of-order buffers.
      `wire` collects the frames handed to the network card. */
  class Tcb {
    var state: State
    var sndNxt: u32
    var sndUna: u32
    var rcvNxt: u32
    var synSentAt: u64
    var retries: nat
    var srtt: u32
    var rttvar: u32
    var rto: u32
    var probing: bool
    var probeSeq: u32
    var probeAt: u64
    var lastAck: u32
    var dupAcks: u8
    var cwnd: nat
    var ssthresh: nat
    var sndLen: nat
    var sndOldest: u64
    var rcvLen: nat
    var oooLen: nat
    var oooSeq: u32
    var wire: seq<Segment>
    const sndBuf: array<u8>
    const rcvBuf: array<u8>
    const oooBuf: array<u8>

    ghost predicate Valid()
      reads this
    {
      && sndBuf.Length == BUF_SIZE && rcvBuf.Length == BUF_SIZE && oooBuf.Length == MSS
      && sndBuf != rcvBuf && sndBuf != oooBuf && rcvBuf != oooBuf
      && sndLen <= BUF_SIZE && rcvLen <= BUF_SIZE && oooLen <= MSS
      && retries <= SYN_RETRY_MAX && cwnd > 0
    }

    ghost function Abs(): (c: Conn)
      requires Valid()
      reads this, sndBuf, rcvBuf, oooBuf
      ensures Sizes(c)
    {
      Conn(state, sndNxt, sndUna, rcvNxt, synSentAt, retries, srtt, rttvar, rto, probing, probeSeq, probeAt,
           lastAck, dupAcks, cwnd, ssthresh, sndBuf[..sndLen], sndOldest, rcvBuf[..rcvLen], oooBuf[..oooLen], oooSeq)
    }

    /** tcp_init followed by tcp_connect. */
    constructor Connect(now: u64)
      ensures Valid() && fresh(sndBuf) && fresh(rcvBuf) && fresh(oooBuf)
      ensures (Abs(), wire) == TcpSpec.Connect(now)
    {
      state := SynSent;
      sndBuf, rcvBuf, oooBuf := new u8[BUF_SIZE], new u8[BUF_SIZE], new u8[MSS];
      sndNxt, sndUna, rcvNxt := Wrap(now), Wrap(now), 0;
      retries, synSentAt := 0, now;
      sndLen, rcvLen, oooLen, oooSeq, sndOldest := 0, 0, 0, 0, 0;
      srtt, rttvar, rto, probing, lastAck, dupAcks := 0, 0, DATA_RTO_MS, false, 0, 0;
      probeSeq, probeAt := 0, 0;
      cwnd, ssthresh := MSS, INIT_SSTHRESH;
      new;
      wire := [Control(true, false, false, sndNxt, 0)];
      sndNxt := Wrap(sndNxt + 1);
    }

    /** The child block that tcp_input sets up for a SYN on a listening port. */
    constructor Accept(s: Segment, now: u64)
      ensures Valid() && fresh(sndBuf) && fresh(rcvBuf) && fresh(oooBuf)
      ensures (Abs(), wire) == AcceptSyn(s, now)
    {
      sndBuf, rcvBuf, oooBuf := new u8[BUF_SIZE], new u8[BUF_SIZE], new u8[MSS];
      sndNxt, sndUna, rcvNxt := Wrap(now), Wrap(now), Wrap(s.seqNo + 1);
      retries, synSentAt := 0, now;
      state := SynReceived;
      sndLen, rcvLen, oooLen, oooSeq, sndOldest := 0, 0, 0, 0, 0;
      srtt, rttvar, rto, probing, lastAck, dupAcks := 0, 0, DATA_RTO_MS, false, 0, 0;
      probeSeq, probeAt := 0, 0;
      cwnd, ssthresh := MSS, INIT_SSTHRESH;
      new;
      wire := [Control(true, true, false, sndNxt, rcvNxt)];
      sndNxt := Wrap(sndNxt + 1);
    }

    /** build_and_send and build_and_send_data: one frame to the card. */
    method Emit(s: Segment)
      modifies this`wire
      ensures wire == old(wire) + [s]
    {
      wire := wire + [s];
    }

    method ArmProbe(now: u64)
      requires Valid()
      modifies this`probing, this`probeSeq, this`probeAt
      ensures Valid() && Abs() == Arm(old(Abs()), now)
    {
      if !probing {
        probing, probeSeq, probeAt := true, sndNxt, now;
      }
    }

    /** The sending loop shared by try_emit and the timer: bytes [off, off + n) of the send
        buffer leave in segments of at most MSS bytes. */
    method SendRange(seqNo: u32, off: nat, n: nat)
      requires Valid() && off + n <= sndLen
      modifies this`wire
      ensures wire == old(wire) + Chunks(seqNo, rcvNxt, sndBuf[off..off + n])
    {
      var s, o, left := seqNo, off, n;
      ghost var all := sndBuf[off..off + n];
      while left > 0
        invariant 0 <= left && off <= o && o + left == off + n
        invariant wire + Chunks(s, rcvNxt, sndBuf[o..o + left]) == old(wire) + Chunks(seqNo, rcvNxt, all)
      {
        var chunk := if left < MSS then left else MSS;
        ghost var rest := sndBuf[o..o + left];
        SliceOfSlice(sndBuf[..], o, o + left, chunk);
        ghost var before := wire;
        Emit(Data(s, rcvNxt, sndBuf[o..o + chunk]));
        ChunkStep(before, s, rcvNxt, rest);
        s := Wrap(s + chunk);
        o := o + chunk;
        left := left - chunk;
      }
    }

    method TryEmit(now: u64)
      requires Valid()
      modifies this`wire, this`sndNxt, this`probing, this`probeSeq, this`probeAt
      ensures Valid() && Abs() == TcpSpec.TryEmit(old(Abs()), now).0
      ensures wire == old(wire) + TcpSpec.TryEmit(old(Abs()), now).1
    {
      hide Wrap, Chunks;
      if state != Established { return; }
      var inFlight := Wrap(sndNxt - sndUna);
      if inFlight >= sndLen { return; }
      var queued := sndLen - inFlight;
      var avail := if cwnd > inFlight then cwnd - inFlight else 0;
      if avail == 0 { return; }
      var toSend := if queued < avail then queued else avail;
      SliceOfPrefix(sndBuf[..], sndLen, inFlight, inFlight + toSend);
      ArmProbe(now);
      SendRange(sndNxt, inFlight, toSend);
      sndNxt := Wrap(sndNxt + toSend);
    }

    /** Copy bytes behind those already queued. */
    method Enqueue(data: seq<u8>)
      requires Valid() && sndLen + |data| <= BUF_SIZE
      modifies this`sndLen, sndBuf
      ensures Valid() && Abs() == old(Abs()).(snd := old(Abs()).snd + data)
    {
      for i := 0 to |data|
        modifies sndBuf
        invariant sndBuf[..sndLen] == old(sndBuf[..sndLen])
        invariant sndBuf[sndLen..sndLen + i] == data[..i]
      {
        sndBuf[sndLen + i] := data[i];
        assert sndBuf[sndLen..sndLen + i + 1] == sndBuf[sndLen..sndLen + i] + [data[i]];
        assert data[..i + 1] == data[..i] + [data[i]];
      }
      assert sndBuf[..sndLen + |data|] == sndBuf[..sndLen] + sndBuf[sndLen..sndLen + |data|];
      sndLen := sndLen + |data|;
    }

    method Send(data: seq<u8>, now: u64) returns (n: int)
      requires Valid()
      modifies this, sndBuf
      ensures Valid() && n == Accepted(old(Abs()), data)
      ensures Abs() == TcpSpec.Send(old(Abs()), data, now).0
      ensures wire == old(wire) + TcpSpec.Send(old(Abs()), data, now).1
    {
      hide TcpSpec.TryEmit, Wrap, InFlight;
      if state != Established { return -1; }
      var free := BUF_SIZE - sndLen;
      var len := if |data| > free then free else |data|;
      if len == 0 { return 0; }
      Enqueue(data[..len]);
      if sndOldest == 0 { sndOldest := now; }
      TryEmit(now);
      return len;
    }

    /** Drop the first n received bytes; the rest of the buffer moves down. */
    method DropReceived(n: nat)
      requires Valid() && n <= rcvLen
      modifies this`rcvLen, rcvBuf
      ensures Valid() && Abs() == old(Abs()).(rcv := old(Abs()).rcv[n..])
    {
      ghost var rest := rcvBuf[n..rcvLen];
      for i := 0 to rcvLen - n
        modifies rcvBuf
        invariant forall k :: 0 <= k < i ==> rcvBuf[k] == rest[k]
        invariant forall k :: i <= k < |rest| ==> rcvBuf[n + k] == rest[k]
      {
        rcvBuf[i] := rcvBuf[n + i];
      }
      assert rcvBuf[..rcvLen - n] == rest;
      rcvLen := rcvLen - n;
    }

    /** tcp_recv: out[..n] is handed over. */
    method Recv(out: array<u8>, max: nat) returns (n: int)
      requires Valid() && max <= out.Length && out != rcvBuf && out != sndBuf && out != oooBuf
      modifies this`rcvLen, rcvBuf, out
      ensures Valid() && n == Delivered(old(Abs()), max)
      ensures n >= 0 ==> out[..n] == old(Abs()).rcv[..n]
      ensures Abs() == TcpSpec.Recv(old(Abs()), max)
    {
      if state == Closed { return -1; }
      n := rcvLen;
      if n > max { n := max; }
      if n == 0 { return 0; }
      for i := 0 to n
        modifies out
        invariant out[..i] == rcvBuf[..i]
      {
        out[i] := rcvBuf[i];
        assert out[..i + 1] == out[..i] + [out[i]];
      }
      DropReceived(n);
    }

    /** slide_snd_window, for any count: none, and more than there are, included. */
    method SlideSndWindow(acked: nat, now: u64)
      requires Valid()
      modifies this`sndLen, this`sndOldest, sndBuf
      ensures Valid()
      ensures Abs() == if acked == 0 then old(Abs()) else Slide(old(Abs()), Min(acked, |old(Abs()).snd|), now)
    {
      var n := acked;
      if n == 0 || n > sndLen {
        if n > sndLen { n := sndLen; } else { return; }
      }
      DropSent(n, now);
    }

    /** The first bytes leave the send buffer, the rest moves down. */
    method DropSent(acked: nat, now: u64)
      requires Valid() && acked <= sndLen
      modifies this`sndLen, this`sndOldest, sndBuf
      ensures Valid() && Abs() == Slide(old(Abs()), acked, now)
    {
      ghost var rest := sndBuf[acked..sndLen];
      for i := 0 to sndLen - acked
        modifies sndBuf
        invariant forall k :: 0 <= k < i ==> sndBuf[k] == rest[k]
        invariant forall k :: i <= k < |rest| ==> sndBuf[acked + k] == rest[k]
      {
        sndBuf[i] := sndBuf[acked + i];
      }
      assert sndBuf[..sndLen - acked] == rest;
      sndLen := sndLen - acked;
      sndOldest := if sndLen == 0 then 0 else now;
    }

    method TakeRttSample(sample: u32)
      requires Valid()
      modifies this`srtt, this`rttvar, this`rto
      ensures Valid() && Abs() == RttSample(old(Abs()), sample)
    {
      hide Wrap;
      var s: u32 := if sample == 0 then 1 else sample;
      if srtt == 0 {
        srtt, rttvar := s, s / 2;
      } else {
        var diff: u32 := if srtt > s then srtt - s else s - srtt;
        rttvar := Wrap(3 * rttvar + diff) / 4;
        srtt := Wrap(7 * srtt + s) / 8;
      }
      SetRto();
    }

    method SetRto()
      modifies this`rto
      ensures rto == Rto(srtt, rttvar)
    {
      var r := Wrap(srtt + 4 * rttvar);
      if r < RTO_MIN_MS { r := RTO_MIN_MS; }
      if r > RTO_MAX_MS { r := RTO_MAX_MS; }
      rto := r;
    }

    method TakeProbe(ackNo: u32, now: u64)
      requires Valid()
      modifies this`srtt, this`rttvar, this`rto, this`probing
      ensures Valid() && Abs() == Probe(old(Abs()), ackNo, now)
    {
      if probing && SignedPositive(Wrap(ackNo - probeSeq)) {
        TakeRttSample(Wrap(now - probeAt));
        probing := false;
      }
    }

    method GrowWindow()
      requires Valid()
      modifies this`cwnd
      ensures Valid() && Abs() == Grow(old(Abs()))
    {
      if cwnd < ssthresh {
        cwnd := cwnd + MSS;
      } else {
        var inc := (MSS * MSS) / cwnd;
        if inc == 0 { inc := 1; }
        cwnd := cwnd + inc;
      }
    }

    method AdvanceUna(ackNo: u32, now: u64)
      requires Valid() && 0 < Wrap(ackNo - sndUna) <= sndLen
      modifies this`srtt, this`rttvar, this`rto, this`probing
      modifies this`sndUna, this`dupAcks, this`lastAck, this`sndLen, this`sndOldest, sndBuf
      ensures Valid()
      ensures Abs() == Acked(old(Abs()), ackNo, now)
    {
      hide Probe, Wrap;
      var newly := Wrap(ackNo - sndUna);
      TakeProbe(ackNo, now);
      SlideSndWindow(newly, now);
      sndUna := ackNo;
      dupAcks := 0;
      lastAck := ackNo;
    }

    method TakeNewAck(ackNo: u32, now: u64)
      requires Valid() && 0 < Wrap(ackNo - sndUna) <= sndLen
      modifies this, sndBuf
      ensures Valid() && Abs() == NewAck(old(Abs()), ackNo, now).0
      ensures wire == old(wire) + NewAck(old(Abs()), ackNo, now).1
    {
      hide TcpSpec.TryEmit, Grow, Acked, Wrap;
      AdvanceUna(ackNo, now);
      GrowWindow();
      TryEmit(now);
    }

    method CountDuplicate(ackNo: u32)
      requires Valid()
      modifies this`dupAcks, this`lastAck
      ensures Valid() && Abs() == CountDup(old(Abs()), ackNo)
    {
      if ackNo == lastAck {
        dupAcks := (dupAcks + 1) % 0x100;
      } else {
        dupAcks := 1;
        lastAck := ackNo;
      }
    }

    method CutWindow()
      requires Valid()
      modifies this`ssthresh, this`cwnd
      ensures Valid() && Abs() == old(Abs()).(ssthresh := Halve(old(Abs())), cwnd := Halve(old(Abs())))
    {
      var half := cwnd / 2;
      var floor := 2 * MSS;
      ssthresh := if half > floor then half else floor;
      cwnd := ssthresh;
    }

    method TakeDupAck(ackNo: u32)
      requires Valid()
      modifies this`dupAcks, this`lastAck, this`ssthresh, this`cwnd, this`wire
      ensures Valid() && Abs() == DupAck(old(Abs()), ackNo).0
      ensures wire == old(wire) + DupAck(old(Abs()), ackNo).1
    {
      CountDuplicate(ackNo);
      if dupAcks == DUP_ACK_THRESH {
        var chunk := if sndLen < MSS then sndLen else MSS;
        SliceOfPrefix(sndBuf[..], sndLen, 0, chunk);
        Emit(Data(sndUna, rcvNxt, sndBuf[..chunk]));
        CutWindow();
      }
    }

    method TakeAck(s: Segment, now: u64)
      requires Valid()
      modifies this, sndBuf
      ensures Valid() && Abs() == AckStep(old(Abs()), s, now).0
      ensures wire == old(wire) + AckStep(old(Abs()), s, now).1
    {
      hide NewAck, DupAck, Wrap;
      if !s.ack { return; }
      var newly := Wrap(s.ackNo - sndUna);
      if 0 < newly <= sndLen {
        TakeNewAck(s.ackNo, now);
      } else if newly == 0 && sndLen > 0 && |s.payload| == 0 && !s.syn && !s.fin {
        TakeDupAck(s.ackNo);
      }
    }

    /** Append to the receive buffer what fits of some bytes. */
    method Append(bytes: seq<u8>)
      requires Valid()
      modifies this`rcvLen, this`rcvNxt, rcvBuf
      ensures Valid() && Abs() == Take(old(Abs()), bytes)
    {
      hide Wrap;
      ghost var was := rcvBuf[..rcvLen];
      var free := BUF_SIZE - rcvLen;
      var n := if |bytes| > free then free else |bytes|;
      for i := 0 to n
        modifies rcvBuf
        invariant forall k :: 0 <= k < rcvLen ==> rcvBuf[k] == was[k]
        invariant forall k :: 0 <= k < i ==> rcvBuf[rcvLen + k] == bytes[k]
      {
        rcvBuf[rcvLen + i] := bytes[i];
      }
      assert rcvBuf[..rcvLen + n] == was + bytes[..n];
      rcvLen := rcvLen + n;
      rcvNxt := Wrap(rcvNxt + n);
    }

    method ParkSegment(s: Segment)
      requires Valid()
      modifies this`oooLen, this`oooSeq, oooBuf
      ensures Valid() && Abs() == Park(old(Abs()), s)
    {
      if |s.payload| <= MSS && (oooLen == 0 || s.seqNo < oooSeq) {
        for i := 0 to |s.payload|
          modifies oooBuf
          invariant oooBuf[..i] == s.payload[..i]
        {
          oooBuf[i] := s.payload[i];
          assert oooBuf[..i + 1] == oooBuf[..i] + [s.payload[i]];
        }
        oooLen := |s.payload|;
        oooSeq := s.seqNo;
      }
    }

    method TakeInOrder(bytes: seq<u8>)
      requires Valid()
      modifies this`rcvLen, this`rcvNxt, this`oooLen, rcvBuf
      ensures Valid() && Abs() == TakeOoo(Take(old(Abs()), bytes))
    {
      hide Take, Wrap;
      Append(bytes);
      if oooLen > 0 && oooSeq == rcvNxt {
        Append(oooBuf[..oooLen]);
        oooLen := 0;
      }
    }

    method TakeData(s: Segment)
      requires Valid()
      modifies this, rcvBuf, oooBuf
      ensures Valid() && Abs() == DataStep(old(Abs()), s).0
      ensures wire == old(wire) + DataStep(old(Abs()), s).1
    {
      hide Take, TakeOoo, Park, Wrap;
      if |s.payload| == 0 { return; }
      if s.seqNo == rcvNxt {
        TakeInOrder(s.payload);
      } else if SignedPositive(Wrap(s.seqNo - rcvNxt)) {
        ParkSegment(s);
      }
      Emit(Control(false, true, false, sndNxt, rcvNxt));
    }

    method TakeFin(s: Segment)
      requires Valid()
      modifies this`rcvNxt, this`state, this`wire
      ensures Valid() && Abs() == FinStep(old(Abs()), s).0
      ensures wire == old(wire) + FinStep(old(Abs()), s).1
    {
      hide Wrap;
      if s.fin {
        rcvNxt := Wrap(s.seqNo + |s.payload| + 1);
        Emit(Control(false, true, false, sndNxt, rcvNxt));
        state := CloseWait;
      }
    }

    method InEstablished(s: Segment, now: u64)
      requires Valid()
      modifies this, sndBuf, rcvBuf, oooBuf
      ensures Valid() && Abs() == EstablishedStep(old(Abs()), s, now).0
      ensures wire == old(wire) + EstablishedStep(old(Abs()), s, now).1
    {
      hide AckStep, DataStep, FinStep;
      ghost var c, w := Abs(), wire;
      TakeAck(s, now);
      ghost var c1, o1 := Abs(), AckStep(c, s, now).1;
      TakeData(s);
      ghost var c2, o2 := Abs(), DataStep(c1, s).1;
      TakeFin(s);
      ghost var o3 := FinStep(c2, s).1;
      assert w + o1 + o2 + o3 == w + (o1 + o2 + o3);
    }

    /** tcp_input for a block that matches the segment (or, when closed, for none). */
    method Input(s: Segment, now: u64)
      requires Valid() && state != Listen
      modifies this, sndBuf, rcvBuf, oooBuf
      ensures Valid() && Abs() == TcpSpec.Input(old(Abs()), s, now).0
      ensures wire == old(wire) + TcpSpec.Input(old(Abs()), s, now).1
    {
      hide EstablishedStep, SynSentStep, SynReceivedStep, Wrap;
      if state == Closed {
        wire := wire + RstReply(s);
      } else if s.rst {
        state := Closed;
      } else if state == SynReceived {
        InSynReceived(s);
      } else if state == SynSent {
        InSynSent(s);
      } else if state == Established {
        InEstablished(s, now);
      }
    }

    method InSynReceived(s: Segment)
      requires Valid()
      modifies this`sndUna, this`state, this`wire
      ensures Valid() && Abs() == SynReceivedStep(old(Abs()), s).0
      ensures wire == old(wire) + SynReceivedStep(old(Abs()), s).1
    {
      if s.ack && s.ackNo == sndNxt {
        sndUna := s.ackNo;
        state := Established;
      } else if s.syn {
        Emit(Control(true, true, false, sndUna, rcvNxt));
      }
    }

    method InSynSent(s: Segment)
      requires Valid()
      modifies this`sndUna, this`rcvNxt, this`state, this`wire
      ensures Valid() && Abs() == SynSentStep(old(Abs()), s).0
      ensures wire == old(wire) + SynSentStep(old(Abs()), s).1
    {
      hide Wrap;
      if s.syn && s.ack {
        if s.ackNo != sndNxt {
          Emit(Control(false, false, true, s.ackNo, 0));
          state := Closed;
          return;
        }
        sndUna := s.ackNo;
        rcvNxt := Wrap(s.seqNo + 1);
        Emit(Control(false, true, false, sndNxt, rcvNxt));
        state := Established;
      } else if s.syn {
        Emit(Control(false, false, true, sndNxt, 0));
        state := Closed;
      }
    }

    /** tcp_tick for this block.  The retransmission loop reads [0, in flight) of the send
        buffer, so the bytes in flight must be in it. */
    method Tick(now: u64)
      requires Valid()
      requires RtoExpired(Abs(), now) ==> InFlight(Abs()) <= sndLen
      modifies this
      ensures Valid() && Abs() == TcpSpec.Tick(old(Abs()), now).0
      ensures wire == old(wire) + TcpSpec.Tick(old(Abs()), now).1
    {
      hide RtoTick, Wrap, Pow2, InFlight;
      if state == SynSent {
        if (now - synSentAt) % 0x1_0000_0000_0000_0000 >= 1000 * Pow2(retries) {
          if retries >= SYN_RETRY_MAX {
            state := Closed;
          } else {
            retries := retries + 1;
            Emit(Control(true, false, false, sndUna, 0));
            synSentAt := now;
          }
        }
      } else if state == Established && sndLen > 0 {
        var limit := if rto == 0 then DATA_RTO_MS else rto;
        if sndOldest != 0 && (now - sndOldest) % 0x1_0000_0000_0000_0000 >= limit {
          Retransmit(now);
        }
      }
    }

    method Retransmit(now: u64)
      requires Valid() && InFlight(Abs()) <= sndLen
      modifies this
      ensures Valid() && Abs() == RtoTick(old(Abs()), now).0
      ensures wire == old(wire) + RtoTick(old(Abs()), now).1
    {
      hide Chunks, Wrap;
      var inFlight := Wrap(sndNxt - sndUna);
      SliceOfPrefix(sndBuf[..], sndLen, 0, inFlight);
      SendRange(sndUna, 0, inFlight);
      BackOff(now);
    }

    method Collapse()
      requires Valid()
      modifies this`ssthresh, this`cwnd
      ensures Valid() && Abs() == old(Abs()).(ssthresh := Halve(old(Abs())), cwnd := MSS)
    {
      var half := cwnd / 2;
      var floor := 2 * MSS;
      ssthresh := if half > floor then half else floor;
      cwnd := MSS;
    }

    method BackOff(now: u64)
      requires Valid()
      modifies this`sndOldest, this`probing, this`ssthresh, this`cwnd, this`rto
      ensures Valid()
      ensures Abs() == old(Abs()).(sndOldest := now, probing := false, ssthresh := Halve(old(Abs())),
                                   cwnd := MSS, rto := Min(RTO_MAX_MS, Wrap(old(rto) * 2)))
    {
      hide Wrap;
      sndOldest := now;
      probing := false;
      Collapse();
      var back := Wrap(rto * 2);
      if back > RTO_MAX_MS { back := RTO_MAX_MS; }
      rto := back;
    }
  }

  lemma SliceOfSlice(s: seq<u8>, lo: nat, hi: nat, n: nat)
    requires lo + n <= hi <= |s|
    ensures s[lo..hi][..n] == s[lo..lo + n] && s[lo..hi][n..] == s[lo + n..hi]
  {}

  lemma SliceOfPrefix(s: seq<u8>, len: nat, lo: nat, hi: nat)
    requires lo <= hi <= len <= |s|
    ensures s[..len][lo..hi] == s[lo..hi]
  {}

  /** Sending one chunk and leaving the rest for later is sending the whole. */
  lemma ChunkStep(before: seq<Segment>, s: u32, ack: u32, rest: seq<u8>)
    requires |rest| > 0
    ensures
      var n := Min(|rest|, MSS);
      before + [Data(s, ack, rest[..n])] + Chunks(Wrap(s + n), ack, rest[n..]) == before + Chunks(s, ack, rest)
  {
    var n := Min(|rest|, MSS);
    var head, tail := [Data(s, ack, rest[..n])], Chunks(Wrap(s + n), ack, rest[n..]);
    assert before + head + tail == before + (head + tail);
  }
}
