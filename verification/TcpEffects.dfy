/** What one entry point of the transport does to the buffers, the numbers and the wire, in plain
    bytes and integers modulo 2^32. */
module TcpEffects {
  import opened Words
  import opened TcpSpec

  /** The segments carry the bytes in order from sequence number q on, 536 to a segment but for the
      last. */
  predicate Carries(out: seq<Segment>, q: u32, ackNo: u32, bytes: seq<u8>) {
    && |out| == (|bytes| + 535) / 536
    && forall i :: 0 <= i < |out| ==>
         out[i] == Segment(false, true, false, false, (q + 536 * i) % 0x1_0000_0000, ackNo,
                           bytes[536 * i..if 536 * i + 536 <= |bytes| then 536 * i + 536 else |bytes|])
  }

  /** The payloads of a run of segments, joined. */
  function Payloads(out: seq<Segment>): seq<u8> {
    if |out| == 0 then [] else out[0].payload + Payloads(out[1..])
  }

  lemma {:induction false} CarriesJoined(out: seq<Segment>, q: u32, ackNo: u32, bytes: seq<u8>)
    requires Carries(out, q, ackNo, bytes)
    ensures Payloads(out) == bytes
    decreases |out|
  {
    if |out| > 0 {
      var n := if 536 <= |bytes| then 536 else |bytes|;
      CarriesRest(out, q, ackNo, bytes);
      CarriesJoined(out[1..], (q + 536) % 0x1_0000_0000, ackNo, bytes[n..]);
      assert bytes == bytes[..n] + bytes[n..];
      hide Carries;
    }
  }

  lemma CarriesRest(out: seq<Segment>, q: u32, ackNo: u32, bytes: seq<u8>)
    requires Carries(out, q, ackNo, bytes) && |out| > 0
    ensures
      var n := if 536 <= |bytes| then 536 else |bytes|;
      && out[0] == Segment(false, true, false, false, q, ackNo, bytes[..n])
      && Carries(out[1..], (q + 536) % 0x1_0000_0000, ackNo, bytes[n..])
  {
    var n := if 536 <= |bytes| then 536 else |bytes|;
    var rest, tail := out[1..], bytes[n..];
    assert |rest| == (|tail| + 535) / 536;
    assert out[0].payload == bytes[..n];
    forall i | 0 <= i < |rest|
      ensures rest[i] == Segment(false, true, false, false, ((q + 536) % 0x1_0000_0000 + 536 * i) % 0x1_0000_0000, ackNo,
                                 tail[536 * i..if 536 * i + 536 <= |tail| then 536 * i + 536 else |tail|]) {
      assert rest[i] == out[i + 1];
      SliceShift(bytes, n, i + 1);
      AddMod(q + 536, 536 * i);
      hide Carries;
    }
  }

  lemma AddMod(x: int, y: int)
    ensures (x % 0x1_0000_0000 + y) % 0x1_0000_0000 == (x + y) % 0x1_0000_0000
  {}

  lemma {:induction false} ChunksCarry(q: u32, ackNo: u32, bytes: seq<u8>)
    ensures Carries(Chunks(q, ackNo, bytes), q, ackNo, bytes)
    decreases |bytes|
  {
    if |bytes| > 0 {
      var n := Min(|bytes|, MSS);
      WrapIsMod(q + n);
      ChunksCarry(Wrap(q + n), ackNo, bytes[n..]);
      CarriesMore(Data(q, ackNo, bytes[..n]), Chunks(Wrap(q + n), ackNo, bytes[n..]), q, ackNo, bytes, n);
      hide Carries, Wrap;
    }
  }

  lemma CarriesMore(first: Segment, rest: seq<Segment>, q: u32, ackNo: u32, bytes: seq<u8>, n: nat)
    requires 0 < n <= |bytes| && n == (if 536 <= |bytes| then 536 else |bytes|)
    requires first == Segment(false, true, false, false, q, ackNo, bytes[..n])
    requires Carries(rest, (q + n) % 0x1_0000_0000, ackNo, bytes[n..])
    ensures Carries([first] + rest, q, ackNo, bytes)
  {
    var out, tail := [first] + rest, bytes[n..];
    assert |out| == (|bytes| + 535) / 536;
    forall i | 0 <= i < |out|
      ensures out[i] == Segment(false, true, false, false, (q + 536 * i) % 0x1_0000_0000, ackNo,
                                bytes[536 * i..if 536 * i + 536 <= |bytes| then 536 * i + 536 else |bytes|]) {
      if i > 0 {
        assert n == 536;
        assert out[i] == rest[i - 1];
        SliceShift(bytes, n, i);
        AddMod(q + 536, 536 * (i - 1));
        hide Carries;
      }
    }
  }

  lemma SliceShift(bytes: seq<u8>, n: nat, i: nat)
    requires n == 536 && 0 < i && 536 * i <= |bytes|
    ensures
      var tail, k := bytes[n..], i - 1;
      tail[536 * k..if 536 * k + 536 <= |tail| then 536 * k + 536 else |tail|]
      == bytes[536 * i..if 536 * i + 536 <= |bytes| then 536 * i + 536 else |bytes|]
  {}

  // ---------------------------------------------------------------- sending

  /** What the window lets out of a send buffer that starts at una: the bytes after those already in
      flight, up to the window, and snd_nxt behind them. */
  predicate Emits(o: seq<Segment>, ackNo: u32, buf: seq<u8>, una: u32, nxt: u32, nxt2: u32, window: nat) {
    var f := (nxt - una) % 0x1_0000_0000;
    var limit := if |buf| <= window then |buf| else window;
    if f < limit then nxt2 == (una + limit) % 0x1_0000_0000 && Carries(o, nxt, ackNo, buf[f..limit])
    else nxt2 == nxt && o == []
  }

  /** What try_emit does. */
  lemma EmitEffect(c: Conn, now: u64)
    ensures
      var (d, o) := TryEmit(c, now);
      if c.state == Established then
        && Emits(o, c.rcvNxt, c.snd, c.sndUna, c.sndNxt, d.sndNxt, c.cwnd)
        && d == (if o == [] || c.probing then c.(sndNxt := d.sndNxt)
                 else c.(sndNxt := d.sndNxt, probing := true, probeSeq := c.sndNxt, probeAt := now))
      else d == c && o == []
  {
    WrapIsMod(c.sndNxt - c.sndUna);
    hide Wrap, Carries, Chunks;
    var n := Emittable(c);
    WrapIsMod(c.sndNxt + n);
    if n > 0 {
      var f := InFlight(c);
      ChunksCarry(c.sndNxt, c.rcvNxt, c.snd[f..f + n]);
      ChunksSome(c.sndNxt, c.rcvNxt, c.snd[f..f + n]);
      Restart(c.sndNxt, c.sndUna, f + n);
    }
  }

  lemma ChunksSome(q: u32, ackNo: u32, bytes: seq<u8>)
    ensures Chunks(q, ackNo, bytes) == [] <==> bytes == []
  {}

  lemma Restart(nxt: u32, una: u32, limit: int)
    ensures (nxt + limit - (nxt - una) % 0x1_0000_0000) % 0x1_0000_0000 == (una + limit) % 0x1_0000_0000
  {}

  /** tcp_send: as many bytes as fit go behind the others, and what the window allows goes out. */
  lemma SendEffect(c: Conn, data: seq<u8>, now: u64)
    requires Sizes(c)
    ensures
      var n := if |data| <= 1024 - |c.snd| then |data| else 1024 - |c.snd|;
      var (d, o) := Send(c, data, now);
      && Accepted(c, data) == (if c.state == Established then n else -1)
      && (if c.state == Established && n > 0 then
            && d.snd == c.snd + data[..n] && d.sndUna == c.sndUna && d.rcv == c.rcv && d.rcvNxt == c.rcvNxt
            && d.sndOldest == (if c.sndOldest == 0 then now else c.sndOldest)
            && Emits(o, c.rcvNxt, c.snd + data[..n], c.sndUna, c.sndNxt, d.sndNxt, c.cwnd)
          else d == c && o == [])
  {
    var n := Accepted(c, data);
    if n > 0 {
      EmitEffect(c.(snd := c.snd + data[..n], sndOldest := if c.sndOldest == 0 then now else c.sndOldest), now);
    }
    hide TryEmit, Emits;
  }

  /** tcp_recv: the first bytes that wait are handed over and the others stay. */
  lemma RecvEffect(c: Conn, max: nat)
    ensures
      var n := if |c.rcv| <= max then |c.rcv| else max;
      && Delivered(c, max) == (if c.state == Closed then -1 else n)
      && Recv(c, max) == if c.state == Closed then c else c.(rcv := c.rcv[n..])
  {
    assert c.rcv[0..] == c.rcv;
  }

  // ---------------------------------------------------------------- acknowledgements

  /** The estimates after an acknowledgement: a sample is taken when it passes the probed number. */
  function Sampled(c: Conn, ackNo: u32, now: u64): Conn {
    var ahead := (ackNo - c.probeSeq) % 0x1_0000_0000;
    if c.probing && 0 < ahead < 0x8000_0000
    then RttSample(c, (now - c.probeAt) % 0x1_0000_0000).(probing := false)
    else c
  }

  /** What arrives with a segment leaves the other direction alone. */
  lemma AckLeavesRecv(c: Conn, s: Segment, now: u64)
    requires Sizes(c)
    ensures
      var d := AckStep(c, s, now).0;
      && Sizes(d) && d.rcv == c.rcv && d.rcvNxt == c.rcvNxt && d.ooo == c.ooo && d.oooSeq == c.oooSeq
      && d.state == c.state
  {
    hide Wrap, RttSample, Chunks, Grow, TryEmit, Probe, DupAck;
    var k := Wrap(s.ackNo - c.sndUna);
    if 0 < k <= |c.snd| {
      AckedFields(c, s.ackNo, now);
      EmitEffect(Grow(Acked(c, s.ackNo, now)), now);
    }
    DupLeavesRecv(c, s.ackNo);
  }

  lemma DupLeavesRecv(c: Conn, ackNo: u32)
    ensures
      var d := DupAck(c, ackNo).0;
      d.rcv == c.rcv && d.rcvNxt == c.rcvNxt && d.ooo == c.ooo && d.oooSeq == c.oooSeq && d.state == c.state && d.snd == c.snd
      && d.retries == c.retries && (c.cwnd > 0 ==> d.cwnd > 0)
  {}

  lemma ProbeFields(c: Conn, ackNo: u32, now: u64)
    ensures
      var p, d := Sampled(c, ackNo, now), Probe(c, ackNo, now);
      d == p && d == c.(srtt := d.srtt, rttvar := d.rttvar, rto := d.rto, probing := d.probing)
  {
    WrapIsMod(ackNo - c.probeSeq);
    WrapIsMod(now - c.probeAt);
    hide Wrap;
  }

  /** The block between the acknowledgement and what it lets out. */
  lemma AckedFields(c: Conn, ackNo: u32, now: u64)
    requires Sizes(c) && 0 < Wrap(ackNo - c.sndUna) <= |c.snd|
    ensures
      var k := Wrap(ackNo - c.sndUna);
      var p := Sampled(c, ackNo, now);
      Grow(Acked(c, ackNo, now)) ==
        c.(snd := c.snd[k..], sndUna := ackNo, dupAcks := 0, lastAck := ackNo,
           cwnd := Opened(c.cwnd, c.ssthresh),
           srtt := p.srtt, rttvar := p.rttvar, rto := p.rto, probing := p.probing,
           sndOldest := if k == |c.snd| then 0 else now)
  {
    ProbeFields(c, ackNo, now);
    hide Wrap, Sampled, Probe;
  }

  lemma DataLeavesSend(c: Conn, s: Segment)
    requires Sizes(c)
    ensures
      var d := DataStep(c, s).0;
      Sizes(d) && d.(rcv := c.rcv, rcvNxt := c.rcvNxt, ooo := c.ooo, oooSeq := c.oooSeq) == c
  {
    hide Wrap;
  }

  /** The window after an acknowledgement: one segment more below the threshold, above it the share
      of a segment, 536 * 536 / cwnd, at least one byte. */
  function Opened(cwnd: nat, ssthresh: nat): nat
    requires cwnd > 0
  {
    if cwnd < ssthresh then cwnd + 536 else if 287296 / cwnd == 0 then cwnd + 1 else cwnd + 287296 / cwnd
  }

  /** An acknowledgement of k bytes that are queued takes them off the front of the send buffer, opens
      the window, and lets out what it then allows. */
  lemma AckedEffect(c: Conn, s: Segment, now: u64, k: nat)
    requires Sizes(c) && c.state == Established && !s.rst && s.ack
    requires k == (s.ackNo - c.sndUna) % 0x1_0000_0000 && 0 < k <= |c.snd|
    ensures
      var (d, o) := AckStep(c, s, now);
      var p := Sampled(c, s.ackNo, now);
      && d.snd == c.snd[k..] && d.sndUna == s.ackNo && d.dupAcks == 0 && d.lastAck == s.ackNo
      && d.cwnd == Opened(c.cwnd, c.ssthresh) && d.ssthresh == c.ssthresh
      && d.srtt == p.srtt && d.rttvar == p.rttvar && d.rto == p.rto
      && d.sndOldest == (if k == |c.snd| then 0 else now)
      && Emits(o, c.rcvNxt, c.snd[k..], s.ackNo, c.sndNxt, d.sndNxt, d.cwnd)
  {
    WrapIsMod(s.ackNo - c.sndUna);
    AckedFields(c, s.ackNo, now);
    AckEmits(c, s, now);
    hide Wrap, Emits, TryEmit, Grow, Acked, Sampled, AckStep, Opened;
    EmitEffect(Grow(Acked(c, s.ackNo, now)), now);
  }

  lemma AckEmits(c: Conn, s: Segment, now: u64)
    requires Sizes(c) && s.ack && 0 < Wrap(s.ackNo - c.sndUna) <= |c.snd|
    ensures AckStep(c, s, now) == TryEmit(Grow(Acked(c, s.ackNo, now)), now)
  {
    hide Wrap, TryEmit, Grow, Acked;
  }

  /** The third duplicate acknowledgement in a row resends the first segment queued and halves the
      window; the others are only counted. */
  lemma DuplicateEffect(c: Conn, s: Segment, now: u64)
    requires Sizes(c) && s.ack && s.ackNo == c.sndUna && |c.snd| > 0 && s.payload == [] && !s.syn && !s.fin
    ensures
      var (d, o) := AckStep(c, s, now);
      var count := if s.ackNo == c.lastAck then (c.dupAcks + 1) % 256 else 1;
      var half := if c.cwnd / 2 > 1072 then c.cwnd / 2 else 1072;
      if count == 3 then
        && d == c.(dupAcks := 3, lastAck := s.ackNo, ssthresh := half, cwnd := half)
        && o == [Segment(false, true, false, false, c.sndUna, c.rcvNxt, c.snd[..if |c.snd| <= 536 then |c.snd| else 536])]
      else d == c.(dupAcks := count, lastAck := s.ackNo) && o == []
  {}

  /** Any other acknowledgement changes nothing. */
  lemma IgnoredEffect(c: Conn, s: Segment, now: u64)
    requires Sizes(c)
    requires
      var k := (s.ackNo - c.sndUna) % 0x1_0000_0000;
      !s.ack || k > |c.snd| || (k == 0 && (|c.snd| == 0 || |s.payload| > 0 || s.syn || s.fin))
    ensures AckStep(c, s, now) == (c, [])
  {
    WrapIsMod(s.ackNo - c.sndUna);
    hide Wrap;
  }

  // ---------------------------------------------------------------- data

  /** The bare acknowledgement of everything received so far. */
  predicate Acknowledges(o: seq<Segment>, d: Conn) {
    |o| > 0 && o[|o| - 1] == Segment(false, true, false, false, d.sndNxt, d.rcvNxt, [])
  }

  /** A segment that starts at rcv_nxt is received as far as it fits, then what is parked if it starts
      where that ended, and the acknowledgement carries the new number. */
  lemma InOrderEffect(c: Conn, s: Segment, now: u64)
    requires Sizes(c) && c.state == Established && !s.rst && !s.fin && |s.payload| > 0 && s.seqNo == c.rcvNxt
    ensures
      var (d, o) := Input(c, s, now);
      var room := 1024 - |c.rcv|;
      var n := if |s.payload| <= room then |s.payload| else room;
      var follows := |c.ooo| > 0 && c.oooSeq == (c.rcvNxt + n) % 0x1_0000_0000;
      var m := if !follows then 0 else if |c.ooo| <= room - n then |c.ooo| else room - n;
      && d.rcv == c.rcv + s.payload[..n] + c.ooo[..m]
      && d.rcvNxt == (c.rcvNxt + n + m) % 0x1_0000_0000
      && d.ooo == (if follows then [] else c.ooo) && d.oooSeq == c.oooSeq
      && d.state == Established && Sizes(d) && Acknowledges(o, d)
  {
    AckLeavesRecv(c, s, now);
    InOrderData(AckStep(c, s, now).0, s);
    hide AckStep, DataStep;
  }

  lemma InOrderData(c: Conn, s: Segment)
    requires Sizes(c) && |s.payload| > 0 && s.seqNo == c.rcvNxt
    ensures
      var (d, o) := DataStep(c, s);
      var room := 1024 - |c.rcv|;
      var n := if |s.payload| <= room then |s.payload| else room;
      var follows := |c.ooo| > 0 && c.oooSeq == (c.rcvNxt + n) % 0x1_0000_0000;
      var m := if !follows then 0 else if |c.ooo| <= room - n then |c.ooo| else room - n;
      && d.rcv == c.rcv + s.payload[..n] + c.ooo[..m]
      && d.rcvNxt == (c.rcvNxt + n + m) % 0x1_0000_0000
      && d.ooo == (if follows then [] else c.ooo) && d.oooSeq == c.oooSeq
      && d.state == c.state && o == [Segment(false, true, false, false, d.sndNxt, d.rcvNxt, [])]
  {
    TakeEffect(c, s.payload);
    var c2 := Take(c, s.payload);
    hide Take;
    if |c2.ooo| > 0 && c2.oooSeq == c2.rcvNxt {
      TakeEffect(c2, c2.ooo);
      AddMod(c.rcvNxt + (|c2.rcv| - |c.rcv|), |TakeOoo(c2).rcv| - |c2.rcv|);
    }
  }

  lemma TakeEffect(c: Conn, bytes: seq<u8>)
    requires Sizes(c)
    ensures
      var room := 1024 - |c.rcv|;
      var n := if |bytes| <= room then |bytes| else room;
      Take(c, bytes) == c.(rcv := c.rcv + bytes[..n], rcvNxt := (c.rcvNxt + n) % 0x1_0000_0000)
  {
    WrapIsMod(c.rcvNxt + Min(|bytes|, BUF_SIZE - |c.rcv|));
    hide Wrap;
  }

  /** A segment ahead of rcv_nxt is parked when it is one segment long and the slot is free or holds a
      later one; it is answered with the number still wanted. */
  lemma AheadEffect(c: Conn, s: Segment, now: u64)
    requires Sizes(c) && c.state == Established && !s.rst && !s.fin && |s.payload| > 0
    requires 0 < (s.seqNo - c.rcvNxt) % 0x1_0000_0000 < 0x8000_0000
    ensures
      var (d, o) := Input(c, s, now);
      var parks := |s.payload| <= 536 && (|c.ooo| == 0 || s.seqNo < c.oooSeq);
      && d.rcv == c.rcv && d.rcvNxt == c.rcvNxt
      && d.ooo == (if parks then s.payload else c.ooo) && d.oooSeq == (if parks then s.seqNo else c.oooSeq)
      && d.state == Established && Acknowledges(o, d)
  {
    AckLeavesRecv(c, s, now);
    WrapIsMod(s.seqNo - c.rcvNxt);
    hide AckStep, Wrap;
  }

  /** A segment behind rcv_nxt is dropped and answered. */
  lemma BehindEffect(c: Conn, s: Segment, now: u64)
    requires Sizes(c) && c.state == Established && !s.rst && !s.fin && |s.payload| > 0
    requires (s.seqNo - c.rcvNxt) % 0x1_0000_0000 >= 0x8000_0000
    ensures
      var (d, o) := Input(c, s, now);
      && d.rcv == c.rcv && d.rcvNxt == c.rcvNxt && d.ooo == c.ooo && d.oooSeq == c.oooSeq
      && d.state == Established && Acknowledges(o, d)
  {
    AckLeavesRecv(c, s, now);
    WrapIsMod(s.seqNo - c.rcvNxt);
    hide AckStep, Wrap;
  }

  /** A FIN, whatever its number, closes the receiving direction behind its own payload. */
  lemma FinEffect(c: Conn, s: Segment, now: u64)
    requires Sizes(c) && c.state == Established && !s.rst && s.fin
    ensures
      var (d, o) := Input(c, s, now);
      && d.state == CloseWait && d.rcvNxt == (s.seqNo + |s.payload| + 1) % 0x1_0000_0000 && Acknowledges(o, d)
  {
    AckLeavesRecv(c, s, now);
    WrapIsMod(s.seqNo + |s.payload| + 1);
    hide AckStep, DataStep, Wrap;
  }

  /** A segment with neither payload nor FIN is only an acknowledgement. */
  lemma BareEffect(c: Conn, s: Segment, now: u64)
    requires Sizes(c) && c.state == Established && !s.rst && !s.fin && s.payload == []
    ensures Input(c, s, now) == AckStep(c, s, now)
  {
    AckLeavesRecv(c, s, now);
    var o := AckStep(c, s, now).1;
    assert o + [] + [] == o;
    hide AckStep;
  }

  // ---------------------------------------------------------------- the retransmission timer

  /** The timer fires exactly when something is queued and as long as the timeout has passed since it
      was: it then sends again everything in flight, from snd_una on, closes the window to one segment
      and doubles the timeout. */
  lemma TimeoutEffect(c: Conn, now: u64)
    requires c.state == Established && InFlight(c) <= |c.snd|
    ensures
      var f := (c.sndNxt - c.sndUna) % 0x1_0000_0000;
      var wait := if c.rto == 0 then 1000 else c.rto;
      var half := if c.cwnd / 2 > 1072 then c.cwnd / 2 else 1072;
      var twice := 2 * c.rto % 0x1_0000_0000;
      var (d, o) := Tick(c, now);
      if |c.snd| > 0 && c.sndOldest != 0 && (now - c.sndOldest) % 0x1_0000_0000_0000_0000 >= wait then
        && f <= |c.snd| && Carries(o, c.sndUna, c.rcvNxt, c.snd[..f]) && Payloads(o) == c.snd[..f] && (|o| > 0 <==> f > 0)
        && d == c.(sndOldest := now, probing := false, ssthresh := half, cwnd := 536,
                   rto := if twice > 5000 then 5000 else twice)
      else d == c && o == []
  {
    WrapIsMod(c.sndNxt - c.sndUna);
    WrapIsMod(c.rto * 2);
    hide Wrap, Chunks;
    var f := (c.sndNxt - c.sndUna) % 0x1_0000_0000;
    ChunksCarry(c.sndUna, c.rcvNxt, c.snd[..f]);
    CarriesJoined(Chunks(c.sndUna, c.rcvNxt, c.snd[..f]), c.sndUna, c.rcvNxt, c.snd[..f]);
  }

  // ---------------------------------------------------------------- opening

  /** A block as it starts: one SYN out at its initial number, empty buffers, a window of one segment. */
  predicate Starts(c: Conn, iss: u32, rcvNxt: u32, now: u64) {
    && c.sndUna == iss && c.sndNxt == (iss + 1) % 0x1_0000_0000 && c.rcvNxt == rcvNxt && c.synSentAt == now
    && c.retries == 0 && c.snd == c.rcv == c.ooo == [] && c.cwnd == 536 && c.ssthresh == 65535 && c.rto == 1000
    && c.srtt == 0 && !c.probing && c.dupAcks == 0 && c.sndOldest == 0
  }

  lemma ConnectEffect(now: u64)
    ensures
      var (c, o) := Connect(now);
      var iss := now % 0x1_0000_0000;
      && c.state == SynSent && Starts(c, iss, 0, now)
      && o == [Segment(true, false, false, false, iss, 0, [])]
  {
    WrapIsMod(now);
    WrapIsMod(Wrap(now) + 1);
    hide Wrap;
  }

  /** A listener answers a plain SYN with a child block, and nothing else but with a reset. */
  lemma ListenEffect(c: Conn, s: Segment, now: u64)
    requires Sizes(c) && c.state == Listen
    ensures
      var (d, o) := Input(c, s, now);
      var iss, next := now % 0x1_0000_0000, (s.seqNo + 1) % 0x1_0000_0000;
      if s.syn && !s.ack && !s.rst then
        d.state == SynReceived && Starts(d, iss, next, now) && o == [Segment(true, true, false, false, iss, next, [])]
      else d == c && Refuses(o, s)
  {
    WrapIsMod(now);
    WrapIsMod(s.seqNo + 1);
    WrapIsMod(Wrap(now) + 1);
    RefuseEffect(s);
    hide Wrap, RstReply;
  }

  /** The answer to a segment nobody wants: nothing to a reset, a reset at the number it acknowledges,
      or one that acknowledges all of it. */
  predicate Refuses(o: seq<Segment>, s: Segment) {
    var len := |s.payload| + (if s.syn then 1 else 0) + (if s.fin then 1 else 0);
    o == if s.rst then []
         else if s.ack then [Segment(false, false, true, false, s.ackNo, 0, [])]
         else [Segment(false, true, true, false, 0, (s.seqNo + len) % 0x1_0000_0000, [])]
  }

  lemma RefuseEffect(s: Segment)
    ensures Refuses(RstReply(s), s)
  {
    WrapIsMod(s.seqNo + |s.payload| + (if s.syn then 1 else 0) + (if s.fin then 1 else 0));
    hide Wrap;
  }

  /** A closed block refuses everything; any other but a listener is closed by a reset. */
  lemma ClosedEffect(c: Conn, s: Segment, now: u64)
    requires Sizes(c) && (c.state == Closed || (s.rst && c.state != Listen))
    ensures
      var (d, o) := Input(c, s, now);
      if c.state == Closed then d == c && Refuses(o, s) else d == c.(state := Closed) && o == []
  {
    RefuseEffect(s);
    hide RstReply;
  }

  /** The connecting end comes up on the SYN-ACK of its SYN and answers it; a SYN-ACK of another number
      or a plain SYN resets the attempt; the rest is ignored. */
  lemma SynSentEffect(c: Conn, s: Segment, now: u64)
    requires Sizes(c) && c.state == SynSent && !s.rst
    ensures
      var (d, o) := Input(c, s, now);
      var next := (s.seqNo + 1) % 0x1_0000_0000;
      if s.syn && s.ack && s.ackNo == c.sndNxt then
        d == c.(sndUna := c.sndNxt, rcvNxt := next, state := Established)
        && o == [Segment(false, true, false, false, c.sndNxt, next, [])]
      else if s.syn then
        d == c.(state := Closed)
        && o == [Segment(false, false, true, false, if s.ack then s.ackNo else c.sndNxt, 0, [])]
      else d == c && o == []
  {
    WrapIsMod(s.seqNo + 1);
    hide Wrap;
  }

  /** The accepting end comes up on the acknowledgement of its SYN-ACK, which it repeats for a SYN. */
  lemma SynReceivedEffect(c: Conn, s: Segment, now: u64)
    requires Sizes(c) && c.state == SynReceived && !s.rst
    ensures
      var (d, o) := Input(c, s, now);
      if s.ack && s.ackNo == c.sndNxt then d == c.(sndUna := c.sndNxt, state := Established) && o == []
      else d == c && o == if s.syn then [Segment(true, true, false, false, c.sndUna, c.rcvNxt, [])] else []
  {}
}
