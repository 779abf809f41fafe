/** The transport of kernel/tcp.c for one connection: what each entry point does to a
    transmission control block, first as functions on values (module TcpSpec), then as the
    in-place code over the block's fields and its three byte buffers (module Tcp). */
module TcpSpec {
  import opened Words

  const MSS := 536
  const BUF_SIZE := 1024
  const SYN_RETRY_MAX := 3
  const DATA_RTO_MS := 1000
  const RTO_MIN_MS := 200
  const RTO_MAX_MS := 5000
  const DUP_ACK_THRESH := 3
  const INIT_SSTHRESH := 65535

  /** CLOSED also stands for an inactive slot: the source clears `active` exactly when it
      sets CLOSED. */
  datatype State = Closed | Listen | SynSent | SynReceived | Established | CloseWait

  datatype Segment = Segment(syn: bool, ack: bool, rst: bool, fin: bool,
                             seqNo: u32, ackNo: u32, payload: seq<u8>)

  /** A control block together with the used parts of its buffers.  Time is in milliseconds.
      The congestion window is a mathematical integer. */
  datatype Conn = Conn(
    state: State, sndNxt: u32, sndUna: u32, rcvNxt: u32,
    synSentAt: u64, retries: nat,
    srtt: u32, rttvar: u32, rto: u32, probing: bool, probeSeq: u32, probeAt: u64,
    lastAck: u32, dupAcks: u8, cwnd: nat, ssthresh: nat,
    snd: seq<u8>, sndOldest: u64,
    rcv: seq<u8>,
    ooo: seq<u8>, oooSeq: u32)

  /** The 32-bit word congruent to x: unsigned arithmetic of the source. */
  function Wrap(x: int): (w: u32)
    decreases x < 0, if x < 0 then -x else x
  {
    if x < 0 then Wrap(x + 0x1_0000_0000)
    else if x >= 0x1_0000_0000 then Wrap(x - 0x1_0000_0000)
    else x
  }

  lemma {:induction false} WrapIsMod(x: int)
    ensures Wrap(x) == x % 0x1_0000_0000
    decreases x < 0, if x < 0 then -x else x
  {
    if x < 0 {
      WrapIsMod(x + 0x1_0000_0000);
    } else if x >= 0x1_0000_0000 {
      WrapIsMod(x - 0x1_0000_0000);
    }
  }

  /** (int32_t)x > 0 for a 32-bit word. */
  predicate SignedPositive(x: u32) {
    0 < x < 0x8000_0000
  }

  function Min(a: int, b: int): int {
    if a < b then a else b
  }

  function Max(a: int, b: int): int {
    if a > b then a else b
  }

  function InFlight(c: Conn): u32 {
    Wrap(c.sndNxt - c.sndUna)
  }

  predicate Sizes(c: Conn) {
    |c.snd| <= BUF_SIZE && |c.rcv| <= BUF_SIZE && |c.ooo| <= MSS && c.retries <= SYN_RETRY_MAX && c.cwnd > 0
  }

  // ---------------------------------------------------------------- segments

  function Control(syn: bool, ack: bool, rst: bool, seqNo: u32, ackNo: u32): Segment {
    Segment(syn, ack, rst, false, seqNo, ackNo, [])
  }

  function AckOnly(c: Conn): Segment {
    Control(false, true, false, c.sndNxt, c.rcvNxt)
  }

  function Data(seqNo: u32, ackNo: u32, payload: seq<u8>): Segment {
    Segment(false, true, false, false, seqNo, ackNo, payload)
  }

  /** A run of bytes cut into segments of at most MSS bytes. */
  function Chunks(seqNo: u32, ackNo: u32, bytes: seq<u8>): seq<Segment>
    decreases |bytes|
  {
    if |bytes| == 0 then []
    else
      var n := Min(|bytes|, MSS);
      [Data(seqNo, ackNo, bytes[..n])] + Chunks(Wrap(seqNo + n), ackNo, bytes[n..])
  }

  // ---------------------------------------------------------------- opening

  function Fresh(state: State, iss: u32, rcvNxt: u32, now: u64): Conn {
    Conn(state, Wrap(iss + 1), iss, rcvNxt, now, 0,
         0, 0, DATA_RTO_MS, false, 0, 0, 0, 0, MSS, INIT_SSTHRESH, [], 0, [], [], 0)
  }

  /** tcp_connect: the initial sequence number is the clock. */
  function Connect(now: u64): (Conn, seq<Segment>) {
    (Fresh(SynSent, Wrap(now), 0, now), [Control(true, false, false, Wrap(now), 0)])
  }

  /** The child block a listener creates for a SYN. */
  function AcceptSyn(s: Segment, now: u64): (Conn, seq<Segment>) {
    var c := Fresh(SynReceived, Wrap(now), Wrap(s.seqNo + 1), now);
    (c, [Control(true, true, false, c.sndUna, c.rcvNxt)])
  }

  /** send_rst_reply, for a segment that matches no block. */
  function RstReply(s: Segment): seq<Segment> {
    if s.rst then []
    else if s.ack then [Control(false, false, true, s.ackNo, 0)]
    else [Control(false, true, true, 0,
                  Wrap(s.seqNo + |s.payload| + (if s.syn then 1 else 0) + (if s.fin then 1 else 0)))]
  }

  // ---------------------------------------------------------------- sending

  /** How many queued bytes the congestion window lets out now. */
  function Emittable(c: Conn): nat {
    var f := InFlight(c);
    if c.state != Established || f >= |c.snd| || c.cwnd <= f then 0
    else Min(|c.snd| - f, c.cwnd - f)
  }

  function Arm(c: Conn, now: u64): Conn {
    if c.probing then c else c.(probing := true, probeSeq := c.sndNxt, probeAt := now)
  }

  function TryEmit(c: Conn, now: u64): (Conn, seq<Segment>) {
    var n := Emittable(c);
    if n == 0 then (c, [])
    else
      var f := InFlight(c);
      (Arm(c, now).(sndNxt := Wrap(c.sndNxt + n)), Chunks(c.sndNxt, c.rcvNxt, c.snd[f..f + n]))
  }

  /** How many bytes tcp_send takes: none (-1) outside ESTABLISHED. */
  function Accepted(c: Conn, data: seq<u8>): int
    requires Sizes(c)
  {
    if c.state != Established then -1 else Min(|data|, BUF_SIZE - |c.snd|)
  }

  function Send(c: Conn, data: seq<u8>, now: u64): (Conn, seq<Segment>)
    requires Sizes(c)
  {
    var n := Accepted(c, data);
    if n <= 0 then (c, [])
    else TryEmit(c.(snd := c.snd + data[..n], sndOldest := if c.sndOldest == 0 then now else c.sndOldest), now)
  }

  /** How many bytes tcp_recv hands over: none (-1) for an inactive slot. */
  function Delivered(c: Conn, max: nat): int {
    if c.state == Closed then -1 else Min(|c.rcv|, max)
  }

  function Recv(c: Conn, max: nat): Conn {
    if Delivered(c, max) <= 0 then c else c.(rcv := c.rcv[Delivered(c, max)..])
  }

  // ---------------------------------------------------------------- input

  function Rto(srtt: u32, rttvar: u32): u32 {
    Max(RTO_MIN_MS, Min(RTO_MAX_MS, Wrap(srtt + 4 * rttvar)))
  }

  function RttSample(c: Conn, ms: u32): Conn {
    var s: u32 := if ms == 0 then 1 else ms;
    if c.srtt == 0 then c.(srtt := s, rttvar := s / 2, rto := Rto(s, s / 2))
    else
      var diff := if c.srtt > s then c.srtt - s else s - c.srtt;
      var rv: u32 := Wrap(3 * c.rttvar + diff) / 4;
      var sr: u32 := Wrap(7 * c.srtt + s) / 8;
      c.(rttvar := rv, srtt := sr, rto := Rto(sr, rv))
  }

  /** None of the sums of rtt_sample passes 32 bits. */
  predicate RttFits(c: Conn, s: u32) {
    if c.srtt == 0 then s + 4 * (s / 2) < 0x1_0000_0000
    else
      var diff := if c.srtt > s then c.srtt - s else s - c.srtt;
      && 3 * c.rttvar + diff < 0x1_0000_0000 && 7 * c.srtt + s < 0x1_0000_0000
      && (7 * c.srtt + s) / 8 + 4 * ((3 * c.rttvar + diff) / 4) < 0x1_0000_0000
  }

  /** The estimates and the clamped timeout in whole numbers. */
  predicate RttExact(c: Conn, d: Conn, s: u32) {
    var diff := if c.srtt > s then c.srtt - s else s - c.srtt;
    && d.srtt == (if c.srtt == 0 then s else (7 * c.srtt + s) / 8)
    && d.rttvar == (if c.srtt == 0 then s / 2 else (3 * c.rttvar + diff) / 4)
    && d.rto == (if d.srtt + 4 * d.rttvar < 200 then 200 else if d.srtt + 4 * d.rttvar > 5000 then 5000
                 else d.srtt + 4 * d.rttvar)
  }

  /** Where the sums fit, the smoothed estimate lies between the old one and the sample, the
      deviation between the old one and the distance of the two, and the timeout is their clamped
      sum. */
  lemma RttSampleExact(c: Conn, ms: u32)
    requires RttFits(c, if ms == 0 then 1 else ms)
    ensures
      var s := if ms == 0 then 1 else ms;
      var d := RttSample(c, ms);
      var diff := if c.srtt > s then c.srtt - s else s - c.srtt;
      && RttExact(c, d, s)
      && (c.srtt != 0 ==> Min(c.srtt, s) <= d.srtt <= Max(c.srtt, s))
      && (c.srtt != 0 ==> Min(c.rttvar, diff) <= d.rttvar <= Max(c.rttvar, diff))
  {
    var s := if ms == 0 then 1 else ms;
    RttWhole(c, ms);
    Between(c.srtt, s, 7);
    Between(c.rttvar, if c.srtt > s then c.srtt - s else s - c.srtt, 3);
    hide RttSample, RttFits;
  }

  lemma RttWhole(c: Conn, ms: u32)
    requires RttFits(c, if ms == 0 then 1 else ms)
    ensures RttExact(c, RttSample(c, ms), if ms == 0 then 1 else ms)
  {}

  /** A weighted mean of two numbers, rounded down, lies between them. */
  lemma Between(x: nat, y: nat, k: nat)
    requires k == 7 || k == 3
    ensures Min(x, y) <= (k * x + y) / (k + 1) <= Max(x, y)
  {}

  /** The estimates are the whole-number ones exactly when their own two sums fit. */
  lemma RttEstimatesIff(c: Conn, s: u32)
    requires c.srtt != 0 && s != 0
    ensures
      var d := RttSample(c, s);
      var diff := if c.srtt > s then c.srtt - s else s - c.srtt;
      && (d.srtt == (7 * c.srtt + s) / 8 <==> 7 * c.srtt + s < 0x1_0000_0000)
      && (d.rttvar == (3 * c.rttvar + diff) / 4 <==> 3 * c.rttvar + diff < 0x1_0000_0000)
  {
    var diff := if c.srtt > s then c.srtt - s else s - c.srtt;
    WrapSmaller(7 * c.srtt + s);
    WrapSmaller(3 * c.rttvar + diff);
    hide Wrap;
  }

  lemma {:induction false} WrapSmaller(x: nat)
    ensures x < 0x1_0000_0000 ==> Wrap(x) == x
    ensures x >= 0x1_0000_0000 ==> Wrap(x) <= x - 0x1_0000_0000
    decreases x
  {
    if x >= 0x1_0000_0000 {
      WrapSmaller(x - 0x1_0000_0000);
    }
  }

  /** Samples and estimates below 2^29 ms, six days, never wrap, and the estimates stay below it:
      from a fresh block on, every run of such samples is exact. */
  lemma RttStaysInRange(c: Conn, ms: u32)
    requires c.srtt < 0x2000_0000 && c.rttvar < 0x2000_0000 && ms < 0x2000_0000
    ensures RttFits(c, if ms == 0 then 1 else ms)
    ensures RttSample(c, ms).srtt < 0x2000_0000 && RttSample(c, ms).rttvar < 0x2000_0000
  {}

  function Grow(c: Conn): Conn
    requires c.cwnd > 0
  {
    if c.cwnd < c.ssthresh then c.(cwnd := c.cwnd + MSS)
    else c.(cwnd := c.cwnd + Max(1, (MSS * MSS) / c.cwnd))
  }

  /** The probe is answered: take a round-trip sample. */
  function Probe(c: Conn, ackNo: u32, now: u64): Conn {
    if c.probing && SignedPositive(Wrap(ackNo - c.probeSeq))
    then RttSample(c, Wrap(now - c.probeAt)).(probing := false) else c
  }

  function Slide(c: Conn, acked: nat, now: u64): Conn
    requires acked <= |c.snd|
  {
    c.(snd := c.snd[acked..], sndOldest := if acked == |c.snd| then 0 else now)
  }

  /** Bytes up to ackNo are acknowledged and leave the send buffer. */
  function Acked(c: Conn, ackNo: u32, now: u64): (d: Conn)
    requires Sizes(c) && 0 < Wrap(ackNo - c.sndUna) <= |c.snd|
    ensures Sizes(d)
  {
    var p := Probe(c, ackNo, now);
    Slide(p, Wrap(ackNo - c.sndUna), now).(sndUna := ackNo, dupAcks := 0, lastAck := ackNo)
  }

  function NewAck(c: Conn, ackNo: u32, now: u64): (Conn, seq<Segment>)
    requires Sizes(c) && 0 < Wrap(ackNo - c.sndUna) <= |c.snd|
  {
    TryEmit(Grow(Acked(c, ackNo, now)), now)
  }

  function Halve(c: Conn): nat {
    Max(c.cwnd / 2, 2 * MSS)
  }

  function CountDup(c: Conn, ackNo: u32): Conn {
    if ackNo == c.lastAck then c.(dupAcks := (c.dupAcks + 1) % 0x100)
    else c.(dupAcks := 1, lastAck := ackNo)
  }

  function DupAck(c: Conn, ackNo: u32): (Conn, seq<Segment>) {
    var d := CountDup(c, ackNo);
    if d.dupAcks == DUP_ACK_THRESH then
      (d.(ssthresh := Halve(c), cwnd := Halve(c)),
       [Data(c.sndUna, c.rcvNxt, c.snd[..Min(|c.snd|, MSS)])])
    else (d, [])
  }

  function AckStep(c: Conn, s: Segment, now: u64): (r: (Conn, seq<Segment>))
    requires Sizes(c)
    ensures Sizes(r.0)
  {
    var newly := Wrap(s.ackNo - c.sndUna);
    if !s.ack then (c, [])
    else if 0 < newly <= |c.snd| then NewAck(c, s.ackNo, now)
    else if newly == 0 && |c.snd| > 0 && |s.payload| == 0 && !s.syn && !s.fin then DupAck(c, s.ackNo)
    else (c, [])
  }

  /** In-order bytes go to the receive buffer as far as they fit. */
  function Take(c: Conn, bytes: seq<u8>): Conn
    requires Sizes(c)
  {
    var n := Min(|bytes|, BUF_SIZE - |c.rcv|);
    c.(rcv := c.rcv + bytes[..n], rcvNxt := Wrap(c.rcvNxt + n))
  }

  function TakeOoo(c: Conn): Conn
    requires Sizes(c)
  {
    if |c.ooo| > 0 && c.oooSeq == c.rcvNxt then Take(c, c.ooo).(ooo := []) else c
  }

  function Park(c: Conn, s: Segment): Conn {
    if |s.payload| <= MSS && (|c.ooo| == 0 || s.seqNo < c.oooSeq)
    then c.(ooo := s.payload, oooSeq := s.seqNo) else c
  }

  function DataStep(c: Conn, s: Segment): (r: (Conn, seq<Segment>))
    requires Sizes(c)
    ensures Sizes(r.0)
  {
    if |s.payload| == 0 then (c, [])
    else
      var d := if s.seqNo == c.rcvNxt then TakeOoo(Take(c, s.payload))
               else if SignedPositive(Wrap(s.seqNo - c.rcvNxt)) then Park(c, s)
               else c;
      (d, [AckOnly(d)])
  }

  function FinStep(c: Conn, s: Segment): (Conn, seq<Segment>) {
    if !s.fin then (c, [])
    else
      var d := c.(rcvNxt := Wrap(s.seqNo + |s.payload| + 1));
      (d.(state := CloseWait), [AckOnly(d)])
  }

  function EstablishedStep(c: Conn, s: Segment, now: u64): (Conn, seq<Segment>)
    requires Sizes(c)
  {
    var (c1, o1) := AckStep(c, s, now);
    var (c2, o2) := DataStep(c1, s);
    var (c3, o3) := FinStep(c2, s);
    (c3, o1 + o2 + o3)
  }

  function SynReceivedStep(c: Conn, s: Segment): (Conn, seq<Segment>) {
    if s.ack && s.ackNo == c.sndNxt then (c.(sndUna := s.ackNo, state := Established), [])
    else if s.syn then (c, [Control(true, true, false, c.sndUna, c.rcvNxt)])
    else (c, [])
  }

  function SynSentStep(c: Conn, s: Segment): (Conn, seq<Segment>) {
    if s.syn && s.ack then
      if s.ackNo != c.sndNxt then (c.(state := Closed), [Control(false, false, true, s.ackNo, 0)])
      else
        var d := c.(sndUna := s.ackNo, rcvNxt := Wrap(s.seqNo + 1), state := Established);
        (d, [AckOnly(d)])
    else if s.syn then (c.(state := Closed), [Control(false, false, true, c.sndNxt, 0)])
    else (c, [])
  }

  /** tcp_input, once the frame is decoded.  A listener answers a plain SYN with a child block. */
  function Input(c: Conn, s: Segment, now: u64): (Conn, seq<Segment>)
    requires Sizes(c)
  {
    if c.state == Closed then (c, RstReply(s))
    else if c.state == Listen then
      if s.syn && !s.ack && !s.rst then AcceptSyn(s, now) else (c, RstReply(s))
    else if s.rst then (c.(state := Closed), [])
    else match c.state
      case SynReceived => SynReceivedStep(c, s)
      case SynSent => SynSentStep(c, s)
      case Established => EstablishedStep(c, s, now)
      case _ => (c, [])
  }

  // ---------------------------------------------------------------- timers

  function SynTick(c: Conn, now: u64): (Conn, seq<Segment>) {
    if (now - c.synSentAt) % 0x1_0000_0000_0000_0000 < 1000 * Pow2(c.retries) then (c, [])
    else if c.retries >= SYN_RETRY_MAX then (c.(state := Closed), [])
    else (c.(retries := c.retries + 1, synSentAt := now), [Control(true, false, false, c.sndUna, 0)])
  }

  /** The retransmission timer of an established connection has expired. */
  predicate RtoExpired(c: Conn, now: u64) {
    var rto := if c.rto == 0 then DATA_RTO_MS else c.rto;
    c.state == Established && |c.snd| > 0 && c.sndOldest != 0 && (now - c.sndOldest) % 0x1_0000_0000_0000_0000 >= rto
  }

  function RtoTick(c: Conn, now: u64): (Conn, seq<Segment>)
    requires InFlight(c) <= |c.snd|
  {
    (c.(sndOldest := now, probing := false, ssthresh := Halve(c), cwnd := MSS,
        rto := Min(RTO_MAX_MS, Wrap(c.rto * 2))),
     Chunks(c.sndUna, c.rcvNxt, c.snd[..InFlight(c)]))
  }

  function Tick(c: Conn, now: u64): (Conn, seq<Segment>)
    requires RtoExpired(c, now) ==> InFlight(c) <= |c.snd|
  {
    if c.state == SynSent then SynTick(c, now)
    else if RtoExpired(c, now) then RtoTick(c, now)
    else (c, [])
  }
}
