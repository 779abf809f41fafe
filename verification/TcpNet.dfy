/** Two ends of one connection over a network that may lose, duplicate and reorder segments,
    and the invariant that every step of that system keeps.

    A segment once sent stays in its direction's set: delivering it removes nothing
    (duplication), any member may be delivered next (reordering), and a member need never
    be delivered (loss).  Sequence numbers are the source's 32-bit words and wrap; a run
    carries fewer than 2^31 bytes each way. */
module TcpNet {
  import opened Words
  import opened TcpSpec

  const STREAM_LIMIT := 0x8000_0000

  /** One end: its block, its initial sequence number, the bytes its application has passed
      to tcp_send and received from tcp_recv, and whether it has been ESTABLISHED. */
  datatype Side = Side(conn: Conn, iss: u32, sent: seq<u8>, got: seq<u8>, up: bool)

  /** `syns` counts the plain SYN segments the connecting end has sent. */
  datatype Sys = Sys(a: Side, b: Side, ab: set<Segment>, ba: set<Segment>, syns: nat)

  datatype End = ConnectingEnd | ListeningEnd

  datatype Event =
    | AppSend(data: seq<u8>, now: u64)
    | AppRecv(max: nat)
    | Deliver(seg: Segment, at: u64)
    | Timer(time: u64)

  // ---------------------------------------------------------------- steps

  /** The source's timer reads the bytes in flight out of the send buffer, so it is defined
      when they are in it; TimerIsDefined shows that every reachable state is of this kind. */
  predicate TimerDefined(c: Conn, now: u64) {
    RtoExpired(c, now) ==> InFlight(c) <= |c.snd|
  }

  function StepConn(x: Side, e: Event): (Conn, seq<Segment>)
    requires Sizes(x.conn)
  {
    match e
    case AppSend(data, now) => Send(x.conn, data, now)
    case AppRecv(max) => (Recv(x.conn, max), [])
    case Deliver(seg, now) => Input(x.conn, seg, now)
    case Timer(now) => if TimerDefined(x.conn, now) then Tick(x.conn, now) else (x.conn, [])
  }

  function StepSide(x: Side, e: Event): Side
    requires Sizes(x.conn)
  {
    var c := StepConn(x, e).0;
    Side(c,
         if x.conn.state == Listen && c.state == SynReceived then c.sndUna else x.iss,
         if e.AppSend? && Accepted(x.conn, e.data) > 0 then x.sent + e.data[..Accepted(x.conn, e.data)] else x.sent,
         if e.AppRecv? && Delivered(x.conn, e.max) > 0 then x.got + x.conn.rcv[..Delivered(x.conn, e.max)] else x.got,
         x.up || c.state == Established)
  }

  function Segments(xs: seq<Segment>): set<Segment> {
    set s | s in xs
  }

  predicate PlainSyn(s: Segment) {
    s.syn && !s.ack && !s.rst
  }

  function CountSyns(xs: seq<Segment>): nat {
    if |xs| == 0 then 0 else (if PlainSyn(xs[0]) then 1 else 0) + CountSyns(xs[1..])
  }

  function Step(s: Sys, who: End, e: Event): Sys
    requires Sizes(s.a.conn) && Sizes(s.b.conn)
  {
    if who == ConnectingEnd then
      var out := StepConn(s.a, e).1;
      s.(a := StepSide(s.a, e), ab := s.ab + Segments(out), syns := s.syns + CountSyns(out))
    else
      s.(b := StepSide(s.b, e), ba := s.ba + Segments(StepConn(s.b, e).1))
  }

  /** One connection incarnation: a closed child block is not opened a second time by a late
      SYN.  The application stops before 2^31 bytes. */
  predicate Enabled(s: Sys, who: End, e: Event) {
    var x := if who == ConnectingEnd then s.a else s.b;
    match e
    case AppSend(data, now) => |x.sent| + |data| < STREAM_LIMIT
    case AppRecv(max) => true
    case Deliver(seg, now) =>
      && seg in (if who == ConnectingEnd then s.ba else s.ab)
      && !(who == ListeningEnd && s.b.conn.state == Closed && PlainSyn(seg))
    case Timer(now) => true
  }

  /** The state just after tcp_connect on one end, with the other end listening. */
  function Init(now: u64): Sys {
    var (c, out) := Connect(now);
    Sys(Side(c, Wrap(now), [], [], false),
        Side(Fresh(Listen, 0, 0, 0), 0, [], [], false),
        Segments(out), {}, CountSyns(out))
  }

  type Run = seq<(End, Event)>

  /** The events of a run can happen one after the other, each at its time. */
  ghost predicate Legal(s: Sys, run: Run)
    decreases |run|
  {
    |run| == 0 ||
    (&& Sizes(s.a.conn) && Sizes(s.b.conn)
     && Enabled(s, run[0].0, run[0].1)
     && Legal(Step(s, run[0].0, run[0].1), run[1..]))
  }

  ghost function After(s: Sys, run: Run): Sys
    requires Legal(s, run)
    decreases |run|
  {
    if |run| == 0 then s else After(Step(s, run[0].0, run[0].1), run[1..])
  }

  // ---------------------------------------------------------------- stream positions

  /** The sequence number of an end's first data byte. */
  function Base(x: Side): u32 {
    Wrap(x.iss + 1)
  }

  /** The stream position a sequence number of x stands for. */
  function Pos(x: Side, q: u32): u32 {
    Wrap(q - Base(x))
  }

  function Una(x: Side): u32 {
    if x.up then Pos(x, x.conn.sndUna) else 0
  }

  function Nxt(x: Side): u32 {
    if x.up then Pos(x, x.conn.sndNxt) else 0
  }

  /** How much of x's stream has reached y. */
  function Rcv(x: Side, y: Side): u32 {
    if y.up then Pos(x, y.conn.rcvNxt) else 0
  }

  // ---------------------------------------------------------------- the invariant

  /** The send buffer holds exactly the unacknowledged tail of what was sent. */
  predicate SendOk(c: Conn, base: u32, sent: seq<u8>) {
    var una, nxt := Wrap(c.sndUna - base), Wrap(c.sndNxt - base);
    && una <= nxt <= |sent| < STREAM_LIMIT
    && |sent| == una + |c.snd|
    && c.snd == sent[una..]
    && c.cwnd >= MSS
  }

  /** A full segment, or everything queued, is always in flight. */
  predicate Tight(c: Conn) {
    Min(|c.snd|, MSS) <= InFlight(c)
  }

  predicate RtoOk(c: Conn) {
    RTO_MIN_MS <= c.rto <= RTO_MAX_MS
  }

  predicate Idle(x: Side) {
    x.sent == [] && x.got == [] && x.conn.snd == [] && x.conn.rcv == [] && x.conn.ooo == []
  }

  predicate Local(x: Side) {
    var st := x.conn.state;
    && Sizes(x.conn) && RtoOk(x.conn)
    && st != CloseWait
    && (st == Established ==> x.up)
    && (st == Listen || st == SynSent || st == SynReceived ==> !x.up)
    && (!x.up ==> Idle(x))
    && (st == SynSent || st == SynReceived ==>
          x.conn.sndUna == x.iss && x.conn.sndNxt == Base(x) && x.conn.cwnd == MSS)
    && (x.up ==> SendOk(x.conn, Base(x), x.sent) && Tight(x.conn))
  }

  /** c has received got + c.rcv, a prefix of sent no longer than nxt; what is parked out of
      order is a part of sent too. */
  predicate RecvOk(c: Conn, base: u32, sent: seq<u8>, got: seq<u8>, nxt: u32) {
    var rcv := Wrap(c.rcvNxt - base);
    && rcv <= nxt <= |sent|
    && got + c.rcv == sent[..rcv]
    && (|c.ooo| > 0 ==>
          var o := Wrap(c.oooSeq - base);
          o + |c.ooo| <= nxt && c.ooo == sent[o..o + |c.ooo|])
  }

  predicate Flow(x: Side, y: Side) {
    && Una(x) <= Rcv(x, y) <= Nxt(x) <= |x.sent|
    && (y.up ==> RecvOk(y.conn, Base(x), x.sent, y.got, Nxt(x)))
    && (y.conn.state == SynReceived ==> y.conn.rcvNxt == Base(x))
  }

  /** The payload is the piece of the stream its sequence number says. */
  predicate DataOk(s: Segment, base: u32, sent: seq<u8>, nxt: u32) {
    var p := Wrap(s.seqNo - base);
    |s.payload| <= MSS && nxt <= |sent| && p + |s.payload| <= nxt && s.payload == sent[p..p + |s.payload|]
  }

  /** A segment that x has sent to y. */
  predicate SegOk(s: Segment, x: Side, y: Side) {
    && !s.fin
    && (!s.rst ==>
          && (|s.payload| > 0 ==> x.up && DataOk(s, Base(x), x.sent, Nxt(x)))
          && (s.ack ==> Pos(y, s.ackNo) <= Rcv(y, x))
          && (s.syn ==> s.seqNo == x.iss && |s.payload| == 0))
  }

  ghost predicate Net(x: Side, y: Side, net: set<Segment>) {
    forall s :: s in net ==> SegOk(s, x, y)
  }

  ghost predicate Pair(x: Side, y: Side, out: set<Segment>, back: set<Segment>) {
    && Local(x) && Local(y)
    && Flow(x, y) && Flow(y, x)
    && Net(x, y, out) && Net(y, x, back)
  }

  /** Before the listener has seen a SYN nothing has been acknowledged. */
  ghost predicate Unborn(s: Sys) {
    && !s.a.up
    && (forall t :: t in s.ba ==> t.rst)
  }

  predicate SynBudget(s: Sys) {
    s.syns <= 1 + s.a.conn.retries && s.a.conn.retries <= SYN_RETRY_MAX
  }

  ghost predicate Inv(s: Sys) {
    && Pair(s.a, s.b, s.ab, s.ba)
    && s.a.conn.state != Listen && s.a.conn.state != SynReceived && s.b.conn.state != SynSent
    && (s.b.conn.state == Listen ==> Unborn(s))
    && (s.b.up ==> s.a.up)
    && (forall t :: t in s.ab && !t.rst && t.ack ==> s.a.up)
    && SynBudget(s)
  }

  // ---------------------------------------------------------------- what one step of one end keeps

  /** x may move on to x2, sending `out`, without disturbing the rest of the invariant. */
  ghost predicate Good(x: Side, x2: Side, y: Side, out: seq<Segment>) {
    && Local(x2) && Flow(x2, y) && Flow(y, x2)
    && x2.iss == x.iss
    && (x.up ==> x2.up)
    && x.sent <= x2.sent
    && Nxt(x) <= Nxt(x2)
    && Rcv(y, x) <= Rcv(y, x2)
    && (forall s :: s in out ==> SegOk(s, x2, y))
  }

  lemma GoodSame(x: Side, y: Side)
    requires Local(x) && Flow(x, y) && Flow(y, x)
    ensures Good(x, x, y, [])
  {
    hide Local, Flow;
  }

  lemma SegStays(s: Segment, x: Side, x2: Side, y: Side, out: seq<Segment>)
    requires Local(x) && Good(x, x2, y, out) && SegOk(s, x, y)
    ensures SegOk(s, x2, y)
  {
    if !s.rst && |s.payload| > 0 {
      var p := Pos(x, s.seqNo);
      assert x2.sent[p..p + |s.payload|] == x.sent[p..p + |s.payload|];
    }
  }

  lemma GoodTrans(x: Side, x1: Side, x2: Side, y: Side, o1: seq<Segment>, o2: seq<Segment>)
    requires Local(x1) && Good(x, x1, y, o1) && Good(x1, x2, y, o2)
    ensures Good(x, x2, y, o1 + o2)
  {
    forall s | s in o1 + o2 ensures SegOk(s, x2, y) {
      if s in o1 {
        SegStays(s, x1, x2, y, o2);
      }
    }
  }

  lemma GoodNet(x: Side, x2: Side, y: Side, out: set<Segment>, o: seq<Segment>)
    requires Local(x) && Net(x, y, out) && Good(x, x2, y, o)
    ensures Net(x2, y, out + Segments(o))
  {
    hide SegOk, Local, Flow;
    forall s | s in out + Segments(o) ensures SegOk(s, x2, y) {
      if s in out {
        SegStays(s, x, x2, y, o);
      }
    }
  }

  lemma GoodBack(x: Side, x2: Side, y: Side, back: set<Segment>, o: seq<Segment>)
    requires Net(y, x, back) && Good(x, x2, y, o)
    ensures Net(y, x2, back)
  {
    hide SegOk, Local, Flow, Good;
    forall s | s in back ensures SegOk(s, y, x2) {
      SegStaysForPeer(s, x, x2, y, o);
    }
  }

  /** What y sent stays right for y's peer after the peer's step. */
  lemma SegStaysForPeer(s: Segment, x: Side, x2: Side, y: Side, out: seq<Segment>)
    requires SegOk(s, y, x) && Good(x, x2, y, out)
    ensures SegOk(s, y, x2)
  {
    hide Local, Flow, Wrap, DataOk;
  }

  lemma GoodPair(x: Side, x2: Side, y: Side, out: set<Segment>, back: set<Segment>, o: seq<Segment>)
    requires Pair(x, y, out, back) && Good(x, x2, y, o)
    ensures Pair(x2, y, out + Segments(o), back)
  {
    GoodNet(x, x2, y, out, o);
    GoodBack(x, x2, y, back, o);
    hide SegOk, Local, Flow, Net;
  }

  // ---------------------------------------------------------------- an established end moves on

  predicate SameRecv(c: Conn, d: Conn) {
    d.rcv == c.rcv && d.rcvNxt == c.rcvNxt && d.ooo == c.ooo && d.oooSeq == c.oooSeq
  }

  predicate SameSend(c: Conn, d: Conn) {
    d.snd == c.snd && d.sndUna == c.sndUna && d.sndNxt == c.sndNxt
  }

  /** A data segment or a bare acknowledgement cut from x2's stream. */
  predicate OutOk(s: Segment, x: Side, x2: Side) {
    && s.ack && !s.syn && !s.rst && !s.fin
    && (s.ackNo == x.conn.rcvNxt || s.ackNo == x2.conn.rcvNxt)
    && (|s.payload| > 0 ==> DataOk(s, Base(x), x2.sent, Nxt(x2)))
  }

  /** Growing the stream and the window leaves the receiver where it was. */
  lemma FlowExtends(x: Side, x2: Side, y: Side)
    requires Flow(x, y) && x.iss == x2.iss && x.sent <= x2.sent && x2.up
    requires Una(x2) <= Rcv(x, y) && Nxt(x) <= Nxt(x2) <= |x2.sent|
    ensures Flow(x2, y)
  {
    if y.up {
      RecvExtends(y.conn, Base(x), x.sent, x2.sent, y.got, Nxt(x), Nxt(x2));
    }
  }

  lemma RecvExtends(c: Conn, base: u32, sent: seq<u8>, sent2: seq<u8>, got: seq<u8>, nxt: u32, nxt2: u32)
    requires RecvOk(c, base, sent, got, nxt) && sent <= sent2 && nxt <= nxt2 <= |sent2|
    ensures RecvOk(c, base, sent2, got, nxt2)
  {
    var rcv := Wrap(c.rcvNxt - base);
    assert sent2[..rcv] == sent[..rcv];
    if |c.ooo| > 0 {
      var o := Wrap(c.oooSeq - base);
      assert sent2[o..o + |c.ooo|] == sent[o..o + |c.ooo|];
    }
  }

  /** What is left to show of a step of an end that is up. */
  ghost predicate Moves(x: Side, x2: Side, y: Side, out: seq<Segment>) {
    && x.up && x2.up && x2.iss == x.iss && x.sent <= x2.sent
    && (x2.conn.state == Established || x2.conn.state == Closed)
    && Sizes(x2.conn) && RtoOk(x2.conn)
    && SendOk(x2.conn, Base(x), x2.sent) && Tight(x2.conn)
    && Una(x2) <= Rcv(x, y) && Nxt(x) <= Nxt(x2)
    && RecvOk(x2.conn, Base(y), y.sent, x2.got, Nxt(y)) && Rcv(y, x) <= Rcv(y, x2)
    && (forall s :: s in out ==> OutOk(s, x, x2))
  }

  lemma MovesGood(x: Side, x2: Side, y: Side, out: seq<Segment>)
    requires Flow(x, y) && Flow(y, x) && Moves(x, x2, y, out)
    ensures Good(x, x2, y, out)
  {
    FlowExtends(x, x2, y);
    MovesFlowBack(x, x2, y, out);
    forall s | s in out ensures SegOk(s, x2, y) {
      assert OutOk(s, x, x2);
    }
  }

  /** The parts of a move, each about the block alone. */
  lemma MakeMoves(x: Side, d: Conn, sent: seq<u8>, got: seq<u8>, y: Side, out: seq<Segment>)
    requires x.up && x.sent <= sent && (d.state == Established || d.state == Closed)
    requires Sizes(d) && RtoOk(d)
    requires SendOk(d, Base(x), sent) && Tight(d)
    requires Wrap(d.sndUna - Base(x)) <= Rcv(x, y) && Nxt(x) <= Wrap(d.sndNxt - Base(x))
    requires RecvOk(d, Base(y), y.sent, got, Nxt(y)) && Rcv(y, x) <= Wrap(d.rcvNxt - Base(y))
    requires forall s :: s in out ==>
               && s.ack && !s.syn && !s.rst && !s.fin && (s.ackNo == x.conn.rcvNxt || s.ackNo == d.rcvNxt)
               && (|s.payload| > 0 ==> DataOk(s, Base(x), sent, Wrap(d.sndNxt - Base(x))))
    ensures Moves(x, Side(d, x.iss, sent, got, true), y, out)
  {
    var x2 := Side(d, x.iss, sent, got, true);
    forall s | s in out ensures OutOk(s, x, x2) {}
  }

  /** What an established end knows of itself and its peer. */
  lemma UpFacts(x: Side, y: Side)
    requires Local(x) && Flow(x, y) && Flow(y, x) && (x.up || x.conn.state == Established)
    ensures x.up && Sizes(x.conn) && RtoOk(x.conn) && SendOk(x.conn, Base(x), x.sent) && Tight(x.conn) && x.conn.cwnd >= MSS
    ensures Una(x) == Wrap(x.conn.sndUna - Base(x)) <= Rcv(x, y) <= Nxt(x) == Wrap(x.conn.sndNxt - Base(x))
    ensures RecvOk(x.conn, Base(y), y.sent, x.got, Nxt(y)) && Rcv(y, x) == Wrap(x.conn.rcvNxt - Base(y))
    ensures Side(x.conn, x.iss, x.sent, x.got, true) == x
  {}

  lemma MovesFlowBack(x: Side, x2: Side, y: Side, out: seq<Segment>)
    requires Flow(y, x) && Moves(x, x2, y, out)
    ensures Flow(y, x2)
  {}

  // ---------------------------------------------------------------- sending

  lemma WrapPlus(q: u32, base: u32, n: nat, p: nat)
    requires Wrap(q - base) == p && p + n < M32
    ensures Wrap(Wrap(q + n) - base) == p + n
  {
    WrapIsMod(q - base);
    WrapIsMod(q + n);
    WrapIsMod(Wrap(q + n) - base);
  }

  /** The distance between two sequence numbers, from their stream positions. */
  lemma WrapDiff(q: u32, r: u32, base: u32)
    ensures
      var p, o := Wrap(q - base), Wrap(r - base);
      Wrap(q - r) == if p >= o then p - o else p - o + M32
  {
    WrapIsMod(q - base);
    WrapIsMod(r - base);
    WrapIsMod(q - r);
  }

  lemma InFlightIs(c: Conn, base: u32, sent: seq<u8>)
    requires SendOk(c, base, sent)
    ensures InFlight(c) == Wrap(c.sndNxt - base) - Wrap(c.sndUna - base) <= |c.snd|
  {
    WrapDiff(c.sndNxt, c.sndUna, base);
  }

  /** Cutting a piece of the stream into segments gives segments of the stream. */
  lemma {:induction false} ChunksOk(seqNo: u32, ack: u32, bytes: seq<u8>, base: u32, sent: seq<u8>, nxt: u32)
    requires nxt <= |sent| < STREAM_LIMIT
    requires Wrap(seqNo - base) + |bytes| <= nxt
    requires bytes == sent[Wrap(seqNo - base)..Wrap(seqNo - base) + |bytes|]
    ensures forall s :: s in Chunks(seqNo, ack, bytes) ==>
              s == Data(s.seqNo, ack, s.payload) && DataOk(s, base, sent, nxt)
    decreases |bytes|
  {
    if |bytes| == 0 {
    } else {
      var p := Wrap(seqNo - base);
      var n := Min(|bytes|, MSS);
      WrapPlus(seqNo, base, n, p);
      CutSlice(bytes, sent, p, n);
      ChunksOk(Wrap(seqNo + n), ack, bytes[n..], base, sent, nxt);
    }
  }

  lemma CutSlice(bytes: seq<u8>, sent: seq<u8>, p: nat, n: nat)
    requires p + |bytes| <= |sent| && bytes == sent[p..p + |bytes|] && n <= |bytes|
    ensures bytes[..n] == sent[p..p + n] && bytes[n..] == sent[p + n..p + |bytes|]
  {}

  lemma TryEmitFrame(c: Conn, now: u64)
    ensures
      var d := TryEmit(c, now).0;
      && SameRecv(c, d) && d.snd == c.snd && d.sndUna == c.sndUna && d.state == c.state
      && d.rto == c.rto && d.cwnd == c.cwnd && d.retries == c.retries
      && d.sndNxt == Wrap(c.sndNxt + Emittable(c))
  {}

  /** What try_emit sends is the stream after snd_nxt. */
  lemma TryEmitOut(c: Conn, now: u64, base: u32, sent: seq<u8>)
    requires SendOk(c, base, sent) && c.state == Established
    requires Wrap(c.sndNxt - base) + Emittable(c) <= |sent|
    ensures forall s :: s in TryEmit(c, now).1 ==>
              s == Data(s.seqNo, c.rcvNxt, s.payload) && DataOk(s, base, sent, Wrap(c.sndNxt - base) + Emittable(c))
  {
    hide Wrap;
    var nxt, n := Wrap(c.sndNxt - base), Emittable(c);
    InFlightIs(c, base, sent);
    if n > 0 {
      var f := InFlight(c);
      assert c.snd[f..f + n] == sent[nxt..nxt + n];
      ChunksOk(c.sndNxt, c.rcvNxt, c.snd[f..f + n], base, sent, nxt + n);
    }
  }

  /** try_emit keeps the send buffer consistent and leaves a full segment in flight. */
  lemma TryEmitOk(c: Conn, now: u64, base: u32, sent: seq<u8>)
    requires SendOk(c, base, sent) && c.state == Established
    ensures
      var d := TryEmit(c, now).0;
      && SendOk(d, base, sent) && Tight(d)
      && Wrap(c.sndNxt - base) <= Wrap(d.sndNxt - base)
      && forall s :: s in TryEmit(c, now).1 ==>
           s == Data(s.seqNo, c.rcvNxt, s.payload) && DataOk(s, base, sent, Wrap(d.sndNxt - base))
  {
    hide Wrap;
    InFlightIs(c, base, sent);
    TryEmitFrame(c, now);
    var d, n := TryEmit(c, now).0, Emittable(c);
    WrapPlus(c.sndNxt, base, n, Wrap(c.sndNxt - base));
    TryEmitOut(c, now, base, sent);
    hide TryEmit;
    assert SendOk(d, base, sent);
    InFlightIs(d, base, sent);
  }

  /** Sending from a block that is consistent but for its window. */
  lemma EmitMoves(x: Side, c: Conn, sent: seq<u8>, now: u64, y: Side)
    requires Local(x) && Flow(x, y) && Flow(y, x) && x.conn.state == Established
    requires c.state == Established && Sizes(c) && RtoOk(c) && SameRecv(x.conn, c)
    requires SendOk(c, Base(x), sent) && x.sent <= sent
    requires Wrap(c.sndUna - Base(x)) <= Rcv(x, y) && c.sndNxt == x.conn.sndNxt
    ensures
      var (d, o) := TryEmit(c, now);
      Moves(x, Side(d, x.iss, sent, x.got, true), y, o)
  {
    hide SendOk, RecvOk, DataOk, Tight, Flow, Local, Una, Nxt, Rcv, Pos, Wrap, Moves, TryEmit, DupAck, DataStep, RtoTick;
    UpFacts(x, y);
    TryEmitOk(c, now, Base(x), sent);
    TryEmitFrame(c, now);
    var (d, o) := TryEmit(c, now);
    RecvSame(x.conn, d, Base(y), y.sent, x.got, Nxt(y));
    MakeMoves(x, d, sent, x.got, y, o);
  }

  lemma RecvSame(c: Conn, d: Conn, base: u32, sent: seq<u8>, got: seq<u8>, nxt: u32)
    requires SameRecv(c, d) && RecvOk(c, base, sent, got, nxt)
    ensures RecvOk(d, base, sent, got, nxt)
  {}

  lemma SendSame(c: Conn, d: Conn, base: u32, sent: seq<u8>)
    requires SameSend(c, d) && SendOk(c, base, sent) && Tight(c) && d.cwnd >= MSS
    ensures SendOk(d, base, sent) && Tight(d)
  {}

  function Queue(c: Conn, data: seq<u8>, now: u64): Conn {
    c.(snd := c.snd + data, sndOldest := if c.sndOldest == 0 then now else c.sndOldest)
  }

  lemma QueueOk(c: Conn, data: seq<u8>, now: u64, base: u32, sent: seq<u8>)
    requires SendOk(c, base, sent) && |sent| + |data| < STREAM_LIMIT
    ensures SendOk(Queue(c, data, now), base, sent + data)
  {
    var una := Wrap(c.sndUna - base);
    assert (sent + data)[una..] == sent[una..] + data;
  }

  lemma SendGood(x: Side, y: Side, data: seq<u8>, now: u64)
    requires Local(x) && Flow(x, y) && Flow(y, x)
    requires |x.sent| + |data| < STREAM_LIMIT
    ensures Good(x, StepSide(x, AppSend(data, now)), y, StepConn(x, AppSend(data, now)).1)
  {
    hide Good, Wrap, Flow;
    if Accepted(x.conn, data) > 0 {
      SendGoodTaken(x, y, data, now);
    } else {
      assert StepSide(x, AppSend(data, now)) == x;
      GoodSame(x, y);
    }
  }

  lemma SendGoodTaken(x: Side, y: Side, data: seq<u8>, now: u64)
    requires Local(x) && Flow(x, y) && Flow(y, x) && Accepted(x.conn, data) > 0
    requires |x.sent| + |data| < STREAM_LIMIT
    ensures Good(x, StepSide(x, AppSend(data, now)), y, StepConn(x, AppSend(data, now)).1)
  {
    UpFacts(x, y);
    SendTakes(x, data, now, Accepted(x.conn, data));
    TakenGood(x, y, data[..Accepted(x.conn, data)], now);
    hide *;
  }

  /** Some bytes queued behind the others, and what the window then lets out. */
  lemma TakenGood(x: Side, y: Side, taken: seq<u8>, now: u64)
    requires Local(x) && Flow(x, y) && Flow(y, x) && x.conn.state == Established
    requires |x.sent| + |taken| < STREAM_LIMIT && Sizes(Queue(x.conn, taken, now))
    ensures
      var (d, o) := TryEmit(Queue(x.conn, taken, now), now);
      Good(x, Side(d, x.iss, x.sent + taken, x.got, true), y, o)
  {
    hide SendOk, RecvOk, Tight, Moves, Good, TryEmit, Wrap, Flow, Una, Nxt, Rcv, Pos, Local, Base, Sizes, InFlight;
    UpFacts(x, y);
    var c := Queue(x.conn, taken, now);
    QueueOk(x.conn, taken, now, Base(x), x.sent);
    EmitMoves(x, c, x.sent + taken, now, y);
    var (d, o) := TryEmit(c, now);
    MovesGood(x, Side(d, x.iss, x.sent + taken, x.got, true), y, o);
  }

  lemma SendTakes(x: Side, data: seq<u8>, now: u64, n: int)
    requires Sizes(x.conn) && n == Accepted(x.conn, data) && n > 0
    ensures Sizes(Queue(x.conn, data[..n], now)) && x.conn.state == Established
    ensures
      var (d, o) := TryEmit(Queue(x.conn, data[..n], now), now);
      && StepConn(x, AppSend(data, now)) == (d, o)
      && StepSide(x, AppSend(data, now)) == Side(d, x.iss, x.sent + data[..n], x.got, true)
  {
    TryEmitFrame(Queue(x.conn, data[..n], now), now);
  }

  lemma RecvGood(x: Side, y: Side, max: nat)
    requires Local(x) && Flow(x, y) && Flow(y, x)
    ensures Good(x, StepSide(x, AppRecv(max)), y, [])
  {
    var n := Delivered(x.conn, max);
    var x2 := StepSide(x, AppRecv(max));
    if n > 0 {
      assert x2 == x.(conn := x.conn.(rcv := x.conn.rcv[n..]), got := x.got + x.conn.rcv[..n]);
      assert x.up && x.conn.state == Established;
      ReadMoves(x, y, n);
      MovesGood(x, x2, y, []);
    } else {
      assert x2 == x;
      GoodSame(x, y);
    }
  }

  lemma ReadOk(c: Conn, n: nat, base: u32, sent: seq<u8>, got: seq<u8>, nxt: u32)
    requires RecvOk(c, base, sent, got, nxt) && n <= |c.rcv|
    ensures RecvOk(c.(rcv := c.rcv[n..]), base, sent, got + c.rcv[..n], nxt)
  {
    assert got + c.rcv == (got + c.rcv[..n]) + c.rcv[n..];
  }

  lemma ReadMoves(x: Side, y: Side, n: nat)
    requires Local(x) && Flow(x, y) && Flow(y, x) && x.up && n <= |x.conn.rcv|
    requires x.conn.state == Established
    ensures Moves(x, x.(conn := x.conn.(rcv := x.conn.rcv[n..]), got := x.got + x.conn.rcv[..n]), y, [])
  {
    hide SendOk, RecvOk, DataOk, Tight, Flow, Local, Una, Nxt, Rcv, Pos, Wrap, Moves, TryEmit, DupAck, DataStep, RtoTick;
    UpFacts(x, y);
    var d := x.conn.(rcv := x.conn.rcv[n..]);
    SendSame(x.conn, d, Base(x), x.sent);
    ReadOk(x.conn, n, Base(y), y.sent, x.got, Nxt(y));
    MakeMoves(x, d, x.sent, x.got + x.conn.rcv[..n], y, []);
  }

  /** The timer resends exactly the bytes in flight. */
  lemma RtoOut(c: Conn, now: u64, base: u32, sent: seq<u8>)
    requires SendOk(c, base, sent)
    ensures InFlight(c) <= |c.snd|
    ensures forall s :: s in RtoTick(c, now).1 ==>
              s == Data(s.seqNo, c.rcvNxt, s.payload) && DataOk(s, base, sent, Wrap(c.sndNxt - base))
  {
    InFlightIs(c, base, sent);
    var f, una := InFlight(c), Wrap(c.sndUna - base);
    assert c.snd[..f] == sent[una..una + f];
    ChunksOk(c.sndUna, c.rcvNxt, c.snd[..f], base, sent, Wrap(c.sndNxt - base));
  }

  lemma RtoFrame(c: Conn, now: u64)
    requires Sizes(c) && RtoOk(c) && InFlight(c) <= |c.snd|
    ensures
      var d := RtoTick(c, now).0;
      Sizes(d) && RtoOk(d) && SameSend(c, d) && SameRecv(c, d) && d.cwnd >= MSS && d.state == c.state
  {}

  lemma RtoMoves(x: Side, y: Side, now: u64)
    requires Local(x) && Flow(x, y) && Flow(y, x) && x.conn.state == Established
    ensures InFlight(x.conn) <= |x.conn.snd|
    ensures Moves(x, x.(conn := RtoTick(x.conn, now).0), y, RtoTick(x.conn, now).1)
  {
    hide SendOk, RecvOk, DataOk, Tight, Flow, Local, Una, Nxt, Rcv, Pos, Wrap, Moves, TryEmit, DupAck, DataStep, RtoTick;
    UpFacts(x, y);
    RtoOut(x.conn, now, Base(x), x.sent);
    RtoFrame(x.conn, now);
    var (d, o) := RtoTick(x.conn, now);
    SendSame(x.conn, d, Base(x), x.sent);
    RecvSame(x.conn, d, Base(y), y.sent, x.got, Nxt(y));
    MakeMoves(x, d, x.sent, x.got, y, o);
  }

  lemma TimerGood(x: Side, y: Side, now: u64)
    requires Local(x) && Flow(x, y) && Flow(y, x)
    ensures TimerDefined(x.conn, now)
    ensures Good(x, StepSide(x, Timer(now)), y, StepConn(x, Timer(now)).1)
  {
    if RtoExpired(x.conn, now) {
      RtoMoves(x, y, now);
      TimerIsRto(x, now);
      MovesGood(x, StepSide(x, Timer(now)), y, StepConn(x, Timer(now)).1);
    } else if x.conn.state == SynSent {
      SynTimerGood(x, y, now);
    } else {
      assert StepSide(x, Timer(now)) == x;
      GoodSame(x, y);
    }
  }

  lemma TimerIsRto(x: Side, now: u64)
    requires Sizes(x.conn) && RtoExpired(x.conn, now) && InFlight(x.conn) <= |x.conn.snd| && x.up
    ensures StepConn(x, Timer(now)) == RtoTick(x.conn, now)
    ensures StepSide(x, Timer(now)) == x.(conn := RtoTick(x.conn, now).0)
  {}

  lemma SynTimerGood(x: Side, y: Side, now: u64)
    requires Local(x) && Flow(x, y) && Flow(y, x) && x.conn.state == SynSent
    ensures Good(x, StepSide(x, Timer(now)), y, StepConn(x, Timer(now)).1)
  {
    var (c, o) := SynTick(x.conn, now);
    assert StepSide(x, Timer(now)) == x.(conn := c);
    SynTickShape(x.conn, now);
    DownGood(x, x.(conn := c), y, o);
  }

  lemma SynTickShape(c: Conn, now: u64)
    requires Sizes(c) && c.state == SynSent
    ensures
      var (d, o) := SynTick(c, now);
      && Sizes(d) && SameSend(c, d) && SameRecv(c, d) && d.rto == c.rto && d.cwnd == c.cwnd
      && (d.state == SynSent || d.state == Closed)
      && forall s :: s in o ==> s == Control(true, false, false, c.sndUna, 0)
  {}

  /** What may leave an end that is not up: a SYN of its own, or resets. */
  predicate DownOut(s: Segment, x: Side, y: Side) {
    !s.fin && (!s.rst ==> |s.payload| == 0 && (s.syn ==> s.seqNo == x.iss) && (s.ack ==> s.ackNo == Base(y)))
  }

  /** An end that is not up stays that way. */
  lemma DownGood(x: Side, x2: Side, y: Side, out: seq<Segment>)
    requires Local(x) && Flow(x, y) && Flow(y, x) && !x.up
    requires x2 == x.(conn := x2.conn) && SameSend(x.conn, x2.conn) && SameRecv(x.conn, x2.conn)
    requires Sizes(x2.conn) && x2.conn.rto == x.conn.rto && x2.conn.cwnd == x.conn.cwnd
    requires x2.conn.state == x.conn.state || x2.conn.state == Closed
    requires forall s :: s in out ==> DownOut(s, x, y)
    ensures Good(x, x2, y, out)
  {
    forall s | s in out ensures SegOk(s, x2, y) {
      assert DownOut(s, x, y);
    }
  }

  // ---------------------------------------------------------------- receiving

  lemma AckStepCases(c: Conn, s: Segment, now: u64)
    requires Sizes(c)
    ensures
      var newly := Wrap(s.ackNo - c.sndUna);
      || (s.ack && 0 < newly <= |c.snd| && AckStep(c, s, now) == NewAck(c, s.ackNo, now))
      || (s.ack && AckStep(c, s, now) == DupAck(c, s.ackNo))
      || AckStep(c, s, now) == (c, [])
  {
    hide NewAck, DupAck, Wrap;
  }

  /** A new or repeated acknowledgement of the honest peer. */
  lemma AckMoves(x: Side, y: Side, s: Segment, now: u64)
    requires Local(x) && Flow(x, y) && Flow(y, x) && x.conn.state == Established && Sizes(x.conn)
    requires SegOk(s, y, x) && !s.rst
    ensures Moves(x, x.(conn := AckStep(x.conn, s, now).0), y, AckStep(x.conn, s, now).1)
  {
    AckStepCases(x.conn, s, now);
    assert Sizes(x.conn);
    if s.ack {
      HonestAck(s, x, y);
    }
    hide *;
    var c := x.conn;
    if s.ack && 0 < Wrap(s.ackNo - c.sndUna) <= |c.snd| && AckStep(c, s, now) == NewAck(c, s.ackNo, now) {
      NewAckMoves(x, y, s.ackNo, now);
    } else if s.ack && AckStep(c, s, now) == DupAck(c, s.ackNo) {
      DupAckMoves(x, y, s.ackNo);
    } else {
      StillMoves(x, y);
      assert x.(conn := c) == x;
    }
  }

  lemma HonestAck(s: Segment, x: Side, y: Side)
    requires SegOk(s, y, x) && !s.rst && s.ack
    ensures Pos(x, s.ackNo) <= Rcv(x, y)
  {}

  lemma StillMoves(x: Side, y: Side)
    requires Local(x) && Flow(x, y) && Flow(y, x) && x.conn.state == Established
    ensures Moves(x, x, y, [])
  {
    UpFacts(x, y);
    MakeMoves(x, x.conn, x.sent, x.got, y, []);
  }

  lemma AckedFrame(c: Conn, ackNo: u32, now: u64)
    requires Sizes(c) && RtoOk(c) && 0 < Wrap(ackNo - c.sndUna) <= |c.snd|
    ensures
      var d := Grow(Acked(c, ackNo, now));
      && Sizes(d) && RtoOk(d) && SameRecv(c, d) && d.state == c.state && d.cwnd >= c.cwnd
      && d.sndUna == ackNo && d.sndNxt == c.sndNxt && d.snd == c.snd[Wrap(ackNo - c.sndUna)..]
  {
    var p := Probe(c, ackNo, now);
    assert RtoOk(p) && SameRecv(c, p) && p.snd == c.snd && p.sndNxt == c.sndNxt;
  }

  /** An honest acknowledgement of new data lies between snd_una and snd_nxt. */
  lemma AckedOk(c: Conn, ackNo: u32, now: u64, base: u32, sent: seq<u8>)
    requires Sizes(c) && RtoOk(c) && SendOk(c, base, sent) && 0 < Wrap(ackNo - c.sndUna) <= |c.snd|
    requires Wrap(ackNo - base) <= Wrap(c.sndNxt - base)
    ensures SendOk(Grow(Acked(c, ackNo, now)), base, sent)
  {
    AckedFrame(c, ackNo, now);
    var una, a, newly := Wrap(c.sndUna - base), Wrap(ackNo - base), Wrap(ackNo - c.sndUna);
    WrapDiff(ackNo, c.sndUna, base);
    assert newly == a - una;
    assert sent[una..][newly..] == sent[a..];
  }

  lemma NewAckMoves(x: Side, y: Side, ackNo: u32, now: u64)
    requires Local(x) && Flow(x, y) && Flow(y, x) && x.conn.state == Established
    requires Pos(x, ackNo) <= Rcv(x, y)
    requires 0 < Wrap(ackNo - x.conn.sndUna) <= |x.conn.snd|
    ensures Moves(x, x.(conn := NewAck(x.conn, ackNo, now).0), y, NewAck(x.conn, ackNo, now).1)
  {
    hide SendOk, RecvOk, Tight, Moves, TryEmit, Grow, Acked, Una, Nxt;
    UpFacts(x, y);
    AckedFrame(x.conn, ackNo, now);
    AckedOk(x.conn, ackNo, now, Base(x), x.sent);
    EmitMoves(x, Grow(Acked(x.conn, ackNo, now)), x.sent, now, y);
  }

  lemma DupAckFrame(c: Conn, ackNo: u32)
    requires Sizes(c) && RtoOk(c) && c.cwnd >= MSS
    ensures
      var (d, o) := DupAck(c, ackNo);
      && Sizes(d) && RtoOk(d) && SameRecv(c, d) && SameSend(c, d) && d.state == c.state && d.cwnd >= MSS
      && forall s :: s in o ==> s == Data(c.sndUna, c.rcvNxt, c.snd[..Min(|c.snd|, MSS)])
  {
    var d := CountDup(c, ackNo);
    assert RtoOk(d) && SameRecv(c, d) && SameSend(c, d) && d.cwnd == c.cwnd && Sizes(d);
  }

  /** The third duplicate resends min(snd_len, MSS) bytes: no more than are in flight. */
  lemma DupOut(c: Conn, s: Segment, base: u32, sent: seq<u8>)
    requires SendOk(c, base, sent) && Tight(c)
    requires s == Data(c.sndUna, c.rcvNxt, c.snd[..Min(|c.snd|, MSS)])
    ensures DataOk(s, base, sent, Wrap(c.sndNxt - base))
  {
    InFlightIs(c, base, sent);
    var n, una := Min(|c.snd|, MSS), Wrap(c.sndUna - base);
    assert c.snd[..n] == sent[una..una + n];
  }

  lemma DupAckMoves(x: Side, y: Side, ackNo: u32)
    requires Local(x) && Flow(x, y) && Flow(y, x) && x.conn.state == Established
    ensures Moves(x, x.(conn := DupAck(x.conn, ackNo).0), y, DupAck(x.conn, ackNo).1)
  {
    hide SendOk, RecvOk, DataOk, Tight, Flow, Local, Una, Nxt, Rcv, Pos, Wrap, Moves, TryEmit, DupAck, DataStep, RtoTick;
    UpFacts(x, y);
    var c := x.conn;
    DupAckFrame(c, ackNo);
    var (d, o) := DupAck(c, ackNo);
    SendSame(c, d, Base(x), x.sent);
    RecvSame(c, d, Base(y), y.sent, x.got, Nxt(y));
    forall s | s in o ensures DataOk(s, Base(x), x.sent, Wrap(d.sndNxt - Base(x))) {
      DupOut(c, s, Base(x), x.sent);
    }
    MakeMoves(x, d, x.sent, x.got, y, o);
  }

  /** Taking bytes that are the next of the stream. */
  lemma TakeOk(c: Conn, bytes: seq<u8>, base: u32, sent: seq<u8>, got: seq<u8>, nxt: u32)
    requires Sizes(c) && RecvOk(c, base, sent, got, nxt) && |sent| < STREAM_LIMIT
    requires Wrap(c.rcvNxt - base) + |bytes| <= nxt
    requires bytes == sent[Wrap(c.rcvNxt - base)..Wrap(c.rcvNxt - base) + |bytes|]
    ensures RecvOk(Take(c, bytes), base, sent, got, nxt)
    ensures Wrap(c.rcvNxt - base) <= Wrap(Take(c, bytes).rcvNxt - base)
  {
    hide Wrap;
    var rcv := Wrap(c.rcvNxt - base);
    var n := Min(|bytes|, BUF_SIZE - |c.rcv|);
    WrapPlus(c.rcvNxt, base, n, rcv);
    GrownPrefix(got, c.rcv, bytes, sent, rcv, n);
  }

  lemma GrownPrefix(got: seq<u8>, buf: seq<u8>, bytes: seq<u8>, sent: seq<u8>, rcv: nat, n: nat)
    requires rcv + |bytes| <= |sent| && n <= |bytes| && got + buf == sent[..rcv] && bytes == sent[rcv..rcv + |bytes|]
    ensures got + (buf + bytes[..n]) == sent[..rcv + n]
  {
    assert bytes[..n] == sent[rcv..rcv + n];
    assert got + (buf + bytes[..n]) == (got + buf) + bytes[..n];
    assert sent[..rcv + n] == sent[..rcv] + sent[rcv..rcv + n];
  }

  lemma TakeOooOk(c: Conn, base: u32, sent: seq<u8>, got: seq<u8>, nxt: u32)
    requires Sizes(c) && RecvOk(c, base, sent, got, nxt) && |sent| < STREAM_LIMIT
    ensures RecvOk(TakeOoo(c), base, sent, got, nxt)
    ensures Wrap(c.rcvNxt - base) <= Wrap(TakeOoo(c).rcvNxt - base)
  {
    if |c.ooo| > 0 && c.oooSeq == c.rcvNxt {
      TakeOk(c, c.ooo, base, sent, got, nxt);
    }
  }

  lemma InOrderOk(c: Conn, bytes: seq<u8>, base: u32, sent: seq<u8>, got: seq<u8>, nxt: u32)
    requires Sizes(c) && RecvOk(c, base, sent, got, nxt) && |sent| < STREAM_LIMIT
    requires Wrap(c.rcvNxt - base) + |bytes| <= nxt
    requires bytes == sent[Wrap(c.rcvNxt - base)..Wrap(c.rcvNxt - base) + |bytes|]
    ensures Sizes(Take(c, bytes)) && RecvOk(TakeOoo(Take(c, bytes)), base, sent, got, nxt)
    ensures Wrap(c.rcvNxt - base) <= Wrap(TakeOoo(Take(c, bytes)).rcvNxt - base)
  {
    assert Sizes(Take(c, bytes));
    TakeOk(c, bytes, base, sent, got, nxt);
    hide RecvOk, Take, TakeOoo, Wrap;
    TakeOooOk(Take(c, bytes), base, sent, got, nxt);
  }

  lemma DataStepOk(c: Conn, s: Segment, base: u32, sent: seq<u8>, got: seq<u8>, nxt: u32)
    requires Sizes(c) && RecvOk(c, base, sent, got, nxt) && |sent| < STREAM_LIMIT
    requires |s.payload| > 0 ==> DataOk(s, base, sent, nxt)
    ensures RecvOk(DataStep(c, s).0, base, sent, got, nxt)
    ensures Wrap(c.rcvNxt - base) <= Wrap(DataStep(c, s).0.rcvNxt - base)
  {
    hide RecvOk, Wrap, TakeOoo, Take, Park;
    if |s.payload| > 0 && s.seqNo == c.rcvNxt {
      InOrderOk(c, s.payload, base, sent, got, nxt);
    } else {
      ParkOk(c, s, base, sent, got, nxt);
    }
  }

  lemma ParkOk(c: Conn, s: Segment, base: u32, sent: seq<u8>, got: seq<u8>, nxt: u32)
    requires RecvOk(c, base, sent, got, nxt)
    requires |s.payload| > 0 ==> DataOk(s, base, sent, nxt)
    ensures |s.payload| > 0 ==> RecvOk(Park(c, s), base, sent, got, nxt)
    ensures Park(c, s).rcvNxt == c.rcvNxt
  {
    hide Wrap;
  }

  lemma DataStepFrame(c: Conn, s: Segment)
    requires Sizes(c) && RtoOk(c)
    ensures
      var (d, o) := DataStep(c, s);
      && Sizes(d) && SameSend(c, d) && RtoOk(d) && d.cwnd == c.cwnd && d.state == c.state
      && forall t :: t in o ==> t == Control(false, true, false, d.sndNxt, d.rcvNxt)
  {}

  lemma DataMoves(x: Side, y: Side, s: Segment)
    requires Local(x) && Flow(x, y) && Flow(y, x) && x.conn.state == Established && |y.sent| < STREAM_LIMIT
    requires SegOk(s, y, x) && !s.rst
    ensures Moves(x, x.(conn := DataStep(x.conn, s).0), y, DataStep(x.conn, s).1)
  {
    hide SendOk, RecvOk, DataOk, Tight, Flow, Local, Una, Nxt, Rcv, Pos, Wrap, Moves, TryEmit, DupAck, DataStep, RtoTick;
    UpFacts(x, y);
    DataStepOk(x.conn, s, Base(y), y.sent, x.got, Nxt(y));
    DataStepFrame(x.conn, s);
    var (d, o) := DataStep(x.conn, s);
    SendSame(x.conn, d, Base(x), x.sent);
    MakeMoves(x, d, x.sent, x.got, y, o);
  }

  lemma LocalLimit(y: Side)
    requires Local(y)
    ensures |y.sent| < STREAM_LIMIT
  {}

  lemma EstablishedGood(x: Side, y: Side, s: Segment, now: u64)
    requires Local(x) && Local(y) && Flow(x, y) && Flow(y, x) && x.conn.state == Established
    requires SegOk(s, y, x) && !s.rst
    ensures Good(x, x.(conn := EstablishedStep(x.conn, s, now).0), y, EstablishedStep(x.conn, s, now).1)
  {
    AckMoves(x, y, s, now);
    var (c1, o1) := AckStep(x.conn, s, now);
    var x1 := x.(conn := c1);
    MovesGood(x, x1, y, o1);
    AckKeepsState(x.conn, s, now);
    LocalLimit(y);
    SegStaysForPeer(s, x, x1, y, o1);
    DataMoves(x1, y, s);
    var (c2, o2) := DataStep(c1, s);
    MovesGood(x1, x.(conn := c2), y, o2);
    GoodTrans(x, x1, x.(conn := c2), y, o1, o2);
    EstablishedIs(x.conn, s, now);
  }

  lemma EstablishedIs(c: Conn, s: Segment, now: u64)
    requires Sizes(c) && !s.fin
    ensures
      var (c1, o1) := AckStep(c, s, now);
      var (c2, o2) := DataStep(c1, s);
      EstablishedStep(c, s, now) == (c2, o1 + o2)
  {
    var (c1, o1) := AckStep(c, s, now);
    var (c2, o2) := DataStep(c1, s);
    assert o1 + o2 + [] == o1 + o2;
  }

  lemma AckKeepsState(c: Conn, s: Segment, now: u64)
    requires Sizes(c)
    ensures AckStep(c, s, now).0.state == c.state
  {
    var newly := Wrap(s.ackNo - c.sndUna);
    if s.ack && 0 < newly <= |c.snd| {
      TryEmitFrame(Grow(Acked(c, s.ackNo, now)), now);
    }
  }

  // ---------------------------------------------------------------- opening

  /** The first acknowledgement of the SYN establishes the accepting end. */
  lemma SynReceivedGood(x: Side, y: Side, s: Segment)
    requires Local(x) && Flow(x, y) && Flow(y, x) && x.conn.state == SynReceived
    requires SegOk(s, y, x) && !s.rst
    ensures
      var (c, o) := SynReceivedStep(x.conn, s);
      Good(x, x.(conn := c, up := c.state == Established), y, o)
  {
    var (c, o) := SynReceivedStep(x.conn, s);
    if s.ack && s.ackNo == x.conn.sndNxt {
      OpensGood(x, x.(conn := c, up := true), y, o);
    } else {
      DownGood(x, x, y, o);
    }
  }

  /** The SYN-ACK establishes the connecting end. */
  lemma SynSentGood(x: Side, y: Side, s: Segment)
    requires Local(x) && Flow(x, y) && Flow(y, x) && x.conn.state == SynSent
    requires SegOk(s, y, x) && !s.rst
    ensures
      var (c, o) := SynSentStep(x.conn, s);
      Good(x, x.(conn := c, up := c.state == Established), y, o)
  {
    var (c, o) := SynSentStep(x.conn, s);
    if s.syn && s.ack && s.ackNo == x.conn.sndNxt {
      OpensGood(x, x.(conn := c, up := true), y, o);
    } else {
      DownGood(x, x.(conn := c), y, o);
    }
  }

  /** x2 is x come up: nothing sent or received yet, and the peer's base as rcv_nxt. */
  predicate Opens(x: Side, x2: Side, y: Side) {
    && !x.up && x2 == x.(conn := x2.conn, up := true)
    && Sizes(x2.conn) && x2.conn.rto == x.conn.rto && x2.conn.state == Established && x2.conn.cwnd >= MSS
    && x2.conn.sndUna == Base(x) && x2.conn.sndNxt == Base(x) && x2.conn.rcvNxt == Base(y)
    && x2.conn.snd == [] && x2.conn.rcv == [] && x2.conn.ooo == []
  }

  lemma PosBase(x: Side)
    ensures Pos(x, Base(x)) == 0
  {
    hide Base;
  }

  lemma OpensLocal(x: Side, x2: Side, y: Side)
    requires Local(x) && Opens(x, x2, y)
    ensures Local(x2)
  {
    PosBase(x);
    hide Wrap;
  }

  lemma OpensForward(x: Side, x2: Side, y: Side)
    requires Local(x) && Flow(x, y) && Opens(x, x2, y)
    ensures Flow(x2, y)
  {
    PosBase(x);
    hide Wrap, RecvOk;
  }

  lemma OpensBack(x: Side, x2: Side, y: Side)
    requires Local(x) && Flow(y, x) && Opens(x, x2, y)
    ensures Flow(y, x2) && Rcv(y, x2) == 0
  {
    PosBase(y);
    hide Wrap;
  }

  lemma OpensSeg(x: Side, x2: Side, y: Side, s: Segment)
    requires Opens(x, x2, y) && s == AckOnly(x2.conn)
    ensures SegOk(s, x2, y)
  {
    PosBase(y);
    hide Wrap, DataOk;
  }

  lemma OpensStart(x: Side, x2: Side, y: Side)
    requires Local(x) && Flow(x, y) && Opens(x, x2, y)
    ensures Nxt(x) == 0 && Rcv(y, x) == 0 && x.sent == x2.sent && x2.iss == x.iss && !x.up
  {
    hide Wrap, Flow;
  }

  lemma OpensGood(x: Side, x2: Side, y: Side, out: seq<Segment>)
    requires Local(x) && Flow(x, y) && Flow(y, x) && Opens(x, x2, y)
    requires forall s :: s in out ==> s == AckOnly(x2.conn)
    ensures Good(x, x2, y, out)
  {
    hide *;
    OpensLocal(x, x2, y);
    OpensForward(x, x2, y);
    OpensBack(x, x2, y);
    OpensStart(x, x2, y);
    forall s | s in out ensures SegOk(s, x2, y) {
      OpensSeg(x, x2, y, s);
    }
    MakeGood(x, x2, y, out);
  }

  lemma MakeGood(x: Side, x2: Side, y: Side, out: seq<Segment>)
    requires Local(x2) && Flow(x2, y) && Flow(y, x2) && x2.iss == x.iss
    requires (x.up ==> x2.up) && x.sent <= x2.sent && Nxt(x) <= Nxt(x2) && Rcv(y, x) <= Rcv(y, x2)
    requires forall s :: s in out ==> SegOk(s, x2, y)
    ensures Good(x, x2, y, out)
  {
    hide Local, Flow, SegOk, Nxt, Rcv;
  }

  lemma DeliverGood(x: Side, y: Side, s: Segment, now: u64)
    requires Local(x) && Local(y) && Flow(x, y) && Flow(y, x) && x.conn.state != Listen
    requires SegOk(s, y, x)
    ensures Good(x, StepSide(x, Deliver(s, now)), y, StepConn(x, Deliver(s, now)).1)
  {
    DeliverIs(x, s, now);
    if x.conn.state == Closed {
      ResetReplyGood(x, y, s);
    } else if s.rst {
      ResetGood(x, y);
    } else if x.conn.state == Established {
      EstablishedGood(x, y, s, now);
    } else if x.conn.state == SynReceived {
      SynReceivedGood(x, y, s);
    } else {
      SynSentGood(x, y, s);
    }
  }

  lemma DeliverIs(x: Side, s: Segment, now: u64)
    requires Local(x) && x.conn.state != Listen && !s.fin
    ensures
      var (c, o) := Input(x.conn, s, now);
      && StepConn(x, Deliver(s, now)) == (c, o)
      && StepSide(x, Deliver(s, now)) == x.(conn := c, up := x.up || c.state == Established)
      && (x.conn.state == Closed ==> c == x.conn && o == RstReply(s))
      && (x.conn.state != Closed && s.rst ==> c == x.conn.(state := Closed) && o == [])
      && (x.conn.state == Established && !s.rst ==> (c, o) == EstablishedStep(x.conn, s, now))
      && (x.conn.state == SynReceived && !s.rst ==> (c, o) == SynReceivedStep(x.conn, s))
      && (x.conn.state == SynSent && !s.rst ==> (c, o) == SynSentStep(x.conn, s))
  {}

  lemma ResetReplyGood(x: Side, y: Side, s: Segment)
    requires Local(x) && Flow(x, y) && Flow(y, x)
    ensures Good(x, x, y, RstReply(s))
  {}

  lemma ResetGood(x: Side, y: Side)
    requires Local(x) && Flow(x, y) && Flow(y, x)
    ensures Good(x, x.(conn := x.conn.(state := Closed)), y, [])
  {
    if x.up {
      var d := x.conn.(state := Closed);
      SendSame(x.conn, d, Base(x), x.sent);
      RecvSame(x.conn, d, Base(y), y.sent, x.got, Nxt(y));
      MovesGood(x, x.(conn := d), y, []);
    } else {
      DownGood(x, x.(conn := x.conn.(state := Closed)), y, []);
    }
  }

  lemma StepGood(x: Side, y: Side, e: Event)
    requires Local(x) && Local(y) && Flow(x, y) && Flow(y, x)
    requires e.AppSend? ==> |x.sent| + |e.data| < STREAM_LIMIT
    requires e.Deliver? ==> x.conn.state != Listen && SegOk(e.seg, y, x)
    ensures Good(x, StepSide(x, e), y, StepConn(x, e).1)
  {
    match e {
      case AppSend(data, now) => SendGood(x, y, data, now);
      case AppRecv(max) => RecvGood(x, y, max);
      case Deliver(s, now) => DeliverGood(x, y, s, now);
      case Timer(now) => TimerGood(x, y, now);
    }
  }

  // ---------------------------------------------------------------- what one step of the system keeps

  /** Where a block's state can go. */
  lemma StateMoves(x: Side, e: Event)
    requires Local(x) && (e.Deliver? ==> !e.seg.fin)
    ensures
      var st, st2 := x.conn.state, StepConn(x, e).0.state;
      || st2 == st || st2 == Closed
      || (st2 == Established && (st == SynSent || st == SynReceived))
      || (st2 == SynReceived && st == Listen && e.Deliver? && PlainSyn(e.seg))
  {
    match e {
      case AppSend(data, now) => SendKeepsState(x.conn, data, now);
      case AppRecv(max) =>
      case Timer(now) =>
      case Deliver(s, now) =>
        if x.conn.state == Established && !s.rst {
          EstablishedFrame(x.conn, s, now);
        }
    }
  }

  lemma SendKeepsState(c: Conn, data: seq<u8>, now: u64)
    requires Sizes(c)
    ensures
      var (d, o) := Send(c, data, now);
      && d.state == c.state && d.retries == c.retries && (c.state != Established ==> (d, o) == (c, []))
      && forall s :: s in o ==> !s.syn
  {
    hide Wrap;
    var n := Accepted(c, data);
    if n > 0 {
      TryEmitFrame(Queue(c, data[..n], now), now);
      TryEmitNoSyn(Queue(c, data[..n], now), now);
    }
  }

  lemma {:induction false} ChunksNoSyn(seqNo: u32, ack: u32, bytes: seq<u8>)
    ensures forall s :: s in Chunks(seqNo, ack, bytes) ==> !s.syn
    decreases |bytes|
  {
    if |bytes| == 0 {
    } else {
      var n := Min(|bytes|, MSS);
      ChunksNoSyn(Wrap(seqNo + n), ack, bytes[n..]);
    }
  }

  lemma TryEmitNoSyn(c: Conn, now: u64)
    ensures forall s :: s in TryEmit(c, now).1 ==> !s.syn
  {
    hide Wrap;
    if Emittable(c) > 0 {
      var f := InFlight(c);
      ChunksNoSyn(c.sndNxt, c.rcvNxt, c.snd[f..f + Emittable(c)]);
    }
  }

  lemma AckStepFrame(c: Conn, s: Segment, now: u64)
    requires Sizes(c)
    ensures
      var (d, o) := AckStep(c, s, now);
      && d.state == c.state && d.retries == c.retries
      && forall t :: t in o ==> !t.syn
  {
    AckStepCases(c, s, now);
    hide Wrap, AckStep, TryEmit, Probe, Slide;
    if s.ack && 0 < Wrap(s.ackNo - c.sndUna) <= |c.snd| && AckStep(c, s, now) == NewAck(c, s.ackNo, now) {
      TryEmitFrame(Grow(Acked(c, s.ackNo, now)), now);
      TryEmitNoSyn(Grow(Acked(c, s.ackNo, now)), now);
    }
  }

  lemma EstablishedFrame(c: Conn, s: Segment, now: u64)
    requires Sizes(c) && !s.fin
    ensures
      var (d, o) := EstablishedStep(c, s, now);
      && d.state == c.state && d.retries == c.retries
      && forall t :: t in o ==> !t.syn
  {
    EstablishedIs(c, s, now);
    AckStepFrame(c, s, now);
    DataStepRetries(AckStep(c, s, now).0, s);
    hide *;
  }

  lemma DataStepRetries(c: Conn, s: Segment)
    requires Sizes(c)
    ensures
      var (d, o) := DataStep(c, s);
      && d.state == c.state && d.retries == c.retries
      && forall t :: t in o ==> !t.syn
  {
    hide Wrap;
  }

  /** What the connecting end sends: a plain SYN only by spending a retry, an acknowledgement
      only once it is up. */
  lemma ConnectingOut(x: Side, e: Event)
    requires Local(x) && x.conn.state != Listen && x.conn.state != SynReceived && (e.Deliver? ==> !e.seg.fin)
    ensures
      var (c, o) := StepConn(x, e);
      && CountSyns(o) <= c.retries - x.conn.retries
      && forall s :: s in o && !s.rst && s.ack ==> x.up || c.state == Established
  {
    match e {
      case AppSend(data, now) =>
        SendKeepsState(x.conn, data, now);
        NoSyns(StepConn(x, e).1);
      case AppRecv(max) =>
      case Timer(now) =>
        TimerOut(x, now);
      case Deliver(s, now) =>
        DeliverOut(x, s, now);
    }
  }

  lemma {:induction false} NoSyns(xs: seq<Segment>)
    requires forall s :: s in xs ==> !PlainSyn(s)
    ensures CountSyns(xs) == 0
  {
    if |xs| == 0 {
    } else {
      assert xs[0] in xs;
      NoSyns(xs[1..]);
    }
  }

  lemma TimerOut(x: Side, now: u64)
    requires Local(x) && x.conn.state != Listen && x.conn.state != SynReceived
    ensures
      var (c, o) := StepConn(x, Timer(now));
      && CountSyns(o) <= c.retries - x.conn.retries
      && forall s :: s in o && !s.rst && s.ack ==> x.up || c.state == Established
  {
    hide Wrap;
    if x.conn.state == SynSent {
      var (c, o) := SynTick(x.conn, now);
      if |o| > 0 {
        assert o[1..] == [];
      }
    } else if RtoExpired(x.conn, now) && InFlight(x.conn) <= |x.conn.snd| {
      ChunksNoSyn(x.conn.sndUna, x.conn.rcvNxt, x.conn.snd[..InFlight(x.conn)]);
      NoSyns(RtoTick(x.conn, now).1);
    }
  }

  lemma DeliverOut(x: Side, s: Segment, now: u64)
    requires Local(x) && x.conn.state != Listen && x.conn.state != SynReceived && !s.fin
    ensures
      var (c, o) := StepConn(x, Deliver(s, now));
      && CountSyns(o) == 0 && c.retries == x.conn.retries
      && forall t :: t in o && !t.rst && t.ack ==> x.up || c.state == Established
  {
    DeliverIs(x, s, now);
    if x.conn.state == Established && !s.rst {
      EstablishedFrame(x.conn, s, now);
    }
    hide EstablishedStep, Wrap;
    NoSyns(StepConn(x, Deliver(s, now)).1);
  }

  /** A SYN reaching the listener creates the accepting end. */
  lemma Born(s: Sys, seg: Segment, now: u64)
    requires Inv(s) && s.b.conn.state == Listen && seg in s.ab && PlainSyn(seg)
    ensures Pair(s.a, StepSide(s.b, Deliver(seg, now)), s.ab, s.ba + Segments(StepConn(s.b, Deliver(seg, now)).1))
  {
    var b2 := StepSide(s.b, Deliver(seg, now));
    var o := StepConn(s.b, Deliver(seg, now)).1;
    assert SegOk(seg, s.a, s.b);
    BornSide(s.a, s.b, seg, now);
    forall t | t in s.ab ensures SegOk(t, s.a, b2) {
      assert SegOk(t, s.a, s.b);
    }
    forall t | t in s.ba + Segments(o) ensures SegOk(t, b2, s.a) {
      if t in s.ba {
        assert t.rst && SegOk(t, s.b, s.a);
      }
    }
  }

  lemma BornSide(a: Side, b: Side, seg: Segment, now: u64)
    requires Local(a) && Local(b) && Flow(a, b) && Flow(b, a) && !a.up && b.conn.state == Listen
    requires a.conn.state != SynReceived && PlainSyn(seg) && SegOk(seg, a, b)
    ensures
      var b2 := StepSide(b, Deliver(seg, now));
      && Local(b2) && Flow(a, b2) && Flow(b2, a) && !b2.up && b2.conn.state == SynReceived
      && forall t :: t in StepConn(b, Deliver(seg, now)).1 ==> SegOk(t, b2, a)
  {
    PosBase(a);
    var b2 := StepSide(b, Deliver(seg, now));
    assert StepConn(b, Deliver(seg, now)) == AcceptSyn(seg, now);
    assert Local(b2);
    assert b2.conn.rcvNxt == Base(a);
    assert Flow(a, b2);
    assert Flow(b2, a);
  }

  /** Every other event at the listener before that: at most resets. */
  lemma ListenIdle(b: Side, e: Event)
    requires Local(b) && b.conn.state == Listen && (e.Deliver? ==> !PlainSyn(e.seg))
    ensures StepSide(b, e) == b
    ensures forall t :: t in StepConn(b, e).1 ==> t.rst
  {}

  lemma ListenPair(s: Sys, e: Event)
    requires Inv(s) && s.b.conn.state == Listen && (e.Deliver? ==> !PlainSyn(e.seg))
    ensures Inv(Step(s, ListeningEnd, e))
  {
    ListenIdle(s.b, e);
    var o := StepConn(s.b, e).1;
    var s2 := Step(s, ListeningEnd, e);
    forall t | t in s2.ba ensures t.rst && SegOk(t, s2.b, s2.a) {
      if t in s.ba {
        assert SegOk(t, s.b, s.a);
      } else {
        ListenResets(s.b, e, t);
      }
    }
  }

  lemma ListenResets(b: Side, e: Event, t: Segment)
    requires Local(b) && b.conn.state == Listen && (e.Deliver? ==> !PlainSyn(e.seg))
    requires t in StepConn(b, e).1
    ensures !t.fin && t.rst
  {}

  lemma ListeningStep(s: Sys, e: Event)
    requires Inv(s) && Enabled(s, ListeningEnd, e)
    ensures Inv(Step(s, ListeningEnd, e))
  {
    if e.Deliver? {
      assert SegOk(e.seg, s.a, s.b);
    }
    if s.b.conn.state == Listen {
      if e.Deliver? && PlainSyn(e.seg) {
        Born(s, e.seg, e.at);
        BornSide(s.a, s.b, e.seg, e.at);
        hide Pair, StepConn;
      } else {
        ListenPair(s, e);
      }
    } else {
      StepGood(s.b, s.a, e);
      LiveStep(s, e);
    }
  }

  lemma PairSwap(x: Side, y: Side, out: set<Segment>, back: set<Segment>)
    requires Pair(x, y, out, back)
    ensures Pair(y, x, back, out)
  {
    hide Local, Flow, Net;
  }

  /** The accepting end comes up only on an acknowledgement, which only an end that is up sends. */
  lemma UpOnAck(x: Side, e: Event)
    requires Local(x) && x.conn.state == SynReceived && StepConn(x, e).0.state == Established
    ensures e.Deliver? && e.seg.ack && !e.seg.rst
  {}

  lemma UpFrom(x: Side, e: Event)
    requires Local(x) && (e.Deliver? ==> !e.seg.fin) && !x.up && StepSide(x, e).up
    ensures x.conn.state == SynSent || x.conn.state == SynReceived
  {
    StateMoves(x, e);
    hide StepConn;
  }

  lemma LiveStep(s: Sys, e: Event)
    requires Inv(s) && Enabled(s, ListeningEnd, e) && s.b.conn.state != Listen
    requires Good(s.b, StepSide(s.b, e), s.a, StepConn(s.b, e).1)
    requires e.Deliver? ==> !e.seg.fin
    ensures Inv(Step(s, ListeningEnd, e))
  {
    PairSwap(s.a, s.b, s.ab, s.ba);
    GoodPair(s.b, StepSide(s.b, e), s.a, s.ba, s.ab, StepConn(s.b, e).1);
    PairSwap(StepSide(s.b, e), s.a, s.ba + Segments(StepConn(s.b, e).1), s.ab);
    StateMoves(s.b, e);
    if StepSide(s.b, e).up && !s.b.up {
      UpFrom(s.b, e);
      UpOnAck(s.b, e);
    }
    hide Pair, StepConn, Good;
  }

  lemma NetSeg(t: Segment, x: Side, y: Side, out: set<Segment>, back: set<Segment>)
    requires Pair(x, y, out, back) && t in back
    ensures SegOk(t, y, x) && !t.fin
  {
    hide Local, Flow;
  }

  lemma PairParts(x: Side, y: Side, out: set<Segment>, back: set<Segment>)
    requires Pair(x, y, out, back)
    ensures Local(x) && Local(y) && Flow(x, y) && Flow(y, x) && Sizes(x.conn) && Sizes(y.conn)
  {
    hide Flow, Net, SendOk, Tight;
  }

  /** The parts of the invariant beside the pair, for a step of the connecting end. */
  lemma ConnectingRest(s: Sys, e: Event)
    requires Inv(s) && Enabled(s, ConnectingEnd, e)
    requires Sizes(s.a.conn) && Sizes(s.b.conn)
    ensures
      var t := Step(s, ConnectingEnd, e);
      && t.a.conn.state != Listen && t.a.conn.state != SynReceived && t.b.conn.state != SynSent
      && (t.b.conn.state == Listen ==> Unborn(t))
      && (t.b.up ==> t.a.up)
      && (forall g :: g in t.ab && !g.rst && g.ack ==> t.a.up)
      && t.syns <= 1 + t.a.conn.retries
  {
    PairParts(s.a, s.b, s.ab, s.ba);
    if e.Deliver? {
      NetSeg(e.seg, s.a, s.b, s.ab, s.ba);
    }
    StateMoves(s.a, e);
    ConnectingOut(s.a, e);
    if s.b.conn.state == Listen {
      StaysDown(s.a, e) by {
        assert e.Deliver? ==> e.seg.rst;
      }
    }
    hide Pair, StepConn, Local, Flow, SegOk, CountSyns, Sizes;
  }

  lemma ConnectingStepIs(s: Sys, e: Event)
    requires Sizes(s.a.conn) && Sizes(s.b.conn)
    ensures
      var o := StepConn(s.a, e).1;
      Step(s, ConnectingEnd, e) == Sys(StepSide(s.a, e), s.b, s.ab + Segments(o), s.ba, s.syns + CountSyns(o))
  {
    hide StepConn, StepSide;
  }

  lemma InvParts(s: Sys)
    requires Inv(s)
    ensures Pair(s.a, s.b, s.ab, s.ba) && s.a.conn.state != Listen
  {
    hide Pair, Unborn;
  }

  lemma MakeInv(s: Sys)
    requires Pair(s.a, s.b, s.ab, s.ba)
    requires s.a.conn.state != Listen && s.a.conn.state != SynReceived && s.b.conn.state != SynSent
    requires s.b.conn.state == Listen ==> Unborn(s)
    requires s.b.up ==> s.a.up
    requires forall g :: g in s.ab && !g.rst && g.ack ==> s.a.up
    requires s.syns <= 1 + s.a.conn.retries && Sizes(s.a.conn)
    ensures Inv(s)
  {
    hide Pair, Unborn;
  }

  lemma ConnectingStep(s: Sys, e: Event)
    requires Inv(s) && Enabled(s, ConnectingEnd, e)
    ensures Inv(Step(s, ConnectingEnd, e))
  {
    InvParts(s);
    PairParts(s.a, s.b, s.ab, s.ba);
    if e.Deliver? {
      NetSeg(e.seg, s.a, s.b, s.ab, s.ba);
    }
    assert e.AppSend? ==> |s.a.sent| + |e.data| < STREAM_LIMIT;
    hide *;
    StepGood(s.a, s.b, e);
    GoodPair(s.a, StepSide(s.a, e), s.b, s.ab, s.ba, StepConn(s.a, e).1);
    ConnectingRest(s, e);
    ConnectingStepIs(s, e);
    var t := Step(s, ConnectingEnd, e);
    PairParts(t.a, t.b, t.ab, t.ba);
    MakeInv(t);
  }

  lemma StaysDown(x: Side, e: Event)
    requires Local(x) && !x.up && (e.Deliver? ==> e.seg.rst) && x.conn.state != SynReceived
    ensures !StepSide(x, e).up
  {}

  lemma StepInv(s: Sys, who: End, e: Event)
    requires Inv(s) && Enabled(s, who, e)
    ensures Inv(Step(s, who, e))
  {
    if who == ConnectingEnd {
      ConnectingStep(s, e);
    } else {
      ListeningStep(s, e);
    }
  }

  lemma InitInv(now: u64)
    ensures Inv(Init(now))
  {
    var s := Init(now);
    var out := Connect(now).1;
    assert out[1..] == [];
    assert Local(s.a);
    assert Local(s.b);
    assert Pair(s.a, s.b, s.ab, s.ba);
    assert CountSyns(out) == 1;
  }

  lemma {:induction false} RunInv(s: Sys, run: Run)
    requires Inv(s) && Legal(s, run)
    ensures Inv(After(s, run))
    decreases |run|
  {
    if |run| == 0 {
    } else {
      StepInv(s, run[0].0, run[0].1);
      RunInv(Step(s, run[0].0, run[0].1), run[1..]);
    }
  }

  lemma Reachable(now: u64, run: Run)
    requires Legal(Init(now), run)
    ensures Inv(After(Init(now), run))
  {
    InitInv(now);
    RunInv(Init(now), run);
  }
}
