/** What holds on every run of two ends of a connection: stream safety, window safety, agreement of
    the handshake, and the budget of SYNs. */
module TcpSafety {
  import opened Words
  import opened TcpSpec
  import opened TcpNet

  /** Stream safety: what each application has read, followed by what waits in its receive
      buffer, is a prefix of what the other has sent, and rcv_nxt counts exactly those bytes. */
  predicate StreamOk(x: Side, y: Side) {
    && y.got + y.conn.rcv <= x.sent
    && (y.conn.state == Established ==> y.conn.rcvNxt == Wrap(x.iss + 1 + |y.got| + |y.conn.rcv|))
  }

  lemma StreamSafety(now: u64, run: Run)
    requires Legal(Init(now), run)
    ensures
      var s := After(Init(now), run);
      StreamOk(s.a, s.b) && StreamOk(s.b, s.a)
  {
    Reachable(now, run);
    var s := After(Init(now), run);
    PrefixFacts(s.a, s.b);
    PrefixFacts(s.b, s.a);
    hide *;
  }

  lemma PrefixFacts(x: Side, y: Side)
    requires Local(x) && Local(y) && Flow(x, y)
    ensures StreamOk(x, y)
  {
    if y.up {
      PosInverse(x, y.conn.rcvNxt, |y.got| + |y.conn.rcv|);
    }
  }

  lemma PosInverse(x: Side, q: u32, p: nat)
    requires Pos(x, q) == p
    ensures q == Wrap(x.iss + 1 + p)
  {
    WrapIsMod(x.iss + 1);
    WrapIsMod(q - Base(x));
    WrapIsMod(x.iss + 1 + p);
  }

  /** Window safety in every reachable ESTABLISHED state: the acknowledged, received and sent
      positions are in order, the window is at least one segment, a full segment or all that is
      queued is in flight, and so the timer and the third duplicate acknowledgement resend
      only bytes before snd_nxt out of the used part of the send buffer. */
  ghost predicate WindowOk(x: Side, y: Side) {
    x.conn.state == Established ==>
      && x.conn.cwnd >= MSS
      && Min(|x.conn.snd|, MSS) <= InFlight(x.conn) <= |x.conn.snd|
      && Una(x) <= Rcv(x, y) <= Nxt(x) <= |x.sent|
      && RTO_MIN_MS <= x.conn.rto <= RTO_MAX_MS
      && (forall t: u64 :: TimerDefined(x.conn, t))
      && (forall t: u64, s :: s in RtoTick(x.conn, t).1 ==> DataOk(s, Base(x), x.sent, Nxt(x)))
      && (forall q: u32, s :: s in DupAck(x.conn, q).1 ==> DataOk(s, Base(x), x.sent, Nxt(x)))
  }

  lemma WindowSafety(now: u64, run: Run)
    requires Legal(Init(now), run)
    ensures
      var s := After(Init(now), run);
      WindowOk(s.a, s.b) && WindowOk(s.b, s.a)
  {
    Reachable(now, run);
    var s := After(Init(now), run);
    WindowFacts(s.a, s.b);
    WindowFacts(s.b, s.a);
  }

  lemma RtoBytes(x: Side, t: u64, s: Segment)
    requires SendOk(x.conn, Base(x), x.sent)
    ensures InFlight(x.conn) <= |x.conn.snd|
    ensures s in RtoTick(x.conn, t).1 ==> DataOk(s, Base(x), x.sent, Wrap(x.conn.sndNxt - Base(x)))
  {
    RtoOut(x.conn, t, Base(x), x.sent);
    hide *;
  }

  lemma DupBytes(x: Side, q: u32, s: Segment)
    requires SendOk(x.conn, Base(x), x.sent) && Tight(x.conn) && Sizes(x.conn) && RtoOk(x.conn)
    requires s in DupAck(x.conn, q).1
    ensures DataOk(s, Base(x), x.sent, Wrap(x.conn.sndNxt - Base(x)))
  {
    assert x.conn.cwnd >= MSS;
    DupAckFrame(x.conn, q);
    hide Tight, DupAck;
    DupOut(x.conn, s, Base(x), x.sent);
  }

  lemma WindowNumbers(x: Side, y: Side)
    requires Local(x) && Flow(x, y) && Flow(y, x) && x.conn.state == Established
    ensures x.conn.cwnd >= MSS && RTO_MIN_MS <= x.conn.rto <= RTO_MAX_MS
    ensures Min(|x.conn.snd|, MSS) <= InFlight(x.conn) <= |x.conn.snd|
    ensures Una(x) <= Rcv(x, y) <= Nxt(x) <= |x.sent|
    ensures SendOk(x.conn, Base(x), x.sent) && Tight(x.conn) && Sizes(x.conn) && RtoOk(x.conn)
    ensures Nxt(x) == Wrap(x.conn.sndNxt - Base(x))
  {
    InFlightIs(x.conn, Base(x), x.sent);
    hide Wrap, RecvOk;
  }

  lemma WindowFacts(x: Side, y: Side)
    requires Local(x) && Flow(x, y) && Flow(y, x)
    ensures WindowOk(x, y)
  {
    if x.conn.state == Established {
      WindowNumbers(x, y);
      hide Local, Flow, SendOk, RecvOk, DataOk, Tight, Wrap, Una, Rcv, Nxt, RtoTick, DupAck, InFlight, RtoExpired;
      forall t: u64, s | s in RtoTick(x.conn, t).1 ensures DataOk(s, Base(x), x.sent, Nxt(x)) {
        RtoBytes(x, t, s);
      }
      forall q: u32, s | s in DupAck(x.conn, q).1 ensures DataOk(s, Base(x), x.sent, Nxt(x)) {
        DupBytes(x, q, s);
      }
    }
  }

  /** The handshake: the accepting end is up only if the connecting end is, and when both are
      established each one's receive sequence started at the other's initial number plus one. */
  predicate HandshakeOk(s: Sys) {
    && (s.b.conn.state == Established ==> s.a.up)
    && (s.a.conn.state == Established && s.b.conn.state == Established ==>
          && Wrap(s.a.conn.rcvNxt - |s.a.got| - |s.a.conn.rcv|) == Wrap(s.b.iss + 1)
          && Wrap(s.b.conn.rcvNxt - |s.b.got| - |s.b.conn.rcv|) == Wrap(s.a.iss + 1))
  }

  lemma HandshakeAgreement(now: u64, run: Run)
    requires Legal(Init(now), run)
    ensures HandshakeOk(After(Init(now), run))
  {
    Reachable(now, run);
    StreamSafety(now, run);
    var s := After(Init(now), run);
    UpOrder(s);
    AgreementFacts(s);
    hide *;
  }

  lemma AgreementFacts(s: Sys)
    requires StreamOk(s.a, s.b) && StreamOk(s.b, s.a) && (s.b.conn.state == Established ==> s.a.up)
    ensures HandshakeOk(s)
  {
    WrapBack(s.b.iss, |s.a.got| + |s.a.conn.rcv|);
    WrapBack(s.a.iss, |s.b.got| + |s.b.conn.rcv|);
    hide Wrap;
  }

  lemma UpOrder(s: Sys)
    requires Inv(s)
    ensures s.b.conn.state == Established ==> s.a.up
  {
    hide Flow, Net;
  }

  lemma WrapBack(iss: u32, n: nat)
    ensures Wrap(Wrap(iss + 1 + n) - n) == Wrap(iss + 1)
  {
    WrapIsMod(iss + 1);
    WrapIsMod(iss + 1 + n);
    WrapIsMod(Wrap(iss + 1 + n) - n);
  }

  /** However often the SYN goes unanswered, it is sent at most four times. */
  lemma SynSentAtMostFourTimes(now: u64, run: Run)
    requires Legal(Init(now), run)
    ensures After(Init(now), run).syns <= 1 + SYN_RETRY_MAX
  {
    Reachable(now, run);
  }

  /** Timer ticks alone, at whatever times. */
  ghost function Unanswered(c: Conn, times: seq<u64>): (Conn, nat)
    requires Sizes(c)
    decreases |times|
  {
    if |times| == 0 || c.state != SynSent then (c, 0)
    else
      var (d, o) := SynTick(c, times[0]);
      var (e, n) := Unanswered(d, times[1..]);
      (e, n + CountSyns(o))
  }

  lemma SynTickCounts(c: Conn, now: u64)
    requires Sizes(c) && c.state == SynSent
    ensures
      var (d, o) := SynTick(c, now);
      && Sizes(d) && CountSyns(o) == d.retries - c.retries
      && (d.state == SynSent || (d.state == Closed && d.retries == SYN_RETRY_MAX))
  {
    var (d, o) := SynTick(c, now);
    if |o| > 0 {
      assert o[1..] == [];
    }
  }

  /** An unanswered connection attempt either is still waiting or has been closed, and it has
      been closed only after its three retries. */
  lemma {:induction false} SynGivesUp(c: Conn, times: seq<u64>)
    requires Sizes(c) && c.state == SynSent
    ensures
      var (d, n) := Unanswered(c, times);
      && (d.state == SynSent || d.state == Closed)
      && n == d.retries - c.retries
      && (d.state == Closed ==> d.retries == SYN_RETRY_MAX)
    decreases |times|
  {
    if |times| == 0 {
    } else {
      var (d, o) := SynTick(c, times[0]);
      SynTickCounts(c, times[0]);
      hide SynTick, CountSyns;
      if d.state == SynSent {
        SynGivesUp(d, times[1..]);
      }
    }
  }

  /** The tick comes at least 1000 << retries milliseconds after the last SYN. */
  predicate Late(c: Conn, now: u64) {
    (now - c.synSentAt) % 0x1_0000_0000_0000_0000 >= 1000 * Pow2(c.retries)
  }

  /** How many of the ticks are late ones of a block still waiting. */
  ghost function LateTicks(c: Conn, times: seq<u64>): nat
    decreases |times|
  {
    if |times| == 0 || c.state != SynSent then 0
    else (if Late(c, times[0]) then 1 else 0) + LateTicks(SynTick(c, times[0]).0, times[1..])
  }

  lemma SynTickLate(c: Conn, now: u64)
    requires Sizes(c) && c.state == SynSent
    ensures
      var d := SynTick(c, now).0;
      if !Late(c, now) then d == c
      else if c.retries == SYN_RETRY_MAX then d.state == Closed && d.retries == c.retries
      else d.state == SynSent && d.retries == c.retries + 1
  {}

  /** An unanswered attempt is closed exactly when one late tick more has come than there were retries
      left, however many early ones came between, and by then every retry was spent on a SYN. */
  lemma {:induction false} SynClosedIff(c: Conn, times: seq<u64>)
    requires Sizes(c) && c.state == SynSent
    ensures
      var (d, n) := Unanswered(c, times);
      && LateTicks(c, times) <= SYN_RETRY_MAX - c.retries + 1
      && (d.state == Closed <==> LateTicks(c, times) == SYN_RETRY_MAX - c.retries + 1)
      && (d.state == Closed ==> n == SYN_RETRY_MAX - c.retries)
    decreases |times|
  {
    SynGivesUp(c, times);
    if |times| > 0 {
      SynTickLate(c, times[0]);
      SynTickCounts(c, times[0]);
      var d := SynTick(c, times[0]).0;
      hide SynTick, Late, CountSyns;
      if d.state == SynSent {
        SynClosedIff(d, times[1..]);
      }
    }
  }

  /** From tcp_connect on, ticks 1, 2, 4 and 8 seconds after each SYN resend it three times and then
      close the block. */
  lemma SynReachesClosed(now: u64)
    requires now + 15000 < 0x1_0000_0000_0000_0000
    ensures
      var (d, n) := Unanswered(Connect(now).0, [now + 1000, now + 3000, now + 7000, now + 15000]);
      d.state == Closed && n == 3
  {
    var c0 := Connect(now).0;
    var t1, t2, t3, t4 := now + 1000, now + 3000, now + 7000, now + 15000;
    Pow2Values();
    LateAfter(now, 1000);
    LateAfter(t1, 2000);
    LateAfter(t2, 4000);
    LateAfter(t3, 8000);
    var c1 := SynTick(c0, t1).0;
    var c2 := SynTick(c1, t2).0;
    var c3 := SynTick(c2, t3).0;
    var c4 := SynTick(c3, t4).0;
    assert c1.retries == 1 && c1.synSentAt == t1 && c1.state == SynSent;
    assert c2.retries == 2 && c2.synSentAt == t2 && c2.state == SynSent;
    assert c3.retries == 3 && c3.synSentAt == t3 && c3.state == SynSent;
    var ts: seq<u64> := [t1, t2, t3, t4];
    assert ts[1..] == [t2, t3, t4] && ts[1..][1..] == [t3, t4] && ts[1..][1..][1..] == [t4] && ts[1..][1..][1..][1..] == [];
    hide SynTick, Pow2;
    assert LateTicks(c3, [t4]) == 1;
    assert LateTicks(c2, [t3, t4]) == 2;
    assert LateTicks(c1, [t2, t3, t4]) == 3;
    assert LateTicks(c0, ts) == 4;
    SynClosedIff(c0, ts);
  }

  lemma LateAfter(start: u64, wait: u64)
    requires start + wait < 0x1_0000_0000_0000_0000
    ensures (start + wait - start) % 0x1_0000_0000_0000_0000 == wait
  {}
}
