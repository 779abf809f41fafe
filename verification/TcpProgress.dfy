/** What can be reached: the handshake completes, segments that arrive in order are received whole, and
    from every reachable state with both ends established everything queued can still arrive. */
module TcpProgress {
  import opened Words
  import opened TcpSpec
  import opened TcpNet
  import opened TcpEffects

  function Peer(who: End): End {
    if who == ConnectingEnd then ListeningEnd else ConnectingEnd
  }

  function Of(s: Sys, who: End): Side {
    if who == ConnectingEnd then s.a else s.b
  }

  /** The segments an end has sent so far. */
  function SentBy(s: Sys, who: End): set<Segment> {
    if who == ConnectingEnd then s.ab else s.ba
  }

  /** Both ends are established, in a state of which the invariant holds. */
  ghost predicate Up(s: Sys) {
    Inv(s) && Sizes(s.a.conn) && Sizes(s.b.conn) && s.a.conn.state == Established && s.b.conn.state == Established
  }

  /** Some legal run leads from s to t. */
  ghost predicate Leads(s: Sys, t: Sys) {
    exists run: Run :: Legal(s, run) && After(s, run) == t
  }

  lemma {:induction false} LegalAppend(s: Sys, r1: Run, r2: Run)
    requires Legal(s, r1) && Legal(After(s, r1), r2)
    ensures Legal(s, r1 + r2) && After(s, r1 + r2) == After(After(s, r1), r2)
    decreases |r1|
  {
    hide Step, Enabled, Sizes;
    if |r1| == 0 {
      assert r1 + r2 == r2;
    } else {
      assert (r1 + r2)[1..] == r1[1..] + r2;
      LegalAppend(Step(s, r1[0].0, r1[0].1), r1[1..], r2);
    }
  }

  lemma LeadsTrans(s: Sys, t: Sys, u: Sys)
    requires Leads(s, t) && Leads(t, u)
    ensures Leads(s, u)
  {
    hide Legal, After;
    var r1: Run :| Legal(s, r1) && After(s, r1) == t;
    var r2: Run :| Legal(t, r2) && After(t, r2) == u;
    LegalAppend(s, r1, r2);
  }

  lemma InvSizes(s: Sys)
    requires Inv(s)
    ensures Sizes(s.a.conn) && Sizes(s.b.conn)
  {
    hide Flow, Net, Sizes;
  }

  /** One event, and the invariant after it. */
  lemma LeadsStep(s: Sys, who: End, e: Event)
    requires Inv(s) && Enabled(s, who, e)
    ensures Sizes(s.a.conn) && Sizes(s.b.conn) && Leads(s, Step(s, who, e)) && Inv(Step(s, who, e))
  {
    InvSizes(s);
    StepInv(s, who, e);
    hide Inv, Step, Enabled, Sizes;
    var run: Run := [(who, e)];
    assert run[1..] == [];
    assert Legal(Step(s, who, e), []);
    assert Legal(s, run) && After(s, run) == Step(s, who, e);
  }

  /** A step seen from the end that takes it. */
  lemma StepOf(s: Sys, who: End, e: Event)
    requires Sizes(s.a.conn) && Sizes(s.b.conn)
    ensures
      var t := Step(s, who, e);
      && Of(t, who) == StepSide(Of(s, who), e) && Of(t, Peer(who)) == Of(s, Peer(who))
      && SentBy(t, who) == SentBy(s, who) + Segments(StepConn(Of(s, who), e).1)
      && SentBy(t, Peer(who)) == SentBy(s, Peer(who))
  {
    hide StepSide, StepConn, Segments, CountSyns;
  }

  // ---------------------------------------------------------------- the handshake

  /** Three deliveries after tcp_connect both ends are established, each with the other's numbers. */
  lemma HandshakeCompletes(now: u64, t1: u64, t2: u64, t3: u64)
    ensures
      var syn := Segment(true, false, false, false, now % 0x1_0000_0000, 0, []);
      var synAck := Segment(true, true, false, false, t1 % 0x1_0000_0000, (now + 1) % 0x1_0000_0000, []);
      var ack := Segment(false, true, false, false, (now + 1) % 0x1_0000_0000, (t1 + 1) % 0x1_0000_0000, []);
      var run: Run := [(ListeningEnd, Deliver(syn, t1)), (ConnectingEnd, Deliver(synAck, t2)), (ListeningEnd, Deliver(ack, t3))];
      && Legal(Init(now), run)
      && var s := After(Init(now), run);
         && s.a.conn.state == s.b.conn.state == Established
         && s.a.conn.sndUna == s.a.conn.sndNxt == s.b.conn.rcvNxt == (now + 1) % 0x1_0000_0000
         && s.b.conn.sndUna == s.b.conn.sndNxt == s.a.conn.rcvNxt == (t1 + 1) % 0x1_0000_0000
         && s.a.sent == s.a.got == s.b.sent == s.b.got == []
         && s.a.conn.snd == s.a.conn.rcv == s.b.conn.snd == s.b.conn.rcv == []
  {
    var syn := Segment(true, false, false, false, now % 0x1_0000_0000, 0, []);
    var synAck := Segment(true, true, false, false, t1 % 0x1_0000_0000, (now + 1) % 0x1_0000_0000, []);
    var ack := Segment(false, true, false, false, (now + 1) % 0x1_0000_0000, (t1 + 1) % 0x1_0000_0000, []);
    var e1, e2, e3 := Deliver(syn, t1), Deliver(synAck, t2), Deliver(ack, t3);
    var run: Run := [(ListeningEnd, e1), (ConnectingEnd, e2), (ListeningEnd, e3)];
    Numbers(now);
    Numbers(t1);
    InitIs(now);
    var s0 := Init(now);
    var s1 := Step(s0, ListeningEnd, e1);
    FirstStep(s0, syn, t1);
    var s2 := Step(s1, ConnectingEnd, e2);
    SecondStep(s1, synAck, t2);
    var s3 := Step(s2, ListeningEnd, e3);
    ThirdStep(s2, ack, t3);
    hide Step, Wrap, Init, Enabled;
    assert run[1..] == [(ConnectingEnd, e2), (ListeningEnd, e3)] && run[1..][1..] == [(ListeningEnd, e3)] && run[1..][1..][1..] == [];
    assert Legal(s3, []) && After(s3, []) == s3;
    assert Legal(s2, run[2..]) && After(s2, run[2..]) == s3;
    assert Legal(s1, run[1..]) && After(s1, run[1..]) == s3;
  }

  lemma Numbers(x: u64)
    ensures Wrap(x) == x % 0x1_0000_0000 && Wrap(x % 0x1_0000_0000 + 1) == (x + 1) % 0x1_0000_0000
  {
    WrapIsMod(x);
    WrapIsMod(x % 0x1_0000_0000 + 1);
  }

  lemma InitIs(now: u64)
    ensures
      var s := Init(now);
      var q := now % 0x1_0000_0000;
      && s.ab == {Segment(true, false, false, false, q, 0, [])} && s.ba == {}
      && s.a == Side(Fresh(SynSent, q, 0, now), q, [], [], false) && s.b == Side(Fresh(Listen, 0, 0, 0), 0, [], [], false)
  {
    Numbers(now);
    hide Wrap, Fresh;
  }

  lemma FirstStep(s: Sys, syn: Segment, t1: u64)
    requires s.b == Side(Fresh(Listen, 0, 0, 0), 0, [], [], false) && syn in s.ab
    requires syn == Segment(true, false, false, false, syn.seqNo, 0, []) && Sizes(s.a.conn)
    ensures
      var t := Step(s, ListeningEnd, Deliver(syn, t1));
      var q := t1 % 0x1_0000_0000;
      && Enabled(s, ListeningEnd, Deliver(syn, t1)) && t.a == s.a && t.ab == s.ab
      && t.b == Side(Fresh(SynReceived, q, Wrap(syn.seqNo + 1), t1), q, [], [], false)
      && Segment(true, true, false, false, q, Wrap(syn.seqNo + 1), []) in t.ba
  {
    Numbers(t1);
    hide Wrap;
  }

  lemma SecondStep(s: Sys, synAck: Segment, t2: u64)
    requires s.a.conn.state == SynSent && Sizes(s.a.conn) && Sizes(s.b.conn) && synAck in s.ba
    requires synAck == Segment(true, true, false, false, synAck.seqNo, s.a.conn.sndNxt, [])
    ensures
      var t := Step(s, ConnectingEnd, Deliver(synAck, t2));
      var c := s.a.conn.(sndUna := s.a.conn.sndNxt, rcvNxt := Wrap(synAck.seqNo + 1), state := Established);
      && Enabled(s, ConnectingEnd, Deliver(synAck, t2)) && t.b == s.b && t.a == s.a.(conn := c, up := true)
      && Segment(false, true, false, false, c.sndNxt, c.rcvNxt, []) in t.ab
  {
    hide Wrap;
  }

  lemma ThirdStep(s: Sys, ack: Segment, t3: u64)
    requires s.b.conn.state == SynReceived && Sizes(s.a.conn) && Sizes(s.b.conn) && ack in s.ab
    requires ack == Segment(false, true, false, false, ack.seqNo, s.b.conn.sndNxt, [])
    ensures
      var t := Step(s, ListeningEnd, Deliver(ack, t3));
      && Enabled(s, ListeningEnd, Deliver(ack, t3)) && t.a == s.a
      && t.b == s.b.(conn := s.b.conn.(sndUna := s.b.conn.sndNxt, state := Established), up := true)
  {
    hide Wrap;
  }

  // ---------------------------------------------------------------- segments that arrive in order

  /** The segments delivered one after the other. */
  function Deliveries(who: End, segs: seq<Segment>, at: u64): Run {
    if |segs| == 0 then [] else [(who, Deliver(segs[0], at))] + Deliveries(who, segs[1..], at)
  }

  /** An established end with nothing parked. */
  predicate Open(s: Sys, who: End) {
    Sizes(s.a.conn) && Sizes(s.b.conn) && Of(s, who).conn.state == Established && Of(s, who).conn.ooo == []
  }

  /** From s to t the end received bytes behind what waited and its peer stayed as it was. */
  predicate Received(s: Sys, t: Sys, who: End, bytes: seq<u8>) {
    var y, z := Of(s, who), Of(t, who);
    && z.conn.rcv == y.conn.rcv + bytes && z.got == y.got && z.sent == y.sent
    && z.conn.rcvNxt == (y.conn.rcvNxt + |bytes|) % 0x1_0000_0000
    && Of(t, Peer(who)) == Of(s, Peer(who)) && SentBy(t, Peer(who)) == SentBy(s, Peer(who))
  }

  lemma ReceivedNone(s: Sys, who: End)
    ensures Received(s, s, who, [])
  {
    assert Of(s, who).conn.rcv + [] == Of(s, who).conn.rcv;
  }

  lemma ReceivedTrans(s: Sys, t: Sys, u: Sys, who: End, bytes: seq<u8>, n: nat)
    requires n <= |bytes| && Received(s, t, who, bytes[..n]) && Received(t, u, who, bytes[n..])
    ensures Received(s, u, who, bytes)
  {
    AddMod(Of(s, who).conn.rcvNxt + n, |bytes| - n);
    assert Of(s, who).conn.rcv + bytes[..n] + bytes[n..] == Of(s, who).conn.rcv + bytes;
  }

  /** Segments that carry bytes from rcv_nxt on, delivered in order with room for them and nothing
      parked, are received whole. */
  lemma {:induction false} InOrderDelivered(s: Sys, who: End, segs: seq<Segment>, at: u64, ackNo: u32, bytes: seq<u8>)
    requires Open(s, who) && Carries(segs, Of(s, who).conn.rcvNxt, ackNo, bytes)
    requires |Of(s, who).conn.rcv| + |bytes| <= 1024 && forall g :: g in segs ==> g in SentBy(s, Peer(who))
    ensures
      var run := Deliveries(who, segs, at);
      Legal(s, run) && Open(After(s, run), who) && Received(s, After(s, run), who, bytes)
    decreases |segs|
  {
    hide Received, Carries, Step, Enabled, Sizes, Open;
    var run := Deliveries(who, segs, at);
    if |segs| == 0 {
      CarriesNone(segs, Of(s, who).conn.rcvNxt, ackNo, bytes);
      ReceivedNone(s, who);
    } else {
      var n := if 536 <= |bytes| then 536 else |bytes|;
      FirstDelivered(s, who, segs, at, ackNo, bytes, n);
      var t := Step(s, who, Deliver(segs[0], at));
      InOrderDelivered(t, who, segs[1..], at, ackNo, bytes[n..]);
      LegalFirst(s, who, Deliver(segs[0], at), Deliveries(who, segs[1..], at));
      ReceivedTrans(s, t, After(s, run), who, bytes, n);
    }
  }

  lemma CarriesNone(segs: seq<Segment>, q: u32, ackNo: u32, bytes: seq<u8>)
    requires Carries(segs, q, ackNo, bytes)
    ensures segs == [] <==> bytes == []
  {}

  lemma FirstDelivered(s: Sys, who: End, segs: seq<Segment>, at: u64, ackNo: u32, bytes: seq<u8>, n: nat)
    requires Open(s, who) && Carries(segs, Of(s, who).conn.rcvNxt, ackNo, bytes)
    requires |segs| > 0 && n == (if 536 <= |bytes| then 536 else |bytes|)
    requires |Of(s, who).conn.rcv| + |bytes| <= 1024 && forall g :: g in segs ==> g in SentBy(s, Peer(who))
    ensures Sizes(s.a.conn) && Sizes(s.b.conn) && Enabled(s, who, Deliver(segs[0], at))
    ensures
      var t := Step(s, who, Deliver(segs[0], at));
      && Open(t, who) && Received(s, t, who, bytes[..n]) && Carries(segs[1..], Of(t, who).conn.rcvNxt, ackNo, bytes[n..])
      && |Of(t, who).conn.rcv| + |bytes[n..]| <= 1024 && forall g :: g in segs[1..] ==> g in SentBy(t, Peer(who))
  {
    hide Step, Enabled, Sizes, Carries;
    var q := Of(s, who).conn.rcvNxt;
    CarriesNone(segs, q, ackNo, bytes);
    CarriesRest(segs, q, ackNo, bytes);
    DeliverInOrder(s, who, segs[0], at);
    if |bytes| < 536 {
      CarriesNone(segs[1..], (q + 536) % 0x1_0000_0000, ackNo, bytes[n..]);
      NothingCarried((q + n) % 0x1_0000_0000, ackNo);
    }
  }

  lemma NothingCarried(q: u32, ackNo: u32)
    ensures Carries([], q, ackNo, [])
  {}

  lemma LegalFirst(s: Sys, who: End, e: Event, rest: Run)
    requires Sizes(s.a.conn) && Sizes(s.b.conn) && Enabled(s, who, e) && Legal(Step(s, who, e), rest)
    ensures Legal(s, [(who, e)] + rest) && After(s, [(who, e)] + rest) == After(Step(s, who, e), rest)
  {
    var run := [(who, e)] + rest;
    assert run[0] == (who, e) && run[1..] == rest;
    hide Sizes, Enabled, Step;
  }

  /** One segment at rcv_nxt that fits, with nothing parked. */
  lemma DeliverInOrder(s: Sys, who: End, g: Segment, at: u64)
    requires Open(s, who) && !g.syn && !g.rst && !g.fin && g.seqNo == Of(s, who).conn.rcvNxt && |g.payload| > 0
    requires |Of(s, who).conn.rcv| + |g.payload| <= 1024 && g in SentBy(s, Peer(who))
    ensures Sizes(s.a.conn) && Sizes(s.b.conn) && Enabled(s, who, Deliver(g, at))
    ensures
      var t := Step(s, who, Deliver(g, at));
      Open(t, who) && Received(s, t, who, g.payload)
  {
    hide Input, Step, Acknowledges, Sizes, StepSide, StepConn;
    StepOf(s, who, Deliver(g, at));
    var y := Of(s, who);
    InOrderEffect(y.conn, g, at);
    assert y.conn.rcv + g.payload + [] == y.conn.rcv + g.payload;
    DeliverSide(y, g, at);
    DeliverEnabled(s, who, g, at);
  }

  lemma DeliverSide(x: Side, g: Segment, at: u64)
    requires Sizes(x.conn) && x.conn.state == Established && Input(x.conn, g, at).0.state == Established
    ensures StepConn(x, Deliver(g, at)) == Input(x.conn, g, at)
    ensures StepSide(x, Deliver(g, at)) == x.(conn := Input(x.conn, g, at).0, up := true)
  {
    hide Input;
  }

  lemma DeliverEnabled(s: Sys, who: End, g: Segment, at: u64)
    requires Of(s, who).conn.state == Established && g in SentBy(s, Peer(who))
    ensures Enabled(s, who, Deliver(g, at))
  {}

  /** The timeout has passed since something was queued. */
  predicate Overdue(c: Conn, time: u64) {
    && |c.snd| > 0 && c.sndOldest != 0
    && (time - c.sndOldest) % 0x1_0000_0000_0000_0000 >= if c.rto == 0 then 1000 else c.rto
  }

  /** A tick of the timer, and what it sends. */
  ghost function TimerStep(s: Sys, who: End, time: u64): (Sys, seq<Segment>)
    requires Up(s)
  {
    (Step(s, who, Timer(time)), StepConn(Of(s, who), Timer(time)).1)
  }

  function Flying(c: Conn): nat {
    (c.sndNxt - c.sndUna) % 0x1_0000_0000
  }

  /** Everything in flight, resent by the timer and delivered in order, is received: whatever was lost
      before, the receiver then has all of what was sent but for what never left the send buffer. */
  lemma ResentIsReceived(s: Sys, who: End, time: u64, at: u64)
    requires Up(s) && Of(s, Peer(who)).conn.rcvNxt == Of(s, who).conn.sndUna && Of(s, Peer(who)).conn.ooo == []
    requires Overdue(Of(s, who).conn, time) && |Of(s, Peer(who)).conn.rcv| + Flying(Of(s, who).conn) <= 1024
    ensures
      var x, f := Of(s, who), Flying(Of(s, who).conn);
      var run := [(who, Timer(time))] + Deliveries(Peer(who), TimerStep(s, who, time).1, at);
      && 0 < f <= |x.conn.snd| && Legal(s, run)
      && var z := Of(After(s, run), Peer(who));
         z.got + z.conn.rcv == x.sent[..|x.sent| - |x.conn.snd| + f]
  {
    hide Sizes, Inv, Legal, Carries, Enabled, Step, StepConn;
    var x, y := Of(s, who), Of(s, Peer(who));
    LinkedIn(s, who);
    TimerResends(s, who, time);
    var (t, o) := TimerStep(s, who, time);
    InOrderDelivered(t, Peer(who), o, at, x.conn.rcvNxt, x.conn.snd[..Flying(x.conn)]);
    LegalFirst(s, who, Timer(time), Deliveries(Peer(who), o, at));
    AllReceived(x, y, Flying(x.conn));
  }

  /** An established direction in plain numbers: what is queued is the end of what was sent, what has
      arrived is a beginning of it that reaches at least to what is queued and at most to what is in
      flight, and rcv_nxt says how far. */
  predicate Linked(x: Side, y: Side) {
    var f := Flying(x.conn);
    var una, rcvd := |x.sent| - |x.conn.snd|, |y.got| + |y.conn.rcv|;
    && |x.sent| < 0x8000_0000 && 0 <= una <= rcvd <= una + f <= |x.sent|
    && x.conn.snd == x.sent[una..] && y.got + y.conn.rcv == x.sent[..rcvd]
    && (|x.conn.snd| > 0 ==> f > 0)
    && y.conn.rcvNxt == (x.conn.sndUna + (rcvd - una)) % 0x1_0000_0000
    && 200 <= x.conn.rto <= 5000 && x.conn.cwnd >= 536
  }

  /** It holds in both directions whenever both ends are established. */
  lemma LinkedIn(s: Sys, who: End)
    requires Up(s)
    ensures Linked(Of(s, who), Of(s, Peer(who)))
  {
    hide Net;
    LinkedFacts(Of(s, who), Of(s, Peer(who)));
  }

  lemma LinkedFacts(x: Side, y: Side)
    requires Local(x) && Local(y) && Flow(x, y) && Flow(y, x)
    requires x.conn.state == Established && y.conn.state == Established
    ensures Linked(x, y)
  {
    UpFacts(x, y);
    UpFacts(y, x);
    FromPosition(y.conn.rcvNxt, x.conn.sndUna, Base(x));
    LinkedNumbers(x, y, Wrap(x.conn.sndUna - Base(x)), Wrap(y.conn.rcvNxt - Base(x)));
    hide Wrap, Local, Flow, SendOk, RecvOk;
  }

  lemma LinkedNumbers(x: Side, y: Side, una: nat, rcvd: nat)
    requires SendOk(x.conn, Base(x), x.sent) && Tight(x.conn) && RtoOk(x.conn)
    requires RecvOk(y.conn, Base(x), x.sent, y.got, Wrap(x.conn.sndNxt - Base(x)))
    requires una == Wrap(x.conn.sndUna - Base(x)) && rcvd == Wrap(y.conn.rcvNxt - Base(x)) && una <= rcvd
    requires y.conn.rcvNxt == (x.conn.sndUna + (rcvd - una)) % 0x1_0000_0000
    ensures Linked(x, y)
  {
    InFlightIs(x.conn, Base(x), x.sent);
    FlyingIs(x.conn);
    assert |y.got + y.conn.rcv| == |y.got| + |y.conn.rcv|;
    hide Wrap, Flying, InFlight;
  }

  lemma FlyingIs(c: Conn)
    ensures Flying(c) == InFlight(c)
  {
    WrapIsMod(c.sndNxt - c.sndUna);
  }

  lemma FromPosition(q: u32, r: u32, base: u32)
    ensures q == (r + (Wrap(q - base) - Wrap(r - base))) % 0x1_0000_0000
  {
    WrapIsMod(q - base);
    WrapIsMod(r - base);
  }

  /** Once the timeout has passed everything in flight goes out again. */
  lemma TimerResends(s: Sys, who: End, time: u64)
    requires Up(s) && Linked(Of(s, who), Of(s, Peer(who))) && Overdue(Of(s, who).conn, time)
    ensures Enabled(s, who, Timer(time))
    ensures
      var x, f := Of(s, who), Flying(Of(s, who).conn);
      var (t, o) := TimerStep(s, who, time);
      && Up(t) && Leads(s, t) && Of(t, Peer(who)) == Of(s, Peer(who))
      && Of(t, who).sent == x.sent && Of(t, who).conn.snd == x.conn.snd && Of(t, who).conn.sndUna == x.conn.sndUna
      && Carries(o, x.conn.sndUna, x.conn.rcvNxt, x.conn.snd[..f])
      && (forall g :: g in o ==> g in SentBy(t, who))
  {
    var x := Of(s, who);
    WrapIsMod(x.conn.sndNxt - x.conn.sndUna);
    hide Step, StepConn, StepSide, Carries, Inv, Tick, Wrap, Sizes, Legal, After, Enabled;
    TimeoutEffect(x.conn, time);
    assert Enabled(s, who, Timer(time)) by { TimerEnabled(s, who, time); }
    LeadsStep(s, who, Timer(time));
    StepOf(s, who, Timer(time));
    TimerSide(x, time);
    InvSizes(Step(s, who, Timer(time)));
  }

  lemma TimerEnabled(s: Sys, who: End, time: u64)
    ensures Enabled(s, who, Timer(time))
  {}

  lemma TimerSide(x: Side, time: u64)
    requires Sizes(x.conn) && TimerDefined(x.conn, time) && x.conn.state == Established
    ensures StepConn(x, Timer(time)) == Tick(x.conn, time)
    ensures StepSide(x, Timer(time)) == x.(conn := Tick(x.conn, time).0, up := true) || Tick(x.conn, time).0.state != Established
  {
    hide Tick;
  }

  lemma AllReceived(x: Side, y: Side, f: nat)
    requires Linked(x, y) && y.conn.rcvNxt == x.conn.sndUna && f <= |x.conn.snd|
    ensures y.got + (y.conn.rcv + x.conn.snd[..f]) == x.sent[..|x.sent| - |x.conn.snd| + f]
  {
    var una, rcvd := |x.sent| - |x.conn.snd|, |y.got| + |y.conn.rcv|;
    NoneAhead(x.conn.sndUna, rcvd - una);
    assert y.got + (y.conn.rcv + x.conn.snd[..f]) == (y.got + y.conn.rcv) + x.conn.snd[..f];
  }

  lemma NoneAhead(q: u32, k: nat)
    requires k < 0x8000_0000 && q == (q + k) % 0x1_0000_0000
    ensures k == 0
  {}

  // ---------------------------------------------------------------- everything queued can still arrive

  /** A legal event between established ends after which both still are. */
  lemma UpStep(s: Sys, who: End, e: Event)
    requires Up(s) && Enabled(s, who, e) && StepSide(Of(s, who), e).conn.state == Established
    ensures
      var t := Step(s, who, e);
      && Up(t) && Leads(s, t) && Of(t, who) == StepSide(Of(s, who), e) && Of(t, Peer(who)) == Of(s, Peer(who))
      && SentBy(t, who) == SentBy(s, who) + Segments(StepConn(Of(s, who), e).1)
      && SentBy(t, Peer(who)) == SentBy(s, Peer(who))
  {
    hide Step, StepSide, StepConn, Segments, Inv, Sizes, Enabled, Legal, After;
    LeadsStep(s, who, e);
    StepOf(s, who, e);
    InvSizes(Step(s, who, e));
  }

  /** The application reads all that waits. */
  lemma Drain(s: Sys, who: End) returns (t: Sys)
    requires Up(s)
    ensures Up(t) && Leads(s, t) && Of(t, Peer(who)) == Of(s, Peer(who)) && SentBy(t, Peer(who)) == SentBy(s, Peer(who))
    ensures
      var y := Of(s, who);
      Of(t, who) == y.(got := y.got + y.conn.rcv, conn := y.conn.(rcv := []), up := true)
  {
    var y := Of(s, who);
    var e := AppRecv(1024);
    RecvEffect(y.conn, 1024);
    assert y.conn.rcv[..|y.conn.rcv|] == y.conn.rcv && y.got + [] == y.got;
    t := Step(s, who, e);
    assert StepSide(y, e) == y.(got := y.got + y.conn.rcv, conn := y.conn.(rcv := []), up := true);
    UpStep(s, who, e);
    hide Inv, Step, StepSide, Legal, After;
  }

  /** A segment that starts at the sender's snd_una, received by an end whose application has read
      everything, is answered with an acknowledgement beyond snd_una. */
  lemma Answered(s: Sys, who: End, g: Segment, at: u64) returns (t: Sys, a: Segment)
    requires Up(s) && Linked(Of(s, who), Of(s, Peer(who))) && Of(s, Peer(who)).conn.rcv == []
    requires g in SentBy(s, who) && !g.syn && !g.rst && !g.fin && |g.payload| > 0 && g.seqNo == Of(s, who).conn.sndUna
    ensures Up(t) && Leads(s, t) && Of(t, who) == Of(s, who) && a in SentBy(t, Peer(who))
    ensures
      var x, z := Of(t, who), Of(t, Peer(who));
      && a == Segment(false, true, false, false, a.seqNo, z.conn.rcvNxt, [])
      && |x.sent| - |x.conn.snd| < |z.got| + |z.conn.rcv|
  {
    hide Inv, Step, StepSide, StepConn, Legal, After, Input, Enabled, Sizes;
    var x, y := Of(s, who), Of(s, Peer(who));
    var e := Deliver(g, at);
    var d, o := Input(y.conn, g, at).0, Input(y.conn, g, at).1;
    var ahead := (|y.got| + |y.conn.rcv|) - (|x.sent| - |x.conn.snd|);
    Apart(x.conn.sndUna, ahead);
    if ahead == 0 {
      InOrderEffect(y.conn, g, at);
    } else {
      BehindEffect(y.conn, g, at);
    }
    a := o[|o| - 1];
    DeliverSide(y, g, at);
    DeliverEnabled(s, Peer(who), g, at);
    UpStep(s, Peer(who), e);
    t := Step(s, Peer(who), e);
    assert a in Segments(o);
  }

  lemma Apart(q: u32, k: nat)
    requires k < 0x8000_0000
    ensures k == 0 ==> (q + k) % 0x1_0000_0000 == q
    ensures k > 0 ==> (q - (q + k) % 0x1_0000_0000) % 0x1_0000_0000 >= 0x8000_0000
    ensures ((q + k) % 0x1_0000_0000 - q) % 0x1_0000_0000 == k
  {}

  /** A bare acknowledgement of all that has arrived takes it off the send buffer. */
  lemma AckArrives(s: Sys, who: End, a: Segment, at: u64) returns (t: Sys)
    requires Up(s) && Linked(Of(s, who), Of(s, Peer(who))) && a in SentBy(s, Peer(who)) && at != 0
    requires a == Segment(false, true, false, false, a.seqNo, Of(s, Peer(who)).conn.rcvNxt, [])
    requires |Of(s, who).sent| - |Of(s, who).conn.snd| < |Of(s, Peer(who)).got| + |Of(s, Peer(who)).conn.rcv|
    ensures Up(t) && Leads(s, t) && Of(t, Peer(who)) == Of(s, Peer(who)) && Of(t, who).sent == Of(s, who).sent
    ensures |Of(t, who).conn.snd| < |Of(s, who).conn.snd| && Pending(Of(t, who).conn)
  {
    hide Inv, Step, StepSide, StepConn, Legal, After, Input, Enabled, Sizes, AckStep, Opened, Emits, Sampled;
    var x, y := Of(s, who), Of(s, Peer(who));
    var k := (|y.got| + |y.conn.rcv|) - (|x.sent| - |x.conn.snd|);
    Apart(x.conn.sndUna, k);
    BareEffect(x.conn, a, at);
    AckLeavesRecv(x.conn, a, at);
    AckedEffect(x.conn, a, at, k);
    DeliverSide(x, a, at);
    DeliverEnabled(s, who, a, at);
    UpStep(s, who, Deliver(a, at));
    t := Step(s, who, Deliver(a, at));
  }

  /** The timer is armed for what is queued.  The source clears it with the time 0, so what is queued
      in millisecond 0 is not timed. */
  predicate Pending(c: Conn) {
    c.snd == [] || c.sndOldest != 0
  }

  /** One timeout, one delivery and one acknowledgement make the send buffer shorter. */
  lemma Round(s: Sys, who: End) returns (t: Sys)
    requires Up(s) && Pending(Of(s, who).conn) && Of(s, who).conn.snd != []
    ensures Up(t) && Leads(s, t) && Pending(Of(t, who).conn) && Of(t, who).sent == Of(s, who).sent
    ensures |Of(t, who).conn.snd| < |Of(s, who).conn.snd|
  {
    hide Up, Leads, Linked, TimerStep, Carries;
    var s1 := Drain(s, Peer(who));
    var c := Of(s1, who).conn;
    assert Of(s1, Peer(Peer(who))) == Of(s1, who);
    LinkedIn(s1, who);
    InFlightSome(s1, who);
    var time := (c.sndOldest + 5000) % 0x1_0000_0000_0000_0000;
    Later(c.sndOldest);
    TimerResends(s1, who, time);
    var (s2, o) := TimerStep(s1, who, time);
    CarriesNone(o, c.sndUna, c.rcvNxt, c.snd[..Flying(c)]);
    CarriesRest(o, c.sndUna, c.rcvNxt, c.snd[..Flying(c)]);
    LinkedIn(s2, who);
    var s3, a := Answered(s2, who, o[0], 0);
    LinkedIn(s3, who);
    t := AckArrives(s3, who, a, 1);
    LeadsTrans(s, s1, s2);
    LeadsTrans(s, s2, s3);
    LeadsTrans(s, s3, t);
  }

  lemma InFlightSome(s: Sys, who: End)
    requires Linked(Of(s, who), Of(s, Peer(who))) && Of(s, who).conn.snd != []
    ensures 0 < Flying(Of(s, who).conn) <= |Of(s, who).conn.snd| && 200 <= Of(s, who).conn.rto <= 5000
  {
    hide Flying;
  }

  lemma Later(x: u64)
    ensures ((x + 5000) % 0x1_0000_0000_0000_0000 - x) % 0x1_0000_0000_0000_0000 == 5000
  {}

  /** Nothing is ever stuck: whatever was lost, from every reachable state with both ends established
      and the timer armed a legal run leads to one where the receiving application has read all that
      was sent and the send buffer is empty. */
  lemma {:induction false} EverythingArrives(s: Sys, who: End) returns (t: Sys)
    requires Up(s) && Pending(Of(s, who).conn)
    ensures Up(t) && Leads(s, t) && Of(t, who).sent == Of(s, who).sent
    ensures Of(t, Peer(who)).got == Of(t, who).sent && Of(t, who).conn.snd == []
    decreases |Of(s, who).conn.snd|
  {
    hide Up, Leads, Linked;
    if Of(s, who).conn.snd == [] {
      t := Drain(s, Peer(who));
      assert Of(t, Peer(Peer(who))) == Of(t, who);
      LinkedIn(s, who);
      AllThere(Of(s, who), Of(s, Peer(who)));
    } else {
      var s1 := Round(s, who);
      t := EverythingArrives(s1, who);
      LeadsTrans(s, s1, t);
    }
  }

  /** The same from tcp_connect on: however the run went so far, it can go on until one end's
      application has read all that the other's wrote. */
  lemma NothingIsStuck(now: u64, run: Run, who: End) returns (more: Run)
    requires Legal(Init(now), run)
    requires
      var s := After(Init(now), run);
      s.a.conn.state == s.b.conn.state == Established && Pending(Of(s, who).conn)
    ensures Legal(Init(now), run + more)
    ensures
      var s, t := After(Init(now), run), After(Init(now), run + more);
      Of(t, who).sent == Of(s, who).sent == Of(t, Peer(who)).got && Of(t, who).conn.snd == []
  {
    hide Inv, Legal, After, Init, Pending;
    var s := After(Init(now), run);
    Reachable(now, run);
    InvSizes(s);
    var t := EverythingArrives(s, who);
    more :| Legal(s, more) && After(s, more) == t;
    LegalAppend(Init(now), run, more);
  }

  lemma AllThere(x: Side, y: Side)
    requires Linked(x, y) && x.conn.snd == []
    ensures y.got + y.conn.rcv == x.sent
  {
    assert x.sent[..|x.sent|] == x.sent;
  }

  // ---------------------------------------------------------------- from connect to the last byte

  /** The application passes bytes to tcp_send until all are taken, waiting for each buffer to drain. */
  lemma {:induction false} AllSent(s: Sys, who: End, data: seq<u8>) returns (t: Sys)
    requires Up(s) && Of(s, who).conn.snd == [] && |Of(s, who).sent| + |data| < STREAM_LIMIT
    ensures Up(t) && Leads(s, t) && Of(t, who).sent == Of(s, who).sent + data
    ensures if data == [] then t == s else Of(t, Peer(who)).got == Of(t, who).sent && Of(t, who).conn.snd == []
    decreases |data|
  {
    hide Up, Leads;
    if data == [] {
      t := s;
      LeadsSelf(s);
      assert Of(s, who).sent + [] == Of(s, who).sent;
    } else {
      var n := if |data| <= 1024 then |data| else 1024;
      var s1 := Queued(s, who, data, n);
      var s2 := EverythingArrives(s1, who);
      t := AllSent(s2, who, data[n..]);
      LeadsTrans(s, s1, s2);
      LeadsTrans(s, s2, t);
      assert Of(s, who).sent + data[..n] + data[n..] == Of(s, who).sent + data;
    }
  }

  lemma LeadsSelf(s: Sys)
    ensures Leads(s, s)
  {
    assert Legal(s, []) && After(s, []) == s;
  }

  lemma Queued(s: Sys, who: End, data: seq<u8>, n: nat) returns (t: Sys)
    requires Up(s) && Of(s, who).conn.snd == [] && |Of(s, who).sent| + |data| < STREAM_LIMIT
    requires data != [] && n == (if |data| <= 1024 then |data| else 1024)
    ensures Up(t) && Leads(s, t) && Pending(Of(t, who).conn) && Of(t, who).sent == Of(s, who).sent + data[..n]
  {
    var x := Of(s, who);
    SendEffect(x.conn, data, 1);
    SendKeepsState(x.conn, data, 1);
    var e := AppSend(data, 1);
    SendSide(x, data, n);
    UpStep(s, who, e);
    t := Step(s, who, e);
    hide Inv, Step, StepSide, StepConn, Send, Legal, After, Emits;
  }

  lemma SendSide(x: Side, data: seq<u8>, n: nat)
    requires Sizes(x.conn) && Accepted(x.conn, data) == n > 0 && Send(x.conn, data, 1).0.state == Established
    requires x.conn.state == Established
    ensures StepSide(x, AppSend(data, 1)) == x.(conn := Send(x.conn, data, 1).0, sent := x.sent + data[..n], up := true)
  {
    hide Send;
  }

  /** For every stream of fewer than 2^31 bytes there is a run, from tcp_connect on, after which the
      other application has read exactly that stream and nothing is left to send. */
  lemma Transfer(now: u64, data: seq<u8>) returns (run: Run)
    requires |data| < STREAM_LIMIT
    ensures Legal(Init(now), run)
    ensures
      var s := After(Init(now), run);
      s.a.sent == data && s.b.got == data && s.a.conn.snd == []
  {
    hide Inv, Legal, After, Init;
    var s0 := Init(now);
    var s1 := Connected(now);
    var s2 := AllSent(s1, ConnectingEnd, data);
    LeadsTrans(s0, s1, s2);
    run :| Legal(s0, run) && After(s0, run) == s2;
    assert [] + data == data;
  }

  lemma Connected(now: u64) returns (s: Sys)
    ensures Leads(Init(now), s) && Up(s) && s.a.sent == s.b.got == [] && s.a.conn.snd == []
  {
    HandshakeCompletes(now, 0, 0, 0);
    var run: Run :| Legal(Init(now), run)
                    && var s := After(Init(now), run);
                       && s.a.conn.state == s.b.conn.state == Established
                       && s.a.sent == s.b.got == [] && s.a.conn.snd == [];
    s := After(Init(now), run);
    Reachable(now, run);
    InvSizes(s);
    hide Inv, Legal, After, Init;
  }
}
