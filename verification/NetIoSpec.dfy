/** The receive ring of kernel/net_io.c.  The receive handler runs inside the network interrupt, so
    it is one step; net_io_poll runs with interrupts on, so each of its reads and writes of the
    ring is a step of its own and a handler may run between any two of them. */
module NetIoSpec {
  import opened Words

  const RX_QUEUE := 16
  const RX_MAX_FRAME := 1518

  type Frame = seq<u8>

  /** netio_pkt_t. */
  datatype Pkt = Pkt(len: nat, data: seq<u8>)

  /** Where net_io_poll stands. */
  datatype Pc =
    | Idle                       // outside the call
    | GotHead(head: nat)         // head read, tail not yet
    | NotEmpty                   // they differed
    | Test(i: nat)               // about to compare i with the length in the ring
    | Byte(i: nat)               // about to copy byte i
    | Done                       // about to advance head

  /** The ring, the poller's packet, and what has gone in and come out so far. */
  datatype State = State(rxq: seq<Pkt>, head: nat, tail: nat, pc: Pc, out: Pkt, accepted: seq<Frame>, polled: seq<Frame>)

  predicate PktOk(p: Pkt) {
    p.len <= RX_MAX_FRAME == |p.data|
  }

  /** The packet holds the frame. */
  predicate Carries(p: Pkt, f: Frame) {
    PktOk(p) && p.len == |f| && p.data[..p.len] == f
  }

  /** i % NETIO_RX_QUEUE. */
  function Slot(i: nat): (r: nat)
    ensures r < RX_QUEUE
  {
    i % RX_QUEUE
  }

  /** The copy loop of the handler: the frame over the old bytes. */
  function Fill(p: Pkt, f: Frame): (r: Pkt)
    requires PktOk(p) && |f| <= RX_MAX_FRAME
    ensures Carries(r, f)
  {
    Pkt(|f|, f + p.data[|f|..])
  }

  predicate Shape(s: State) {
    && |s.rxq| == RX_QUEUE && (forall i :: 0 <= i < RX_QUEUE ==> PktOk(s.rxq[i]))
    && s.head < RX_QUEUE && s.tail < RX_QUEUE && PktOk(s.out)
  }

  /** rx_handler. */
  function Receive(s: State, f: Frame): State
    requires Shape(s)
  {
    var next := Slot(s.tail + 1);
    if |f| > RX_MAX_FRAME || next == s.head then s
    else s.(rxq := s.rxq[s.tail := Fill(s.rxq[s.tail], f)], tail := next, accepted := s.accepted + [f])
  }

  /** One read or write of net_io_poll. */
  function PollStep(s: State): State
    requires Shape(s)
  {
    match s.pc
    case Idle => s.(pc := GotHead(s.head))
    case GotHead(h) => s.(pc := if h == s.tail then Idle else NotEmpty)
    case NotEmpty => s.(out := s.out.(len := s.rxq[s.head].len), pc := Test(0))
    case Test(i) => s.(pc := if i < s.rxq[s.head].len then Byte(i) else Done)
    case Byte(i) =>
      if i < RX_MAX_FRAME
      then s.(out := s.out.(data := s.out.data[i := s.rxq[s.head].data[i]]), pc := Test(i + 1))
      else s
    case Done => s.(head := Slot(s.head + 1), pc := Idle, polled := s.polled + [s.out.data[..s.out.len]])
  }

  datatype Event = Interrupt(frame: Frame) | Poller

  function Init(rxq: seq<Pkt>, out: Pkt): State {
    State(rxq, 0, 0, Idle, out, [], [])
  }

  // ---------------------------------------------------------------- the invariant

  /** Frame k of those accepted and not yet polled is in slot head + k. */
  predicate InSlot(s: State, k: nat)
    requires Shape(s) && |s.polled| + k < |s.accepted|
  {
    Carries(s.rxq[Slot(s.head + k)], s.accepted[|s.polled| + k])
  }

  ghost predicate Ring(s: State) {
    && Shape(s)
    && |s.polled| <= |s.accepted| <= |s.polled| + 15
    && s.polled == s.accepted[..|s.polled|]
    && s.tail == Slot(s.head + (|s.accepted| - |s.polled|))
    && forall k :: 0 <= k < |s.accepted| - |s.polled| ==> InSlot(s, k)
  }

  /** While a frame is being copied it stays the oldest one, and the copy agrees with it. */
  predicate Copying(s: State, i: nat)
    requires Shape(s)
  {
    && |s.polled| < |s.accepted| && InSlot(s, 0)
    && s.out.len == s.rxq[s.head].len && i <= s.out.len
    && s.out.data[..i] == s.rxq[s.head].data[..i]
  }

  predicate PcOk(s: State)
    requires Shape(s)
  {
    match s.pc
    case Idle => true
    case GotHead(h) => h == s.head
    case NotEmpty => |s.polled| < |s.accepted|
    case Test(i) => Copying(s, i)
    case Byte(i) => Copying(s, i) && i < s.out.len
    case Done => Copying(s, s.out.len)
  }

  ghost predicate Inv(s: State) {
    Ring(s) && PcOk(s)
  }

  lemma SlotIs(i: nat)
    ensures i < RX_QUEUE ==> Slot(i) == i
    ensures RX_QUEUE <= i < 2 * RX_QUEUE ==> Slot(i) == i - RX_QUEUE
  {}

  lemma SlotShift(h: nat, k: nat)
    ensures Slot(Slot(h + 1) + k) == Slot(h + k + 1)
  {}

  /** The handler takes a frame exactly when it is not too long and fewer than 15 wait. */
  lemma ReceiveAcceptsIff(s: State, f: Frame)
    requires Ring(s)
    ensures
      Receive(s, f).accepted ==
        if |f| <= 1518 && |s.accepted| - |s.polled| < 15 then s.accepted + [f] else s.accepted
  {
    var n := |s.accepted| - |s.polled|;
    SlotIs(s.head + n);
    SlotIs(s.tail + 1);
  }

  lemma ReceiveKeeps(s: State, f: Frame)
    requires Inv(s)
    ensures Inv(Receive(s, f))
  {
    hide Fill;
    var t := Receive(s, f);
    ReceiveAcceptsIff(s, f);
    var n := |s.accepted| - |s.polled|;
    if t != s {
      SlotIs(s.head + n);
      SlotIs(s.tail + 1);
      SlotIs(s.head + n + 1);
      forall k | 0 <= k < n + 1 ensures InSlot(t, k) {
        SlotIs(s.head + k);
        if k < n {
          assert InSlot(s, k);
        }
      }
      SlotIs(s.head);
      if n > 0 {
        assert InSlot(s, 0);
      }
    }
  }

  lemma PollKeeps(s: State)
    requires Inv(s)
    ensures Inv(PollStep(s))
  {
    var t := PollStep(s);
    var n := |s.accepted| - |s.polled|;
    SlotIs(s.head);
    SlotIs(s.head + n);
    match s.pc {
      case Idle => SameRing(s, t);
      case GotHead(h) => SameRing(s, t);
      case NotEmpty =>
        assert InSlot(s, 0);
        SameRing(s, t);
      case Test(i) => SameRing(s, t);
      case Byte(i) => SameRing(s, t);
      case Done => AdvanceKeeps(s);
    }
  }

  lemma SameRing(s: State, t: State)
    requires Ring(s) && Shape(t) && t.rxq == s.rxq && t.head == s.head && t.tail == s.tail
    requires t.accepted == s.accepted && t.polled == s.polled
    ensures Ring(t)
    ensures forall k :: 0 <= k < |s.accepted| - |s.polled| ==> InSlot(t, k) == InSlot(s, k)
  {
    forall k | 0 <= k < |s.accepted| - |s.polled| ensures InSlot(t, k) == InSlot(s, k) {
      assert InSlot(s, k);
    }
  }

  /** Advancing head hands over the oldest frame, byte for byte. */
  lemma AdvanceKeeps(s: State)
    requires Inv(s) && s.pc == Done
    ensures Inv(PollStep(s))
    ensures PollStep(s).polled == s.polled + [s.accepted[|s.polled|]]
  {
    var t := PollStep(s);
    var n := |s.accepted| - |s.polled|;
    SlotIs(s.head);
    SlotIs(s.head + 1);
    assert s.out.data[..s.out.len] == s.accepted[|s.polled|];
    forall k | 0 <= k < n - 1 ensures InSlot(t, k) {
      assert InSlot(s, k + 1);
      SlotShift(s.head, k);
    }
    SlotShift(s.head, n - 1);
  }

  // ---------------------------------------------------------------- whole runs

  function Step(s: State, e: Event): State
    requires Shape(s)
  {
    match e
    case Interrupt(f) => Receive(s, f)
    case Poller => PollStep(s)
  }

  lemma StepKeeps(s: State, e: Event)
    requires Inv(s)
    ensures Inv(Step(s, e))
  {
    match e
    case Interrupt(f) => ReceiveKeeps(s, f);
    case Poller => PollKeeps(s);
  }

  /** The state after a prefix of the events. */
  ghost predicate Reaches(s: State, es: seq<Event>, t: State)
    decreases |es|
  {
    if |es| == 0 then s == t
    else Shape(s) && Reaches(Step(s, es[0]), es[1..], t)
  }

  lemma {:induction false} RunInv(s: State, es: seq<Event>, t: State)
    requires Inv(s) && Reaches(s, es, t)
    ensures Inv(t)
    decreases |es|
  {
    if |es| > 0 {
      StepKeeps(s, es[0]);
      RunInv(Step(s, es[0]), es[1..], t);
    }
  }

  /** On every interleaving the frames polled are, in order and byte for byte, the first of the
      frames accepted, and at most 15 wait. */
  lemma PolledIsPrefix(rxq: seq<Pkt>, out: Pkt, es: seq<Event>, t: State)
    requires Shape(Init(rxq, out)) && Reaches(Init(rxq, out), es, t)
    ensures t.polled <= t.accepted && |t.accepted| - |t.polled| <= 15
  {
    SlotIs(0);
    assert Ring(Init(rxq, out));
    RunInv(Init(rxq, out), es, t);
  }

  // ---------------------------------------------------------------- the poller left alone

  /** n accesses of the poller with no interrupt between them. */
  ghost function Polls(s: State, n: nat): (t: State)
    requires Inv(s)
    ensures Inv(t)
    decreases n
  {
    if n == 0 then s
    else
      PollKeeps(s);
      Polls(PollStep(s), n - 1)
  }

  /** The frame is handed over and the slot released. */
  predicate HandedOver(s: State, t: State)
    requires |s.polled| < |s.accepted|
  {
    && t.pc == Idle && t.polled == s.polled + [s.accepted[|s.polled|]] && t.accepted == s.accepted
    && t.head == (s.head + 1) % 16 && t.tail == s.tail && t.rxq == s.rxq
  }

  lemma PollsNext(s: State, n: nat)
    requires Inv(s) && n > 0
    ensures Shape(s) && Inv(PollStep(s)) && Polls(s, n) == Polls(PollStep(s), n - 1)
  {
    PollKeeps(s);
    hide PollStep, Ring, PcOk;
  }

  lemma {:induction false} CopyEnds(s: State, i: nat)
    requires Inv(s) && s.pc == Test(i)
    ensures |s.polled| < |s.accepted| && i <= s.out.len && HandedOver(s, Polls(s, 2 * (s.out.len - i) + 2))
    decreases s.out.len - i
  {
    hide Ring, InSlot, Slot, Polls;
    var n := 2 * (s.out.len - i) + 2;
    PollsNext(s, n);
    var t := PollStep(s);
    PollsNext(t, n - 1);
    var u := PollStep(t);
    if i < s.rxq[s.head].len {
      CopyEnds(u, i + 1);
    } else {
      AdvanceKeeps(t);
      SlotMod(t.head + 1);
      PollsNone(u);
    }
  }

  lemma PollsNone(s: State)
    requires Inv(s)
    ensures Polls(s, 0) == s
  {}

  lemma SlotMod(i: nat)
    ensures Slot(i) == i % 16
  {}

  /** A call that finds a frame waiting and is not interrupted returns the oldest after five accesses
      and two for each of its bytes; one that finds none leaves everything as it is after two. */
  lemma PollerDelivers(s: State)
    requires Inv(s) && s.pc == Idle
    ensures
      if |s.polled| < |s.accepted| then HandedOver(s, Polls(s, 2 * |s.accepted[|s.polled|]| + 5))
      else Polls(s, 2) == s
  {
    hide Slot, Ring, Polls, InSlot;
    HeadTail(s);
    var n := if |s.polled| < |s.accepted| then 2 * |s.accepted[|s.polled|]| + 5 else 2;
    PollsNext(s, n);
    var t := PollStep(s);
    PollsNext(t, n - 1);
    var u := PollStep(t);
    if |s.polled| < |s.accepted| {
      PollsNext(u, n - 2);
      CopyEnds(PollStep(u), 0);
    } else {
      PollsNone(u);
    }
  }

  /** The ring is empty exactly when head and tail meet, and the head slot holds the oldest frame. */
  lemma HeadTail(s: State)
    requires Ring(s)
    ensures |s.polled| == |s.accepted| <==> s.head == s.tail
    ensures |s.polled| < |s.accepted| ==> s.rxq[s.head].len == |s.accepted[|s.polled|]|
    ensures |s.polled| <= |s.accepted| && Shape(s)
  {
    var n := |s.accepted| - |s.polled|;
    SlotIs(s.head + n);
    SlotIs(s.head);
    if n > 0 {
      assert InSlot(s, 0);
    }
  }
}
