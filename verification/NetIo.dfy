/** The ring as kernel/net_io.c keeps it. */
module NetIo {
  import opened Words
  import opened NetIoSpec

  class RxRing {
    const rxq: array<Pkt>
    var head: nat
    var tail: nat
    /** The frames the handler took and the frames net_io_poll returned. */
    ghost var accepted: seq<Frame>
    ghost var polled: seq<Frame>

    /** The ring with a poller that stands at pc and has this much in its packet. */
    ghost function At(pc: Pc, out: Pkt): State
      reads this, rxq
    {
      State(rxq[..], head, tail, pc, out, accepted, polled)
    }

    /** net_io_init on packets that hold anything. */
    constructor (slots: seq<Pkt>, ghost out: Pkt)
      requires |slots| == RX_QUEUE && PktOk(out) && forall i :: 0 <= i < RX_QUEUE ==> PktOk(slots[i])
      ensures fresh(rxq) && At(Idle, out) == Init(slots, out) && Inv(At(Idle, out))
    {
      rxq := new Pkt[16](i requires 0 <= i < 16 => slots[i]);
      head, tail := 0, 0;
      accepted, polled := [], [];
      new;
      SlotIs(0);
      assert rxq[..] == slots;
    }

    /** rx_handler, wherever the poller stands. */
    method RxHandler(frame: Frame, ghost pc: Pc, ghost out: Pkt)
      requires Inv(At(pc, out))
      modifies this, rxq
      ensures At(pc, out) == Receive(old(At(pc, out)), frame) && Inv(At(pc, out))
    {
      ReceiveKeeps(At(pc, out), frame);
      hide Inv, Ring, PcOk, Fill, Carries;
      if |frame| > RX_MAX_FRAME { return; }
      var next := Slot(tail + 1);
      if next == head { return; }
      CopyIn(frame);
      tail := next;
      accepted := accepted + [frame];
    }

    /** The copy loop of rx_handler. */
    method CopyIn(frame: Frame)
      requires rxq.Length == RX_QUEUE && tail < RX_QUEUE && PktOk(rxq[tail]) && |frame| <= RX_MAX_FRAME
      modifies rxq
      ensures rxq[..] == old(rxq[..])[tail := Fill(old(rxq[tail]), frame)]
    {
      ghost var was, all := rxq[tail].data, rxq[..];
      rxq[tail] := rxq[tail].(len := |frame|);
      HalfWays(frame, was);
      hide Half;
      for i := 0 to |frame|
        modifies rxq
        invariant rxq[tail] == Pkt(|frame|, Half(frame, was, i))
        invariant forall k :: 0 <= k < RX_QUEUE && k != tail ==> rxq[k] == all[k]
      {
        HalfStep(frame, was, i);
        rxq[tail] := rxq[tail].(data := rxq[tail].data[i := frame[i]]);
      }
    }

    /** The handlers that run before the poller's next access. */
    method Interrupts(frames: seq<Frame>, ghost pc: Pc, ghost out: Pkt)
      requires Inv(At(pc, out))
      modifies this, rxq
      ensures Inv(At(pc, out)) && old(accepted) <= accepted && polled == old(polled)
      ensures head == old(head)
    {
      for i := 0 to |frames|
        modifies this, rxq
        invariant Inv(At(pc, out)) && old(accepted) <= accepted && polled == old(polled) && head == old(head)
      {
        RxHandler(frames[i], pc, out);
      }
    }

    /** net_io_poll, with the handlers of arriving(k) run before its k-th access to the ring: it
        returns the oldest frame that was waiting, unchanged, whatever arrives meanwhile. */
    method Poll(packet: Pkt, arriving: nat -> seq<Frame>) returns (ok: bool, out: Pkt)
      requires Inv(At(Idle, packet))
      modifies this, rxq
      ensures Inv(At(Idle, out)) && old(accepted) <= accepted
      ensures ok ==> |old(polled)| < |accepted| && Carries(out, accepted[|old(polled)|])
      ensures polled == old(polled) + (if ok then [out.data[..out.len]] else [])
      ensures |old(accepted)| > |old(polled)| ==> ok
    {
      out := packet;
      var k := 0;
      Interrupts(arriving(k), Idle, out);
      PollKeeps(At(Idle, out));
      var h := head;
      k := k + 1;
      Interrupts(arriving(k), GotHead(h), out);
      PollKeeps(At(GotHead(h), out));
      if h == tail {
        EmptyRing(At(GotHead(h), out));
        return false, out;
      }
      out := TakeFrame(k + 1, out, arriving);
      ok := true;
    }

    /** The rest of net_io_poll once the ring was seen not empty. */
    method TakeFrame(k: nat, packet: Pkt, arriving: nat -> seq<Frame>) returns (out: Pkt)
      requires Inv(At(NotEmpty, packet))
      modifies this, rxq
      ensures Inv(At(Idle, out)) && old(accepted) <= accepted
      ensures |old(polled)| < |accepted| && Carries(out, accepted[|old(polled)|])
      ensures polled == old(polled) + [out.data[..out.len]]
    {
      hide Slot, InSlot, Carries;
      Interrupts(arriving(k), NotEmpty, packet);
      PollKeeps(At(NotEmpty, packet));
      out := packet.(len := rxq[head].len);
      var n;
      n, out := CopyFrame(k, out, arriving);
      Interrupts(arriving(n + 1), Done, out);
      AdvanceKeeps(At(Done, out));
      head := Slot(head + 1);
      polled := polled + [out.data[..out.len]];
      CarriesIs(out, accepted[|old(polled)|]);
    }

    /** The copy loop of net_io_poll; the length in the ring is read again in every round. */
    method CopyFrame(first: nat, packet: Pkt, arriving: nat -> seq<Frame>) returns (k: nat, out: Pkt)
      requires Inv(At(Test(0), packet))
      modifies this, rxq
      ensures Inv(At(Done, out)) && old(accepted) <= accepted && polled == old(polled)
    {
      out, k := packet, first + 1;
      var i := 0;
      Interrupts(arriving(k), Test(i), out);
      while i < rxq[head].len
        modifies this, rxq
        invariant i >= 0 && Inv(At(Test(i), out)) && old(accepted) <= accepted && polled == old(polled)
        decreases RX_MAX_FRAME - i
      {
        PollKeeps(At(Test(i), out));
        k := k + 1;
        Interrupts(arriving(k), Byte(i), out);
        PollKeeps(At(Byte(i), out));
        out := out.(data := out.data[i := rxq[head].data[i]]);
        i := i + 1;
        k := k + 1;
        Interrupts(arriving(k), Test(i), out);
      }
      PollKeeps(At(Test(i), out));
    }
  }

  /** head == tail means that nothing waits. */
  lemma EmptyRing(s: State)
    requires Ring(s) && s.head == s.tail
    ensures |s.accepted| == |s.polled|
  {
    SlotIs(s.head + (|s.accepted| - |s.polled|));
    SlotIs(s.head);
  }

  /** The bytes after i rounds of the copy. */
  function Half(f: Frame, was: seq<u8>, i: nat): (r: seq<u8>)
    requires i <= |f| <= |was|
    ensures |r| == |was|
  {
    f[..i] + was[i..]
  }

  lemma HalfWays(f: Frame, was: seq<u8>)
    requires |f| <= |was|
    ensures Half(f, was, 0) == was && Half(f, was, |f|) == f + was[|f|..]
  {}

  lemma HalfStep(f: Frame, was: seq<u8>, i: nat)
    requires i < |f| <= |was|
    ensures Half(f, was, i + 1) == Half(f, was, i)[i := f[i]]
  {}

  lemma CarriesIs(p: Pkt, f: Frame)
    requires PktOk(p) && p.data[..p.len] == f
    ensures Carries(p, f)
  {
    assert |p.data[..p.len]| == p.len;
  }
}
