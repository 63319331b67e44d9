/** Where receive buffers go and which client is told, stated for each action of the hardware and the clients on the
  * stack, the hardware's buffers and the clients' records themselves.
  */
module EthReceive {
  import opened Bytes
  import opened EthModel
  import opened EthInvariant
  import opened EthFrames

  // ----- the hardware asks for a buffer -----

  /** A request that is not too large gets the buffer on top of the stack while there is one; otherwise nothing
    * happens. */
  lemma AllocStack(s: Sys, size: nat)
    requires s.ports != []
    ensures var r, n := Step(s, HwAlloc(size)), |s.free|;
      if size <= BUF_SIZE && n > 0
      then s.free == r.free + [s.free[n - 1]] && r == s.(free := r.free, hw := s.hw + multiset{s.free[n - 1]})
      else r == s
  {
    hide Alloc;
    AllocIs(s, size);
  }

  lemma AllocIs(s: Sys, size: nat)
    ensures var n := |s.free|;
      Alloc(s, size) == if size <= BUF_SIZE && n > 0
                        then s.(free := s.free[..n - 1], hw := s.hw + multiset{s.free[n - 1]}) else s
  {
  }

  // ----- the hardware completes buffers -----

  /** The client a frame in its own buffer is meant for: the one it is addressed to, else client 0. */
  function Receiver(s: Sys, frame: seq<byte>): (c: nat)
    requires s.ports != []
    ensures c < |s.ports|
  {
    if Detect(s.ports, frame) < |s.ports| then Detect(s.ports, frame) else 0
  }

  /** How many buffers the copies of a frame take. */
  function CopiesOf(s: Sys, frame: seq<byte>): (n: nat)
    ensures n <= |s.free|
  {
    var wanted := Open(s.ports, 1, |s.ports|);
    if Detect(s.ports, frame) < |s.ports| || !IsBroadcast(frame) then 0
    else if wanted < |s.free| then wanted else |s.free|
  }

  /** Completed buffers always leave the hardware. Unless there is just one, they all go back on the stack, in order.
    * One goes back on what the copies have left of the stack exactly when its receiver does not take the frame. */
  lemma ReceiveStack(s: Sys, bufs: seq<Buf>, lens: seq<nat>)
    requires Inv(s) && s.ports != [] && Can(s, HwRx(bufs, lens))
    ensures var r := Step(s, HwRx(bufs, lens));
      && r.hw == s.hw - multiset(bufs)
      && (|bufs| != 1 ==> r.free == s.free + bufs && r.ports == s.ports && r.dma == s.dma)
      && (|bufs| == 1 ==>
            var frame := Contents(s.dma, bufs[0].vbuf, lens[0]);
            r.free == s.free[..|s.free| - CopiesOf(s, frame)]
                      + if Takes(s, frame, Receiver(s, frame)) then [] else bufs)
  {
    hide Inv, RxComplete, Contents, Takes, Receiver, CopiesOf;
    if |bufs| == 1 {
      assert bufs == [bufs[0]] && lens == [lens[0]] && bufs[0] in multiset(bufs);
      ReceiveOneStack(s, bufs[0], lens[0]);
    } else {
      ReceiveManyStack(s, bufs, lens);
    }
  }

  lemma ReceiveManyStack(s: Sys, bufs: seq<Buf>, lens: seq<nat>)
    requires s.ports != [] && |bufs| == |lens| != 1
    ensures RxComplete(s, bufs, lens) == s.(free := s.free + bufs, hw := s.hw - multiset(bufs))
  {
    hide PutAllBack;
    PutAllBackIs(s, bufs);
  }

  lemma ReceiveOneStack(s: Sys, b: Buf, len: nat)
    requires Inv(s) && s.ports != [] && b in s.hw && len <= BUF_SIZE
    ensures var r, frame := RxComplete(s, [b], [len]), Contents(s.dma, b.vbuf, len);
      && r.hw == s.hw - multiset{b}
      && r.free == s.free[..|s.free| - CopiesOf(s, frame)] + if Takes(s, frame, Receiver(s, frame)) then [] else [b]
  {
    hide Inv, CopyFrom, Contents, Detect, IsBroadcast, Full;
    var frame, t := Contents(s.dma, b.vbuf, len), CopyFrom(s, b, len, 1);
    if Detect(s.ports, frame) == |s.ports| && IsBroadcast(frame) {
      CopyFromFrames(s, b, len, 1, 0);
      CopyFromStack(s, b, len, 1);
      CopyFromHw(s, b, len, 1);
    }
    assert s.free[..|s.free|] == s.free;
  }

  lemma CopyToHw(s: Sys, b: Buf, len: nat, c: nat)
    requires c < |s.ports|
    ensures CopyTo(s, b, len, c).hw == s.hw
  {
    hide Fill, Contents;
  }

  lemma {:induction false} CopyFromHw(s: Sys, b: Buf, len: nat, i: nat)
    requires i <= |s.ports|
    ensures CopyFrom(s, b, len, i).hw == s.hw
    decreases |s.ports| - i
  {
    hide CopyTo;
    if i < |s.ports| {
      CopyToHw(s, b, len, i);
      CopyFromHw(CopyTo(s, b, len, i), b, len, i + 1);
    }
  }

  /** A client's record after a completion, given whether it took the frame: one more frame waits, and it is notified
    * exactly if it had asked for it, which it has to do again. */
  ghost predicate Told(p: Port, q: Port, takes: bool) {
    && q.id == p.id && q.mac == p.mac && q.tx == p.tx
    && (if takes then |q.queue| == |p.queue| + 1 && q.queue[..|p.queue|] == p.queue else q.queue == p.queue)
    && q.signal == (p.signal || (takes && p.shouldNotify)) && q.shouldNotify == (p.shouldNotify && !takes)
  }

  /** Every client that takes a completed frame, and no other, is notified of it if it had asked. */
  lemma ReceiveTells(s: Sys, b: Buf, len: nat, c: nat)
    requires Inv(s) && s.ports != [] && b in s.hw && len <= BUF_SIZE && c < |s.ports|
    ensures var frame := Contents(s.dma, b.vbuf, len);
      Told(s.ports[c], Step(s, HwRx([b], [len])).ports[c], Takes(s, frame, c))
  {
    hide Inv, CopyFrom, Contents, Detect, IsBroadcast, Told, Full;
    var frame, t := Contents(s.dma, b.vbuf, len), CopyFrom(s, b, len, 1);
    var d := Detect(s.ports, frame);
    if d < |s.ports| {
      DeliverTells(s, d, b, len, c);
    } else if IsBroadcast(frame) {
      CopyFromTells(s, b, len, 1, c);
      CopyFromFrames(s, b, len, 1, 0);
      DeliverTells(t, 0, b, len, c);
      TellsChain(s.ports[c], t.ports[c], Deliver(t, 0, b, len).ports[c], c > 0 && Takes(s, frame, c),
                 c == 0 && Takes(s, frame, c));
    } else {
      TellsNothing(s.ports[c]);
    }
  }

  lemma TellsNothing(p: Port)
    ensures Told(p, p, false)
  {
  }

  lemma TellsChain(p: Port, q: Port, r: Port, first: bool, second: bool)
    requires Told(p, q, first) && Told(q, r, second) && !(first && second)
    ensures Told(p, r, first || second)
  {
  }

  lemma DeliverTells(s: Sys, c: nat, b: Buf, len: nat, d: nat)
    requires c < |s.ports| && d < |s.ports|
    ensures Told(s.ports[d], Deliver(s, c, b, len).ports[d], d == c && !Full(s.ports[c]))
  {
    hide Full;
  }

  lemma CopyToTells(s: Sys, b: Buf, len: nat, c: nat, d: nat)
    requires c < |s.ports| && d < |s.ports| && len <= BUF_SIZE
    ensures Told(s.ports[d], CopyTo(s, b, len, c).ports[d], d == c && GetsCopy(s, c))
  {
    hide Full, Fill, Contents;
  }

  lemma {:induction false} CopyFromTells(s: Sys, b: Buf, len: nat, i: nat, d: nat)
    requires Inv(s) && b in s.hw && len <= BUF_SIZE && i <= |s.ports| && d < |s.ports|
    ensures Told(s.ports[d], CopyFrom(s, b, len, i).ports[d],
                 i <= d && !Full(s.ports[d]) && Open(s.ports, i, d) < |s.free|)
    decreases |s.ports| - i
  {
    hide Inv, Held, CopyTo, Contents, Full, Frames, Told;
    if i == |s.ports| {
      TellsNothing(s.ports[d]);
    } else {
      var t := CopyTo(s, b, len, i);
      CopyToInv(s, b, len, i);
      CopyToHeld(s, b, len, i);
      forall c | 0 <= c < |s.ports| ensures c != i ==> Full(t.ports[c]) == Full(s.ports[c]) {
        CopyToFrames(s, b, len, i, c);
      }
      CopyToFrames(s, b, len, i, d);
      CopyToTells(s, b, len, i, d);
      CopyFromTells(t, b, len, i + 1, d);
      if i < d {
        OpenShift(s.ports, t.ports, i, d);
      }
      TellsChain(s.ports[d], t.ports[d], CopyFrom(s, b, len, i).ports[d], d == i && GetsCopy(s, i),
                 i < d && !Full(s.ports[d]) && Open(s.ports, i, d) < |s.free|);
    }
  }

  /** A frame addressed to a client is added to its ring exactly while fewer than 127 wait there. */
  lemma RoomForFrame(s: Sys, b: Buf, len: nat)
    requires Inv(s) && s.ports != [] && b in s.hw && len <= BUF_SIZE
    requires Detect(s.ports, Contents(s.dma, b.vbuf, len)) < |s.ports|
    ensures var frame := Contents(s.dma, b.vbuf, len); var c := Detect(s.ports, frame);
      Frames(Step(s, HwRx([b], [len])), c) == Frames(s, c) + if |Frames(s, c)| < 127 then [frame] else []
  {
    var c := Detect(s.ports, Contents(s.dma, b.vbuf, len));
    assert Ring(s.ports[c]);
    hide Inv, Contents, RxComplete, Detect;
    ReceiveFrames(s, b, len, c);
  }

  // ----- a client takes a frame or sends one -----

  predicate AllZero(z: seq<byte>) {
    |z| == BUF_SIZE && forall i :: 0 <= i < |z| ==> z[i] == 0
  }

  /** `client_rx` returns the buffer of the frame it hands out to the stack, zeroed; nothing goes to the hardware, and
    * nothing else is written. */
  lemma ClientRxStack(s: Sys, id: int)
    requires Inv(s) && s.ports != []
    ensures var r, c := Step(s, Rx(id)), Find(s.ports, id);
      && r.hw == s.hw && r.wire == s.wire
      && if c < |s.ports| && s.ports[c].queue != []
         then
           var b := s.ports[c].queue[0].buf;
           && r.free == s.free + [b]
           && AllZero(Contents(r.dma, b.vbuf, BUF_SIZE))
           && (forall v, len :: v != b.vbuf ==> Contents(r.dma, v, len) == Contents(s.dma, v, len))
         else r.free == s.free && r.dma == s.dma
  {
    var c := Find(s.ports, id);
    if c < |s.ports| && s.ports[c].queue != [] {
      var b := s.ports[c].queue[0].buf;
      HeadHeld(s, c);
      assert b.vbuf in s.dma;
      hide Inv, Fill, Find;
      FillShape(s.dma, b.vbuf, Zeros());
    }
  }

  /** A call by an unknown client fails and changes nothing. */
  lemma UnknownClient(s: Sys, id: int, len: int, packet: seq<byte>)
    requires s.ports != [] && forall c :: 0 <= c < |s.ports| ==> s.ports[c].id != id
    ensures Step(s, Rx(id)) == s && RxStatusOf(s, id) == RX_FAILURE
    ensures Step(s, Tx(id, len, packet)) == s && TxStatusOf(s, id, len) == TX_FAILED
  {
    hide FindFrom;
  }
}
