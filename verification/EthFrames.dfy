/** What the clients see: every frame accepted for a client is delivered to it unchanged, once and in order,
  * whatever the hardware and the other clients do meanwhile; and who accepts a broadcast.
  */
module EthFrames {
  import opened Bytes
  import opened EthModel
  import opened EthInvariant

  /** The frames waiting in a ring. */
  function FramesOf(q: seq<Pending>, dma: map<Addr, seq<byte>>): (f: seq<seq<byte>>)
    ensures |f| == |q|
  {
    seq(|q|, k requires 0 <= k < |q| => Contents(dma, q[k].buf.vbuf, q[k].len))
  }

  function Frames(s: Sys, c: nat): seq<seq<byte>>
    requires c < |s.ports|
  {
    FramesOf(s.ports[c].queue, s.dma)
  }

  // ----- who accepts a frame -----

  /** How many of the clients `i` to `c - 1` have room. */
  function Open(ports: seq<Port>, i: nat, c: nat): nat
    requires c <= |ports|
    decreases c
  {
    if c <= i then 0 else Open(ports, i, c - 1) + if Full(ports[c - 1]) then 0 else 1
  }

  /** A frame for a client's address goes to that client. A broadcast goes to the clients from 1 on that have
    * room, while free buffers last, and to client 0. Nobody takes a frame without room for it. */
  predicate Takes(s: Sys, frame: seq<byte>, c: nat)
    requires c < |s.ports|
  {
    && !Full(s.ports[c])
    && if Detect(s.ports, frame) < |s.ports| then c == Detect(s.ports, frame)
       else IsBroadcast(frame) && (c == 0 || Open(s.ports, 1, c) < |s.free|)
  }

  /** What an event adds to the frames accepted for client `c`. */
  function Accepted(s: Sys, e: Event, c: nat): seq<seq<byte>>
    requires c < |s.ports|
  {
    if e.HwRx? && |e.bufs| == 1 && |e.lens| == 1 && Takes(s, Contents(s.dma, e.bufs[0].vbuf, e.lens[0]), c)
    then [Contents(s.dma, e.bufs[0].vbuf, e.lens[0])] else []
  }

  /** What an event copies out to client `c`. */
  function Delivered(s: Sys, e: Event, c: nat): seq<seq<byte>>
    requires c < |s.ports|
  {
    if e.Rx? && Find(s.ports, e.id) == c && s.ports[c].queue != [] then [Packet(s, e.id)] else []
  }

  // ----- waiting frames are not disturbed -----

  /** A buffer on the stack or with the hardware is not in a ring. */
  lemma NotQueued(s: Sys, b: Buf, c: nat)
    requires Pool(Held(s)) && (b in s.hw || b in s.free) && c < |s.ports|
    ensures b in Held(s)
    ensures forall k :: 0 <= k < |s.ports[c].queue| ==> s.ports[c].queue[k].buf.vbuf != b.vbuf
  {
    var q := s.ports[c].queue;
    assert b in multiset(s.free) + s.hw;
    forall k | 0 <= k < |q| ensures q[k].buf.vbuf != b.vbuf {
      BufsMember(q, k);
      QueuedMember(s.ports, c, q[k].buf);
      assert Held(s)[b] >= (multiset(s.free) + s.hw)[b] + Queued(s.ports)[b];
    }
  }

  lemma FramesUntouched(q: seq<Pending>, m: map<Addr, seq<byte>>, v: Addr, data: seq<byte>)
    requires forall k :: 0 <= k < |q| ==> q[k].buf.vbuf != v
    ensures FramesOf(q, Fill(m, v, data)) == FramesOf(q, m)
  {
    hide Fill, Contents;
    FillShape(m, v, data);
  }

  lemma FramesSnoc(q: seq<Pending>, x: Pending, m: map<Addr, seq<byte>>)
    ensures FramesOf(q + [x], m) == FramesOf(q, m) + [Contents(m, x.buf.vbuf, x.len)]
  {
  }

  /** Writing into a buffer that is in no ring. */
  lemma WriteFrames(s: Sys, b: Buf, data: seq<byte>, c: nat)
    requires Inv(s) && (b in s.hw || b in s.free) && c < |s.ports|
    ensures Frames(s.(dma := Fill(s.dma, b.vbuf, data)), c) == Frames(s, c)
  {
    NotQueued(s, b, c);
    FramesUntouched(s.ports[c].queue, s.dma, b.vbuf, data);
  }

  // ----- giving a frame to clients -----

  lemma GiveFrames(s: Sys, c: nat, b: Buf, len: nat, d: nat)
    requires c < |s.ports| && d < |s.ports|
    ensures Frames(Give(s, c, b, len), d)
         == Frames(s, d) + if d == c then [Contents(s.dma, b.vbuf, len)] else []
  {
    FramesSnoc(s.ports[c].queue, Pending(b, len), s.dma);
  }

  lemma DeliverFrames(s: Sys, c: nat, b: Buf, len: nat, d: nat)
    requires c < |s.ports| && d < |s.ports|
    ensures Frames(Deliver(s, c, b, len), d)
         == Frames(s, d) + if d == c && !Full(s.ports[c]) then [Contents(s.dma, b.vbuf, len)] else []
  {
    hide Contents, FramesOf;
    GiveFrames(s, c, b, len, d);
  }

  /** Client `c` gets a copy in the loop exactly when it has room and a buffer is left. */
  predicate GetsCopy(s: Sys, c: nat)
    requires c < |s.ports|
  {
    !Full(s.ports[c]) && s.free != []
  }

  /** One round of the broadcast loop. */
  lemma CopyToFrames(s: Sys, b: Buf, len: nat, c: nat, d: nat)
    requires Inv(s) && b in s.hw && len <= BUF_SIZE && c < |s.ports| && d < |s.ports|
    ensures var r, frame := CopyTo(s, b, len, c), Contents(s.dma, b.vbuf, len);
      && Frames(r, d) == Frames(s, d) + (if d == c && GetsCopy(s, c) then [frame] else [])
      && Contents(r.dma, b.vbuf, len) == frame
      && |r.free| == |s.free| - (if GetsCopy(s, c) then 1 else 0)
      && (d != c ==> Full(r.ports[d]) == Full(s.ports[d]))
      && r.ports[d].mac == s.ports[d].mac
  {
    var frame := Contents(s.dma, b.vbuf, len);
    if GetsCopy(s, c) {
      var n := Top(s, len).value;
      assert n in s.free;
      InHeld(s, b);
      WriteFrames(s, n, frame, d);
      HeldContents(s, n, b, len);
      FillShape(s.dma, n.vbuf, frame);
      CopyToIs(s, b, len, c);
      hide Contents, Fill, Held, Inv, CopyTo, FramesOf;
      var u := s.(dma := Fill(s.dma, n.vbuf, frame), free := s.free[..|s.free| - 1], hw := s.hw + multiset{n});
      GiveFrames(u, c, n, len, d);
    }
  }

  lemma CopyToIs(s: Sys, b: Buf, len: nat, c: nat)
    requires c < |s.ports| && GetsCopy(s, c) && len <= BUF_SIZE
    ensures var n, frame := s.free[|s.free| - 1], Contents(s.dma, b.vbuf, len);
      Top(s, len) == Some(n) && CopyTo(s, b, len, c)
      == Give(s.(dma := Fill(s.dma, n.vbuf, frame), free := s.free[..|s.free| - 1], hw := s.hw + multiset{n}), c, n, len)
  {
  }

  lemma InHeld(s: Sys, b: Buf)
    requires b in s.hw
    ensures b in Held(s)
  {
  }

  /** A buffer on the stack and one with the hardware are different memory of BUF_SIZE bytes each. */
  lemma HeldContents(s: Sys, n: Buf, b: Buf, len: nat)
    requires Inv(s) && n in s.free && b in s.hw && len <= BUF_SIZE
    ensures n.vbuf != b.vbuf && |Contents(s.dma, b.vbuf, len)| == len && n.vbuf in s.dma && |s.dma[n.vbuf]| == BUF_SIZE
  {
    assert n in multiset(s.free);
    assert Held(s)[n] >= multiset(s.free)[n] + s.hw[n];
    assert n in Held(s) && b in Held(s);
  }

  lemma {:induction false} OpenShift(p: seq<Port>, q: seq<Port>, i: nat, c: nat)
    requires |p| == |q| && i < c <= |p|
    requires forall d :: i < d < c ==> Full(q[d]) == Full(p[d])
    ensures Open(p, i, c) == Open(q, i + 1, c) + if Full(p[i]) then 0 else 1
    decreases c
  {
    if i < c - 1 {
      OpenShift(p, q, i, c - 1);
    }
  }

  /** The broadcast loop: clients from `i` on, in order, while buffers last. */
  lemma {:induction false} CopyFromFrames(s: Sys, b: Buf, len: nat, i: nat, d: nat)
    requires Inv(s) && b in s.hw && len <= BUF_SIZE && i <= |s.ports| && d < |s.ports|
    ensures var r, frame := CopyFrom(s, b, len, i), Contents(s.dma, b.vbuf, len);
      && Frames(r, d)
         == Frames(s, d) + (if i <= d && !Full(s.ports[d]) && Open(s.ports, i, d) < |s.free| then [frame] else [])
      && Contents(r.dma, b.vbuf, len) == frame
      && |r.free| == (var n := Open(s.ports, i, |s.ports|); if n < |s.free| then |s.free| - n else 0)
      && (d < i ==> Full(r.ports[d]) == Full(s.ports[d]))
    decreases |s.ports| - i
  {
    hide Inv, Held, CopyTo, FramesOf, Contents, Full, Frames;
    if i < |s.ports| {
      var t := CopyTo(s, b, len, i);
      CopyToInv(s, b, len, i);
      CopyToHeld(s, b, len, i);
      forall c | 0 <= c < |s.ports| ensures c != i ==> Full(t.ports[c]) == Full(s.ports[c]) {
        CopyToFrames(s, b, len, i, c);
      }
      CopyToFrames(s, b, len, i, d);
      CopyFromFrames(t, b, len, i + 1, d);
      OpenShift(s.ports, t.ports, i, |s.ports|);
      if i < d {
        OpenShift(s.ports, t.ports, i, d);
      }
    }
  }

  // ----- one step -----

  /** `eth_rx_complete` with one frame: exactly the clients that take the frame get it. */
  lemma ReceiveFrames(s: Sys, b: Buf, len: nat, c: nat)
    requires Inv(s) && s.ports != [] && b in s.hw && len <= BUF_SIZE && c < |s.ports|
    ensures var frame := Contents(s.dma, b.vbuf, len);
      Frames(RxComplete(s, [b], [len]), c) == Frames(s, c) + if Takes(s, frame, c) then [frame] else []
  {
    hide Inv, CopyFrom, Deliver, Detect, IsBroadcast, Contents, FramesOf, Frames, Full;
    var frame := Contents(s.dma, b.vbuf, len);
    var d := Detect(s.ports, frame);
    if d < |s.ports| {
      DeliverFrames(s, d, b, len, c);
    } else if IsBroadcast(frame) {
      var r := CopyFrom(s, b, len, 1);
      CopyFromFrames(s, b, len, 1, c);
      CopyFromFrames(s, b, len, 1, 0);
      DeliverFrames(r, 0, b, len, c);
    } else {
      PutBackFrames(s, b, c);
    }
  }

  lemma PutBackFrames(s: Sys, b: Buf, c: nat)
    requires c < |s.ports|
    ensures Frames(PutBack(s, b), c) == Frames(s, c)
  {
  }

  /** A broadcast with enough free buffers reaches every client that has room, and takes one buffer for each
    * of them but client 0; otherwise it takes all there are. Client 0 gets the buffer of the frame itself,
    * which goes back to the stack when there is no room. */
  lemma BroadcastReach(s: Sys, b: Buf, len: nat)
    requires Inv(s) && s.ports != [] && b in s.hw && len <= BUF_SIZE
    requires IsBroadcast(Contents(s.dma, b.vbuf, len)) && Detect(s.ports, Contents(s.dma, b.vbuf, len)) == |s.ports|
    ensures var frame, r := Contents(s.dma, b.vbuf, len), RxComplete(s, [b], [len]);
      var wanted := Open(s.ports, 1, |s.ports|);
      && r.free == s.free[..if wanted < |s.free| then |s.free| - wanted else 0]
                   + (if Full(s.ports[0]) then [b] else [])
      && (wanted <= |s.free| ==> forall c :: 0 <= c < |s.ports| ==>
            Frames(r, c) == Frames(s, c) + if Full(s.ports[c]) then [] else [frame])
  {
    hide Inv, CopyFrom, Contents, FramesOf, Frames, IsBroadcast, Detect;
    CopyFromFrames(s, b, len, 1, 0);
    CopyFromStack(s, b, len, 1);
    forall c | 0 <= c < |s.ports| && Open(s.ports, 1, |s.ports|) <= |s.free|
      ensures Frames(RxComplete(s, [b], [len]), c)
           == Frames(s, c) + if Full(s.ports[c]) then [] else [Contents(s.dma, b.vbuf, len)]
    {
      ReceiveFrames(s, b, len, c);
      if c > 0 {
        OpenGrows(s.ports, 1, c, |s.ports|);
      }
    }
  }

  /** The broadcast loop only takes buffers off the top of the stack. */
  lemma {:induction false} CopyFromStack(s: Sys, b: Buf, len: nat, i: nat)
    requires i <= |s.ports|
    ensures CopyFrom(s, b, len, i).free <= s.free
    decreases |s.ports| - i
  {
    hide CopyTo;
    if i < |s.ports| {
      CopyToStack(s, b, len, i);
      CopyFromStack(CopyTo(s, b, len, i), b, len, i + 1);
    }
  }

  lemma CopyToStack(s: Sys, b: Buf, len: nat, c: nat)
    requires c < |s.ports|
    ensures CopyTo(s, b, len, c).free <= s.free
  {
    hide Fill, Contents;
  }

  lemma {:induction false} OpenGrows(ports: seq<Port>, i: nat, c: nat, n: nat)
    requires i <= c < n <= |ports|
    ensures Open(ports, i, c) + (if Full(ports[c]) then 0 else 1) <= Open(ports, i, n)
    decreases n
  {
    if c < n - 1 {
      OpenGrows(ports, i, c, n - 1);
    }
  }

  /** Two places in the rings never share a buffer, so the copies of a broadcast are independent. */
  lemma RingsApart(s: Sys, c: nat, k: nat, d: nat, l: nat)
    requires Inv(s) && c < |s.ports| && d < |s.ports| && k < |s.ports[c].queue| && l < |s.ports[d].queue|
    requires c != d || k != l
    ensures s.ports[c].queue[k].buf.vbuf != s.ports[d].queue[l].buf.vbuf
  {
    var x, y := s.ports[c].queue[k].buf, s.ports[d].queue[l].buf;
    BufsMember(s.ports[c].queue, k);
    BufsMember(s.ports[d].queue, l);
    QueuedMember(s.ports, c, x);
    QueuedMember(s.ports, d, y);
    assert Held(s)[x] >= Queued(s.ports)[x];
    if x == y {
      if c == d {
        BufsTwice(s.ports[c].queue, k, l);
      } else {
        QueuedTwice(s.ports, c, d, x);
      }
    }
  }

  lemma {:induction false} BufsTwice(q: seq<Pending>, k: nat, l: nat)
    requires k < |q| && l < |q| && k != l && q[k].buf == q[l].buf
    ensures Bufs(q)[q[k].buf] >= 2
    decreases |q|
  {
    var n := |q| - 1;
    if k < n && l < n {
      BufsTwice(q[..n], k, l);
    } else if k < n {
      BufsMember(q[..n], k);
    } else {
      BufsMember(q[..n], l);
    }
  }

  lemma {:induction false} QueuedTwice(ports: seq<Port>, c: nat, d: nat, b: Buf)
    requires c < |ports| && d < |ports| && c != d && b in Bufs(ports[c].queue) && b in Bufs(ports[d].queue)
    ensures Queued(ports)[b] >= 2
    decreases |ports|
  {
    hide Bufs;
    var n := |ports| - 1;
    if c < n && d < n {
      QueuedTwice(ports[..n], c, d, b);
    } else if c < n {
      QueuedMember(ports[..n], c, b);
    } else {
      QueuedMember(ports[..n], d, b);
    }
  }

  /** The buffer `client_rx` returns to the stack is in no ring any more. */
  lemma ReturnedBuffer(s: Sys, d: nat, id: int, c: nat)
    requires Inv(s) && d == Find(s.ports, id) < |s.ports| && s.ports[d].queue != [] && c < |s.ports|
    ensures |ClientRx(s, id).ports| == |s.ports|
    ensures forall k :: 0 <= k < |ClientRx(s, id).ports[c].queue| ==>
      ClientRx(s, id).ports[c].queue[k].buf.vbuf != s.ports[d].queue[0].buf.vbuf
  {
    var r := ClientRx(s, id);
    ClientRxInv(s, id);
    assert r.free[|s.free|] == s.ports[d].queue[0].buf;
    NotQueued(r, s.ports[d].queue[0].buf, c);
  }

  lemma FramesCons(q: seq<Pending>, m: map<Addr, seq<byte>>)
    requires q != []
    ensures FramesOf(q, m) == [Contents(m, q[0].buf.vbuf, q[0].len)] + FramesOf(q[1..], m)
  {
  }

  /** `client_rx` hands out the oldest frame and leaves every other one as it was. */
  lemma ClientRxFrames(s: Sys, id: int, c: nat)
    requires Inv(s) && c < |s.ports|
    ensures Frames(s, c) == Delivered(s, Rx(id), c) + Frames(ClientRx(s, id), c)
  {
    hide Inv, Contents, Fill, FramesOf, Find, Zeros;
    var d := Find(s.ports, id);
    if d < |s.ports| && s.ports[d].queue != [] {
      ReturnedBuffer(s, d, id, c);
      FramesUntouched(ClientRx(s, id).ports[c].queue, s.dma, s.ports[d].queue[0].buf.vbuf, Zeros());
      FramesCons(s.ports[d].queue, s.dma);
    }
  }

  /** Sending does not touch the receive side. */
  lemma ClientTxFrames(s: Sys, id: int, len: int, packet: seq<byte>, c: nat)
    requires Inv(s) && TxLen(len) <= |packet| && c < |s.ports|
    ensures Frames(ClientTx(s, id, len, packet), c) == Frames(s, c)
  {
    var d := Find(s.ports, id);
    if len >= 12 && d < |s.ports| && s.ports[d].tx != [] {
      var t := s.ports[d].tx[|s.ports[d].tx| - 1];
      IdleIsOwn(s, d, t);
      var q := s.ports[c].queue;
      forall k | 0 <= k < |q| ensures q[k].buf.vbuf != t.vbuf {
        BufsMember(q, k);
        QueuedMember(s.ports, c, q[k].buf);
        assert q[k].buf in Held(s);
      }
      FramesUntouched(q, s.dma, t.vbuf, TxFrame(s.ports[d].mac, packet, TxLen(len)));
      hide Contents, Fill, Held, Inv, TxFrame;
    }
  }

  lemma QuietFrames(s: Sys, r: Sys, c: nat)
    requires c < |s.ports| == |r.ports| && r.dma == s.dma && r.ports[c].queue == s.ports[c].queue
    ensures Frames(r, c) == Frames(s, c)
  {
  }

  /** Frame integrity of one step: what was waiting for the client and what it accepts, in order, is what is
    * delivered and what waits afterwards. */
  lemma StepFrames(s: Sys, e: Event, c: nat)
    requires Inv(s) && s.ports != [] && Can(s, e) && c < |s.ports|
    ensures Frames(s, c) + Accepted(s, e, c) == Delivered(s, e, c) + Frames(Step(s, e), c)
  {
    hide Inv, Frames, RxComplete, ClientRx, ClientTx, Contents, Fill, Takes, Packet;
    match e
    case HwAlloc(size) => QuietFrames(s, Alloc(s, size), c);
    case HwWrite(b, data) => WriteFrames(s, b, data, c);
    case HwRx(bufs, lens) =>
      if |bufs| == 1 {
        assert bufs[0] in multiset(bufs);
        assert bufs == [bufs[0]] && lens == [lens[0]];
        ReceiveFrames(s, bufs[0], lens[0], c);
      } else {
        BatchFrames(s, bufs, lens, c);
      }
    case HwTx(t) => TxDoneFrames(s, t, c);
    case Rx(id) => ClientRxFrames(s, id, c);
    case Tx(id, len, packet) => ClientTxFrames(s, id, len, packet, c);
    case TakeSignal(d) => QuietFrames(s, Step(s, e), c);
  }

  lemma BatchFrames(s: Sys, bufs: seq<Buf>, lens: seq<nat>, c: nat)
    requires |bufs| == |lens| != 1 && s.ports != [] && c < |s.ports|
    ensures Frames(RxComplete(s, bufs, lens), c) == Frames(s, c)
  {
    PutAllBackIs(s, bufs);
  }

  lemma TxDoneFrames(s: Sys, t: TxBuf, c: nat)
    requires s.ports != [] && c < |s.ports|
    ensures Frames(Step(s, HwTx(t)), c) == Frames(s, c)
  {
  }

  // ----- every run -----

  /** All frames accepted for client `c` during a run. */
  ghost function AllAccepted(s: Sys, events: seq<Event>, c: nat): seq<seq<byte>>
    requires c < |s.ports|
    decreases |events|
  {
    if events == [] then []
    else
      var n := |events| - 1;
      AllAccepted(s, events[..n], c) + Accepted(Run(s, events[..n]), events[n], c)
  }

  /** All frames copied out to client `c` during a run. */
  ghost function AllDelivered(s: Sys, events: seq<Event>, c: nat): seq<seq<byte>>
    requires c < |s.ports|
    decreases |events|
  {
    if events == [] then []
    else
      var n := |events| - 1;
      AllDelivered(s, events[..n], c) + Delivered(Run(s, events[..n]), events[n], c)
  }

  /** Frame integrity of every run: each client is handed exactly the frames accepted for it, byte for byte
    * and in order; those not handed out yet are waiting in its ring. */
  lemma {:induction false} RunFrames(s: Sys, events: seq<Event>, c: nat)
    requires Initial(s) && CanAll(s, events) && c < |s.ports|
    ensures AllAccepted(s, events, c) == AllDelivered(s, events, c) + Frames(Run(s, events), c)
    decreases |events|
  {
    hide Inv, Frames, Step, Accepted, Delivered, Can, Initial;
    if events == [] {
      EmptyRings(s, c);
    } else {
      var n := |events| - 1;
      var t := Run(s, events[..n]);
      RunFrames(s, events[..n], c);
      RunInv(s, events[..n]);
      StepFrames(t, events[n], c);
      FlowComposes([], AllAccepted(s, events[..n], c), AllDelivered(s, events[..n], c), Frames(t, c),
                   Accepted(t, events[n], c), Delivered(t, events[n], c), Frames(Step(t, events[n]), c));
    }
  }

  lemma EmptyRings(s: Sys, c: nat)
    requires Initial(s) && c < |s.ports|
    ensures Frames(s, c) == []
  {
    assert Fresh(s.ports[c]);
  }

  // ----- frames being sent -----

  /** A frame handed to the hardware stays in its buffer, as it was composed, until the hardware is done with
    * that very buffer. */
  lemma WireKept(s: Sys, e: Event, t: TxBuf)
    requires Inv(s) && s.ports != [] && Can(s, e) && t in s.wire && e != HwTx(t)
    ensures var r := Step(s, e);
      t in r.wire && r.wire[t] == s.wire[t] && Contents(r.dma, t.vbuf, |s.wire[t]|) == s.wire[t]
  {
    StepInv(s, e);
    WireStays(s, e, t);
    OnWireOf(Step(s, e), t);
  }

  /** `client_tx` composes a frame in buffer `t`. */
  predicate Composes(s: Sys, e: Event, t: TxBuf) {
    && e.Tx? && e.len >= 12 && TxLen(e.len) <= |e.packet|
    && var c := Find(s.ports, e.id); c < |s.ports| && s.ports[c].tx != [] && t == s.ports[c].tx[|s.ports[c].tx| - 1]
  }

  /** What a run has composed in buffer `t` and the hardware has not completed yet. */
  ghost function Composed(s: Sys, events: seq<Event>, t: TxBuf): Option<seq<byte>>
    requires s.ports != []
    decreases |events|
  {
    if events == [] then None
    else
      var n := |events| - 1;
      var r, e := Run(s, events[..n]), events[n];
      if Composes(r, e, t) then Some(TxFrame(r.ports[Find(r.ports, e.id)].mac, e.packet, TxLen(e.len)))
      else if e == HwTx(t) then None
      else Composed(s, events[..n], t)
  }

  /** In every reachable state, and so at its completion, a buffer in flight holds the very bytes that `client_tx`
    * last composed in it; and no other buffer is in flight. */
  lemma {:induction false} RunWire(s: Sys, events: seq<Event>, t: TxBuf)
    requires Initial(s) && CanAll(s, events)
    ensures var r, w := Run(s, events), Composed(s, events, t);
      && (t in r.wire <==> w.Some?)
      && (t in r.wire ==> r.wire[t] == w.value && Contents(r.dma, t.vbuf, |w.value|) == w.value)
    decreases |events|
  {
    RunInv(s, events);
    if events != [] {
      var n := |events| - 1;
      RunInv(s, events[..n]);
      RunWire(s, events[..n], t);
      var r, e := Run(s, events[..n]), events[n];
      WireStep(r, e, t);
      hide Inv, Step, Can, Composes, Contents, Find, TxFrame;
      if t in Run(s, events).wire {
        OnWireOf(Run(s, events), t);
      }
    }
  }

  lemma WireStep(s: Sys, e: Event, t: TxBuf)
    requires Inv(s) && s.ports != [] && Can(s, e)
    ensures var r := Step(s, e);
      && (t in r.wire <==> Composes(s, e, t) || (t in s.wire && e != HwTx(t)))
      && (Composes(s, e, t) ==> r.wire[t] == TxFrame(s.ports[Find(s.ports, e.id)].mac, e.packet, TxLen(e.len)))
      && (t in r.wire && !Composes(s, e, t) ==> r.wire[t] == s.wire[t])
  {
    if e.Tx? {
      TxWire(s, e, t);
    } else {
      WireClient(s);
      QuietWire(s, e);
    }
    hide Inv, Step, Find, TxFrame;
  }

  lemma TxWire(s: Sys, e: Event, t: TxBuf)
    requires e.Tx? && TxLen(e.len) <= |e.packet| && s.ports != []
    ensures var r := Step(s, e);
      && (t in r.wire <==> Composes(s, e, t) || t in s.wire)
      && (Composes(s, e, t) ==> r.wire[t] == TxFrame(s.ports[Find(s.ports, e.id)].mac, e.packet, TxLen(e.len)))
      && (t in r.wire && !Composes(s, e, t) ==> r.wire[t] == s.wire[t])
  {
    hide Fill, TxFrame, Find;
  }

  lemma QuietWire(s: Sys, e: Event)
    requires s.ports != [] && !e.Tx? && (e.HwTx? ==> e.t.client < |s.ports|)
    ensures Step(s, e).wire == if e.HwTx? then s.wire - {e.t} else s.wire
  {
    hide Fill, RxComplete, Find, Zeros;
    if e.HwRx? && |e.bufs| == |e.lens| {
      RxKeepsWire(s, e.bufs, e.lens);
    }
  }

  lemma OnWireOf(s: Sys, t: TxBuf)
    requires Inv(s) && t in s.wire
    ensures OnWire(s, t) && Contents(s.dma, t.vbuf, |s.wire[t]|) == s.wire[t]
  {
  }

  lemma WireStays(s: Sys, e: Event, t: TxBuf)
    requires Inv(s) && s.ports != [] && Can(s, e) && t in s.wire && e != HwTx(t)
    ensures t in Step(s, e).wire && Step(s, e).wire[t] == s.wire[t]
  {
    hide Inv, Step, Find, TxFrame;
    WireStep(s, e, t);
    if Composes(s, e, t) {
      IdleNotOnWire(s, Find(s.ports, e.id));
    }
  }

  lemma IdleNotOnWire(s: Sys, c: nat)
    requires Inv(s) && c < |s.ports| && s.ports[c].tx != []
    ensures s.ports[c].tx[|s.ports[c].tx| - 1] !in s.wire
  {
    var u := s.ports[c].tx[|s.ports[c].tx| - 1];
    IdleIsOwn(s, c, u);
    assert u.client == c && u !in InFlight(s.wire, c);
  }

  lemma RxKeepsWire(s: Sys, bufs: seq<Buf>, lens: seq<nat>)
    requires |bufs| == |lens| && s.ports != []
    ensures RxComplete(s, bufs, lens).wire == s.wire
  {
    hide CopyFrom, PutAllBack, Detect, Contents;
    if |bufs| == 1 {
      CopyKeepsWire(s, bufs[0], lens[0], 1);
    } else {
      PutAllBackIs(s, bufs);
    }
  }

  lemma {:induction false} CopyKeepsWire(s: Sys, b: Buf, len: nat, i: nat)
    requires i <= |s.ports|
    ensures CopyFrom(s, b, len, i).wire == s.wire
    decreases |s.ports| - i
  {
    if i < |s.ports| {
      CopyKeepsWire(CopyTo(s, b, len, i), b, len, i + 1);
    }
  }

  /** A successful `client_tx` puts the composed frame on the wire, in one of the client's own idle buffers. */
  lemma SentFrame(s: Sys, id: int, len: int, packet: seq<byte>)
    requires Inv(s) && TxLen(len) <= |packet| && len >= 12
    requires Find(s.ports, id) < |s.ports| && s.ports[Find(s.ports, id)].tx != []
    ensures var c, r := Find(s.ports, id), ClientTx(s, id, len, packet);
      exists t :: t in s.own[c] && t !in s.wire && r.wire == s.wire[t := TxFrame(s.ports[c].mac, packet, TxLen(len))]
  {
    var c := Find(s.ports, id);
    var t := s.ports[c].tx[|s.ports[c].tx| - 1];
    IdleIsOwn(s, c, t);
    assert t.client == c && t !in InFlight(s.wire, c);
  }
}
