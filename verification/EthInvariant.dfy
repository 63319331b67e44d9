/** Buffer ownership: in every reachable state each receive buffer is in exactly one place, and so is each
  * transmit buffer of each client.
  */
module EthInvariant {
  import opened Bytes
  import opened EthModel

  // ----- where the receive buffers are -----

  /** The buffers of a ring. */
  function Bufs(q: seq<Pending>): multiset<Buf> {
    if q == [] then multiset{} else Bufs(q[..|q| - 1]) + multiset{q[|q| - 1].buf}
  }

  function Queued(ports: seq<Port>): multiset<Buf> {
    if ports == [] then multiset{} else Queued(ports[..|ports| - 1]) + Bufs(ports[|ports| - 1].queue)
  }

  /** Every place a receive buffer can be. */
  function Held(s: Sys): multiset<Buf> {
    multiset(s.free) + s.hw + Queued(s.ports)
  }

  lemma SwapLast<T>(x: multiset<T>, l: multiset<T>, b: multiset<T>)
    ensures (x + l) + b == (x + b) + l
  {
  }

  lemma Cancel<T>(x: multiset<T>, y: multiset<T>, common: multiset<T>)
    requires x + common == y + common
    ensures x == y
  {
    forall t ensures x[t] == y[t] {
      assert (x + common)[t] == (y + common)[t];
    }
  }

  lemma {:induction false} QueuedUpdate(ports: seq<Port>, c: nat, p: Port)
    requires c < |ports|
    ensures Queued(ports[c := p]) + Bufs(ports[c].queue) == Queued(ports) + Bufs(p.queue)
    decreases |ports|
  {
    var n := |ports| - 1;
    hide Bufs;
    if c == n {
      assert ports[c := p][..n] == ports[..n];
      SwapLast(Queued(ports[..n]), Bufs(p.queue), Bufs(ports[n].queue));
    } else {
      QueuedUpdate(ports[..n], c, p);
      assert ports[c := p][..n] == ports[..n][c := p];
      SwapLast(Queued(ports[..n][c := p]), Bufs(ports[n].queue), Bufs(ports[c].queue));
      SwapLast(Queued(ports[..n]), Bufs(ports[n].queue), Bufs(p.queue));
    }
  }

  lemma QueuedSame(ports: seq<Port>, c: nat, p: Port)
    requires c < |ports| && p.queue == ports[c].queue
    ensures Queued(ports[c := p]) == Queued(ports)
  {
    QueuedUpdate(ports, c, p);
    Cancel(Queued(ports[c := p]), Queued(ports), Bufs(p.queue));
  }

  lemma QueuedAppend(ports: seq<Port>, c: nat, p: Port, x: Pending)
    requires c < |ports| && p.queue == ports[c].queue + [x]
    ensures Queued(ports[c := p]) == Queued(ports) + multiset{x.buf}
  {
    QueuedUpdate(ports, c, p);
    var was := Bufs(ports[c].queue);
    BufsSnoc(ports[c].queue, x);
    hide Bufs, Queued;
    assert Queued(ports) + (was + multiset{x.buf}) == (Queued(ports) + multiset{x.buf}) + was;
    Cancel(Queued(ports[c := p]), Queued(ports) + multiset{x.buf}, was);
  }

  lemma QueuedTail(ports: seq<Port>, c: nat, p: Port)
    requires c < |ports| && ports[c].queue != [] && p.queue == ports[c].queue[1..]
    ensures Queued(ports[c := p]) + multiset{ports[c].queue[0].buf} == Queued(ports)
  {
    QueuedUpdate(ports, c, p);
    var one := multiset{ports[c].queue[0].buf};
    BufsTail(ports[c].queue);
    hide Bufs, Queued;
    assert Queued(ports[c := p]) + (one + Bufs(p.queue)) == (Queued(ports[c := p]) + one) + Bufs(p.queue);
    Cancel(Queued(ports[c := p]) + one, Queued(ports), Bufs(p.queue));
  }

  lemma {:induction false} BufsMember(q: seq<Pending>, k: nat)
    requires k < |q|
    ensures q[k].buf in Bufs(q)
    decreases |q|
  {
    if k < |q| - 1 {
      BufsMember(q[..|q| - 1], k);
    }
  }

  lemma {:induction false} QueuedMember(ports: seq<Port>, c: nat, b: Buf)
    requires c < |ports| && b in Bufs(ports[c].queue)
    ensures Queued(ports)[b] >= Bufs(ports[c].queue)[b]
    decreases |ports|
  {
    if c < |ports| - 1 {
      QueuedMember(ports[..|ports| - 1], c, b);
    }
  }

  lemma {:induction false} BufsSnoc(q: seq<Pending>, x: Pending)
    ensures Bufs(q + [x]) == Bufs(q) + multiset{x.buf}
  {
    assert (q + [x])[..|q|] == q;
  }

  lemma {:induction false} BufsTail(q: seq<Pending>)
    requires q != []
    ensures Bufs(q) == multiset{q[0].buf} + Bufs(q[1..])
    decreases |q|
  {
    if |q| > 1 {
      var n := |q| - 1;
      BufsTail(q[..n]);
      assert q[1..][..n - 1] == q[..n][1..];
    } else {
      assert q[..0] == [];
    }
  }

  // ----- the invariant -----

  /** No buffer is in two places and no two buffers share an address. */
  ghost predicate Pool(held: multiset<Buf>) {
    && |held| == RX_BUFS
    && (forall b :: b in held ==> held[b] == 1 && b.vbuf != 0 && b.pbuf != 0)
    && forall b, d :: b in held && d in held && b.vbuf == d.vbuf ==> b == d
  }

  /** The rings are within bounds and their lengths within a buffer. */
  ghost predicate Rings(ports: seq<Port>) {
    forall c :: 0 <= c < |ports| ==> Ring(ports[c])
  }

  ghost predicate Ring(p: Port) {
    && |p.queue| < CLIENT_RX_BUFS && |p.mac| == MAC_ADDRESS_LEN
    && forall k :: 0 <= k < |p.queue| ==> p.queue[k].len <= BUF_SIZE
  }

  /** Every address that holds a buffer holds BUF_SIZE bytes. */
  ghost predicate Memory(held: multiset<Buf>, own: seq<set<TxBuf>>, dma: map<Addr, seq<byte>>) {
    && (forall v :: v in dma ==> |dma[v]| == BUF_SIZE)
    && (forall b :: b in held ==> b.vbuf in dma)
    && forall c, t :: 0 <= c < |own| && t in own[c] ==> t.vbuf in dma
  }

  /** The transmit buffers of the clients: told apart by address, and apart from the receive buffers. */
  ghost predicate TxPool(held: multiset<Buf>, own: seq<set<TxBuf>>) {
    && (forall c :: 0 <= c < |own| ==> |own[c]| == CLIENT_TX_BUFS - 1)
    && (forall c, t :: 0 <= c < |own| && t in own[c] ==> t.client == c && forall b :: b in held ==> b.vbuf != t.vbuf)
    && forall c, d, t, u :: 0 <= c < |own| && 0 <= d < |own| && t in own[c] && u in own[d] && t.vbuf == u.vbuf ==> t == u
  }

  function InFlight(wire: map<TxBuf, seq<byte>>, c: nat): set<TxBuf> {
    set t | t in wire && t.client == c
  }

  /** Each of a client's transmit buffers is either idle or in flight, and in flight holding its frame. */
  ghost predicate Transmit(s: Sys) {
    && |s.own| == |s.ports|
    && (forall c :: 0 <= c < |s.ports| ==> multiset(s.ports[c].tx) + multiset(InFlight(s.wire, c)) == multiset(s.own[c]))
    && forall t :: t in s.wire ==> t.client < |s.ports| && OnWire(s, t)
  }

  ghost predicate OnWire(s: Sys, t: TxBuf)
    requires t in s.wire
  {
    |s.wire[t]| <= BUF_SIZE && Contents(s.dma, t.vbuf, |s.wire[t]|) == s.wire[t]
  }

  ghost predicate Inv(s: Sys) {
    && s.ports != []
    && Pool(Held(s)) && Rings(s.ports) && Memory(Held(s), s.own, s.dma) && TxPool(Held(s), s.own) && Transmit(s)
  }

  // ----- steps of the receive side move buffers without losing any -----

  lemma AllocHeld(s: Sys, size: nat)
    ensures Held(Alloc(s, size)) == Held(s)
  {
    hide Queued, Bufs;
    if Top(s, size).Some? {
      var n := |s.free| - 1;
      assert s.free == s.free[..n] + [s.free[n]];
      SwapLast(multiset(s.free[..n]), multiset{s.free[n]}, s.hw);
    }
  }

  lemma PutBackHeld(s: Sys, b: Buf)
    requires b in s.hw
    ensures Held(PutBack(s, b)) == Held(s)
  {
    hide Queued, Bufs;
  }

  lemma LessBoth<T>(m: multiset<T>, a: multiset<T>, b: multiset<T>)
    ensures m - a - b == m - (a + b)
  {
  }

  lemma {:induction false} PutAllBackIs(s: Sys, bufs: seq<Buf>)
    ensures PutAllBack(s, bufs) == s.(free := s.free + bufs, hw := s.hw - multiset(bufs))
    decreases |bufs|
  {
    if bufs == [] {
      assert s.free + bufs == s.free;
      assert s.hw - multiset(bufs) == s.hw;
    } else {
      var n := |bufs| - 1;
      PutAllBackIs(s, bufs[..n]);
      assert bufs == bufs[..n] + [bufs[n]];
      ConcatAssociates(s.free, bufs[..n], [bufs[n]]);
      assert multiset(bufs) == multiset(bufs[..n]) + multiset{bufs[n]};
      LessBoth(s.hw, multiset(bufs[..n]), multiset{bufs[n]});
    }
  }

  lemma PutAllBackHeld(s: Sys, bufs: seq<Buf>)
    requires multiset(bufs) <= s.hw
    ensures Held(PutAllBack(s, bufs)) == Held(s)
  {
    hide PutAllBack, Queued, Bufs;
    PutAllBackIs(s, bufs);
    assert multiset(s.free + bufs) == multiset(s.free) + multiset(bufs);
  }

  lemma GiveHeld(s: Sys, c: nat, b: Buf, len: nat)
    requires c < |s.ports| && b in s.hw
    ensures Held(Give(s, c, b, len)) == Held(s)
  {
    hide Queued, Bufs;
    var x := Pending(b, len);
    QueuedAppend(s.ports, c, GivePort(s.ports[c], x), x);
  }

  lemma DeliverHeld(s: Sys, c: nat, b: Buf, len: nat)
    requires c < |s.ports| && b in s.hw
    ensures Held(Deliver(s, c, b, len)) == Held(s)
  {
    hide Held;
    PutBackHeld(s, b);
    GiveHeld(s, c, b, len);
  }

  lemma CopyToHeld(s: Sys, b: Buf, len: nat, c: nat)
    requires c < |s.ports|
    ensures Held(CopyTo(s, b, len, c)) == Held(s) && s.hw <= CopyTo(s, b, len, c).hw
  {
    hide Queued, Bufs;
    AllocHeld(s, len);
    if !Full(s.ports[c]) && Top(s, len).Some? {
      var n := Top(s, len).value;
      var t := Alloc(s, len);
      GiveHeld(t.(dma := Fill(t.dma, n.vbuf, Contents(t.dma, b.vbuf, len))), c, n, len);
    }
  }

  lemma {:induction false} CopyFromHeld(s: Sys, b: Buf, len: nat, i: nat)
    requires i <= |s.ports|
    ensures Held(CopyFrom(s, b, len, i)) == Held(s) && s.hw <= CopyFrom(s, b, len, i).hw
    decreases |s.ports| - i
  {
    hide Held, CopyTo;
    if i < |s.ports| {
      CopyToHeld(s, b, len, i);
      CopyFromHeld(CopyTo(s, b, len, i), b, len, i + 1);
    }
  }

  lemma ReceiveHeld(s: Sys, bufs: seq<Buf>, lens: seq<nat>)
    requires |bufs| == |lens| && s.ports != [] && multiset(bufs) <= s.hw
    ensures Held(RxComplete(s, bufs, lens)) == Held(s)
  {
    hide Held, CopyFrom, Deliver, Detect, IsBroadcast, Contents;
    if |bufs| != 1 {
      PutAllBackHeld(s, bufs);
    } else {
      var b := bufs[0];
      assert b in multiset(bufs);
      var c := Detect(s.ports, Contents(s.dma, b.vbuf, lens[0]));
      if c < |s.ports| {
        DeliverHeld(s, c, b, lens[0]);
      }
      CopyFromHeld(s, b, lens[0], 1);
      DeliverHeld(CopyFrom(s, b, lens[0], 1), 0, b, lens[0]);
      PutBackHeld(s, b);
    }
  }

  lemma ClientRxHeld(s: Sys, id: int)
    ensures Held(ClientRx(s, id)) == Held(s)
  {
    hide Queued, Bufs, Fill, Find, Zeros;
    var c := Find(s.ports, id);
    if c < |s.ports| {
      var p := s.ports[c];
      if p.queue == [] {
        QueuedSame(s.ports, c, p.(shouldNotify := true));
      } else {
        QueuedTail(s.ports, c, TakePort(p));
        var q, one := Queued(s.ports[c := TakePort(p)]), multiset{p.queue[0].buf};
        assert multiset(s.free + [p.queue[0].buf]) + s.hw + q == multiset(s.free) + s.hw + (q + one);
      }
    }
  }

  lemma ClientTxHeld(s: Sys, id: int, len: int, packet: seq<byte>)
    requires TxLen(len) <= |packet|
    ensures Held(ClientTx(s, id, len, packet)) == Held(s)
  {
    var c := Find(s.ports, id);
    if c < |s.ports| && s.ports[c].tx != [] {
      var p := s.ports[c];
      QueuedSame(s.ports, c, p.(tx := p.tx[..|p.tx| - 1]));
      hide Queued, Find, Fill, TxFrame;
    }
  }

  /** Conservation: no step creates, loses, splits or re-pairs a receive buffer. */
  lemma StepHeld(s: Sys, e: Event)
    requires s.ports != [] && Can(s, e)
    ensures Held(Step(s, e)) == Held(s)
  {
    hide Queued, Find, Fill, Alloc, RxComplete, ClientRx, ClientTx;
    match e
    case HwAlloc(size) => AllocHeld(s, size);
    case HwWrite(_, _) =>
    case HwRx(bufs, lens) => ReceiveHeld(s, bufs, lens);
    case HwTx(t) =>
      if t.client < |s.ports| {
        QueuedSame(s.ports, t.client, s.ports[t.client].(tx := s.ports[t.client].tx + [t]));
      }
    case Rx(id) => ClientRxHeld(s, id);
    case Tx(id, len, packet) => ClientTxHeld(s, id, len, packet);
    case TakeSignal(c) =>
      QueuedSame(s.ports, c, s.ports[c].(signal := false));
  }

  // ----- writing into buffers -----

  /** The same buffers exist with the same sizes. */
  ghost predicate SameShape(m: map<Addr, seq<byte>>, n: map<Addr, seq<byte>>) {
    n.Keys == m.Keys && forall v :: v in m ==> |n[v]| == |m[v]|
  }

  lemma FillShape(m: map<Addr, seq<byte>>, v: Addr, data: seq<byte>)
    ensures SameShape(m, Fill(m, v, data))
    ensures forall w, len :: w != v ==> Contents(Fill(m, v, data), w, len) == Contents(m, w, len)
    ensures v in m && |data| <= |m[v]| ==> Contents(Fill(m, v, data), v, |data|) == data
  {
  }

  /** Nothing on the transmit side changes, and only receive buffers are written. */
  ghost predicate RxOnly(s: Sys, r: Sys) {
    && r.own == s.own && r.wire == s.wire && |r.ports| == |s.ports|
    && (forall c :: 0 <= c < |s.ports| ==> SameSender(s.ports[c], r.ports[c]))
    && SameShape(s.dma, r.dma)
    && forall v, len :: (forall b :: b in Held(s) ==> b.vbuf != v) ==> Contents(r.dma, v, len) == Contents(s.dma, v, len)
  }

  ghost predicate SameSender(p: Port, q: Port) {
    q.id == p.id && q.mac == p.mac && q.tx == p.tx
  }

  lemma RxOnlyChain(s: Sys, t: Sys, r: Sys)
    requires RxOnly(s, t) && RxOnly(t, r) && Held(t) == Held(s)
    ensures RxOnly(s, r)
  {
    hide Held, Contents;
    forall c | 0 <= c < |s.ports| ensures SameSender(s.ports[c], r.ports[c]) {
      assert SameSender(s.ports[c], t.ports[c]) && SameSender(t.ports[c], r.ports[c]);
    }
  }

  /** A change of one client's record and of one receive buffer's contents. */
  lemma RxOnlyStep(s: Sys, r: Sys, c: nat, b: Buf, data: seq<byte>)
    requires c < |s.ports| && b in Held(s)
    requires r.own == s.own && r.wire == s.wire && r.dma == Fill(s.dma, b.vbuf, data)
    requires |r.ports| == |s.ports| && SameSender(s.ports[c], r.ports[c])
    requires forall d :: 0 <= d < |s.ports| && d != c ==> r.ports[d] == s.ports[d]
    ensures RxOnly(s, r)
  {
    hide Held, Contents, Fill;
    FillShape(s.dma, b.vbuf, data);
  }

  lemma RxOnlyNoWrite(s: Sys, r: Sys, c: nat)
    requires c < |s.ports|
    requires r.own == s.own && r.wire == s.wire && r.dma == s.dma
    requires |r.ports| == |s.ports| && SameSender(s.ports[c], r.ports[c])
    requires forall d :: 0 <= d < |s.ports| && d != c ==> r.ports[d] == s.ports[d]
    ensures RxOnly(s, r)
  {
  }

  /** The receive side never disturbs a frame that is being sent. */
  lemma RxOnlyTransmit(s: Sys, r: Sys)
    requires Inv(s) && RxOnly(s, r)
    ensures Transmit(r) && Memory(Held(s), r.own, r.dma)
  {
    hide Held, Contents, Pool, Rings;
    forall c | 0 <= c < |r.ports|
      ensures multiset(r.ports[c].tx) + multiset(InFlight(r.wire, c)) == multiset(r.own[c])
    {
      assert SameSender(s.ports[c], r.ports[c]);
    }
    forall t | t in r.wire ensures t.client < |r.ports| && OnWire(r, t) {
      assert OnWire(s, t);
      WireIsOwn(s, t);
    }
  }

  lemma WireIsOwn(s: Sys, t: TxBuf)
    requires Transmit(s) && t in s.wire
    ensures t.client < |s.own| && t in s.own[t.client]
  {
    var c := t.client;
    assert t in InFlight(s.wire, c);
    assert t in multiset(s.ports[c].tx) + multiset(InFlight(s.wire, c));
  }

  lemma IdleIsOwn(s: Sys, c: nat, t: TxBuf)
    requires Transmit(s) && c < |s.ports| && t in s.ports[c].tx
    ensures t in s.own[c] && t !in InFlight(s.wire, c)
  {
    assert t in multiset(s.ports[c].tx);
    assert (multiset(s.ports[c].tx) + multiset(InFlight(s.wire, c)))[t] == multiset(s.own[c])[t] <= 1;
  }

  // ----- each receive step -----

  lemma MovePreserves(s: Sys, r: Sys)
    requires Inv(s) && RxOnly(s, r) && Held(r) == Held(s) && Rings(r.ports)
    ensures Inv(r)
  {
    hide Held, Pool, Rings, RxOnly, Memory, TxPool, Transmit;
    RxOnlyTransmit(s, r);
    RxOnlySame(s, r);
  }

  lemma RxOnlySame(s: Sys, r: Sys)
    requires RxOnly(s, r)
    ensures r.own == s.own && |r.ports| == |s.ports|
  {
  }

  lemma AllocInv(s: Sys, size: nat)
    requires Inv(s)
    ensures Inv(Alloc(s, size)) && RxOnly(s, Alloc(s, size))
  {
    hide Held, RxOnly, Pool, Memory, TxPool, Transmit, Rings;
    AllocHeld(s, size);
    RxOnlyNoWrite(s, Alloc(s, size), 0);
    MovePreserves(s, Alloc(s, size));
  }

  lemma PutBackInv(s: Sys, b: Buf)
    requires Inv(s) && b in s.hw
    ensures Inv(PutBack(s, b)) && RxOnly(s, PutBack(s, b))
  {
    hide Held, RxOnly, Pool, Memory, TxPool, Transmit, Rings;
    PutBackHeld(s, b);
    RxOnlyNoWrite(s, PutBack(s, b), 0);
    MovePreserves(s, PutBack(s, b));
  }

  lemma PutAllBackInv(s: Sys, bufs: seq<Buf>)
    requires Inv(s) && multiset(bufs) <= s.hw
    ensures Inv(PutAllBack(s, bufs))
  {
    hide Held, RxOnly, Pool, Memory, TxPool, Transmit, Rings;
    PutAllBackHeld(s, bufs);
    PutAllBackIs(s, bufs);
    RxOnlyNoWrite(s, PutAllBack(s, bufs), 0);
    MovePreserves(s, PutAllBack(s, bufs));
  }

  lemma RingUpdate(ports: seq<Port>, c: nat, p: Port)
    requires c < |ports| && Rings(ports) && Ring(p)
    ensures Rings(ports[c := p])
  {
  }

  lemma RingGive(ports: seq<Port>, c: nat, x: Pending)
    requires c < |ports| && Rings(ports) && !Full(ports[c]) && x.len <= BUF_SIZE
    ensures Rings(ports[c := GivePort(ports[c], x)])
  {
    RingUpdate(ports, c, GivePort(ports[c], x));
  }

  lemma GiveInv(s: Sys, c: nat, b: Buf, len: nat)
    requires Inv(s) && c < |s.ports| && b in s.hw && !Full(s.ports[c]) && len <= BUF_SIZE
    ensures Inv(Give(s, c, b, len)) && RxOnly(s, Give(s, c, b, len))
  {
    hide Held, RxOnly, Pool, Memory, TxPool, Transmit, Rings;
    RingGive(s.ports, c, Pending(b, len));
    GiveHeld(s, c, b, len);
    RxOnlyNoWrite(s, Give(s, c, b, len), c);
    MovePreserves(s, Give(s, c, b, len));
  }

  lemma DeliverInv(s: Sys, c: nat, b: Buf, len: nat)
    requires Inv(s) && c < |s.ports| && b in s.hw && len <= BUF_SIZE
    ensures Inv(Deliver(s, c, b, len)) && RxOnly(s, Deliver(s, c, b, len))
  {
    hide Inv, RxOnly, PutBack, Give;
    if Full(s.ports[c]) {
      PutBackInv(s, b);
    } else {
      GiveInv(s, c, b, len);
    }
  }

  lemma WriteInv(s: Sys, b: Buf, data: seq<byte>)
    requires Inv(s) && b in Held(s)
    ensures var r := s.(dma := Fill(s.dma, b.vbuf, data)); Inv(r) && RxOnly(s, r)
  {
    var r := s.(dma := Fill(s.dma, b.vbuf, data));
    RxOnlyStep(s, r, 0, b, data);
    MovePreserves(s, r);
  }

  lemma CopyToInv(s: Sys, b: Buf, len: nat, c: nat)
    requires Inv(s) && c < |s.ports| && len <= BUF_SIZE
    ensures Inv(CopyTo(s, b, len, c)) && RxOnly(s, CopyTo(s, b, len, c))
  {
    if Full(s.ports[c]) || Top(s, len).None? {
      RxOnlyNoWrite(s, s, 0);
    } else {
      var n := Top(s, len).value;
      var t := Alloc(s, len);
      AllocInv(s, len);
      AllocHeld(s, len);
      var u := t.(dma := Fill(t.dma, n.vbuf, Contents(t.dma, b.vbuf, len)));
      WriteInv(t, n, Contents(t.dma, b.vbuf, len));
      GiveInv(u, c, n, len);
      hide Held, RxOnly;
      RxOnlyChain(s, t, u);
      RxOnlyChain(s, u, Give(u, c, n, len));
    }
  }

  lemma {:induction false} CopyFromInv(s: Sys, b: Buf, len: nat, i: nat)
    requires Inv(s) && i <= |s.ports| && len <= BUF_SIZE
    ensures Inv(CopyFrom(s, b, len, i)) && RxOnly(s, CopyFrom(s, b, len, i))
    decreases |s.ports| - i
  {
    hide Inv, RxOnly, CopyTo, Held;
    if i < |s.ports| {
      var t := CopyTo(s, b, len, i);
      CopyToInv(s, b, len, i);
      CopyToHeld(s, b, len, i);
      CopyFromInv(t, b, len, i + 1);
      RxOnlyChain(s, t, CopyFrom(t, b, len, i + 1));
    } else {
      NoChange(s);
    }
  }

  lemma NoChange(s: Sys)
    ensures RxOnly(s, s)
  {
  }

  lemma ReceiveOneInv(s: Sys, b: Buf, len: nat)
    requires Inv(s) && s.ports != [] && b in s.hw && len <= BUF_SIZE
    ensures Inv(RxComplete(s, [b], [len]))
  {
    hide Inv, CopyFrom, Deliver, Detect, IsBroadcast, Contents, PutBack;
    var c := Detect(s.ports, Contents(s.dma, b.vbuf, len));
    if c < |s.ports| {
      DeliverInv(s, c, b, len);
    } else if IsBroadcast(Contents(s.dma, b.vbuf, len)) {
      CopyFromInv(s, b, len, 1);
      CopyFromHeld(s, b, len, 1);
      DeliverInv(CopyFrom(s, b, len, 1), 0, b, len);
    } else {
      PutBackInv(s, b);
    }
  }

  lemma ReceiveInv(s: Sys, bufs: seq<Buf>, lens: seq<nat>)
    requires Inv(s) && s.ports != [] && Can(s, HwRx(bufs, lens))
    ensures Inv(RxComplete(s, bufs, lens))
  {
    hide Inv;
    if |bufs| == 1 {
      assert bufs[0] in multiset(bufs);
      assert bufs == [bufs[0]] && lens == [lens[0]];
      ReceiveOneInv(s, bufs[0], lens[0]);
    } else {
      PutAllBackInv(s, bufs);
      hide PutAllBack;
    }
  }

  lemma HeadHeld(s: Sys, c: nat)
    requires c < |s.ports| && s.ports[c].queue != []
    ensures s.ports[c].queue[0].buf in Held(s)
  {
    BufsMember(s.ports[c].queue, 0);
    QueuedMember(s.ports, c, s.ports[c].queue[0].buf);
  }

  lemma ClientRxOnly(s: Sys, id: int)
    requires Rings(s.ports)
    ensures RxOnly(s, ClientRx(s, id)) && Rings(ClientRx(s, id).ports)
  {
    hide RxOnly, Held, Find, Fill, Zeros, Rings;
    var c, r := Find(s.ports, id), ClientRx(s, id);
    if c == |s.ports| {
      NoChange(s);
    } else if s.ports[c].queue == [] {
      NotifyRing(s.ports, c);
      RxOnlyNoWrite(s, r, c);
    } else {
      TakeRing(s.ports, c);
      HeadHeld(s, c);
      RxOnlyStep(s, r, c, s.ports[c].queue[0].buf, Zeros());
    }
  }

  lemma NotifyRing(ports: seq<Port>, c: nat)
    requires c < |ports| && Rings(ports)
    ensures Rings(ports[c := ports[c].(shouldNotify := true)])
  {
  }

  lemma TakeRing(ports: seq<Port>, c: nat)
    requires c < |ports| && Rings(ports) && ports[c].queue != []
    ensures Rings(ports[c := TakePort(ports[c])])
  {
    RingUpdate(ports, c, TakePort(ports[c]));
  }

  lemma ClientRxInv(s: Sys, id: int)
    requires Inv(s)
    ensures Inv(ClientRx(s, id)) && RxOnly(s, ClientRx(s, id))
  {
    hide Held, Rings, RxOnly, ClientRx;
    ClientRxHeld(s, id);
    ClientRxOnly(s, id);
    MovePreserves(s, ClientRx(s, id));
  }

  // ----- transmit steps -----

  lemma InFlightAdd(wire: map<TxBuf, seq<byte>>, t: TxBuf, frame: seq<byte>, c: nat)
    ensures InFlight(wire[t := frame], c) == InFlight(wire, c) + if t.client == c then {t} else {}
  {
  }

  lemma InFlightDrop(wire: map<TxBuf, seq<byte>>, t: TxBuf, c: nat)
    ensures InFlight(wire - {t}, c) == InFlight(wire, c) - if t.client == c then {t} else {}
  {
  }

  /** The stack and the buffers in flight trade one buffer. */
  lemma SendShares(tx: seq<TxBuf>, flying: set<TxBuf>, own: set<TxBuf>)
    requires tx != [] && multiset(tx) + multiset(flying) == multiset(own)
    ensures var n := |tx| - 1;
            tx[n] !in flying && tx[n] in own && multiset(tx[..n]) + multiset(flying + {tx[n]}) == multiset(own)
  {
    var n := |tx| - 1;
    var t := tx[n];
    assert tx == tx[..n] + [t];
    assert (multiset(tx) + multiset(flying))[t] == multiset(own)[t];
    assert multiset(flying + {t}) == multiset(flying) + multiset{t};
  }

  lemma DoneShares(tx: seq<TxBuf>, flying: set<TxBuf>, own: set<TxBuf>, t: TxBuf)
    requires t in flying && multiset(tx) + multiset(flying) == multiset(own)
    ensures multiset(tx + [t]) + multiset(flying - {t}) == multiset(own)
  {
    assert multiset(flying) == multiset(flying - {t}) + multiset{t};
  }

  lemma TxDoneTransmit(s: Sys, t: TxBuf)
    requires Transmit(s) && t in s.wire
    ensures Transmit(TxDone(s, t))
  {
    var r := TxDone(s, t);
    hide Contents;
    forall c | 0 <= c < |r.ports|
      ensures multiset(r.ports[c].tx) + multiset(InFlight(r.wire, c)) == multiset(r.own[c])
    {
      InFlightDrop(s.wire, t, c);
      if c == t.client {
        assert t in InFlight(s.wire, c);
        DoneShares(s.ports[c].tx, InFlight(s.wire, c), s.own[c], t);
      }
    }
    forall u | u in r.wire ensures u.client < |r.ports| && OnWire(r, u) {
      assert OnWire(s, u);
    }
  }

  lemma SendTransmit(s: Sys, r: Sys, c: nat, frame: seq<byte>)
    requires Inv(s) && c < |s.ports| && s.ports[c].tx != [] && |frame| <= BUF_SIZE
    requires var p := s.ports[c]; var n := |p.tx| - 1;
      r.ports == s.ports[c := p.(tx := p.tx[..n])] && r.own == s.own
      && r.dma == Fill(s.dma, p.tx[n].vbuf, frame) && r.wire == s.wire[p.tx[n] := frame]
    ensures Transmit(r) && SameShape(s.dma, r.dma)
  {
    var p := s.ports[c];
    var t := p.tx[|p.tx| - 1];
    FillShape(s.dma, t.vbuf, frame);
    IdleIsOwn(s, c, t);
    hide Contents, Fill, Held, SameShape, Rings, Pool, InFlight, OnWire, TxPool;
    forall d | 0 <= d < |r.ports|
      ensures multiset(r.ports[d].tx) + multiset(InFlight(r.wire, d)) == multiset(r.own[d])
    {
      SendOwner(s, c, t, frame, d);
    }
    forall u | u in r.wire ensures u.client < |r.ports| && OnWire(r, u) {
      SendOnWire(s, r, c, t, frame, u);
    }
  }

  lemma SendOwner(s: Sys, c: nat, t: TxBuf, frame: seq<byte>, d: nat)
    requires Transmit(s) && c < |s.ports| && s.ports[c].tx != [] && t == s.ports[c].tx[|s.ports[c].tx| - 1]
    requires t.client == c && d < |s.ports|
    ensures var n := |s.ports[c].tx| - 1;
      multiset(if d == c then s.ports[c].tx[..n] else s.ports[d].tx) + multiset(InFlight(s.wire[t := frame], d))
      == multiset(s.own[d])
  {
    hide InFlight, OnWire;
    SendShares(s.ports[c].tx, InFlight(s.wire, c), s.own[c]);
    InFlightAdd(s.wire, t, frame, d);
  }

  lemma SendOnWire(s: Sys, r: Sys, c: nat, t: TxBuf, frame: seq<byte>, u: TxBuf)
    requires Inv(s) && c < |s.ports| && t in s.own[c] && t.client == c && t !in InFlight(s.wire, c)
    requires |frame| <= BUF_SIZE && r.dma == Fill(s.dma, t.vbuf, frame) && r.wire == s.wire[t := frame] && u in r.wire
    ensures u.client < |s.ports| && OnWire(r, u)
  {
    FillShape(s.dma, t.vbuf, frame);
    if u != t {
      assert OnWire(s, u);
      WireIsOwn(s, u);
      assert u.vbuf != t.vbuf;
    }
    hide Contents, Fill, Held;
  }

  lemma ClientTxTransmit(s: Sys, id: int, len: int, packet: seq<byte>)
    requires Inv(s) && TxLen(len) <= |packet|
    ensures Transmit(ClientTx(s, id, len, packet)) && SameShape(s.dma, ClientTx(s, id, len, packet).dma)
  {
    var c := Find(s.ports, id);
    if len >= 12 && c < |s.ports| && s.ports[c].tx != [] {
      var frame := TxFrame(s.ports[c].mac, packet, TxLen(len));
      assert |frame| == TxLen(len);
      hide Inv, Transmit, SameShape, Fill, Find, TxFrame;
      SendTransmit(s, ClientTx(s, id, len, packet), c, frame);
    }
  }

  lemma SendInv(s: Sys, r: Sys)
    requires Inv(s) && Held(r) == Held(s) && r.own == s.own && SameShape(s.dma, r.dma)
    requires Transmit(r) && Rings(r.ports)
    ensures Inv(r)
  {
  }

  lemma TxDoneInv(s: Sys, t: TxBuf)
    requires Inv(s) && t in s.wire && t.client < |s.ports|
    ensures Inv(TxDone(s, t))
  {
    TxDoneTransmit(s, t);
    var p := s.ports[t.client];
    QueuedSame(s.ports, t.client, p.(tx := p.tx + [t]));
    RingUpdate(s.ports, t.client, p.(tx := p.tx + [t]));
    SendInv(s, TxDone(s, t));
  }

  lemma ClientTxInv(s: Sys, id: int, len: int, packet: seq<byte>)
    requires Inv(s) && TxLen(len) <= |packet|
    ensures Inv(ClientTx(s, id, len, packet))
  {
    hide Held, Transmit, Rings;
    ClientTxTransmit(s, id, len, packet);
    ClientTxHeld(s, id, len, packet);
    ClientTxRings(s, id, len, packet);
    SendInv(s, ClientTx(s, id, len, packet));
  }

  lemma ClientTxRings(s: Sys, id: int, len: int, packet: seq<byte>)
    requires Rings(s.ports) && TxLen(len) <= |packet|
    ensures Rings(ClientTx(s, id, len, packet).ports) && ClientTx(s, id, len, packet).own == s.own
  {
    var c := Find(s.ports, id);
    if c < |s.ports| && s.ports[c].tx != [] {
      var p := s.ports[c];
      RingUpdate(s.ports, c, p.(tx := p.tx[..|p.tx| - 1]));
    }
  }

  // ----- every step, every run -----

  lemma TakeSignalInv(s: Sys, c: nat)
    requires Inv(s) && c < |s.ports|
    ensures Inv(s.(ports := s.ports[c := s.ports[c].(signal := false)]))
  {
    var p := s.ports[c].(signal := false);
    var r := s.(ports := s.ports[c := p]);
    QueuedSame(s.ports, c, p);
    RingUpdate(s.ports, c, p);
    RxOnlyNoWrite(s, r, c);
    MovePreserves(s, r);
  }

  lemma HwAllocInv(s: Sys, size: nat)
    requires Inv(s) && s.ports != []
    ensures Inv(Step(s, HwAlloc(size)))
  {
    hide Inv, Held, Alloc, Fill, RxComplete, TxDone, ClientRx, ClientTx;
    AllocInv(s, size);
  }

  lemma HwHeld(s: Sys, b: Buf)
    requires b in s.hw
    ensures b in Held(s)
  {
  }

  lemma HwWriteInv(s: Sys, b: Buf, data: seq<byte>)
    requires Inv(s) && s.ports != [] && Can(s, HwWrite(b, data))
    ensures Inv(Step(s, HwWrite(b, data)))
  {
    hide Inv, Held, Alloc, Fill, RxComplete, TxDone, ClientRx, ClientTx;
    HwHeld(s, b);
    WriteInv(s, b, data);
  }

  lemma HwRxInv(s: Sys, bufs: seq<Buf>, lens: seq<nat>)
    requires Inv(s) && s.ports != [] && Can(s, HwRx(bufs, lens))
    ensures Inv(Step(s, HwRx(bufs, lens)))
  {
    hide Inv, Held, Alloc, Fill, RxComplete, TxDone, ClientRx, ClientTx;
    ReceiveInv(s, bufs, lens);
  }

  lemma HwTxInv(s: Sys, t: TxBuf)
    requires Inv(s) && s.ports != [] && Can(s, HwTx(t))
    ensures Inv(Step(s, HwTx(t)))
  {
    hide Inv, Held, Alloc, Fill, RxComplete, TxDone, ClientRx, ClientTx;
    WireClient(s);
    TxDoneInv(s, t);
  }

  lemma RxInv(s: Sys, id: int)
    requires Inv(s) && s.ports != []
    ensures Inv(Step(s, Rx(id)))
  {
    hide Inv, Held, Alloc, Fill, RxComplete, TxDone, ClientRx, ClientTx;
    ClientRxInv(s, id);
  }

  lemma TxInv(s: Sys, id: int, len: int, packet: seq<byte>)
    requires Inv(s) && s.ports != [] && Can(s, Tx(id, len, packet))
    ensures Inv(Step(s, Tx(id, len, packet)))
  {
    hide Inv, Held, Alloc, Fill, RxComplete, TxDone, ClientRx, ClientTx;
    ClientTxInv(s, id, len, packet);
  }

  lemma SignalInv(s: Sys, c: nat)
    requires Inv(s) && s.ports != [] && Can(s, TakeSignal(c))
    ensures Inv(Step(s, TakeSignal(c)))
  {
    hide Inv, Held, Alloc, Fill, RxComplete, TxDone, ClientRx, ClientTx;
    TakeSignalInv(s, c);
  }

  /** A buffer the hardware holds is memory of BUF_SIZE bytes. */
  lemma HwMemory(s: Sys, b: Buf)
    requires Inv(s) && b in s.hw
    ensures b in Held(s) && b.vbuf in s.dma && |s.dma[b.vbuf]| == BUF_SIZE
  {
  }

  /** Every step of the driver, the hardware or a client keeps the invariant. */
  lemma StepInv(s: Sys, e: Event)
    requires Inv(s) && Can(s, e)
    ensures Inv(Step(s, e))
  {
    hide Inv, Step, Can;
    WireClient(s);
    match e
    case HwAlloc(size) => HwAllocInv(s, size);
    case HwWrite(b, data) => HwWriteInv(s, b, data);
    case HwRx(bufs, lens) => HwRxInv(s, bufs, lens);
    case HwTx(t) => HwTxInv(s, t);
    case Rx(id) => RxInv(s, id);
    case Tx(id, len, packet) => TxInv(s, id, len, packet);
    case TakeSignal(c) => SignalInv(s, c);
  }

  lemma WireClient(s: Sys)
    requires Inv(s)
    ensures s.ports != []
    ensures forall t :: t in s.wire ==> t.client < |s.ports|
  {
  }

  ghost predicate CanAll(s: Sys, events: seq<Event>)
    requires s.ports != []
    decreases |events|
  {
    events != [] ==>
      var n := |events| - 1;
      CanAll(s, events[..n]) && Can(Run(s, events[..n]), events[n])
  }

  function Run(s: Sys, events: seq<Event>): (r: Sys)
    requires s.ports != []
    ensures |r.ports| == |s.ports|
    decreases |events|
  {
    if events == [] then s
    else Step(Run(s, events[..|events| - 1]), events[|events| - 1])
  }

  /** The state `post_init` leaves: all receive buffers on the stack, and each client's first 127 transmit
    * buffers on its own. */
  ghost predicate Initial(s: Sys) {
    && s.ports != [] && s.hw == multiset{} && s.wire == map[] && |s.own| == |s.ports|
    && (forall c :: 0 <= c < |s.ports| ==> Fresh(s.ports[c]) && multiset(s.ports[c].tx) == multiset(s.own[c]))
    && Pool(multiset(s.free)) && Memory(multiset(s.free), s.own, s.dma) && TxPool(multiset(s.free), s.own)
  }

  ghost predicate Fresh(p: Port) {
    p.queue == [] && p.shouldNotify && !p.signal && |p.mac| == MAC_ADDRESS_LEN
  }

  lemma {:induction false} NothingQueued(ports: seq<Port>)
    requires forall c :: 0 <= c < |ports| ==> ports[c].queue == []
    ensures Queued(ports) == multiset{}
    decreases |ports|
  {
    if ports != [] {
      NothingQueued(ports[..|ports| - 1]);
    }
  }

  lemma InitialInv(s: Sys)
    requires Initial(s)
    ensures Inv(s) && Held(s) == multiset(s.free)
  {
    NothingQueued(s.ports);
    assert Held(s) == multiset(s.free);
    hide Queued;
    forall c | 0 <= c < |s.ports|
      ensures multiset(s.ports[c].tx) + multiset(InFlight(s.wire, c)) == multiset(s.own[c])
    {
      assert InFlight(s.wire, c) == {};
    }
  }

  /** In every reachable state the receive buffers are those of the initial stack, each in one place and each
    * still paired with its physical address. */
  lemma {:induction false} RunInv(s: Sys, events: seq<Event>)
    requires Initial(s) && CanAll(s, events)
    ensures Inv(Run(s, events)) && Held(Run(s, events)) == multiset(s.free) && Run(s, events).own == s.own
    decreases |events|
  {
    if events == [] {
      InitialInv(s);
    } else {
      var n := |events| - 1;
      RunInv(s, events[..n]);
      var t := Run(s, events[..n]);
      StepInv(t, events[n]);
      StepHeld(t, events[n]);
    }
  }

  /** No stack or ring write is out of range: the receive stack has room while the hardware or a ring holds a
    * buffer, and a client's transmit stack while one of its buffers is in flight. */
  lemma Bounds(s: Sys)
    requires Inv(s)
    ensures |s.free| + |s.hw| + |Queued(s.ports)| == RX_BUFS
    ensures forall c :: 0 <= c < |s.ports| ==>
      |s.ports[c].queue| <= CLIENT_RX_BUFS - 1 && |s.ports[c].tx| + |InFlight(s.wire, c)| == CLIENT_TX_BUFS - 1
  {
    assert |Held(s)| == |multiset(s.free)| + |s.hw| + |Queued(s.ports)|;
    forall c | 0 <= c < |s.ports|
      ensures |s.ports[c].queue| <= CLIENT_RX_BUFS - 1 && |s.ports[c].tx| + |InFlight(s.wire, c)| == CLIENT_TX_BUFS - 1
    {
      assert Ring(s.ports[c]);
      assert |multiset(s.ports[c].tx) + multiset(InFlight(s.wire, c))| == |multiset(s.own[c])|;
    }
  }

  lemma TransmitOf(s: Sys)
    requires Inv(s)
    ensures Transmit(s) && TxPool(Held(s), s.own)
  {
  }

  lemma NotFlying(s: Sys, c: nat, t: TxBuf)
    requires t.client == c && t !in InFlight(s.wire, c)
    ensures t !in s.wire
  {
  }

  /** Idle transmit buffers are all different, belong to their client and are not in flight. */
  lemma IdleTx(s: Sys, c: nat, i: nat, j: nat)
    requires Inv(s) && c < |s.ports| && i < j < |s.ports[c].tx|
    ensures var tx := s.ports[c].tx; tx[i] != tx[j] && tx[i] in s.own[c] && tx[i].client == c && tx[i] !in s.wire
  {
    hide Inv, InFlight;
    TransmitOf(s);
    var tx := s.ports[c].tx;
    IdleIsOwn(s, c, tx[i]);
    NotFlying(s, c, tx[i]);
    assert (multiset(tx) + multiset(InFlight(s.wire, c)))[tx[i]] == multiset(s.own[c])[tx[i]] <= 1;
    assert tx == tx[..j] + [tx[j]] + tx[j + 1..];
    assert multiset(tx) == multiset(tx[..j]) + multiset{tx[j]} + multiset(tx[j + 1..]);
    assert tx[..j][i] in multiset(tx[..j]);
  }
}
