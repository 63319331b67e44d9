/** The routers and the driver together: each client of the driver is a router that waits for its
  * notification, then polls for frames. No wakeup is lost.
  */
module Wakeup {
  import opened Bytes
  import opened EthModel
  import opened EthInvariant
  import opened EthFrames

  /** Where a router is: in its wait, or about to call `client_rx` from `raw_poll`. */
  datatype Pc = Waiting | Polling

  datatype Net = Net(sys: Sys, pc: seq<Pc>)

  datatype Action =
    | Driver(e: Event)              // the hardware acts, or some client sends
    | Wake(c: nat)                  // the wait of router c returns
    | Poll(c: nat, granted: bool) // router c calls client_rx; lwIP grants a buffer for the frame or not

  ghost predicate Enabled(n: Net, a: Action)
    requires |n.pc| == |n.sys.ports|
  {
    match a
    case Driver(e) => !e.Rx? && !e.TakeSignal? && Can(n.sys, e)
    case Wake(c) => c < |n.pc| && n.pc[c] == Waiting && n.sys.ports[c].signal
    case Poll(c, _) => c < |n.pc| && n.pc[c] == Polling
  }

  /** The step of the driver an action amounts to. */
  function EventOf(n: Net, a: Action): Event {
    match a
    case Driver(e) => e
    case Wake(c) => TakeSignal(c)
    case Poll(c, _) => Rx(if c < |n.sys.ports| then n.sys.ports[c].id else 0)
  }

  /** `raw_poll` calls `client_rx` again only after a frame that lwIP took and that was not the last. */
  function NextPc(n: Net, a: Action): seq<Pc> {
    match a
    case Driver(_) => n.pc
    case Wake(c) => if c < |n.pc| then n.pc[c := Polling] else n.pc
    case Poll(c, granted) =>
      if c < |n.pc| && c < |n.sys.ports|
      then n.pc[c := if granted && RxStatusOf(n.sys, n.sys.ports[c].id) == RX_INCOMPLETE then Polling else Waiting]
      else n.pc
  }

  function NetStep(n: Net, a: Action): (r: Net)
    requires n.sys.ports != []
    ensures |r.pc| == |n.pc| && |r.sys.ports| == |n.sys.ports|
  {
    Net(Step(n.sys, EventOf(n, a)), NextPc(n, a))
  }

  // ----- the invariant -----

  /** The driver asks to notify only when the ring is empty; otherwise the router has been or is being told. */
  ghost predicate Told(p: Port, pc: Pc) {
    (p.shouldNotify ==> p.queue == []) && (p.shouldNotify || p.signal || pc == Polling)
  }

  ghost predicate AllTold(ports: seq<Port>, pc: seq<Pc>) {
    |pc| == |ports| && forall c :: 0 <= c < |ports| ==> Told(ports[c], pc[c])
  }

  ghost predicate DistinctIds(ports: seq<Port>) {
    forall c, d :: 0 <= c < |ports| && 0 <= d < |ports| && ports[c].id == ports[d].id ==> c == d
  }

  ghost predicate SameIds(p: seq<Port>, q: seq<Port>) {
    |p| == |q| && forall c :: 0 <= c < |p| ==> q[c].id == p[c].id
  }

  lemma {:induction false} FindOwn(ports: seq<Port>, c: nat, i: nat)
    requires DistinctIds(ports) && i <= c < |ports|
    ensures FindFrom(ports, ports[c].id, i) == c
    decreases c - i
  {
    if i < c {
      FindOwn(ports, c, i + 1);
    }
  }

  lemma PortTold(ports: seq<Port>, pc: seq<Pc>, c: nat, p: Port, x: Pc)
    requires AllTold(ports, pc) && c < |ports| && Told(p, x)
    ensures AllTold(ports[c := p], pc[c := x])
  {
  }

  lemma GiveTold(s: Sys, pc: seq<Pc>, c: nat, b: Buf, len: nat)
    requires AllTold(s.ports, pc) && c < |s.ports|
    ensures AllTold(Give(s, c, b, len).ports, pc) && SameIds(s.ports, Give(s, c, b, len).ports)
  {
    assert Told(s.ports[c], pc[c]);
    PortTold(s.ports, pc, c, GivePort(s.ports[c], Pending(b, len)), pc[c]);
    assert pc[c := pc[c]] == pc;
  }

  lemma CopyToTold(s: Sys, pc: seq<Pc>, b: Buf, len: nat, c: nat)
    requires AllTold(s.ports, pc) && c < |s.ports|
    ensures AllTold(CopyTo(s, b, len, c).ports, pc) && SameIds(s.ports, CopyTo(s, b, len, c).ports)
  {
    if !Full(s.ports[c]) && Top(s, len).Some? {
      var t := Alloc(s, len);
      var n := Top(s, len).value;
      GiveTold(t.(dma := Fill(t.dma, n.vbuf, Contents(t.dma, b.vbuf, len))), pc, c, n, len);
      hide Fill, Contents;
    }
  }

  lemma {:induction false} CopyFromTold(s: Sys, pc: seq<Pc>, b: Buf, len: nat, i: nat)
    requires AllTold(s.ports, pc) && i <= |s.ports|
    ensures AllTold(CopyFrom(s, b, len, i).ports, pc) && SameIds(s.ports, CopyFrom(s, b, len, i).ports)
    decreases |s.ports| - i
  {
    hide AllTold, CopyTo;
    if i < |s.ports| {
      CopyToTold(s, pc, b, len, i);
      CopyFromTold(CopyTo(s, b, len, i), pc, b, len, i + 1);
    }
  }

  lemma DeliverTold(s: Sys, pc: seq<Pc>, c: nat, b: Buf, len: nat)
    requires AllTold(s.ports, pc) && c < |s.ports|
    ensures AllTold(Deliver(s, c, b, len).ports, pc) && SameIds(s.ports, Deliver(s, c, b, len).ports)
  {
    hide AllTold;
    GiveTold(s, pc, c, b, len);
  }

  /** A frame may arrive at any moment: either the router is told, or it is already polling. */
  lemma ReceiveTold(s: Sys, pc: seq<Pc>, bufs: seq<Buf>, lens: seq<nat>)
    requires AllTold(s.ports, pc) && |bufs| == |lens| && s.ports != []
    ensures AllTold(RxComplete(s, bufs, lens).ports, pc) && SameIds(s.ports, RxComplete(s, bufs, lens).ports)
  {
    hide AllTold, CopyFrom, Deliver, Detect, IsBroadcast, Contents;
    if |bufs| == 1 {
      var c := Detect(s.ports, Contents(s.dma, bufs[0].vbuf, lens[0]));
      if c < |s.ports| {
        DeliverTold(s, pc, c, bufs[0], lens[0]);
      }
      CopyFromTold(s, pc, bufs[0], lens[0], 1);
      DeliverTold(CopyFrom(s, bufs[0], lens[0], 1), pc, 0, bufs[0], lens[0]);
    }
  }

  lemma DriverTold(s: Sys, pc: seq<Pc>, e: Event)
    requires AllTold(s.ports, pc) && s.ports != [] && Can(s, e) && !e.Rx? && !e.TakeSignal?
    ensures AllTold(Step(s, e).ports, pc) && SameIds(s.ports, Step(s, e).ports)
  {
    hide RxComplete, Fill, TxFrame, Find;
    if e.HwRx? {
      ReceiveTold(s, pc, e.bufs, e.lens);
    }
  }

  lemma WakeTold(n: Net, c: nat)
    requires AllTold(n.sys.ports, n.pc) && n.sys.ports != [] && c < |n.pc|
    ensures AllTold(NetStep(n, Wake(c)).sys.ports, NetStep(n, Wake(c)).pc)
    ensures SameIds(n.sys.ports, NetStep(n, Wake(c)).sys.ports)
  {
    assert Told(n.sys.ports[c], n.pc[c]);
    PortTold(n.sys.ports, n.pc, c, n.sys.ports[c].(signal := false), Polling);
  }

  /** A poll keeps the invariant exactly when lwIP took the frame, or none was left, or a notification is
    * pending anyway. */
  lemma PollTold(n: Net, c: nat, granted: bool)
    requires AllTold(n.sys.ports, n.pc) && n.sys.ports != [] && DistinctIds(n.sys.ports)
    requires c < |n.pc| && n.pc[c] == Polling
    ensures var r := NetStep(n, Poll(c, granted));
      && SameIds(n.sys.ports, r.sys.ports)
      && (AllTold(r.sys.ports, r.pc) <==>
            granted || RxStatusOf(n.sys, n.sys.ports[c].id) != RX_INCOMPLETE || n.sys.ports[c].signal)
  {
    FindOwn(n.sys.ports, c, 0);
    var r := NetStep(n, Poll(c, granted));
    assert Told(n.sys.ports[c], n.pc[c]);
    hide Fill, Zeros, Find;
    assert forall d :: 0 <= d < |n.pc| && d != c ==> r.sys.ports[d] == n.sys.ports[d] && r.pc[d] == n.pc[d];
    assert AllTold(r.sys.ports, r.pc) <==> Told(r.sys.ports[c], r.pc[c]);
  }

  // ----- every interleaving -----

  ghost function NetRun(n: Net, actions: seq<Action>): (r: Net)
    requires n.sys.ports != []
    ensures |r.pc| == |n.pc| && |r.sys.ports| == |n.sys.ports|
    decreases |actions|
  {
    if actions == [] then n else NetStep(NetRun(n, actions[..|actions| - 1]), actions[|actions| - 1])
  }

  /** Every action is possible when it happens. */
  ghost predicate Possible(n: Net, actions: seq<Action>)
    requires n.sys.ports != [] && |n.pc| == |n.sys.ports|
    decreases |actions|
  {
    actions != [] ==>
      var k := |actions| - 1;
      Possible(n, actions[..k]) && Enabled(NetRun(n, actions[..k]), actions[k])
  }

  /** If this is a poll, lwIP takes the frame, or none is left behind it, or a notification is pending anyway. */
  ghost predicate Harmless(n: Net, a: Action) {
    a.Poll? && a.c < |n.sys.ports| ==>
      a.granted || RxStatusOf(n.sys, n.sys.ports[a.c].id) != RX_INCOMPLETE || n.sys.ports[a.c].signal
  }

  ghost predicate AllHarmless(n: Net, actions: seq<Action>)
    requires n.sys.ports != []
    decreases |actions|
  {
    actions != [] ==>
      var k := |actions| - 1;
      AllHarmless(n, actions[..k]) && Harmless(NetRun(n, actions[..k]), actions[k])
  }

  /** After the first `k` actions every router is told. */
  ghost predicate ToldAfter(n: Net, actions: seq<Action>, k: nat)
    requires n.sys.ports != [] && k <= |actions|
  {
    var r := NetRun(n, actions[..k]);
    AllTold(r.sys.ports, r.pc)
  }

  /** The driver's view of a run. */
  ghost function Events(n: Net, actions: seq<Action>): (e: seq<Event>)
    requires n.sys.ports != []
    ensures |e| == |actions|
    decreases |actions|
  {
    if actions == [] then []
    else
      var k := |actions| - 1;
      Events(n, actions[..k]) + [EventOf(NetRun(n, actions[..k]), actions[k])]
  }

  ghost predicate Start(n: Net) {
    && Initial(n.sys) && |n.pc| == |n.sys.ports| && DistinctIds(n.sys.ports)
    && forall c :: 0 <= c < |n.pc| ==> n.pc[c] == Waiting
  }

  ghost predicate ToldThroughout(n: Net, actions: seq<Action>)
    requires n.sys.ports != []
  {
    forall k :: 0 <= k <= |actions| ==> ToldAfter(n, actions, k)
  }

  lemma ToldThroughoutSnoc(n: Net, actions: seq<Action>)
    requires n.sys.ports != [] && actions != []
    ensures var r := NetRun(n, actions);
      ToldThroughout(n, actions) <==> ToldThroughout(n, actions[..|actions| - 1]) && AllTold(r.sys.ports, r.pc)
  {
    hide AllTold, NetRun, ToldThroughout;
    ToldAtEnd(n, actions);
    if ToldThroughout(n, actions) {
      ToldEarlier(n, actions);
    }
    if ToldThroughout(n, actions[..|actions| - 1]) && ToldAfter(n, actions, |actions|) {
      ToldLater(n, actions);
    }
  }

  lemma ToldEarlier(n: Net, actions: seq<Action>)
    requires n.sys.ports != [] && actions != [] && ToldThroughout(n, actions)
    ensures ToldThroughout(n, actions[..|actions| - 1]) && ToldAfter(n, actions, |actions|)
  {
    hide ToldAfter;
    var before := actions[..|actions| - 1];
    forall k | 0 <= k < |actions| ensures ToldAfter(n, before, k) {
      ToldBefore(n, actions, k);
    }
  }

  lemma ToldLater(n: Net, actions: seq<Action>)
    requires n.sys.ports != [] && actions != []
    requires ToldThroughout(n, actions[..|actions| - 1]) && ToldAfter(n, actions, |actions|)
    ensures ToldThroughout(n, actions)
  {
    hide ToldAfter;
    forall k | 0 <= k < |actions| ensures ToldAfter(n, actions, k) {
      ToldBefore(n, actions, k);
    }
  }

  lemma ToldAtEnd(n: Net, actions: seq<Action>)
    requires n.sys.ports != []
    ensures ToldAfter(n, actions, |actions|) <==> AllTold(NetRun(n, actions).sys.ports, NetRun(n, actions).pc)
  {
    hide AllTold, NetRun;
    assert actions[..|actions|] == actions;
  }

  lemma ToldBefore(n: Net, actions: seq<Action>, k: nat)
    requires n.sys.ports != [] && k < |actions|
    ensures ToldAfter(n, actions, k) <==> ToldAfter(n, actions[..|actions| - 1], k)
  {
    hide AllTold, NetRun;
    assert actions[..k] == actions[..|actions| - 1][..k];
  }

  /** In every interleaving, every router is told at every moment exactly when every poll was harmless. */
  lemma {:induction false} RunTold(n: Net, actions: seq<Action>)
    requires Start(n) && Possible(n, actions)
    ensures ToldThroughout(n, actions) <==> AllHarmless(n, actions)
    ensures AllHarmless(n, actions) ==> AllTold(NetRun(n, actions).sys.ports, NetRun(n, actions).pc)
    decreases |actions|
  {
    StartTold(n);
    if actions == [] {
      assert actions[..0] == actions;
    } else {
      var m := |actions| - 1;
      RunTold(n, actions[..m]);
      RunIds(n, actions[..m]);
      ToldThroughoutSnoc(n, actions);
      hide ToldThroughout, AllTold, DistinctIds, SameIds, NetStep, Harmless, Enabled, Start;
      if AllHarmless(n, actions[..m]) {
        ActionTold(NetRun(n, actions[..m]), actions[m]);
      }
    }
  }

  lemma StartTold(n: Net)
    requires Start(n)
    ensures AllTold(n.sys.ports, n.pc) && n.sys.ports != [] && DistinctIds(n.sys.ports)
  {
    assert forall c :: 0 <= c < |n.pc| ==> Fresh(n.sys.ports[c]);
  }

  lemma ActionTold(m: Net, a: Action)
    requires m.sys.ports != [] && |m.pc| == |m.sys.ports| && DistinctIds(m.sys.ports)
    requires AllTold(m.sys.ports, m.pc) && Enabled(m, a)
    ensures AllTold(NetStep(m, a).sys.ports, NetStep(m, a).pc) <==> Harmless(m, a)
  {
    hide DistinctIds, AllTold, Step, RxStatusOf;
    match a
    case Driver(e) => DriverTold(m.sys, m.pc, e);
    case Wake(c) => WakeTold(m, c);
    case Poll(c, granted) => PollTold(m, c, granted);
  }

  lemma {:induction false} RunProjects(n: Net, actions: seq<Action>)
    requires n.sys.ports != [] && |n.pc| == |n.sys.ports| && Possible(n, actions)
    ensures NetRun(n, actions).sys == Run(n.sys, Events(n, actions)) && CanAll(n.sys, Events(n, actions))
    decreases |actions|
  {
    hide Step, Can;
    if actions != [] {
      var k := |actions| - 1;
      RunProjects(n, actions[..k]);
      assert Events(n, actions)[..k] == Events(n, actions[..k]);
      EnabledCan(NetRun(n, actions[..k]), actions[k]);
    }
  }

  lemma EnabledCan(n: Net, a: Action)
    requires |n.pc| == |n.sys.ports| && Enabled(n, a)
    ensures Can(n.sys, EventOf(n, a))
  {
  }

  /** No lost wakeup: in every interleaving in which lwIP refuses no frame with others behind it, a router that waits
    * without a pending notification has an empty ring, is set to be notified, and has been handed every frame ever
    * accepted for it. */
  lemma NoLostWakeup(n: Net, actions: seq<Action>, c: nat)
    requires Start(n) && Possible(n, actions) && AllHarmless(n, actions) && c < |n.pc|
    ensures var r := NetRun(n, actions);
      r.pc[c] == Waiting && !r.sys.ports[c].signal ==>
        && r.sys.ports[c].queue == [] && r.sys.ports[c].shouldNotify
        && AllDelivered(n.sys, Events(n, actions), c) == AllAccepted(n.sys, Events(n, actions), c)
  {
    RunTold(n, actions);
    RunProjects(n, actions);
    RunFrames(n.sys, Events(n, actions), c);
    var r := NetRun(n, actions);
    assert Told(r.sys.ports[c], r.pc[c]);
    hide NetRun, Events, Run, AllDelivered, AllAccepted;
    assert r.sys.ports[c].queue == [] ==> Frames(r.sys, c) == [];
  }

  // ----- a router that is not told -----

  /** What no step of the others does to a client's record: notify it when it has not asked for it. */
  ghost predicate Unasked(p: Port, q: Port) {
    q.id == p.id && (!p.shouldNotify && !p.signal ==> !q.shouldNotify && !q.signal)
  }

  ghost predicate AllUnasked(p: seq<Port>, q: seq<Port>) {
    |p| == |q| && forall c :: 0 <= c < |p| ==> Unasked(p[c], q[c])
  }

  lemma UnaskedSame(p: seq<Port>)
    ensures AllUnasked(p, p)
  {
  }

  lemma UnaskedChain(p: seq<Port>, q: seq<Port>, r: seq<Port>)
    requires AllUnasked(p, q) && AllUnasked(q, r)
    ensures AllUnasked(p, r)
  {
    forall c | 0 <= c < |p| ensures Unasked(p[c], r[c]) {
      assert Unasked(p[c], q[c]) && Unasked(q[c], r[c]);
    }
  }

  lemma CopyToUnasked(s: Sys, b: Buf, len: nat, c: nat)
    requires c < |s.ports|
    ensures AllUnasked(s.ports, CopyTo(s, b, len, c).ports)
  {
    hide Fill, Contents;
  }

  lemma {:induction false} CopyFromUnasked(s: Sys, b: Buf, len: nat, i: nat)
    requires i <= |s.ports|
    ensures AllUnasked(s.ports, CopyFrom(s, b, len, i).ports)
    decreases |s.ports| - i
  {
    hide CopyTo, AllUnasked;
    if i == |s.ports| {
      UnaskedSame(s.ports);
    } else {
      CopyToUnasked(s, b, len, i);
      CopyFromUnasked(CopyTo(s, b, len, i), b, len, i + 1);
      UnaskedChain(s.ports, CopyTo(s, b, len, i).ports, CopyFrom(s, b, len, i).ports);
    }
  }

  lemma DeliverUnasked(s: Sys, c: nat, b: Buf, len: nat)
    requires c < |s.ports|
    ensures AllUnasked(s.ports, Deliver(s, c, b, len).ports)
  {
  }

  lemma ReceiveUnasked(s: Sys, bufs: seq<Buf>, lens: seq<nat>)
    requires |bufs| == |lens| && s.ports != []
    ensures AllUnasked(s.ports, RxComplete(s, bufs, lens).ports)
  {
    if |bufs| == 1 {
      var b, len := bufs[0], lens[0];
      var c, t := Detect(s.ports, Contents(s.dma, b.vbuf, len)), CopyFrom(s, b, len, 1);
      CopyFromUnasked(s, b, len, 1);
      DeliverUnasked(t, 0, b, len);
      UnaskedChain(s.ports, t.ports, Deliver(t, 0, b, len).ports);
      if c < |s.ports| {
        DeliverUnasked(s, c, b, len);
      }
      hide Detect, Contents, CopyFrom, Deliver;
    }
  }

  lemma DriverUnasked(s: Sys, e: Event)
    requires s.ports != [] && !e.Rx? && !e.TakeSignal?
    ensures AllUnasked(s.ports, Step(s, e).ports)
  {
    hide RxComplete, Fill, TxFrame, Find;
    if e.HwRx? && |e.bufs| == |e.lens| {
      ReceiveUnasked(s, e.bufs, e.lens);
    }
  }

  lemma StepIds(s: Sys, e: Event)
    requires s.ports != []
    ensures SameIds(s.ports, Step(s, e).ports)
  {
    if !e.Rx? && !e.TakeSignal? {
      DriverUnasked(s, e);
      hide Step;
    } else {
      hide Fill, Zeros, Find;
    }
  }

  lemma {:induction false} RunIds(n: Net, actions: seq<Action>)
    requires n.sys.ports != [] && DistinctIds(n.sys.ports)
    ensures SameIds(n.sys.ports, NetRun(n, actions).sys.ports) && DistinctIds(NetRun(n, actions).sys.ports)
    decreases |actions|
  {
    if actions != [] {
      var k := |actions| - 1;
      RunIds(n, actions[..k]);
      StepIds(NetRun(n, actions[..k]).sys, EventOf(NetRun(n, actions[..k]), actions[k]));
      hide Step;
    }
  }

  /** Router `c` waits for a notification nobody has been asked to send. */
  ghost predicate Stuck(n: Net, c: nat) {
    c < |n.pc| == |n.sys.ports| && n.pc[c] == Waiting && !n.sys.ports[c].signal && !n.sys.ports[c].shouldNotify
  }

  /** A harmful poll leaves the router stuck with frames in its ring. */
  lemma RefusalSticks(n: Net, c: nat)
    requires n.sys.ports != [] && |n.pc| == |n.sys.ports| && DistinctIds(n.sys.ports)
    requires AllTold(n.sys.ports, n.pc) && Enabled(n, Poll(c, false)) && !Harmless(n, Poll(c, false))
    ensures var r := NetStep(n, Poll(c, false)); Stuck(r, c) && r.sys.ports[c].queue == n.sys.ports[c].queue[1..] != []
  {
    FindOwn(n.sys.ports, c, 0);
    assert Told(n.sys.ports[c], n.pc[c]);
    hide Fill, Zeros, Find;
  }

  lemma StaysStuck(n: Net, a: Action, c: nat)
    requires n.sys.ports != [] && DistinctIds(n.sys.ports) && Stuck(n, c) && Enabled(n, a)
    ensures Stuck(NetStep(n, a), c) && Delivered(n.sys, EventOf(n, a), c) == []
  {
    match a
    case Driver(e) =>
      DriverUnasked(n.sys, e);
      hide Step;
      assert Unasked(n.sys.ports[c], Step(n.sys, e).ports[c]);
    case Wake(d) =>
      assert d != c;
    case Poll(d, granted) =>
      assert d != c;
      FindOwn(n.sys.ports, d, 0);
      hide Fill, Zeros, Find;
  }

  /** One refused allocation wedges a router for good: whatever happens afterwards, it stays stuck and is never handed
    * a frame again. */
  lemma {:induction false} StuckForever(n: Net, actions: seq<Action>, c: nat)
    requires n.sys.ports != [] && DistinctIds(n.sys.ports) && Stuck(n, c) && Possible(n, actions)
    ensures Stuck(NetRun(n, actions), c) && AllDelivered(n.sys, Events(n, actions), c) == []
    decreases |actions|
  {
    if actions != [] {
      var k := |actions| - 1;
      StuckForever(n, actions[..k], c);
      RunIds(n, actions[..k]);
      RunProjects(n, actions[..k]);
      assert Events(n, actions)[..k] == Events(n, actions[..k]);
      StaysStuck(NetRun(n, actions[..k]), actions[k], c);
      hide Step, Delivered, Enabled;
    }
  }

  // ----- a run that gets stuck -----

  lemma RunSnoc(n: Net, actions: seq<Action>, a: Action)
    requires n.sys.ports != [] && |n.pc| == |n.sys.ports|
    ensures NetRun(n, actions + [a]) == NetStep(NetRun(n, actions), a)
    ensures Possible(n, actions + [a]) <==> Possible(n, actions) && Enabled(NetRun(n, actions), a)
  {
    assert (actions + [a])[..|actions|] == actions;
  }

  /** One more frame waits for client 0, which is told of it. */
  ghost predicate FrameIn(s: Sys, r: Sys) {
    && s.ports != [] && r.ports != [] && Inv(r) && |r.free| == |s.free| - 1
    && var p, q := s.ports[0], r.ports[0];
       q.signal == (p.signal || p.shouldNotify) && !q.shouldNotify && |q.queue| == |p.queue| + 1
  }

  ghost predicate Room(s: Sys) {
    s.ports != [] && Inv(s) && !Full(s.ports[0]) && s.free != []
  }

  /** A frame for client 0 comes in: the hardware takes a buffer, fills it and completes it. */
  lemma Arrive(n: Net, actions: seq<Action>) returns (more: seq<Action>)
    requires n.sys.ports != [] && |n.pc| == |n.sys.ports| && Possible(n, actions) && Room(NetRun(n, actions).sys)
    ensures Possible(n, more) && NetRun(n, more).pc == NetRun(n, actions).pc
    ensures FrameIn(NetRun(n, actions).sys, NetRun(n, more).sys)
  {
    hide Step, Inv, Can, NetRun, Possible, FrameIn, Room;
    var b, data := FrameComesIn(NetRun(n, actions).sys);
    var e0, e1, e2 := HwAlloc(BUF_SIZE), HwWrite(b, data), HwRx([b], [BUF_SIZE]);
    RunSnoc(n, actions, Driver(e0));
    var one := actions + [Driver(e0)];
    RunSnoc(n, one, Driver(e1));
    var two := one + [Driver(e1)];
    RunSnoc(n, two, Driver(e2));
    more := two + [Driver(e2)];
  }

  lemma FrameComesIn(s: Sys) returns (b: Buf, data: seq<byte>)
    requires Room(s)
    ensures Can(s, HwAlloc(BUF_SIZE))
    ensures var t := Step(s, HwAlloc(BUF_SIZE));
      && Can(t, HwWrite(b, data))
      && var u := Step(t, HwWrite(b, data)); Can(u, HwRx([b], [BUF_SIZE])) && FrameIn(s, Step(u, HwRx([b], [BUF_SIZE])))
  {
    hide Inv, Fill, Contents, Zeros, Detect, RxComplete, Full, CopyFrom, ClientRx, ClientTx, TxDone;
    b, data := s.free[|s.free| - 1], s.ports[0].mac + Zeros()[MAC_ADDRESS_LEN..];
    OwnAddress(s, data);
    var t := Step(s, HwAlloc(BUF_SIZE));
    StepInv(s, HwAlloc(BUF_SIZE));
    AllocTakes(s);
    WriteTakes(t, b, data);
    var u := Step(t, HwWrite(b, data));
    StepInv(t, HwWrite(b, data));
    StepInv(u, HwRx([b], [BUF_SIZE]));
    ReceiveOwn(u, b);
  }

  /** Padded to a buffer's length, a client's address is a frame for it. */
  lemma OwnAddress(s: Sys, data: seq<byte>)
    requires Inv(s) && s.ports != [] && data == s.ports[0].mac + Zeros()[MAC_ADDRESS_LEN..]
    ensures |data| == BUF_SIZE && AddressedTo(data, s.ports[0].mac)
  {
    assert Ring(s.ports[0]);
    assert data[..MAC_ADDRESS_LEN] == s.ports[0].mac;
  }

  lemma WriteTakes(t: Sys, b: Buf, data: seq<byte>)
    requires Inv(t) && b in t.hw && |data| == BUF_SIZE
    ensures Contents(Fill(t.dma, b.vbuf, data), b.vbuf, BUF_SIZE) == data
    ensures forall u: Sys :: u.hw == t.hw ==> Can(u, HwRx([b], [BUF_SIZE]))
  {
    HwMemory(t, b);
    FillShape(t.dma, b.vbuf, data);
    assert multiset([b]) <= t.hw;
  }

  lemma ReceiveOwn(u: Sys, b: Buf)
    requires u.ports != [] && !Full(u.ports[0])
    requires AddressedTo(Contents(u.dma, b.vbuf, BUF_SIZE), u.ports[0].mac)
    ensures RxComplete(u, [b], [BUF_SIZE]) == Give(u, 0, b, BUF_SIZE)
  {
    assert Detect(u.ports, Contents(u.dma, b.vbuf, BUF_SIZE)) == 0;
    hide Contents, AddressedTo, Give, CopyFrom;
  }

  lemma AllocTakes(s: Sys)
    requires s.free != []
    ensures var r, n := Alloc(s, BUF_SIZE), |s.free| - 1; s.free[n] in r.hw && r.ports == s.ports && r.free == s.free[..n]
  {
  }

  /** From every start a router can get stuck: two frames arrive, and lwIP refuses the first. */
  lemma SomeRunSticks(n: Net) returns (actions: seq<Action>)
    requires Start(n)
    ensures Possible(n, actions) && !AllHarmless(n, actions)
    ensures var r := NetRun(n, actions); Stuck(r, 0) && |r.sys.ports[0].queue| == 1
  {
    hide Inv, NetRun, Possible, Start, AllHarmless, Full, NetStep, Enabled, Harmless, Stuck, DistinctIds;
    StartIs(n);
    var one := Arrive(n, []);
    var two := Arrive(n, one);
    var w, p := Wake(0), Poll(0, false);
    TwiceWaiting(NetRun(n, two));
    RunSnoc(n, two, w);
    RunSnoc(n, two + [w], p);
    actions := two + [w] + [p];
    HarmfulLast(n, two + [w], p);
  }

  lemma StartIs(n: Net)
    requires Start(n)
    ensures n.sys.ports != [] && |n.pc| == |n.sys.ports| && n.pc[0] == Waiting && DistinctIds(n.sys.ports)
    ensures NetRun(n, []) == n && Possible(n, []) && Inv(n.sys) && |n.sys.free| == RX_BUFS
    ensures n.sys.ports[0].queue == [] && n.sys.ports[0].shouldNotify && !n.sys.ports[0].signal
    ensures forall p: Port :: |p.queue| <= 1 ==> !Full(p)
  {
    InitialInv(n.sys);
    assert Fresh(n.sys.ports[0]);
    assert |multiset(n.sys.free)| == RX_BUFS;
  }

  /** A router woken for two frames and refused the first. */
  lemma TwiceWaiting(m: Net)
    requires m.sys.ports != [] && |m.pc| == |m.sys.ports| && m.pc[0] == Waiting && m.sys.ports[0].signal
    requires !m.sys.ports[0].shouldNotify && |m.sys.ports[0].queue| == 2
    ensures var k := NetStep(m, Wake(0));
      && Enabled(m, Wake(0)) && Enabled(k, Poll(0, false)) && !Harmless(k, Poll(0, false))
      && var r := NetStep(k, Poll(0, false)); Stuck(r, 0) && |r.sys.ports[0].queue| == 1
  {
    hide Fill, Zeros;
  }

  lemma HarmfulLast(n: Net, actions: seq<Action>, a: Action)
    requires n.sys.ports != [] && !Harmless(NetRun(n, actions), a)
    ensures !AllHarmless(n, actions + [a])
  {
    assert (actions + [a])[..|actions|] == actions;
  }
}
