/** The driver's own code: stacks of pointers, rings of slots and per-client records updated in place. Each
  * method is tied to the step of the buffer state machine it performs.
  */
module EthDriver {
  import opened Bytes
  import opened EthModel
  import opened EthInvariant

  /** The index after `i` in a receive ring. */
  function NextSlot(i: nat): nat {
    (i + 1) % CLIENT_RX_BUFS
  }

  lemma NextSlotIs(i: nat)
    requires i < CLIENT_RX_BUFS
    ensures NextSlot(i) == if i == CLIENT_RX_BUFS - 1 then 0 else i + 1
  {
  }

  /** The slots from `tail` up to `head`, going round the end. */
  ghost function Slots(ring: seq<Pending>, tail: nat, head: nat): seq<Pending>
    requires tail < |ring| && head < |ring|
  {
    if tail <= head then ring[tail..head] else ring[tail..] + ring[..head]
  }

  lemma SlotsLength(ring: seq<Pending>, tail: nat, head: nat)
    requires |ring| == CLIENT_RX_BUFS && tail < |ring| && head < |ring|
    ensures |Slots(ring, tail, head)| < CLIENT_RX_BUFS
    ensures NextSlot(head) == tail <==> |Slots(ring, tail, head)| == CLIENT_RX_BUFS - 1
    ensures head == tail <==> Slots(ring, tail, head) == []
    ensures NextSlot(tail) == head <==> |Slots(ring, tail, head)| == 1
  {
    hide NextSlot;
    NextSlotIs(head);
    NextSlotIs(tail);
  }

  lemma FillSlot(ring: seq<Pending>, tail: nat, head: nat, x: Pending)
    requires |ring| == CLIENT_RX_BUFS && tail < |ring| && head < |ring| && NextSlot(head) != tail
    ensures Slots(ring[head := x], tail, NextSlot(head)) == Slots(ring, tail, head) + [x]
  {
    hide NextSlot;
    NextSlotIs(head);
    var after := ring[head := x];
    if tail <= head {
      assert after[tail..head] == ring[tail..head];
      SliceSnoc(after, tail, head);
      if head == CLIENT_RX_BUFS - 1 {
        assert after[tail..] + after[..0] == after[tail..head + 1];
      }
    } else {
      assert after[..head + 1] == ring[..head] + [x];
      assert after[tail..] == ring[tail..];
    }
  }

  lemma FreeSlot(ring: seq<Pending>, tail: nat, head: nat)
    requires |ring| == CLIENT_RX_BUFS && tail < |ring| && head < |ring| && tail != head
    ensures var s := Slots(ring, tail, head);
      s != [] && s[0] == ring[tail] && s[1..] == Slots(ring, NextSlot(tail), head)
  {
    hide NextSlot;
    NextSlotIs(tail);
    if tail == CLIENT_RX_BUFS - 1 {
      assert ring[tail..] == [ring[tail]];
    }
  }

  const NO_PENDING := Pending(Buf(0, 0), 0)

  /** The driver's record of one client. */
  class Client {
    const id: int
    const mac: seq<byte>
    const dataport: array<byte> // shared with the client
    var shouldNotify: bool
    var signal: bool            // the client's notification has been sent and not yet waited for
    var rxHead: nat
    var rxTail: nat
    const rx: array<Pending>
    var numTx: nat
    const tx: array<TxBuf>

    ghost predicate Valid()
      reads this
    {
      && rx.Length == CLIENT_RX_BUFS && rxHead < CLIENT_RX_BUFS && rxTail < CLIENT_RX_BUFS
      && tx.Length == CLIENT_TX_BUFS && numTx <= CLIENT_TX_BUFS
    }

    ghost function View(): Port
      requires Valid()
      reads this, rx, tx
    {
      Port(id, mac, Slots(rx[..], rxTail, rxHead), shouldNotify, signal, tx[..numTx])
    }

    /** A client set up with `bufs`, all of which but the last go on its stack. */
    constructor (id: int, mac: seq<byte>, dataport: array<byte>, bufs: seq<TxBuf>)
      requires |bufs| == CLIENT_TX_BUFS
      ensures Valid() && View() == Port(id, mac, [], true, false, bufs[..CLIENT_TX_BUFS - 1])
      ensures fresh(rx) && fresh(tx) && this.dataport == dataport
    {
      this.id, this.mac, this.dataport := id, mac, dataport;
      shouldNotify, signal := true, false;
      rxHead, rxTail := 0, 0;
      rx := new Pending[CLIENT_RX_BUFS](_ => NO_PENDING);
      tx := new TxBuf[CLIENT_TX_BUFS](i requires 0 <= i < CLIENT_TX_BUFS => bufs[i]);
      numTx := CLIENT_TX_BUFS - 1;
      new;
      assert tx[..numTx] == bufs[..numTx];
    }

    /** The ring test made before every give. */
    method IsFull() returns (full: bool)
      requires Valid()
      ensures full == Full(View())
    {
      hide Slots, NextSlot;
      SlotsLength(rx[..], rxTail, rxHead);
      full := NextSlot(rxHead) == rxTail;
    }

    /** `give_client_buf`. */
    method Give(x: Pending)
      requires Valid() && !Full(View())
      modifies this`rxHead, this`shouldNotify, this`signal, rx
      ensures Valid() && View() == GivePort(old(View()), x)
    {
      hide Slots, NextSlot;
      SlotsLength(rx[..], rxTail, rxHead);
      FillSlot(rx[..], rxTail, rxHead, x);
      NextSlotIs(rxHead);
      rx[rxHead] := x;
      rxHead := NextSlot(rxHead);
      if shouldNotify {
        signal := true; // client_emit
        shouldNotify := false;
      }
    }

    /** The ring part of `client_rx` when a frame is waiting. */
    method Take() returns (x: Pending, last: bool)
      requires Valid() && View().queue != []
      modifies this`rxTail, this`shouldNotify
      ensures Valid() && View() == TakePort(old(View())) && x == old(View()).queue[0]
      ensures last == (|old(View()).queue| == 1)
    {
      hide Slots, NextSlot;
      SlotsLength(rx[..], rxTail, rxHead);
      FreeSlot(rx[..], rxTail, rxHead);
      NextSlotIs(rxTail);
      x := rx[rxTail];
      rxTail := NextSlot(rxTail);
      last := rxTail == rxHead;
      if last {
        shouldNotify := true;
      }
    }

    method PopTx() returns (t: TxBuf)
      requires Valid() && numTx > 0
      modifies this`numTx
      ensures Valid() && var p := old(View());
        t == p.tx[|p.tx| - 1] && View() == p.(tx := p.tx[..|p.tx| - 1])
    {
      hide Slots;
      numTx := numTx - 1;
      t := tx[numTx];
    }

    method PushTx(t: TxBuf)
      requires Valid() && numTx < CLIENT_TX_BUFS
      modifies this`numTx, tx
      ensures Valid() && View() == old(View()).(tx := old(View()).tx + [t])
    {
      hide Slots;
      tx[numTx] := t;
      numTx := numTx + 1;
    }
  }

  /** No two clients share a record or an array. */
  ghost predicate Apart(clients: seq<Client>) {
    forall i, j :: 0 <= i < |clients| && 0 <= j < |clients| && i != j ==> Disjoint(clients[i], clients[j])
  }

  ghost predicate Disjoint(c: Client, d: Client) {
    c != d && c.rx != d.rx && c.tx != d.tx
  }

  /** A dataport has room for a whole buffer. */
  ghost predicate Dataports(clients: seq<Client>) {
    forall i :: 0 <= i < |clients| ==> clients[i].dataport.Length >= BUF_SIZE
  }

  /** The clients' records are what the state says. */
  ghost predicate Records(clients: seq<Client>, ports: seq<Port>)
    reads clients, (set c | c in clients :: c.rx), (set c | c in clients :: c.tx)
  {
    |clients| == |ports| && forall i :: 0 <= i < |clients| ==> clients[i].Valid() && clients[i].View() == ports[i]
  }

  lemma RecordsUpdate(clients: seq<Client>, ports: seq<Port>, c: nat, p: Port)
    requires c < |clients| == |ports| && clients[c].Valid() && clients[c].View() == p
    requires forall i :: 0 <= i < |clients| && i != c ==> clients[i].Valid() && clients[i].View() == ports[i]
    ensures Records(clients, ports[c := p])
  {
    hide Client.View;
  }

  /** What `post_init` learns about a client: its badge, address and dataport, and the buffers allocated for it. */
  datatype Setup = Setup(id: int, mac: seq<byte>, dataport: array<byte>, bufs: seq<Buf>)

  function TxBufs(bufs: seq<Buf>, c: nat): (t: seq<TxBuf>)
    ensures |t| == |bufs|
  {
    seq(|bufs|, i requires 0 <= i < |bufs| => TxBuf(bufs[i].vbuf, bufs[i].pbuf, c))
  }

  ghost predicate SetupOk(x: Setup) {
    |x.bufs| == CLIENT_TX_BUFS && |x.mac| == MAC_ADDRESS_LEN && x.dataport.Length >= BUF_SIZE
  }

  ghost predicate SetupsOk(setups: seq<Setup>) {
    forall c :: 0 <= c < |setups| ==> SetupOk(setups[c])
  }

  /** The DMA allocator returns non-NULL, disjoint buffers of BUF_SIZE bytes. */
  ghost predicate RxAllocated(rx: seq<Buf>, memory: map<Addr, seq<byte>>) {
    && |rx| == RX_BUFS
    && (forall v :: v in memory ==> |memory[v]| == BUF_SIZE)
    && (forall i :: 0 <= i < |rx| ==> rx[i].vbuf != 0 && rx[i].pbuf != 0 && rx[i].vbuf in memory)
    && (forall i, j :: 0 <= i < j < |rx| ==> rx[i].vbuf != rx[j].vbuf)
  }

  ghost predicate TxAllocated(rx: seq<Buf>, setups: seq<Setup>, memory: map<Addr, seq<byte>>)
    requires SetupsOk(setups)
  {
    forall c, i :: 0 <= c < |setups| && 0 <= i < CLIENT_TX_BUFS ==>
      setups[c].bufs[i].vbuf in memory && forall j :: 0 <= j < |rx| ==> rx[j].vbuf != setups[c].bufs[i].vbuf
  }

  ghost predicate TxApart(setups: seq<Setup>)
    requires SetupsOk(setups)
  {
    forall c, i, d, j :: 0 <= c < |setups| && 0 <= i < CLIENT_TX_BUFS && 0 <= d < |setups| && 0 <= j < CLIENT_TX_BUFS ==>
      setups[c].bufs[i].vbuf == setups[d].bufs[j].vbuf ==> c == d && i == j
  }

  ghost predicate Allocated(rx: seq<Buf>, setups: seq<Setup>, memory: map<Addr, seq<byte>>) {
    setups != [] && SetupsOk(setups) && RxAllocated(rx, memory) && TxAllocated(rx, setups, memory) && TxApart(setups)
  }

  ghost function IdleBufs(x: Setup, c: nat): (t: seq<TxBuf>)
    requires |x.bufs| == CLIENT_TX_BUFS
    ensures |t| == CLIENT_TX_BUFS - 1
  {
    TxBufs(x.bufs, c)[..CLIENT_TX_BUFS - 1]
  }

  ghost function InitialPort(x: Setup, c: nat): Port
    requires SetupOk(x)
  {
    Port(x.id, x.mac, [], true, false, IdleBufs(x, c))
  }

  ghost function InitialPorts(setups: seq<Setup>): (p: seq<Port>)
    requires SetupsOk(setups)
    ensures |p| == |setups|
  {
    seq(|setups|, c requires 0 <= c < |setups| => InitialPort(setups[c], c))
  }

  ghost function InitialOwn(setups: seq<Setup>): (o: seq<set<TxBuf>>)
    requires SetupsOk(setups)
    ensures |o| == |setups|
  {
    seq(|setups|, c requires 0 <= c < |setups| => set t | t in IdleBufs(setups[c], c))
  }

  ghost function InitialSys(rx: seq<Buf>, setups: seq<Setup>, memory: map<Addr, seq<byte>>): Sys
    requires SetupsOk(setups)
  {
    Sys(rx, multiset{}, InitialPorts(setups), memory, map[], InitialOwn(setups))
  }

  lemma {:induction false} DistinctCount<T>(q: seq<T>)
    requires forall i, j :: 0 <= i < j < |q| ==> q[i] != q[j]
    ensures multiset(q) == multiset(set x | x in q) && |set x | x in q| == |q|
    decreases |q|
  {
    if q == [] {
      assert (set x | x in q) == {};
    } else {
      var n := |q| - 1;
      DistinctCount(q[..n]);
      assert q == q[..n] + [q[n]];
      assert (set x | x in q) == (set x | x in q[..n]) + {q[n]};
      assert q[n] !in q[..n];
    }
  }

  lemma RxPool(rx: seq<Buf>, memory: map<Addr, seq<byte>>)
    requires RxAllocated(rx, memory)
    ensures Pool(multiset(rx))
  {
    DistinctCount(rx);
    assert forall b :: b in multiset(rx) <==> b in rx;
  }

  lemma IdleShares(setups: seq<Setup>, c: nat)
    requires SetupsOk(setups) && TxApart(setups) && c < |setups|
    ensures multiset(InitialPorts(setups)[c].tx) == multiset(InitialOwn(setups)[c])
    ensures |InitialOwn(setups)[c]| == CLIENT_TX_BUFS - 1
  {
    assert SetupOk(setups[c]);
    DistinctCount(IdleBufs(setups[c], c));
  }

  lemma OwnIs(setups: seq<Setup>, c: nat, t: TxBuf) returns (i: nat)
    requires SetupsOk(setups) && c < |setups| && t in InitialOwn(setups)[c]
    ensures i < CLIENT_TX_BUFS - 1 && t == TxBuf(setups[c].bufs[i].vbuf, setups[c].bufs[i].pbuf, c)
  {
    i :| 0 <= i < CLIENT_TX_BUFS - 1 && IdleBufs(setups[c], c)[i] == t;
  }

  lemma OwnPool(rx: seq<Buf>, setups: seq<Setup>, memory: map<Addr, seq<byte>>)
    requires Allocated(rx, setups, memory)
    ensures TxPool(multiset(rx), InitialOwn(setups)) && Memory(multiset(rx), InitialOwn(setups), memory)
  {
    var own: seq<set<TxBuf>> := InitialOwn(setups);
    hide InitialOwn, InitialPorts, TxApart;
    forall c | 0 <= c < |own| ensures |own[c]| == CLIENT_TX_BUFS - 1 {
      IdleShares(setups, c);
    }
    forall c, t: TxBuf | 0 <= c < |own| && t in own[c]
      ensures t.client == c && t.vbuf in memory && forall b :: b in multiset(rx) ==> b.vbuf != t.vbuf
    {
      var i := OwnIs(setups, c, t);
    }
    forall c, d, t: TxBuf, u: TxBuf | 0 <= c < |own| && 0 <= d < |own| && t in own[c] && u in own[d] && t.vbuf == u.vbuf
      ensures t == u
    {
      var i := OwnIs(setups, c, t);
      var j := OwnIs(setups, d, u);
      SameBuf(setups, c, i, d, j);
    }
  }

  lemma SameBuf(setups: seq<Setup>, c: nat, i: nat, d: nat, j: nat)
    requires SetupsOk(setups) && TxApart(setups) && c < |setups| && d < |setups|
    requires i < CLIENT_TX_BUFS && j < CLIENT_TX_BUFS && setups[c].bufs[i].vbuf == setups[d].bufs[j].vbuf
    ensures c == d && i == j
  {
  }

  /** The set-up state is an initial state of the buffer state machine. */
  lemma InitialSysInitial(rx: seq<Buf>, setups: seq<Setup>, memory: map<Addr, seq<byte>>)
    requires Allocated(rx, setups, memory)
    ensures Initial(InitialSys(rx, setups, memory))
  {
    RxPool(rx, memory);
    OwnPool(rx, setups, memory);
    var p, own := InitialPorts(setups), InitialOwn(setups);
    forall c | 0 <= c < |p| ensures Fresh(p[c]) && multiset(p[c].tx) == multiset(own[c]) {
      assert SetupOk(setups[c]);
      IdleShares(setups, c);
    }
    hide Pool, TxPool, Memory, InitialOwn, InitialPorts;
  }

  /** For any clients there is such a state: the assumptions about runs can be met. */
  lemma SomeInitialSys(ids: seq<int>, mac: seq<byte>, dataport: array<byte>) returns (s: Sys)
    requires ids != [] && |mac| == MAC_ADDRESS_LEN && dataport.Length >= BUF_SIZE
    ensures Initial(s) && |s.ports| == |ids|
    ensures forall c :: 0 <= c < |ids| ==> s.ports[c].id == ids[c] && s.ports[c].mac == mac
  {
    var rx := Consecutive(1, RX_BUFS);
    var setups := seq(|ids|, c requires 0 <= c < |ids| =>
      Setup(ids[c], mac, dataport, Consecutive(TxBase(c), CLIENT_TX_BUFS)));
    var memory: map<Addr, seq<byte>> := map v: Addr | 0 <= v < TxBase(|ids|) && Usable(v) :: Zeros();
    assert SetupsOk(setups);
    forall c, i | 0 <= c < |setups| && 0 <= i < CLIENT_TX_BUFS
      ensures setups[c].bufs[i].vbuf in memory && setups[c].bufs[i].vbuf == TxBase(c) + i > RX_BUFS
    {
      TxBases(c, |ids|);
    }
    assert TxApart(setups) by {
      forall c: nat, i: nat, d: nat, j: nat | c < |setups| && i < CLIENT_TX_BUFS && d < |setups| && j < CLIENT_TX_BUFS
        ensures setups[c].bufs[i].vbuf == setups[d].bufs[j].vbuf ==> c == d && i == j
      {
        TxBaseApart(c, i, d, j);
      }
    }
    assert TxAllocated(rx, setups, memory);
    assert RxAllocated(rx, memory) by { TxBases(0, |ids|); }
    InitialSysInitial(rx, setups, memory);
    s := InitialSys(rx, setups, memory);
  }

  lemma TxBaseApart(c: nat, i: nat, d: nat, j: nat)
    requires i < CLIENT_TX_BUFS && j < CLIENT_TX_BUFS
    ensures TxBase(c) + i == TxBase(d) + j ==> c == d && i == j
  {
  }

  predicate Usable(v: Addr) {
    v != 0
  }

  /** Where the transmit buffers of client `c` begin when everything is allocated in a row. */
  function TxBase(c: nat): nat {
    RX_BUFS + 1 + c * CLIENT_TX_BUFS
  }

  lemma TxBases(c: nat, d: nat)
    requires c < d
    ensures RX_BUFS < TxBase(c) && TxBase(c) + CLIENT_TX_BUFS <= TxBase(d)
  {
  }

  function Consecutive(first: nat, n: nat): (b: seq<Buf>)
    ensures |b| == n && forall i :: 0 <= i < n ==> b[i] == Buf(first + i, first + i)
  {
    seq(n, i requires 0 <= i < n => Buf(first + i, first + i))
  }

  lemma InitialSysIs(rx: seq<Buf>, setups: seq<Setup>, memory: map<Addr, seq<byte>>)
    requires Allocated(rx, setups, memory)
    ensures SetupsOk(setups) && |rx| == RX_BUFS
    ensures var s := InitialSys(rx, setups, memory);
      s.free == rx && s.dma == memory && s.ports == InitialPorts(setups)
  {
  }

  lemma PortsRoom(setups: seq<Setup>, records: seq<Client>)
    requires SetupsOk(setups) && |records| == |setups|
    requires forall i :: 0 <= i < |records| ==> records[i].dataport == setups[i].dataport
    ensures Dataports(records)
  {
    forall i | 0 <= i < |records| ensures records[i].dataport.Length >= BUF_SIZE {
      assert SetupOk(setups[i]);
    }
  }

  /** Creates the clients' records. */
  method SetUpClients(setups: seq<Setup>) returns (records: seq<Client>)
    requires SetupsOk(setups)
    ensures |records| == |setups| && Apart(records) && Records(records, InitialPorts(setups)) && fresh(records)
    ensures forall i :: 0 <= i < |records| ==> fresh(records[i].rx) && fresh(records[i].tx)
    ensures forall i :: 0 <= i < |records| ==> records[i].dataport == setups[i].dataport
  {
    hide Slots, Client.View, Client.Valid, TxBufs;
    records := [];
    for c := 0 to |setups|
      invariant |records| == c && Apart(records) && fresh(records)
      invariant forall i :: 0 <= i < c ==> fresh(records[i].rx) && fresh(records[i].tx)
      invariant forall i :: 0 <= i < c ==> records[i].Valid() && records[i].View() == InitialPort(setups[i], i)
      invariant forall i :: 0 <= i < c ==> records[i].dataport == setups[i].dataport
    {
      assert SetupOk(setups[c]);
      var record := new Client(setups[c].id, setups[c].mac, setups[c].dataport, TxBufs(setups[c].bufs, c));
      records := records + [record];
    }
  }

  class Driver {
    var numRx: nat
    const rxVbufs: array<Addr>
    const rxPbufs: array<Addr>
    const clients: seq<Client>
    var dma: map<Addr, seq<byte>> // the memory of the buffers
    ghost var s: Sys              // the state the fields stand for

    /** The two arrays hold this stack of buffers. */
    ghost predicate Holds(free: seq<Buf>)
      reads this`numRx, rxVbufs, rxPbufs
    {
      && rxVbufs != rxPbufs && rxVbufs.Length == RX_BUFS && rxPbufs.Length == RX_BUFS && numRx == |free| <= RX_BUFS
      && forall k :: 0 <= k < numRx ==> free[k] == Buf(rxVbufs[k], rxPbufs[k])
    }

    ghost predicate Stack()
      reads this, rxVbufs, rxPbufs
    {
      Holds(s.free) && dma == s.dma
    }

    ghost predicate Valid()
      reads this, rxVbufs, rxPbufs, clients, (set c | c in clients :: c.rx), (set c | c in clients :: c.tx)
    {
      Inv(s) && Stack() && Apart(clients) && Records(clients, s.ports) && Dataports(clients)
    }

    /** `post_init`: the receive buffers go on the stack and each client gets its record and 127 idle transmit
      * buffers. */
    constructor PostInit(rx: seq<Buf>, setups: seq<Setup>, memory: map<Addr, seq<byte>>)
      requires Allocated(rx, setups, memory)
      ensures Valid() && Initial(s) && s == InitialSys(rx, setups, memory)
      ensures |clients| == |setups| && forall c :: 0 <= c < |clients| ==> clients[c].dataport == setups[c].dataport
    {
      hide Records, Apart, InitialSys, Inv, Initial, Allocated, Dataports;
      InitialSysIs(rx, setups, memory);
      rxVbufs := new Addr[RX_BUFS](i requires 0 <= i < RX_BUFS => rx[i].vbuf);
      rxPbufs := new Addr[RX_BUFS](i requires 0 <= i < RX_BUFS => rx[i].pbuf);
      numRx := RX_BUFS;
      dma := memory;
      s := InitialSys(rx, setups, memory);
      var records := SetUpClients(setups);
      clients := records;
      new;
      PortsRoom(setups, clients);
      InitialSysInitial(rx, setups, memory);
      InitialInv(s);
    }

    // ----- the stack of receive buffers -----

    method AllocateRxBuf(bufSize: nat) returns (b: Option<Buf>)
      requires Valid()
      modifies this`numRx, this`s
      ensures Valid() && b == Top(old(s), bufSize) && s == Alloc(old(s), bufSize)
    {
      hide Records, Apart, Inv, RxOnly;
      if bufSize > BUF_SIZE || numRx == 0 {
        return None;
      }
      numRx := numRx - 1;
      var pbuf, vbuf := rxPbufs[numRx], rxVbufs[numRx];
      TopNotNull(s);
      AllocInv(s, bufSize);
      if pbuf == 0 || vbuf == 0 {
        assert false;
      }
      s := Alloc(s, bufSize);
      b := Some(Buf(vbuf, pbuf));
    }

    /** Puts a buffer the hardware handed over back on the stack. */
    method ReturnRxBuf(b: Buf)
      requires Valid() && b in s.hw
      modifies this`numRx, this`s, rxVbufs, rxPbufs
      ensures Valid() && s == PutBack(old(s), b)
    {
      hide Records, Apart, Inv, RxOnly;
      RoomToPutBack(s, b);
      PutBackInv(s, b);
      PushBuf(s.free, b);
      s := PutBack(s, b);
    }

    method PushBuf(ghost free: seq<Buf>, b: Buf)
      requires Holds(free) && |free| < RX_BUFS
      modifies this`numRx, rxVbufs, rxPbufs
      ensures Holds(free + [b])
    {
      rxVbufs[numRx] := b.vbuf;
      rxPbufs[numRx] := b.pbuf;
      numRx := numRx + 1;
    }

    // ----- whose frame it is -----

    method DetectClient(vbuf: Addr, len: nat) returns (c: nat)
      requires Valid() && vbuf in dma && len <= BUF_SIZE
      ensures c == Detect(s.ports, Contents(dma, vbuf, len)) && |clients| == |s.ports|
    {
      ghost var frame := Contents(dma, vbuf, len);
      Sizes();
      Addresses();
      LeadingBytes(s, dma, vbuf, len);
      hide Valid, Contents;
      c := 0;
      if len < MAC_ADDRESS_LEN {
        TooShort(s.ports, frame, 0);
        return |clients|;
      }
      while c < |clients| && clients[c].mac != dma[vbuf][..MAC_ADDRESS_LEN]
        invariant 0 <= c <= |clients| && Detect(s.ports, frame) == DetectFrom(s.ports, frame, c)
      {
        c := c + 1;
      }
    }

    lemma Addresses()
      requires Records(clients, s.ports)
      ensures |clients| == |s.ports| && forall c :: 0 <= c < |clients| ==> clients[c].mac == s.ports[c].mac
    {
      forall c | 0 <= c < |clients| ensures clients[c].mac == s.ports[c].mac {
        assert clients[c].View() == s.ports[c];
      }
    }

    method IsBroadcastFrame(vbuf: Addr, len: nat) returns (r: bool)
      requires Valid() && vbuf in dma && len <= BUF_SIZE
      ensures r == IsBroadcast(Contents(dma, vbuf, len))
    {
      r := len >= MAC_ADDRESS_LEN && dma[vbuf][..MAC_ADDRESS_LEN] == [0xFF, 0xFF, 0xFF, 0xFF, 0xFF, 0xFF];
    }

    // ----- receiving -----

    method GiveClientBuf(c: nat, b: Buf, len: nat)
      requires Valid() && c < |clients| == |s.ports| && b in s.hw && !Full(s.ports[c]) && len <= BUF_SIZE
      modifies this`s, clients[c], clients[c].rx
      ensures Valid() && s == Give(old(s), c, b, len)
    {
      hide Records, Apart, Inv, RxOnly, Full, GivePort;
      GiveInv(s, c, b, len);
      GiveRecord(c, Pending(b, len));
      s := Give(s, c, b, len);
    }

    method GiveRecord(c: nat, x: Pending)
      requires Apart(clients) && Records(clients, s.ports) && c < |clients| == |s.ports| && !Full(s.ports[c])
      modifies clients[c], clients[c].rx
      ensures Records(clients, s.ports[c := GivePort(s.ports[c], x)])
    {
      hide Records, Apart, Client.View, GivePort, Full;
      AllRecords(c);
      clients[c].Give(x);
      RecordsUpdate(clients, s.ports, c, GivePort(s.ports[c], x));
    }

    /** `memcpy` or `memset` into a receive buffer. */
    method WriteBuf(b: Buf, data: seq<byte>)
      requires Valid() && b in Held(s)
      modifies this`dma, this`s
      ensures Valid() && s == old(s).(dma := Fill(old(s).dma, b.vbuf, data))
    {
      hide Records, Apart, Inv, RxOnly, Held;
      WriteInv(s, b, data);
      if b.vbuf in dma && |data| <= |dma[b.vbuf]| {
        dma := dma[b.vbuf := data + dma[b.vbuf][|data|..]];
      }
      s := s.(dma := Fill(s.dma, b.vbuf, data));
    }

    method IsFull(c: nat) returns (full: bool)
      requires Valid() && c < |clients|
      ensures c < |s.ports| && full == Full(s.ports[c])
    {
      AllRecords(c);
      full := clients[c].IsFull();
    }

    /** One round of the broadcast loop. */
    method CopyToClient(c: nat, b: Buf, len: nat)
      requires Valid() && c < |clients| && b in s.hw && len <= BUF_SIZE
      modifies this`numRx, this`dma, this`s, clients[c], clients[c].rx
      ensures Valid() && c < |old(s).ports| && s == CopyTo(old(s), b, len, c)
    {
      hide Inv, Records, Apart, Full, Held, Stack, Fill;
      var full := IsFull(c);
      if !full {
        HwMemory(s, b);
        var n := AllocateRxBuf(len);
        if n.Some? {
          AllocMoves(old(s), len);
          Sizes();
          HwMemory(s, n.value);
          DmaIs();
          WriteBuf(n.value, Contents(dma, b.vbuf, len));
          GiveClientBuf(c, n.value, len);
        }
      }
    }

    lemma DmaIs()
      requires Stack()
      ensures dma == s.dma
    {
    }

    /** `eth_rx_complete`. */
    method RxComplete(bufs: seq<Buf>, lens: seq<nat>)
      requires Valid() && Can(s, HwRx(bufs, lens))
      modifies this, rxVbufs, rxPbufs, clients, (set c | c in clients :: c.rx)
      ensures Valid() && old(s).ports != [] && s == EthModel.RxComplete(old(s), bufs, lens)
    {
      hide Inv, Records, Apart, Full, Held, Stack, Fill, CopyTo, Detect, IsBroadcast, Contents;
      WireClient(s);
      if |bufs| != 1 {
        ReturnAll(bufs);
        return;
      }
      var b, len := bufs[0], lens[0];
      assert b in multiset(bufs);
      HwMemory(s, b);
      DmaIs();
      Sizes();
      var c := DetectClient(b.vbuf, len);
      if c == |clients| {
        var broadcast := IsBroadcastFrame(b.vbuf, len);
        if !broadcast {
          ReturnRxBuf(b);
          return;
        }
        Broadcast(b, len);
        c := 0;
      }
      DeliverTo(c, b, len);
    }

    lemma Sizes()
      requires Records(clients, s.ports)
      ensures |clients| == |s.ports|
    {
    }

    method ReturnAll(bufs: seq<Buf>)
      requires Valid() && multiset(bufs) <= s.hw
      modifies this`numRx, this`s, rxVbufs, rxPbufs
      ensures Valid() && s == PutAllBack(old(s), bufs)
    {
      hide Inv, Records, Apart, Stack, PutAllBack, PutBack;
      NothingReturned(s);
      for i := 0 to |bufs|
        invariant Valid() && s == PutAllBack(old(s), bufs[..i])
      {
        NextToReturn(old(s), bufs, i);
        ReturnRxBuf(bufs[i]);
      }
      assert bufs[..|bufs|] == bufs;
    }

    method Broadcast(b: Buf, len: nat)
      requires Valid() && b in s.hw && len <= BUF_SIZE && s.ports != []
      modifies this`numRx, this`dma, this`s, clients, (set c | c in clients :: c.rx)
      ensures Valid() && s == CopyFrom(old(s), b, len, 1) && b in s.hw
    {
      hide Inv, Records, Apart, Stack, CopyTo, Held;
      Sizes();
      var i := 1;
      while i < |clients|
        invariant Valid() && 1 <= i <= |clients| == |s.ports| == |old(s).ports| && b in s.hw
        invariant CopyFrom(s, b, len, i) == CopyFrom(old(s), b, len, 1)
      {
        CopyToHeld(s, b, len, i);
        CopyToClient(i, b, len);
        i := i + 1;
      }
    }

    method DeliverTo(c: nat, b: Buf, len: nat)
      requires Valid() && c < |clients| == |s.ports| && b in s.hw && len <= BUF_SIZE
      modifies this`numRx, this`s, rxVbufs, rxPbufs, clients[c], clients[c].rx
      ensures Valid() && s == Deliver(old(s), c, b, len)
    {
      hide Inv, Records, Apart, Stack, Full, Held, PutBack, Give;
      var full := IsFull(c);
      if full {
        ReturnRxBuf(b);
      } else {
        GiveClientBuf(c, b, len);
      }
    }

    // ----- the interface functions -----

    method GetClient(id: int) returns (c: nat)
      requires Valid()
      ensures c == Find(s.ports, id) && |clients| == |s.ports|
    {
      Sizes();
      c := 0;
      while c < |clients| && clients[c].id != id
        invariant 0 <= c <= |clients| && Find(s.ports, id) == FindFrom(s.ports, id, c)
      {
        assert clients[c].View() == s.ports[c];
        c := c + 1;
      }
      assert c < |clients| ==> clients[c].View() == s.ports[c];
    }

    /** `client_rx`: hands the oldest frame to the client through its dataport. */
    method ClientRx(id: int) returns (status: RxStatus, len: nat)
      requires Valid()
      modifies this`numRx, this`dma, this`s, rxVbufs, rxPbufs, clients, (set c | c in clients :: c.dataport)
      ensures Valid() && s == EthModel.ClientRx(old(s), id) && status == RxStatusOf(old(s), id)
      ensures status != RX_FAILURE ==> var c := Find(old(s).ports, id);
        c < |clients| && len == |Packet(old(s), id)| <= clients[c].dataport.Length
        && clients[c].dataport[..len] == Packet(old(s), id)
    {
      hide Inv, Records, Apart, Holds, Fill, Find, RxOnly, Contents, Zeros, TakePort;
      status, len := RX_FAILURE, 0;
      ClientRxInv(s, id);
      var c := GetClient(id);
      if c == |clients| {
        return;
      }
      RingEmpty(c);
      if clients[c].rxHead == clients[c].rxTail {
        NotifyRecord(c);
      } else {
        status, len := Serve(c);
      }
      s := EthModel.ClientRx(s, id);
    }

    lemma RingEmpty(c: nat)
      requires Records(clients, s.ports) && c < |clients|
      ensures c < |s.ports| && (clients[c].rxHead == clients[c].rxTail <==> s.ports[c].queue == [])
    {
      assert clients[c].View() == s.ports[c];
      SlotsLength(clients[c].rx[..], clients[c].rxTail, clients[c].rxHead);
    }

    /** Copies the frame out, returns its buffer to the stack and clears it. */
    method Serve(c: nat) returns (status: RxStatus, len: nat)
      requires Valid() && c < |clients| == |s.ports| && s.ports[c].queue != []
      modifies this`numRx, this`dma, rxVbufs, rxPbufs, clients[c], clients[c].dataport
      ensures var p, x := s.ports[c], s.ports[c].queue[0];
        && Records(clients, s.ports[c := TakePort(p)]) && Holds(s.free + [x.buf])
        && dma == Fill(s.dma, x.buf.vbuf, Zeros())
        && status == (if |p.queue| == 1 then RX_COMPLETE else RX_INCOMPLETE)
        && len == |Contents(s.dma, x.buf.vbuf, x.len)| <= clients[c].dataport.Length
        && clients[c].dataport[..len] == Contents(s.dma, x.buf.vbuf, x.len)
    {
      hide Inv, Records, Apart, TakePort, Contents, Fill, Zeros, Holds;
      HeadMemory(s, c);
      var x, last := TakeRecord(c);
      len := x.len;
      CopyOut(clients[c].dataport, dma[x.buf.vbuf], len);
      status := if last then RX_COMPLETE else RX_INCOMPLETE;
      PushBuf(s.free, x.buf);
      dma := dma[x.buf.vbuf := Zeros() + dma[x.buf.vbuf][BUF_SIZE..]];
    }

    method CopyOut(packet: array<byte>, bytes: seq<byte>, len: nat)
      requires len <= |bytes| && len <= packet.Length
      modifies packet
      ensures packet[..len] == bytes[..len]
    {
      forall k | 0 <= k < len {
        packet[k] := bytes[k];
      }
    }

    method NotifyRecord(c: nat)
      requires Apart(clients) && Records(clients, s.ports) && c < |clients| == |s.ports|
      modifies clients[c]
      ensures Records(clients, s.ports[c := s.ports[c].(shouldNotify := true)])
    {
      hide Records, Apart, Slots;
      AllRecords(c);
      clients[c].shouldNotify := true;
      RecordsUpdate(clients, s.ports, c, s.ports[c].(shouldNotify := true));
    }

    method TakeRecord(c: nat) returns (x: Pending, last: bool)
      requires Apart(clients) && Records(clients, s.ports) && c < |clients| == |s.ports| && s.ports[c].queue != []
      modifies clients[c]
      ensures Records(clients, s.ports[c := TakePort(s.ports[c])])
      ensures x == s.ports[c].queue[0] && last == (|s.ports[c].queue| == 1)
    {
      hide Records, Apart, Client.View, TakePort;
      AllRecords(c);
      x, last := clients[c].Take();
      RecordsUpdate(clients, s.ports, c, TakePort(s.ports[c]));
    }

    // ----- transmitting -----

    /** `client_tx`: composes the frame in an idle buffer of the client and queues it; without an idle buffer
      * the frame is dropped. */
    method ClientTx(id: int, len: int) returns (status: TxStatus)
      requires Valid()
      modifies this`dma, this`s, clients
      ensures Valid() && status == TxStatusOf(old(s), id, len)
      ensures var c := Find(old(s).ports, id);
        s == if c < |clients| && TxLen(len) <= clients[c].dataport.Length
             then EthModel.ClientTx(old(s), id, len, clients[c].dataport[..]) else old(s)
    {
      hide Inv, Records, Apart, Holds, Fill, Find, TxFrame;
      var c := GetClient(id);
      Ports(c);
      if len < 12 {
        return TX_FAILED;
      }
      if c == |clients| {
        return TX_FAILED;
      }
      var n := if len > BUF_SIZE then BUF_SIZE else len;
      status := TX_COMPLETE;
      StackTop(c);
      if clients[c].numTx != 0 {
        Send(c, n);
        ClientTxInv(s, id, len, clients[c].dataport[..]);
        s := EthModel.ClientTx(s, id, len, clients[c].dataport[..]);
      }
    }

    lemma Ports(c: nat)
      requires Dataports(clients)
      ensures c < |clients| ==> clients[c].dataport.Length >= BUF_SIZE
    {
    }

    lemma StackTop(c: nat)
      requires Records(clients, s.ports) && c < |clients|
      ensures c < |s.ports| && (clients[c].numTx == 0 <==> s.ports[c].tx == []) && clients[c].mac == s.ports[c].mac
    {
      assert clients[c].View() == s.ports[c];
      hide Slots;
    }

    method PopRecord(c: nat) returns (t: TxBuf)
      requires Apart(clients) && Records(clients, s.ports) && c < |clients| == |s.ports| && s.ports[c].tx != []
      modifies clients[c]
      ensures var p := s.ports[c]; var n := |p.tx| - 1;
        t == p.tx[n] && Records(clients, s.ports[c := p.(tx := p.tx[..n])])
    {
      AllRecords(c);
      StackTop(c);
      var p := clients[c];
      hide Records, Apart, Slots;
      t := p.PopTx();
      RecordsUpdate(clients, s.ports, c, s.ports[c].(tx := s.ports[c].tx[..|s.ports[c].tx| - 1]));
    }

    /** Takes a buffer from the client's stack and composes the frame in it. */
    method Send(c: nat, len: nat)
      requires Valid() && c < |clients| == |s.ports| && s.ports[c].tx != [] && 12 <= len <= BUF_SIZE
      requires clients[c].dataport.Length >= BUF_SIZE
      modifies this`dma, clients[c]
      ensures var p := s.ports[c]; var n := |p.tx| - 1;
        && Records(clients, s.ports[c := p.(tx := p.tx[..n])])
        && dma == Fill(s.dma, p.tx[n].vbuf, TxFrame(p.mac, clients[c].dataport[..], len))
    {
      hide Inv, Records, Apart, Holds;
      IdleMemory(s, c);
      StackTop(c);
      var t := PopRecord(c);
      var packet := clients[c].dataport[..];
      ghost var old0 := dma[t.vbuf];
      dma := dma[t.vbuf := packet[..len] + dma[t.vbuf][len..]];
      var mac := clients[c].mac;
      PutNothing(packet, mac, old0, len);
      var i := 0;
      while i < MAC_ADDRESS_LEN
        invariant 0 <= i <= MAC_ADDRESS_LEN && t.vbuf in dma
        invariant dma == s.dma[t.vbuf := packet[..6] + mac[..i] + packet[6 + i..len] + old0[len..]]
        invariant Records(clients, s.ports[c := s.ports[c].(tx := s.ports[c].tx[..|s.ports[c].tx| - 1])])
      {
        PutByte(packet, mac, old0, len, i);
        dma := dma[t.vbuf := dma[t.vbuf][MAC_ADDRESS_LEN + i := mac[i]]];
        i := i + 1;
      }
      assert mac[..MAC_ADDRESS_LEN] == mac;
    }

    method PushRecord(t: TxBuf)
      requires Apart(clients) && Records(clients, s.ports) && t.client < |clients| == |s.ports|
      requires |s.ports[t.client].tx| < CLIENT_TX_BUFS
      modifies clients[t.client], clients[t.client].tx
      ensures var p := s.ports[t.client]; Records(clients, s.ports[t.client := p.(tx := p.tx + [t])])
    {
      hide Records, Apart, Slots;
      AllRecords(t.client);
      clients[t.client].PushTx(t);
      RecordsUpdate(clients, s.ports, t.client, s.ports[t.client].(tx := s.ports[t.client].tx + [t]));
    }

    /** `eth_tx_complete`. */
    method TxComplete(t: TxBuf)
      requires Valid() && t in s.wire
      modifies this`s, clients, (set c | c in clients :: c.tx)
      ensures Valid() && t.client < |old(s).ports| && s == TxDone(old(s), t)
    {
      hide Inv, Records, Apart, Holds;
      Sizes();
      RoomForTx(s, t);
      TxDoneInv(s, t);
      PushRecord(t);
      s := TxDone(s, t);
    }

    lemma AllRecords(c: nat)
      requires Records(clients, s.ports) && Apart(clients) && c < |clients|
      ensures |s.ports| == |clients|
      ensures forall i :: 0 <= i < |clients| ==> clients[i].Valid() && clients[i].View() == s.ports[i]
      ensures forall i :: 0 <= i < |clients| && i != c ==> Disjoint(clients[i], clients[c])
    {
      hide Client.View;
    }
  }

  lemma NextToReturn(s: Sys, bufs: seq<Buf>, i: nat)
    requires multiset(bufs) <= s.hw && i < |bufs|
    ensures bufs[i] in PutAllBack(s, bufs[..i]).hw
    ensures PutAllBack(s, bufs[..i + 1]) == PutBack(PutAllBack(s, bufs[..i]), bufs[i])
  {
    hide PutAllBack, PutBack;
    OneMoreReturned(s, bufs, i);
    PutAllBackIs(s, bufs[..i]);
    StillThere(bufs, i);
    var m, b := multiset(bufs[..i]), bufs[i];
    assert s.hw[b] >= multiset(bufs)[b] > m[b];
  }

  lemma OneMoreReturned(s: Sys, bufs: seq<Buf>, i: nat)
    requires i < |bufs|
    ensures PutAllBack(s, bufs[..i + 1]) == PutBack(PutAllBack(s, bufs[..i]), bufs[i])
  {
    hide PutBack;
    assert bufs[..i + 1][..i] == bufs[..i];
  }

  lemma StillThere(bufs: seq<Buf>, i: nat)
    requires i < |bufs|
    ensures multiset(bufs)[bufs[i]] > multiset(bufs[..i])[bufs[i]]
  {
    assert bufs == bufs[..i] + [bufs[i]] + bufs[i + 1..];
    assert multiset(bufs) == multiset(bufs[..i]) + multiset{bufs[i]} + multiset(bufs[i + 1..]);
  }

  lemma NothingReturned(s: Sys)
    ensures PutAllBack(s, []) == s
  {
  }

  /** The oldest frame of a ring lies within its buffer, and there is room on the stack for that buffer. */
  lemma HeadMemory(s: Sys, c: nat)
    requires Inv(s) && c < |s.ports| && s.ports[c].queue != []
    ensures var x := s.ports[c].queue[0];
      && x.len <= BUF_SIZE && x.buf.vbuf in s.dma && |s.dma[x.buf.vbuf]| == BUF_SIZE && |s.free| < RX_BUFS
      && Contents(s.dma, x.buf.vbuf, x.len) == s.dma[x.buf.vbuf][..x.len]
      && Fill(s.dma, x.buf.vbuf, Zeros()) == s.dma[x.buf.vbuf := Zeros() + s.dma[x.buf.vbuf][BUF_SIZE..]]
  {
    var b := s.ports[c].queue[0].buf;
    HeadHeld(s, c);
    assert Ring(s.ports[c]);
    assert b.vbuf in s.dma;
    Bounds(s);
    BufsMember(s.ports[c].queue, 0);
    QueuedMember(s.ports, c, b);
    SomeElement(Queued(s.ports), b);
    hide Inv, Held, Queued, Bufs, Zeros;
  }

  lemma SomeElement<T>(m: multiset<T>, x: T)
    requires x in m
    ensures |m| >= 1
  {
    assert m == multiset{x} + (m - multiset{x});
  }

  lemma AllocMoves(s: Sys, size: nat)
    requires Top(s, size).Some?
    ensures var r := Alloc(s, size); Top(s, size).value in r.hw && r.ports == s.ports && s.hw <= r.hw
  {
  }

  /** The idle transmit buffer on top of a stack is memory of BUF_SIZE bytes. */
  lemma IdleMemory(s: Sys, c: nat)
    requires Inv(s) && c < |s.ports| && s.ports[c].tx != []
    ensures var t := s.ports[c].tx[|s.ports[c].tx| - 1];
      t.vbuf in s.dma && |s.dma[t.vbuf]| == BUF_SIZE && |s.ports[c].mac| == MAC_ADDRESS_LEN
  {
    IdleIsOwn(s, c, s.ports[c].tx[|s.ports[c].tx| - 1]);
    assert Ring(s.ports[c]);
  }

  lemma PutNothing(packet: seq<byte>, mac: seq<byte>, rest: seq<byte>, len: nat)
    requires 12 <= len <= |packet| && len <= |rest|
    ensures packet[..len] + rest[len..] == packet[..6] + mac[..0] + packet[6 + 0..len] + rest[len..]
  {
    assert packet[..len] == packet[..6] + packet[6..len];
  }

  lemma PutByte(packet: seq<byte>, mac: seq<byte>, rest: seq<byte>, len: nat, i: nat)
    requires 12 <= len <= |packet| && len <= |rest| && |mac| == MAC_ADDRESS_LEN && i < MAC_ADDRESS_LEN
    ensures (packet[..6] + mac[..i] + packet[6 + i..len] + rest[len..])[6 + i := mac[i]]
         == packet[..6] + mac[..i + 1] + packet[6 + (i + 1)..len] + rest[len..]
  {
  }

  lemma RoomForTx(s: Sys, t: TxBuf)
    requires Inv(s) && t in s.wire
    ensures t.client < |s.ports| && |s.ports[t.client].tx| < CLIENT_TX_BUFS - 1
  {
    Bounds(s);
    WireClient(s);
    assert t in InFlight(s.wire, t.client);
  }

  lemma TopNotNull(s: Sys)
    requires Inv(s) && s.free != []
    ensures s.free[|s.free| - 1].vbuf != 0 && s.free[|s.free| - 1].pbuf != 0
  {
    var b := s.free[|s.free| - 1];
    assert b in multiset(s.free);
    assert b in Held(s);
  }

  lemma RoomToPutBack(s: Sys, b: Buf)
    requires Inv(s) && b in s.hw
    ensures |s.free| < RX_BUFS
  {
    Bounds(s);
    assert s.hw == multiset{b} + (s.hw - multiset{b});
  }

  /** The address a frame starts with, read from its buffer. */
  lemma LeadingBytes(s: Sys, dma: map<Addr, seq<byte>>, v: Addr, len: nat)
    requires Inv(s) && dma == s.dma && v in dma && len <= BUF_SIZE
    ensures |dma[v]| == BUF_SIZE && |Contents(dma, v, len)| == len
    ensures len >= MAC_ADDRESS_LEN ==> Contents(dma, v, len)[..MAC_ADDRESS_LEN] == dma[v][..MAC_ADDRESS_LEN]
  {
    assert |dma[v]| == BUF_SIZE;
  }

  lemma {:induction false} TooShort(ports: seq<Port>, frame: seq<byte>, i: nat)
    requires |frame| < MAC_ADDRESS_LEN && i <= |ports|
    ensures DetectFrom(ports, frame, i) == |ports|
    decreases |ports| - i
  {
    if i < |ports| {
      TooShort(ports, frame, i + 1);
    }
  }
}
