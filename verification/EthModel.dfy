/** The Ethernet driver's buffers as a state machine: every step is one critical section of the driver, one
  * action of the network hardware, or the router taking its notification.
  */
module EthModel {
  import opened Bytes

  const RX_BUFS := 256
  const CLIENT_RX_BUFS := 128
  const CLIENT_TX_BUFS := 128
  const BUF_SIZE := 2048
  const MAC_ADDRESS_LEN := 6

  type Addr = nat // 0 is NULL

  /** A receive buffer: its virtual address and the physical address it is pinned at. */
  datatype Buf = Buf(vbuf: Addr, pbuf: Addr)

  /** A received frame waiting for its client. */
  datatype Pending = Pending(buf: Buf, len: nat)

  /** A transmit buffer of client number `client`. */
  datatype TxBuf = TxBuf(vbuf: Addr, pbuf: Addr, client: nat)

  /** The driver's record of one client, and the notification the client waits for. */
  datatype Port = Port(
    id: int,
    mac: seq<byte>,
    queue: seq<Pending>, // the receive ring, oldest first
    shouldNotify: bool,
    signal: bool,
    tx: seq<TxBuf>)      // the stack of idle transmit buffers

  datatype Sys = Sys(
    free: seq<Buf>,                  // the stack of idle receive buffers
    hw: multiset<Buf>,               // receive buffers the hardware may write
    ports: seq<Port>,
    dma: map<Addr, seq<byte>>,       // contents of the buffers, by virtual address
    wire: map<TxBuf, seq<byte>>,     // transmit buffers handed to the hardware, with the frame in each
    own: seq<set<TxBuf>>)            // the transmit buffers each client was set up with; never changes

  datatype Option<T> = None | Some(value: T)

  predicate Full(p: Port) {
    |p.queue| == CLIENT_RX_BUFS - 1
  }

  // ----- frames and addresses -----

  /** The frame's destination address is this one. */
  predicate AddressedTo(frame: seq<byte>, mac: seq<byte>) {
    |frame| >= MAC_ADDRESS_LEN && frame[..MAC_ADDRESS_LEN] == mac
  }

  /** The first client from `i` on with the frame's destination address, or the number of clients. */
  function DetectFrom(ports: seq<Port>, frame: seq<byte>, i: nat): (c: nat)
    requires i <= |ports|
    ensures i <= c <= |ports| && (c < |ports| ==> AddressedTo(frame, ports[c].mac))
    ensures forall k :: i <= k < c ==> !AddressedTo(frame, ports[k].mac)
    decreases |ports| - i
  {
    if i == |ports| || AddressedTo(frame, ports[i].mac) then i else DetectFrom(ports, frame, i + 1)
  }

  function Detect(ports: seq<Port>, frame: seq<byte>): (c: nat)
    ensures c <= |ports| && (c < |ports| ==> AddressedTo(frame, ports[c].mac))
    ensures forall k :: 0 <= k < c ==> !AddressedTo(frame, ports[k].mac)
  {
    DetectFrom(ports, frame, 0)
  }

  predicate IsBroadcast(frame: seq<byte>) {
    |frame| >= MAC_ADDRESS_LEN && frame[..MAC_ADDRESS_LEN] == [0xFF, 0xFF, 0xFF, 0xFF, 0xFF, 0xFF]
  }

  /** The first client from `i` on with the given id, or the number of clients. */
  function FindFrom(ports: seq<Port>, id: int, i: nat): (c: nat)
    requires i <= |ports|
    ensures i <= c <= |ports| && (c < |ports| ==> ports[c].id == id)
    ensures forall k :: i <= k < c ==> ports[k].id != id
    decreases |ports| - i
  {
    if i == |ports| || ports[i].id == id then i else FindFrom(ports, id, i + 1)
  }

  function Find(ports: seq<Port>, id: int): (c: nat)
    ensures c <= |ports| && (c < |ports| ==> ports[c].id == id)
    ensures forall k :: 0 <= k < c ==> ports[k].id != id
  {
    FindFrom(ports, id, 0)
  }

  /** The first `len` bytes of the buffer at `v`. */
  function Contents(dma: map<Addr, seq<byte>>, v: Addr, len: nat): seq<byte> {
    if v in dma && len <= |dma[v]| then dma[v][..len] else []
  }

  /** `data` copied over the start of the buffer at `v`. */
  function Fill(dma: map<Addr, seq<byte>>, v: Addr, data: seq<byte>): map<Addr, seq<byte>> {
    if v in dma && |data| <= |dma[v]| then dma[v := data + dma[v][|data|..]] else dma
  }

  function Zeros(): (z: seq<byte>)
    ensures |z| == BUF_SIZE && forall i :: 0 <= i < |z| ==> z[i] == 0
  {
    seq(BUF_SIZE, _ => 0)
  }

  // ----- receiving -----

  /** `eth_allocate_rx_buf`: the buffer on top of the stack, if there is one and it is large enough. */
  function Top(s: Sys, size: nat): Option<Buf> {
    if size > BUF_SIZE || s.free == [] then None else Some(s.free[|s.free| - 1])
  }

  function Alloc(s: Sys, size: nat): Sys {
    match Top(s, size)
    case None => s
    case Some(b) => s.(free := s.free[..|s.free| - 1], hw := s.hw + multiset{b})
  }

  /** Puts a buffer back on the stack. */
  function PutBack(s: Sys, b: Buf): Sys {
    s.(free := s.free + [b], hw := s.hw - multiset{b})
  }

  function PutAllBack(s: Sys, bufs: seq<Buf>): (r: Sys)
    ensures r.ports == s.ports && r.own == s.own
  {
    if bufs == [] then s else PutBack(PutAllBack(s, bufs[..|bufs| - 1]), bufs[|bufs| - 1])
  }

  /** `give_client_buf` for a client whose ring has room. */
  function GivePort(p: Port, x: Pending): Port {
    p.(queue := p.queue + [x], shouldNotify := false, signal := p.signal || p.shouldNotify)
  }

  function Give(s: Sys, c: nat, b: Buf, len: nat): Sys
    requires c < |s.ports|
  {
    s.(hw := s.hw - multiset{b}, ports := s.ports[c := GivePort(s.ports[c], Pending(b, len))])
  }

  /** Gives the frame to the client, or puts the buffer back when the client's ring is full. */
  function Deliver(s: Sys, c: nat, b: Buf, len: nat): Sys
    requires c < |s.ports|
  {
    if Full(s.ports[c]) then PutBack(s, b) else Give(s, c, b, len)
  }

  /** One round of the broadcast loop: client `c` gets a copy in a buffer of its own. */
  function CopyTo(s: Sys, b: Buf, len: nat, c: nat): (r: Sys)
    requires c < |s.ports|
    ensures |r.ports| == |s.ports| && r.own == s.own
  {
    if Full(s.ports[c]) then s
    else
      match Top(s, len)
      case None => s
      case Some(n) =>
        var t := Alloc(s, len);
        Give(t.(dma := Fill(t.dma, n.vbuf, Contents(t.dma, b.vbuf, len))), c, n, len)
  }

  function CopyFrom(s: Sys, b: Buf, len: nat, i: nat): (r: Sys)
    requires i <= |s.ports|
    ensures |r.ports| == |s.ports| && r.own == s.own
    decreases |s.ports| - i
  {
    if i == |s.ports| then s else CopyFrom(CopyTo(s, b, len, i), b, len, i + 1)
  }

  /** `eth_rx_complete`. */
  function RxComplete(s: Sys, bufs: seq<Buf>, lens: seq<nat>): (r: Sys)
    requires |bufs| == |lens| && s.ports != []
    ensures |r.ports| == |s.ports| && r.own == s.own
  {
    if |bufs| != 1 then PutAllBack(s, bufs)
    else
      var b, len := bufs[0], lens[0];
      var frame := Contents(s.dma, b.vbuf, len);
      var c := Detect(s.ports, frame);
      if c < |s.ports| then Deliver(s, c, b, len)
      else if IsBroadcast(frame) then Deliver(CopyFrom(s, b, len, 1), 0, b, len)
      else PutBack(s, b)
  }

  datatype RxStatus = RX_FAILURE | RX_COMPLETE | RX_INCOMPLETE

  /** `client_rx` on the record of the calling client, when its ring holds a frame. */
  function TakePort(p: Port): Port
    requires p.queue != []
  {
    p.(queue := p.queue[1..], shouldNotify := p.shouldNotify || |p.queue| == 1)
  }

  function ClientRx(s: Sys, id: int): Sys {
    var c := Find(s.ports, id);
    if c == |s.ports| then s
    else if s.ports[c].queue == [] then s.(ports := s.ports[c := s.ports[c].(shouldNotify := true)])
    else
      var x := s.ports[c].queue[0];
      s.(ports := s.ports[c := TakePort(s.ports[c])],
         free := s.free + [x.buf],
         dma := Fill(s.dma, x.buf.vbuf, Zeros()))
  }

  function RxStatusOf(s: Sys, id: int): RxStatus {
    var c := Find(s.ports, id);
    if c == |s.ports| || s.ports[c].queue == [] then RX_FAILURE
    else if |s.ports[c].queue| == 1 then RX_COMPLETE
    else RX_INCOMPLETE
  }

  /** The bytes a successful `client_rx` copies to the client's dataport. */
  function Packet(s: Sys, id: int): seq<byte> {
    var c := Find(s.ports, id);
    if c == |s.ports| || s.ports[c].queue == [] then []
    else Contents(s.dma, s.ports[c].queue[0].buf.vbuf, s.ports[c].queue[0].len)
  }

  // ----- transmitting -----

  datatype TxStatus = TX_FAILED | TX_COMPLETE

  /** The frame sent for `len` bytes of the dataport: the client's own address is put at bytes 6 to 11. */
  function TxFrame(mac: seq<byte>, packet: seq<byte>, len: nat): seq<byte>
    requires 2 * MAC_ADDRESS_LEN <= len <= |packet|
  {
    packet[..MAC_ADDRESS_LEN] + mac + packet[2 * MAC_ADDRESS_LEN..len]
  }

  function TxLen(len: int): int {
    if len > BUF_SIZE then BUF_SIZE else len
  }

  /** `client_tx`; the low-level driver queues every buffer it is given. */
  function ClientTx(s: Sys, id: int, len: int, packet: seq<byte>): Sys
    requires TxLen(len) <= |packet|
  {
    var c := Find(s.ports, id);
    if len < 12 || c == |s.ports| || s.ports[c].tx == [] then s
    else
      var p := s.ports[c];
      var b := p.tx[|p.tx| - 1];
      var frame := TxFrame(p.mac, packet, TxLen(len));
      s.(ports := s.ports[c := p.(tx := p.tx[..|p.tx| - 1])],
         dma := Fill(s.dma, b.vbuf, frame),
         wire := s.wire[b := frame])
  }

  function TxStatusOf(s: Sys, id: int, len: int): TxStatus {
    if len < 12 || Find(s.ports, id) == |s.ports| then TX_FAILED else TX_COMPLETE
  }

  /** `eth_tx_complete`: the buffer goes back to the client it belongs to. */
  function TxDone(s: Sys, b: TxBuf): Sys
    requires b.client < |s.ports|
  {
    var p := s.ports[b.client];
    s.(ports := s.ports[b.client := p.(tx := p.tx + [b])], wire := s.wire - {b})
  }

  // ----- steps -----

  datatype Event =
    | HwAlloc(size: nat)                          // the hardware driver asks for a receive buffer
    | HwWrite(b: Buf, data: seq<byte>)            // the hardware writes into a buffer it holds
    | HwRx(bufs: seq<Buf>, lens: seq<nat>)        // the hardware completes receive buffers
    | HwTx(t: TxBuf)                              // the hardware completes a transmission
    | Rx(id: int)                                 // a client calls client_rx
    | Tx(id: int, len: int, packet: seq<byte>)    // a client calls client_tx
    | TakeSignal(c: nat)                          // a client's wait returns

  /** What the hardware and the components keep to. */
  ghost predicate Can(s: Sys, e: Event) {
    match e
    case HwAlloc(_) => true
    case HwWrite(b, data) => b in s.hw && |data| == BUF_SIZE
    case HwRx(bufs, lens) =>
      |bufs| == |lens| && multiset(bufs) <= s.hw && forall k :: 0 <= k < |lens| ==> lens[k] <= BUF_SIZE
    case HwTx(t) => t in s.wire
    case Rx(_) => true
    case Tx(_, len, packet) => TxLen(len) <= |packet|
    case TakeSignal(c) => c < |s.ports| && s.ports[c].signal
  }

  function Step(s: Sys, e: Event): (r: Sys)
    requires s.ports != []
    ensures |r.ports| == |s.ports| && r.own == s.own
  {
    match e
    case HwAlloc(size) => Alloc(s, size)
    case HwWrite(b, data) => s.(dma := Fill(s.dma, b.vbuf, data))
    case HwRx(bufs, lens) => if |bufs| == |lens| then RxComplete(s, bufs, lens) else s
    case HwTx(t) => if t.client < |s.ports| then TxDone(s, t) else s
    case Rx(id) => ClientRx(s, id)
    case Tx(id, len, packet) => if TxLen(len) <= |packet| then ClientTx(s, id, len, packet) else s
    case TakeSignal(c) => if c < |s.ports| then s.(ports := s.ports[c := s.ports[c].(signal := false)]) else s
  }
}
