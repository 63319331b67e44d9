/** The router's side of the driver: polling frames up into lwIP and sending lwIP's packets down. */
module Router {
  import opened Bytes
  import opened EthModel
  import opened EthInvariant
  import opened EthFrames
  import opened EthDriver
  import opened Wakeup

  /** The result of `raw_tx`: 0 for a packet that is too long, else what the driver answers. */
  datatype SendResult = TooLong | Answer(status: TxStatus)

  /** Taking a frame for the client with a given record. */
  lemma AfterRx(s: Sys, me: nat)
    requires Inv(s) && DistinctIds(s.ports) && me < |s.ports|
    ensures var r, q := ClientRx(s, s.ports[me].id), Frames(s, me);
      && Find(s.ports, s.ports[me].id) == me && DistinctIds(r.ports) && |r.ports| == |s.ports|
      && RxStatusOf(s, s.ports[me].id)
         == (if q == [] then RX_FAILURE else if |q| == 1 then RX_COMPLETE else RX_INCOMPLETE)
      && (q == [] ==> Frames(r, me) == [])
      && (q != [] ==> Packet(s, s.ports[me].id) == q[0] && Frames(r, me) == q[1..])
      && (Frames(r, me) == [] ==> r.ports[me].queue == [] && r.ports[me].shouldNotify)
  {
    var id := s.ports[me].id;
    FindOwn(s.ports, me, 0);
    ClientRxFrames(s, id, me);
    SameIdsRx(s, id);
    hide Inv, Contents, Fill, Zeros, DistinctIds;
    if s.ports[me].queue != [] {
      assert Frames(s, me) == [Packet(s, id)] + Frames(ClientRx(s, id), me);
    }
  }

  lemma SameIdsRx(s: Sys, id: int)
    requires Inv(s) && DistinctIds(s.ports)
    ensures DistinctIds(ClientRx(s, id).ports)
  {
    var r := ClientRx(s, id);
    ClientRxInv(s, id);
    forall c | 0 <= c < |s.ports| ensures r.ports[c].id == s.ports[c].id {
      assert SameSender(s.ports[c], r.ports[c]);
    }
    hide ClientRx, Inv, RxOnly;
  }

  lemma TxKeepsIds(s: Sys, id: int, len: int, packet: seq<byte>)
    requires DistinctIds(s.ports) && TxLen(len) <= |packet|
    ensures DistinctIds(ClientTx(s, id, len, packet).ports)
    ensures |ClientTx(s, id, len, packet).ports| == |s.ports|
  {
    hide Fill, TxFrame, Find;
  }

  /** A frame of the client `me`'s own address is on the wire, in one of its idle buffers. */
  ghost predicate Sent(s: Sys, r: Sys, me: nat, frame: seq<byte>)
    requires me < |s.own|
  {
    exists t :: t in s.own[me] && t !in s.wire && r.wire == s.wire[t := frame]
  }

  /** Sending for the client with a given record; of the dataport only the first `len` bytes matter. */
  lemma AfterTx(s: Sys, me: nat, len: nat, data: seq<byte>, packet: seq<byte>)
    requires Inv(s) && DistinctIds(s.ports) && me < |s.ports| && TxLen(len) <= |data|
    requires len <= |data| && data[..len] == packet
    ensures var id := s.ports[me].id; var r := ClientTx(s, id, len, data);
      && Find(s.ports, id) == me && DistinctIds(r.ports) && |r.ports| == |s.ports| == |s.own|
      && TxStatusOf(s, id, len) == (if len < 12 then TX_FAILED else TX_COMPLETE)
      && (len >= 12 && s.ports[me].tx != [] ==>
            Sent(s, r, me, packet[..6] + s.ports[me].mac + packet[12..TxLen(len)]))
      && (len < 12 || s.ports[me].tx == [] ==> r == s)
  {
    var id := s.ports[me].id;
    FindOwn(s.ports, me, 0);
    TxKeepsIds(s, id, len, data);
    if len >= 12 && s.ports[me].tx != [] {
      SentFrame(s, id, len, data);
      SliceOfSlice(data, 0, len, 12, TxLen(len));
      SliceOfSlice(data, 0, len, 0, 6);
      assert data[0..len] == packet && packet[0..6] == packet[..6];
      assert TxFrame(s.ports[me].mac, data, TxLen(len)) == packet[..6] + s.ports[me].mac + packet[12..TxLen(len)];
    }
  }

  /** The frame sent carries the whole packet exactly when the packet fits a transmit buffer. */
  lemma CutWhenLong(packet: seq<byte>)
    requires |packet| >= 12
    ensures packet[12..TxLen(|packet|)] == packet[12..] <==> |packet| <= BUF_SIZE
  {
    assert |packet[12..]| == |packet| - 12;
  }

  class LwipInterface {
    const driver: Driver
    const me: nat                   // the driver's number for this router
    var room: nat                   // how many receive buffers lwIP still grants
    var received: seq<seq<byte>>    // the frames passed up to lwIP

    ghost predicate Valid()
      reads driver, driver.rxVbufs, driver.rxPbufs, driver.clients
      reads (set c | c in driver.clients :: c.rx), (set c | c in driver.clients :: c.tx)
    {
      driver.Valid() && DistinctIds(driver.s.ports) && me < |driver.clients| == |driver.s.ports|
    }

    constructor (driver: Driver, me: nat, room: nat)
      requires driver.Valid() && DistinctIds(driver.s.ports) && me < |driver.clients| == |driver.s.ports|
      ensures Valid() && received == [] && this.driver == driver && this.me == me && this.room == room
    {
      this.driver, this.me, this.room, received := driver, me, room, [];
    }

    lemma Me()
      requires Valid()
      ensures driver.clients[me].id == driver.s.ports[me].id && Inv(driver.s)
      ensures driver.clients[me].dataport.Length >= BUF_SIZE
    {
      driver.AllRecords(me);
      assert driver.clients[me].View() == driver.s.ports[me];
    }

    /** `ethdriver_rx`: the driver's `client_rx` on behalf of this router. */
    method EthdriverRx() returns (status: RxStatus, len: nat)
      requires Valid()
      modifies driver, driver.rxVbufs, driver.rxPbufs, driver.clients, (set c | c in driver.clients :: c.dataport)
      ensures Valid()
      ensures var q, buf := Frames(old(driver.s), me), driver.clients[me].dataport;
        if q == [] then status == RX_FAILURE && Frames(driver.s, me) == []
        else
          && status == (if |q| == 1 then RX_COMPLETE else RX_INCOMPLETE)
          && len <= buf.Length && buf[..len] == q[0] && Frames(driver.s, me) == q[1..]
      ensures Frames(driver.s, me) == [] ==> driver.s.ports[me].queue == [] && driver.s.ports[me].shouldNotify
    {
      hide Driver.Valid, DistinctIds, Frames, Packet, ClientRx, RxStatusOf;
      Me();
      AfterRx(driver.s, me);
      status, len := driver.ClientRx(driver.clients[me].id);
    }

    /** `raw_poll`, undisturbed: passes up the waiting frames until none is left or lwIP grants no buffer; the
      * frame fetched when no buffer is granted is lost. */
    method RawPoll()
      requires Valid()
      modifies this, driver, driver.rxVbufs, driver.rxPbufs, driver.clients
      modifies (set c | c in driver.clients :: c.dataport)
      ensures Valid()
      ensures var q := Frames(old(driver.s), me);
        if |q| <= old(room)
        then received == old(received) + q && room == old(room) - |q| && Frames(driver.s, me) == []
             && driver.s.ports[me].queue == [] && driver.s.ports[me].shouldNotify
        else received == old(received) + q[..old(room)] && room == 0 && Frames(driver.s, me) == q[old(room) + 1..]
    {
      hide Driver.Valid, DistinctIds, Frames;
      ghost var q := Frames(driver.s, me);
      ghost var k := 0;
      var status: RxStatus, len: nat;
      status, len := EthdriverRx();
      while status != RX_FAILURE
        invariant Valid() && 0 <= k <= |q| && k <= old(room) && room == old(room) - k
        invariant received == old(received) + q[..k]
        invariant status != RX_FAILURE ==>
          && k < |q| && Frames(driver.s, me) == q[k + 1..]
          && status == (if k + 1 == |q| then RX_COMPLETE else RX_INCOMPLETE)
          && len <= driver.clients[me].dataport.Length && driver.clients[me].dataport[..len] == q[k]
        invariant status == RX_FAILURE ==>
          if k == |q| then Frames(driver.s, me) == [] else k == old(room) && Frames(driver.s, me) == q[k + 1..]
        invariant Frames(driver.s, me) == [] ==> driver.s.ports[me].queue == [] && driver.s.ports[me].shouldNotify
        decreases |q| - k, status != RX_FAILURE
      {
        if room > 0 {
          room := room - 1;
          received := received + [driver.clients[me].dataport[..len]];
          assert q[..k + 1] == q[..k] + [q[k]];
          k := k + 1;
          if status == RX_INCOMPLETE {
            status, len := EthdriverRx();
          } else {
            status := RX_FAILURE;
          }
        } else {
          status := RX_FAILURE;
        }
      }
    }

    /** Copies the fragments one after the other into the shared buffer. */
    method Gather(fragments: seq<seq<byte>>, buf: array<byte>) returns (total: nat)
      requires Length(fragments) <= buf.Length
      modifies buf
      ensures total == Length(fragments) && buf[..total] == Flat(fragments)
    {
      total := 0;
      assert fragments[..0] == [];
      for i := 0 to |fragments|
        invariant total == Length(fragments[..i]) <= buf.Length && buf[..total] == Flat(fragments[..i])
      {
        hide Length, Flat;
        FlatSnoc(fragments, i);
        LengthMonotone(fragments, i + 1, |fragments|);
        assert fragments[..|fragments|] == fragments;
        forall k | 0 <= k < |fragments[i]| {
          buf[total + k] := fragments[i][k];
        }
        assert buf[..total + |fragments[i]|] == Flat(fragments[..i]) + fragments[i];
        total := total + |fragments[i]|;
      }
      assert fragments[..|fragments|] == fragments;
    }

    method Total(fragments: seq<seq<byte>>) returns (total: nat)
      ensures total == Length(fragments)
    {
      total := 0;
      assert fragments[..0] == [];
      for i := 0 to |fragments|
        invariant total == Length(fragments[..i])
      {
        FlatSnoc(fragments, i);
        total := total + |fragments[i]|;
      }
      assert fragments[..|fragments|] == fragments;
    }

    /** `raw_tx`: a packet that fits is composed in the shared buffer and handed to the driver; a longer one
      * never reaches it. With an idle buffer, the frame sent is the packet with this client's own address at
      * bytes 6 to 11, cut to BUF_SIZE bytes. The answer does not tell a packet sent whole from one cut or dropped. */
    method RawTx(fragments: seq<seq<byte>>) returns (result: SendResult)
      requires Valid()
      modifies driver, driver.clients, driver.clients[me].dataport
      ensures Valid()
      ensures var total := Length(fragments);
        if total > driver.clients[me].dataport.Length
        then result == TooLong && driver.s == old(driver.s)
        else result == Answer(if total < 12 then TX_FAILED else TX_COMPLETE)
      ensures 12 <= Length(fragments) <= driver.clients[me].dataport.Length && old(driver.s).ports[me].tx != [] ==>
        && me < |old(driver.s).own|
        && Sent(old(driver.s), driver.s, me,
                Flat(fragments)[..6] + old(driver.s).ports[me].mac + Flat(fragments)[12..TxLen(Length(fragments))])
      ensures Length(fragments) < 12 || old(driver.s).ports[me].tx == [] ==> driver.s == old(driver.s)
    {
      hide Driver.Valid, DistinctIds, Flat, Length, ClientTx, Sent;
      Me();
      var buf := driver.clients[me].dataport;
      var total := Total(fragments);
      if total > buf.Length {
        return TooLong;
      }
      total := Gather(fragments, buf);
      AfterTx(driver.s, me, total, buf[..], Flat(fragments));
      var status := driver.ClientTx(driver.clients[me].id, total);
      result := Answer(status);
    }
  }
}
