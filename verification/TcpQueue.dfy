/** The per-client message queue between the TCP callback and the polling component: a free list and a used
  * list threaded through one array of nodes.
  */
module TcpQueue {
  import opened Bytes

  // ----- payload gathering -----

  /** How many leading packet buffers are copied when `limit` bytes fit, counting from the `k`-th. */
  function Fit(parts: seq<seq<byte>>, limit: nat, k: nat): (n: nat)
    requires k <= |parts|
    ensures k <= n <= |parts|
    decreases |parts| - k
  {
    if k < |parts| && Length(parts[..k + 1]) <= limit then Fit(parts, limit, k + 1) else k
  }

  /** `Fit` is the largest number of whole leading buffers that fit. */
  lemma {:induction false} FitIsLongest(parts: seq<seq<byte>>, limit: nat, k: nat)
    requires k <= |parts| && Length(parts[..k]) <= limit
    ensures Length(parts[..Fit(parts, limit, k)]) <= limit
    ensures forall n :: Fit(parts, limit, k) < n <= |parts| ==> Length(parts[..n]) > limit
    decreases |parts| - k
  {
    if k < |parts| {
      if Length(parts[..k + 1]) <= limit {
        FitIsLongest(parts, limit, k + 1);
      } else {
        forall n | k < n <= |parts| ensures Length(parts[..n]) > limit {
          LengthMonotone(parts, k + 1, n);
        }
      }
    }
  }

  function Min(a: nat, b: nat): nat {
    if a < b then a else b
  }

  /** The message stored for a chain: as many whole buffers as fit. */
  function Message(parts: seq<seq<byte>>, totLen: nat, bufSize: nat): seq<byte> {
    Flat(parts[..Fit(parts, Min(totLen, bufSize), 0)])
  }

  /** The message is the longest run of whole leading buffers that exceeds neither limit. */
  ghost predicate LongestThatFits(parts: seq<seq<byte>>, totLen: nat, bufSize: nat, message: seq<byte>) {
    exists n :: 0 <= n <= |parts| && EndsAt(parts, totLen, bufSize, message, n)
  }

  ghost predicate EndsAt(parts: seq<seq<byte>>, totLen: nat, bufSize: nat, message: seq<byte>, n: nat)
    requires n <= |parts|
  {
    && message == Flat(parts[..n]) && Length(parts[..n]) <= totLen && Length(parts[..n]) <= bufSize
    && forall m :: n < m <= |parts| ==> Length(parts[..m]) > totLen || Length(parts[..m]) > bufSize
  }

  /** Also of a chain that is too long, the message stored is the longest run of whole leading buffers that fits. */
  lemma MessageIsLongest(parts: seq<seq<byte>>, totLen: nat, bufSize: nat)
    ensures LongestThatFits(parts, totLen, bufSize, Message(parts, totLen, bufSize))
  {
    hide Flat, Length;
    NothingFits(parts);
    FitIsLongest(parts, Min(totLen, bufSize), 0);
    assert EndsAt(parts, totLen, bufSize, Message(parts, totLen, bufSize), Fit(parts, Min(totLen, bufSize), 0));
  }

  lemma NothingFits(parts: seq<seq<byte>>)
    ensures Length(parts[..0]) == 0
  {
  }

  /** The whole chain is stored exactly when it fits. */
  lemma WholeChain(parts: seq<seq<byte>>, totLen: nat, bufSize: nat)
    requires totLen == Length(parts)
    ensures Message(parts, totLen, bufSize) == Flat(parts) || totLen > bufSize
    ensures |Message(parts, totLen, bufSize)| <= bufSize
    ensures totLen > bufSize ==> |Message(parts, totLen, bufSize)| < totLen
  {
    FitIsLongest(parts, Min(totLen, bufSize), 0);
    assert parts[..|parts|] == parts;
  }

  // ----- the queue as a value -----

  /** The queued messages, oldest first, and the number of bytes handed back to the TCP window. */
  datatype Queue = Queue(messages: seq<seq<byte>>, recved: nat)

  datatype Event =
    | Arrival(parts: seq<seq<byte>>, totLen: nat, error: bool) // no parts: the connection was closed
    | Poll

  datatype Config = Config(nodes: nat, bufSize: nat)

  predicate Accepts(c: Config, q: Queue, e: Event) {
    e.Arrival? && e.parts != [] && !e.error && |q.messages| < c.nodes
  }

  function Step(c: Config, q: Queue, e: Event): Queue {
    match e
    case Arrival(parts, totLen, _) =>
      if Accepts(c, q, e) then q.(messages := q.messages + [Message(parts, totLen, c.bufSize)]) else q
    case Poll =>
      if q.messages == [] then q else Queue(q.messages[1..], q.recved + |q.messages[0]|)
  }

  function Run(c: Config, q: Queue, events: seq<Event>): Queue {
    if events == [] then q else Step(c, Run(c, q, events[..|events| - 1]), events[|events| - 1])
  }

  function StoredBy(c: Config, q: Queue, e: Event): seq<seq<byte>> {
    if Accepts(c, q, e) then [Message(e.parts, e.totLen, c.bufSize)] else []
  }

  function PolledBy(q: Queue, e: Event): seq<seq<byte>> {
    if e.Poll? && q.messages != [] then [q.messages[0]] else []
  }

  /** The messages stored during a run, in order. */
  function Stored(c: Config, q: Queue, events: seq<Event>): seq<seq<byte>> {
    if events == [] then []
    else
      var before := events[..|events| - 1];
      Stored(c, q, before) + StoredBy(c, Run(c, q, before), events[|events| - 1])
  }

  /** The messages returned by the polls of a run, in order. */
  function Polled(c: Config, q: Queue, events: seq<Event>): seq<seq<byte>> {
    if events == [] then []
    else
      var before := events[..|events| - 1];
      Polled(c, q, before) + PolledBy(Run(c, q, before), events[|events| - 1])
  }

  /** A chain that arrives without error while fewer messages than nodes are queued is stored, as far as it fits, and
    * nothing else ever is. */
  lemma StoredWhenRoom(c: Config, q: Queue, e: Event)
    ensures if e.Arrival? && e.parts != [] && !e.error && |q.messages| < c.nodes
            then |StoredBy(c, q, e)| == 1 && LongestThatFits(e.parts, e.totLen, c.bufSize, StoredBy(c, q, e)[0])
            else StoredBy(c, q, e) == []
  {
    if e.Arrival? {
      MessageIsLongest(e.parts, e.totLen, c.bufSize);
    }
    hide LongestThatFits, Message;
  }

  lemma StepIsFifo(c: Config, q: Queue, e: Event)
    requires |q.messages| <= c.nodes
    ensures var r := Step(c, q, e);
            && q.messages + StoredBy(c, q, e) == PolledBy(q, e) + r.messages
            && |r.messages| <= c.nodes
            && r.recved + Length(r.messages) == q.recved + Length(q.messages) + Length(StoredBy(c, q, e))
  {
    hide Message;
    LengthAppend(q.messages, StoredBy(c, q, e));
    if e.Poll? && q.messages != [] {
      var m := q.messages[0];
      LengthAppend([m], q.messages[1..]);
      assert q.messages == [m] + q.messages[1..];
      LengthOne(m);
    }
  }

  /** Every run returns the messages in the order they were stored, never holds more than there are nodes,
    * and hands back to the window just the bytes it no longer queues. */
  lemma {:induction false} RunIsBoundedFifo(c: Config, q: Queue, events: seq<Event>)
    requires |q.messages| <= c.nodes
    ensures q.messages + Stored(c, q, events) == Polled(c, q, events) + Run(c, q, events).messages
    ensures |Run(c, q, events).messages| <= c.nodes
    ensures Run(c, q, events).recved + Length(Run(c, q, events).messages)
         == q.recved + Length(q.messages) + Length(Stored(c, q, events))
    decreases |events|
  {
    if events == [] {
      assert q.messages + [] == [] + q.messages;
    } else {
      var before, e := events[..|events| - 1], events[|events| - 1];
      var mid := Run(c, q, before);
      RunIsBoundedFifo(c, q, before);
      StepIsFifo(c, mid, e);
      FlowComposes(q.messages, Stored(c, q, before), Polled(c, q, before), mid.messages,
                   StoredBy(c, mid, e), PolledBy(mid, e), Step(c, mid, e).messages);
      LengthAppend(Stored(c, q, before), StoredBy(c, mid, e));
      hide Step, StoredBy, PolledBy, Length;
    }
  }

  // ----- the linked implementation -----

  datatype Err = ErrOk | ErrBuf

  class Node {
    var msg: seq<byte> // the allocated block
    var len: nat       // how much of it is the message
    var next: Node?

    constructor (next: Node?)
      ensures this.next == next
    {
      msg, len, this.next := [], 0, next;
    }
  }

  /** The list from `head` along `next` is just `s`. */
  ghost predicate Linked(head: Node?, s: seq<Node>)
    reads s
  {
    if s == [] then head == null
    else
      && head == s[0]
      && (forall i :: 0 <= i < |s| - 1 ==> s[i].next == s[i + 1])
      && s[|s| - 1].next == null
  }

  ghost predicate Distinct(s: seq<Node>) {
    forall i, j :: 0 <= i < j < |s| ==> s[i] != s[j]
  }

  ghost predicate Separate(s: seq<Node>, t: seq<Node>) {
    forall i, j :: 0 <= i < |s| && 0 <= j < |t| ==> s[i] != t[j]
  }

  /** The first node of one list has become the last of the other. */
  ghost predicate Moved(from: seq<Node>, from': seq<Node>, to: seq<Node>, to': seq<Node>)
    requires from != []
  {
    from' == from[1..] && to' == to + [from[0]]
  }

  ghost function Nodes(s: seq<Node>): set<Node> {
    set n | n in s
  }

  lemma {:induction false} SetSize(s: seq<Node>)
    ensures |Nodes(s)| <= |s|
  {
    if s != [] {
      SetSize(s[1..]);
      assert Nodes(s) == Nodes(s[1..]) + {s[0]};
    }
  }

  lemma {:induction false} DistinctSize(s: seq<Node>)
    requires Distinct(s)
    ensures |Nodes(s)| == |s|
  {
    if s != [] {
      DistinctSize(s[1..]);
      assert Nodes(s) == Nodes(s[1..]) + {s[0]};
      assert s[0] !in s[1..];
    }
  }

  lemma ProperSubset<T>(s: set<T>, t: set<T>)
    requires s < t
    ensures |s| < |t|
  {
    assert t == s + (t - s);
    assert t - s == {} ==> t <= s;
  }

  class Client {
    const memory: seq<Node> // message_memory
    const bufSize: nat      // sizeof(Buf)
    const recvBuf: array<byte>
    var freeHead: Node?
    var usedHead: Node?
    var usedTail: Node?     // means nothing while the used list is empty
    var recved: nat         // the total given to tcp_recved
    var signals: nat        // how often the client was signalled
    var connected: bool     // the receive callback is registered on a connection
    ghost var free: seq<Node>
    ghost var used: seq<Node>
    ghost var messages: seq<seq<byte>>

    /** The two lists are what the fields and links say, apart from each other. */
    ghost predicate Lists()
      reads this, memory
    {
      && (forall i :: 0 <= i < |free| ==> free[i] in memory)
      && (forall i :: 0 <= i < |used| ==> used[i] in memory)
      && Distinct(free) && Distinct(used) && Separate(free, used)
      && Linked(freeHead, free) && Linked(usedHead, used)
      && (used != [] ==> usedTail == used[|used| - 1])
      && |messages| == |used| && forall i :: 0 <= i < |used| ==> Holds(used[i], messages[i])
    }

    /** Besides, every node is in one of them. */
    ghost predicate Valid()
      reads this, memory
    {
      Lists() && |free| + |used| == |memory| && recvBuf.Length == bufSize
    }

    /** A node taken from one list and not yet put on the other. */
    ghost predicate Outside(m: Node)
      reads this
    {
      m in memory && (forall i :: 0 <= i < |free| ==> free[i] != m) && forall i :: 0 <= i < |used| ==> used[i] != m
    }

    /** Every node of the array is in just one of the lists. */
    lemma AllNodesListed()
      requires Valid()
      ensures forall n :: n in memory ==> (n in free) != (n in used)
    {
      DistinctSize(free);
      DistinctSize(used);
      SetSize(memory);
      var f, u, all := Nodes(free), Nodes(used), Nodes(memory);
      assert f !! u && f + u <= all;
      if f + u < all {
        ProperSubset(f + u, all);
        assert false;
      }
      forall n | n in memory ensures (n in free) != (n in used) {
        assert n in all && n in f + u;
        assert n in f <==> n in free;
      }
    }

    ghost predicate Holds(n: Node, message: seq<byte>)
      reads n
    {
      n.len <= |n.msg| && n.len <= bufSize && message == n.msg[..n.len]
    }

    ghost function View(): Queue
      reads this
    {
      Queue(messages, recved)
    }

    ghost function Setup(): Config
      reads this
    {
      Config(|memory|, bufSize)
    }

    /** Threads `bufs` nodes through the free list, the last node first. */
    constructor (bufs: nat, bufSize: nat)
      ensures Valid() && |memory| == bufs && this.bufSize == bufSize && View() == Queue([], 0)
      ensures |free| == bufs && forall i :: 0 <= i < bufs ==> free[i] == memory[bufs - 1 - i]
      ensures fresh(memory) && fresh(recvBuf) && !connected
    {
      var nodes: seq<Node>, head: Node? := [], null;
      ghost var list: seq<Node> := [];
      for j := 0 to bufs
        invariant |nodes| == j && |list| == j && fresh(nodes)
        invariant forall i :: 0 <= i < j ==> list[i] == nodes[j - 1 - i]
        invariant Linked(head, list) && Distinct(list)
        invariant forall n :: n in list ==> n in nodes
      {
        var node := new Node(head);
        nodes, head, list := nodes + [node], node, [node] + list;
      }
      memory, this.bufSize := nodes, bufSize;
      recvBuf := new byte[bufSize];
      freeHead, usedHead, usedTail := head, null, null;
      recved, signals, connected := 0, 0, false;
      free, used, messages := list, [], [];
    }

    /** Copies whole packet buffers into a block as long as they fit. */
    static method Gather(parts: seq<seq<byte>>, limit: nat) returns (msg: seq<byte>, len: nat)
      ensures len <= |msg| == limit && msg[..len] == Flat(parts[..Fit(parts, limit, 0)])
    {
      var block := new byte[limit];
      len := 0;
      var q := 0;
      while q < |parts| && len + |parts[q]| <= limit
        invariant 0 <= q <= |parts| && len <= limit
        invariant block[..len] == Flat(parts[..q])
        invariant Fit(parts, limit, q) == Fit(parts, limit, 0)
      {
        hide Fit;
        FlatSnoc(parts, q);
        FitStep(parts, limit, q);
        forall k | 0 <= k < |parts[q]| {
          block[len + k] := parts[q][k];
        }
        assert block[..len + |parts[q]|] == Flat(parts[..q]) + parts[q];
        len := len + |parts[q]|;
        q := q + 1;
      }
      if q < |parts| {
        FlatSnoc(parts, q);
      }
      msg := block[..];
      assert msg[..len] == block[..len];
    }

    /** An incoming connection is accepted: messages queued before stay queued. */
    method Accept()
      requires Valid()
      modifies this`connected
      ensures Valid() && connected
    {
      connected := true;
    }

    /** The callback for a chain of packet buffers, or for a closed connection when there is none. */
    method TcpRecv(parts: seq<seq<byte>>, totLen: nat, error: bool) returns (ret: Err)
      requires Valid()
      modifies this, memory
      ensures Valid() && View() == Step(Setup(), old(View()), Arrival(parts, totLen, error))
      ensures ret == if parts == [] || Accepts(Setup(), old(View()), Arrival(parts, totLen, error)) then ErrOk else ErrBuf
      ensures signals == old(signals) + if Accepts(Setup(), old(View()), Arrival(parts, totLen, error)) then 1 else 0
      ensures connected == (old(connected) && parts != []) && recved == old(recved)
      ensures if parts != [] && !error && |old(messages)| < |memory|
              then ret == ErrOk && signals == old(signals) + 1 && StoredAfter(old(messages), parts, totLen)
              else (ret == ErrOk <==> parts == []) && signals == old(signals) && messages == old(messages)
      ensures if signals > old(signals) then old(free) != [] && Moved(old(free), free, old(used), used)
              else free == old(free) && used == old(used)
    {
      hide Fit, Flat, Client.Valid, Client.Lists, Client.Outside, LongestThatFits;
      Room();
      MessageIsLongest(parts, totLen, bufSize);
      ret := ErrOk;
      if parts == [] {
        Close();
      } else if !error && freeHead != null {
        StoreMessage(parts, if totLen > bufSize then bufSize else totLen);
        Signal();
      } else {
        ret := ErrBuf;
      }
    }

    /** One more message is queued: of these packet buffers, as many whole ones as fit. */
    ghost predicate StoredAfter(was: seq<seq<byte>>, parts: seq<seq<byte>>, totLen: nat)
      reads this
    {
      && |messages| == |was| + 1 && messages[..|was|] == was
      && LongestThatFits(parts, totLen, bufSize, messages[|was|])
    }

    /** The host has closed the connection. */
    method Close()
      requires Valid()
      modifies this`connected
      ensures Valid() && !connected
    {
      connected := false;
    }

    method Signal()
      requires Valid()
      modifies this`signals
      ensures Valid() && signals == old(signals) + 1
    {
      signals := signals + 1;
    }

    method StoreMessage(parts: seq<seq<byte>>, limit: nat)
      requires Valid() && freeHead != null && limit <= bufSize
      modifies this`freeHead, this`free, this`usedHead, this`usedTail, this`used, this`messages, memory
      ensures Valid() && messages == old(messages) + [Flat(parts[..Fit(parts, limit, 0)])]
      ensures old(free) != [] && Moved(old(free), free, old(used), used)
    {
      hide Fit, Flat, Lists, Outside;
      var m := TakeFree();
      var msg, len := Gather(parts, limit);
      Fill(m, msg, len);
      Append(m, msg[..len]);
    }

    lemma Heads()
      requires Lists()
      ensures (freeHead == null <==> free == []) && (usedHead == null <==> used == []) && |messages| == |used|
    {
    }

    /** A node is free exactly when not all of them hold messages. */
    lemma Room()
      requires Valid()
      ensures freeHead != null <==> |messages| < |memory|
    {
      Heads();
    }

    method TakeFree() returns (m: Node)
      requires Lists() && freeHead != null
      modifies this`freeHead, this`free
      ensures Lists() && Outside(m) && old(free) == [m] + free
    {
      m := freeHead;
      freeHead := freeHead.next;
      free := free[1..];
    }

    method Fill(m: Node, msg: seq<byte>, len: nat)
      requires Lists() && Outside(m) && len <= |msg| && len <= bufSize
      modifies m
      ensures Lists() && Outside(m) && m.next == null && Holds(m, msg[..len])
    {
      m.msg, m.len := msg, len;
      m.next := null;
    }

    /** Puts the filled node at the end of the used list. */
    method Append(m: Node, ghost message: seq<byte>)
      requires Lists() && Outside(m) && m.next == null && Holds(m, message)
      modifies this`usedHead, this`usedTail, this`used, this`messages, memory
      ensures Lists() && used == old(used) + [m] && messages == old(messages) + [message]
    {
      hide Linked, Distinct, Separate;
      Apart(m);
      Link(m);
      messages := messages + [message];
      used := used + [m];
    }

    lemma Apart(m: Node)
      requires Lists() && Outside(m)
      ensures Distinct(used + [m]) && Separate(free, used + [m])
    {
    }

    method Link(m: Node)
      requires Lists() && Outside(m) && m.next == null
      modifies this`usedHead, this`usedTail, memory
      ensures Linked(freeHead, free) && Linked(usedHead, used + [m]) && usedTail == m
      ensures forall n :: n in memory ==> n.msg == old(n.msg) && n.len == old(n.len)
    {
      if usedHead == null {
        usedHead, usedTail := m, m;
      } else {
        usedTail.next := m;
        usedTail := m;
      }
    }

    method TakeUsed() returns (m: Node)
      requires Lists() && usedHead != null
      modifies this`usedHead, this`used, this`messages
      ensures Lists() && Outside(m) && old(used) == [m] + used && messages == old(messages)[1..]
      ensures Holds(m, old(messages)[0])
    {
      m := usedHead;
      usedHead := usedHead.next;
      used, messages := used[1..], messages[1..];
    }

    method PutFree(m: Node)
      requires Lists() && Outside(m)
      modifies this`freeHead, this`free, m`next
      ensures Lists() && free == [m] + old(free)
    {
      m.next := freeHead;
      freeHead := m;
      free := [m] + free;
    }

    /** A poll by the client: -1 when nothing is queued, else 1 for the last message and 0 when more remain. */
    method Poll() returns (status: int, len: nat)
      requires Valid()
      modifies this, memory, recvBuf
      ensures Valid() && View() == Step(Setup(), old(View()), Event.Poll)
      ensures old(messages) == [] ==> status == -1 && recvBuf[..] == old(recvBuf[..]) && View() == old(View())
      ensures old(messages) != [] ==>
        && old(messages) == [old(messages)[0]] + messages && recved == old(recved) + len
        && len == |old(messages)[0]| <= bufSize && recvBuf[..] == old(messages[0]) + old(recvBuf[..])[len..]
        && status == if |old(messages)| == 1 then 1 else 0
      ensures if old(used) == [] then free == old(free) && used == []
              else free == [old(used)[0]] + old(free) && used == old(used)[1..]
    {
      hide Lists, Outside;
      Heads();
      len := 0;
      if usedHead == null {
        status := -1;
      } else {
        status, len := Serve();
      }
    }

    /** Copies the oldest message out and moves its node to the front of the free list. */
    method Serve() returns (status: int, len: nat)
      requires Valid() && usedHead != null && |messages| > 0
      modifies this, memory, recvBuf
      ensures Valid() && messages == old(messages)[1..] && recved == old(recved) + |old(messages)[0]|
      ensures len <= bufSize && recvBuf[..] == old(messages[0]) + old(recvBuf[..])[len..]
      ensures status == if messages == [] then 1 else 0
      ensures old(used) != [] && free == [old(used)[0]] + old(free) && used == old(used)[1..]
    {
      hide Lists, Outside;
      var m := TakeUsed();
      recved := recved + m.len;
      len := m.len;
      CopyOut(m.msg, len);
      Heads();
      status := if usedHead != null then 0 else 1;
      PutFree(m);
    }

    method CopyOut(msg: seq<byte>, len: nat)
      requires len <= |msg| && len <= recvBuf.Length
      modifies recvBuf
      ensures recvBuf[..] == msg[..len] + old(recvBuf[..])[len..]
    {
      forall k | 0 <= k < len {
        recvBuf[k] := msg[k];
      }
    }
  }

  lemma FitStep(parts: seq<seq<byte>>, limit: nat, q: nat)
    requires q < |parts| && Length(parts[..q + 1]) <= limit
    ensures Fit(parts, limit, q + 1) == Fit(parts, limit, q)
  {
  }
}
