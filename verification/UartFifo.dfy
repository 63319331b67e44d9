/** The receive ring of the UART component. It has MAX_CHAR slots; its full test masks with `& MAX_CHAR`
  * while its indices wrap with `% MAX_CHAR`, so the two disagree when `head` is the last slot.
  */
module UartFifo {
  import opened Bytes

  const MAX_CHAR := 255

  /** `i % MAX_CHAR`, the step of the indices. */
  function Wrap(i: nat): nat {
    i % MAX_CHAR
  }

  /** `i & MAX_CHAR`, the mask of the full test. */
  function Mask(i: nat): nat {
    i % (MAX_CHAR + 1)
  }

  /** After the last slot the two disagree. */
  lemma WrapAndMask(i: nat)
    requires i < MAX_CHAR
    ensures Wrap(i + 1) == if i == MAX_CHAR - 1 then 0 else i + 1
    ensures Mask(i + 1) == i + 1
  {
  }

  // ----- the ring as a value -----

  /** The pending characters, oldest first, and the slot the next one goes to. */
  datatype Ring = Ring(pending: seq<byte>, head: nat) {
    ghost predicate Valid() {
      |pending| < MAX_CHAR && head < MAX_CHAR
    }

    /** A push finds the ring full. */
    predicate Full() {
      |pending| == MAX_CHAR - 1
    }
  }

  function Push(r: Ring, c: byte): Ring {
    if !r.Full() then Ring(r.pending + [c], Wrap(r.head + 1))
    else if r.head == MAX_CHAR - 1 then Ring([], 0)
    else r
  }

  function Pop(r: Ring): Ring {
    if r.pending == [] then r else r.(pending := r.pending[1..])
  }

  /** The character a read returns: NUL when nothing is pending. */
  function Front(r: Ring): byte {
    if r.pending == [] then 0 else r.pending[0]
  }

  datatype Event = Received(c: byte) | Read

  function Step(r: Ring, e: Event): Ring {
    match e
    case Received(c) => Push(r, c)
    case Read => Pop(r)
  }

  function Run(r: Ring, events: seq<Event>): Ring {
    if events == [] then r else Step(Run(r, events[..|events| - 1]), events[|events| - 1])
  }

  /** What an unbounded queue would hold. */
  function Queue(q: seq<byte>, events: seq<Event>): seq<byte> {
    if events == [] then q
    else
      var before := Queue(q, events[..|events| - 1]);
      match events[|events| - 1]
      case Received(c) => before + [c]
      case Read => if before == [] then [] else before[1..]
  }

  /** Some character is received while 254 are pending. */
  ghost predicate Overruns(r: Ring, events: seq<Event>) {
    exists k :: 0 <= k < |events| && events[k].Received? && Run(r, events[..k]).Full()
  }

  lemma {:induction false} RunKeepsValid(r: Ring, events: seq<Event>)
    requires r.Valid()
    ensures Run(r, events).Valid()
    decreases |events|
  {
    if events != [] {
      RunKeepsValid(r, events[..|events| - 1]);
    }
  }

  /** Without an overrun the ring is a FIFO. */
  lemma {:induction false} FifoWithoutOverrun(r: Ring, events: seq<Event>)
    requires r.Valid() && !Overruns(r, events)
    ensures Run(r, events).pending == Queue(r.pending, events)
    decreases |events|
  {
    if events != [] {
      var n := |events| - 1;
      EarlierOverruns(r, events);
      FifoWithoutOverrun(r, events[..n]);
      assert events[n].Received? ==> !Run(r, events[..n]).Full();
    }
  }

  /** The characters that come in during a run. */
  function Came(events: seq<Event>): seq<byte> {
    if events == [] then []
    else
      var before := Came(events[..|events| - 1]);
      match events[|events| - 1]
      case Received(c) => before + [c]
      case Read => before
  }

  /** The characters the reads of a run return, but for the NULs of reads with nothing pending. */
  function Went(r: Ring, events: seq<Event>): seq<byte> {
    if events == [] then []
    else
      var before, last := events[..|events| - 1], Run(r, events[..|events| - 1]);
      Went(r, before) + if events[|events| - 1].Read? && last.pending != [] then [Front(last)] else []
  }

  /** Without an overrun the reads of a run return what was pending and what came in, in that order and each character
    * once; the rest is still pending. */
  lemma {:induction false} ReadsInOrder(r: Ring, events: seq<Event>)
    requires r.Valid() && !Overruns(r, events)
    ensures r.pending + Came(events) == Went(r, events) + Run(r, events).pending
    decreases |events|
  {
    if events == [] {
      assert r.pending + Came(events) == Went(r, events) + r.pending;
    } else {
      var n := |events| - 1;
      EarlierOverruns(r, events);
      ReadsInOrder(r, events[..n]);
      assert events[n].Received? ==> !Run(r, events[..n]).Full();
      StepInOrder(Run(r, events[..n]), events[n]);
      var last, e := Run(r, events[..n]), events[n];
      FlowComposes(r.pending, Came(events[..n]), Went(r, events[..n]), last.pending,
                   if e.Received? then [e.c] else [],
                   if e.Read? && last.pending != [] then [Front(last)] else [], Step(last, e).pending);
      hide Step, Front, Overruns;
    }
  }

  lemma EarlierOverruns(r: Ring, events: seq<Event>)
    requires events != [] && !Overruns(r, events)
    ensures !Overruns(r, events[..|events| - 1])
  {
    var before := events[..|events| - 1];
    forall k | 0 <= k < |before| && before[k].Received? ensures !Run(r, before[..k]).Full() {
      assert events[..k] == before[..k] && events[k] == before[k];
    }
  }

  lemma StepInOrder(r: Ring, e: Event)
    requires e.Received? ==> !r.Full()
    ensures r.pending + (if e.Received? then [e.c] else [])
         == (if e.Read? && r.pending != [] then [Front(r)] else []) + Step(r, e).pending
  {
    hide Wrap;
  }

  /** The ring agrees with a FIFO throughout a run exactly when the run has no overrun. */
  lemma FifoExactly(r: Ring, events: seq<Event>)
    requires r.Valid()
    ensures (forall k :: 0 <= k <= |events| ==> Run(r, events[..k]).pending == Queue(r.pending, events[..k]))
       <==> !Overruns(r, events)
  {
    if Overruns(r, events) {
      var k :| 0 <= k < |events| && events[k].Received? && Run(r, events[..k]).Full();
      OverrunLoses(r, events, k);
    } else {
      forall k | 0 <= k <= |events| ensures Run(r, events[..k]).pending == Queue(r.pending, events[..k]) {
        assert !Overruns(r, events[..k]) by {
          forall i | 0 <= i < k && events[..k][i].Received? ensures !Run(r, events[..k][..i]).Full() {
            assert events[..k][..i] == events[..i];
          }
        }
        FifoWithoutOverrun(r, events[..k]);
      }
    }
  }

  /** A push at 254 pending characters either loses the new one or, at the last slot, loses all of them. */
  lemma OverrunLoses(r: Ring, events: seq<Event>, k: nat)
    requires k < |events| && events[k].Received? && Run(r, events[..k]).Full()
    ensures Run(r, events[..k + 1]).pending
         == if Run(r, events[..k]).head == MAX_CHAR - 1 then [] else Run(r, events[..k]).pending
    ensures |Run(r, events[..k]).pending| == |Queue(r.pending, events[..k])|
        ==> Run(r, events[..k + 1]).pending != Queue(r.pending, events[..k + 1])
  {
    assert events[..k + 1][..k] == events[..k];
  }

  /** Characters only come in. */
  predicate AllReceived(events: seq<Event>) {
    forall k :: 0 <= k < |events| ==> events[k].Received?
  }

  lemma {:induction false} Filling(events: seq<Event>)
    requires AllReceived(events) && |events| < MAX_CHAR
    ensures var r := Run(Ring([], 0), events); |r.pending| == |events| && r.head == |events|
    decreases |events|
  {
    if events != [] {
      Filling(events[..|events| - 1]);
    }
  }

  /** From the empty ring, 255 characters with no read between them are an overrun, and leave nothing pending. */
  lemma OverrunReached(events: seq<Event>)
    requires AllReceived(events) && |events| == MAX_CHAR
    ensures Overruns(Ring([], 0), events) && Run(Ring([], 0), events) == Ring([], 0)
    ensures |Queue([], events)| == MAX_CHAR
  {
    Filling(events[..MAX_CHAR - 1]);
    AllQueued(events);
    assert events[MAX_CHAR - 1].Received? && Run(Ring([], 0), events[..MAX_CHAR - 1]).Full();
  }

  lemma {:induction false} AllQueued(events: seq<Event>)
    requires AllReceived(events)
    ensures |Queue([], events)| == |events|
    decreases |events|
  {
    if events != [] {
      AllQueued(events[..|events| - 1]);
    }
  }

  // ----- the component -----

  /** The slots from `tail` up to `head`, going round the end. */
  ghost function Slots(b: seq<byte>, tail: nat, head: nat): seq<byte>
    requires tail < |b| && head < |b|
  {
    if tail <= head then b[tail..head] else b[tail..] + b[..head]
  }

  lemma FillSlot(b: seq<byte>, tail: nat, head: nat, c: byte)
    requires |b| == MAX_CHAR && tail < |b| && head < |b|
    ensures Slots(b[head := c], tail, Wrap(head + 1))
         == if Wrap(head + 1) == tail then [] else Slots(b, tail, head) + [c]
  {
    WrapAndMask(head);
    var after := b[head := c];
    if tail <= head {
      assert after[tail..head] == b[tail..head];
      SliceSnoc(after, tail, head);
    } else {
      assert after[..head + 1] == b[..head] + [c];
    }
  }

  lemma FreeSlot(b: seq<byte>, tail: nat, head: nat)
    requires |b| == MAX_CHAR && tail < |b| && head < |b| && tail != head
    ensures var s := Slots(b, tail, head); s != [] && s[0] == b[tail] && s[1..] == Slots(b, Wrap(tail + 1), head)
  {
    WrapAndMask(tail);
    if Wrap(tail + 1) == 0 {
      assert b[tail..] == [b[tail]];
    }
  }

  class Fifo {
    const buf: array<byte>
    var head: nat
    var tail: nat

    ghost predicate Valid()
      reads this
    {
      buf.Length == MAX_CHAR && head < MAX_CHAR && tail < MAX_CHAR
    }

    ghost function View(): (r: Ring)
      requires Valid()
      reads this, buf
      ensures r.Valid()
    {
      Ring(Slots(buf[..], tail, head), head)
    }

    constructor ()
      ensures Valid() && fresh(buf) && View() == Ring([], 0)
    {
      buf := new byte[MAX_CHAR];
      head, tail := 0, 0;
    }

    method CharReady() returns (n: int)
      requires Valid()
      ensures n == |View().pending|
    {
      if head == tail {
        n := 0;
      } else if head > tail {
        n := head - tail;
      } else {
        n := MAX_CHAR - (tail - head);
      }
    }

    /** The interrupt handler, given the character it reads from the device. */
    method HandleInterrupt(c: byte)
      requires Valid()
      modifies this`head, buf
      ensures Valid() && View() == Push(old(View()), c)
    {
      FillSlot(buf[..], tail, head, c);
      WrapAndMask(head);
      hide Slots, Wrap, Mask;
      if Mask(head + 1) == tail {
        return;
      }
      buf[head] := c;
      head := head + 1;
      head := Wrap(head);
    }

    method GetChar() returns (ret: byte)
      requires Valid()
      modifies this`tail
      ensures Valid() && View() == Pop(old(View())) && ret == Front(old(View()))
      ensures if old(View()).pending == [] then ret == 0 && View() == old(View())
              else [ret] + View().pending == old(View()).pending
    {
      assert tail == head ==> View().pending == [];
      WrapAndMask(tail);
      hide Slots, Wrap;
      ret := 0;
      if tail != head {
        FreeSlot(buf[..], tail, head);
        ret := buf[tail];
        tail := tail + 1;
        tail := Wrap(tail);
      }
    }
  }
}
