/** The packet layer of the stub when the host is reached over TCP: one whole frame per message. */
module EthernetFraming {
  import opened Bytes
  import opened HexText
  import opened SerialFraming

  /** `p` is the first message at or after `n` that starts with '$'. */
  ghost predicate FirstCommand(inbox: seq<seq<byte>>, n: nat, p: nat) {
    && n <= p < |inbox| && inbox[p] != [] && inbox[p][0] == DOLLAR
    && forall k :: n <= k < p ==> inbox[k] == [] || inbox[k][0] != DOLLAR
  }

  /** The number of nonzero poll results: each one but a final '+' makes `putpacket` send again. */
  function Answers(polls: seq<byte>): nat {
    if polls == [] then 0 else Answers(polls[..|polls| - 1]) + if polls[|polls| - 1] == 0 then 0 else 1
  }

  lemma NoAnswers()
    ensures Answers([]) == 0
  {
  }

  lemma AnswersSnoc(polls: seq<byte>, p: nat, q: nat)
    requires p <= q < |polls|
    ensures Answers(polls[p..q + 1]) == Answers(polls[p..q]) + if polls[q] == 0 then 0 else 1
  {
    assert polls[p..q + 1][..q - p] == polls[p..q];
  }

  /** The polls from `p` on and before `q` that find an answer. */
  ghost function Answered(polls: seq<byte>, p: nat, q: nat): set<nat>
    requires p <= q <= |polls|
  {
    set k: nat | p <= k < q && polls[k] != 0
  }

  lemma {:induction false} AnswersCount(polls: seq<byte>, p: nat, q: nat)
    requires p <= q <= |polls|
    ensures Answers(polls[p..q]) == |Answered(polls, p, q)|
    decreases q
  {
    if p < q {
      AnswersCount(polls, p, q - 1);
      AnswersSnoc(polls, p, q - 1);
      assert Answered(polls, p, q) == Answered(polls, p, q - 1) + if polls[q - 1] == 0 then {} else {q - 1};
    } else {
      assert polls[p..q] == [] && Answered(polls, p, q) == {};
    }
  }

  function Copies(f: seq<byte>, n: nat): (s: seq<seq<byte>>)
    ensures |s| == n && forall i :: 0 <= i < n ==> s[i] == f
  {
    seq(n, _ => f)
  }

  lemma NoNulInside(buf: seq<byte>)
    ensures forall k :: 0 <= k < |CStr(buf, 0)| ==> buf[k] != 0
  {
    var text := CStr(buf, 0);
    forall k | 0 <= k < |text| ensures buf[k] != 0 {
      assert text[k] in text;
    }
  }

  lemma Extended(before: seq<seq<byte>>, f: seq<byte>, n: nat)
    ensures before + Copies(f, n) + [f] == before + Copies(f, n + 1)
  {
    assert Copies(f, n) + [f] == Copies(f, n + 1);
  }

  /** Exactly when the third character is ':', the first two are sent back as a message, in their order. */
  lemma SequenceSent(buf: seq<byte>)
    requires |buf| == BUFMAX
    ensures var r := SequenceMessage(buf);
      if buf[2] == ':' as int then |r| == 1 && |r[0]| == 2 && r[0][0] == buf[0] && r[0][1] == buf[1] else r == []
  {
  }

  /** The reply to a sequence number, as a message of its own. */
  function SequenceMessage(buf: seq<byte>): seq<seq<byte>>
    requires |buf| == BUFMAX
  {
    if buf[2] == COLON then [buf[..2]] else []
  }

  /** A frame that fits a message has at most 2044 characters of text, and is read back under the same condition on
    * ':' as over the serial line. */
  lemma EthernetRoundTrip(buf: seq<byte>, text: seq<byte>)
    requires |buf| == BUFMAX && Plain(text) && 0 !in text && |Frame(text)| <= BUFMAX
    ensures |text| <= 2044
    ensures var b := text + [0] + buf[|text| + 1..];
      && CStr(b, 0) == text && b[2] == Decider(buf, text)
      && (CStr(b, StartIn(b)) == text <==> ReadsBack(buf, text))
  {
    ReadBack(buf, text);
  }

  lemma FrameChars(tmp: seq<byte>, text: seq<byte>)
    requires Frame(text) <= tmp
    ensures |text| + 4 <= |tmp| && tmp[1..1 + |text|] == text && tmp[1 + |text|] == HASH
    ensures DigitsByte(tmp[2 + |text|], tmp[3 + |text|]) == Checksum(text)
  {
    hide *;
    var hi, lo := FrameDigits(text);
    var n := |Frame(text)|;
    assert tmp[0..n] == tmp[..n] == Frame(text);
    ShapeChars(tmp, 0, text, hi, lo);
  }

  class EthernetLink {
    const inbox: seq<seq<byte>> // the messages `enet_getPacket` returns, each cut to BUFMAX
    var next: nat
    const polls: seq<byte>      // the results of polling `enet_getAck`, 0 when no answer is there
    var polled: nat
    var sent: seq<seq<byte>>    // the messages given to `enet_putPacket`
    const buffer: array<byte>   // remcomInBuffer

    ghost predicate Valid()
      reads this
    {
      && buffer.Length == BUFMAX && next <= |inbox| && polled <= |polls|
      && forall k :: 0 <= k < |inbox| ==> |inbox[k]| <= BUFMAX
    }

    constructor (inbox: seq<seq<byte>>, polls: seq<byte>)
      requires forall k :: 0 <= k < |inbox| ==> |inbox[k]| <= BUFMAX
      ensures Valid() && fresh(buffer) && next == 0 && polled == 0 && sent == []
      ensures this.inbox == inbox && this.polls == polls
    {
      this.inbox, this.polls := inbox, polls;
      next, polled, sent := 0, 0, [];
      buffer := new byte[BUFMAX];
    }

    method EnetPutPacket(message: seq<byte>)
      requires Valid()
      modifies this`sent
      ensures Valid() && sent == old(sent) + [message]
    {
      sent := sent + [message];
    }

    /** Copies the next message over the start of `tmp`. */
    method EnetGetPacket(tmp: array<byte>) returns (len: nat)
      requires Valid() && next < |inbox| && tmp.Length == BUFMAX && tmp != buffer
      modifies this`next, tmp
      ensures Valid() && next == old(next) + 1 && len == |inbox[old(next)]|
      ensures tmp[..] == inbox[old(next)] + old(tmp[..])[len..]
    {
      var message := inbox[next];
      len := |message|;
      forall k | 0 <= k < len {
        tmp[k] := message[k];
      }
      next := next + 1;
    }

    method EnetGetAck() returns (ch: byte)
      requires Valid() && polled < |polls|
      modifies this`polled
      ensures Valid() && polled == old(polled) + 1 && ch == polls[old(polled)]
    {
      ch := polls[polled];
      polled := polled + 1;
    }

    /** Skips messages without a leading '$', then decodes a well-formed frame. The string returned is the text framed
      * exactly when no ':' decides otherwise. */
    method GetPacket(ghost p: nat, ghost text: seq<byte>) returns (start: nat)
      requires Valid() && FirstCommand(inbox, next, p)
      requires inbox[p] == Frame(text) && Plain(text)
      modifies this`next, this`sent, buffer
      ensures Valid() && next == p + 1 && |text| <= BUFMAX - 4
      ensures buffer[..] == text + [0] + old(buffer[..])[|text| + 1..]
      ensures sent == old(sent) + [[PLUS]] + SequenceMessage(buffer[..])
      ensures start == StartIn(buffer[..])
      ensures 0 !in text ==> (CStr(buffer[..], start) == text <==> ReadsBack(old(buffer[..]), text))
    {
      var tmp := new byte[BUFMAX](_ => 0);
      var size := 0;
      while tmp[0] != DOLLAR
        invariant Valid() && old(next) <= next <= p + 1 && (tmp[0] == DOLLAR <==> next == p + 1)
        invariant next == p + 1 ==> size == |inbox[p]| && inbox[p] <= tmp[..]
        invariant buffer[..] == old(buffer[..]) && sent == old(sent)
        decreases p + 1 - next
      {
        size := EnetGetPacket(tmp);
      }
      start := Decode(tmp, size, text);
      if 0 !in text {
        EthernetRoundTrip(old(buffer[..]), text);
      }
    }

    /** Parses the frame in `tmp`, whose first character is the '$'. */
    method Decode(tmp: array<byte>, size: nat, ghost text: seq<byte>) returns (start: nat)
      requires Valid() && tmp.Length == BUFMAX && tmp != buffer && size == |text| + 4 <= BUFMAX
      requires Frame(text) <= tmp[..] && Plain(text)
      modifies this`sent, buffer
      ensures buffer[..] == text + [0] + old(buffer[..])[|text| + 1..]
      ensures sent == old(sent) + [[PLUS]] + SequenceMessage(buffer[..])
      ensures start == StartIn(buffer[..])
    {
      hide HexChar, Hex, Add8, Frame, Checksum, DigitsByte, Plain;
      FrameChars(tmp[..], text);
      Terminated(text, buffer[..]);
      var count, checksum := Collect(tmp, size, text);
      buffer[count] := 0;
      assert buffer[..] == (text + old(buffer[..])[|text|..])[|text| := 0];
      var xmitcsum := DigitsByte(tmp[2 + count], tmp[3 + count]);
      if checksum != xmitcsum {
        assert false;
      }
      start := Accept();
    }

    /** The characters between '$' and '#', and their sum. */
    method Collect(tmp: array<byte>, size: nat, ghost text: seq<byte>) returns (count: nat, checksum: byte)
      requires Valid() && tmp.Length == BUFMAX && tmp != buffer && size == |text| + 4 <= BUFMAX
      requires tmp[1..1 + |text|] == text && tmp[1 + |text|] == HASH && Plain(text)
      modifies buffer
      ensures count == |text| && checksum == Checksum(text)
      ensures buffer[..] == text + old(buffer[..])[|text|..]
    {
      hide Add8;
      var ch: byte := DOLLAR;
      checksum, count := 0, 0;
      while count < size
        invariant 0 <= count <= |text| && checksum == Checksum(text[..count])
        invariant forall k :: 0 <= k < count ==> buffer[k] == text[k]
        invariant forall k :: count <= k < BUFMAX ==> buffer[k] == old(buffer[k])
        decreases |text| - count
      {
        ch := tmp[1 + count];
        assert count < |text| ==> ch == tmp[1..1 + |text|][count];
        if ch == DOLLAR {
          assert false;
        }
        if ch == HASH {
          break;
        }
        assert text[..count + 1] == text[..count] + [ch];
        checksum := Add8(checksum, ch);
        buffer[count] := ch;
        count := count + 1;
      }
      assert count == |text| && text[..count] == text;
    }

    /** Acknowledges the packet and answers a sequence number. */
    method Accept() returns (start: nat)
      requires Valid()
      modifies this`sent
      ensures Valid() && sent == old(sent) + [[PLUS]] + SequenceMessage(buffer[..])
      ensures start == StartIn(buffer[..])
    {
      EnetPutPacket([PLUS]);
      start := 0;
      if buffer[2] == COLON {
        EnetPutPacket(buffer[..2]);
        start := 3;
      }
    }

    /** Frames the message and sends it until a '+' answers it; `ack` is the poll that returns that '+'. */
    method PutPacket(msg: array<byte>, ghost ack: nat)
      requires Valid() && |CStr(msg[..], 0)| < msg.Length
      requires polled <= ack < |polls| && polls[ack] == PLUS && PLUS !in polls[polled..ack]
      modifies this`polled, this`sent
      ensures Valid() && polled == ack + 1
      ensures sent == old(sent) + Copies(Frame(CStr(msg[..], 0)), Answers(polls[old(polled)..polled]))
      ensures old(sent) <= sent && |sent| == |old(sent)| + |Answered(polls, old(polled), polled)|
      ensures forall k :: |old(sent)| <= k < |sent| ==> sent[k] == Frame(CStr(msg[..], 0))
    {
      hide Checksum, CStr, Frame, HexChar, Answers;
      ghost var text := CStr(msg[..], 0);
      var buf, count := Format(msg);
      ghost var p0 := polled;
      NoAnswers();
      assert polls[p0..p0] == [] && Copies(Frame(text), 0) == [];
      SliceMembers(polls, p0, ack);
      var ch: byte := 0;
      while ch != PLUS
        invariant Valid() && p0 <= polled <= ack + 1 && (ch == PLUS <==> polled == ack + 1)
        invariant sent == old(sent) + Copies(Frame(text), Answers(polls[p0..polled]))
        invariant count == |text| + 4 && buf.Length == |text| + 5 && buf[..] == Frame(text) + [0]
        decreases ack + 1 - polled
      {
        Extended(old(sent), Frame(text), Answers(polls[p0..polled]));
        assert buf[..count] == (Frame(text) + [0])[..count] == Frame(text);
        EnetPutPacket(buf[..count]);
        ghost var n := Answers(polls[p0..polled]);
        ch := 0;
        while ch == 0
          invariant Valid() && p0 <= polled <= ack + 1 && (ch == PLUS <==> polled == ack + 1)
          invariant Answers(polls[p0..polled]) == n + if ch == 0 then 0 else 1
          invariant buf[..] == Frame(text) + [0] && sent == old(sent) + Copies(Frame(text), n + 1)
          decreases ack + 1 - polled
        {
          AnswersSnoc(polls, p0, polled);
          ch := EnetGetAck();
        }
      }
      AnswersCount(polls, p0, polled);
    }

    /** The frame, printed into a buffer of just the right size with its terminating NUL. */
    method Format(msg: array<byte>) returns (buf: array<byte>, count: nat)
      requires Valid() && |CStr(msg[..], 0)| < msg.Length
      ensures fresh(buf) && count == |CStr(msg[..], 0)| + 4 && buf[..] == Frame(CStr(msg[..], 0)) + [0]
    {
      ghost var text := CStr(msg[..], 0);
      NoNulInside(msg[..]);
      var length := 0;
      while msg[length] != 0
        invariant 0 <= length <= |text|
        decreases |text| - length
      {
        length := length + 1;
      }
      buf := new byte[length + 5];
      var checksum := Summed(msg, length);
      var all := [DOLLAR] + msg[..length] + [HASH, HexChar(checksum / 16), HexChar(checksum % 16), 0];
      assert msg[..length] == text;
      assert all == Frame(text) + [0];
      forall k | 0 <= k < buf.Length {
        buf[k] := all[k];
      }
      assert msg[..] == old(msg[..]);
      count := length + 4;
    }

    /** Sums the characters, reading one character even of an empty message. */
    method Summed(msg: array<byte>, length: nat) returns (checksum: byte)
      requires length < msg.Length && msg[..length] == CStr(msg[..], 0) && msg[length] == 0
      ensures checksum == Checksum(msg[..length])
    {
      checksum := 0;
      var count, ch := 0, 1;
      while count == 0 || (ch != 0 && count < length)
        invariant 0 <= count <= length + 1 && (count > length ==> length == 0 && ch == 0)
        invariant count <= length ==> (count > 0 ==> ch != 0) && checksum == Checksum(msg[..count])
        invariant count > length ==> checksum == 0
        decreases length + 1 - count
      {
        ch := msg[count];
        assert count < length ==> ch == CStr(msg[..], 0)[count];
        assert msg[..count + 1][..count] == msg[..count];
        checksum := Add8(checksum, ch);
        count := count + 1;
      }
    }
  }
}
