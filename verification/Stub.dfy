/** The stub itself: `handle_breakpoint` over the program's memory, the breakpoint table, the register block and
  * the packet buffers, each command proved against `Exec` and a stop against `Stop`.
  */
module Stub {
  import opened Bytes
  import opened HexText
  import opened BreakpointTable
  import opened StubModel
  import opened SerialFraming
  import opened Overlay

  method LoadWord(a: array<byte>, at: nat) returns (w: u32)
    requires at + 4 <= a.Length
    ensures w == Word(a[..], at)
  {
    w := WordOf(a[at], a[at + 1], a[at + 2], a[at + 3]);
  }

  method StoreWord(a: array<byte>, at: nat, w: u32)
    requires at + 4 <= a.Length
    modifies a
    ensures a[..] == WriteWord(old(a[..]), at, w)
  {
    var b := WordBytes(w);
    hide WordBytes;
    for i := 0 to 4
      invariant forall k :: 0 <= k < a.Length ==> a[k] == if at <= k < at + i then b[k - at] else old(a[k])
    {
      a[at + i] := b[i];
    }
    SpliceIs(old(a[..]), a[..], at, b);
  }

  lemma HexHasNoNul(bs: seq<byte>)
    ensures 0 !in HexOf(bs)
  {
  }

  lemma SplicedText(buf: seq<byte>, text: seq<byte>)
    requires 0 !in text && |text| < |buf|
    ensures CStr(Splice(buf, 0, text + [0]), 0) == text
  {
    var r := Splice(buf, 0, text + [0]);
    assert r[..|text|] == text;
    CStrIs(r, 0, text);
  }

  lemma SplicedAfter(buf: seq<byte>, p: nat, text: seq<byte>)
    requires p + |text| < |buf|
    ensures Splice(buf, p, text + [0])[..p + |text|] == buf[..p] + text
  {
  }

  class DebugStub {
    const mem: array<byte>           // the debugged program's memory
    const regs: array<byte>          // local_registers
    const breakpoints: array<Bp>
    const outBuf: array<byte>        // remcomOutBuffer
    const breakinst: u32             // the address of the stub's own trap
    var stepped: bool
    var stepOpPtr: u32
    var nextCode: u32

    ghost predicate Valid()
      reads this
    {
      && mem.Length == MEMORY && regs.Length == REG_BYTES && breakpoints.Length == NUM_BP && outBuf.Length == BUFMAX
      && mem != regs && mem != outBuf && regs != outBuf
    }

    ghost function View(): (t: Target)
      requires Valid()
      reads this, mem, regs, breakpoints
      ensures t.Valid()
    {
      Target(mem[..], breakpoints[..], regs[..], stepped, stepOpPtr, nextCode)
    }

    /** The packet about to be sent. */
    ghost function Text(): seq<byte>
      reads outBuf
    {
      CStr(outBuf[..], 0)
    }

    /** The state and the packet are those of this outcome. */
    ghost predicate Replied(o: Outcome)
      requires Valid()
      reads this, mem, regs, breakpoints, outBuf
    {
      o.Reply? && View() == o.target && Text() == o.text
    }

    constructor (memory: array<byte>, breakinst: u32)
      requires memory.Length == MEMORY
      ensures Valid() && mem == memory && this.breakinst == breakinst
      ensures fresh(regs) && fresh(breakpoints) && fresh(outBuf)
      ensures Fresh(Session(View(), false))
    {
      mem, this.breakinst := memory, breakinst;
      regs := new byte[REG_BYTES];
      breakpoints := new Bp[NUM_BP](_ => Bp(0, 0));
      outBuf := new byte[BUFMAX];
      stepped, stepOpPtr, nextCode := false, 0, 0;
    }

    // ----- replies -----

    /** `memset` of the reply buffer. */
    method Clear()
      requires Valid()
      modifies outBuf
      ensures Text() == [] && forall k :: 0 <= k < BUFMAX ==> outBuf[k] == 0
    {
      forall k | 0 <= k < outBuf.Length {
        outBuf[k] := 0;
      }
    }

    /** `strcpy` into the reply buffer. */
    method Put(text: seq<byte>)
      requires Valid() && 0 !in text && |text| < BUFMAX
      modifies outBuf
      ensures Text() == text
    {
      for i := 0 to |text|
        invariant forall k :: 0 <= k < i ==> outBuf[k] == text[k]
      {
        outBuf[i] := text[i];
      }
      outBuf[|text|] := 0;
      assert outBuf[..][0..|text|] == text;
      CStrIs(outBuf[..], 0, text);
    }

    /** `mem2hex` to the start of the reply buffer. */
    method PutHex(a: array<byte>, at: nat, count: int)
      requires Valid() && a != outBuf && (count > 0 ==> at + count <= a.Length && 2 * count < BUFMAX)
      modifies outBuf
      ensures Text() == HexOf(if count > 0 then a[at..at + count] else [])
    {
      hide HexOf;
      ghost var src := Source(a[..], at, count);
      assert src == if count > 0 then a[at..at + count] else [];
      var q := Mem2Hex(a, at, outBuf, 0, count);
      HexHasNoNul(src);
      SplicedText(old(outBuf[..]), HexOf(src));
    }

    // ----- commands -----

    /** 'p' */
    method ReadRegister(text: seq<byte>, p: nat, ghost written: bool)
      requires Valid() && Is(At(text, p), 'p')
      modifies outBuf
      ensures Replied(Exec(old(View()), Parse(text, p), breakinst, written))
    {
      hide Answer, IsBpArgs, HexOf, DigitsEnd, NumberAt;
      var q, addr, n := HexToInt(text, p + 1);
      if n != 0 {
        if addr == 25 {
          PutHex(regs, 4 * CPSR, 4);
        } else if addr < NUMREGS {
          PutHex(regs, 4 * addr, 4);
        } else {
          Put(UNKNOWN_REG);
        }
        return;
      }
      Put(Error(1));
    }

    /** Sets a register other than PC. `written` is whether the kernel takes the registers. */
    method SetRegister(n: u32, value: u32, written: bool)
      requires Valid()
      modifies outBuf, regs
      ensures Replied(Exec(old(View()), WriteReg(n, value), breakinst, written))
    {
      hide Swap, WriteWord;
      if n < NUMREGS && n != PC {
        StoreWord(regs, 4 * n, Swap(value));
        Put(if written then OK else Error(1));
      } else {
        Put(Error(1));
      }
    }

    /** 'P': the digits come most significant first, the register block is little-endian. */
    method WriteRegister(text: seq<byte>, p: nat, written: bool)
      requires Valid() && Is(At(text, p), 'P') && Text() == []
      modifies outBuf, regs
      ensures Replied(Exec(old(View()), Parse(text, p), breakinst, written))
    {
      hide Answer, IsBpArgs, DigitsEnd, NumberAt, Swap, WriteWord;
      var q, addr, n := HexToInt(text, p + 1);
      if n != 0 && Is(At(text, q), '=') {
        var e, value, k := HexToInt(text, q + 1);
        SetRegister(addr, value, written);
      }
    }

    /** 'g' */
    method ReadAllRegisters(text: seq<byte>, p: nat, ghost written: bool)
      requires Valid() && Is(At(text, p), 'g')
      modifies outBuf
      ensures Replied(Exec(old(View()), Parse(text, p), breakinst, written))
    {
      hide HexOf;
      PutHex(regs, 0, 4 * NUMREGS);
    }

    /** 'G' */
    method WriteAllRegisters(text: seq<byte>, p: nat, ghost written: bool)
      requires Valid() && Is(At(text, p), 'G')
      modifies outBuf, regs
      ensures InRange(old(View()), Parse(text, p))
      ensures Replied(Exec(old(View()), Parse(text, p), breakinst, written))
    {
      hide Decoded;
      var end := Hex2Mem(text, p + 1, regs, 0, 4 * NUMREGS);
      Put(OK);
    }

    /** The removal `del_bp` performs, answered. */
    method ClearBreakpoint(addr: u32, ghost written: bool)
      requires Valid() && InRange(View(), Remove(addr))
      modifies outBuf, mem, breakpoints
      ensures Replied(Exec(old(View()), Remove(addr), breakinst, written))
    {
      hide WriteWord, Word, WordBytes, Slot;
      var r, opcode := DelBp(breakpoints, addr);
      if r != 0 {
        Put(Error(3));
        return;
      }
      StoreWord(mem, addr, opcode);
      Put(OK);
    }

    /** Saves the word at `addr` and arms it, except at the current PC. */
    method ArmBreakpoint(addr: u32, ghost written: bool)
      requires Valid() && InRange(View(), Insert(addr))
      modifies outBuf, mem, breakpoints
      ensures Replied(Exec(old(View()), Insert(addr), breakinst, written))
    {
      hide WriteWord, Word, SetSlots;
      var pc := LoadWord(regs, 4 * PC);
      if addr != pc {
        var opcode := LoadWord(mem, addr);
        var r := SetBp(breakpoints, addr, opcode);
        if r != 0 {
          Put(Error(3));
          return;
        }
        StoreWord(mem, addr, TRAP);
      }
      Put(OK);
    }

    /** The address of 'z' and 'Z': "0,<addr>,4". */
    method ReadBpArgs(text: seq<byte>, q: nat) returns (ok: bool, addr: u32)
      ensures ok == IsBpArgs(text, q) && (ok ==> addr == NumberAt(text, q + 2))
    {
      hide DigitsEnd, NumberAt;
      ok, addr := false, 0;
      if Is(At(text, q), '0') && Is(At(text, q + 1), ',') {
        var e, n;
        e, addr, n := HexToInt(text, q + 2);
        ok := n != 0 && Is(At(text, e), ',') && Is(At(text, e + 1), '4');
      }
    }

    /** 'z' */
    method RemoveBreakpoint(text: seq<byte>, p: nat, ghost written: bool)
      requires Valid() && Is(At(text, p), 'z') && InRange(View(), Parse(text, p))
      modifies outBuf, mem, breakpoints
      ensures Replied(Exec(old(View()), Parse(text, p), breakinst, written))
    {
      hide Parse, IsBpArgs, DigitsEnd, NumberAt, Slot, SetSlots, Word, WriteWord;
      ParsedBreakpoint(text, p);
      var ok, addr := ReadBpArgs(text, p + 1);
      if ok {
        ClearBreakpoint(addr, written);
      } else {
        Put(Error(1));
      }
    }

    /** 'Z' */
    method InsertBreakpoint(text: seq<byte>, p: nat, ghost written: bool)
      requires Valid() && Is(At(text, p), 'Z') && InRange(View(), Parse(text, p))
      modifies outBuf, mem, breakpoints
      ensures Replied(Exec(old(View()), Parse(text, p), breakinst, written))
    {
      hide Parse, IsBpArgs, DigitsEnd, NumberAt, Slot, SetSlots, Word, WriteWord;
      ParsedBreakpoint(text, p);
      var ok, addr := ReadBpArgs(text, p + 1);
      if ok {
        ArmBreakpoint(addr, written);
      } else {
        Put(Error(1));
      }
    }

    /** The range of 'm' and 'M': "<addr>,<length>", ending at `e`. */
    method ReadRange(text: seq<byte>, q: nat) returns (ok: bool, addr: u32, length: u32, e: nat)
      requires q <= |text|
      ensures ok == IsRange(text, q)
      ensures ok ==> addr == NumberAt(text, q) && length == RangeLength(text, q) && e == RangeEnd(text, q)
    {
      hide DigitsEnd, NumberAt;
      ok, length := false, 0;
      var n;
      e, addr, n := HexToInt(text, q);
      if n != 0 && Is(At(text, e), ',') {
        e, length, n := HexToInt(text, e + 1);
        ok := n != 0;
      }
    }

    /** 'm' */
    method ReadMemory(text: seq<byte>, p: nat, ghost written: bool)
      requires Valid() && Is(At(text, p), 'm') && InRange(View(), Parse(text, p))
      modifies outBuf
      ensures Replied(Exec(old(View()), Parse(text, p), breakinst, written))
    {
      hide Answer, IsBpArgs, IsRange, RangeLength, HexOf, DigitsEnd, NumberAt;
      var ok, addr, length, e := ReadRange(text, p + 1);
      if ok {
        PutHex(mem, addr, AsInt(length));
      } else {
        Put(Error(1));
      }
    }

    /** `hex2mem` returns the address after the last byte it stored, in 32 bits; 0 counts as failure. */
    method StoreBytes(text: seq<byte>, e: nat, addr: u32, length: u32, ghost written: bool)
      requires Valid() && addr + |Decoded(text, e, AsInt(length))| <= MEMORY
      modifies outBuf, mem
      ensures Replied(Exec(old(View()), WriteMem(addr, length, Decoded(text, e, AsInt(length))), breakinst, written))
    {
      hide Decoded, AsInt;
      var end := Hex2Mem(text, e, mem, addr, AsInt(length));
      if end != 0 && end != MEMORY {
        Put(OK);
      } else {
        Put(Error(3));
      }
    }

    /** 'M' */
    method WriteMemory(text: seq<byte>, p: nat, ghost written: bool)
      requires Valid() && Is(At(text, p), 'M') && InRange(View(), Parse(text, p))
      modifies outBuf, mem
      ensures Replied(Exec(old(View()), Parse(text, p), breakinst, written))
    {
      hide Exec, Parse, IsRange, RangeLength, RangeEnd, NumberAt, Decoded, AsInt;
      ParsedWrite(text, p);
      MalformedOutcome(View(), 2, breakinst, written);
      var ok, addr, length, e := ReadRange(text, p + 1);
      if ok && Is(At(text, e), ':') {
        StoreBytes(text, e + 1, addr, length, written);
      } else {
        Put(Error(2));
      }
    }

    /** 's': saves the word after the current instruction and puts a trap there. */
    method Step(text: seq<byte>, p: nat, ghost written: bool) returns (pc: u32)
      requires Valid() && Is(At(text, p), 's') && InRange(View(), Parse(text, p))
      modifies this, mem, regs
      ensures Valid() && Resume(View(), pc) == Exec(old(View()), Parse(text, p), breakinst, written)
    {
      hide Word, WriteWord, Next;
      pc := LoadWord(regs, 4 * PC);
      stepOpPtr := Next(pc);
      nextCode := LoadWord(mem, stepOpPtr);
      StoreWord(mem, stepOpPtr, TRAP);
      if pc == breakinst {
        StoreWord(regs, 4 * PC, Next(pc));
      }
      stepped := true;
      pc := LoadWord(regs, 4 * PC);
    }

    /** 'c' */
    method ContinueAt(text: seq<byte>, p: nat, ghost written: bool) returns (pc: u32)
      requires Valid() && Is(At(text, p), 'c')
      modifies regs
      ensures Resume(View(), pc) == Exec(old(View()), Parse(text, p), breakinst, written)
    {
      hide Answer, Word, WriteWord, Next, DigitsEnd, NumberAt;
      var q, addr, n := HexToInt(text, p + 1);
      pc := LoadWord(regs, 4 * PC);
      if n != 0 {
        StoreWord(regs, 4 * PC, addr);
      } else if pc == breakinst {
        StoreWord(regs, 4 * PC, Next(pc));
      }
      pc := LoadWord(regs, 4 * PC);
    }

    /** The command whose text is at `p`. */
    method Dispatch(text: seq<byte>, p: nat, written: bool) returns (resumed: bool, pc: u32)
      requires Valid() && InRange(View(), Parse(text, p)) && Text() == []
      modifies this, mem, regs, breakpoints, outBuf
      ensures Valid()
      ensures var o := Exec(old(View()), Parse(text, p), breakinst, written);
        if resumed then o == Resume(View(), pc) else Replied(o)
    {
      hide Exec, InRange, Parse, Answer;
      ParsedLetter(text, p);
      LetterOutcomes(View(), Answer(text, p), breakinst, written);
      resumed, pc := false, 0;
      var c := At(text, p);
      if Is(c, '?') {
        Put(S05);
      } else if Is(c, 'p') {
        ReadRegister(text, p, written);
      } else if Is(c, 'P') {
        WriteRegister(text, p, written);
      } else if Is(c, 'H') || Is(c, 'q') {
        Put(Answer(text, p));
      } else if Is(c, 'g') {
        ReadAllRegisters(text, p, written);
      } else if Is(c, 'G') {
        WriteAllRegisters(text, p, written);
      } else if Is(c, 'z') {
        RemoveBreakpoint(text, p, written);
      } else if Is(c, 'Z') {
        InsertBreakpoint(text, p, written);
      } else if Is(c, 'm') {
        ReadMemory(text, p, written);
      } else if Is(c, 'M') {
        WriteMemory(text, p, written);
      } else if Is(c, 's') {
        pc := Step(text, p, written);
        resumed := true;
      } else if Is(c, 'c') {
        pc := ContinueAt(text, p, written);
        resumed := true;
      } else if Is(c, 'k') {
        resumed := true;
      }
    }

    // ----- stops -----

    /** `put_reg_value` at position `p` of the reply buffer. */
    method PutRegValue(reg: nat, p: nat) returns (q: nat)
      requires Valid() && reg < NUMREGS && p + 12 <= BUFMAX
      modifies outBuf
      ensures q == p + 11 && outBuf[..q] == old(outBuf[..p]) + RegValue(reg, regs[..])
    {
      hide HexOf, HexChar, Splice;
      PutByteHex(reg, p);
      PutChar(':' as int, p + 2);
      ghost var b := outBuf[..];
      q := Mem2Hex(regs, 4 * reg, outBuf, p + 3, 4);
      SplicedAfter(b, p + 3, HexOf(regs[..][4 * reg..4 * reg + 4]));
      ConcatAssociates(old(outBuf[..p]), ByteHex(reg), [':' as int]);
      ConcatAssociates(old(outBuf[..p]), ByteHex(reg) + [':' as int], HexOf(regs[..][4 * reg..4 * reg + 4]));
    }

    method PutByteHex(n: byte, p: nat)
      requires Valid() && p + 1 < BUFMAX
      modifies outBuf
      ensures outBuf[..p + 2] == old(outBuf[..p]) + ByteHex(n)
    {
      outBuf[p] := HexChar(n / 16);
      outBuf[p + 1] := HexChar(n % 16);
    }

    method PutChar(c: byte, p: nat)
      requires Valid() && p < BUFMAX
      modifies outBuf
      ensures outBuf[..p + 1] == old(outBuf[..p]) + [c]
    {
      outBuf[p] := c;
    }

    /** The packet for a stop at a trap: PC and SP follow the signal number. */
    method SayStopped()
      requires Valid()
      modifies outBuf
      ensures Text() == StopText(regs[..])
    {
      hide RegValue;
      PutChar('T' as int, 0);
      PutChar('0' as int, 1);
      PutChar('5' as int, 2);
      var q := PutRegValue(PC, 3);
      PutChar(';' as int, q);
      q := PutRegValue(SP, q + 1);
      PutChar(';' as int, q);
      PutChar(0, q + 1);
      StopTextEnds(regs[..]);
      assert outBuf[..][0..q + 1] == outBuf[..q + 2][..q + 1] == StopText(regs[..]);
      assert outBuf[q + 1] == outBuf[..q + 2][q + 1];
      CStrIs(outBuf[..], 0, StopText(regs[..]));
    }

    /** The debugged program has stopped with these registers. */
    method TakeStop(tcb: seq<byte>)
      requires Valid() && StopInRange(View(), tcb)
      modifies this, mem, regs, outBuf
      ensures Valid() && View() == Stop(old(View()), tcb) && Text() == StopReply(old(View()), tcb)
    {
      hide Word, WriteWord, FindSlots, StopText;
      LoadRegisters(tcb);
      assert mem[..] == old(mem[..]) && breakpoints[..] == old(breakpoints[..]);
      Clear();
      if stepped {
        StoreWord(mem, stepOpPtr, nextCode);
        stepped := false;
        Put(S05);
      } else {
        var pc := LoadWord(regs, 4 * PC);
        var opcode := FindBp(breakpoints, pc);
        if NOT_FOUND != opcode {
          StoreWord(mem, pc, opcode);
        }
        SayStopped();
        assert regs[..] == tcb && breakpoints[..] == old(breakpoints[..]);
      }
    }

    // ----- the command loop over the serial link -----

    /** One turn of the command loop: receive a packet, carry it out and, unless the program resumes, send the
      * answer until the host acknowledges it. */
    method Turn(link: SerialLink, written: bool, ghost x: Exchange) returns (resumed: bool, pc: u32)
      requires Valid() && link.Valid() && link.buffer !in {mem, regs, outBuf} && x.written == written
      requires Offers(link.input, LineOf(link), x) && Answerable(link.input, View(), LineOf(link), x, breakinst)
      modifies this, mem, regs, breakpoints, outBuf, link`pos, link`output, link.buffer
      ensures Valid() && link.Valid()
      ensures var o := OutcomeOf(link.input, old(View()), old(LineOf(link)), x, breakinst);
        && (if resumed then o == Resume(View(), pc) else Replied(o))
        && LineOf(link) == LineAfter(link.input, old(LineOf(link)), x, resumed)
        && link.output == old(link.output) + Sent(link.input, old(LineOf(link)), x, o)
    {
      hide Decodes, Stored, Exec, Parse, InRange, SequenceReply, Frame, RepeatAll, CStr, Repeat;
      ghost var l := LineOf(link);
      Clear();
      var p := link.GetPacket(x.fails, x.i, x.j);
      resumed, pc := Dispatch(link.buffer[..], p, written);
      if !resumed {
        ReplyFits(old(View()), CommandOf(link.input, l, x), breakinst, written);
        link.PutPacket(outBuf, x.ack);
      }
    }

    /** The command loop: turns while `gdb_enabled()` holds, which is `|kernel|` times, or until the program resumes.
      * `kernel` also says whether the kernel takes the registers at each turn, the ghost argument which frames the host
      * sends and where it acknowledges. */
    method CommandLoop(link: SerialLink, kernel: seq<bool>, ghost xs: seq<Exchange>) returns (pc: u32)
      requires Valid() && link.Valid() && link.buffer !in {mem, regs, outBuf}
      requires |kernel| == |xs| && forall k :: 0 <= k < |xs| ==> xs[k].written == kernel[k]
      requires Plays(link.input, View(), LineOf(link), xs, breakinst)
      modifies this, mem, regs, breakpoints, outBuf, link`pos, link`output, link.buffer
      ensures Valid() && link.Valid()
      ensures Resume(View(), pc) == Visit(link.input, old(View()), old(LineOf(link)), xs, breakinst)
      ensures link.output == old(link.output) + Transcript(link.input, old(View()), old(LineOf(link)), xs, breakinst)
    {
      hide Offers, Answerable, OutcomeOf, LineAfter, Sent, Word, Next, Plays, Visit, Transcript;
      ghost var goal := Visit(link.input, View(), LineOf(link), xs, breakinst);
      ghost var all := link.output + Transcript(link.input, View(), LineOf(link), xs, breakinst);
      var k, resumed := 0, false;
      pc := 0;
      assert xs[0..] == xs;
      while !resumed && k < |kernel|
        invariant 0 <= k <= |xs| && Valid() && link.Valid()
        invariant resumed ==> Resume(View(), pc) == goal && link.output == all
        invariant !resumed ==> Underway(link, xs[k..], goal, all)
        decreases |xs| - k, !resumed
      {
        assert xs[k..][0] == xs[k] && xs[k..][1..] == xs[k + 1..];
        PlaysFirst(link.input, View(), LineOf(link), xs[k..], breakinst);
        resumed, pc := Turn(link, kernel[k], xs[k]);
        k := k + 1;
      }
      if !resumed {
        PlaysNone(link.input, View(), LineOf(link), xs[k..], breakinst);
        pc := LoadWord(regs, 4 * PC);
        pc := Next(pc);
      }
    }

    /** `handle_breakpoint`: from a stop of the debugged program to its resumption; with debugging switched off, it
      * just has the program skip the instruction. */
    method HandleBreakpoint(link: SerialLink, tcb: seq<byte>, enabled: bool, kernel: seq<bool>,
                            ghost ack: nat, ghost xs: seq<Exchange>) returns (pc: u32)
      requires Valid() && link.Valid() && link.buffer !in {mem, regs, outBuf} && |tcb| == REG_BYTES
      requires |kernel| == |xs| && forall k :: 0 <= k < |xs| ==> xs[k].written == kernel[k]
      requires enabled ==> StopInRange(View(), tcb) && Acknowledged(link.input, link.pos, ack)
      requires enabled ==> Plays(link.input, Stop(View(), tcb), Line(link.buffer[..], ack + 1), xs, breakinst)
      modifies this, mem, regs, breakpoints, outBuf, link`pos, link`output, link.buffer
      ensures Valid() && link.Valid()
      ensures enabled ==> var t, l := Stop(old(View()), tcb), Line(old(link.buffer[..]), ack + 1);
        && Resume(View(), pc) == Visit(link.input, t, l, xs, breakinst)
        && link.output == old(link.output)
                          + RepeatAll(Frame(StopReply(old(View()), tcb)), ack + 1 - old(link.pos))
                          + Transcript(link.input, t, l, xs, breakinst)
      ensures !enabled ==>
        && View() == old(View()).(regs := tcb) && pc == (Word(tcb, 4 * PC) + 4) % 0x1_0000_0000
        && link.output == old(link.output) && LineOf(link) == old(LineOf(link))
    {
      if !enabled {
        hide Word, Next, Plays, Visit, Transcript, StopInRange, Stop;
        LoadRegisters(tcb);
        pc := LoadWord(regs, 4 * PC);
        NextIs(pc);
        return Next(pc);
      }
      pc := HandleStop(link, tcb, kernel, ack, xs);
    }

    method HandleStop(link: SerialLink, tcb: seq<byte>, kernel: seq<bool>, ghost ack: nat, ghost xs: seq<Exchange>)
        returns (pc: u32)
      requires Valid() && link.Valid() && link.buffer !in {mem, regs, outBuf}
      requires |kernel| == |xs| && forall k :: 0 <= k < |xs| ==> xs[k].written == kernel[k]
      requires StopInRange(View(), tcb) && Acknowledged(link.input, link.pos, ack)
      requires Plays(link.input, Stop(View(), tcb), Line(link.buffer[..], ack + 1), xs, breakinst)
      modifies this, mem, regs, breakpoints, outBuf, link`pos, link`output, link.buffer
      ensures Valid() && link.Valid()
      ensures var t, l := Stop(old(View()), tcb), Line(old(link.buffer[..]), ack + 1);
        && Resume(View(), pc) == Visit(link.input, t, l, xs, breakinst)
        && link.output == old(link.output)
                          + RepeatAll(Frame(StopReply(old(View()), tcb)), ack + 1 - old(link.pos))
                          + Transcript(link.input, t, l, xs, breakinst)
    {
      hide Stop, StopInRange, StopReply, Plays, Visit, Transcript, Frame, RepeatAll, CStr, Acknowledged, Word, Next;
      StopReplyFits(View(), tcb);
      AckLater(link.input, link.pos, ack);
      ghost var l := Line(link.buffer[..], ack + 1);
      TakeStop(tcb);
      ghost var t := View();
      link.PutPacket(outBuf, ack);
      assert View() == t && LineOf(link) == l;
      pc := CommandLoop(link, kernel, xs);
    }

    /** The registers of the stopped thread. */
    method LoadRegisters(tcb: seq<byte>)
      requires Valid() && |tcb| == REG_BYTES
      modifies regs
      ensures regs[..] == tcb
    {
      forall k | 0 <= k < regs.Length {
        regs[k] := tcb[k];
      }
    }

    /** What is left of a visit leads to this outcome and completes this output. */
    ghost predicate Underway(link: SerialLink, rest: seq<Exchange>, goal: Outcome, all: seq<byte>)
      requires Valid()
      reads this, mem, regs, breakpoints, link, link.buffer
    {
      && Plays(link.input, View(), LineOf(link), rest, breakinst)
      && Visit(link.input, View(), LineOf(link), rest, breakinst) == goal
      && link.output + Transcript(link.input, View(), LineOf(link), rest, breakinst) == all
    }
  }

  /** Where a receiver is in the host's stream, and what its buffer holds. */
  datatype Line = Line(buffer: seq<byte>, pos: nat)

  ghost function LineOf(link: SerialLink): Line
    reads link, link.buffer
  {
    Line(link.buffer[..], link.pos)
  }

  /** One packet of the host: how many frames are refused before it, where it starts and ends, where the answer is
    * acknowledged, and whether the kernel takes the registers meanwhile. */
  datatype Exchange = Exchange(fails: nat, i: nat, j: nat, ack: nat, written: bool)

  ghost predicate Offers(input: seq<byte>, l: Line, x: Exchange) {
    && |l.buffer| == BUFMAX && l.pos <= x.j + 3 <= |input|
    && Decodes(input, l.pos, x.fails, x.i, x.j)
  }

  /** The buffer once the packet is received. */
  ghost function BufferAfter(input: seq<byte>, l: Line, x: Exchange): (b: seq<byte>)
    requires Offers(input, l, x)
    ensures |b| == BUFMAX
  {
    Stored(l.buffer, START, input, l.pos, x.j + 3)
  }

  /** The command received: a ':' at index 2 passes for the end of a sequence number. */
  ghost function CommandOf(input: seq<byte>, l: Line, x: Exchange): Command
    requires Offers(input, l, x)
  {
    var b := BufferAfter(input, l, x);
    Parse(b, StartIn(b))
  }

  /** The command lies in memory and, unless it resumes the program, its answer is acknowledged. */
  ghost predicate Answerable(input: seq<byte>, t: Target, l: Line, x: Exchange, breakinst: u32)
    requires Offers(input, l, x)
  {
    && t.Valid() && InRange(t, CommandOf(input, l, x))
    && (OutcomeOf(input, t, l, x, breakinst).Resume? || Acknowledged(input, x.j + 3, x.ack))
  }

  /** From `p` on, the host's first '+' is at `ack`. */
  predicate Acknowledged(s: seq<byte>, p: nat, ack: nat) {
    p <= ack < |s| && s[ack] == PLUS && PLUS !in s[p..ack]
  }

  ghost function OutcomeOf(input: seq<byte>, t: Target, l: Line, x: Exchange, breakinst: u32): Outcome
    requires Offers(input, l, x) && t.Valid() && InRange(t, CommandOf(input, l, x))
  {
    Exec(t, CommandOf(input, l, x), breakinst, x.written)
  }

  ghost function LineAfter(input: seq<byte>, l: Line, x: Exchange, resumed: bool): Line
    requires Offers(input, l, x)
  {
    Line(BufferAfter(input, l, x), if resumed then x.j + 3 else x.ack + 1)
  }

  /** What the host receives: a '-' for each frame refused, a '+', the sequence number, and the answer once for every
    * character up to the acknowledging '+'. */
  ghost function Sent(input: seq<byte>, l: Line, x: Exchange, o: Outcome): seq<byte>
    requires Offers(input, l, x) && (o.Reply? ==> x.ack >= x.j + 3)
  {
    Repeat(MINUS, x.fails) + [PLUS] + SequenceReply(BufferAfter(input, l, x))
    + if o.Reply? then RepeatAll(Frame(o.text), x.ack - x.j - 2) else []
  }

  // ----- a whole visit to the command loop -----

  /** The host's packets are answered one by one, until one resumes the program or debugging is switched off. */
  ghost predicate Plays(input: seq<byte>, t: Target, l: Line, xs: seq<Exchange>, breakinst: u32)
    decreases |xs|
  {
    if xs == [] then t.Valid()
    else
      && Offers(input, l, xs[0]) && Answerable(input, t, l, xs[0], breakinst)
      && var o := OutcomeOf(input, t, l, xs[0], breakinst);
         o.Resume? || Plays(input, o.target, LineAfter(input, l, xs[0], false), xs[1..], breakinst)
  }

  ghost function Visit(input: seq<byte>, t: Target, l: Line, xs: seq<Exchange>, breakinst: u32): Outcome
    requires Plays(input, t, l, xs, breakinst)
    decreases |xs|
  {
    if xs == [] then Resume(t, Next(t.Reg(PC)))
    else
      var o := OutcomeOf(input, t, l, xs[0], breakinst);
      if o.Resume? then o else Visit(input, o.target, LineAfter(input, l, xs[0], false), xs[1..], breakinst)
  }

  /** Everything the host receives. */
  ghost function Transcript(input: seq<byte>, t: Target, l: Line, xs: seq<Exchange>, breakinst: u32): seq<byte>
    requires Plays(input, t, l, xs, breakinst)
    decreases |xs|
  {
    if xs == [] then []
    else
      var o := OutcomeOf(input, t, l, xs[0], breakinst);
      var rest :=
        if o.Resume? then [] else Transcript(input, o.target, LineAfter(input, l, xs[0], false), xs[1..], breakinst);
      Sent(input, l, xs[0], o) + rest
  }

  lemma PlaysFirst(input: seq<byte>, t: Target, l: Line, xs: seq<Exchange>, breakinst: u32)
    requires Plays(input, t, l, xs, breakinst) && xs != []
    ensures Offers(input, l, xs[0]) && Answerable(input, t, l, xs[0], breakinst)
    ensures var o, l' := OutcomeOf(input, t, l, xs[0], breakinst), LineAfter(input, l, xs[0], false);
      if o.Resume?
      then Visit(input, t, l, xs, breakinst) == o && Transcript(input, t, l, xs, breakinst) == Sent(input, l, xs[0], o)
      else
        && Plays(input, o.target, l', xs[1..], breakinst)
        && Visit(input, t, l, xs, breakinst) == Visit(input, o.target, l', xs[1..], breakinst)
        && Transcript(input, t, l, xs, breakinst)
           == Sent(input, l, xs[0], o) + Transcript(input, o.target, l', xs[1..], breakinst)
  {
    hide Offers, OutcomeOf, LineAfter, Sent;
  }

  lemma PlaysNone(input: seq<byte>, t: Target, l: Line, xs: seq<Exchange>, breakinst: u32)
    requires Plays(input, t, l, xs, breakinst) && xs == []
    ensures t.Valid() && Visit(input, t, l, xs, breakinst) == Resume(t, Next(t.Reg(PC)))
    ensures Transcript(input, t, l, xs, breakinst) == []
  {
    hide Word, Next;
  }

  /** The commands of a visit, as events of a session. */
  ghost function Commands(input: seq<byte>, t: Target, l: Line, xs: seq<Exchange>, breakinst: u32): seq<Event>
    requires Plays(input, t, l, xs, breakinst)
    decreases |xs|
  {
    if xs == [] then [Disabled]
    else
      var o := OutcomeOf(input, t, l, xs[0], breakinst);
      var rest :=
        if o.Resume? then [] else Commands(input, o.target, LineAfter(input, l, xs[0], false), xs[1..], breakinst);
      [Event.Command(CommandOf(input, l, xs[0]), xs[0].written)] + rest
  }

  /** A visit is a run of the session machine, so the overlay and all that follows from it apply to the loop. */
  lemma {:induction false} VisitIsRun(input: seq<byte>, t: Target, l: Line, xs: seq<Exchange>, breakinst: u32)
    requires Plays(input, t, l, xs, breakinst)
    ensures t.Valid() && Visit(input, t, l, xs, breakinst).Resume?
    ensures Session(Visit(input, t, l, xs, breakinst).target, false)
         == Overlay.Run(Session(t, true), Commands(input, t, l, xs, breakinst), breakinst)
    decreases |xs|
  {
    hide Exec, InRange, Decodes, Stored, Parse, Word, Next;
    var es := Commands(input, t, l, xs, breakinst);
    if xs == [] {
      assert es[1..] == [];
    } else {
      var x := xs[0];
      var o := OutcomeOf(input, t, l, x, breakinst);
      assert Overlay.Step(Session(t, true), es[0], breakinst) == Session(o.target, !o.Resume?);
      if o.Resume? {
        assert es[1..] == [];
      } else {
        VisitIsRun(input, o.target, LineAfter(input, l, x, false), xs[1..], breakinst);
        assert es[1..] == Commands(input, o.target, LineAfter(input, l, x, false), xs[1..], breakinst);
      }
    }
  }

  /** So is a call of `handle_breakpoint`, with the stop that causes it. */
  lemma CallIsRun(input: seq<byte>, t: Target, tcb: seq<byte>, l: Line, xs: seq<Exchange>, breakinst: u32)
    requires t.Valid() && StopInRange(t, tcb) && Plays(input, Stop(t, tcb), l, xs, breakinst)
    ensures Session(Visit(input, Stop(t, tcb), l, xs, breakinst).target, false)
         == Overlay.Run(Session(t, false), [Stopped(tcb)] + Commands(input, Stop(t, tcb), l, xs, breakinst), breakinst)
  {
    hide Plays, Visit, Stop, StopInRange;
    var es := [Stopped(tcb)] + Commands(input, Stop(t, tcb), l, xs, breakinst);
    VisitIsRun(input, Stop(t, tcb), l, xs, breakinst);
    assert es[1..] == Commands(input, Stop(t, tcb), l, xs, breakinst);
    assert Overlay.Step(Session(t, false), es[0], breakinst) == Session(Stop(t, tcb), true);
  }

  /** The program runs on where its program counter says after 's' and 'c', at 0 after 'k', and behind the instruction it
    * stopped at when debugging was switched off. */
  ghost predicate RunsOn(o: Outcome, last: Event) {
    && o.Resume? && o.target.Valid() && (last.Disabled? || Resuming(last))
    && o.pc == if last.Disabled? then (o.target.Reg(15) + 4) % 0x1_0000_0000
               else if last.c.Kill? then 0
               else o.target.Reg(15)
  }

  /** The last event, and none before it, resumes the program. */
  ghost predicate EndsVisit(o: Outcome, es: seq<Event>) {
    && es != [] && RunsOn(o, es[|es| - 1])
    && forall k :: 0 <= k < |es| - 1 ==> es[k].Command? && !Resuming(es[k])
  }

  lemma OneMoreEvent(o: Outcome, e: Event, rest: seq<Event>)
    requires EndsVisit(o, rest) && e.Command? && !Resuming(e)
    ensures EndsVisit(o, [e] + rest)
  {
    hide RunsOn;
    var es := [e] + rest;
    assert forall k :: 1 <= k < |es| ==> es[k] == rest[k - 1];
  }

  /** A visit ends at the first command that resumes, or else when debugging is switched off. */
  lemma {:induction false} VisitResumes(input: seq<byte>, t: Target, l: Line, xs: seq<Exchange>, breakinst: u32)
    requires Plays(input, t, l, xs, breakinst)
    ensures EndsVisit(Visit(input, t, l, xs, breakinst), Commands(input, t, l, xs, breakinst))
    decreases |xs|
  {
    hide Exec, InRange, Offers, CommandOf, Word, Next, Resuming;
    if xs == [] {
      NextIs(t.Reg(PC));
    } else {
      var x := xs[0];
      var o := OutcomeOf(input, t, l, x, breakinst);
      ExecResumes(t, CommandOf(input, l, x), breakinst, x.written);
      if !o.Resume? {
        var l' := LineAfter(input, l, x, false);
        VisitResumes(input, o.target, l', xs[1..], breakinst);
        OneMoreEvent(Visit(input, o.target, l', xs[1..], breakinst), Event.Command(CommandOf(input, l, x), x.written),
                     Commands(input, o.target, l', xs[1..], breakinst));
      }
    }
  }

  predicate Resuming(e: Event) {
    e.Command? && (e.c.SingleStep? || e.c.Continue? || e.c.Kill?)
  }

  lemma ExecResumes(t: Target, c: Command, breakinst: u32, written: bool)
    requires t.Valid() && InRange(t, c)
    ensures var o := Exec(t, c, breakinst, written);
      && o.target.Valid() && (o.Resume? <==> Resuming(Event.Command(c, written)))
      && (o.Resume? ==> o.pc == if c.Kill? then 0 else o.target.Reg(15))
  {
    hide Word, Next, Swap, AsInt, Slot, SetSlots;
    ExecValid(t, c, breakinst, written);
  }

  lemma AckLater(s: seq<byte>, p: nat, ack: nat)
    requires Acknowledged(s, p, ack)
    ensures p <= ack < |s| && s[ack] == PLUS && PLUS !in s[p..ack]
  {
  }

  lemma StopReplyFits(t: Target, tcb: seq<byte>)
    requires StopInRange(t, tcb)
    ensures |tcb| == REG_BYTES && |StopReply(t, tcb)| < BUFMAX
  {
    hide StopText;
    StopTextEnds(tcb);
  }

  /** Every answer fits the reply buffer with its NUL. */
  lemma ReplyFits(t: Target, c: Command, breakinst: u32, written: bool)
    requires t.Valid() && InRange(t, c)
    ensures var o := Exec(t, c, breakinst, written); o.Reply? ==> |o.text| < BUFMAX
  {
    hide Slot, SetSlots, Word, Next, Swap;
  }

  /** The letters whose commands need no further parsing. */
  lemma ParsedLetter(text: seq<byte>, p: nat)
    ensures var c := At(text, p);
      && (Is(c, '?') ==> Parse(text, p) == HaltReason)
      && (Is(c, 'H') || Is(c, 'q') ==> Parse(text, p) == Query(Answer(text, p)))
      && (Is(c, 'k') ==> Parse(text, p) == Kill)
      && (!IsLetter(c) ==> Parse(text, p) == Silent)
  {
    hide IsBpArgs, IsRange, HasNumber, DigitsEnd, NumberAt, RangeLength, RangeEnd, Decoded, Answer;
  }

  lemma MalformedOutcome(t: Target, n: byte, breakinst: u32, written: bool)
    requires t.Valid() && n < 10
    ensures Exec(t, Malformed(n), breakinst, written) == Reply(t, Error(n))
  {
  }

  lemma LetterOutcomes(t: Target, answer: seq<byte>, breakinst: u32, written: bool)
    requires t.Valid() && |answer| < BUFMAX
    ensures Exec(t, HaltReason, breakinst, written) == Reply(t, S05)
    ensures Exec(t, Query(answer), breakinst, written) == Reply(t, answer)
    ensures Exec(t, Kill, breakinst, written) == Resume(t, 0)
    ensures Exec(t, Silent, breakinst, written) == Reply(t, [])
  {
  }

  /** The letters `handle_breakpoint` acts on. */
  predicate IsLetter(c: byte) {
    || Is(c, '?') || Is(c, 'p') || Is(c, 'P') || Is(c, 'H') || Is(c, 'q') || Is(c, 'g') || Is(c, 'G')
    || Is(c, 'z') || Is(c, 'Z') || Is(c, 'm') || Is(c, 'M') || Is(c, 's') || Is(c, 'c') || Is(c, 'k')
  }

  lemma StopTextEnds(regs: seq<byte>)
    requires |regs| == REG_BYTES
    ensures |StopText(regs)| == 27 && 0 !in StopText(regs)
  {
    HexHasNoNul(regs[4 * PC..4 * PC + 4]);
    HexHasNoNul(regs[4 * SP..4 * SP + 4]);
    hide HexOf;
  }
}
