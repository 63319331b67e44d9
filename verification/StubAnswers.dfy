/** What the host sees of each command: from the text of a packet to its answer, the registers and memory it changes
  * and the address the program resumes at.
  */
module StubAnswers {
  import opened Bytes
  import opened HexText
  import opened BreakpointTable
  import opened StubModel
  import opened StubRoundTrips
  import opened Overlay

  /** The text is this word. */
  predicate Reads(text: seq<byte>, word: string) {
    |text| == |word| && forall i :: 0 <= i < |word| ==> Is(text[i], word[i])
  }

  /** The eight digits of a register: its bytes in memory order. */
  function RegisterDigits(t: Target, n: nat): seq<byte>
    requires |t.regs| == REG_BYTES && n <= CPSR
  {
    HexOf(WordBytes(t.Reg(n)))
  }

  lemma RegisterBytes(t: Target, n: nat)
    requires |t.regs| == REG_BYTES && n <= CPSR
    ensures t.regs[4 * n..4 * n + 4] == WordBytes(t.Reg(n))
  {
    BytesOfWord(t.regs, 4 * n);
    hide Word, WordBytes;
  }

  // ----- what a packet asks for -----

  /** "?" */
  lemma HaltAnswer(t: Target, breakinst: u32, written: bool, buf: seq<byte>, p: nat)
    requires t.Valid() && p < |buf| && Is(buf[p], '?')
    ensures InRange(t, Parse(buf, p))
    ensures var o := Exec(t, Parse(buf, p), breakinst, written); o.Reply? && o.target == t && Reads(o.text, "S05")
  {
    hide Answer, IsBpArgs, IsRange, NumberAt, DigitsEnd, Decoded;
  }

  /** "p<n>": registers 0 to 15 by number, the status register as number 25, eight 'x' for any other number. */
  lemma GetAnswer(t: Target, breakinst: u32, written: bool, buf: seq<byte>, p: nat, reg: seq<byte>)
    requires t.Valid() && IsGetText(buf, p, reg) && Value(reg) < 0x1_0000_0000
    ensures InRange(t, Parse(buf, p))
    ensures var o, n := Exec(t, Parse(buf, p), breakinst, written), Value(reg);
      && o.Reply? && o.target == t
      && if n < 16 then o.text == RegisterDigits(t, n)
         else if n == 25 then o.text == RegisterDigits(t, 16)
         else Reads(o.text, "xxxxxxxx")
  {
    hide Answer, IsBpArgs, IsRange, NumberAt, DigitsEnd, Decoded, Value, AllHex, HexOf, Word, WordBytes;
    DigitsAt(buf, p + 1, reg);
    var n := Value(reg);
    if n < 16 {
      RegisterBytes(t, n);
    } else {
      RegisterBytes(t, CPSR);
    }
  }

  /** Everything but one register is as before. */
  ghost predicate OnlyRegister(t: Target, u: Target, n: nat) {
    && u.Valid() && t.Valid() && u == t.(regs := u.regs)
    && forall k :: 0 <= k <= CPSR && k != n ==> u.Reg(k) == t.Reg(k)
  }

  lemma SetOnlyRegister(t: Target, n: nat, v: u32)
    requires t.Valid() && n <= CPSR
    ensures OnlyRegister(t, t.SetReg(n, v), n) && t.SetReg(n, v).Reg(n) == v
  {
    forall k | 0 <= k <= CPSR ensures t.SetReg(n, v).Reg(k) == if k == n then v else t.Reg(k) {
      WordAfterWrite(t.regs, 4 * n, v, 4 * k);
    }
    hide Word, WriteWord;
  }

  /** "P<n>=<digits>": the value, its bytes in the order given, goes to register n and no other; the program counter and
    * numbers above it are refused and nothing changes. */
  lemma SetAnswer(t: Target, breakinst: u32, written: bool, buf: seq<byte>, p: nat, reg: seq<byte>, digits: seq<byte>)
    requires t.Valid() && IsSetText(buf, p, reg, digits) && Value(reg) < 0x1_0000_0000 && |digits| == 8
    ensures InRange(t, Parse(buf, p))
    ensures var o, n := Exec(t, Parse(buf, p), breakinst, written), Value(reg);
      && o.Reply?
      && if n < 15
         then
           && OnlyRegister(t, o.target, n) && RegisterDigits(o.target, n) == LowerAll(digits)
           && Reads(o.text, if written then "OK" else "E01")
         else o.target == t && Reads(o.text, "E01")
  {
    hide Answer, IsBpArgs, IsRange, NumberAt, DigitsEnd, Decoded, Value, AllHex, HexOf, Word, WordBytes, WriteWord, Swap,
      LowerAll;
    var n := Value(reg);
    var v := SetText(buf, p, reg, digits);
    if n < 15 {
      SetOnlyRegister(t, n, Swap(v));
    }
  }

  lemma SetText(buf: seq<byte>, p: nat, reg: seq<byte>, digits: seq<byte>) returns (v: u32)
    requires IsSetText(buf, p, reg, digits) && |digits| == 8 && Value(reg) < 0x1_0000_0000
    ensures Parse(buf, p) == WriteReg(Value(reg), v) && HexOf(WordBytes(Swap(v))) == LowerAll(digits)
  {
    hide Answer, IsBpArgs, Decoded, DigitsEnd, NumberAt, Value, AllHex, HexOf, WordBytes, Swap;
    DigitsAt(buf, p + 1, reg);
    SwapMatchesMemory(buf, p + 2 + |reg|, digits);
    DigitsAt(buf, p + 2 + |reg|, digits);
    DataAt(buf, p + 2 + |reg|, digits, 4);
    v := Value(digits);
  }

  /** "g" */
  lemma AllAnswer(t: Target, breakinst: u32, written: bool, buf: seq<byte>, p: nat)
    requires t.Valid() && p < |buf| && Is(buf[p], 'g')
    ensures InRange(t, Parse(buf, p))
    ensures var o := Exec(t, Parse(buf, p), breakinst, written);
      && o.Reply? && o.target == t && |o.text| == 128
      && forall n :: 0 <= n < 16 ==> o.text[8 * n..8 * n + 8] == RegisterDigits(t, n)
  {
    hide Answer, IsBpArgs, IsRange, NumberAt, DigitsEnd, Decoded, HexOf, Word, WordBytes;
    forall n | 0 <= n < 16 ensures HexOf(t.regs[..64])[8 * n..8 * n + 8] == RegisterDigits(t, n) {
      RegisterShown(t, n);
    }
  }

  /** "G<digits>": the registers take the bytes in the order given, and the status register is kept. */
  lemma SetAllAnswer(t: Target, breakinst: u32, written: bool, all: seq<byte>, buf: seq<byte>, p: nat)
    requires t.Valid() && |all| == 128 && AllHex(all) && p + 1 + |all| <= |buf| && Is(buf[p], 'G')
    requires buf[p + 1..p + 1 + |all|] == all
    ensures InRange(t, Parse(buf, p))
    ensures var o := Exec(t, Parse(buf, p), breakinst, written);
      && o.Reply? && Reads(o.text, "OK") && o.target.Valid() && o.target == t.(regs := o.target.regs)
      && o.target.Reg(16) == t.Reg(16)
      && forall n :: 0 <= n < 16 ==> RegisterDigits(o.target, n) == LowerAll(all)[8 * n..8 * n + 8]
  {
    hide Parse, HexOf, AllHex, LowerAll, Decoded, Word, WordBytes, Splice;
    AllParsed(buf, p, all);
    AllThenAll(t, breakinst, written, all, buf, p);
    var bytes := Decoded(buf, p + 1, 64);
    SpliceKeepsWord(t.regs, bytes, 64);
    var u := t.(regs := Splice(t.regs, 0, bytes));
    forall n | 0 <= n < 16 ensures RegisterDigits(u, n) == LowerAll(all)[8 * n..8 * n + 8] {
      RegisterShown(u, n);
    }
  }

  lemma SpliceKeepsWord(m: seq<byte>, bs: seq<byte>, a: nat)
    requires |bs| <= a && a + 4 <= |m|
    ensures Word(Splice(m, 0, bs), a) == Word(m, a)
  {
    hide Splice;
    var r := Splice(m, 0, bs);
    assert r[a] == m[a] && r[a + 1] == m[a + 1] && r[a + 2] == m[a + 2] && r[a + 3] == m[a + 3];
  }

  lemma RegisterShown(t: Target, n: nat)
    requires |t.regs| == REG_BYTES && n < 16
    ensures HexOf(t.regs[..64])[8 * n..8 * n + 8] == RegisterDigits(t, n)
  {
    hide HexOf, Word, WordBytes;
    HexSlice(t.regs[..64], 4 * n, 4 * n + 4);
    SliceOfSlice(t.regs, 0, 64, 4 * n, 4 * n + 4);
    RegisterBytes(t, n);
  }

  // ----- resuming the program -----

  /** "c<digits>" or "c" at position `p`. */
  predicate IsContinueText(buf: seq<byte>, p: nat, addr: seq<byte>) {
    && p + 1 + |addr| <= |buf| && AllHex(addr) && Is(buf[p], 'c') && buf[p + 1..p + 1 + |addr|] == addr
    && !IsHex(At(buf, p + 1 + |addr|))
  }

  /** The program resumes at the address given, in 32 bits; without one, at the instruction after the stub's own trap if
    * it stopped there, else where it stopped. Only the program counter changes, to that address. */
  lemma ContinueAnswer(t: Target, breakinst: u32, written: bool, buf: seq<byte>, p: nat, addr: seq<byte>)
    requires t.Valid() && IsContinueText(buf, p, addr)
    ensures InRange(t, Parse(buf, p))
    ensures var o := Exec(t, Parse(buf, p), breakinst, written);
      && o.Resume? && OnlyRegister(t, o.target, 15) && o.target.Reg(15) == o.pc
      && o.pc == if addr != [] then Value(addr) % 0x1_0000_0000
                 else if t.Reg(15) == breakinst then (t.Reg(15) + 4) % 0x1_0000_0000
                 else t.Reg(15)
  {
    hide Answer, IsBpArgs, IsRange, NumberAt, DigitsEnd, Decoded, Value, AllHex, Word, WordBytes, WriteWord, Next;
    NumberIs(buf, p + 1, p + 1 + |addr|);
    LowBits(Value(addr));
    NextIs(t.Reg(PC));
    SetOnlyRegister(t, PC, NumberAt(buf, p + 1));
    SetOnlyRegister(t, PC, Next(t.Reg(PC)));
    hide Low32;
  }

  lemma LowBits(v: nat)
    ensures Low32(v) == v % 0x1_0000_0000
  {
  }

  /** "s": the word after the current instruction is saved and holds the trap, nothing else in memory changes; the
    * program resumes where it stopped, or after the stub's own trap if it stopped there. */
  lemma StepAnswer(t: Target, breakinst: u32, written: bool, buf: seq<byte>, p: nat)
    requires t.Valid() && p < |buf| && Is(buf[p], 's') && InRange(t, Parse(buf, p))
    ensures var o, a := Exec(t, Parse(buf, p), breakinst, written), (t.Reg(15) + 4) % 0x1_0000_0000;
      && o.Resume? && o.target.Valid() && a + 4 <= MEMORY
      && OnlyWord(t.mem, o.target.mem, a) && Word(o.target.mem, a) == 0xFEDEFFE7
      && o.target.stepped && o.target.stepOpPtr == a && o.target.nextCode == Word(t.mem, a)
      && o.target.table == t.table && (forall k :: 0 <= k <= CPSR && k != 15 ==> o.target.Reg(k) == t.Reg(k))
      && o.target.Reg(15) == o.pc && o.pc == if t.Reg(15) == breakinst then a else t.Reg(15)
  {
    hide Answer, IsBpArgs, IsRange, NumberAt, DigitsEnd, Decoded, Word, WordBytes, WriteWord, Next;
    NextIs(t.Reg(PC));
    WrittenWord(t.mem, Next(t.Reg(PC)), TRAP);
    SetOnlyRegister(t, PC, Next(t.Reg(PC)));
  }

  /** "k": address 0 stands for not resuming at all. */
  lemma KillAnswer(t: Target, breakinst: u32, written: bool, buf: seq<byte>, p: nat)
    requires t.Valid() && p < |buf| && Is(buf[p], 'k')
    ensures InRange(t, Parse(buf, p))
    ensures Exec(t, Parse(buf, p), breakinst, written) == Resume(t, 0)
  {
    hide Answer, IsBpArgs, IsRange, NumberAt, DigitsEnd, Decoded;
  }

  // ----- breakpoints -----

  /** "Z0,<addr>,4" or "z0,<addr>,4" at position `p`. */
  predicate IsBreakpointText(buf: seq<byte>, p: nat, letter: char, addr: seq<byte>) {
    var e := p + 3 + |addr|;
    && e + 1 < |buf| && Is(buf[p], letter) && Is(buf[p + 1], '0') && Is(buf[p + 2], ',')
    && AllHex(addr) && addr != [] && buf[p + 3..e] == addr && Is(buf[e], ',') && Is(buf[e + 1], '4')
  }

  lemma BreakpointParsed(buf: seq<byte>, p: nat, letter: char, addr: seq<byte>)
    requires IsBreakpointText(buf, p, letter, addr) && Value(addr) < 0x1_0000_0000
    ensures letter == 'Z' ==> Parse(buf, p) == Insert(Value(addr))
    ensures letter == 'z' ==> Parse(buf, p) == Remove(Value(addr))
  {
    hide Answer, IsRange, NumberAt, DigitsEnd, Decoded, Value, AllHex, Parse;
    if letter == 'Z' || letter == 'z' {
      ParsedBreakpoint(buf, p);
      DigitsAt(buf, p + 3, addr);
    }
  }

  // ----- memory -----

  /** "m<addr>,<length>" */
  lemma ReadAnswer(t: Target, breakinst: u32, written: bool, buf: seq<byte>, p: nat,
                   addr: seq<byte>, length: seq<byte>, a: u32, n: nat)
    requires t.Valid() && IsReadText(buf, p, addr, length) && Value(addr) == a && Value(length) == n <= 1023
    requires a + n <= MEMORY
    ensures InRange(t, Parse(buf, p))
    ensures Exec(t, Parse(buf, p), breakinst, written) == Reply(t, HexOf(t.mem[a..a + n]))
  {
    hide Parse, IsReadText, HexOf, Value;
    ReadParsed(buf, p, addr, length, a, n);
    NatIsInt(n);
  }

  /** "M<addr>,<length>:<data>": the bytes given, and no others, are written. It is answered with an error exactly when
    * the 32-bit address behind them is 0. */
  lemma StoreAnswer(t: Target, breakinst: u32, written: bool, buf: seq<byte>, p: nat,
                    addr: seq<byte>, length: seq<byte>, data: seq<byte>, a: u32, n: nat)
    requires t.Valid() && IsWriteText(buf, p, addr, length, data) && AllHex(data) && |data| == 2 * n && n <= 1023
    requires Value(addr) == a && Value(length) == n && a + n <= MEMORY
    ensures InRange(t, Parse(buf, p))
    ensures var o := Exec(t, Parse(buf, p), breakinst, written);
      && o.Reply? && o.target.Valid() && o.target == t.(mem := o.target.mem)
      && HexOf(o.target.mem[a..a + n]) == LowerAll(data)
      && (forall i :: 0 <= i < MEMORY && !(a <= i < a + n) ==> o.target.mem[i] == t.mem[i])
      && Reads(o.text, if (a + n) % 0x1_0000_0000 == 0 then "E03" else "OK")
  {
    hide Parse, IsWriteText, HexOf, LowerAll, Value, AllHex, Splice;
    var bytes := WriteParsed(buf, p, addr, length, data, a, n);
    SpliceRead(t.mem, a, bytes);
    WriteAnswer(t, a, n, bytes, breakinst, written);
  }

  // ----- malformed commands -----

  /** What is missing from a command's arguments is answered with its error. */
  lemma ParsedMalformed(buf: seq<byte>, p: nat)
    requires p < |buf|
    ensures var c, q := Parse(buf, p), p + 1;
      && (Is(buf[p], 'p') && !HasNumber(buf, q) ==> c == Malformed(1))
      && (Is(buf[p], 'P') && !(HasNumber(buf, q) && Is(At(buf, DigitsEnd(buf, q)), '=')) ==> c == Silent)
      && (Is(buf[p], 'm') && !IsRange(buf, q) ==> c == Malformed(1))
      && (Is(buf[p], 'M') && !(IsRange(buf, q) && Is(At(buf, RangeEnd(buf, q)), ':')) ==> c == Malformed(2))
      && ((Is(buf[p], 'z') || Is(buf[p], 'Z')) && !IsBpArgs(buf, q) ==> c == Malformed(1))
  {
    hide Answer, IsBpArgs, IsRange, HasNumber, NumberAt, DigitsEnd, Decoded, RangeEnd, RangeLength, AsInt;
  }

  lemma MalformedAnswer(t: Target, breakinst: u32, written: bool, n: byte)
    requires t.Valid() && 1 <= n <= 2
    ensures InRange(t, Malformed(n)) && InRange(t, Silent)
    ensures var o := Exec(t, Malformed(n), breakinst, written);
      o.Reply? && o.target == t && Reads(o.text, if n == 1 then "E01" else "E02")
    ensures Exec(t, Silent, breakinst, written) == Reply(t, [])
  {
  }

  /** A command whose arguments are malformed is answered with its error and changes nothing. */
  lemma Refused(t: Target, breakinst: u32, written: bool, buf: seq<byte>, p: nat)
    requires t.Valid() && p < |buf| && InRange(t, Parse(buf, p))
    ensures var o, q := Exec(t, Parse(buf, p), breakinst, written), p + 1;
      && (Is(buf[p], 'p') && !HasNumber(buf, q) ==> o.Reply? && o.target == t && Reads(o.text, "E01"))
      && (Is(buf[p], 'P') && !(HasNumber(buf, q) && Is(At(buf, DigitsEnd(buf, q)), '=')) ==> o == Reply(t, []))
      && (Is(buf[p], 'm') && !IsRange(buf, q) ==> o.Reply? && o.target == t && Reads(o.text, "E01"))
      && (Is(buf[p], 'M') && !(IsRange(buf, q) && Is(At(buf, RangeEnd(buf, q)), ':')) ==>
            o.Reply? && o.target == t && Reads(o.text, "E02"))
      && ((Is(buf[p], 'z') || Is(buf[p], 'Z')) && !IsBpArgs(buf, q) ==>
            o.Reply? && o.target == t && Reads(o.text, "E01"))
  {
    hide Parse, Exec, InRange, Reads, IsBpArgs, IsRange, HasNumber, DigitsEnd, RangeEnd;
    ParsedMalformed(buf, p);
    MalformedAnswer(t, breakinst, written, 1);
    MalformedAnswer(t, breakinst, written, 2);
  }

  // ----- queries -----

  /** The queries with an answer, by the start of the packet. */
  lemma QueryAnswer(t: Target, breakinst: u32, written: bool, buf: seq<byte>, p: nat)
    requires t.Valid() && p < |buf| && Is(buf[p], 'q')
    ensures InRange(t, Parse(buf, p))
    ensures var o := Exec(t, Parse(buf, p), breakinst, written);
      && o.Reply? && o.target == t
      && if Is(At(buf, p + 1), 'C') then o.text == []
         else
           && (StartsWith(buf, "qSupported") ==> o.text == [])
           && (StartsWith(buf, "qfThreadInfo") ==> Reads(o.text, "1"))
           && (StartsWith(buf, "qAttached") ==> Reads(o.text, "0"))
           && (StartsWith(buf, "qTStatus") || StartsWith(buf, "qOffsets") ==> o.text == [])
           && (StartsWith(buf, "qSymbol::") ==> Reads(o.text, "OK"))
           && (Reads(o.text, "E01") <==>
                 && !StartsWith(buf, "qSupported") && !StartsWith(buf, "qfThreadInfo") && !StartsWith(buf, "qAttached")
                 && !StartsWith(buf, "qTStatus") && !StartsWith(buf, "qOffsets") && !StartsWith(buf, "qSymbol::"))
  {
    hide Parse, StartsWith, Exec, InRange;
    QueryParsed(t, buf, p, breakinst, written);
    Prefixes(buf);
  }

  /** "H": the threads 0 and -1 may be chosen for either operation. */
  lemma ThreadAnswer(t: Target, breakinst: u32, written: bool, buf: seq<byte>, p: nat)
    requires t.Valid() && p < |buf| && Is(buf[p], 'H')
    ensures InRange(t, Parse(buf, p))
    ensures var o := Exec(t, Parse(buf, p), breakinst, written);
      && o.Reply? && o.target == t
      && Reads(o.text, if StartsWith(buf, "Hc-1") || StartsWith(buf, "Hg-1")
                          || StartsWith(buf, "Hc0") || StartsWith(buf, "Hg0") then "OK" else "E01")
  {
    hide Parse, StartsWith, Exec, InRange;
    QueryParsed(t, buf, p, breakinst, written);
  }

  lemma QueryParsed(t: Target, buf: seq<byte>, p: nat, breakinst: u32, written: bool)
    requires t.Valid() && p < |buf| && (Is(buf[p], 'q') || Is(buf[p], 'H'))
    ensures InRange(t, Parse(buf, p)) && Exec(t, Parse(buf, p), breakinst, written) == Reply(t, Answer(buf, p))
  {
    hide Answer;
  }

  lemma Prefixes(buf: seq<byte>)
    ensures StartsWith(buf, "qSymbol::") || StartsWith(buf, "qAttached") || StartsWith(buf, "qfThreadInfo") ==>
              !StartsWith(buf, "qSupported") && !StartsWith(buf, "qTStatus") && !StartsWith(buf, "qOffsets")
    ensures StartsWith(buf, "qSymbol::") ==> !StartsWith(buf, "qAttached") && !StartsWith(buf, "qfThreadInfo")
    ensures StartsWith(buf, "qAttached") ==> !StartsWith(buf, "qfThreadInfo")
  {
    if |buf| >= 3 {
      assert StartsWith(buf, "qSymbol::") ==> Is(buf[1], 'S') && Is(buf[2], 'y');
      assert StartsWith(buf, "qSupported") ==> Is(buf[1], 'S') && Is(buf[2], 'u');
      assert StartsWith(buf, "qAttached") ==> Is(buf[1], 'A');
      assert StartsWith(buf, "qfThreadInfo") ==> Is(buf[1], 'f');
      assert StartsWith(buf, "qTStatus") ==> Is(buf[1], 'T');
      assert StartsWith(buf, "qOffsets") ==> Is(buf[1], 'O');
    }
  }

  // ----- stops -----

  /** The packet of a stop at a trap names the signal and shows the program counter as register 15 and the stack pointer
    * as register 13. */
  lemma StopShows(regs: seq<byte>)
    requires |regs| == REG_BYTES
    ensures var s := StopText(regs);
      && |s| == 27 && Reads(s[..6], "T050f:") && s[6..14] == HexOf(regs[60..64])
      && Reads(s[14..18], ";0d:") && s[18..26] == HexOf(regs[52..56]) && Reads(s[26..], ";")
  {
    hide HexOf;
  }

  /** A stop takes over the program's registers and leaves the table alone; after a step it is answered with the signal
    * alone. */
  lemma StopTakesRegisters(t: Target, regs: seq<byte>)
    requires t.Valid() && StopInRange(t, regs)
    ensures Stop(t, regs).regs == regs && Stop(t, regs).table == t.table && !Stop(t, regs).stepped
    ensures if t.stepped then Reads(StopReply(t, regs), "S05") else StopReply(t, regs) == StopText(regs)
  {
    hide Word, WriteWord, FindSlots, StopText;
  }
}
