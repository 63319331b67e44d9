/** The breakpoint-and-step machine of the GDB stub: the commands of its loop and the stops of the debugged
  * program, on the program's memory, the breakpoint table and the register block.
  */
module StubModel {
  import opened Bytes
  import opened HexText
  import opened BreakpointTable

  const MEMORY := 0x1_0000_0000 // bytes in the address space
  const NUMREGS := 16           // R0 to R12, SP, LR, PC
  const SP := 13
  const PC := 15
  const CPSR := 16
  const REG_BYTES := 4 * (NUMREGS + 1)
  const TRAP: u32 := 0xFEDEFFE7

  datatype Target = Target(
    mem: seq<byte>,      // the debugged program's memory
    table: seq<Bp>,      // breakpoints
    regs: seq<byte>,     // local_registers, as bytes
    stepped: bool,
    stepOpPtr: u32,
    nextCode: u32)
  {
    ghost predicate Valid() {
      |mem| == MEMORY && |table| == NUM_BP && |regs| == REG_BYTES
    }

    function Reg(n: nat): u32
      requires |regs| == REG_BYTES && n <= CPSR
    {
      Word(regs, 4 * n)
    }

    function SetReg(n: nat, v: u32): Target
      requires |regs| == REG_BYTES && n <= CPSR
    {
      this.(regs := WriteWord(regs, 4 * n, v))
    }

    function Poke(a: u32, v: u32): Target
      requires a + 4 <= |mem|
    {
      this.(mem := WriteWord(mem, a, v))
    }
  }

  // ----- commands -----

  datatype Command =
    | HaltReason
    | ReadReg(n: u32)
    | WriteReg(n: u32, value: u32)
    | ReadAll
    | WriteAll(bytes: seq<byte>)
    | Remove(addr: u32)
    | Insert(addr: u32)
    | ReadMem(addr: u32, length: u32)
    | WriteMem(addr: u32, length: u32, bytes: seq<byte>)
    | SingleStep
    | Continue(given: bool, addr: u32)
    | Kill
    | Query(answer: seq<byte>) // 'q' and 'H'
    | Silent                   // answered with an empty packet
    | Malformed(error: byte)

  predicate HasNumber(text: seq<byte>, p: nat) {
    DigitsEnd(text, p) > p
  }

  /** A 32-bit length passed as `int`. */
  function AsInt(w: u32): int {
    if w < 0x8000_0000 then w else w - 0x1_0000_0000
  }

  predicate Is(ch: byte, c: char) {
    ch == c as int
  }

  /** The arguments of 'z' and 'Z': "0,<addr>,4". */
  predicate IsBpArgs(text: seq<byte>, q: nat) {
    && Is(At(text, q), '0') && Is(At(text, q + 1), ',') && HasNumber(text, q + 2)
    && Is(At(text, DigitsEnd(text, q + 2)), ',') && Is(At(text, DigitsEnd(text, q + 2) + 1), '4')
  }

  /** The arguments of 'm' and the first ones of 'M': "<addr>,<length>". */
  predicate IsRange(text: seq<byte>, q: nat) {
    HasNumber(text, q) && Is(At(text, DigitsEnd(text, q)), ',') && HasNumber(text, DigitsEnd(text, q) + 1)
  }

  function RangeLength(text: seq<byte>, q: nat): u32 {
    NumberAt(text, DigitsEnd(text, q) + 1)
  }

  function RangeEnd(text: seq<byte>, q: nat): nat {
    DigitsEnd(text, DigitsEnd(text, q) + 1)
  }

  const OK: seq<byte> := ['O' as int, 'K' as int]
  const UNKNOWN_REG: seq<byte> :=
    ['x' as int, 'x' as int, 'x' as int, 'x' as int, 'x' as int, 'x' as int, 'x' as int, 'x' as int]

  function Error(n: byte): seq<byte>
    requires n < 10
  {
    ['E' as int, '0' as int, '0' as int + n]
  }

  /** `strncmp` of the whole packet buffer with a word finds no difference. */
  predicate StartsWith(text: seq<byte>, word: string) {
    |word| <= |text| && forall i :: 0 <= i < |word| ==> Is(text[i], word[i])
  }

  /** The answers to 'H' and 'q': the letter is at `p`, but the words are compared from the start of the buffer. */
  function Answer(text: seq<byte>, p: nat): (a: seq<byte>)
    ensures |a| <= 3 && 0 !in a
  {
    if Is(At(text, p), 'H') then
      if StartsWith(text, "Hc-1") || StartsWith(text, "Hg-1") || StartsWith(text, "Hc0") || StartsWith(text, "Hg0")
      then OK else Error(1)
    else if Is(At(text, p + 1), 'C') || StartsWith(text, "qSupported") then []
    else if StartsWith(text, "qfThreadInfo") then ['1' as int]
    else if StartsWith(text, "qAttached") then ['0' as int]
    else if StartsWith(text, "qTStatus") || StartsWith(text, "qOffsets") then []
    else if StartsWith(text, "qSymbol::") then OK
    else Error(1)
  }

  /** The command whose text starts at `p`. */
  function Parse(text: seq<byte>, p: nat): Command {
    var c, q := At(text, p), p + 1;
    if Is(c, '?') then HaltReason
    else if Is(c, 'p') then
      if HasNumber(text, q) then ReadReg(NumberAt(text, q)) else Malformed(1)
    else if Is(c, 'P') then
      if HasNumber(text, q) && Is(At(text, DigitsEnd(text, q)), '=')
      then WriteReg(NumberAt(text, q), NumberAt(text, DigitsEnd(text, q) + 1)) else Silent
    else if Is(c, 'H') || Is(c, 'q') then Query(Answer(text, p))
    else if Is(c, 'g') then ReadAll
    else if Is(c, 'G') then WriteAll(Decoded(text, q, 4 * NUMREGS))
    else if Is(c, 'z') then
      if IsBpArgs(text, q) then Remove(NumberAt(text, q + 2)) else Malformed(1)
    else if Is(c, 'Z') then
      if IsBpArgs(text, q) then Insert(NumberAt(text, q + 2)) else Malformed(1)
    else if Is(c, 'm') then
      if IsRange(text, q) then ReadMem(NumberAt(text, q), RangeLength(text, q)) else Malformed(1)
    else if Is(c, 'M') then
      if IsRange(text, q) && Is(At(text, RangeEnd(text, q)), ':')
      then WriteMem(NumberAt(text, q), RangeLength(text, q),
                    Decoded(text, RangeEnd(text, q) + 1, AsInt(RangeLength(text, q))))
      else Malformed(2)
    else if Is(c, 's') then SingleStep
    else if Is(c, 'c') then Continue(HasNumber(text, q), NumberAt(text, q))
    else if Is(c, 'k') then Kill
    else Silent
  }

  lemma ParsedBreakpoint(text: seq<byte>, p: nat)
    requires Is(At(text, p), 'z') || Is(At(text, p), 'Z')
    ensures Parse(text, p) == if !IsBpArgs(text, p + 1) then Malformed(1)
                              else if Is(At(text, p), 'z') then Remove(NumberAt(text, p + 3))
                              else Insert(NumberAt(text, p + 3))
  {
    hide Answer, IsRange, IsBpArgs, HasNumber, NumberAt, DigitsEnd, Decoded;
  }

  lemma ParsedWrite(text: seq<byte>, p: nat)
    requires Is(At(text, p), 'M')
    ensures var q := p + 1;
      Parse(text, p) == if IsRange(text, q) && Is(At(text, RangeEnd(text, q)), ':')
                        then WriteMem(NumberAt(text, q), RangeLength(text, q),
                                      Decoded(text, RangeEnd(text, q) + 1, AsInt(RangeLength(text, q))))
                        else Malformed(2)
  {
    hide Answer, IsRange, IsBpArgs, HasNumber, NumberAt, DigitsEnd, Decoded, RangeEnd, RangeLength, AsInt;
  }

  // ----- what a command does -----

  datatype Outcome =
    | Reply(target: Target, text: seq<byte>)
    | Resume(target: Target, pc: u32) // the program runs on from `pc`; 0 suspends it

  /** The reply to '?', and to a stop after a single step. */
  const S05: seq<byte> := ['S' as int, '0' as int, '5' as int]

  /** The bytes of a word in the other order. */
  function Swap(v: u32): u32 {
    var b := WordBytes(v);
    WordOf(b[3], b[2], b[1], b[0])
  }

  function Next(pc: u32): u32 {
    if pc + 4 < MEMORY then pc + 4 else pc + 4 - MEMORY
  }

  lemma NextIs(pc: u32)
    ensures Next(pc) == (pc + 4) % 0x1_0000_0000
  {
  }

  /** The words and ranges a command touches lie within memory, and a range read fits the reply buffer. */
  predicate InRange(t: Target, c: Command)
    requires |t.regs| == REG_BYTES
  {
    match c
    case Remove(a) => a + 4 <= MEMORY || Slot(t.table, a, 0) == |t.table|
    case Insert(a) => a + 4 <= MEMORY || a == t.Reg(PC)
    case ReadMem(a, n) => AsInt(n) > 0 ==> a + AsInt(n) <= MEMORY && 2 * AsInt(n) < BUFMAX
    case WriteMem(a, _, bytes) => a + |bytes| <= MEMORY
    case SingleStep => Next(t.Reg(PC)) + 4 <= MEMORY
    case Malformed(n) => n < 10
    case WriteAll(bytes) => |bytes| <= 4 * NUMREGS
    case Query(answer) => |answer| < BUFMAX
    case _ => true
  }

  /** Only a command that touches memory can be out of range. */
  lemma OthersInRange(t: Target, text: seq<byte>, p: nat)
    requires |t.regs| == REG_BYTES
    ensures var c := Parse(text, p);
      c.Remove? || c.Insert? || c.ReadMem? || c.WriteMem? || c.SingleStep? || InRange(t, c)
  {
    hide IsBpArgs, IsRange, DigitsEnd, NumberAt, StartsWith, Word, Next;
  }

  /** `breakinst` is the address of the stub's own trap; `written` is whether the kernel took the registers. */
  function Exec(t: Target, c: Command, breakinst: u32, written: bool): Outcome
    requires t.Valid() && InRange(t, c)
  {
    match c
    case HaltReason => Reply(t, S05)
    case ReadReg(n) =>
      Reply(t, if n == 25 then HexOf(t.regs[4 * CPSR..4 * CPSR + 4])
               else if n < NUMREGS then HexOf(t.regs[4 * n..4 * n + 4])
               else UNKNOWN_REG)
    case WriteReg(n, v) =>
      if n < NUMREGS && n != PC then Reply(t.SetReg(n, Swap(v)), if written then OK else Error(1))
      else Reply(t, Error(1))
    case ReadAll => Reply(t, HexOf(t.regs[..4 * NUMREGS]))
    case WriteAll(bytes) => Reply(t.(regs := Splice(t.regs, 0, bytes)), OK)
    case Remove(a) =>
      var k := Slot(t.table, a, 0);
      if k == |t.table| then Reply(t, Error(3))
      else Reply(t.Poke(a, t.table[k].opcode).(table := t.table[k := Bp(0, 0)]), OK)
    case Insert(a) =>
      if a == t.Reg(PC) then Reply(t, OK)
      else
        var (table, r) := SetSlots(t.table, a, Word(t.mem, a));
        if r != 0 then Reply(t.(table := table), Error(3)) else Reply(t.Poke(a, TRAP).(table := table), OK)
    case ReadMem(a, n) => Reply(t, HexOf(if AsInt(n) > 0 then t.mem[a..a + AsInt(n)] else []))
    case WriteMem(a, _, bytes) =>
      // hex2mem's result is the address after the last byte written; 0 counts as failure
      Reply(t.(mem := Splice(t.mem, a, bytes)), if a + |bytes| == 0 || a + |bytes| == MEMORY then Error(3) else OK)
    case SingleStep =>
      var a := Next(t.Reg(PC));
      var u := t.Poke(a, TRAP).(stepped := true, stepOpPtr := a, nextCode := Word(t.mem, a));
      var v := if t.Reg(PC) == breakinst then u.SetReg(PC, Next(t.Reg(PC))) else u;
      Resume(v, v.Reg(PC))
    case Continue(given, a) =>
      var u := if given then t.SetReg(PC, a) else if t.Reg(PC) == breakinst then t.SetReg(PC, Next(t.Reg(PC))) else t;
      Resume(u, u.Reg(PC))
    case Kill => Resume(t, 0)
    case Query(answer) => Reply(t, answer)
    case Silent => Reply(t, [])
    case Malformed(n) => Reply(t, Error(n))
  }

  /** 'M' stores its bytes in any case; it answers E03 exactly when the 32-bit address after the last one is 0. */
  lemma WriteAnswer(t: Target, a: u32, n: u32, bytes: seq<byte>, breakinst: u32, written: bool)
    requires t.Valid() && InRange(t, WriteMem(a, n, bytes))
    ensures var o := Exec(t, WriteMem(a, n, bytes), breakinst, written);
      && o.Reply? && o.target == t.(mem := Splice(t.mem, a, bytes)) && (o.text == OK || o.text == Error(3))
      && (o.text == Error(3) <==> (a + |bytes|) % MEMORY == 0)
  {
  }

  /** The word a stop restores lies within memory. */
  predicate StopInRange(t: Target, regs: seq<byte>) {
    && |regs| == REG_BYTES
    && if t.stepped then t.stepOpPtr + 4 <= MEMORY
       else var pc := Word(regs, 4 * PC); pc + 4 <= MEMORY || FindSlots(t.table, pc) == NOT_FOUND
  }

  /** The debugged program stops with these registers: the trap that stopped it is taken out of memory. */
  function Stop(t: Target, regs: seq<byte>): Target
    requires t.Valid() && StopInRange(t, regs)
  {
    var u := t.(regs := regs);
    if t.stepped then u.Poke(t.stepOpPtr, t.nextCode).(stepped := false)
    else
      var opcode := FindSlots(t.table, u.Reg(PC));
      if opcode != NOT_FOUND then u.Poke(u.Reg(PC), opcode) else u
  }

  /** The packet sent at a stop. */
  function StopReply(t: Target, regs: seq<byte>): seq<byte>
    requires |regs| == REG_BYTES
  {
    if t.stepped then S05 else StopText(regs)
  }

  function StopText(regs: seq<byte>): seq<byte>
    requires |regs| == REG_BYTES
  {
    ['T' as int, '0' as int, '5' as int] + RegValue(PC, regs) + [';' as int] + RegValue(SP, regs) + [';' as int]
  }

  /** `put_reg_value`: number and contents of a register. */
  function RegValue(n: nat, regs: seq<byte>): seq<byte>
    requires n < NUMREGS && |regs| == REG_BYTES
  {
    ByteHex(n) + [':' as int] + HexOf(regs[4 * n..4 * n + 4])
  }
}
