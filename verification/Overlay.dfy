/** Whole debug sessions: the stub's patches to the program's memory are always a known overlay over the memory
  * the program would have without the stub, and an empty breakpoint table leaves none of them behind.
  */
module Overlay {
  import opened Bytes
  import opened BreakpointTable
  import opened StubModel

  // ----- the overlay -----

  predicate Aligned(a: u32) {
    a % 4 == 0
  }

  lemma AlignedFits(a: u32)
    requires Aligned(a)
    ensures a + 4 <= MEMORY
  {
  }

  lemma AlignedApart(a: u32, b: u32)
    requires Aligned(a) && Aligned(b) && a != b
    ensures a + 4 <= b || b + 4 <= a
  {
  }

  /** A word of memory. */
  function WordAt(m: seq<byte>, a: u32): u32
    requires |m| == MEMORY
  {
    if a + 4 <= MEMORY then Word(m, a) else 0
  }

  lemma WordAtAfterWrite(m: seq<byte>, a: u32, w: u32, b: u32)
    requires |m| == MEMORY && Aligned(a) && Aligned(b)
    ensures a + 4 <= MEMORY && WordAt(WriteWord(m, a, w), b) == if a == b then w else WordAt(m, b)
  {
    AlignedFits(a);
    AlignedFits(b);
    if a != b {
      AlignedApart(a, b);
    }
    WordAfterWrite(m, a, w, b);
  }

  /** Memory `mem` differs from `orig` only in words of the table, which hold TRAP; each entry keeps the word it
    * stands for. */
  ghost predicate Covers(mem: seq<byte>, orig: seq<byte>, table: seq<Bp>) {
    && |mem| == |orig| == MEMORY && WellFormed(table)
    && (forall a: u32 :: a in Entries(table) ==> Aligned(a) && Entry(mem, orig, a, Entries(table)[a]))
    && forall a: u32 :: Aligned(a) && a !in Entries(table) ==> WordAt(mem, a) == WordAt(orig, a)
  }

  ghost predicate Entry(mem: seq<byte>, orig: seq<byte>, a: u32, opcode: u32)
    requires |mem| == |orig| == MEMORY
  {
    opcode == WordAt(orig, a) && (WordAt(mem, a) == TRAP || WordAt(mem, a) == opcode)
  }

  /** A word that differs from the original is a breakpoint holding TRAP. */
  lemma DifferenceIsTrap(mem: seq<byte>, orig: seq<byte>, table: seq<Bp>, a: u32)
    requires Covers(mem, orig, table) && Aligned(a) && WordAt(mem, a) != WordAt(orig, a)
    ensures a in Entries(table) && WordAt(mem, a) == TRAP && Entries(table)[a] == WordAt(orig, a)
  {
    assert a in Entries(table) ==> Entry(mem, orig, a, Entries(table)[a]);
  }

  /** With an empty table nothing of the overlay is left. */
  lemma EmptyTableClean(mem: seq<byte>, orig: seq<byte>, table: seq<Bp>)
    requires Covers(mem, orig, table) && Entries(table) == map[]
    ensures mem == orig
  {
    forall i | 0 <= i < MEMORY ensures mem[i] == orig[i] {
      var a: u32 := i - i % 4;
      assert Aligned(a);
      AlignedFits(a);
      assert WordAt(mem, a) == WordAt(orig, a);
      WordInjective(mem, a, orig, a);
      assert mem[a..a + 4][i % 4] == orig[a..a + 4][i % 4];
    }
  }

  // ----- patching one word -----

  /** Replacing the word of an entry by TRAP or by the original. */
  lemma PatchEntry(mem: seq<byte>, orig: seq<byte>, table: seq<Bp>, a: u32, w: u32)
    requires Covers(mem, orig, table) && a in Entries(table) && (w == TRAP || w == Entries(table)[a])
    ensures a + 4 <= MEMORY && Covers(WriteWord(mem, a, w), orig, table)
  {
    assert Aligned(a) && Entry(mem, orig, a, Entries(table)[a]);
    AlignedFits(a);
    var r := WriteWord(mem, a, w);
    hide WordAt, Aligned, Entries, WriteWord, WellFormed;
    forall b: u32 | b in Entries(table) ensures Aligned(b) && Entry(r, orig, b, Entries(table)[b]) {
      assert Entry(mem, orig, b, Entries(table)[b]);
      WordAtAfterWrite(mem, a, w, b);
    }
    forall b: u32 | Aligned(b) && b !in Entries(table) ensures WordAt(r, b) == WordAt(orig, b) {
      WordAtAfterWrite(mem, a, w, b);
    }
  }

  /** Adding an entry for an unpatched word and arming it. */
  lemma AddEntry(mem: seq<byte>, orig: seq<byte>, table: seq<Bp>, table': seq<Bp>, a: u32)
    requires Covers(mem, orig, table) && Aligned(a) && a !in Entries(table) && a + 4 <= MEMORY
    requires WellFormed(table') && Entries(table') == Entries(table)[a := WordAt(mem, a)]
    ensures Covers(WriteWord(mem, a, TRAP), orig, table')
  {
    var r := WriteWord(mem, a, TRAP);
    hide WordAt, Aligned, Entries, WriteWord, WellFormed;
    WordAtAfterWrite(mem, a, TRAP, a);
    forall b: u32 | b in Entries(table') ensures Aligned(b) && Entry(r, orig, b, Entries(table')[b]) {
      if b != a {
        assert Entry(mem, orig, b, Entries(table)[b]);
        WordAtAfterWrite(mem, a, TRAP, b);
      }
    }
    forall b: u32 | Aligned(b) && b !in Entries(table') ensures WordAt(r, b) == WordAt(orig, b) {
      WordAtAfterWrite(mem, a, TRAP, b);
    }
  }

  /** Dropping an entry after restoring its word. */
  lemma DropEntry(mem: seq<byte>, orig: seq<byte>, table: seq<Bp>, table': seq<Bp>, a: u32)
    requires Covers(mem, orig, table) && a in Entries(table)
    requires WellFormed(table') && Entries(table') == Entries(table) - {a}
    ensures a + 4 <= MEMORY && Covers(WriteWord(mem, a, Entries(table)[a]), orig, table')
  {
    var w := Entries(table)[a];
    PatchEntry(mem, orig, table, a, w);
    assert Entry(mem, orig, a, w);
    var r := WriteWord(mem, a, w);
    WordAtAfterWrite(mem, a, w, a);
    hide WordAt, Aligned, Entries, WriteWord, WellFormed;
    forall b: u32 | b in Entries(table') ensures Aligned(b) && Entry(r, orig, b, Entries(table')[b]) {
      assert b in Entries(table);
    }
    forall b: u32 | Aligned(b) && b !in Entries(table') ensures WordAt(r, b) == WordAt(orig, b) {
      assert b !in Entries(table) || b == a;
    }
  }

  // ----- writing a range -----

  predicate Clear(a: nat, n: nat, p: u32) {
    a + n <= p || p + 4 <= a
  }

  lemma SpliceWord(m: seq<byte>, a: nat, bs: seq<byte>, p: u32)
    requires |m| == MEMORY && a + |bs| <= MEMORY && p + 4 <= MEMORY && Clear(a, |bs|, p)
    ensures WordAt(Splice(m, a, bs), p) == WordAt(m, p)
  {
  }

  lemma SpliceBoth(m: seq<byte>, n: seq<byte>, a: nat, bs: seq<byte>, p: u32)
    requires |m| == |n| == MEMORY && a + |bs| <= MEMORY && p + 4 <= MEMORY && WordAt(m, p) == WordAt(n, p)
    ensures WordAt(Splice(m, a, bs), p) == WordAt(Splice(n, a, bs), p)
  {
    WordInjective(m, p, n, p);
    var r, q := Splice(m, a, bs), Splice(n, a, bs);
    forall k | p <= k < p + 4 ensures r[k] == q[k] {
      assert m[p..p + 4][k - p] == n[p..p + 4][k - p];
    }
  }

  /** A write that touches no breakpoint goes to the program as if it were unpatched. */
  lemma WriteRange(mem: seq<byte>, orig: seq<byte>, table: seq<Bp>, a: nat, bs: seq<byte>)
    requires Covers(mem, orig, table) && a + |bs| <= MEMORY
    requires forall p: u32 :: p in Entries(table) ==> Clear(a, |bs|, p)
    ensures Covers(Splice(mem, a, bs), Splice(orig, a, bs), table)
  {
    var m, o := Splice(mem, a, bs), Splice(orig, a, bs);
    hide WordAt, Aligned, Entries, Splice, WellFormed, Clear;
    forall b: u32 | b in Entries(table) ensures Aligned(b) && Entry(m, o, b, Entries(table)[b]) {
      assert Entry(mem, orig, b, Entries(table)[b]);
      AlignedFits(b);
      SpliceWord(mem, a, bs, b);
      SpliceWord(orig, a, bs, b);
    }
    forall b: u32 | Aligned(b) && b !in Entries(table) ensures WordAt(m, b) == WordAt(o, b) {
      AlignedFits(b);
      SpliceBoth(mem, orig, a, bs, b);
    }
  }

  // ----- sessions -----

  /** A debug session: the stub's state, and whether the program is halted in the command loop. */
  datatype Session = Session(t: Target, halted: bool)

  datatype Event =
    | Command(c: StubModel.Command, written: bool) // a command from the host
    | Disabled                                     // the loop finds debugging switched off
    | Stopped(regs: seq<byte>)                     // the running program hits a trap while it is on
    | Stores(a: u32, bytes: seq<byte>)             // the running program writes memory

  /** The range written touches no word of the table. */
  ghost predicate ClearOfTable(t: Target, a: u32, n: nat)
    requires WellFormed(t.table)
  {
    forall p: u32 :: p in Entries(t.table) ==> Clear(a, n, p)
  }

  /** Breakpoints are set at aligned nonzero addresses, instructions are aligned, the program does not stop at
    * address 0, and neither M nor the program writes a patched word. */
  ghost predicate Can(s: Session, e: Event)
    requires s.t.Valid()
  {
    WellFormed(s.t.table) &&
    match e
    case Command(c, _) =>
      s.halted && InRange(s.t, c) &&
      (match c
       case Insert(a) => Aligned(a) && a != 0
       case Remove(a) => a != 0
       case WriteMem(a, _, bytes) => ClearOfTable(s.t, a, |bytes|)
       case SingleStep => Aligned(Next(s.t.Reg(PC)))
       case _ => true)
    case Disabled => s.halted
    case Stopped(regs) =>
      && !s.halted && |regs| == REG_BYTES && (!s.t.stepped ==> Word(regs, 4 * PC) != 0)
    case Stores(a, bytes) =>
      && !s.halted && a + |bytes| <= MEMORY && ClearOfTable(s.t, a, |bytes|)
      && (s.t.stepped ==> Clear(a, |bytes|, s.t.stepOpPtr))
  }

  ghost function Step(s: Session, e: Event, breakinst: u32): (r: Session)
    requires s.t.Valid()
    ensures r.t.Valid()
  {
    match e
    case Command(c, written) =>
      if !InRange(s.t, c) then s
      else
        var o := Exec(s.t, c, breakinst, written);
        ExecValid(s.t, c, breakinst, written);
        Session(o.target, !o.Resume?)
    case Disabled => s.(halted := false)
    case Stopped(regs) =>
      if StopInRange(s.t, regs) then Session(Stop(s.t, regs), true) else s
    case Stores(a, bytes) =>
      if a + |bytes| <= MEMORY then s.(t := s.t.(mem := Splice(s.t.mem, a, bytes))) else s
  }

  lemma ExecValid(t: Target, c: StubModel.Command, breakinst: u32, written: bool)
    requires t.Valid() && InRange(t, c)
    ensures Exec(t, c, breakinst, written).target.Valid()
  {
    hide Slot, LastFree, Word, WordBytes, Swap, Next, AsInt;
  }

  /** What an event writes to the memory of the unpatched program. */
  function Unpatched(orig: seq<byte>, e: Event): (r: seq<byte>)
    ensures |r| == |orig|
  {
    match e
    case Command(WriteMem(a, _, bytes), _) => if a + |bytes| <= |orig| then Splice(orig, a, bytes) else orig
    case Stores(a, bytes) => if a + |bytes| <= |orig| then Splice(orig, a, bytes) else orig
    case _ => orig
  }

  // ----- the session invariant -----

  /** Memory with the trap of a pending single step taken out. */
  ghost function Settled(t: Target): seq<byte>
    requires t.Valid()
  {
    if t.stepped && t.stepOpPtr + 4 <= MEMORY then WriteWord(t.mem, t.stepOpPtr, t.nextCode) else t.mem
  }

  /** The overlay holds but for the word of a pending single step, which holds TRAP; while the program is halted
    * no step is pending. */
  ghost predicate Sound(s: Session, orig: seq<byte>) {
    && s.t.Valid() && Covers(Settled(s.t), orig, s.t.table)
    && (s.halted ==> !s.t.stepped)
    && (s.t.stepped ==> Aligned(s.t.stepOpPtr) && WordAt(s.t.mem, s.t.stepOpPtr) == TRAP)
  }

  // ----- each event keeps it -----

  lemma InsertSound(t: Target, orig: seq<byte>, a: u32, breakinst: u32, written: bool)
    requires Sound(Session(t, true), orig) && Aligned(a) && a != 0 && InRange(t, Insert(a))
    ensures Sound(Session(Exec(t, Insert(a), breakinst, written).target, true), orig)
  {
    hide Exec, WordAt, Aligned, Entries, WriteWord, WellFormed, Word, SetSlots;
    AlignedFits(a);
    InsertOutcome(t, a, breakinst, written);
    var w := Word(t.mem, a);
    WordIsAt(t.mem, a);
    SetIsInsert(t.table, a, w);
    var (table, r) := SetSlots(t.table, a, w);
    if a in Entries(t.table) {
      SameCovers(t.mem, orig, t.table, table);
      PatchEntry(t.mem, orig, table, a, TRAP);
    } else if r == 0 {
      AddEntry(t.mem, orig, t.table, table, a);
    } else {
      SameCovers(t.mem, orig, t.table, table);
    }
  }

  lemma InsertOutcome(t: Target, a: u32, breakinst: u32, written: bool)
    requires t.Valid() && a + 4 <= MEMORY
    ensures var (table, r) := SetSlots(t.table, a, Word(t.mem, a));
      Exec(t, Insert(a), breakinst, written).target
        == if a == t.Reg(PC) then t
           else if r != 0 then t.(table := table)
           else t.(mem := WriteWord(t.mem, a, TRAP), table := table)
  {
    hide Word, WriteWord, SetSlots;
  }

  lemma WordIsAt(m: seq<byte>, a: u32)
    requires |m| == MEMORY && a + 4 <= MEMORY
    ensures WordAt(m, a) == Word(m, a)
  {
  }

  lemma SameCovers(mem: seq<byte>, orig: seq<byte>, table: seq<Bp>, table': seq<Bp>)
    requires Covers(mem, orig, table) && WellFormed(table') && Entries(table') == Entries(table)
    ensures Covers(mem, orig, table')
  {
    hide WordAt, Aligned, Entries, WellFormed;
  }

  lemma RemoveSound(t: Target, orig: seq<byte>, a: u32, breakinst: u32, written: bool)
    requires Sound(Session(t, true), orig) && a != 0 && InRange(t, Remove(a))
    ensures Sound(Session(Exec(t, Remove(a), breakinst, written).target, true), orig)
  {
    hide WordAt, Aligned, Entries, WriteWord, WellFormed, Slot;
    DeleteIsRemove(t.table, a);
    var k := Slot(t.table, a, 0);
    if k < |t.table| {
      DropEntry(t.mem, orig, t.table, t.table[k := Bp(0, 0)], a);
    }
  }

  lemma WriteSound(t: Target, orig: seq<byte>, a: u32, n: u32, bytes: seq<byte>, breakinst: u32, written: bool)
    requires Sound(Session(t, true), orig) && InRange(t, WriteMem(a, n, bytes)) && ClearOfTable(t, a, |bytes|)
    ensures Sound(Session(Exec(t, WriteMem(a, n, bytes), breakinst, written).target, true), Splice(orig, a, bytes))
  {
    WriteRange(t.mem, orig, t.table, a, bytes);
  }

  /** Writing a word and then the word it replaced changes nothing. */
  lemma WriteBack(m: seq<byte>, a: nat, w: u32)
    requires a + 4 <= |m|
    ensures WriteWord(WriteWord(m, a, w), a, Word(m, a)) == m
  {
    hide WordBytes, Word;
    BytesOfWord(m, a);
  }

  lemma SingleStepSound(t: Target, orig: seq<byte>, breakinst: u32, written: bool)
    requires Sound(Session(t, true), orig) && InRange(t, SingleStep) && Aligned(Next(t.Reg(PC)))
    ensures Sound(Session(Exec(t, SingleStep, breakinst, written).target, false), orig)
  {
    hide WordAt, Aligned, WriteWord, Covers, Word, Next;
    var a := Next(t.Reg(PC));
    WriteBack(t.mem, a, TRAP);
    WordAtAfterWrite(t.mem, a, TRAP, a);
  }

  lemma StopSound(t: Target, orig: seq<byte>, regs: seq<byte>)
    requires Sound(Session(t, false), orig) && |regs| == REG_BYTES && (!t.stepped ==> Word(regs, 4 * PC) != 0)
    ensures StopInRange(t, regs)
    ensures Sound(Session(Stop(t, regs), true), orig)
  {
    if t.stepped {
      AlignedFits(t.stepOpPtr);
      hide WordAt, Aligned, WriteWord, Covers, Word;
    } else {
      var pc := Word(regs, 4 * PC);
      hide WordAt, Aligned, WriteWord, Entries, WellFormed, FindSlots, Word;
      FindIsLookup(t.table, pc);
      if FindSlots(t.table, pc) != NOT_FOUND {
        PatchEntry(t.mem, orig, t.table, pc, FindSlots(t.table, pc));
      }
    }
  }

  /** A write beside a word commutes with a write of the word. */
  lemma WritesCommute(m: seq<byte>, p: u32, w: u32, a: nat, bs: seq<byte>)
    requires |m| == MEMORY && p + 4 <= MEMORY && a + |bs| <= MEMORY && Clear(a, |bs|, p)
    ensures WriteWord(Splice(m, a, bs), p, w) == Splice(WriteWord(m, p, w), a, bs)
  {
    hide WordBytes;
  }

  lemma StoresSound(t: Target, orig: seq<byte>, a: u32, bytes: seq<byte>)
    requires Sound(Session(t, false), orig) && a + |bytes| <= MEMORY && ClearOfTable(t, a, |bytes|)
    requires t.stepped ==> Clear(a, |bytes|, t.stepOpPtr)
    ensures Sound(Session(t.(mem := Splice(t.mem, a, bytes)), false), Splice(orig, a, bytes))
  {
    WriteRange(Settled(t), orig, t.table, a, bytes);
    if t.stepped {
      AlignedFits(t.stepOpPtr);
      SpliceWord(t.mem, a, bytes, t.stepOpPtr);
      WritesCommute(t.mem, t.stepOpPtr, t.nextCode, a, bytes);
      hide WordAt, Aligned, WriteWord, Covers, Word, Splice;
    }
  }

  /** Every other command leaves memory and table alone. */
  lemma QuietSound(t: Target, orig: seq<byte>, c: StubModel.Command, breakinst: u32, written: bool)
    requires Sound(Session(t, true), orig) && InRange(t, c)
    requires !c.Insert? && !c.Remove? && !c.WriteMem? && !c.SingleStep?
    ensures var o := Exec(t, c, breakinst, written); Sound(Session(o.target, !o.Resume?), orig)
  {
    hide WordAt, Aligned, Covers, Word, Next, Swap, AsInt;
    ExecValid(t, c, breakinst, written);
  }

  lemma Resumes(t: Target, c: StubModel.Command, breakinst: u32, written: bool)
    requires t.Valid() && InRange(t, c)
    ensures Exec(t, c, breakinst, written).Resume? <==> c.SingleStep? || c.Continue? || c.Kill?
  {
    hide Word, Next, Swap, AsInt, Slot, SetSlots;
  }

  /** Every event of a session keeps the overlay, over the memory the unpatched program would have. */
  lemma StepSound(s: Session, orig: seq<byte>, e: Event, breakinst: u32)
    requires Sound(s, orig) && Can(s, e)
    ensures Sound(Step(s, e, breakinst), Unpatched(orig, e))
  {
    hide Exec, Stop, Splice, Covers, Settled, ClearOfTable, Aligned, Word, Next;
    assert |orig| == MEMORY by { OrigLength(s, orig); }
    match e
    case Command(c, written) =>
      Resumes(s.t, c, breakinst, written);
      match c {
        case Insert(a) => InsertSound(s.t, orig, a, breakinst, written);
        case Remove(a) => RemoveSound(s.t, orig, a, breakinst, written);
        case WriteMem(a, n, bytes) => WriteSound(s.t, orig, a, n, bytes, breakinst, written);
        case SingleStep => SingleStepSound(s.t, orig, breakinst, written);
        case _ => QuietSound(s.t, orig, c, breakinst, written);
      }
    case Disabled =>
    case Stopped(regs) => StopSound(s.t, orig, regs);
    case Stores(a, bytes) => StoresSound(s.t, orig, a, bytes);
  }

  lemma OrigLength(s: Session, orig: seq<byte>)
    requires Sound(s, orig)
    ensures |orig| == MEMORY
  {
  }

  // ----- whole sessions -----

  ghost function Run(s: Session, es: seq<Event>, breakinst: u32): (r: Session)
    requires s.t.Valid()
    ensures r.t.Valid()
    decreases |es|
  {
    if es == [] then s else Run(Step(s, es[0], breakinst), es[1..], breakinst)
  }

  ghost predicate CanAll(s: Session, es: seq<Event>, breakinst: u32)
    requires s.t.Valid()
    decreases |es|
  {
    es == [] || (Can(s, es[0]) && CanAll(Step(s, es[0], breakinst), es[1..], breakinst))
  }

  /** The memory the program would have after these events had nothing ever been patched. */
  function UnpatchedAll(orig: seq<byte>, es: seq<Event>): seq<byte>
    decreases |es|
  {
    if es == [] then orig else UnpatchedAll(Unpatched(orig, es[0]), es[1..])
  }

  /** The stub before the debugged program first stops. */
  ghost predicate Fresh(s: Session) {
    && s.t.Valid() && !s.halted && !s.t.stepped
    && forall i :: 0 <= i < NUM_BP ==> Free(s.t.table[i])
  }

  lemma FreshSound(s: Session)
    requires Fresh(s)
    ensures Sound(s, s.t.mem)
  {
    hide WordAt, Aligned, Entries, WellFormed;
    EmptyTable(s.t.table);
  }

  lemma {:induction false} RunSound(s: Session, orig: seq<byte>, es: seq<Event>, breakinst: u32)
    requires Sound(s, orig) && CanAll(s, es, breakinst)
    ensures Sound(Run(s, es, breakinst), UnpatchedAll(orig, es))
    decreases |es|
  {
    hide Sound, Can, Step, Unpatched;
    SoundValid(s, orig);
    if es != [] {
      StepSound(s, orig, es[0], breakinst);
      RunSound(Step(s, es[0], breakinst), Unpatched(orig, es[0]), es[1..], breakinst);
    }
  }

  lemma SoundValid(s: Session, orig: seq<byte>)
    requires Sound(s, orig)
    ensures s.t.Valid()
  {
  }

  /** At every command-loop state of every session, a word differs from the unpatched program only if it is in the
    * table and holds TRAP, and the table keeps that word's unpatched contents. */
  lemma HaltedDifference(s: Session, es: seq<Event>, breakinst: u32, a: u32)
    requires Fresh(s) && CanAll(s, es, breakinst) && Aligned(a)
    ensures var t, orig := Run(s, es, breakinst).t, UnpatchedAll(s.t.mem, es);
      && |orig| == MEMORY && WellFormed(t.table)
      && (a in Entries(t.table) ==> Entries(t.table)[a] == WordAt(orig, a))
      && (Run(s, es, breakinst).halted && WordAt(t.mem, a) != WordAt(orig, a) ==>
            a in Entries(t.table) && WordAt(t.mem, a) == TRAP)
  {
    FreshSound(s);
    RunSound(s, s.t.mem, es, breakinst);
    var r, orig := Run(s, es, breakinst), UnpatchedAll(s.t.mem, es);
    hide Run, UnpatchedAll, CanAll, Fresh, WordAt, Aligned, Entries, WellFormed;
    assert Covers(Settled(r.t), orig, r.t.table);
    if a in Entries(r.t.table) {
      assert Entry(Settled(r.t), orig, a, Entries(r.t.table)[a]);
    }
    if r.halted && WordAt(r.t.mem, a) != WordAt(orig, a) {
      DifferenceIsTrap(r.t.mem, orig, r.t.table, a);
    }
  }

  /** While the program runs, only the word of a pending single step may differ besides. */
  lemma RunningDifference(s: Session, es: seq<Event>, breakinst: u32, a: u32)
    requires Fresh(s) && CanAll(s, es, breakinst) && Aligned(a)
    ensures var t, orig := Run(s, es, breakinst).t, UnpatchedAll(s.t.mem, es);
      && |orig| == MEMORY && WellFormed(t.table)
      && (WordAt(t.mem, a) != WordAt(orig, a) ==>
            WordAt(t.mem, a) == TRAP && (a in Entries(t.table) || (t.stepped && a == t.stepOpPtr)))
  {
    FreshSound(s);
    RunSound(s, s.t.mem, es, breakinst);
    var r, orig := Run(s, es, breakinst), UnpatchedAll(s.t.mem, es);
    hide Run, UnpatchedAll, CanAll, Fresh, WordAt, Aligned, Entries, WellFormed, WriteWord;
    var m := Settled(r.t);
    if r.t.stepped {
      AlignedFits(r.t.stepOpPtr);
      WordAtAfterWrite(r.t.mem, r.t.stepOpPtr, r.t.nextCode, a);
    }
    if WordAt(r.t.mem, a) != WordAt(orig, a) && !(r.t.stepped && a == r.t.stepOpPtr) {
      DifferenceIsTrap(m, orig, r.t.table, a);
    }
  }

  /** A stop with an empty table: memory is the initial program plus the writes of M and of the program itself. */
  lemma CleanAfterRemoval(s: Session, es: seq<Event>, breakinst: u32)
    requires Fresh(s) && CanAll(s, es, breakinst)
    requires var r := Run(s, es, breakinst); r.halted && WellFormed(r.t.table) && Entries(r.t.table) == map[]
    ensures Run(s, es, breakinst).t.mem == UnpatchedAll(s.t.mem, es)
  {
    FreshSound(s);
    RunSound(s, s.t.mem, es, breakinst);
    var r, orig := Run(s, es, breakinst), UnpatchedAll(s.t.mem, es);
    hide Run, UnpatchedAll, CanAll, Fresh, WordAt, Aligned, Entries, WellFormed;
    EmptyTableClean(r.t.mem, orig, r.t.table);
  }

  // ----- single commands -----

  /** Memory is as before but for the word at `a`. */
  ghost predicate OnlyWord(m: seq<byte>, n: seq<byte>, a: nat) {
    |n| == |m| && forall i :: 0 <= i < |m| && !(a <= i < a + 4) ==> n[i] == m[i]
  }

  lemma WrittenWord(m: seq<byte>, a: nat, w: u32)
    requires a + 4 <= |m|
    ensures OnlyWord(m, WriteWord(m, a, w), a) && Word(WriteWord(m, a, w), a) == w
  {
    hide Word, WordBytes;
    WordAfterWrite(m, a, w, a);
  }

  /** 'Z' away from the current PC is refused exactly when the address is new and the table is full; otherwise the
    * address is in the table with its unpatched word, armed, and nothing else changes. At the current PC it is
    * answered OK and changes nothing. */
  lemma InsertArms(s: Session, orig: seq<byte>, a: u32, breakinst: u32, written: bool)
    requires Sound(s, orig) && Can(s, Command(Insert(a), written))
    ensures var o, m := Exec(s.t, Insert(a), breakinst, written), Entries(s.t.table);
      && o.Reply? && (o.text == Error(3) <==> a != s.t.Reg(PC) && a !in m && |m| == NUM_BP)
      && (o.text == OK || o.text == Error(3))
      && (a == s.t.Reg(PC) || o.text == Error(3) ==> o.target == s.t)
      && (a != s.t.Reg(PC) && o.text == OK ==>
            && WellFormed(o.target.table) && Entries(o.target.table) == m[a := WordAt(orig, a)]
            && o.target.Valid() && WordAt(o.target.mem, a) == TRAP && OnlyWord(s.t.mem, o.target.mem, a))
  {
    hide WordAt, Aligned, Entries, WriteWord, WellFormed, Word, SetSlots, Settled, ClearOfTable, Covers;
    AlignedFits(a);
    SetIsInsert(s.t.table, a, Word(s.t.mem, a));
    SetFailsUnchanged(s.t.table, a, Word(s.t.mem, a));
    WordAtAfterWrite(s.t.mem, a, TRAP, a);
    WrittenWord(s.t.mem, a, TRAP);
    UnpatchedWord(s, orig, a);
    WordIsAt(s.t.mem, a);
  }

  /** The table's word for an entry, and memory's for any other address, is the unpatched one. */
  lemma UnpatchedWord(s: Session, orig: seq<byte>, a: u32)
    requires Sound(s, orig) && s.halted && Aligned(a)
    ensures |orig| == MEMORY
    ensures WordAt(orig, a) == if a in Entries(s.t.table) then Entries(s.t.table)[a] else WordAt(s.t.mem, a)
  {
    hide WordAt, Aligned, Entries, WellFormed;
    assert Covers(s.t.mem, orig, s.t.table);
    if a in Entries(s.t.table) {
      assert Entry(s.t.mem, orig, a, Entries(s.t.table)[a]);
    }
  }

  /** 'z' of an address in the table takes that entry out and puts the unpatched word back, and nothing else changes;
    * any other address is refused and nothing changes. */
  lemma RemoveDisarms(s: Session, orig: seq<byte>, a: u32, breakinst: u32, written: bool)
    requires Sound(s, orig) && Can(s, Command(Remove(a), written))
    ensures var o, m := Exec(s.t, Remove(a), breakinst, written), Entries(s.t.table);
      && o.Reply?
      && if a in m
         then
           && o.text == OK && WellFormed(o.target.table) && Entries(o.target.table) == m - {a}
           && o.target.Valid() && |orig| == MEMORY && WordAt(o.target.mem, a) == WordAt(orig, a)
           && OnlyWord(s.t.mem, o.target.mem, a)
         else o.text == Error(3) && o.target == s.t
  {
    hide WordAt, Aligned, Entries, WriteWord, WellFormed, Word, Slot, Settled, Covers;
    DeleteIsRemove(s.t.table, a);
    if a in Entries(s.t.table) {
      EntryAligned(s, orig, a);
      AlignedFits(a);
      OrigLength(s, orig);
      WordAtAfterWrite(s.t.mem, a, WordAt(orig, a), a);
      WrittenWord(s.t.mem, a, WordAt(orig, a));
    }
  }

  lemma SetFailsUnchanged(t: seq<Bp>, pc: u32, opcode: u32)
    ensures SetSlots(t, pc, opcode).1 != 0 ==> SetSlots(t, pc, opcode).0 == t
  {
  }

  /** A word M writes over a breakpoint is lost when the breakpoint is removed, unless it is the word the table
    * keeps: the reason M is kept off the table's words. */
  lemma WriteOverBreakpointLost(s: Session, orig: seq<byte>, a: u32, w: u32, breakinst: u32, written: bool)
    requires Sound(s, orig) && s.halted && a in Entries(s.t.table)
    requires InRange(s.t, WriteMem(a, 4, WordBytes(w))) && InRange(s.t, Remove(a))
    ensures var u := Exec(s.t, WriteMem(a, 4, WordBytes(w)), breakinst, written).target;
      && u.Valid() && WordAt(u.mem, a) == w
      && (WordAt(Exec(u, Remove(a), breakinst, written).target.mem, a) == w <==> w == WordAt(orig, a))
  {
    EntryAligned(s, orig, a);
    WordAtAfterWrite(s.t.mem, a, w, a);
    var u := Exec(s.t, WriteMem(a, 4, WordBytes(w)), breakinst, written).target;
    DeleteIsRemove(s.t.table, a);
    WordAtAfterWrite(u.mem, a, Entries(s.t.table)[a], a);
    hide WordAt, Entries, WellFormed, Word, Slot, Settled, Covers, WordBytes, Sound, Aligned;
  }

  lemma EntryAligned(s: Session, orig: seq<byte>, a: u32)
    requires Sound(s, orig) && a in Entries(s.t.table)
    ensures a != 0 && Aligned(a) && Entries(s.t.table)[a] == WordAt(orig, a)
  {
    assert Entry(Settled(s.t), orig, a, Entries(s.t.table)[a]);
  }

  /** A single step undoes itself at the next stop, wherever that is and whatever the trap replaced. */
  lemma StepThenStop(t: Target, regs: seq<byte>, breakinst: u32, written: bool)
    requires t.Valid() && InRange(t, SingleStep) && |regs| == REG_BYTES
    ensures var u := Exec(t, SingleStep, breakinst, written).target;
      && u.Valid() && StopInRange(u, regs)
      && Stop(u, regs) == t.(regs := regs, stepped := false, stepOpPtr := u.stepOpPtr, nextCode := u.nextCode)
      && StopReply(u, regs) == S05
  {
    hide WriteWord, Word, Next;
    WriteBack(t.mem, Next(t.Reg(PC)), TRAP);
  }

  /** A stop at a breakpoint takes its trap out and keeps the entry, unless the unpatched word is the value that
    * marks an address not found. */
  lemma HitRestores(s: Session, orig: seq<byte>, regs: seq<byte>)
    requires Sound(s, orig) && Can(s, Stopped(regs)) && !s.t.stepped && Word(regs, 4 * PC) in Entries(s.t.table)
    ensures StopInRange(s.t, regs)
    ensures var t, a := Stop(s.t, regs), Word(regs, 4 * PC);
      && t.table == s.t.table && t.Valid() && OnlyWord(s.t.mem, t.mem, a)
      && (WordAt(t.mem, a) == WordAt(orig, a)
          <==> WordAt(orig, a) != NOT_FOUND || WordAt(s.t.mem, a) == WordAt(orig, a))
  {
    hide WordAt, Entries, WellFormed, Word, FindSlots, Settled, Covers, Aligned, WriteWord;
    var a := Word(regs, 4 * PC);
    EntryAligned(s, orig, a);
    FindIsLookup(s.t.table, a);
    if FindSlots(s.t.table, a) != NOT_FOUND {
      WordAtAfterWrite(s.t.mem, a, FindSlots(s.t.table, a), a);
      WrittenWord(s.t.mem, a, FindSlots(s.t.table, a));
    }
  }

  /** A stop anywhere else, with no step pending, only takes over the registers. */
  lemma StopElsewhere(t: Target, regs: seq<byte>)
    requires t.Valid() && WellFormed(t.table) && !t.stepped && |regs| == REG_BYTES
    requires Word(regs, 4 * PC) != 0 && Word(regs, 4 * PC) !in Entries(t.table)
    ensures StopInRange(t, regs) && Stop(t, regs) == t.(regs := regs)
  {
    hide Entries, WellFormed, Word, FindSlots;
    FindIsLookup(t.table, Word(regs, 4 * PC));
  }

  /** At address 0 the overlay breaks: a stop there, or 'z' of it, stores 0 there exactly when the table is not
    * full, since a free slot passes for an entry of address 0. */
  lemma AddressZero(t: Target, regs: seq<byte>, breakinst: u32, written: bool)
    requires t.Valid() && WellFormed(t.table) && !t.stepped && |regs| == REG_BYTES && Word(regs, 4 * PC) == 0
    ensures InRange(t, Remove(0))
    ensures var room := |Entries(t.table)| < NUM_BP;
      && Stop(t, regs).mem == (if room then WriteWord(t.mem, 0, 0) else t.mem)
      && Exec(t, Remove(0), breakinst, written)
         == if room then Reply(t.Poke(0, 0), OK) else Reply(t, Error(3))
  {
    hide Entries, WellFormed, Word, WriteWord;
    FindAtZero(t.table);
    ClearFree(t.table);
  }

  lemma ClearFree(t: seq<Bp>)
    requires WellFormed(t)
    ensures var k := Slot(t, 0, 0); k < |t| ==> t[k] == Bp(0, 0) && t[k := Bp(0, 0)] == t
  {
  }
}
