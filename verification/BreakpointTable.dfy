/** The stub's table of software breakpoints: `set_bp`, `del_bp` and `find_bp` over NUM_BP slots. */
module BreakpointTable {
  import opened Bytes

  const NUM_BP := 50
  const NOT_FOUND: u32 := 0xFFFFFFFF

  datatype Bp = Bp(opcode: u32, pc: u32)

  predicate Free(b: Bp) {
    b.opcode == 0 && b.pc == 0
  }

  // ----- slots -----

  /** The first slot from `i` on with the given address, or the number of slots. */
  function Slot(t: seq<Bp>, pc: u32, i: nat): (k: nat)
    requires i <= |t|
    ensures i <= k <= |t| && (k < |t| ==> t[k].pc == pc)
    ensures forall j :: i <= j < k ==> t[j].pc != pc
    decreases |t| - i
  {
    if i == |t| || t[i].pc == pc then i else Slot(t, pc, i + 1)
  }

  /** The last free slot below `n`, or the number of slots. */
  function LastFree(t: seq<Bp>, n: nat): (k: nat)
    requires n <= |t|
    ensures k < n || k == |t|
    ensures k < |t| ==> Free(t[k])
    ensures forall j :: 0 <= j < n && Free(t[j]) ==> j <= k < |t|
  {
    if n == 0 then |t| else if Free(t[n - 1]) then n - 1 else LastFree(t, n - 1)
  }

  predicate Holds(t: seq<Bp>, pc: u32) {
    exists k :: 0 <= k < |t| && t[k].pc == pc && !Free(t[k])
  }

  /** The table after `set_bp`, and its result. */
  function SetSlots(t: seq<Bp>, pc: u32, opcode: u32): (seq<Bp>, int) {
    var k := LastFree(t, |t|);
    if Holds(t, pc) then (t, 0)
    else if k < |t| then (t[k := Bp(opcode, pc)], 0)
    else (t, -1)
  }

  function FindSlots(t: seq<Bp>, pc: u32): u32 {
    var k := Slot(t, pc, 0);
    if k < |t| then t[k].opcode else NOT_FOUND
  }

  method SetBp(breakpoints: array<Bp>, pc: u32, opcode: u32) returns (r: int)
    modifies breakpoints
    ensures (breakpoints[..], r) == SetSlots(old(breakpoints[..]), pc, opcode)
  {
    ghost var t := breakpoints[..];
    var slot := breakpoints.Length;
    for i := 0 to breakpoints.Length
      invariant breakpoints[..] == t && slot == LastFree(t, i)
      invariant forall k :: 0 <= k < i ==> Free(t[k]) || t[k].pc != pc
    {
      if breakpoints[i].opcode == 0 && breakpoints[i].pc == 0 {
        slot := i;
      } else if breakpoints[i].pc == pc {
        assert t[i].pc == pc && !Free(t[i]);
        return 0;
      }
    }
    r := -1;
    if slot < breakpoints.Length {
      breakpoints[slot] := Bp(opcode, pc);
      r := 0;
    }
  }

  method FindBp(breakpoints: array<Bp>, pc: u32) returns (opcode: u32)
    ensures opcode == FindSlots(breakpoints[..], pc)
  {
    for i := 0 to breakpoints.Length
      invariant Slot(breakpoints[..], pc, 0) == Slot(breakpoints[..], pc, i)
    {
      if pc == breakpoints[i].pc {
        return breakpoints[i].opcode;
      }
    }
    opcode := NOT_FOUND;
  }

  /** `del_bp` up to its memory write: the slot is cleared and its opcode handed back. */
  method DelBp(breakpoints: array<Bp>, pc: u32) returns (r: int, opcode: u32)
    modifies breakpoints
    ensures var t := old(breakpoints[..]); var k := Slot(t, pc, 0);
      if k < |t| then r == 0 && opcode == t[k].opcode && breakpoints[..] == t[k := Bp(0, 0)]
      else r == -1 && breakpoints[..] == t
  {
    r, opcode := -1, 0;
    for i := 0 to breakpoints.Length
      invariant breakpoints[..] == old(breakpoints[..])
      invariant Slot(breakpoints[..], pc, 0) == Slot(breakpoints[..], pc, i)
    {
      if pc == breakpoints[i].pc {
        opcode := breakpoints[i].opcode;
        breakpoints[i] := Bp(0, 0);
        return 0, opcode;
      }
    }
  }

  // ----- the table as a map -----

  /** No two used slots share an address, and address 0 marks free slots only. */
  ghost predicate WellFormed(t: seq<Bp>) {
    && (forall i :: 0 <= i < |t| && t[i].pc == 0 ==> t[i].opcode == 0)
    && forall i, j :: 0 <= i < |t| && 0 <= j < |t| && t[i].pc == t[j].pc != 0 ==> i == j
  }

  ghost function Entries(t: seq<Bp>): map<u32, u32>
    requires WellFormed(t)
  {
    map i | 0 <= i < |t| && t[i].pc != 0 :: t[i].pc := t[i].opcode
  }

  lemma EntryAt(t: seq<Bp>, i: nat)
    requires WellFormed(t) && i < |t| && t[i].pc != 0
    ensures t[i].pc in Entries(t) && Entries(t)[t[i].pc] == t[i].opcode
  {
  }

  lemma EntriesSnoc(t: seq<Bp>)
    requires WellFormed(t) && t != []
    ensures var n := |t| - 1;
      && WellFormed(t[..n])
      && if t[n].pc == 0 then Entries(t) == Entries(t[..n])
         else t[n].pc !in Entries(t[..n]) && Entries(t) == Entries(t[..n])[t[n].pc := t[n].opcode]
  {
    var n := |t| - 1;
    var init := t[..n];
    assert WellFormed(init);
    if t[n].pc != 0 {
      EntryAt(t, n);
      LastIsNew(t);
    }
    forall a: u32 ensures a in Entries(t) <==> a in Entries(init) || (a == t[n].pc && a != 0)
      ensures a in Entries(init) ==> a in Entries(t) && Entries(t)[a] == Entries(init)[a]
    {
      EntryOfInit(t, a);
    }
    hide Entries, WellFormed;
  }

  lemma LastIsNew(t: seq<Bp>)
    requires WellFormed(t) && t != [] && t[|t| - 1].pc != 0 && WellFormed(t[..|t| - 1])
    ensures t[|t| - 1].pc !in Entries(t[..|t| - 1])
  {
    var n := |t| - 1;
    assert forall i :: 0 <= i < n ==> t[..n][i].pc != t[n].pc;
  }

  lemma SlotOf(t: seq<Bp>, a: u32) returns (i: nat)
    requires WellFormed(t) && a in Entries(t)
    ensures i < |t| && t[i].pc == a != 0 && Entries(t)[a] == t[i].opcode
  {
    i :| 0 <= i < |t| && t[i].pc == a;
    EntryAt(t, i);
  }

  lemma EntryOfInit(t: seq<Bp>, a: u32)
    requires WellFormed(t) && t != [] && WellFormed(t[..|t| - 1])
    ensures var n, init := |t| - 1, t[..|t| - 1];
      && (a in Entries(t) <==> a in Entries(init) || (a == t[n].pc && a != 0))
      && (a in Entries(init) ==> a in Entries(t) && Entries(t)[a] == Entries(init)[a])
  {
    var init := t[..|t| - 1];
    hide Entries, WellFormed;
    if a in Entries(t) {
      var i := SlotOf(t, a);
      if i < |t| - 1 {
        EntryAt(init, i);
      }
    }
    if a in Entries(init) {
      var i := SlotOf(init, a);
      EntryAt(t, i);
    }
    if a == t[|t| - 1].pc != 0 {
      EntryAt(t, |t| - 1);
    }
  }

  /** Every slot is used. */
  ghost predicate NoneFree(t: seq<Bp>) {
    forall i :: 0 <= i < |t| ==> !Free(t[i])
  }

  lemma NoneFreeSnoc(t: seq<Bp>)
    requires t != []
    ensures NoneFree(t) <==> NoneFree(t[..|t| - 1]) && !Free(t[|t| - 1])
  {
  }

  lemma {:induction false} EntriesSize(t: seq<Bp>)
    requires WellFormed(t)
    ensures |Entries(t)| <= |t|
    ensures |Entries(t)| == |t| <==> NoneFree(t)
    decreases |t|
  {
    if t == [] {
      assert Entries(t) == map[];
    } else {
      var n := |t| - 1;
      assert t[n].pc == 0 ==> Free(t[n]);
      EntriesSnoc(t);
      NoneFreeSnoc(t);
      EntriesSize(t[..n]);
      hide Entries, WellFormed, NoneFree;
    }
  }

  /** `set_bp` inserts into a map of capacity |t|, keeping the opcode of an address it already holds; it fails
    * exactly when the address is new and the table is full. */
  lemma SetIsInsert(t: seq<Bp>, pc: u32, opcode: u32)
    requires WellFormed(t) && pc != 0
    ensures var m, (t', r) := Entries(t), SetSlots(t, pc, opcode);
      && WellFormed(t') && |t'| == |t|
      && (r == 0 || r == -1) && (r == -1 <==> pc !in m && |m| == |t|)
      && Entries(t') == if pc in m || r == -1 then m else m[pc := opcode]
  {
    EntriesSize(t);
    var m, k := Entries(t), LastFree(t, |t|);
    assert Holds(t, pc) <==> pc in m;
    if pc !in m && k < |t| {
      var t' := t[k := Bp(opcode, pc)];
      assert WellFormed(t');
      InsertEntry(t, k, pc, opcode);
    }
  }

  lemma InsertEntry(t: seq<Bp>, k: nat, pc: u32, opcode: u32)
    requires WellFormed(t) && k < |t| && Free(t[k]) && pc != 0 && pc !in Entries(t)
    requires WellFormed(t[k := Bp(opcode, pc)])
    ensures Entries(t[k := Bp(opcode, pc)]) == Entries(t)[pc := opcode]
  {
    var t' := t[k := Bp(opcode, pc)];
    var l, r := Entries(t'), Entries(t)[pc := opcode];
    hide Entries, WellFormed;
    forall a: u32 | a in r ensures a in l && l[a] == r[a] {
      if a == pc {
        EntryAt(t', k);
      } else {
        var i := SlotOf(t, a);
        EntryAt(t', i);
      }
    }
    forall a: u32 | a in l ensures a in r {
      var i := SlotOf(t', a);
      if i != k { EntryAt(t, i); }
    }
  }

  /** `del_bp` removes an address and fails exactly when the table does not hold it. */
  lemma DeleteIsRemove(t: seq<Bp>, pc: u32)
    requires WellFormed(t) && pc != 0
    ensures var m, k := Entries(t), Slot(t, pc, 0);
      && (k < |t| <==> pc in m)
      && (k < |t| ==> m[pc] == t[k].opcode && WellFormed(t[k := Bp(0, 0)]) && Entries(t[k := Bp(0, 0)]) == m - {pc})
  {
    var m, k := Entries(t), Slot(t, pc, 0);
    if k < |t| {
      EntryAt(t, k);
      assert WellFormed(t[k := Bp(0, 0)]);
      RemoveEntry(t, k);
    } else if pc in m {
      var i := SlotOf(t, pc);
      assert false;
    }
  }

  lemma OnlyOne(t: seq<Bp>, k: nat)
    requires WellFormed(t) && k < |t| && t[k].pc != 0
    ensures forall i :: 0 <= i < |t| && i != k ==> t[i].pc != t[k].pc
  {
  }

  lemma RemoveEntry(t: seq<Bp>, k: nat)
    requires WellFormed(t) && k < |t| && t[k].pc != 0 && WellFormed(t[k := Bp(0, 0)])
    ensures Entries(t[k := Bp(0, 0)]) == Entries(t) - {t[k].pc}
  {
    hide Entries, WellFormed;
    var t' := t[k := Bp(0, 0)];
    var l, r := Entries(t'), Entries(t) - {t[k].pc};
    OnlyOne(t, k);
    forall a: u32 | a in r ensures a in l && l[a] == r[a] {
      var i := SlotOf(t, a);
      EntryAt(t', i);
    }
    forall a: u32 | a in l ensures a in r {
      var i := SlotOf(t', a);
      EntryAt(t, i);
    }
  }

  /** `find_bp` looks an address up. */
  lemma FindIsLookup(t: seq<Bp>, pc: u32)
    requires WellFormed(t) && pc != 0
    ensures FindSlots(t, pc) == if pc in Entries(t) then Entries(t)[pc] else NOT_FOUND
  {
    var k := Slot(t, pc, 0);
    if k < |t| {
      EntryAt(t, k);
    }
  }

  /** At address 0, the free-slot marker, `find_bp` reports an opcode of 0 exactly when the table is not full. */
  lemma FindAtZero(t: seq<Bp>)
    requires WellFormed(t)
    ensures FindSlots(t, 0) == if |Entries(t)| < |t| then 0 else NOT_FOUND
  {
    EntriesSize(t);
    var k := Slot(t, 0, 0);
    assert k < |t| ==> Free(t[k]);
  }

  /** The table the program starts with holds nothing. */
  lemma EmptyTable(t: seq<Bp>)
    requires forall i :: 0 <= i < |t| ==> Free(t[i])
    ensures WellFormed(t) && Entries(t) == map[]
  {
  }
}
