/** Round trips through the text of the memory and register commands: what 'M' writes, 'm' reads back, and what
  * 'P' sets, 'p' and 'G' agree with.
  */
module StubRoundTrips {
  import opened Bytes
  import opened HexText
  import opened StubModel

  /** A character that ends a number. */
  predicate Ends(ch: byte) {
    Is(ch, ',') || Is(ch, ':') || Is(ch, '=') || ch == 0
  }

  lemma DigitsAt(buf: seq<byte>, q: nat, digits: seq<byte>)
    requires q + |digits| <= |buf| && buf[q..q + |digits|] == digits
    requires AllHex(digits) && Ends(At(buf, q + |digits|)) && Value(digits) < 0x1_0000_0000
    ensures DigitsEnd(buf, q) == q + |digits| && NumberAt(buf, q) == Value(digits)
  {
    NumberIs(buf, q, q + |digits|);
  }

  /** "<addr>,<length>" at position `q`. */
  predicate IsRangeText(buf: seq<byte>, q: nat, addr: seq<byte>, length: seq<byte>) {
    var r := q + |addr|;
    var e := r + 1 + |length|;
    && e < |buf| && AllHex(addr) && AllHex(length) && addr != [] && length != []
    && buf[q..r] == addr && Is(buf[r], ',') && buf[r + 1..e] == length && Ends(buf[e])
  }

  lemma RangeAt(buf: seq<byte>, q: nat, addr: seq<byte>, length: seq<byte>, a: u32, n: u32)
    requires IsRangeText(buf, q, addr, length) && Value(addr) == a && Value(length) == n
    ensures IsRange(buf, q) && NumberAt(buf, q) == a && RangeLength(buf, q) == n
    ensures RangeEnd(buf, q) == q + |addr| + 1 + |length| < |buf|
  {
    hide DigitsEnd, NumberAt, Value, AllHex;
    DigitsAt(buf, q, addr);
    DigitsAt(buf, q + |addr| + 1, length);
  }

  /** The digits at `q` decode to bytes whose hex printing is the digits in lower case. */
  lemma DataAt(buf: seq<byte>, q: nat, data: seq<byte>, n: nat)
    requires q + |data| <= |buf| && buf[q..q + |data|] == data && AllHex(data) && |data| == 2 * n
    ensures |Decoded(buf, q, n)| == n && HexOf(Decoded(buf, q, n)) == LowerAll(data)
  {
    assert buf == buf[..q] + data + buf[q + |data|..];
    HexOfDecoded(data, buf[..q], buf[q + |data|..], n);
  }

  /** "M<addr>,<length>:<data>" at position `p`. */
  predicate IsWriteText(buf: seq<byte>, p: nat, addr: seq<byte>, length: seq<byte>, data: seq<byte>) {
    var e := p + 2 + |addr| + |length|;
    && IsRangeText(buf, p + 1, addr, length) && Is(buf[p], 'M') && Is(buf[e], ':')
    && e + 1 + |data| < |buf| && buf[e + 1..e + 1 + |data|] == data
  }

  /** "m<addr>,<length>" at position `p`. */
  predicate IsReadText(buf: seq<byte>, p: nat, addr: seq<byte>, length: seq<byte>) {
    IsRangeText(buf, p + 1, addr, length) && Is(buf[p], 'm') && buf[p + 2 + |addr| + |length|] == 0
  }

  lemma WriteParsed(buf: seq<byte>, p: nat, addr: seq<byte>, length: seq<byte>, data: seq<byte>, a: u32, n: nat)
      returns (bytes: seq<byte>)
    requires IsWriteText(buf, p, addr, length, data) && AllHex(data) && |data| == 2 * n && n <= 1023
    requires Value(addr) == a && Value(length) == n
    ensures |bytes| == n && HexOf(bytes) == LowerAll(data) && Parse(buf, p) == WriteMem(a, n, bytes)
  {
    hide IsRangeText, Parse, IsRange, RangeLength, RangeEnd, NumberAt, Decoded, HexOf, LowerAll, AllHex, Value;
    var e := p + 2 + |addr| + |length|;
    RangeAt(buf, p + 1, addr, length, a, n);
    ParsedWrite(buf, p);
    DataAt(buf, e + 1, data, n);
    bytes := Decoded(buf, e + 1, n);
  }

  lemma NatIsInt(n: nat)
    requires n <= 1023
    ensures AsInt(n) == n
  {
  }

  lemma ReadParsed(buf: seq<byte>, p: nat, addr: seq<byte>, length: seq<byte>, a: u32, n: nat)
    requires IsReadText(buf, p, addr, length) && Value(addr) == a && Value(length) == n <= 1023
    ensures Parse(buf, p) == ReadMem(a, n)
  {
    hide IsRangeText, Answer, IsBpArgs, IsRange, RangeLength, NumberAt, Decoded, AllHex, Value;
    RangeAt(buf, p + 1, addr, length, a, n);
  }

  /** M then m over the same range returns the data written, in lower case. */
  lemma WriteThenRead(t: Target, breakinst: u32, written: bool, a: u32, n: nat, data: seq<byte>,
                      wbuf: seq<byte>, wp: nat, waddr: seq<byte>, wlength: seq<byte>,
                      rbuf: seq<byte>, rp: nat, raddr: seq<byte>, rlength: seq<byte>)
    requires t.Valid() && n <= 1023 && a + n <= MEMORY && |data| == 2 * n && AllHex(data)
    requires IsWriteText(wbuf, wp, waddr, wlength, data) && Value(waddr) == a && Value(wlength) == n
    requires IsReadText(rbuf, rp, raddr, rlength) && Value(raddr) == a && Value(rlength) == n
    ensures InRange(t, Parse(wbuf, wp))
    ensures var u := Exec(t, Parse(wbuf, wp), breakinst, written).target;
      u.Valid() && InRange(u, Parse(rbuf, rp))
      && Exec(u, Parse(rbuf, rp), breakinst, written) == Reply(u, LowerAll(data))
  {
    hide Parse, IsWriteText, IsReadText, HexOf, AllHex, Value, LowerAll, Splice;
    var bytes := WriteParsed(wbuf, wp, waddr, wlength, data, a, n);
    ReadParsed(rbuf, rp, raddr, rlength, a, n);
    SpliceRead(t.mem, a, bytes);
    NatIsInt(n);
  }

  lemma SpliceRead(m: seq<byte>, a: nat, bs: seq<byte>)
    requires a + |bs| <= |m|
    ensures Splice(m, a, bs)[a..a + |bs|] == bs
  {
  }

  /** "P<n>=<digits>" at position `p`. */
  predicate IsSetText(buf: seq<byte>, p: nat, reg: seq<byte>, digits: seq<byte>) {
    var e := p + 1 + |reg|;
    && e + 1 + |digits| < |buf| && AllHex(reg) && AllHex(digits) && reg != []
    && Is(buf[p], 'P') && buf[p + 1..e] == reg && Is(buf[e], '=') && buf[e + 1..e + 1 + |digits|] == digits
    && buf[e + 1 + |digits|] == 0
  }

  /** "p<n>" at position `p`. */
  predicate IsGetText(buf: seq<byte>, p: nat, reg: seq<byte>) {
    var e := p + 1 + |reg|;
    e < |buf| && AllHex(reg) && reg != [] && Is(buf[p], 'p') && buf[p + 1..e] == reg && buf[e] == 0
  }

  lemma ValuePair(digits: seq<byte>, hi: byte, lo: byte)
    requires AllHex(digits) && IsHex(hi) && IsHex(lo)
    ensures AllHex(digits + [hi, lo]) && Value(digits + [hi, lo]) == 0x100 * Value(digits) + PairByte(hi, lo)
  {
    var one := digits + [hi];
    var two := digits + [hi, lo];
    assert two[..|two| - 1] == one && one[..|one| - 1] == digits;
  }

  /** Eight digits name a word, most significant first; `hex2mem` stores the same digits as bytes in order.
    * Swapping the word's bytes makes the two agree. */
  lemma SwapMatchesMemory(buf: seq<byte>, q: nat, d: seq<byte>)
    requires |d| == 8 && AllHex(d) && q + 8 <= |buf| && buf[q..q + 8] == d
    ensures Value(d) < 0x1_0000_0000 && WordBytes(Swap(Value(d))) == Decoded(buf, q, 4)
  {
    var b0, b1, b2, b3 := PairByte(d[0], d[1]), PairByte(d[2], d[3]), PairByte(d[4], d[5]), PairByte(d[6], d[7]);
    ValuePair([], d[0], d[1]);
    ValuePair([d[0], d[1]], d[2], d[3]);
    ValuePair([d[0], d[1], d[2], d[3]], d[4], d[5]);
    ValuePair([d[0], d[1], d[2], d[3], d[4], d[5]], d[6], d[7]);
    assert [] + [d[0], d[1]] == [d[0], d[1]];
    assert [d[0], d[1]] + [d[2], d[3]] == [d[0], d[1], d[2], d[3]];
    assert [d[0], d[1], d[2], d[3]] + [d[4], d[5]] == [d[0], d[1], d[2], d[3], d[4], d[5]];
    assert [d[0], d[1], d[2], d[3], d[4], d[5]] + [d[6], d[7]] == d;
    assert Value(d) == WordOf(b3, b2, b1, b0) by { hide Value, PairByte; }
    JoinWord(b3, b2, b1, b0);
    JoinWord(b0, b1, b2, b3);
    EightDigits(buf, q, d);
  }

  lemma EightDigits(buf: seq<byte>, q: nat, d: seq<byte>)
    requires |d| == 8 && AllHex(d) && q + 8 <= |buf| && buf[q..q + 8] == d
    ensures Decoded(buf, q, 4)
         == [PairByte(d[0], d[1]), PairByte(d[2], d[3]), PairByte(d[4], d[5]), PairByte(d[6], d[7])]
  {
    assert forall k :: 0 <= k < 8 ==> At(buf, q + k) == d[k] != 0 by {
      forall k | 0 <= k < 8 ensures At(buf, q + k) == d[k] != 0 {
        assert buf[q..q + 8][k] == buf[q + k];
      }
    }
    hide PairByte, IsHex;
    assert Decoded(buf, q + 6, 1) == [PairByte(d[6], d[7])];
    assert Decoded(buf, q + 4, 2) == [PairByte(d[4], d[5])] + Decoded(buf, q + 6, 1);
    assert Decoded(buf, q + 2, 3) == [PairByte(d[2], d[3])] + Decoded(buf, q + 4, 2);
  }

  lemma SetParsed(buf: seq<byte>, p: nat, reg: seq<byte>, digits: seq<byte>, n: nat) returns (v: u32)
    requires IsSetText(buf, p, reg, digits) && |digits| == 8 && Value(reg) == n < NUMREGS
    ensures Parse(buf, p) == WriteReg(n, v) && AllHex(digits)
    ensures var q := p + 2 + |reg|;
      && q + 8 <= |buf| && buf[q..q + 8] == digits
      && WordBytes(Swap(v)) == Decoded(buf, q, 4) && HexOf(Decoded(buf, q, 4)) == LowerAll(digits)
  {
    hide Answer, IsBpArgs, Decoded, DigitsEnd, NumberAt, Value, AllHex, HexOf, WordBytes, Swap;
    DigitsAt(buf, p + 1, reg);
    SwapMatchesMemory(buf, p + 2 + |reg|, digits);
    DigitsAt(buf, p + 2 + |reg|, digits);
    DataAt(buf, p + 2 + |reg|, digits, 4);
    v := Value(digits);
  }

  lemma GetParsed(buf: seq<byte>, p: nat, reg: seq<byte>, n: nat)
    requires IsGetText(buf, p, reg) && Value(reg) == n < NUMREGS
    ensures Parse(buf, p) == ReadReg(n)
  {
    hide Answer, IsBpArgs, Decoded, DigitsEnd, NumberAt, Value, AllHex;
    DigitsAt(buf, p + 1, reg);
  }

  lemma RegWritten(t: Target, n: nat, v: u32)
    requires t.Valid() && n < NUMREGS
    ensures t.SetReg(n, v).regs[4 * n..4 * n + 4] == WordBytes(v)
  {
    hide WordBytes;
  }

  /** P then p on a register other than PC returns the digits written, in lower case. */
  lemma SetThenGet(t: Target, breakinst: u32, written: bool, n: nat, digits: seq<byte>,
                   sbuf: seq<byte>, sp: nat, sreg: seq<byte>, gbuf: seq<byte>, gp: nat, greg: seq<byte>)
    requires t.Valid() && n < NUMREGS && n != PC && |digits| == 8
    requires IsSetText(sbuf, sp, sreg, digits) && Value(sreg) == n && IsGetText(gbuf, gp, greg) && Value(greg) == n
    ensures InRange(t, Parse(sbuf, sp))
    ensures var u := Exec(t, Parse(sbuf, sp), breakinst, written).target;
      u.Valid() && InRange(u, Parse(gbuf, gp))
      && Exec(u, Parse(gbuf, gp), breakinst, written) == Reply(u, LowerAll(digits))
  {
    hide Parse, IsSetText, IsGetText, Value, HexOf, LowerAll, Decoded, Swap, WordBytes;
    var v := SetParsed(sbuf, sp, sreg, digits, n);
    GetParsed(gbuf, gp, greg, n);
    RegWritten(t, n, Swap(v));
  }

  /** G leaves each register with what P would store there from the same eight digits. */
  lemma SetAgreesWithAll(t: Target, breakinst: u32, written: bool, n: nat, all: seq<byte>, buf: seq<byte>, p: nat,
                         sbuf: seq<byte>, sp: nat, sreg: seq<byte>)
    requires t.Valid() && n < NUMREGS && n != PC
    requires |all| == 8 * NUMREGS && AllHex(all) && p + 1 + |all| <= |buf| && Is(buf[p], 'G')
    requires buf[p + 1..p + 1 + |all|] == all
    requires IsSetText(sbuf, sp, sreg, all[8 * n..8 * n + 8]) && Value(sreg) == n
    ensures InRange(t, Parse(buf, p)) && InRange(t, Parse(sbuf, sp))
    ensures Exec(t, Parse(buf, p), breakinst, written).target.Reg(n)
         == Exec(t, Parse(sbuf, sp), breakinst, written).target.Reg(n)
  {
    hide Parse, IsSetText, Value, HexOf, LowerAll, Decoded, Swap, WordBytes, AllHex, Splice, Word;
    var digits := all[8 * n..8 * n + 8];
    var w := SetParsed(sbuf, sp, sreg, digits, n);
    AllParsed(buf, p, all);
    RegWritten(t, n, Swap(w));
    AllRegisters(t.regs, buf, p, all, n);
    SliceOfSlice(buf, p + 1, p + 1 + |all|, 8 * n, 8 * n + 8);
    DecodedSame(buf, p + 1 + 8 * n, sbuf, sp + 2 + |sreg|, digits);
    SameWord(t.SetReg(n, Swap(w)).regs, Splice(t.regs, 0, Decoded(buf, p + 1, 4 * NUMREGS)), 4 * n);
  }

  lemma AllParsed(buf: seq<byte>, p: nat, all: seq<byte>)
    requires |all| == 8 * NUMREGS && AllHex(all) && p + 1 + |all| <= |buf| && Is(buf[p], 'G')
    requires buf[p + 1..p + 1 + |all|] == all
    ensures Parse(buf, p) == WriteAll(Decoded(buf, p + 1, 4 * NUMREGS))
    ensures |Decoded(buf, p + 1, 4 * NUMREGS)| == 4 * NUMREGS
  {
    hide Decoded;
    DataAt(buf, p + 1, all, 4 * NUMREGS);
  }

  lemma {:induction false} DecodedLater(buf: seq<byte>, q: nat, data: seq<byte>, n: nat, k: nat)
    requires q + |data| <= |buf| && buf[q..q + |data|] == data && AllHex(data) && |data| == 2 * n && k <= n
    ensures |Decoded(buf, q, n)| == n && Decoded(buf, q, n)[k..] == Decoded(buf, q + 2 * k, n - k)
    decreases k
  {
    DataAt(buf, q, data, n);
    if k > 0 {
      assert buf[q] == data[0];
      assert buf[q + 2..q + 2 + |data[2..]|] == data[2..];
      DecodedLater(buf, q + 2, data[2..], n - 1, k - 1);
      var d := Decoded(buf, q, n);
      assert d == [d[0]] + Decoded(buf, q + 2, n - 1);
    }
  }

  lemma AllRegisters(regs: seq<byte>, buf: seq<byte>, p: nat, all: seq<byte>, n: nat)
    requires |regs| == REG_BYTES && n < NUMREGS
    requires |all| == 8 * NUMREGS && AllHex(all) && p + 1 + |all| <= |buf| && buf[p + 1..p + 1 + |all|] == all
    ensures |Decoded(buf, p + 1, 4 * NUMREGS)| == 4 * NUMREGS && |Decoded(buf, p + 1 + 8 * n, 4)| == 4
    ensures Splice(regs, 0, Decoded(buf, p + 1, 4 * NUMREGS))[4 * n..4 * n + 4] == Decoded(buf, p + 1 + 8 * n, 4)
  {
    hide Decoded;
    DecodedLater(buf, p + 1, all, 4 * NUMREGS, 4 * n);
    var rest := all[8 * n..];
    SliceOfSlice(buf, p + 1, p + 1 + |all|, 8 * n, |all|);
    var m := 4 * NUMREGS - 4 * n;
    DecodedFirst(buf, p + 1 + 8 * n, rest, m);
  }

  lemma NoNulAt(buf: seq<byte>, q: nat, data: seq<byte>, k: nat)
    requires q + |data| <= |buf| && buf[q..q + |data|] == data && AllHex(data) && k < |data|
    ensures At(buf, q + k) != 0
  {
    assert buf[q..q + |data|][k] == data[k];
  }

  lemma DecodedFirst(buf: seq<byte>, q: nat, data: seq<byte>, n: nat)
    requires q + |data| <= |buf| && buf[q..q + |data|] == data && AllHex(data) && |data| == 2 * n && n >= 4
    ensures |Decoded(buf, q, n)| == n && Decoded(buf, q, n)[..4] == Decoded(buf, q, 4)
  {
    DataAt(buf, q, data, n);
    NoNulAt(buf, q, data, 0);
    NoNulAt(buf, q, data, 2);
    NoNulAt(buf, q, data, 4);
    NoNulAt(buf, q, data, 6);
    hide PairByte, IsHex, HexOf, AllHex;
    assert Decoded(buf, q + 6, n - 3)[..1] == Decoded(buf, q + 6, 1);
    assert Decoded(buf, q + 4, n - 2)[..2] == Decoded(buf, q + 4, 2);
    assert Decoded(buf, q + 2, n - 1)[..3] == Decoded(buf, q + 2, 3);
  }

  lemma DecodedSame(a: seq<byte>, p: nat, b: seq<byte>, q: nat, d: seq<byte>)
    requires |d| == 8 && AllHex(d)
    requires p + 8 <= |a| && a[p..p + 8] == d && q + 8 <= |b| && b[q..q + 8] == d
    ensures Decoded(a, p, 4) == Decoded(b, q, 4)
  {
    EightDigits(a, p, d);
    EightDigits(b, q, d);
  }

  lemma SameWord(m: seq<byte>, n: seq<byte>, a: nat)
    requires a + 4 <= |m| && a + 4 <= |n| && m[a..a + 4] == n[a..a + 4]
    ensures Word(m, a) == Word(n, a)
  {
    BytesOfWord(m, a);
    BytesOfWord(n, a);
    WordOfBytes(Word(m, a));
    WordOfBytes(Word(n, a));
  }

  /** G then g returns the digits written, in lower case. */
  lemma AllThenAll(t: Target, breakinst: u32, written: bool, all: seq<byte>, buf: seq<byte>, p: nat)
    requires t.Valid() && |all| == 8 * NUMREGS && AllHex(all) && p + 1 + |all| <= |buf| && Is(buf[p], 'G')
    requires buf[p + 1..p + 1 + |all|] == all
    ensures InRange(t, Parse(buf, p))
    ensures var u := Exec(t, Parse(buf, p), breakinst, written).target;
      u.Valid() && Exec(u, ReadAll, breakinst, written) == Reply(u, LowerAll(all))
  {
    hide Parse, HexOf, AllHex, LowerAll, Decoded, Splice;
    AllParsed(buf, p, all);
    DataAt(buf, p + 1, all, 4 * NUMREGS);
    SpliceRead(t.regs, 0, Decoded(buf, p + 1, 4 * NUMREGS));
  }

  /** g shows each register as p does. */
  lemma AllShowsEach(t: Target, breakinst: u32, written: bool, n: u32)
    requires t.Valid() && n < NUMREGS
    ensures |Exec(t, ReadAll, breakinst, written).text| == 8 * NUMREGS
    ensures Exec(t, ReadAll, breakinst, written).text[8 * n..8 * n + 8] == Exec(t, ReadReg(n), breakinst, written).text
  {
    hide HexOf;
    HexSlice(t.regs[..4 * NUMREGS], 4 * n, 4 * n + 4);
    SliceOfSlice(t.regs, 0, 4 * NUMREGS, 4 * n, 4 * n + 4);
  }

  lemma {:induction false} HexAppend(a: seq<byte>, b: seq<byte>)
    ensures HexOf(a + b) == HexOf(a) + HexOf(b)
    decreases |a|
  {
    hide HexOf, ByteHex;
    if a == [] {
      assert a + b == b && HexOf(a) == [];
    } else {
      HexAppend(a[1..], b);
      HexOfCons(a);
      HexOfCons(a + b);
      assert (a + b)[1..] == a[1..] + b;
      ConcatAssociates(ByteHex(a[0]), HexOf(a[1..]), HexOf(b));
    }
  }

  lemma HexSlice(bs: seq<byte>, a: nat, b: nat)
    requires a <= b <= |bs|
    ensures HexOf(bs)[2 * a..2 * b] == HexOf(bs[a..b])
  {
    hide HexOf;
    HexAppend(bs[..a], bs[a..b]);
    HexAppend(bs[..a] + bs[a..b], bs[b..]);
    assert bs[..a] + bs[a..b] + bs[b..] == bs;
  }
}
