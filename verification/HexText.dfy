/** The hexadecimal conversions of the GDB stub: `hex`, `mem2hex`, `hex2mem` and `hexToInt`. */
module HexText {
  import opened Bytes

  const BAD_ARG: byte := 0xFF
  const BUFMAX := 2048 // bytes in each of the stub's two packet buffers

  /** The value of a hex digit of either case, or BAD_ARG. */
  function Hex(ch: byte): (v: byte)
    ensures v < 16 || v == BAD_ARG
  {
    if 'a' as int <= ch <= 'f' as int then ch - 'a' as int + 10
    else if '0' as int <= ch <= '9' as int then ch - '0' as int
    else if 'A' as int <= ch <= 'F' as int then ch - 'A' as int + 10
    else BAD_ARG
  }

  /** The table `hexchars`. */
  function HexChar(n: byte): byte
    requires n < 16
  {
    if n < 10 then '0' as int + n else 'a' as int + n - 10
  }

  function Lower(ch: byte): byte {
    if 'A' as int <= ch <= 'Z' as int then ch + 32 else ch
  }

  function LowerAll(s: seq<byte>): (r: seq<byte>)
    ensures |r| == |s|
  {
    seq(|s|, i requires 0 <= i < |s| => Lower(s[i]))
  }

  predicate IsHex(ch: byte) {
    Hex(ch) != BAD_ARG
  }

  predicate AllHex(s: seq<byte>) {
    forall i :: 0 <= i < |s| ==> IsHex(s[i])
  }

  /** The character at `i` of a NUL-terminated text; past its end there is only NUL. */
  function At(text: seq<byte>, i: nat): byte {
    if i < |text| then text[i] else 0
  }

  lemma HexCharInverse(n: byte, ch: byte)
    requires n < 16 && IsHex(ch)
    ensures Hex(HexChar(n)) == n
    ensures HexChar(Hex(ch)) == Lower(ch)
  {
  }

  const DIGITS := "0123456789abcdef"

  /** A nibble is printed as its digit in lower case, and a digit of either case is read as its place among them. */
  lemma DigitTable(n: byte, ch: byte)
    requires n < 16
    ensures HexChar(n) == DIGITS[n] as int
    ensures IsHex(ch) <==> exists k: nat {:trigger DIGITS[k]} :: k < 16 && Lower(ch) == DIGITS[k] as int
    ensures IsHex(ch) ==> Lower(ch) == DIGITS[Hex(ch)] as int
  {
    if IsHex(ch) {
      assert Lower(ch) == DIGITS[Hex(ch)] as int;
    }
  }

  // ----- numbers -----

  /** The number a run of hex digits denotes. */
  function Value(digits: seq<byte>): nat
    requires AllHex(digits)
  {
    if digits == [] then 0
    else 16 * Value(digits[..|digits| - 1]) + Hex(digits[|digits| - 1])
  }

  /** Where the longest run of hex digits starting at `p` ends. */
  function DigitsEnd(text: seq<byte>, p: nat): (q: nat)
    ensures p <= q && (q <= |text| || q == p)
    decreases |text| - p
  {
    if p < |text| && IsHex(text[p]) then DigitsEnd(text, p + 1) else p
  }

  lemma {:induction false} DigitsEndIsLongest(text: seq<byte>, p: nat)
    requires p <= |text|
    ensures AllHex(text[p..DigitsEnd(text, p)]) && !IsHex(At(text, DigitsEnd(text, p)))
    decreases |text| - p
  {
    if p < |text| && IsHex(text[p]) {
      DigitsEndIsLongest(text, p + 1);
      var q := DigitsEnd(text, p);
      assert text[p..q] == [text[p]] + text[p + 1..q];
    }
  }

  /** The low 32 bits of a number. */
  function Low32(v: nat): u32 {
    v % 0x1_0000_0000
  }

  /** The number `hexToInt` reads at `p`, reduced to 32 bits. */
  function NumberAt(text: seq<byte>, p: nat): u32 {
    if p > |text| then 0
    else
      DigitsEndIsLongest(text, p);
      Low32(Value(text[p..DigitsEnd(text, p)]))
  }

  lemma {:induction false} DigitsEndUnique(text: seq<byte>, p: nat, q: nat)
    requires p <= q <= |text| && AllHex(text[p..q]) && !IsHex(At(text, q))
    ensures DigitsEnd(text, p) == q
    decreases q - p
  {
    if p < q {
      assert IsHex(text[p..q][0]);
      assert text[p + 1..q] == text[p..q][1..];
      DigitsEndUnique(text, p + 1, q);
    }
  }

  lemma NumberIs(text: seq<byte>, p: nat, q: nat)
    requires p <= q <= |text| && AllHex(text[p..q]) && !IsHex(At(text, q))
    ensures q == DigitsEnd(text, p) && NumberAt(text, p) == Low32(Value(text[p..q]))
  {
    hide Value, Low32;
    DigitsEndUnique(text, p, q);
  }

  lemma ValueSnoc(text: seq<byte>, p: nat, q: nat)
    requires p <= q < |text| && AllHex(text[p..q]) && IsHex(text[q])
    ensures AllHex(text[p..q + 1]) && Value(text[p..q + 1]) == 16 * Value(text[p..q]) + Hex(text[q])
  {
    hide Hex;
    assert text[p..q + 1] == text[p..q] + [text[q]];
    assert (text[p..q] + [text[q]])[..q - p] == text[p..q];
  }

  /** Walks the digits from `p` on, building the total modulo 2^32. */
  method HexToInt(text: seq<byte>, p: nat) returns (q: nat, intValue: u32, numChars: nat)
    requires p <= |text|
    ensures p <= q <= |text| && numChars == q - p
    ensures AllHex(text[p..q]) && !IsHex(At(text, q))
    ensures intValue == Low32(Value(text[p..q]))
    ensures q == DigitsEnd(text, p) && intValue == NumberAt(text, p)
  {
    hide Value, NumberAt, DigitsEnd, Low32, Hex;
    NoDigits();
    assert text[p..p] == [];
    numChars, intValue, q := 0, 0, p;
    while At(text, q) != 0
      invariant p <= q <= |text| && numChars == q - p
      invariant AllHex(text[p..q])
      invariant intValue == Low32(Value(text[p..q]))
      decreases |text| - q
    {
      var hexValue := Hex(text[q]);
      if BAD_ARG == hexValue {
        break;
      }
      ValueSnoc(text, p, q);
      intValue := ShiftIn(intValue, hexValue, Value(text[p..q]));
      numChars := numChars + 1;
      q := q + 1;
    }
    NulIsNoDigit();
    NumberIs(text, p, q);
  }

  lemma NoDigits()
    ensures Value([]) == 0 && Low32(0) == 0
  {
  }

  lemma NulIsNoDigit()
    ensures !IsHex(0)
  {
  }

  /** `(*intValue << 4) | hexValue` in 32 bits: the low four bits are free after the shift. */
  method ShiftIn(intValue: u32, hexValue: byte, ghost v: nat) returns (r: u32)
    requires intValue == Low32(v) && hexValue < 16
    ensures r == Low32(16 * v + hexValue)
  {
    ShiftDigit(v, hexValue);
    r := intValue * 16 % 0x1_0000_0000 + hexValue;
  }

  lemma ShiftDigit(v: nat, d: byte)
    requires d < 16
    ensures v % 0x1_0000_0000 * 16 % 0x1_0000_0000 + d == (16 * v + d) % 0x1_0000_0000
    ensures v % 0x1_0000_0000 * 16 % 0x1_0000_0000 + d < 0x1_0000_0000
  {
    var k, h, r := SplitTop(v);
    ModuloOf(v, k, 0x1000_0000 * h + r);
    ModuloOf(0x1_0000_0000 * h + 16 * r, h, 16 * r);
    ModuloOf(16 * v + d, 16 * k + h, 16 * r + d);
  }

  lemma SplitTop(v: nat) returns (k: nat, h: nat, r: nat)
    ensures v == 0x1_0000_0000 * k + 0x1000_0000 * h + r && h < 16 && r < 0x1000_0000
  {
    k := v / 0x1_0000_0000;
    var low := v % 0x1_0000_0000;
    h := low / 0x1000_0000;
    r := low % 0x1000_0000;
  }

  lemma ModuloOf(v: nat, k: nat, low: nat)
    requires v == 0x1_0000_0000 * k + low && low < 0x1_0000_0000
    ensures v % 0x1_0000_0000 == low
  {
  }

  /** The shortest lower-case hex printing of a number. */
  function PrintHex(v: nat): (s: seq<byte>)
    ensures |s| > 0 && AllHex(s)
  {
    if v < 16 then [HexChar(v)] else PrintHex(v / 16) + [HexChar(v % 16)]
  }

  lemma {:induction false} ValueOfPrint(v: nat)
    ensures Value(PrintHex(v)) == v
  {
    if v < 16 {
      assert PrintHex(v)[..0] == [];
    } else {
      ValueOfPrint(v / 16);
      var s := PrintHex(v);
      assert s[..|s| - 1] == PrintHex(v / 16);
    }
  }

  /** `s` is the digit string `t`, in any mixture of cases, behind some zeros. */
  predicate SameNumeral(s: seq<byte>, t: seq<byte>, zeros: nat) {
    && |s| == zeros + |t|
    && (forall i :: 0 <= i < zeros ==> s[i] == '0' as int)
    && forall i :: zeros <= i < |s| ==> Lower(s[i]) == Lower(t[i - zeros])
  }

  lemma {:induction false} SameNumeralSameValue(s: seq<byte>, t: seq<byte>, zeros: nat)
    requires AllHex(t) && SameNumeral(s, t, zeros)
    ensures AllHex(s) && Value(s) == Value(t)
    decreases |s|
  {
    if |t| > 0 {
      SameNumeralSameValue(s[..|s| - 1], t[..|t| - 1], zeros);
      assert Lower(s[|s| - 1]) == Lower(t[|t| - 1]);
    } else if zeros > 0 {
      SameNumeralSameValue(s[..|s| - 1], t, zeros - 1);
    }
  }

  /** Every hex printing of a number, in either case and with any zero padding, has that value. */
  lemma PrintedValue(v: nat, digits: seq<byte>, zeros: nat)
    requires SameNumeral(digits, PrintHex(v), zeros)
    ensures AllHex(digits) && Value(digits) == v
  {
    SameNumeralSameValue(digits, PrintHex(v), zeros);
    ValueOfPrint(v);
  }

  /** `hexToInt` reads such a printing back, whatever non-digit follows it. */
  lemma NumberInContext(before: seq<byte>, digits: seq<byte>, after: seq<byte>)
    requires AllHex(digits)
    requires after == [] || !IsHex(after[0])
    ensures DigitsEnd(before + digits + after, |before|) == |before| + |digits|
    ensures NumberAt(before + digits + after, |before|) == Low32(Value(digits))
  {
    var text := before + digits + after;
    assert text[|before|..|before| + |digits|] == digits;
    DigitsEndUnique(text, |before|, |before| + |digits|);
  }

  // ----- byte strings -----

  function ByteHex(b: byte): (s: seq<byte>)
    ensures |s| == 2
  {
    [HexChar(b / 16), HexChar(b % 16)]
  }

  /** Two lower-case digits for each byte, high half first. */
  function HexOf(bs: seq<byte>): (s: seq<byte>)
    ensures |s| == 2 * |bs|
  {
    seq(2 * |bs|, k requires 0 <= k < 2 * |bs| => HexChar(if k % 2 == 0 then bs[k / 2] / 16 else bs[k / 2] % 16))
  }

  lemma HexAt(bs: seq<byte>, i: nat)
    requires i < |bs|
    ensures HexOf(bs)[2 * i] == HexChar(bs[i] / 16) && HexOf(bs)[2 * i + 1] == HexChar(bs[i] % 16)
  {
  }

  lemma HexOfCons(bs: seq<byte>)
    requires bs != []
    ensures HexOf(bs) == ByteHex(bs[0]) + HexOf(bs[1..])
  {
  }

  /** `(hex(hi) << 4 | hex(lo)) & 0xFF`; BAD_ARG has all its bits set. */
  function PairByte(hi: byte, lo: byte): byte {
    if !IsHex(lo) then 0xFF
    else if !IsHex(hi) then 0xF0 + Hex(lo)
    else 16 * Hex(hi) + Hex(lo)
  }

  /** The bytes `hex2mem` stores: a pair at a time, until `count` or a NUL where a pair would start. */
  function Decoded(text: seq<byte>, p: nat, count: int): (bs: seq<byte>)
    ensures |bs| <= if count > 0 then count else 0
    decreases count
  {
    if count <= 0 || At(text, p) == 0 then []
    else [PairByte(At(text, p), At(text, p + 1))] + Decoded(text, p + 2, count - 1)
  }

  /** Each byte is that of its pair, no pair starts with a NUL, and only a NUL ends the bytes early. */
  lemma {:induction false} DecodedPairs(text: seq<byte>, p: nat, count: nat)
    ensures var bs := Decoded(text, p, count);
      && (|bs| < count ==> At(text, p + 2 * |bs|) == 0)
      && forall k :: 0 <= k < |bs| ==>
           At(text, p + 2 * k) != 0 && bs[k] == PairByte(At(text, p + 2 * k), At(text, p + 2 * k + 1))
    decreases count
  {
    hide PairByte;
    if count > 0 && At(text, p) != 0 {
      DecodedPairs(text, p + 2, count - 1);
      var bs, rest := Decoded(text, p, count), Decoded(text, p + 2, count - 1);
      forall k | 0 <= k < |bs|
        ensures At(text, p + 2 * k) != 0 && bs[k] == PairByte(At(text, p + 2 * k), At(text, p + 2 * k + 1))
      {
        if k > 0 {
          assert bs[k] == rest[k - 1] && p + 2 + 2 * (k - 1) == p + 2 * k;
        }
      }
    }
  }

  /** The bytes `mem2hex` reads: none at all when `count` is not positive. */
  ghost function Source(mem: seq<byte>, at: nat, count: int): seq<byte>
    requires count > 0 ==> at + count <= |mem|
  {
    if count > 0 then mem[at..at + count] else []
  }

  method Mem2Hex(mem: array<byte>, at: nat, out: array<byte>, p: nat, count: int) returns (q: nat)
    requires mem != out
    requires count > 0 ==> at + count <= mem.Length
    requires p + 2 * |Source(mem[..], at, count)| < out.Length
    modifies out
    ensures out[..] == Splice(old(out[..]), p, HexOf(Source(mem[..], at, count)) + [0])
    ensures q == p + 2 * |Source(mem[..], at, count)|
  {
    hide HexOf, HexChar;
    ghost var src := Source(mem[..], at, count);
    ghost var goal := HexOf(src) + [0];
    var i := 0;
    q := p;
    while i < count
      invariant 0 <= i <= |src| && q == p + 2 * i
      invariant forall k :: p <= k < q ==> out[k] == goal[k - p]
      invariant forall k :: 0 <= k < p || q <= k < out.Length ==> out[k] == old(out[k])
    {
      var ch := mem[at + i];
      assert ch == src[i];
      HexAt(src, i);
      out[q] := HexChar(ch / 16);
      q := q + 1;
      out[q] := HexChar(ch % 16);
      q := q + 1;
      i := i + 1;
    }
    out[q] := 0;
    SpliceIs(old(out[..]), out[..], p, goal);
  }

  method Hex2Mem(text: seq<byte>, p: nat, mem: array<byte>, at: nat, count: int) returns (end: nat)
    requires at + |Decoded(text, p, count)| <= mem.Length
    modifies mem
    ensures mem[..] == Splice(old(mem[..]), at, Decoded(text, p, count))
    ensures end == at + |Decoded(text, p, count)|
  {
    ghost var goal := Decoded(text, p, count);
    var i, s := 0, p;
    end := at;
    while i < count && At(text, s) != 0
      invariant 0 <= i <= |goal| && s == p + 2 * i && end == at + i
      invariant goal[i..] == Decoded(text, s, count - i)
      invariant forall k :: 0 <= k < mem.Length ==> mem[k] == if at <= k < end then goal[k - at] else old(mem[k])
      decreases count - i
    {
      assert goal[i] == goal[i..][0];
      assert goal[i + 1..] == goal[i..][1..];
      mem[end] := PairByte(At(text, s), At(text, s + 1));
      s, end, i := s + 2, end + 1, i + 1;
    }
    assert i == |goal|;
    SpliceIs(old(mem[..]), mem[..], at, goal);
  }

  lemma PairByteOfHex(b: byte)
    ensures PairByte(ByteHex(b)[0], ByteHex(b)[1]) == b && ByteHex(b)[0] != 0
  {
  }

  /** `hex2mem` inverts `mem2hex`. */
  lemma {:induction false} DecodedOfHex(bs: seq<byte>, before: seq<byte>, after: seq<byte>)
    ensures Decoded(before + HexOf(bs) + after, |before|, |bs|) == bs
    decreases |bs|
  {
    if bs != [] {
      var text := before + HexOf(bs) + after;
      var p := |before|;
      var two := ByteHex(bs[0]);
      HexOfCons(bs);
      assert text == (before + two) + HexOf(bs[1..]) + after;
      assert text[p] == two[0] && text[p + 1] == two[1];
      PairByteOfHex(bs[0]);
      DecodedOfHex(bs[1..], before + two, after);
    }
  }

  lemma PairLower(hi: byte, lo: byte)
    requires IsHex(hi) && IsHex(lo)
    ensures hi != 0 && ByteHex(PairByte(hi, lo)) == [Lower(hi), Lower(lo)]
  {
    HexCharInverse(0, hi);
    HexCharInverse(0, lo);
  }

  /** `mem2hex` after `hex2mem` gives the digits back in lower case. */
  lemma {:induction false} HexOfDecoded(digits: seq<byte>, before: seq<byte>, after: seq<byte>, n: nat)
    requires |digits| == 2 * n && AllHex(digits)
    ensures HexOf(Decoded(before + digits + after, |before|, n)) == LowerAll(digits)
    ensures |Decoded(before + digits + after, |before|, n)| == n
    decreases n
  {
    hide HexOf, PairByte, ByteHex, Lower, Hex;
    if n > 0 {
      var text := before + digits + after;
      var p := |before|;
      var two, rest := digits[..2], digits[2..];
      assert text == (before + two) + rest + after;
      assert text[p] == digits[0] && text[p + 1] == digits[1];
      PairLower(digits[0], digits[1]);
      HexOfDecoded(rest, before + two, after, n - 1);
      HexOfCons(Decoded(text, p, n));
      assert LowerAll(digits) == [Lower(digits[0]), Lower(digits[1])] + LowerAll(rest);
    }
  }
}
