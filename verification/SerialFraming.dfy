/** The packet layer of the serial stub: `getpacket` and `putpacket` over a character stream.
  *
  * Three views of the receiver are related here: which frame of a stream is accepted (`Decodes`, stated
  * on the stream alone), a character-at-a-time automaton (`Feed`), and the loops of `GetPacket`.
  */
module SerialFraming {
  import opened Bytes
  import opened HexText

  const DOLLAR: byte := '$' as int
  const HASH: byte := '#' as int
  const PLUS: byte := '+' as int
  const MINUS: byte := '-' as int
  const COLON: byte := ':' as int

  // ----- frames -----

  /** Addition of two `u8` values, which wraps at 256. */
  function Add8(a: byte, b: byte): (r: byte)
    ensures r == (a + b) % 0x100
  {
    if a as int + b < 0x100 then a as int + b else a as int + b - 0x100
  }

  function Checksum(text: seq<byte>): byte {
    if text == [] then 0 else Add8(Checksum(text[..|text| - 1]), text[|text| - 1])
  }

  /** The checksum is the sum of the characters modulo 256. */
  function Total(text: seq<byte>): nat {
    if text == [] then 0 else Total(text[..|text| - 1]) + text[|text| - 1]
  }

  lemma {:induction false} ChecksumIsModularSum(text: seq<byte>)
    ensures Checksum(text) == Total(text) % 0x100
  {
    if text != [] {
      ChecksumIsModularSum(text[..|text| - 1]);
    }
  }

  /** The number two checksum characters stand for: `hex(hi) << 4` cut to 8 bits, plus `hex(lo)`. */
  function DigitsByte(hi: byte, lo: byte): byte {
    Add8(if IsHex(hi) then 16 * Hex(hi) else 0xF0, Hex(lo))
  }

  lemma ChecksumDigits(c: byte)
    ensures DigitsByte(HexChar(c / 16), HexChar(c % 16)) == c
  {
    HexCharInverse(c / 16, '0' as int);
    HexCharInverse(c % 16, '0' as int);
  }

  /** What one pass of `putpacket` emits for `text`. */
  function Frame(text: seq<byte>): (f: seq<byte>)
    ensures |f| == |text| + 4
  {
    [DOLLAR] + text + [HASH, HexChar(Checksum(text) / 16), HexChar(Checksum(text) % 16)]
  }

  /** A frame is '$', the text, '#' and the sum of its characters modulo 256 in two digits, the high one first. */
  lemma FrameText(text: seq<byte>)
    ensures var f, n, sum := Frame(text), |text|, Total(text) % 0x100;
      && f[0] == '$' as int && f[1..n + 1] == text && f[n + 1] == '#' as int
      && f[n + 2] == DIGITS[sum / 16] as int && f[n + 3] == DIGITS[sum % 16] as int
  {
    hide Total, Checksum, HexChar;
    ChecksumIsModularSum(text);
    var c := Checksum(text);
    DigitTable(c / 16, 0);
    DigitTable(c % 16, 0);
  }

  lemma FrameDigits(text: seq<byte>) returns (hi: byte, lo: byte)
    ensures Frame(text) == [DOLLAR] + text + [HASH, hi, lo] && DigitsByte(hi, lo) == Checksum(text)
  {
    var c := Checksum(text);
    hi, lo := HexChar(c / 16), HexChar(c % 16);
    ChecksumDigits(c);
  }

  /** The C string starting at `p`. */
  function CStr(buf: seq<byte>, p: nat): (t: seq<byte>)
    ensures 0 !in t
    ensures p <= |buf| ==> p + |t| <= |buf| && t == buf[p..p + |t|] && At(buf, p + |t|) == 0
    decreases |buf| - p
  {
    if p >= |buf| || buf[p] == 0 then [] else [buf[p]] + CStr(buf, p + 1)
  }

  lemma {:induction false} CStrIs(buf: seq<byte>, p: nat, text: seq<byte>)
    requires 0 !in text && p + |text| < |buf|
    requires buf[p..p + |text|] == text && buf[p + |text|] == 0
    ensures CStr(buf, p) == text
    decreases |text|
  {
    if text != [] {
      assert buf[p] == text[0];
      assert buf[p + 1..p + 1 + |text[1..]|] == text[1..];
      CStrIs(buf, p + 1, text[1..]);
    }
  }

  predicate Plain(text: seq<byte>) {
    DOLLAR !in text && HASH !in text
  }

  // ----- which frame of a stream is accepted -----

  /** `s[i]` opens and `s[j]` closes a payload the receiver can hold. */
  ghost predicate Attempt(s: seq<byte>, p: nat, i: nat, j: nat) {
    p <= i < j < |s| && s[i] == DOLLAR && s[j] == HASH && Plain(s[i + 1..j]) && j - i - 1 < BUFMAX - 1
  }

  ghost predicate FirstAttempt(s: seq<byte>, p: nat, i: nat, j: nat) {
    Attempt(s, p, i, j) && forall a: nat, b: nat :: Attempt(s, p, a, b) ==> j <= b
  }

  /** The payload's checksum is the one transmitted after it. */
  predicate Matches(s: seq<byte>, i: nat, j: nat)
    requires i < j && j + 2 < |s|
  {
    Checksum(s[i + 1..j]) == DigitsByte(s[j + 1], s[j + 2])
  }

  /** From position `p` on, the first payload with a matching checksum is `s[i + 1..j]`, and `fails`
    * payloads with a wrong one come before it. */
  ghost predicate Decodes(s: seq<byte>, p: nat, fails: nat, i: nat, j: nat)
    decreases fails
  {
    exists a: nat, b: nat :: FirstAttempt(s, p, a, b) && b + 2 < |s| &&
      if Matches(s, a, b) then fails == 0 && i == a && j == b
      else fails > 0 && Decodes(s, b + 3, fails - 1, i, j)
  }

  // ----- the automaton -----

  datatype Mode =
    | Idle                            // before a '$'
    | Body(text: seq<byte>)           // after a '$'
    | Sum(text: seq<byte>)            // after the '#'
    | Sum2(text: seq<byte>, hi: byte) // after the first checksum digit
    | Done(text: seq<byte>)

  /** Where the receiver is, and how many payloads it has refused. */
  datatype Parser = Parser(mode: Mode, naks: nat)

  function Feed(p: Parser, ch: byte): Parser {
    match p.mode
    case Idle => if ch == DOLLAR then p.(mode := Body([])) else p
    case Body(text) =>
      if ch == DOLLAR then p.(mode := Body([]))
      else if ch == HASH then p.(mode := Sum(text))
      else if |text| + 1 < BUFMAX - 1 then p.(mode := Body(text + [ch]))
      else p.(mode := Idle)
    case Sum(text) => p.(mode := Sum2(text, ch))
    case Sum2(text, hi) =>
      if Checksum(text) == DigitsByte(hi, ch) then p.(mode := Done(text))
      else Parser(Idle, p.naks + 1)
    case Done(_) => p
  }

  /** The parser after the characters `s[p..n]`. */
  function Run(st: Parser, s: seq<byte>, p: nat, n: nat): Parser
    requires p <= n <= |s|
    decreases n
  {
    if n == p then st else Feed(Run(st, s, p, n - 1), s[n - 1])
  }

  lemma NothingRead(buf: seq<byte>, st: Parser, s: seq<byte>, p: nat)
    requires p <= |s|
    ensures Run(st, s, p, p) == st && Stored(buf, st, s, p, p) == buf
  {
  }

  lemma {:induction false} RunSplit(st: Parser, s: seq<byte>, p: nat, m: nat, n: nat)
    requires p <= m <= n <= |s|
    ensures Run(st, s, p, n) == Run(Run(st, s, p, m), s, m, n)
    decreases n
  {
    if m < n {
      RunSplit(st, s, p, m, n - 1);
    }
  }

  // ----- the automaton accepts exactly the frame `Decodes` describes -----

  /** What the mode says about the stream while no attempt has ended yet. */
  ghost predicate Scanning(s: seq<byte>, p: nat, n: nat, mode: Mode)
    requires p <= n <= |s|
  {
    match mode
    case Idle => forall i :: p <= i < n && s[i] == DOLLAR && DOLLAR !in s[i + 1..n] ==> n - i >= BUFMAX
    case Body(text) =>
      && |text| < BUFMAX - 1 && p + |text| < n
      && s[n - |text| - 1] == DOLLAR && s[n - |text|..n] == text && Plain(text)
    case _ => false
  }

  ghost predicate NoAttemptBefore(s: seq<byte>, p: nat, n: nat) {
    forall a: nat, b: nat :: Attempt(s, p, a, b) ==> n <= b
  }

  lemma {:induction false} ScanToAttempt(s: seq<byte>, p: nat, n: nat, st: Parser) returns (r: Parser)
    requires p <= n <= |s| && st.mode.Idle?
    requires NoAttemptBefore(s, p, n)
    ensures r == Run(st, s, p, n) && Scanning(s, p, n, r.mode) && r.naks == st.naks
    decreases n
  {
    hide Scanning, NoAttemptBefore, Feed;
    ScanNothing(s, p, st);
    if p == n {
      r := st;
    } else {
      FewerAttempts(s, p, n);
      var q := ScanToAttempt(s, p, n - 1, st);
      ScanStep(s, p, n - 1, q);
      r := Feed(q, s[n - 1]);
    }
  }

  lemma ScanNothing(s: seq<byte>, p: nat, st: Parser)
    requires p <= |s| && st.mode.Idle?
    ensures Scanning(s, p, p, st.mode)
  {
  }

  lemma ScanStep(s: seq<byte>, p: nat, k: nat, r: Parser)
    requires p <= k < |s| && Scanning(s, p, k, r.mode) && NoAttemptBefore(s, p, k + 1)
    ensures Scanning(s, p, k + 1, Feed(r, s[k]).mode) && Feed(r, s[k]).naks == r.naks
  {
    if r.mode.Body? {
      HashEndsAttempt(s, p, k, r.mode);
      ScanBodyStep(s, p, k, r);
    } else {
      ScanIdleStep(s, p, k, r);
    }
  }

  lemma FewerAttempts(s: seq<byte>, p: nat, n: nat)
    requires 0 < n && NoAttemptBefore(s, p, n)
    ensures NoAttemptBefore(s, p, n - 1)
  {
  }

  lemma HashEndsAttempt(s: seq<byte>, p: nat, k: nat, mode: Mode)
    requires p <= k < |s| && mode.Body? && Scanning(s, p, k, mode) && NoAttemptBefore(s, p, k + 1)
    ensures s[k] != HASH
  {
    assert s[k] == HASH ==> Attempt(s, p, k - |mode.text| - 1, k);
  }

  lemma SliceMembers(s: seq<byte>, a: nat, b: nat)
    requires a <= b <= |s|
    ensures forall k :: a <= k < b ==> s[k] in s[a..b]
  {
    forall k | a <= k < b ensures s[k] in s[a..b] {
      assert s[a..b][k - a] == s[k];
    }
  }

  lemma ScanIdleStep(s: seq<byte>, p: nat, k: nat, r: Parser)
    requires p <= k < |s| && r.mode.Idle? && Scanning(s, p, k, r.mode)
    ensures Scanning(s, p, k + 1, Feed(r, s[k]).mode)
  {
    if s[k] != DOLLAR {
      forall i | p <= i < k + 1 && s[i] == DOLLAR && DOLLAR !in s[i + 1..k + 1] ensures k + 1 - i >= BUFMAX {
        assert s[i + 1..k + 1] == s[i + 1..k] + [s[k]];
      }
    }
  }

  lemma ScanBodyStep(s: seq<byte>, p: nat, k: nat, r: Parser)
    requires p <= k < |s| && r.mode.Body? && Scanning(s, p, k, r.mode) && s[k] != HASH
    ensures Scanning(s, p, k + 1, Feed(r, s[k]).mode)
  {
    var text := r.mode.text;
    var i := k - |text|;
    SliceSnoc(s, i, k);
    if s[k] != DOLLAR && |text| + 1 == BUFMAX - 1 {
      SliceMembers(s, i, k + 1);
    }
  }

  /** At the '#' of the first attempt the automaton has collected exactly its payload. */
  lemma CollectedPayload(s: seq<byte>, p: nat, i: nat, j: nat, st: Parser)
    requires FirstAttempt(s, p, i, j) && st.mode.Idle?
    ensures Run(st, s, p, j) == Parser(Body(s[i + 1..j]), st.naks)
    ensures forall n :: p <= n <= j ==> !Run(st, s, p, n).mode.Done?
  {
    forall n | p <= n <= j ensures !Run(st, s, p, n).mode.Done? {
      var r := ScanToAttempt(s, p, n, st);
    }
    var r := ScanToAttempt(s, p, j, st);
    var mode := r.mode;
    assert mode.Body?;
    SliceMembers(s, i + 1, j);
    SliceMembers(s, j - |mode.text|, j);
  }

  /** The automaton on one whole attempt: payload, '#' and the two checksum characters. */
  lemma RunAttempt(s: seq<byte>, p: nat, i: nat, j: nat, st: Parser)
    requires FirstAttempt(s, p, i, j) && j + 2 < |s| && st.mode.Idle?
    ensures p <= i < j && j - i < BUFMAX
    ensures forall n :: p <= n < j + 3 ==> !Run(st, s, p, n).mode.Done?
    ensures Run(st, s, p, j + 3)
         == if Matches(s, i, j) then Parser(Done(s[i + 1..j]), st.naks) else Parser(Idle, st.naks + 1)
  {
    CollectedPayload(s, p, i, j, st);
    assert Run(st, s, p, j + 1) == Parser(Sum(s[i + 1..j]), st.naks);
    assert Run(st, s, p, j + 2) == Parser(Sum2(s[i + 1..j], s[j + 1]), st.naks);
  }

  /** A stream that `Decodes` drives the automaton to acceptance, at the end of the frame and not before. */
  lemma {:induction false} DecodesIsAccepted(s: seq<byte>, p: nat, fails: nat, i: nat, j: nat, st: Parser)
    requires Decodes(s, p, fails, i, j) && st.mode.Idle?
    ensures p <= i < j && j + 2 < |s| && j - i <= BUFMAX - 1
    ensures forall n :: p <= n < j + 3 ==> !Run(st, s, p, n).mode.Done?
    ensures Run(st, s, p, j + 3) == Parser(Done(s[i + 1..j]), st.naks + fails)
    decreases fails
  {
    hide *;
    var a: nat, b: nat := FirstOf(s, p, fails, i, j);
    RunAttempt(s, p, a, b, st);
    if !Matches(s, a, b) {
      var mid := Parser(Idle, st.naks + 1);
      DecodesIsAccepted(s, b + 3, fails - 1, i, j, mid);
      RunSplit(st, s, p, b + 3, j + 3);
      forall n | b + 3 <= n < j + 3 ensures !Run(st, s, p, n).mode.Done? {
        RunSplit(st, s, p, b + 3, n);
      }
    }
  }

  lemma FirstOf(s: seq<byte>, p: nat, fails: nat, i: nat, j: nat) returns (a: nat, b: nat)
    requires Decodes(s, p, fails, i, j)
    ensures FirstAttempt(s, p, a, b) && b + 2 < |s|
    ensures if Matches(s, a, b) then fails == 0 && i == a && j == b
            else fails > 0 && Decodes(s, b + 3, fails - 1, i, j)
  {
    a, b :| FirstAttempt(s, p, a, b) && b + 2 < |s| &&
      if Matches(s, a, b) then fails == 0 && i == a && j == b
      else fails > 0 && Decodes(s, b + 3, fails - 1, i, j);
  }

  /** If the automaton accepts at all, it accepts the frame `Decodes` describes. */
  lemma {:induction false} AcceptedDecodes(s: seq<byte>, p: nat, n: nat, st: Parser)
      returns (fails: nat, i: nat, j: nat)
    requires p <= n <= |s| && st.mode.Idle? && Run(st, s, p, n).mode.Done?
    ensures Decodes(s, p, fails, i, j) && j + 3 <= n
    decreases n - p
  {
    var a: nat, b: nat := EarliestAttempt(s, p, n, st);
    RunAttempt(s, p, a, b, st);
    if Matches(s, a, b) {
      fails, i, j := 0, a, b;
    } else {
      var mid := Parser(Idle, st.naks + 1);
      RunSplit(st, s, p, b + 3, n);
      var f: nat;
      f, i, j := AcceptedDecodes(s, b + 3, n, mid);
      fails := f + 1;
    }
  }

  lemma EarliestAttempt(s: seq<byte>, p: nat, n: nat, st: Parser) returns (a: nat, b: nat)
    requires p <= n <= |s| && st.mode.Idle? && Run(st, s, p, n).mode.Done?
    ensures FirstAttempt(s, p, a, b) && b + 3 <= n
  {
    if NoAttemptBefore(s, p, n) {
      var r := ScanToAttempt(s, p, n, st);
      assert false;
    }
    a, b := FindFirst(s, p, n);
    CollectedPayload(s, p, a, b, st);
    assert Run(st, s, p, b + 1).mode.Sum?;
    assert b + 2 <= n ==> Run(st, s, p, b + 2).mode.Sum2?;
  }

  /** Some attempt ends before `n`: take the one that ends first. */
  lemma {:induction false} FindFirst(s: seq<byte>, p: nat, n: nat) returns (i: nat, j: nat)
    requires exists a: nat, b: nat :: Attempt(s, p, a, b) && b < n
    ensures FirstAttempt(s, p, i, j) && j < n
    decreases n
  {
    i, j :| Attempt(s, p, i, j) && j < n;
    if exists a: nat, b: nat :: Attempt(s, p, a, b) && b < j {
      i, j := FindFirst(s, p, j);
    }
  }

  // ----- the contents of remcomInBuffer -----

  /** The buffer after one more character: payload characters are stored as they come. */
  function Store(buf: seq<byte>, mode: Mode, ch: byte): (r: seq<byte>)
    ensures |r| == |buf|
  {
    if !mode.Body? || ch == DOLLAR || |mode.text| + 1 >= |buf| then buf
    else if ch == HASH then buf[|mode.text| := 0]
    else if |mode.text| + 1 < BUFMAX - 1 then buf[|mode.text| := ch]
    else buf[|mode.text| := ch][|mode.text| + 1 := 0]
  }

  function Stored(buf: seq<byte>, st: Parser, s: seq<byte>, p: nat, n: nat): (r: seq<byte>)
    requires p <= n <= |s|
    ensures |r| == |buf|
    decreases n
  {
    if n == p then buf else Store(Stored(buf, st, s, p, n - 1), Run(st, s, p, n - 1).mode, s[n - 1])
  }

  /** The buffer always holds the payload collected so far, terminated once it is complete. */
  ghost predicate Holds(buf: seq<byte>, mode: Mode) {
    && |buf| == BUFMAX
    && (mode.Idle? || (|mode.text| < BUFMAX - 1 && mode.text <= buf))
    && (mode.Idle? || mode.Body? || buf[|mode.text|] == 0)
  }

  lemma HoldsStep(buf: seq<byte>, st: Parser, ch: byte)
    requires Holds(buf, st.mode)
    ensures Holds(Store(buf, st.mode, ch), Feed(st, ch).mode)
  {
  }

  lemma {:induction false} BufferHolds(buf: seq<byte>, st: Parser, s: seq<byte>, p: nat, n: nat)
    requires p <= n <= |s| && Holds(buf, st.mode)
    ensures Holds(Stored(buf, st, s, p, n), Run(st, s, p, n).mode)
    decreases n
  {
    if p < n {
      BufferHolds(buf, st, s, p, n - 1);
      HoldsStep(Stored(buf, st, s, p, n - 1), Run(st, s, p, n - 1), s[n - 1]);
    }
  }

  /** The reply to a sequence number, which is recognised by the ':' at `buffer[2]`. */
  function SequenceReply(buf: seq<byte>): seq<byte>
    requires |buf| == BUFMAX
  {
    if buf[2] == COLON then buf[..2] else []
  }

  /** Exactly when the third character is ':', the first two are sent back, in their order. */
  lemma SequenceEchoed(buf: seq<byte>)
    requires |buf| == BUFMAX
    ensures var r := SequenceReply(buf);
      if buf[2] == ':' as int then |r| == 2 && r[0] == buf[0] && r[1] == buf[1] else r == []
  {
  }

  /** Two checksum digits stand for the byte they print, high digit first. */
  lemma ChecksumByte(hi: byte, lo: byte)
    requires IsHex(hi) && IsHex(lo)
    ensures DigitsByte(hi, lo) == 16 * Hex(hi) + Hex(lo)
  {
  }

  // ----- printer and parser -----

  /** A frame behind '$'-free noise is the frame that is accepted. */
  lemma FrameDecodes(s: seq<byte>, p: nat, i: nat, text: seq<byte>)
    requires p <= i && i + |text| + 4 <= |s|
    requires DOLLAR !in s[p..i] && s[i..i + |text| + 4] == Frame(text)
    requires Plain(text) && |text| < BUFMAX - 1
    ensures Decodes(s, p, 0, i, i + 1 + |text|)
  {
    var c := Checksum(text);
    ChecksumDigits(c);
    ShapeDecodes(s, p, i, text, HexChar(c / 16), HexChar(c % 16));
  }

  lemma ShapeDecodes(s: seq<byte>, p: nat, i: nat, text: seq<byte>, hi: byte, lo: byte)
    requires p <= i && i + |text| + 4 <= |s|
    requires DOLLAR !in s[p..i] && s[i..i + |text| + 4] == [DOLLAR] + text + [HASH, hi, lo]
    requires Plain(text) && |text| < BUFMAX - 1 && Checksum(text) == DigitsByte(hi, lo)
    ensures Decodes(s, p, 0, i, i + 1 + |text|)
  {
    var j := i + 1 + |text|;
    ShapeChars(s, i, text, hi, lo);
    assert FirstAttempt(s, p, i, j) by {
      SliceMembers(s, p, i);
      SliceMembers(s, i + 1, j);
    }
    assert Matches(s, i, j);
  }

  lemma ShapeChars(s: seq<byte>, i: nat, text: seq<byte>, hi: byte, lo: byte)
    requires i + |text| + 4 <= |s| && s[i..i + |text| + 4] == [DOLLAR] + text + [HASH, hi, lo]
    ensures s[i] == DOLLAR && s[i + 1..i + 1 + |text|] == text && s[i + 1 + |text|] == HASH
    ensures s[i + 2 + |text|] == hi && s[i + 3 + |text|] == lo
  {
    var t := s[i..i + |text| + 4];
    assert t[0] == s[i] && t[1 + |text|] == s[i + 1 + |text|];
    assert t[2 + |text|] == s[i + 2 + |text|] && t[3 + |text|] == s[i + 3 + |text|];
    assert t[1..1 + |text|] == text;
    SliceOfSlice(s, i, i + |text| + 4, 1, 1 + |text|);
  }

  // ----- the receiver and transmitter loops -----

  function Repeat(b: byte, n: nat): (s: seq<byte>)
    ensures |s| == n && forall i :: 0 <= i < n ==> s[i] == b
  {
    seq(n, _ => b)
  }

  function RepeatAll(f: seq<byte>, n: nat): seq<byte> {
    if n == 0 then [] else RepeatAll(f, n - 1) + f
  }

  lemma RepeatNone(f: seq<byte>)
    ensures RepeatAll(f, 0) == []
  {
  }

  lemma RepeatOnce(before: seq<byte>, f: seq<byte>, n: nat)
    ensures before + RepeatAll(f, n) + f == before + RepeatAll(f, n + 1)
  {
    ConcatAssociates(before, RepeatAll(f, n), f);
  }

  /** The `k`-th copy of `f` in `out`, copies starting at `base`. */
  predicate CopyAt(out: seq<byte>, base: nat, f: seq<byte>, k: nat) {
    base + (k + 1) * |f| <= |out| && out[base + k * |f|..base + (k + 1) * |f|] == f
  }

  /** `out` is `before`, then `n` copies of `f`, and nothing more. */
  ghost predicate Repeated(before: seq<byte>, out: seq<byte>, f: seq<byte>, n: nat) {
    before <= out && |out| == |before| + n * |f| && forall k :: 0 <= k < n ==> CopyAt(out, |before|, f, k)
  }

  lemma {:induction false} RepeatAllRepeated(before: seq<byte>, f: seq<byte>, n: nat)
    ensures Repeated(before, before + RepeatAll(f, n), f, n)
    decreases n
  {
    if n > 0 {
      RepeatAllRepeated(before, f, n - 1);
      ConcatAssociates(before, RepeatAll(f, n - 1), f);
      OneMoreCopy(before, before + RepeatAll(f, n - 1), f, n - 1);
    }
  }

  lemma OneMoreCopy(before: seq<byte>, out: seq<byte>, f: seq<byte>, n: nat)
    requires Repeated(before, out, f, n)
    ensures Repeated(before, out + f, f, n + 1)
  {
    assert (n + 1) * |f| == n * |f| + |f|;
    forall k | 0 <= k < n + 1 ensures CopyAt(out + f, |before|, f, k) {
      if k < n {
        EarlierCopy(out, f, |before|, f, k);
      } else {
        assert (out + f)[|out|..|out| + |f|] == f;
      }
    }
  }

  lemma EarlierCopy(out: seq<byte>, more: seq<byte>, base: nat, f: seq<byte>, k: nat)
    requires CopyAt(out, base, f, k)
    ensures CopyAt(out + more, base, f, k)
  {
    var a, b := base + k * |f|, base + (k + 1) * |f|;
    assert (k + 1) * |f| == k * |f| + |f|;
    assert (out + more)[a..b] == out[a..b];
  }

  const START := Parser(Idle, 0)

  /** Where a call of `GetPacket` began, and the frame it is going to return. */
  datatype Watch = Watch(pos: nat, buffer: seq<byte>, output: seq<byte>, fails: nat, i: nat, j: nat)

  class SerialLink {
    const input: seq<byte>    // everything the host sends, in order
    var pos: nat              // how much of it has been read
    var output: seq<byte>     // everything sent to the host
    const buffer: array<byte> // remcomInBuffer

    ghost predicate Valid()
      reads this
    {
      buffer.Length == BUFMAX && pos <= |input|
    }

    constructor (input: seq<byte>)
      ensures Valid() && fresh(buffer) && pos == 0 && output == [] && this.input == input
    {
      this.input := input;
      pos, output := 0, [];
      buffer := new byte[BUFMAX];
    }

    /** The call is where the automaton is after the characters read so far. */
    ghost predicate Synced(w: Watch, st: Parser)
      reads this
    {
      && Valid() && w.pos <= pos <= w.j + 3 <= |input| && |w.buffer| == BUFMAX
      && Decodes(input, w.pos, w.fails, w.i, w.j)
      && st == Run(START, input, w.pos, pos)
      && output == w.output + Repeat(MINUS, st.naks)
      && (st.mode.Done? <==> pos == w.j + 3)
    }

    /** What the automaton says the buffer should hold. */
    ghost function Expected(w: Watch, st: Parser): (b: seq<byte>)
      requires Synced(w, st)
      reads this
      ensures |b| == BUFMAX
    {
      Stored(w.buffer, START, input, w.pos, pos)
    }

    method GetDebugChar() returns (ch: byte)
      requires Valid() && pos < |input|
      modifies this`pos
      ensures Valid() && pos == old(pos) + 1 && ch == input[old(pos)]
    {
      ch := input[pos];
      pos := pos + 1;
    }

    method PutDebugChar(ch: byte)
      requires Valid()
      modifies this`output
      ensures Valid() && output == old(output) + [ch]
    {
      output := output + [ch];
    }

    /** `getDebugChar` within a call of `GetPacket`. A '-' or '+' that the character calls for is still to
      * be sent, and the character still to be stored. */
    method NextChar(ghost w: Watch, ghost st: Parser) returns (ch: byte, ghost next: Parser)
      requires Synced(w, st) && !st.mode.Done?
      modifies this`pos
      ensures pos == old(pos) + 1 && w.pos <= pos <= w.j + 3 <= |input| && Valid()
      ensures next == Feed(st, ch) && next == Run(START, input, w.pos, pos)
      ensures next.mode.Done? <==> pos == w.j + 3
      ensures Stored(w.buffer, START, input, w.pos, pos) == Store(old(Expected(w, st)), st.mode, ch)
    {
      DecodesIsAccepted(input, w.pos, w.fails, w.i, w.j, START);
      ch := GetDebugChar();
      next := Feed(st, ch);
    }

    /** Ignores everything up to and including a '$'. */
    method AwaitDollar(ghost w: Watch, ghost st: Parser) returns (ghost next: Parser)
      requires Synced(w, st) && st.mode.Idle? && buffer[..] == Expected(w, st)
      modifies this`pos
      ensures Synced(w, next) && next.mode == Body([]) && buffer[..] == Expected(w, next)
      ensures pos > old(pos)
    {
      var ch: byte;
      ch, next := NextChar(w, st);
      while ch != DOLLAR
        invariant Synced(w, next) && next.mode == (if ch == DOLLAR then Body([]) else Idle)
        invariant pos > old(pos) && buffer[..] == Expected(w, next)
        decreases w.j + 3 - pos
      {
        ch, next := NextChar(w, next);
      }
    }

    /** Reads up to a '#' or until the buffer is full, starting afresh at every further '$'. */
    method ReadPayload(ghost w: Watch, ghost st: Parser) returns (ch: byte, checksum: byte, ghost next: Parser)
      requires Synced(w, st) && st.mode == Body([]) && buffer[..] == Expected(w, st)
      modifies this`pos, buffer
      ensures Synced(w, next) && buffer[..] == Expected(w, next) && pos >= old(pos)
      ensures if ch == HASH then next.mode.Sum? && checksum == Checksum(next.mode.text) else next.mode.Idle?
    {
      next, ch, checksum := st, DOLLAR, 0;
      var count := 0;
      while count < BUFMAX - 1
        invariant Synced(w, next) && 0 <= count <= BUFMAX - 1 && pos >= old(pos)
        invariant if count < BUFMAX - 1
                  then next.mode.Body? && |next.mode.text| == count && checksum == Checksum(next.mode.text)
                  else next.mode.Idle? && ch != HASH
        invariant (if count < BUFMAX - 1 then buffer[..] else buffer[..][count := 0]) == Expected(w, next)
        decreases w.j + 3 - pos
      {
        ghost var text := next.mode.text;
        ch, next := NextChar(w, next);
        if ch == DOLLAR {
          checksum, count := 0, 0; // goto retry
          continue;
        }
        if ch == HASH {
          break;
        }
        assert (text + [ch])[..count] == text;
        checksum := Add8(checksum, ch);
        buffer[count] := ch;
        count := count + 1;
      }
      buffer[count] := 0;
    }

    /** Compares the checksums and answers. */
    method CheckPacket(ghost w: Watch, ghost st: Parser, checksum: byte) returns (accepted: bool, ghost next: Parser)
      requires Synced(w, st) && buffer[..] == Expected(w, st)
      requires st.mode.Sum? && checksum == Checksum(st.mode.text)
      modifies this`pos, this`output
      ensures Valid() && w.pos <= pos <= |input| && pos > old(pos) && next == Run(START, input, w.pos, pos)
      ensures buffer[..] == Stored(w.buffer, START, input, w.pos, pos)
      ensures if accepted
              then pos == w.j + 3 && output == old(output) + [PLUS] && next.naks == st.naks
              else Synced(w, next) && next.mode.Idle?
    {
      var ch: byte;
      ch, next := NextChar(w, st);
      var xmitcsum: byte := if IsHex(ch) then 16 * Hex(ch) else 0xF0;
      ch, next := NextChar(w, next);
      xmitcsum := Add8(xmitcsum, Hex(ch));
      if checksum != xmitcsum {
        PutDebugChar(MINUS);
        assert Repeat(MINUS, st.naks) + [MINUS] == Repeat(MINUS, next.naks);
        accepted := false;
      } else {
        PutDebugChar(PLUS);
        accepted := true;
      }
    }

    /** Reads one packet and returns where its text starts in `buffer`. The stream must hold a frame the
      * receiver accepts, since it waits for one; the ghost arguments say which frame that is. */
    method GetPacket(ghost fails: nat, ghost i: nat, ghost j: nat) returns (start: nat)
      requires Valid() && Decodes(input, pos, fails, i, j)
      modifies this`pos, this`output, buffer
      ensures Valid() && pos == j + 3 && old(pos) <= i < j && j - i < BUFMAX
      ensures buffer[..] == Stored(old(buffer[..]), START, input, old(pos), pos)
      ensures input[i + 1..j] <= buffer[..] && buffer[j - i - 1] == 0
      ensures output == old(output) + Repeat(MINUS, fails) + [PLUS] + SequenceReply(buffer[..])
      ensures start == StartIn(buffer[..])
    {
      hide Run, Stored, Decodes, Checksum;
      ghost var w, st := Watch(pos, buffer[..], output, fails, i, j), START;
      AcceptedRun(input, pos, fails, i, j);
      NothingRead(buffer[..], START, input, pos);
      assert output + Repeat(MINUS, 0) == output;
      var accepted := false;
      while !accepted
        invariant if accepted
                  then Valid() && pos == j + 3 && output == w.output + Repeat(MINUS, fails) + [PLUS]
                  else Synced(w, st) && st.mode.Idle?
        invariant w.pos <= pos <= j + 3 <= |input| && buffer[..] == Stored(w.buffer, START, input, w.pos, pos)
        decreases j + 3 - pos, !accepted
      {
        st := AwaitDollar(w, st);
        var ch, checksum;
        ch, checksum, st := ReadPayload(w, st);
        if ch == HASH {
          accepted, st := CheckPacket(w, st, checksum);
          assert accepted ==> st.naks == fails;
        }
      }
      FinalBuffer(w.buffer, input, w.pos, fails, i, j);
      start := 0;
      if buffer[2] == COLON {
        PutDebugChar(buffer[0]);
        PutDebugChar(buffer[1]);
        start := 3;
      }
    }

    /** One pass over the message: "$<message>#<checksum>". */
    method EmitFrame(msg: array<byte>)
      requires Valid() && |CStr(msg[..], 0)| < msg.Length
      modifies this`output
      ensures Valid() && output == old(output) + Frame(CStr(msg[..], 0))
    {
      ghost var text := CStr(msg[..], 0);
      ghost var sent := [DOLLAR];
      PutDebugChar(DOLLAR);
      var checksum: byte, count := 0, 0;
      while msg[count] != 0
        invariant Valid() && 0 <= count <= |text| && checksum == Checksum(text[..count])
        invariant sent == [DOLLAR] + text[..count] && output == old(output) + sent
        decreases |text| - count
      {
        var ch := msg[count];
        assert text[..count + 1] == text[..count] + [ch];
        ConcatAssociates([DOLLAR], text[..count], [ch]);
        ConcatAssociates(old(output), sent, [ch]);
        sent := sent + [ch];
        PutDebugChar(ch);
        checksum := Add8(checksum, ch);
        count := count + 1;
      }
      assert text[..count] == text;
      var hi, lo := HexChar(checksum / 16), HexChar(checksum % 16);
      assert Frame(text) == sent + [HASH] + [hi] + [lo];
      PutDebugChar(HASH);
      PutDebugChar(hi);
      PutDebugChar(lo);
      Appended(old(output), sent, [HASH], [hi], [lo]);
    }

    /** Sends the message until the host answers '+'; `ack` is where that '+' is in the stream. */
    method PutPacket(msg: array<byte>, ghost ack: nat)
      requires Valid() && |CStr(msg[..], 0)| < msg.Length
      requires pos <= ack < |input| && input[ack] == PLUS && PLUS !in input[pos..ack]
      modifies this`pos, this`output
      ensures Valid() && pos == ack + 1
      ensures output == old(output) + RepeatAll(Frame(CStr(msg[..], 0)), pos - old(pos))
      ensures Repeated(old(output), output, Frame(CStr(msg[..], 0)), pos - old(pos))
    {
      hide RepeatAll, CStr, Frame, Repeated;
      ghost var f := Frame(CStr(msg[..], 0));
      SliceMembers(input, pos, ack);
      RepeatNone(f);
      var ch: byte := 0;
      while ch != PLUS
        invariant Valid() && old(pos) <= pos <= ack + 1 && (ch == PLUS <==> pos == ack + 1)
        invariant output == old(output) + RepeatAll(f, pos - old(pos))
        decreases ack + 1 - pos
      {
        RepeatOnce(old(output), f, pos - old(pos));
        EmitFrame(msg);
        ch := GetDebugChar();
      }
      RepeatAllRepeated(old(output), f, pos - old(pos));
    }
  }

  lemma Appended<T>(a: seq<T>, b: seq<T>, c: seq<T>, d: seq<T>, e: seq<T>)
    ensures a + b + c + d + e == a + (b + c + d + e)
  {
  }

  lemma AcceptedRun(s: seq<byte>, p: nat, fails: nat, i: nat, j: nat)
    requires Decodes(s, p, fails, i, j)
    ensures p <= i < j && j + 2 < |s| && j - i <= BUFMAX - 1
    ensures Run(START, s, p, j + 3) == Parser(Done(s[i + 1..j]), fails)
  {
    DecodesIsAccepted(s, p, fails, i, j, START);
  }

  /** The buffer of a completed call holds the accepted payload. */
  lemma FinalBuffer(buf: seq<byte>, s: seq<byte>, p: nat, fails: nat, i: nat, j: nat)
    requires |buf| == BUFMAX && Decodes(s, p, fails, i, j)
    ensures p <= i < j && j + 3 <= |s| && j - i < BUFMAX
    ensures var b := Stored(buf, START, s, p, j + 3); s[i + 1..j] <= b && b[j - i - 1] == 0
  {
    hide Run, Stored;
    AcceptedRun(s, p, fails, i, j);
    BufferHolds(buf, START, s, p, j + 3);
    HoldsPayload(Stored(buf, START, s, p, j + 3), s[i + 1..j], Run(START, s, p, j + 3).mode);
  }

  lemma HoldsPayload(buf: seq<byte>, text: seq<byte>, mode: Mode)
    requires mode == Done(text) && Holds(buf, mode)
    ensures |text| < |buf| && text <= buf && buf[|text|] == 0
  {
  }

  // ----- round trip -----

  lemma {:induction false} NoiseIgnored(buf: seq<byte>, s: seq<byte>, p: nat, n: nat)
    requires p <= n <= |s| && DOLLAR !in s[p..n]
    ensures Run(START, s, p, n) == START && Stored(buf, START, s, p, n) == buf
    decreases n
  {
    if p < n {
      SliceSnoc(s, p, n - 1);
      NoiseIgnored(buf, s, p, n - 1);
    }
  }

  lemma {:induction false} BodyStored(buf: seq<byte>, s: seq<byte>, p: nat, i: nat, text: seq<byte>, n: nat)
    requires p <= i && i + 1 + |text| <= |s| && n <= |text| < BUFMAX - 1 && |buf| == BUFMAX
    requires DOLLAR !in s[p..i] && s[i] == DOLLAR && s[i + 1..i + 1 + |text|] == text && Plain(text)
    ensures Run(START, s, p, i + 1 + n) == Parser(Body(text[..n]), 0)
    ensures Stored(buf, START, s, p, i + 1 + n) == text[..n] + buf[n..]
    decreases n
  {
    if n == 0 {
      NoiseIgnored(buf, s, p, i);
    } else {
      BodyStored(buf, s, p, i, text, n - 1);
      assert s[i + n] == text[n - 1] by {
        assert s[i + 1..i + 1 + |text|][n - 1] == s[i + n];
      }
      assert text[..n] == text[..n - 1] + [text[n - 1]];
    }
  }

  /** Noise and a frame leave exactly the payload and a NUL in the buffer; the rest stays as it was. */
  lemma FrameStored(buf: seq<byte>, s: seq<byte>, p: nat, i: nat, text: seq<byte>)
    requires p <= i && i + |text| + 4 <= |s| && |buf| == BUFMAX
    requires DOLLAR !in s[p..i] && s[i..i + |text| + 4] == Frame(text)
    requires Plain(text) && |text| < BUFMAX - 1
    ensures Stored(buf, START, s, p, i + |text| + 4) == text + [0] + buf[|text| + 1..]
  {
    var hi, lo := FrameDigits(text);
    var j := i + 1 + |text|;
    hide Run, Stored, Frame, Checksum, DigitsByte;
    ShapeChars(s, i, text, hi, lo);
    BodyStored(buf, s, p, i, text, |text|);
    assert text[..|text|] == text;
    StoredSnoc(buf, s, p, j);
    StoredSnoc(buf, s, p, j + 1);
    StoredSnoc(buf, s, p, j + 2);
    Terminated(text, buf);
  }

  lemma Terminated(text: seq<byte>, buf: seq<byte>)
    requires |text| < |buf|
    ensures (text + buf[|text|..])[|text| := 0] == text + [0] + buf[|text| + 1..]
  {
  }

  lemma StoredSnoc(buf: seq<byte>, s: seq<byte>, p: nat, n: nat)
    requires p <= n < |s|
    ensures Run(START, s, p, n + 1) == Feed(Run(START, s, p, n), s[n])
    ensures Stored(buf, START, s, p, n + 1) == Store(Stored(buf, START, s, p, n), Run(START, s, p, n).mode, s[n])
  {
  }

  /** The character that decides whether a sequence number is recognised. */
  function Decider(buf: seq<byte>, text: seq<byte>): byte
    requires |buf| == BUFMAX
  {
    if |text| >= 3 then text[2] else if |text| == 2 then 0 else buf[2]
  }

  /** Where `getpacket` says the text in its buffer starts. */
  function StartIn(buf: seq<byte>): nat
    requires |buf| == BUFMAX
  {
    if buf[2] == COLON then 3 else 0
  }

  /** The string returned is the text received exactly when no ':' decides otherwise, or a stale one does and the
    * string behind it happens to be the text. */
  predicate ReadsBack(buf: seq<byte>, text: seq<byte>)
    requires |buf| == BUFMAX
  {
    Decider(buf, text) != COLON || (|text| <= 1 && CStr(buf, 3) == text)
  }

  /** What a text and its NUL, stored over an older buffer, are read as. */
  lemma ReadBack(buf: seq<byte>, text: seq<byte>)
    requires |buf| == BUFMAX && 0 !in text && |text| < BUFMAX - 1
    ensures var b := text + [0] + buf[|text| + 1..];
      && CStr(b, 0) == text && b[2] == Decider(buf, text)
      && (CStr(b, StartIn(b)) == text <==> ReadsBack(buf, text))
  {
    var b := text + [0] + buf[|text| + 1..];
    assert b[0..|text|] == text;
    CStrIs(b, 0, text);
    if b[2] == COLON {
      if |text| <= 1 {
        CStrSame(b, buf, 3);
      } else {
        assert |text| > 2 && b[3..|text|] == text[3..] && 0 !in text[3..];
        CStrIs(b, 3, text[3..]);
      }
    }
  }

  lemma {:induction false} CStrSame(a: seq<byte>, b: seq<byte>, p: nat)
    requires |a| == |b| && forall k :: p <= k < |a| ==> a[k] == b[k]
    ensures CStr(a, p) == CStr(b, p)
    decreases |a| - p
  {
    if p < |a| && a[p] != 0 {
      CStrSame(a, b, p + 1);
    }
  }

  /** One pass of `putpacket`, behind noise without a '$', is accepted by `getpacket`, consuming just that frame, and
    * what is returned is the text it was given exactly when no ':' decides otherwise: a ':' in third place of the
    * text, or for a text shorter than two characters a stale one. */
  lemma RoundTrip(buf: seq<byte>, s: seq<byte>, p: nat, i: nat, text: seq<byte>)
    requires p <= i && i + |Frame(text)| <= |s| && |buf| == BUFMAX
    requires DOLLAR !in s[p..i] && s[i..i + |Frame(text)|] == Frame(text)
    requires Plain(text) && 0 !in text && |text| < BUFMAX - 1
    ensures Decodes(s, p, 0, i, i + 1 + |text|)
    ensures var b := Stored(buf, START, s, p, i + |Frame(text)|);
      && CStr(b, 0) == text && b[2] == Decider(buf, text)
      && (CStr(b, StartIn(b)) == text <==> ReadsBack(buf, text))
  {
    hide Run, Stored, Frame, CStr;
    FrameDecodes(s, p, i, text);
    FrameStored(buf, s, p, i, text);
    ReadBack(buf, text);
  }

  predicate Sendable(text: seq<byte>) {
    Plain(text) && |text| < BUFMAX - 1
  }

  /** Two packets in a row: the second is received over what the first left in the buffer. */
  lemma TwoFrames(buf: seq<byte>, first: seq<byte>, second: seq<byte>)
    requires |buf| == BUFMAX && Sendable(first) && Sendable(second)
    ensures var s, p := Frame(first) + Frame(second), |first| + 4;
      && Decodes(s, 0, 0, 0, |first| + 1) && Decodes(s, p, 0, p, p + |second| + 1)
      && Stored(Stored(buf, START, s, 0, p), START, s, p, |s|)
         == second + [0] + (first + [0] + buf[|first| + 1..])[|second| + 1..]
  {
    var s, p := Frame(first) + Frame(second), |first| + 4;
    hide Run, Stored, Frame, Decodes, Plain;
    assert s[0..p] == Frame(first) && s[p..p + |second| + 4] == Frame(second);
    assert s[0..0] == [] && s[p..p] == [];
    FrameDecodes(s, 0, 0, first);
    FrameDecodes(s, p, p, second);
    FrameStored(buf, s, 0, 0, first);
    FrameStored(first + [0] + buf[|first| + 1..], s, p, p, second);
  }

  /** The text of one packet spoils the next: received after three characters that end in ':', such as "ab:", a packet
    * of one character is returned as the empty string. */
  lemma StaleColon(buf: seq<byte>, first: seq<byte>, second: seq<byte>)
    requires |buf| == BUFMAX && Sendable(first) && Sendable(second)
    requires |first| == 3 && first[2] == COLON && |second| == 1
    ensures var s, p := Frame(first) + Frame(second), |first| + 4;
      && Decodes(s, 0, 0, 0, |first| + 1) && Decodes(s, p, 0, p, p + |second| + 1)
      && var b := Stored(Stored(buf, START, s, 0, p), START, s, p, |s|);
         b[2] == COLON && StartIn(b) == 3 && CStr(b, 3) == [] != second
  {
    hide Run, Stored, Frame, Decodes, Sendable, CStr;
    TwoFrames(buf, first, second);
    StaleBuffer(buf, first, second);
  }

  lemma StaleBuffer(buf: seq<byte>, first: seq<byte>, second: seq<byte>)
    requires |buf| == BUFMAX && |first| == 3 && first[2] == COLON && |second| == 1
    ensures var b := second + [0] + (first + [0] + buf[|first| + 1..])[|second| + 1..];
      |b| == BUFMAX && b[2] == COLON && StartIn(b) == 3 && CStr(b, 3) == []
  {
  }
}
