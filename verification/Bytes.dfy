/** Bytes, 32-bit words and byte-array updates, as the C sources use them. */
module Bytes {

  type byte = b: int | 0 <= b < 0x100
  type u32 = w: int | 0 <= w < 0x1_0000_0000

  /** `m` with the bytes `bs` written from index `a` on. */
  function Splice(m: seq<byte>, a: nat, bs: seq<byte>): (r: seq<byte>)
    requires a + |bs| <= |m|
    ensures |r| == |m|
    ensures forall i :: 0 <= i < |r| ==> r[i] == if a <= i < a + |bs| then bs[i - a] else m[i]
  {
    seq(|m|, i requires 0 <= i < |m| => if a <= i < a + |bs| then bs[i - a] else m[i])
  }

  lemma SliceOfSlice<T>(s: seq<T>, a: nat, b: nat, c: nat, d: nat)
    requires a <= b <= |s| && c <= d <= b - a
    ensures s[a..b][c..d] == s[a + c..a + d]
  {
    var l, r := s[a..b][c..d], s[a + c..a + d];
    forall k | 0 <= k < d - c ensures l[k] == r[k] {
      assert l[k] == s[a..b][c + k] == s[a + c + k];
    }
  }

  lemma SliceSnoc<T>(s: seq<T>, a: nat, b: nat)
    requires a <= b < |s|
    ensures s[a..b + 1] == s[a..b] + [s[b]]
  {
  }

  lemma ConcatAssociates<T>(a: seq<T>, b: seq<T>, c: seq<T>)
    ensures (a + b) + c == a + (b + c)
  {
  }

  /** First-in first-out over two stretches: what was there and came in is what went out and remains. */
  lemma FlowComposes<T>(q: seq<T>, came: seq<T>, went: seq<T>, mid: seq<T>, came': seq<T>, went': seq<T>, end: seq<T>)
    requires q + came == went + mid && mid + came' == went' + end
    ensures q + (came + came') == (went + went') + end
  {
    ConcatAssociates(q, came, came');
    ConcatAssociates(went, mid, came');
    ConcatAssociates(went, went', end);
  }

  lemma SpliceIs(m: seq<byte>, r: seq<byte>, a: nat, bs: seq<byte>)
    requires |r| == |m| && a + |bs| <= |m|
    requires forall i :: 0 <= i < |bs| ==> r[a + i] == bs[i]
    requires forall i :: 0 <= i < a || a + |bs| <= i < |m| ==> r[i] == m[i]
    ensures r == Splice(m, a, bs)
  {
    forall i | a <= i < a + |bs| ensures r[i] == bs[i - a] {
      assert r[a + (i - a)] == bs[i - a];
    }
  }

  function WordOf(b0: byte, b1: byte, b2: byte, b3: byte): u32 {
    b0 as int + 0x100 * (b1 as int + 0x100 * (b2 as int + 0x100 * b3 as int))
  }

  /** The little-endian word stored at index `a`. */
  function Word(m: seq<byte>, a: nat): u32
    requires a + 4 <= |m|
  {
    WordOf(m[a], m[a + 1], m[a + 2], m[a + 3])
  }

  /** The four bytes of `w`, least significant first. */
  function WordBytes(w: u32): (s: seq<byte>)
    ensures |s| == 4
  {
    [w % 0x100, w / 0x100 % 0x100, w / 0x1_0000 % 0x100, w / 0x100_0000]
  }

  lemma SplitWord(w: u32)
    ensures var s := WordBytes(w); WordOf(s[0], s[1], s[2], s[3]) == w
  {
    var t := w as int / 0x100;
    var u := t / 0x100;
    assert t == w / 0x100 && u == w / 0x1_0000 && u / 0x100 == w / 0x100_0000;
  }

  lemma JoinWord(b0: byte, b1: byte, b2: byte, b3: byte)
    ensures WordBytes(WordOf(b0, b1, b2, b3)) == [b0, b1, b2, b3]
  {
    var w := WordOf(b0, b1, b2, b3);
    var u: int := b2 as int + 0x100 * b3 as int;
    var t: int := b1 as int + 0x100 * u;
    assert w / 0x100 == t && w % 0x100 == b0;
    assert t / 0x100 == u && t % 0x100 == b1;
    assert u / 0x100 == b3 && u % 0x100 == b2;
    assert w / 0x1_0000 == t / 0x100 && w / 0x100_0000 == u / 0x100;
  }

  lemma WordOfBytes(w: u32)
    ensures Word(WordBytes(w), 0) == w
  {
    SplitWord(w);
  }

  lemma BytesOfWord(m: seq<byte>, a: nat)
    requires a + 4 <= |m|
    ensures WordBytes(Word(m, a)) == m[a..a + 4]
  {
    JoinWord(m[a], m[a + 1], m[a + 2], m[a + 3]);
  }

  /** A word determines its four bytes. */
  lemma WordInjective(m: seq<byte>, a: nat, n: seq<byte>, b: nat)
    requires a + 4 <= |m| && b + 4 <= |n|
    requires Word(m, a) == Word(n, b)
    ensures m[a..a + 4] == n[b..b + 4]
  {
    BytesOfWord(m, a);
    BytesOfWord(n, b);
  }

  /** `m` with the word `w` stored at index `a`. */
  function WriteWord(m: seq<byte>, a: nat, w: u32): (r: seq<byte>)
    requires a + 4 <= |m|
    ensures |r| == |m|
  {
    Splice(m, a, WordBytes(w))
  }

  /** Reading an aligned word after writing an aligned word. */
  lemma WordAfterWrite(m: seq<byte>, a: nat, w: u32, b: nat)
    requires a + 4 <= |m| && b + 4 <= |m|
    requires a == b || a + 4 <= b || b + 4 <= a
    ensures Word(WriteWord(m, a, w), b) == if a == b then w else Word(m, b)
  {
    WordOfBytes(w);
  }

  // ----- lists of byte strings -----

  /** The total length of a list of byte strings. */
  function Length(parts: seq<seq<byte>>): nat {
    if parts == [] then 0 else Length(parts[..|parts| - 1]) + |parts[|parts| - 1]|
  }

  function Flat(parts: seq<seq<byte>>): (r: seq<byte>)
    ensures |r| == Length(parts)
  {
    if parts == [] then [] else Flat(parts[..|parts| - 1]) + parts[|parts| - 1]
  }

  lemma {:induction false} LengthMonotone(parts: seq<seq<byte>>, a: nat, b: nat)
    requires a <= b <= |parts|
    ensures Length(parts[..a]) <= Length(parts[..b])
    decreases b
  {
    if a < b {
      LengthMonotone(parts, a, b - 1);
      assert parts[..b][..b - 1] == parts[..b - 1];
    }
  }

  lemma LengthOne(m: seq<byte>)
    ensures Length([m]) == |m|
  {
    var one := [m];
    assert one[..0] == [];
  }

  lemma {:induction false} LengthAppend(a: seq<seq<byte>>, b: seq<seq<byte>>)
    ensures Length(a + b) == Length(a) + Length(b)
    decreases |b|
  {
    if b == [] {
      assert a + b == a;
    } else {
      var c := b[..|b| - 1];
      LengthAppend(a, c);
      assert (a + b)[..|a + b| - 1] == a + c;
    }
  }

  lemma FlatSnoc(parts: seq<seq<byte>>, q: nat)
    requires q < |parts|
    ensures Flat(parts[..q + 1]) == Flat(parts[..q]) + parts[q]
    ensures Length(parts[..q + 1]) == Length(parts[..q]) + |parts[q]|
  {
    assert parts[..q + 1][..q] == parts[..q];
  }
}
