/** Bytes, byte strings, and byte strings read as big-endian numbers. */
module Bytes {
  import opened Arithmetic

  type Byte = b: nat | b < 256

  function Zeros(n: nat): (z: seq<Byte>)
    ensures |z| == n
  {
    seq(n, _ => 0)
  }

  function XorByte(a: Byte, b: Byte): Byte {
    EightBits();
    XorBound(a, b, 8);
    Xor(a, b)
  }

  lemma EightBits()
    ensures Pow2(8) == 256
  {
    assert Pow2(4) == 16;
  }

  /** Bytewise exclusive or, as long as the first argument. */
  function XorBytes(a: seq<Byte>, b: seq<Byte>): (r: seq<Byte>)
    requires |a| == |b|
    ensures |r| == |a|
  {
    seq(|a|, i requires 0 <= i < |a| => XorByte(a[i], b[i]))
  }

  function BigEndian(s: seq<Byte>): nat {
    if s == [] then 0 else Word(s[0], BigEndian(s[1..]), 8 * (|s| - 1))
  }

  lemma {:induction false} BigEndianBound(s: seq<Byte>)
    ensures BigEndian(s) < Pow2(8 * |s|)
    decreases |s|
  {
    if s != [] {
      BigEndianBound(s[1..]);
      EightBits();
      Pow2Add(8, 8 * (|s| - 1));
      WordBound(s[0], BigEndian(s[1..]), Pow2(8 * (|s| - 1)), 256);
    }
  }

  lemma WordBound(a: nat, x: nat, p: nat, n: nat)
    requires x < p && a < n
    ensures a * p + x < n * p
  {
    ProductMonotone(a + 1, n, p);
    assert (a + 1) * p == a * p + p;
  }

  /** The bytewise exclusive or of two strings is the exclusive or of the numbers. */
  lemma {:induction false} BigEndianXor(a: seq<Byte>, b: seq<Byte>)
    requires |a| == |b|
    ensures BigEndian(XorBytes(a, b)) == Xor(BigEndian(a), BigEndian(b))
    decreases |a|
  {
    if a == [] {
      XorZero(0);
    } else {
      BigEndianXor(a[1..], b[1..]);
      assert XorBytes(a, b)[1..] == XorBytes(a[1..], b[1..]);
      BigEndianBound(a[1..]);
      BigEndianBound(b[1..]);
      XorConcat(a[0], BigEndian(a[1..]), b[0], BigEndian(b[1..]), 8 * (|a| - 1));
    }
  }

  /** Lexicographic order, as arrays are compared. */
  predicate LexLess(a: seq<Byte>, b: seq<Byte>)
    requires |a| == |b|
  {
    a != [] && (a[0] < b[0] || (a[0] == b[0] && LexLess(a[1..], b[1..])))
  }

  /** Comparing arrays of equal length is comparing big-endian numbers. */
  lemma {:induction false} LexIsNumeric(a: seq<Byte>, b: seq<Byte>)
    requires |a| == |b|
    ensures LexLess(a, b) <==> BigEndian(a) < BigEndian(b)
    decreases |a|
  {
    if a != [] {
      LexIsNumeric(a[1..], b[1..]);
      BigEndianBound(a[1..]);
      BigEndianBound(b[1..]);
      var p := Pow2(8 * (|a| - 1));
      if a[0] < b[0] { WordBound(a[0], BigEndian(a[1..]), p, b[0]); }
      if b[0] < a[0] { WordBound(b[0], BigEndian(b[1..]), p, a[0]); }
    }
  }

  /** The `n`-byte big-endian form of a number. */
  function ToBigEndian(x: nat, n: nat): (s: seq<Byte>)
    ensures |s| == n
  {
    if n == 0 then [] else ToBigEndian(x / 256, n - 1) + [x % 256]
  }

  lemma {:induction false} ToBigEndianInjective(x: nat, y: nat, n: nat)
    requires x < Pow2(8 * n) && y < Pow2(8 * n) && ToBigEndian(x, n) == ToBigEndian(y, n)
    ensures x == y
    decreases n
  {
    if n > 0 {
      EightBits();
      Pow2Add(8, 8 * (n - 1));
      var a, b := ToBigEndian(x, n), ToBigEndian(y, n);
      assert a[..n - 1] == ToBigEndian(x / 256, n - 1) && b[..n - 1] == ToBigEndian(y / 256, n - 1);
      assert a[n - 1] == x % 256 && b[n - 1] == y % 256;
      ToBigEndianInjective(x / 256, y / 256, n - 1);
    }
  }

  lemma {:induction false} BigEndianSnoc(s: seq<Byte>, x: Byte)
    ensures BigEndian(s + [x]) == 256 * BigEndian(s) + x
    decreases |s|
  {
    if s == [] {
      assert [] + [x] == [x] && [x][1..] == [];
      assert Word(x, 0, 0) == x;
    } else {
      assert (s + [x])[1..] == s[1..] + [x];
      BigEndianSnoc(s[1..], x);
      EightBits();
      Pow2Add(8, 8 * (|s| - 1));
      WordTimes(s[0], BigEndian(s[1..]), x, 8 * (|s| - 1));
    }
  }

  lemma WordTimes(a: nat, y: nat, x: nat, k: nat)
    requires Pow2(8 + k) == 256 * Pow2(k)
    ensures Word(a, 256 * y + x, 8 + k) == 256 * Word(a, y, k) + x
  {
    hide Pow2;
    assert a * (256 * Pow2(k)) == 256 * (a * Pow2(k));
  }

  lemma BigEndianZero(s: seq<Byte>)
    ensures BigEndian([0] + s) == BigEndian(s)
  {
    assert ([0] + s)[1..] == s;
  }

  /** Written with enough bytes, a number reads back. */
  lemma {:induction false} BigEndianRoundTrip(x: nat, n: nat)
    requires x < Pow2(8 * n)
    ensures BigEndian(ToBigEndian(x, n)) == x
    decreases n
  {
    if n > 0 {
      EightBits();
      Pow2Add(8, 8 * (n - 1));
      BigEndianRoundTrip(x / 256, n - 1);
      BigEndianSnoc(ToBigEndian(x / 256, n - 1), x % 256);
    }
  }
}
