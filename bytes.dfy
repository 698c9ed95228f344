/** Bytes, byte order and the unsigned integer arithmetic that Python's
    `int.from_bytes`, `struct` and the bit operators perform on them. */
module Bytes {

  /** One byte of the header buffer. */
  type Byte = x: int | 0 <= x < 256

  /** The two byte-order tokens of the engine: `'<'` and `'>'`. */
  datatype ByteOrder = Little | Big

  function Pow(b: nat, e: nat): (r: nat)
    ensures b > 0 ==> r > 0
  {
    if e == 0 then 1 else b * Pow(b, e - 1)
  }

  lemma {:induction false} PowAdd(b: nat, m: nat, n: nat)
    ensures Pow(b, m + n) == Pow(b, m) * Pow(b, n)
  {
    if n > 0 {
      PowAdd(b, m, n - 1);
      var x, y := Pow(b, m), Pow(b, n - 1);
      calc {
        Pow(b, m + n);
        b * Pow(b, m + n - 1);
        b * (x * y);
        { MulAssoc(b, x, y); }
        x * (b * y);
      }
    }
  }

  lemma MulAssoc(a: nat, b: nat, c: nat)
    ensures a * (b * c) == b * (a * c)
  {
  }

  function Reverse<T>(s: seq<T>): (r: seq<T>)
    ensures |r| == |s|
    ensures forall i :: 0 <= i < |s| ==> r[i] == s[|s| - 1 - i]
  {
    seq(|s|, i requires 0 <= i < |s| => s[|s| - 1 - i])
  }

  lemma ReverseReverse<T>(s: seq<T>)
    ensures Reverse(Reverse(s)) == s
  {
  }

  lemma ReverseAppend<T>(a: seq<T>, b: seq<T>)
    ensures Reverse(a + b) == Reverse(b) + Reverse(a)
  {
  }

  /** `int.from_bytes(bs, byteorder='big')`: the unsigned value whose
      base-256 digits, most significant first, are `bs`. */
  function BigEndianValue(bs: seq<Byte>): (v: nat)
    ensures v < Pow(256, |bs|)
  {
    if bs == [] then 0
    else
      var high := BigEndianValue(bs[..|bs| - 1]);
      assert high * 256 <= (Pow(256, |bs| - 1) - 1) * 256;
      high * 256 + bs[|bs| - 1]
  }

  /** `int.from_bytes(bs, byteorder=...)`, unsigned as Python reads it. */
  function FromBytes(bs: seq<Byte>, order: ByteOrder): (v: nat)
    ensures v < Pow(256, |bs|)
  {
    if order == Big then BigEndianValue(bs) else BigEndianValue(Reverse(bs))
  }

  /** `v.to_bytes(n, 'big')` (what `struct.pack('>…')` writes): the
      inverse of BigEndianValue on values below 256^n. */
  function ToBigEndian(v: nat, n: nat): (bs: seq<Byte>)
    requires v < Pow(256, n)
    ensures |bs| == n
  {
    if n == 0 then []
    else ToBigEndian(v / 256, n - 1) + [v % 256]
  }

  /** Writing a value and reading it back gives the value. */
  lemma {:induction false} BigEndianRoundTrip(v: nat, n: nat)
    requires v < Pow(256, n)
    ensures BigEndianValue(ToBigEndian(v, n)) == v
  {
    if n > 0 {
      BigEndianRoundTrip(v / 256, n - 1);
      var bs := ToBigEndian(v, n);
      assert bs[..n - 1] == ToBigEndian(v / 256, n - 1);
    }
  }

  /** Reading bytes and writing the value back gives the bytes: the value
      of an n-byte sequence determines the sequence. */
  lemma {:induction false} ToBigEndianOfValue(bs: seq<Byte>)
    ensures ToBigEndian(BigEndianValue(bs), |bs|) == bs
  {
    if bs != [] {
      var n := |bs|;
      var high := BigEndianValue(bs[..n - 1]);
      var v := BigEndianValue(bs);
      assert v / 256 == high && v % 256 == bs[n - 1];
      ToBigEndianOfValue(bs[..n - 1]);
      assert bs == bs[..n - 1] + [bs[n - 1]];
    }
  }

  /** Two byte sequences of one length with the same value are equal. */
  lemma BigEndianInjective(a: seq<Byte>, b: seq<Byte>)
    requires |a| == |b| && BigEndianValue(a) == BigEndianValue(b)
    ensures a == b
  {
    ToBigEndianOfValue(a);
    ToBigEndianOfValue(b);
  }

  /** Two's-complement reading of an n-byte unsigned value, as `struct`
      does for the signed codes `b h i l q`. */
  function Signed(v: nat, n: nat): (r: int)
    requires v < Pow(256, n)
    ensures n > 0 ==> r + Pow(256, n) / 2 >= 0 && r < Pow(256, n) / 2
    ensures r == v || r == v - Pow(256, n)
  {
    var p := Pow(256, n);
    assert 0 <= p / 2 <= p;
    if n > 0 && v >= p / 2 then v - p else v
  }

  // ---------------------------------------------------------------------
  // Bits of unsigned integers: Python's `>>` and `&` on non-negative ints.

  /** `v >> k` for non-negative `v` and `k`: `k` halvings. */
  function ShiftRight(v: nat, k: nat): nat
  {
    if k == 0 then v else ShiftRight(v / 2, k - 1)
  }

  /** Bit `i` of `v` (bit 0 is the least significant). */
  function Bit(v: nat, i: nat): (b: nat)
    ensures b < 2
  {
    ShiftRight(v, i) % 2
  }

  /** `a & b` on non-negative integers. */
  function BitAnd(a: nat, b: nat): (r: nat)
    ensures r <= a && r <= b
    decreases a
  {
    if a == 0 || b == 0 then 0
    else 2 * BitAnd(a / 2, b / 2) + (if a % 2 == 1 && b % 2 == 1 then 1 else 0)
  }

  /** Shifting right preserves order. */
  lemma {:induction false} ShiftRightMonotone(a: nat, b: nat, k: nat)
    requires a <= b
    ensures ShiftRight(a, k) <= ShiftRight(b, k)
  {
    if k > 0 {
      ShiftRightMonotone(a / 2, b / 2, k - 1);
    }
  }

  /** Shifting `2^k * x` right by `k` gives back `x`. */
  lemma {:induction false} ShiftRightPow2Mul(x: nat, k: nat)
    ensures ShiftRight(Pow(2, k) * x, k) == x
  {
    if k > 0 {
      assert Pow(2, k) * x == 2 * (Pow(2, k - 1) * x);
      ShiftRightPow2Mul(x, k - 1);
    }
  }

  /** Masking with a single power of two keeps exactly that bit. */
  lemma {:induction false} BitAndPow2(a: nat, p: nat)
    ensures BitAnd(a, Pow(2, p)) == Bit(a, p) * Pow(2, p)
  {
    if p == 0 {
      assert BitAnd(a, 1) == a % 2;
      assert Bit(a, 0) == a % 2;
    } else if a == 0 {
      ShiftRightOfZero(p);
      assert BitAnd(0, Pow(2, p)) == 0;
    } else {
      var h := Pow(2, p - 1);
      PowTwoHalf(p);
      BitAndEven(a, Pow(2, p));
      BitAndPow2(a / 2, p - 1);
      BitOfHalf(a, p);
      var b := Bit(a, p);
      if b == 0 {
        assert b * Pow(2, p) == 0;
      } else {
        assert b * Pow(2, p) == 2 * h;
      }
      assert BitAnd(a, Pow(2, p)) == b * Pow(2, p);
    }
  }

  lemma PowTwoHalf(p: nat)
    requires p > 0
    ensures Pow(2, p) == 2 * Pow(2, p - 1)
    ensures Pow(2, p) % 2 == 0 && Pow(2, p) / 2 == Pow(2, p - 1)
  {
  }

  /** Masking with an even value drops the low bit. */
  lemma BitAndEven(a: nat, m: nat)
    requires a > 0 && m > 0 && m % 2 == 0
    ensures BitAnd(a, m) == 2 * BitAnd(a / 2, m / 2)
  {
  }

  lemma BitOfHalf(a: nat, p: nat)
    requires p > 0
    ensures Bit(a / 2, p - 1) == Bit(a, p)
  {
  }

  lemma {:induction false} ShiftRightOfZero(k: nat)
    ensures ShiftRight(0, k) == 0
  {
    if k > 0 {
      ShiftRightOfZero(k - 1);
    }
  }

  /** `(v >> i) & 1` is bit `i` of `v`. */
  lemma ShiftAndOne(v: nat, i: nat)
    ensures BitAnd(ShiftRight(v, i), 1) == Bit(v, i)
  {
    BitAndPow2(ShiftRight(v, i), 0);
  }
}
