/**
 * Readings of a byte sequence as an integer: big-endian two's complement
 * (how the connector writes an unscaled decimal), little-endian two's
 * complement (how `new BigInteger(byte[])` reads its argument), and the
 * in-place reversal (`Array.Reverse`) that turns one into the other.
 */
module TwosComplement {
  import opened Base

  /** The elements of `s` in the opposite order. */
  function Reversed<T>(s: seq<T>): seq<T> {
    seq(|s|, k requires 0 <= k < |s| => s[|s| - 1 - k])
  }

  /** Reversal moves the first element to the end of the reversed rest. */
  lemma ReversedCons<T>(s: seq<T>)
    requires s != []
    ensures Reversed(s) == Reversed(s[1..]) + [s[0]]
  {
    assert forall k :: 0 <= k < |s| ==> (Reversed(s[1..]) + [s[0]])[k] == Reversed(s)[k];
  }

  /** `Array.Reverse(a)`: the elements of `a` end up in the opposite order. */
  method ReverseInPlace(a: array<byte>)
    modifies a
    ensures a[..] == Reversed(old(a[..]))
  {
    var lo, hi := 0, a.Length - 1;
    while lo < hi
      invariant 0 <= lo <= a.Length && hi == a.Length - 1 - lo
      invariant forall k :: 0 <= k < lo ==> a[k] == old(a[a.Length - 1 - k]) && a[a.Length - 1 - k] == old(a[k])
      invariant forall k :: lo <= k < a.Length - lo ==> a[k] == old(a[k])
    {
      a[lo], a[hi] := a[hi], a[lo];
      lo, hi := lo + 1, hi - 1;
    }
  }

  /** The unsigned value of `bs`, most significant byte first. */
  function BigEndianUnsigned(bs: seq<byte>): nat {
    if bs == [] then 0 else bs[0] * Pow(256, |bs| - 1) + BigEndianUnsigned(bs[1..])
  }

  /** The signed value of `bs`, most significant byte first, in two's complement of `|bs|` bytes. */
  function BigEndianSigned(bs: seq<byte>): int {
    if bs == [] then 0
    else BigEndianUnsigned(bs) - (if bs[0] >= 128 then Pow(256, |bs|) else 0)
  }

  /** The unsigned value of `bs`, least significant byte first. */
  function LittleEndianUnsigned(bs: seq<byte>): nat {
    if bs == [] then 0 else bs[0] + 256 * LittleEndianUnsigned(bs[1..])
  }

  /** A little-endian number of `n` bytes is below 256 to the power `n`. */
  lemma {:induction false} LittleEndianUnsignedBound(bs: seq<byte>)
    ensures LittleEndianUnsigned(bs) < Pow(256, |bs|)
  {
    if bs != [] {
      LittleEndianUnsignedBound(bs[1..]);
      MulLeq(LittleEndianUnsigned(bs[1..]), Pow(256, |bs| - 1) - 1, 256);
    }
  }

  /**
   * `new BigInteger(bs)`: little-endian two's complement; an empty array reads
   * as zero. The value is negative exactly when the last (most significant)
   * byte has its top bit set.
   */
  function LittleEndianSigned(bs: seq<byte>): (r: int)
    ensures r < 0 <==> bs != [] && bs[|bs| - 1] >= 128
  {
    if bs == [] then 0
    else
      LittleEndianUnsignedBound(bs);
      LittleEndianUnsigned(bs) - (if bs[|bs| - 1] >= 128 then Pow(256, |bs|) else 0)
  }

  /** Scaling both sides of `a <= b` by a non-negative factor. */
  lemma MulLeq(a: int, b: int, p: int)
    requires a <= b && p >= 0
    ensures a * p <= b * p
  {
    assert b * p - a * p == (b - a) * p;
  }

  /** The arithmetic of one leading digit in base 256, on plain integers. */
  lemma LeadingDigit(h: int, p: int, rest: int)
    requires 0 <= h < 256 && 0 <= rest < p
    ensures 0 <= h * p + rest < 256 * p
    ensures h >= 128 ==> 128 * p <= h * p + rest
    ensures h < 128 ==> h * p + rest < 128 * p
  {
    assert (h + 1) * p == h * p + p;
    MulLeq(0, h, p);
    MulLeq(h + 1, 256, p);
    if h >= 128 {
      MulLeq(128, h, p);
    } else {
      MulLeq(h + 1, 128, p);
    }
  }

  lemma {:induction false} BigEndianUnsignedBound(bs: seq<byte>)
    ensures BigEndianUnsigned(bs) < Pow(256, |bs|)
  {
    if bs != [] {
      BigEndianUnsignedBound(bs[1..]);
      LeadingDigit(bs[0], Pow(256, |bs| - 1), BigEndianUnsigned(bs[1..]));
    }
  }

  /** A signed reading of `n` bytes lies in the range of an `n`-byte two's-complement integer. */
  lemma SignedRange(bs: seq<byte>)
    requires bs != []
    ensures -128 * Pow(256, |bs| - 1) <= BigEndianSigned(bs) < 128 * Pow(256, |bs| - 1)
  {
    BigEndianUnsignedBound(bs[1..]);
    LeadingDigit(bs[0], Pow(256, |bs| - 1), BigEndianUnsigned(bs[1..]));
  }

  /** The value is negative exactly when the first (most significant) byte has its top bit set. */
  lemma NegativeIffTopBitSet(bs: seq<byte>)
    ensures BigEndianSigned(bs) < 0 <==> (bs != [] && bs[0] >= 128)
  {
    if bs != [] {
      BigEndianUnsignedBound(bs[1..]);
      LeadingDigit(bs[0], Pow(256, |bs| - 1), BigEndianUnsigned(bs[1..]));
    }
  }

  lemma {:induction false} LittleEndianAppend(xs: seq<byte>, y: byte)
    ensures LittleEndianUnsigned(xs + [y]) == LittleEndianUnsigned(xs) + Pow(256, |xs|) * y
  {
    if xs != [] {
      assert (xs + [y])[1..] == xs[1..] + [y];
      LittleEndianAppend(xs[1..], y);
      assert 256 * (Pow(256, |xs| - 1) * y) == Pow(256, |xs|) * y;
    }
  }

  lemma {:induction false} LittleEndianUnsignedOfReversed(bs: seq<byte>)
    ensures LittleEndianUnsigned(Reversed(bs)) == BigEndianUnsigned(bs)
  {
    if bs != [] {
      var rest := Reversed(bs[1..]);
      ReversedCons(bs);
      LittleEndianUnsignedOfReversed(bs[1..]);
      LittleEndianAppend(rest, bs[0]);
      assert |rest| == |bs| - 1;
      calc {
        LittleEndianUnsigned(Reversed(bs));
        LittleEndianUnsigned(rest + [bs[0]]);
        LittleEndianUnsigned(rest) + Pow(256, |bs| - 1) * bs[0];
        BigEndianUnsigned(bs[1..]) + Pow(256, |bs| - 1) * bs[0];
      }
    } else {
      assert Reversed(bs) == [];
    }
  }

  /** Reversing a big-endian buffer and reading it little-endian gives exactly its big-endian reading. */
  lemma LittleEndianOfReversed(bs: seq<byte>)
    ensures LittleEndianSigned(Reversed(bs)) == BigEndianSigned(bs)
  {
    LittleEndianUnsignedOfReversed(bs);
  }

  lemma {:induction false} BigEndianUnsignedConcat(xs: seq<byte>, ys: seq<byte>)
    ensures BigEndianUnsigned(xs + ys) == BigEndianUnsigned(xs) * Pow(256, |ys|) + BigEndianUnsigned(ys)
  {
    if xs != [] {
      var h, p, q, r := xs[0], Pow(256, |xs| - 1), Pow(256, |ys|), BigEndianUnsigned(xs[1..]);
      assert (xs + ys)[0] == h && (xs + ys)[1..] == xs[1..] + ys;
      BigEndianUnsignedConcat(xs[1..], ys);
      PowAdd(256, |xs| - 1, |ys|);
      assert BigEndianUnsigned(xs + ys) == h * (p * q) + (r * q + BigEndianUnsigned(ys));
      Distribute(h, p, q, r);
    } else {
      assert xs + ys == ys;
    }
  }

  lemma Distribute(h: int, p: int, q: int, r: int)
    ensures h * (p * q) + r * q == (h * p + r) * q
  {
  }

  lemma {:induction false} PowAdd(b: nat, m: nat, n: nat)
    ensures Pow(b, m + n) == Pow(b, m) * Pow(b, n)
  {
    if m > 0 {
      var x, y := Pow(b, m - 1), Pow(b, n);
      PowAdd(b, m - 1, n);
      assert Pow(b, m + n) == b * Pow(b, m - 1 + n);
      assert Pow(b, m - 1 + n) == x * y;
      assert Pow(b, m) == b * x;
      MulAssoc(b, x, y);
    }
  }

  lemma MulAssoc(a: int, b: int, c: int)
    ensures a * (b * c) == (a * b) * c
  {
  }

  /** The `n`-byte big-endian two's-complement encoding of `v` (its value modulo 256^n). */
  function BigEndianOf(v: int, n: nat): (bs: seq<byte>)
    ensures |bs| == n
    decreases n
  {
    if n == 0 then [] else BigEndianOf(v / 256, n - 1) + [v % 256]
  }

  /** Appending a byte shifts the signed reading of a nonempty prefix by one byte. */
  lemma BigEndianSignedAppend(xs: seq<byte>, b: byte)
    requires xs != []
    ensures BigEndianSigned(xs + [b]) == BigEndianSigned(xs) * 256 + b
  {
    BigEndianUnsignedConcat(xs, [b]);
    assert [b][1..] == [];
    assert BigEndianUnsigned([b]) == b * Pow(256, 0) + BigEndianUnsigned([]);
    assert (xs + [b])[0] == xs[0];
    assert Pow(256, |xs| + 1) == Pow(256, |xs|) * 256 by { PowAdd(256, |xs|, 1); }
  }

  /** Dividing by 256 keeps a value within the range of one byte fewer. */
  lemma ShiftRange(v: int, p: int)
    requires p > 0 && -128 * (256 * p) <= v < 128 * (256 * p)
    ensures -128 * p <= v / 256 < 128 * p
    ensures v == (v / 256) * 256 + v % 256
  {
    var q := v / 256;
    assert v == q * 256 + v % 256 && 0 <= v % 256 < 256;
  }

  /** Reading back the encoding of a value that fits in `n` bytes gives the value. */
  lemma {:induction false} BigEndianSignedOf(v: int, n: nat)
    requires n >= 1 && -128 * Pow(256, n - 1) <= v < 128 * Pow(256, n - 1)
    ensures BigEndianSigned(BigEndianOf(v, n)) == v
    decreases n
  {
    if n == 1 {
      assert BigEndianOf(v, 1) == [v % 256];
      assert BigEndianUnsigned([v % 256]) == (v % 256) * Pow(256, 0) + BigEndianUnsigned([]);
    } else {
      ShiftRange(v, Pow(256, n - 2));
      BigEndianSignedOf(v / 256, n - 1);
      BigEndianSignedAppend(BigEndianOf(v / 256, n - 1), v % 256);
    }
  }

  /** The signed readings of the byte pairs 01 F4 and FF 00. */
  lemma DocumentedReadings()
    ensures BigEndianSigned([0x01, 0xF4]) == 500
    ensures BigEndianSigned([0xFF, 0x00]) == -256
  {
    var p, n := [0x01, 0xF4], [0xFF, 0x00];
    assert p[1..][1..] == [] && n[1..][1..] == [];
  }
}
