/** Unsigned integers as little-endian byte sequences: the value of a byte
    sequence read least significant byte first, its inverse, and the facts the
    DBPF field extractors are built on. */
module LittleEndian {

  type Byte = b: int | 0 <= b < 0x100
  type U16 = w: int | 0 <= w < 0x1_0000
  type U32 = w: int | 0 <= w < 0x1_0000_0000

  /** 256 to the power `n`: one more than the largest value `n` bytes hold. */
  function Pow256(n: nat): (r: nat)
    ensures r > 0
  {
    if n == 0 then 1 else 0x100 * Pow256(n - 1)
  }

  /** The unsigned value of `bytes`, least significant byte first. */
  function LeValue(bytes: seq<Byte>): (r: nat)
    ensures r < Pow256(|bytes|)
  {
    if |bytes| == 0 then 0 else bytes[0] + 0x100 * LeValue(bytes[1..])
  }

  /** The `n` low bytes of `v`, least significant byte first. */
  function LeBytes(v: nat, n: nat): (r: seq<Byte>)
    ensures |r| == n
  {
    if n == 0 then [] else [v % 0x100] + LeBytes(v / 0x100, n - 1)
  }

  /** Encoding a value that fits in `n` bytes and reading it back gives the value. */
  lemma {:induction false} LeValueOfLeBytes(v: nat, n: nat)
    requires v < Pow256(n)
    ensures LeValue(LeBytes(v, n)) == v
  {
    if n > 0 {
      LeValueOfLeBytes(v / 0x100, n - 1);
      assert LeBytes(v, n)[1..] == LeBytes(v / 0x100, n - 1);
    }
  }

  /** Reading a byte sequence and encoding its value back gives the same bytes. */
  lemma {:induction false} LeBytesOfLeValue(bytes: seq<Byte>)
    ensures LeBytes(LeValue(bytes), |bytes|) == bytes
  {
    if |bytes| > 0 {
      LeBytesOfLeValue(bytes[1..]);
      var v := LeValue(bytes);
      assert v % 0x100 == bytes[0];
      assert v / 0x100 == LeValue(bytes[1..]);
      assert bytes == [bytes[0]] + bytes[1..];
    }
  }

  /** Two byte sequences of one length with the same value are equal. */
  lemma LeValueInjective(x: seq<Byte>, y: seq<Byte>)
    requires |x| == |y|
    ensures LeValue(x) == LeValue(y) <==> x == y
  {
  }

  /** The value of a concatenation: the second part weighs 256^|x|. */
  lemma {:induction false} LeValueAppend(x: seq<Byte>, y: seq<Byte>)
    ensures LeValue(x + y) == LeValue(x) + Pow256(|x|) * LeValue(y)
  {
    if |x| > 0 {
      assert (x + y)[1..] == x[1..] + y;
      LeValueAppend(x[1..], y);
      calc {
        LeValue(x + y);
        x[0] + 0x100 * LeValue(x[1..] + y);
        x[0] + 0x100 * (LeValue(x[1..]) + Pow256(|x| - 1) * LeValue(y));
        { MulAssoc(0x100, Pow256(|x| - 1), LeValue(y)); }
        x[0] + 0x100 * LeValue(x[1..]) + (0x100 * Pow256(|x| - 1)) * LeValue(y);
      }
    } else {
      assert x + y == y;
    }
  }

  lemma MulAssoc(a: int, b: int, c: int)
    ensures a * (b * c) == (a * b) * c
  {
  }

  /** A 4-byte sequence, spelled out as a weighted sum. */
  lemma LeValueFour(b: seq<Byte>)
    requires |b| == 4
    ensures LeValue(b) == (b[0] as int) + 0x100 * (b[1] as int) + 0x1_0000 * (b[2] as int) + 0x100_0000 * (b[3] as int)
    ensures Pow256(4) == 0x1_0000_0000
  {
    calc {
      LeValue(b);
      (b[0] as int) + 0x100 * LeValue(b[1..]);
      (b[0] as int) + 0x100 * ((b[1] as int) + 0x100 * LeValue(b[2..]));
      { assert b[2..][1..] == b[3..]; }
      (b[0] as int) + 0x100 * ((b[1] as int) + 0x100 * ((b[2] as int) + 0x100 * LeValue(b[3..])));
      { assert b[3..][1..] == []; }
      (b[0] as int) + 0x100 * ((b[1] as int) + 0x100 * ((b[2] as int) + 0x100 * (b[3] as int)));
    }
  }

  /** A 2-byte sequence, spelled out as a weighted sum. */
  lemma LeValueTwo(b: seq<Byte>)
    requires |b| == 2
    ensures LeValue(b) == (b[0] as int) + 0x100 * (b[1] as int)
    ensures Pow256(2) == 0x1_0000
  {
  }

  /** 2 to the power `k`. */
  function Pow2(k: nat): (r: nat)
    ensures r > 0
  {
    if k == 0 then 1 else 2 * Pow2(k - 1)
  }

  /** Bitwise AND of two naturals, one bit at a time from the least significant. */
  function And(a: nat, b: nat): (r: nat)
    ensures r <= a
    decreases a
  {
    if a == 0 || b == 0 then 0
    else (if a % 2 == 1 && b % 2 == 1 then 1 else 0) + 2 * And(a / 2, b / 2)
  }

  /** ANDing with `k` one-bits keeps exactly the remainder modulo 2^k. */
  lemma {:induction false} AndLowMask(a: nat, k: nat)
    ensures And(a, Pow2(k) - 1) == a % Pow2(k)
  {
    if k > 0 && a > 0 {
      AndLowMask(a / 2, k - 1);
      AndMaskStep(a, Pow2(k - 1));
    } else if k == 0 {
      assert a % 1 == 0;
    } else {
      ModUnique(0, Pow2(k), 0, 0);
    }
  }

  /** One more one-bit in the mask keeps one more low bit of the remainder. */
  lemma AndMaskStep(a: nat, p: nat)
    requires a > 0 && p > 0
    requires And(a / 2, p - 1) == (a / 2) % p
    ensures And(a, 2 * p - 1) == a % (2 * p)
  {
    AndOdd(a, p);
    LowBitAndHalf(a, p, And(a, 2 * p - 1), And(a / 2, p - 1));
  }

  /** A number made of the low bit of `a` and twice the remainder of a/2
      modulo p is the remainder of `a` modulo 2p. */
  lemma LowBitAndHalf(a: nat, p: nat, x: int, y: int)
    requires p > 0
    requires x == a % 2 + 2 * y && y == (a / 2) % p
    ensures x == a % (2 * p)
  {
    ModHalving(a, p);
  }

  /** ANDing with an odd number keeps the low bit and ANDs the rest. */
  lemma AndOdd(a: nat, p: nat)
    requires a > 0 && p > 0
    ensures And(a, 2 * p - 1) == a % 2 + 2 * And(a / 2, p - 1)
  {
    var b := 2 * p - 1;
    assert b % 2 == 1 && b / 2 == p - 1;
  }

  /** The remainder modulo 2p is the low bit plus twice the remainder of a/2 modulo p. */
  lemma ModHalving(a: nat, p: nat)
    requires p > 0
    ensures a % (2 * p) == a % 2 + 2 * ((a / 2) % p)
  {
    var q := (a / 2) / p;
    var r := (a / 2) % p;
    assert a / 2 == p * q + r;
    assert a == (2 * p) * q + (2 * r + a % 2);
    ModUnique(a, 2 * p, q, 2 * r + a % 2);
  }

  lemma ModUnique(a: int, d: int, q: int, r: int)
    requires d > 0 && 0 <= r < d && a == d * q + r
    ensures a % d == r
  {
    var q0 := a / d;
    assert d * (q - q0) == a % d - r;
    if q > q0 {
      MulAtLeast(d, q - q0);
    } else if q < q0 {
      MulAtLeast(d, q0 - q);
    }
  }

  lemma MulAtLeast(d: int, k: int)
    requires d > 0 && k >= 1
    ensures d * k >= d
  {
  }

  lemma {:induction false} Pow2Add(a: nat, b: nat)
    ensures Pow2(a + b) == Pow2(a) * Pow2(b)
  {
    if a > 0 {
      Pow2Add(a - 1, b);
    }
  }

  /** A slice of the second part of a concatenation, taken through the whole. */
  lemma SliceOfAppend<T>(a: seq<T>, b: seq<T>, x: nat, y: nat)
    requires x <= y <= |b|
    ensures (a + b)[|a| + x .. |a| + y] == b[x .. y]
  {
    assert forall j :: 0 <= j < y - x ==> (a + b)[|a| + x .. |a| + y][j] == b[x .. y][j];
  }
}
