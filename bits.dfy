/**
 * Pure bit strings: the meaning of the packing that the bit writer and the
 * bit reader perform. Bits are most significant first, as in bitio.py.
 */
module Bits {
  import opened Common

  function Pow2(n: nat): (r: nat)
    ensures r >= 1
  {
    if n == 0 then 1 else 2 * Pow2(n - 1)
  }

  lemma Pow2Byte()
    ensures Pow2(7) == 128 && Pow2(8) == 256
  {
    assert Pow2(1) == 2;
    assert Pow2(2) == 4;
    assert Pow2(4) == 16;
  }

  function Zeros(n: nat): (r: seq<bool>)
    ensures |r| == n
  {
    Repeat(false, n)
  }

  /** `bits` repeated `n` times: the run of one bit value. */
  function Repeat(b: bool, n: nat): (r: seq<bool>)
    ensures |r| == n
    ensures forall i :: 0 <= i < n ==> r[i] == b
  {
    if n == 0 then [] else [b] + Repeat(b, n - 1)
  }

  /** The `n` low-order bits of `v`, most significant first. */
  function BitsOf(v: nat, n: nat): seq<bool>
  {
    if n == 0 then [] else BitsOf(v / 2, n - 1) + [v % 2 == 1]
  }

  /** The unsigned number whose binary form is `bits`, first bit most significant. */
  function ValueOf(bits: seq<bool>): (r: nat)
    ensures r < Pow2(|bits|)
  {
    if bits == [] then 0
    else 2 * ValueOf(bits[..|bits| - 1]) + (if bits[|bits| - 1] then 1 else 0)
  }

  /** The bits of a byte sequence, each byte MSB-first. */
  function BytesToBits(bs: seq<Byte>): seq<bool>
  {
    if bs == [] then [] else BitsOf(bs[0], 8) + BytesToBits(bs[1..])
  }

  /**
   * The bytes a fresh bit writer has emitted after `bits` were written and
   * the writer was flushed once: every full byte, then the last (possibly
   * partial, zero-padded) byte. The empty bit string still gives one byte,
   * since a flush always emits the accumulator.
   */
  function PackBits(bits: seq<bool>): seq<Byte>
    decreases |bits|
  {
    Pow2Byte();
    if |bits| <= 8 then [ValueOf(bits + Zeros(8 - |bits|))]
    else [ValueOf(bits[..8])] + PackBits(bits[8..])
  }

  // ---------------------------------------------------------------------
  // Arithmetic helpers

  lemma DivMod2Unique(v: int, d: int, q: int, r: int)
    requires d > 0 && v == d * q + r && 0 <= r < d
    ensures v / d == q && v % d == r
  {
    var q', r' := v / d, v % d;
    assert d * (q - q') == r' - r;
    if q - q' >= 1 {
      MulAtLeast(d, q - q');
      assert false;
    } else if q' - q >= 1 {
      MulAtLeast(d, q' - q);
      assert false;
    }
  }

  lemma MulAtLeast(d: int, k: int)
    requires d > 0 && k >= 1
    ensures d * k >= d
  {
  }

  lemma DivPow2Step(v: nat, k: nat)
    ensures v / Pow2(k) / 2 == v / Pow2(k + 1)
    ensures (v / Pow2(k)) % 2 == (v % Pow2(k + 1)) / Pow2(k)
  {
    assert Pow2(k + 1) == 2 * Pow2(k);
    DivTwice(v, Pow2(k));
  }

  /** Dividing by p and then by 2 is dividing by 2p; the bit left over is the quotient of the remainder. */
  lemma DivTwice(v: nat, p: int)
    requires p > 0
    ensures v / p / 2 == v / (2 * p)
    ensures (v / p) % 2 == (v % (2 * p)) / p
  {
    var q, r := v / p, v % p;
    assert v == p * q + r;
    var q2, b := q / 2, q % 2;
    assert q == 2 * q2 + b;
    assert v == (2 * p) * q2 + (p * b + r) by {
      assert p * q == p * (2 * q2 + b) == (2 * p) * q2 + p * b;
    }
    assert 0 <= p * b + r < 2 * p by {
      assert p * b <= p * 1;
    }
    DivMod2Unique(v, 2 * p, q2, p * b + r);
    DivMod2Unique(p * b + r, p, b, r);
  }

  // ---------------------------------------------------------------------
  // BitsOf and ValueOf

  lemma {:induction false} BitsOfLength(v: nat, n: nat)
    ensures |BitsOf(v, n)| == n
  {
    if n > 0 {
      BitsOfLength(v / 2, n - 1);
    }
  }

  lemma ModStep(v: nat, p: nat)
    requires p >= 1
    ensures v % (2 * p) == 2 * ((v / 2) % p) + v % 2
  {
    var h, b := v / 2, v % 2;
    var q, r := h / p, h % p;
    assert v == 2 * h + b;
    assert h == p * q + r;
    assert v == (2 * p) * q + (2 * r + b);
    DivMod2Unique(v, 2 * p, q, 2 * r + b);
  }

  /** Reading back n written bits gives the value modulo 2^n. */
  lemma {:induction false} ValueOfBitsOf(v: nat, n: nat)
    ensures ValueOf(BitsOf(v, n)) == v % Pow2(n)
  {
    BitsOfLength(v, n);
    if n > 0 {
      ValueOfBitsOf(v / 2, n - 1);
      var bs := BitsOf(v, n);
      assert bs[..n - 1] == BitsOf(v / 2, n - 1);
      assert ValueOf(bs) == 2 * ((v / 2) % Pow2(n - 1)) + v % 2;
      ModStep(v, Pow2(n - 1));
    }
  }

  lemma {:induction false} BitsOfValueOf(bits: seq<bool>)
    ensures BitsOf(ValueOf(bits), |bits|) == bits
  {
    if bits != [] {
      var n := |bits|;
      BitsOfValueOf(bits[..n - 1]);
      var v := ValueOf(bits);
      assert v / 2 == ValueOf(bits[..n - 1]);
      assert (v % 2 == 1) == bits[n - 1];
    }
  }

  /** Bits of v at position n or higher do not influence BitsOf(v, n). */
  lemma BitsOfMod(v: nat, n: nat)
    ensures BitsOf(v % Pow2(n), n) == BitsOf(v, n)
  {
    BitsOfLength(v, n);
    ValueOfBitsOf(v, n);
    BitsOfValueOf(BitsOf(v, n));
  }

  /** Bit i of BitsOf(v, n) is bit n-1-i of v. */
  lemma {:induction false} BitsOfAt(v: nat, n: nat, i: nat)
    requires i < n
    ensures |BitsOf(v, n)| == n
    ensures BitsOf(v, n)[i] == ((v / Pow2(n - 1 - i)) % 2 == 1)
  {
    BitsOfLength(v, n);
    if i == n - 1 {
    } else {
      BitsOfLength(v / 2, n - 1);
      BitsOfAt(v / 2, n - 1, i);
      DivPow2Step(v, 0);
      assert v / 2 / Pow2(n - 2 - i) == v / Pow2(n - 1 - i) by {
        DivPow2Step(v, 0);
        DivNested(v, n - 2 - i);
      }
    }
  }

  lemma {:induction false} DivNested(v: nat, k: nat)
    ensures v / 2 / Pow2(k) == v / Pow2(k + 1)
  {
    if k > 0 {
      DivNested(v, k - 1);
      DivPow2Step(v / 2, k - 1);
      DivPow2Step(v, k);
    }
  }

  lemma {:induction false} ValueOfAppend(a: seq<bool>, b: seq<bool>)
    ensures ValueOf(a + b) == ValueOf(a) * Pow2(|b|) + ValueOf(b)
  {
    if b == [] {
      assert a + b == a;
    } else {
      var n := |b|;
      var ab := a + b;
      assert ab[..|ab| - 1] == a + b[..n - 1];
      assert ab[|ab| - 1] == b[n - 1];
      ValueOfAppend(a, b[..n - 1]);
      AppendArith(ValueOf(a), ValueOf(b[..n - 1]), Pow2(n - 1), if b[n - 1] then 1 else 0);
    }
  }

  lemma AppendArith(x: int, y: int, p: int, e: int)
    ensures 2 * (x * p + y) + e == x * (2 * p) + (2 * y + e)
  {
  }

  /** The first `k` bits of `BitsOf(v, k) + tail` read back as `v`, then `tail` follows. */
  lemma PrefixValue(v: nat, k: nat, tail: seq<bool>)
    requires v < Pow2(k)
    ensures var r := BitsOf(v, k) + tail;
      |r| >= k && ValueOf(r[..k]) == v && r[k..] == tail
  {
    BitsOfLength(v, k);
    var r := BitsOf(v, k) + tail;
    assert r[..k] == BitsOf(v, k);
    ValueOfBitsOf(v, k);
  }

  lemma ValueOfZeros(n: nat)
    ensures ValueOf(Zeros(n)) == 0
  {
    if n > 0 {
      assert Zeros(n)[..n - 1] == Zeros(n - 1);
      ValueOfZeros(n - 1);
    }
  }

  // ---------------------------------------------------------------------
  // Byte sequences

  lemma {:induction false} BytesToBitsLength(bs: seq<Byte>)
    ensures |BytesToBits(bs)| == 8 * |bs|
  {
    if bs != [] {
      BitsOfLength(bs[0], 8);
      BytesToBitsLength(bs[1..]);
    }
  }

  lemma {:induction false} BytesToBitsAppend(a: seq<Byte>, b: seq<Byte>)
    ensures BytesToBits(a + b) == BytesToBits(a) + BytesToBits(b)
  {
    if a == [] {
      assert a + b == b;
    } else {
      assert (a + b)[1..] == a[1..] + b;
      BytesToBitsAppend(a[1..], b);
    }
  }

  lemma BytesToBitsSnoc(bs: seq<Byte>, c: Byte)
    ensures BytesToBits(bs + [c]) == BytesToBits(bs) + BitsOf(c, 8)
  {
    BytesToBitsAppend(bs, [c]);
    assert BytesToBits([c]) == BitsOf(c, 8) + BytesToBits([]);
  }

  lemma ByteRoundTrip(c: Byte)
    ensures ValueOf(BitsOf(c, 8)) == c
  {
    ValueOfBitsOf(c, 8);
    Pow2Byte();
  }

  /** The bits of `input[i..]` start with the 8 bits of `input[i]`, then those of the rest. */
  lemma NextByte(input: seq<Byte>, i: nat)
    requires i < |input|
    ensures |BytesToBits(input[i..])| >= 8
    ensures ValueOf(BytesToBits(input[i..])[..8]) == input[i]
    ensures BytesToBits(input[i..])[8..] == BytesToBits(input[i + 1..])
  {
    assert input[i..] == [input[i]] + input[i + 1..];
    BitsOfLength(input[i], 8);
    ByteRoundTrip(input[i]);
    BytesToBitsLength(input[i + 1..]);
    assert BytesToBits(input[i..])[..8] == BitsOf(input[i], 8);
  }

  /** Packing the bits of a non-empty byte sequence gives the bytes back. */
  lemma {:induction false} PackBytes(bs: seq<Byte>)
    requires bs != []
    ensures PackBits(BytesToBits(bs)) == bs
  {
    var bits := BytesToBits(bs);
    BytesToBitsLength(bs);
    BitsOfLength(bs[0], 8);
    ByteRoundTrip(bs[0]);
    if |bs| == 1 {
      assert bits == BitsOf(bs[0], 8) + [];
      assert bits + Zeros(0) == BitsOf(bs[0], 8);
    } else {
      BytesToBitsLength(bs[1..]);
      assert bits[..8] == BitsOf(bs[0], 8);
      assert bits[8..] == BytesToBits(bs[1..]);
      PackBytes(bs[1..]);
    }
  }

  /** BytesToBits is injective. */
  lemma BytesToBitsInjective(a: seq<Byte>, b: seq<Byte>)
    requires BytesToBits(a) == BytesToBits(b)
    ensures a == b
  {
    BytesToBitsLength(a);
    BytesToBitsLength(b);
    if a != [] {
      PackBytes(a);
      PackBytes(b);
    }
  }

  /** Unpacking packed bits gives them back, followed by zero padding. */
  lemma {:induction false} UnpackPack(bits: seq<bool>)
    ensures |PackBits(bits)| == if bits == [] then 1 else (|bits| + 7) / 8
    ensures BytesToBits(PackBits(bits)) == bits + Zeros(8 * |PackBits(bits)| - |bits|)
  {
    Pow2Byte();
    var p := PackBits(bits);
    if |bits| <= 8 {
      var full := bits + Zeros(8 - |bits|);
      BitsOfValueOf(full);
      assert BytesToBits(p) == BitsOf(ValueOf(full), 8) + BytesToBits([]);
    } else {
      UnpackPack(bits[8..]);
      BitsOfValueOf(bits[..8]);
      assert p[1..] == PackBits(bits[8..]);
      assert BytesToBits(p) == bits[..8] + BytesToBits(PackBits(bits[8..]));
      assert bits == bits[..8] + bits[8..];
    }
  }

  /**
   * A writer holding full bytes `out` and 1..8 pending bits (or nothing at
   * all) emits `PackBits` of everything written when it flushes.
   */
  lemma {:induction false} FlushPacks(out: seq<Byte>, pending: seq<bool>)
    requires |pending| <= 8
    requires |pending| >= 1 || out == []
    ensures ValueOf(pending + Zeros(8 - |pending|)) < 256
    ensures PackBits(BytesToBits(out) + pending) == out + [ValueOf(pending + Zeros(8 - |pending|))]
  {
    Pow2Byte();
    var w := BytesToBits(out) + pending;
    if out == [] {
      assert w == pending;
    } else {
      BytesToBitsLength(out);
      BitsOfLength(out[0], 8);
      BytesToBitsLength(out[1..]);
      ByteRoundTrip(out[0]);
      assert w[..8] == BitsOf(out[0], 8);
      assert w[8..] == BytesToBits(out[1..]) + pending;
      FlushPacks(out[1..], pending);
    }
  }
}
