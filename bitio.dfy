/**
 * The bit-stream writer and reader of bitio.py. The sink of a writer is the
 * growing byte sequence `out`; the source of a reader is the byte sequence
 * `input` together with the position of the next unread byte.
 */
module BitIO {
  import opened Common
  import opened Bits

  /**
   * `acc` holds the bits `pending` MSB-first, from bit 7 down, and zeros in
   * the positions not yet written.
   */
  ghost predicate Holds(acc: int, pending: seq<bool>)
  {
    |pending| <= 8 && 0 <= acc < 256 && acc == ValueOf(pending + Zeros(8 - |pending|))
  }

  /** The writer's fields after one `write_bit`. */
  datatype WriteStep = WriteStep(out: seq<Byte>, acc: int, bcount: int)

  /**
   * One `write_bit`: a full accumulator is flushed first, then the bit goes
   * to position 7 - bcount. That position is clear, so the source's
   * `accumulator |= 1 << 7 - bcount` is the addition of 2^(7-bcount).
   */
  function WriteBitStep(out: seq<Byte>, acc: Byte, bcount: int, bit: bool): WriteStep
    requires 0 <= bcount <= 8
  {
    var out' := if bcount == 8 then out + [acc] else out;
    var acc' := if bcount == 8 then 0 else acc;
    var bcount' := if bcount == 8 then 0 else bcount;
    WriteStep(out', if bit then acc' + Pow2(7 - bcount') else acc', bcount' + 1)
  }

  /** Packs bits MSB-first into `accumulator` and emits full bytes to `out`. */
  class BitWriter {
    var accumulator: int
    var bcount: int
    var out: seq<Byte>
    /** The bits held in `accumulator`, in the order they were written. */
    ghost var pending: seq<bool>

    ghost predicate Valid()
      reads this
    {
      0 <= bcount <= 8 && |pending| == bcount && Holds(accumulator, pending)
    }

    /** Every bit written so far, without the padding of flushes. */
    ghost function Written(): seq<bool>
      reads this
    {
      BytesToBits(out) + pending
    }

    constructor ()
      ensures Valid()
      ensures out == [] && accumulator == 0 && bcount == 0
      ensures Written() == []
    {
      accumulator := 0;
      bcount := 0;
      out := [];
      pending := [];
      new;
      HoldsEmpty();
    }

    /** Emits the accumulator as one byte (even when it holds no bits) and resets. */
    method Flush()
      requires Valid()
      modifies this
      ensures Valid()
      ensures out == old(out) + [old(accumulator)] && accumulator == 0 && bcount == 0
      ensures Written() == BytesToBits(out) == old(Written()) + Zeros(8 - old(bcount))
      ensures old(bcount) >= 1 || old(Written()) == [] ==> out == PackBits(old(Written()))
    {
      FlushFacts(out, accumulator, pending);
      out := out + [accumulator];
      accumulator := 0;
      bcount := 0;
      pending := [];
      HoldsEmpty();
    }

    /** Writes one bit, flushing a full accumulator first. */
    method WriteBit(bit: bool)
      requires Valid()
      modifies this
      ensures Valid()
      ensures WriteStep(out, accumulator, bcount) == WriteBitStep(old(out), old(accumulator), old(bcount), bit)
      ensures Written() == old(Written()) + [bit]
    {
      ghost var w := Written();
      if bcount == 8 {
        Flush();
        assert Zeros(0) == [];
        assert Written() == w + [];
      }
      ghost var o := BytesToBits(out);
      ghost var p := pending;
      assert w == o + p;
      var acc := accumulator;
      if bit {
        acc := accumulator + Pow2(7 - bcount);
      }
      HoldsSetBit(accumulator, p, bit, 7 - bcount);
      accumulator, bcount, pending := acc, bcount + 1, p + [bit];
      assert o + (p + [bit]) == (o + p) + [bit];
    }

    /** Writes the n low-order bits of v, bit n-1 first. */
    method WriteBits(v: nat, n: nat)
      requires Valid()
      modifies this
      ensures Valid()
      ensures Written() == old(Written()) + BitsOf(v, n)
      ensures n > 0 ==> bcount >= 1
      ensures n == 0 ==> out == old(out) && bcount == old(bcount) && accumulator == old(accumulator)
    {
      ghost var w0 := Written();
      BitsOfLength(v, n);
      var k := n;
      while k > 0
        invariant 0 <= k <= n && Valid()
        invariant Written() == w0 + BitsOf(v, n)[..n - k]
        invariant k < n ==> bcount >= 1
        invariant k == n ==> out == old(out) && bcount == old(bcount) && accumulator == old(accumulator)
      {
        WriteNextBit(v, n, k, w0);
        k := k - 1;
      }
      assert BitsOf(v, n)[..n] == BitsOf(v, n);
    }

    /** One round of the loop of `write_bits`: bit k-1 of v. */
    method WriteNextBit(v: nat, n: nat, k: nat, ghost w0: seq<bool>)
      requires 0 < k <= n && Valid() && |BitsOf(v, n)| == n
      requires Written() == w0 + BitsOf(v, n)[..n - k]
      modifies this
      ensures Valid() && bcount >= 1
      ensures Written() == w0 + BitsOf(v, n)[..n - k + 1]
    {
      ghost var bits := BitsOf(v, n);
      BitsOfAt(v, n, n - k);
      ghost var done := bits[..n - k];
      assert bits[..n - k + 1] == done + [bits[n - k]];
      WriteBit((v / Pow2(k - 1)) % 2 == 1);
      assert w0 + done + [bits[n - k]] == w0 + (done + [bits[n - k]]);
    }
  }

  lemma HoldsEmpty()
    ensures Holds(0, [])
  {
    ValueOfZeros(8);
    assert [] + Zeros(8) == Zeros(8);
  }


  /** What a flush emits, in terms of the bits written. */
  lemma FlushFacts(out: seq<Byte>, acc: int, pending: seq<bool>)
    requires Holds(acc, pending)
    ensures 0 <= acc < 256
    ensures BytesToBits(out + [acc]) == BytesToBits(out) + pending + Zeros(8 - |pending|)
    ensures |pending| >= 1 || BytesToBits(out) + pending == [] ==> PackBits(BytesToBits(out) + pending) == out + [acc]
  {
    Pow2Byte();
    var full := pending + Zeros(8 - |pending|);
    BitsOfValueOf(full);
    var b: Byte := acc;
    BytesToBitsAppend(out, [b]);
    assert BytesToBits([b]) == BitsOf(b, 8) + [];
    if |pending| >= 1 || BytesToBits(out) + pending == [] {
      BytesToBitsLength(out);
      FlushPacks(out, pending);
    }
  }

  /** Setting the bit after `p` in the accumulator adds 2^(7-|p|). */
  lemma HoldsSetBit(acc: int, p: seq<bool>, b: bool, k: int)
    requires Holds(acc, p) && |p| < 8 && k == 7 - |p|
    ensures Holds(if b then acc + Pow2(k) else acc, p + [b])
  {
    SetBitAt(p, b, k);
    assert 8 - |p + [b]| == k;
    Pow2Byte();
  }

  lemma SetBitAt(p: seq<bool>, b: bool, k: nat)
    ensures ValueOf(p + [b] + Zeros(k)) == ValueOf(p + Zeros(k + 1)) + (if b then Pow2(k) else 0)
  {
    ValueOfPadded(p + [b], k);
    ValueOfPadded(p, k + 1);
    ValueOfSnoc(p, b);
    Distribute(ValueOf(p), b, Pow2(k));
  }

  lemma ValueOfPadded(q: seq<bool>, n: nat)
    ensures ValueOf(q + Zeros(n)) == ValueOf(q) * Pow2(n)
  {
    ValueOfAppend(q, Zeros(n));
    ValueOfZeros(n);
  }

  lemma Distribute(v: int, b: bool, m: int)
    ensures (2 * v + (if b then 1 else 0)) * m == v * (2 * m) + (if b then m else 0)
  {
  }

  lemma ValueOfSnoc(p: seq<bool>, b: bool)
    ensures ValueOf(p + [b]) == 2 * ValueOf(p) + (if b then 1 else 0)
  {
    assert (p + [b])[..|p|] == p;
  }

  /**
   * The bits a reader over `input` returns next, when the next unread byte
   * is at `pos` and the low `bcount` bits of `acc` are still unread: those
   * bits, then the bits of the unread bytes.
   */
  ghost function AvailOf(input: seq<Byte>, pos: nat, acc: int, bcount: int): seq<bool>
    requires pos <= |input| && 0 <= bcount <= 8 && 0 <= acc
  {
    BitsOfLength(acc, 8);
    BitsOf(acc, 8)[8 - bcount..] + BytesToBits(input[pos..])
  }

  /** The reader's fields after one `read_bit`, and the bit it returns. */
  datatype ReadStep = ReadStep(pos: nat, acc: int, bcount: int, read: int, bit: int)

  /**
   * One `read_bit`: with no bit left in the accumulator, refill it from
   * `input` (at end of input `read` becomes 0 and the old accumulator is
   * kept); then take bit bcount-1 of the accumulator.
   */
  function ReadBitStep(input: seq<Byte>, pos: nat, acc: int, bcount: int, read: int): ReadStep
    requires pos <= |input| && 0 <= bcount <= 8
  {
    var refill := bcount == 0;
    var got := refill && pos < |input|;
    var pos' := if got then pos + 1 else pos;
    var acc' := if got then input[pos] else acc;
    var read' := if !refill then read else if got then 1 else 0;
    var full := if refill then 8 else bcount;
    ReadStep(pos', acc', full - 1, read', (acc' / Pow2(full - 1)) % 2)
  }

  /** What one `read_bit` does to the bits still to be read. */
  lemma ReadBitAvail(input: seq<Byte>, pos: nat, acc: int, bcount: int, read: int)
    requires pos <= |input| && 0 <= bcount <= 8 && 0 <= acc < 256
    ensures var r := ReadBitStep(input, pos, acc, bcount, read);
      && r.pos <= |input| && 0 <= r.bcount < 8 && 0 <= r.acc < 256
      && (r.read == 0 || r.read == 1 || r.read == read)
      && (r.bit == 0 || r.bit == 1)
      && var a := AvailOf(input, pos, acc, bcount);
      && (a != [] ==> r.bit == (if a[0] then 1 else 0) && AvailOf(input, r.pos, r.acc, r.bcount) == a[1..])
      && ((read == 1 || bcount == 0) && a != [] ==> r.read == 1)
      && (a == [] ==> r.read == 0 && r.pos == |input|)
  {
    var r := ReadBitStep(input, pos, acc, bcount, read);
    var a := AvailOf(input, pos, acc, bcount);
    BitsOfLength(acc, 8);
    BytesToBitsLength(input[pos..]);
    if bcount == 0 {
      assert BitsOf(acc, 8)[8..] == [];
      if pos < |input| {
        assert input[pos..] == [input[pos]] + input[pos + 1..];
        TakeBit(input[pos], 8);
        assert BitsOf(input[pos], 8)[0..] == BitsOf(input[pos], 8);
      }
    } else {
      TakeBit(acc, bcount);
    }
  }

  /** The unread window of k bits of a byte starts with bit k-1 of it. */
  lemma TakeBit(acc: int, k: int)
    requires 0 <= acc < 256 && 1 <= k <= 8
    ensures |BitsOf(acc, 8)| == 8
    ensures BitsOf(acc, 8)[8 - k..] == [(acc / Pow2(k - 1)) % 2 == 1] + BitsOf(acc, 8)[9 - k..]
  {
    BitsOfAt(acc, 8, 8 - k);
    var bits := BitsOf(acc, 8);
    assert bits[8 - k..] == [bits[8 - k]] + bits[9 - k..];
  }

  /**
   * Unpacks bytes from `input` MSB-first. End of input is signalled only by
   * `read`, which the last refill sets to the number of bytes it obtained.
   */
  class BitReader {
    const input: seq<Byte>
    var pos: nat
    var accumulator: int
    var bcount: int
    var read: int

    ghost predicate Valid()
      reads this
    {
      && pos <= |input|
      && 0 <= bcount <= 8
      && 0 <= accumulator < 256
      && (read == 0 || read == 1)
    }

    /** The bits the reader will return next. */
    ghost function Avail(): seq<bool>
      reads this
      requires Valid()
    {
      AvailOf(input, pos, accumulator, bcount)
    }

    /** `read` tells the truth about the bits still held in the accumulator. */
    ghost predicate Live()
      reads this
    {
      read == 1 || bcount == 0
    }

    constructor (data: seq<Byte>)
      ensures Valid() && Live()
      ensures input == data && pos == 0 && accumulator == 0 && bcount == 0 && read == 0
      ensures Avail() == BytesToBits(data)
    {
      input := data;
      pos := 0;
      accumulator := 0;
      bcount := 0;
      read := 0;
      new;
      BitsOfLength(0, 8);
      assert data[0..] == data;
    }

    /** Returns the next bit (0 or 1), refilling the accumulator when it is empty. */
    method ReadBit() returns (bit: int)
      requires Valid()
      modifies this
      ensures Valid()
      ensures ReadStep(pos, accumulator, bcount, read, bit)
           == ReadBitStep(input, old(pos), old(accumulator), old(bcount), old(read))
      ensures old(Avail()) != [] ==> bit == (if old(Avail())[0] then 1 else 0) && Avail() == old(Avail())[1..]
      ensures old(Live()) && old(Avail()) != [] ==> read == 1 && Live()
      ensures old(Avail()) == [] ==> read == 0 && pos == |input|
    {
      ReadBitAvail(input, pos, accumulator, bcount, read);
      if bcount == 0 {
        if pos < |input| {
          accumulator := input[pos];
          pos := pos + 1;
          read := 1;
        } else {
          read := 0;
        }
        bcount := 8;
      }
      bit := (accumulator / Pow2(bcount - 1)) % 2;
      bcount := bcount - 1;
    }

    /** The reader is live and its unread bits are those of `data[i..]`. */
    ghost predicate At(data: seq<Byte>, i: nat)
      reads this
    {
      Valid() && Live() && i <= |data| && Avail() == BytesToBits(data[i..])
    }

    /** Reads n bits into an unsigned value, first bit most significant. */
    method ReadBits(n: nat) returns (v: nat)
      requires Valid()
      modifies this
      ensures Valid()
      ensures v < Pow2(n)
      ensures |old(Avail())| >= n ==> v == ValueOf(old(Avail())[..n]) && Avail() == old(Avail())[n..]
      ensures old(Live()) && |old(Avail())| >= n ==> Live() && (n > 0 ==> read == 1)
      ensures |old(Avail())| < n ==> read == 0
    {
      ghost var a := Avail();
      v := 0;
      var k := n;
      while k > 0
        invariant 0 <= k <= n && Valid()
        invariant v < Pow2(n - k)
        invariant |a| >= n - k ==> v == ValueOf(a[..n - k]) && Avail() == a[n - k..]
        invariant old(Live()) && |a| >= n - k ==> Live() && (n - k > 0 ==> read == 1)
        invariant |a| < n - k ==> read == 0 && pos == |input|
      {
        v := ReadNextBit(a, n, k, v, old(Live()));
        k := k - 1;
      }
      if |a| >= n {
        assert a[..n] == a[..n - k];
      }
    }

    /**
     * One round of the loop of `read_bits`: the next bit is appended to v
     * as its new lowest bit. The source's `(v << 1) | bit` is 2v + bit,
     * since the low bit of v << 1 is clear.
     */
    method ReadNextBit(ghost a: seq<bool>, ghost n: nat, k: nat, v: nat, ghost live: bool) returns (v': nat)
      requires 0 < k <= n && Valid() && v < Pow2(n - k)
      requires |a| >= n - k ==> v == ValueOf(a[..n - k]) && Avail() == a[n - k..]
      requires live && |a| >= n - k ==> Live() && (n - k > 0 ==> read == 1)
      requires |a| < n - k ==> read == 0 && pos == |input|
      modifies this
      ensures Valid() && v' < Pow2(n - k + 1)
      ensures |a| >= n - k + 1 ==> v' == ValueOf(a[..n - k + 1]) && Avail() == a[n - k + 1..]
      ensures live && |a| >= n - k + 1 ==> Live() && read == 1
      ensures |a| < n - k + 1 ==> read == 0 && pos == |input|
    {
      ghost var before := Avail();
      var bit := ReadBit();
      if |a| > n - k {
        assert a[..n - k + 1][..n - k] == a[..n - k];
        assert a[..n - k + 1][n - k] == before[0];
      }
      v' := 2 * v + bit;
    }
  }

  /**
   * `read_bits(8)` on a reader at byte `i` of `data`: that byte, and the
   * reader moves past it; at the end of `data`, `read` becomes 0.
   */
  method ReadByteAt(reader: BitReader, ghost data: seq<Byte>, ghost i: nat) returns (v: nat)
    requires reader.At(data, i)
    modifies reader
    ensures reader.Valid()
    ensures reader.read == 0 <==> i == |data|
    ensures i < |data| ==> v == data[i] && reader.At(data, i + 1)
  {
    if i < |data| {
      NextByte(data, i);
    }
    v := reader.ReadBits(8);
  }

  /**
   * Bits written with `write_bits(v, n)` and read back from the flushed
   * output with `read_bits(n)` give v mod 2^n, as in the demo of bitio.py.
   */
  method WriteThenReadBits(v: nat, n: nat) returns (r: nat)
    ensures r == v % Pow2(n)
  {
    var writer := new BitWriter();
    writer.WriteBits(v, n);
    writer.Flush();
    var reader := new BitReader(writer.out);
    BitsOfLength(v, n);
    ghost var bits := BytesToBits(writer.out);
    assert bits[..n] == BitsOf(v, n);
    r := reader.ReadBits(n);
    ValueOfBitsOf(v, n);
  }
}
