/**
 * Run-length coding of RunLength.py: the compressed stream is a sequence of
 * 8-bit run counts for alternating runs of 0-bits and 1-bits, starting with
 * 0-bits.
 */
module RunLength {
  import opened Common
  import opened Bits
  import opened BitIO

  /** Width in bits of one run count. */
  const EncodingLength: nat := 8
  /** The largest run count that fits: 2^8 - 1. */
  const MaxLength: nat := 255

  lemma MaxLengthValue()
    ensures MaxLength == Pow2(EncodingLength) - 1
  {
    Pow2Byte();
  }

  /**
   * The counts the encoder loop emits for the remaining `bits`, when it has
   * counted `cnt` copies of the bit `cur` so far.
   */
  function EncodeRuns(bits: seq<bool>, cnt: nat, cur: bool): seq<Byte>
    requires cnt <= MaxLength
    decreases |bits|
  {
    if bits == [] then [cnt]
    else if bits[0] != cur then [cnt] + EncodeRuns(bits[1..], 1, !cur)
    else if cnt == MaxLength then [MaxLength, 0] + EncodeRuns(bits[1..], 1, cur)
    else EncodeRuns(bits[1..], cnt + 1, cur)
  }

  /** Expands counts into alternating runs, the first one of bit value `b`. */
  function DecodeRuns(counts: seq<Byte>, b: bool): seq<bool>
  {
    if counts == [] then [] else Repeat(b, counts[0]) + DecodeRuns(counts[1..], !b)
  }

  function Sum(counts: seq<Byte>): nat
  {
    if counts == [] then 0 else counts[0] + Sum(counts[1..])
  }

  /** The compressed form of a byte sequence: one byte per count. */
  function Compressed(s: seq<Byte>): seq<Byte>
  {
    EncodeRuns(BytesToBits(s), 0, false)
  }

  /** What expand writes, once the writer has been flushed. */
  function Expanded(c: seq<Byte>): seq<Byte>
  {
    PackBits(DecodeRuns(c, false))
  }

  // ---------------------------------------------------------------------
  // Properties of the run encoding

  /** Decoding the counts restores the bits, after the run already counted. */
  lemma {:induction false} DecodeEncode(bits: seq<bool>, cnt: nat, cur: bool)
    requires cnt <= MaxLength
    ensures DecodeRuns(EncodeRuns(bits, cnt, cur), cur) == Repeat(cur, cnt) + bits
  {
    if bits == [] {
      DecodeCons(cnt, [], cur);
    } else if bits[0] != cur {
      DecodeEncode(bits[1..], 1, !cur);
      SwitchStep(bits, cnt, cur);
    } else if cnt == MaxLength {
      DecodeEncode(bits[1..], 1, cur);
      CutStep(bits, cur);
    } else {
      DecodeEncode(bits[1..], cnt + 1, cur);
      GrowStep(bits, cnt, cur);
    }
  }

  /** A bit of the other value: the count is written and a run of one starts. */
  lemma SwitchStep(bits: seq<bool>, cnt: nat, cur: bool)
    requires bits != [] && bits[0] != cur && cnt <= MaxLength
    requires DecodeRuns(EncodeRuns(bits[1..], 1, !cur), !cur) == Repeat(!cur, 1) + bits[1..]
    ensures DecodeRuns(EncodeRuns(bits, cnt, cur), cur) == Repeat(cur, cnt) + bits
  {
    var tail := EncodeRuns(bits[1..], 1, !cur);
    DecodeCons(cnt, tail, cur);
    HeadRun(bits);
  }

  /** The 256th bit of a run: 255 and 0 are written and the run goes on with one bit. */
  lemma CutStep(bits: seq<bool>, cur: bool)
    requires bits != [] && bits[0] == cur
    requires DecodeRuns(EncodeRuns(bits[1..], 1, cur), cur) == Repeat(cur, 1) + bits[1..]
    ensures DecodeRuns(EncodeRuns(bits, MaxLength, cur), cur) == Repeat(cur, MaxLength) + bits
  {
    var tail := EncodeRuns(bits[1..], 1, cur);
    var zero: Byte := 0;
    assert [MaxLength as Byte, zero] + tail == [MaxLength as Byte] + ([zero] + tail);
    DecodeCons(MaxLength, [zero] + tail, cur);
    DecodeCons(zero, tail, !cur);
    HeadRun(bits);
  }

  /** Another bit of the current run below 255: the count grows. */
  lemma GrowStep(bits: seq<bool>, cnt: nat, cur: bool)
    requires bits != [] && bits[0] == cur && cnt < MaxLength
    requires DecodeRuns(EncodeRuns(bits[1..], cnt + 1, cur), cur) == Repeat(cur, cnt + 1) + bits[1..]
    ensures DecodeRuns(EncodeRuns(bits, cnt, cur), cur) == Repeat(cur, cnt) + bits
  {
    RepeatAppend(cur, cnt, 1);
    HeadRun(bits);
    assert Repeat(cur, cnt) + Repeat(cur, 1) + bits[1..] == Repeat(cur, cnt) + (Repeat(cur, 1) + bits[1..]);
  }

  lemma DecodeCons(c: Byte, tail: seq<Byte>, b: bool)
    ensures DecodeRuns([c] + tail, b) == Repeat(b, c) + DecodeRuns(tail, !b)
  {
    assert ([c] + tail)[1..] == tail;
  }

  lemma HeadRun(bits: seq<bool>)
    requires bits != []
    ensures Repeat(bits[0], 1) + bits[1..] == bits
  {
  }

  lemma {:induction false} RepeatAppend(b: bool, m: nat, n: nat)
    ensures Repeat(b, m) + Repeat(b, n) == Repeat(b, m + n)
  {
    if m > 0 {
      RepeatAppend(b, m - 1, n);
      assert Repeat(b, m) + Repeat(b, n) == [b] + (Repeat(b, m - 1) + Repeat(b, n));
    }
  }

  /** The counts add up to the number of bits, plus the run already counted. */
  lemma {:induction false} EncodeSum(bits: seq<bool>, cnt: nat, cur: bool)
    requires cnt <= MaxLength
    ensures Sum(EncodeRuns(bits, cnt, cur)) == cnt + |bits|
  {
    if bits == [] {
    } else if bits[0] != cur {
      var tail := EncodeRuns(bits[1..], 1, !cur);
      EncodeSum(bits[1..], 1, !cur);
      assert ([cnt as Byte] + tail)[1..] == tail;
    } else if cnt == MaxLength {
      var tail := EncodeRuns(bits[1..], 1, cur);
      EncodeSum(bits[1..], 1, cur);
      var zero: Byte := 0;
      assert ([MaxLength as Byte, zero] + tail)[1..] == [zero] + tail;
      assert ([zero] + tail)[1..] == tail;
    } else {
      EncodeSum(bits[1..], cnt + 1, cur);
    }
  }

  /**
   * The first count is 0 exactly when no bit is counted for the first run:
   * the input is empty or starts with a 1 bit. Otherwise it is the length of
   * the leading run of 0 bits, cut at 255.
   */
  lemma {:induction false} FirstCount(bits: seq<bool>, cnt: nat)
    requires cnt <= MaxLength
    ensures EncodeRuns(bits, cnt, false) != []
    ensures EncodeRuns(bits, cnt, false)[0] == Min(cnt + LeadingZeros(bits), MaxLength)
  {
    if bits != [] && !bits[0] && cnt < MaxLength {
      FirstCount(bits[1..], cnt + 1);
    }
  }

  function LeadingZeros(bits: seq<bool>): nat
  {
    if bits == [] || bits[0] then 0 else 1 + LeadingZeros(bits[1..])
  }

  function Min(a: nat, b: nat): nat
  {
    if a < b then a else b
  }

  lemma FirstCountOfInput(s: seq<Byte>)
    ensures Compressed(s) != []
    ensures Compressed(s)[0] == 0 <==> (s == [] || BytesToBits(s)[0])
  {
    var bits := BytesToBits(s);
    BytesToBitsLength(s);
    FirstCount(bits, 0);
  }

  /** Compression followed by expansion restores any non-empty input. */
  lemma RoundTrip(s: seq<Byte>)
    requires s != []
    ensures Expanded(Compressed(s)) == s
  {
    DecodeEncode(BytesToBits(s), 0, false);
    assert Repeat(false, 0) + BytesToBits(s) == BytesToBits(s);
    PackBytes(s);
  }

  /** The empty input expands to one zero byte: the writer's flush always emits one. */
  lemma RoundTripEmpty()
    ensures Expanded(Compressed([])) == [0]
  {
    DecodeEncode([], 0, false);
    Pow2Byte();
    ValueOfZeros(8);
    assert [] + Zeros(8) == Zeros(8);
  }

  // ---------------------------------------------------------------------
  // The codec loops over the bit streams

  /** The encoder loop of RunLength.compress, then the final count and the flush. */
  method Compress(input: seq<Byte>) returns (out: seq<Byte>)
    ensures out == Compressed(input)
    ensures Sum(out) == 8 * |input|
  {
    var reader := new BitReader(input);
    var writer := new BitWriter();
    var cnt;
    ghost var emitted;
    cnt, emitted := EncodeLoop(input, reader, writer);
    emitted := Emit(writer, cnt, emitted);
    writer.Flush();
    PackBytes(emitted);
    out := writer.out;
    assert out == emitted;
    EncodeSum(BytesToBits(input), 0, false);
    BytesToBitsLength(input);
  }

  /**
   * The encoder loop: every bit of the input is counted; the counts of the
   * finished runs are written and the count of the last run is returned.
   */
  method EncodeLoop(input: seq<Byte>, reader: BitReader, writer: BitWriter) returns (cnt: nat, ghost emitted: seq<Byte>)
    requires reader.At(input, 0) && writer.Valid() && writer.Written() == []
    modifies reader, writer
    ensures writer.Valid() && cnt <= MaxLength
    ensures emitted + [cnt] == Compressed(input)
    ensures writer.Written() == BytesToBits(emitted)
    ensures emitted == [] || writer.bcount >= 1
  {
    cnt := 0;
    var cur := false;   // the source's `old`: the bit value of the current run
    emitted := [];
    assert input[0..] == input;
    while true
      invariant reader.Valid() && reader.Live() && writer.Valid()
      invariant 0 <= cnt <= MaxLength
      invariant emitted + EncodeRuns(reader.Avail(), cnt, cur) == Compressed(input)
      invariant writer.Written() == BytesToBits(emitted)
      invariant emitted == [] || writer.bcount >= 1
      decreases |reader.Avail()|
    {
      ghost var avail := reader.Avail();
      var bit := reader.ReadBit();
      if reader.read == 0 {
        assert avail == [];
        break;
      }
      cnt, cur, emitted := CountBit(writer, bit == 1, cnt, cur, emitted, avail);
    }
  }

  /**
   * The body of the encoder loop for one bit `b`, the first of `bits`: a
   * change of bit value ends the run; a run of 255 that goes on is cut by
   * writing 255 and then 0, the empty run of the other bit value.
   */
  method CountBit(writer: BitWriter, b: bool, cnt: nat, cur: bool, ghost emitted: seq<Byte>, ghost bits: seq<bool>)
    returns (cnt': nat, cur': bool, ghost emitted': seq<Byte>)
    requires writer.Valid() && writer.Written() == BytesToBits(emitted)
    requires emitted == [] || writer.bcount >= 1
    requires bits != [] && b == bits[0] && cnt <= MaxLength
    modifies writer
    ensures writer.Valid() && writer.Written() == BytesToBits(emitted')
    ensures emitted' == [] || writer.bcount >= 1
    ensures 0 < cnt' <= MaxLength
    ensures emitted' + EncodeRuns(bits[1..], cnt', cur') == emitted + EncodeRuns(bits, cnt, cur)
  {
    EncodeStep(emitted, bits, cnt, cur);
    cnt', cur', emitted' := cnt, cur, emitted;
    if b != cur {
      emitted' := Emit(writer, cnt', emitted');
      cnt' := 0;
      cur' := !cur';
    } else if cnt == MaxLength {
      emitted' := Emit(writer, cnt', emitted');
      cnt' := 0;
      emitted' := Emit(writer, cnt', emitted');
    }
    cnt' := cnt' + 1;
  }

  /** Writes one run count, as `writer.write_bits(cnt, encoding_length)`. */
  method Emit(writer: BitWriter, cnt: Byte, ghost emitted: seq<Byte>) returns (ghost emitted': seq<Byte>)
    requires writer.Valid() && writer.Written() == BytesToBits(emitted)
    modifies writer
    ensures writer.Valid() && emitted' == emitted + [cnt]
    ensures writer.Written() == BytesToBits(emitted') && writer.bcount >= 1
  {
    writer.WriteBits(cnt, EncodingLength);
    BytesToBitsSnoc(emitted, cnt);
    emitted' := emitted + [cnt];
  }

  /** One step of the encoder loop: the counts still owed after reading `bits[0]`. */
  lemma EncodeStep(emitted: seq<Byte>, bits: seq<bool>, cnt: nat, cur: bool)
    requires bits != [] && cnt <= MaxLength
    ensures bits[0] != cur ==>
      emitted + EncodeRuns(bits, cnt, cur) == emitted + [cnt] + EncodeRuns(bits[1..], 1, !cur)
    ensures bits[0] == cur && cnt == MaxLength ==>
      emitted + EncodeRuns(bits, cnt, cur) == emitted + [cnt] + [0] + EncodeRuns(bits[1..], 1, cur)
    ensures bits[0] == cur && cnt < MaxLength ==>
      emitted + EncodeRuns(bits, cnt, cur) == emitted + EncodeRuns(bits[1..], cnt + 1, cur)
  {
    var zero: Byte := 0;
    if bits[0] != cur {
      assert emitted + ([cnt as Byte] + EncodeRuns(bits[1..], 1, !cur))
          == emitted + [cnt] + EncodeRuns(bits[1..], 1, !cur);
    } else if cnt == MaxLength {
      assert emitted + ([cnt as Byte, zero] + EncodeRuns(bits[1..], 1, cur))
          == emitted + [cnt] + [0] + EncodeRuns(bits[1..], 1, cur);
    }
  }

  /** The decoder loop of RunLength.expand, then the flush. */
  method Expand(input: seq<Byte>) returns (out: seq<Byte>)
    ensures out == Expanded(input)
  {
    var reader := new BitReader(input);
    var writer := new BitWriter();
    DecodeLoop(input, reader, writer);
    out := FlushRuns(writer, DecodeRuns(input, false));
  }

  /**
   * The loop of RunLength.expand: a run of `cnt` copies of the current bit
   * per count read, starting with 0-bits and flipping after every run.
   */
  method DecodeLoop(input: seq<Byte>, reader: BitReader, writer: BitWriter)
    requires reader.At(input, 0) && writer.Valid() && writer.Written() == []
    modifies reader, writer
    ensures writer.Valid() && writer.Written() == DecodeRuns(input, false)
    ensures writer.Written() == [] || writer.bcount >= 1
  {
    var b := false;
    ghost var i := 0;
    var more := true;
    while more
      invariant (more ==> reader.At(input, i)) && writer.Valid()
      invariant more ==> writer.Written() + DecodeRuns(input[i..], b) == DecodeRuns(input, false)
      invariant !more ==> writer.Written() == DecodeRuns(input, false)
      invariant writer.Written() == [] || writer.bcount >= 1
      decreases |input| - i, more
    {
      more := DecodeCount(input, reader, writer, b, i);
      if more {
        b := !b;
        i := i + 1;
      }
    }
  }

  /**
   * One round of the decoder loop: read a count and write that many copies
   * of the current bit, or report the end of input.
   */
  method DecodeCount(input: seq<Byte>, reader: BitReader, writer: BitWriter, b: bool, ghost i: nat) returns (more: bool)
    requires reader.At(input, i) && writer.Valid()
    requires writer.Written() == [] || writer.bcount >= 1
    modifies reader, writer
    ensures writer.Valid() && (writer.Written() == [] || writer.bcount >= 1)
    ensures more <==> i < |input|
    ensures more ==> reader.At(input, i + 1)
    ensures more ==> writer.Written() + DecodeRuns(input[i + 1..], !b) == old(writer.Written()) + DecodeRuns(input[i..], b)
    ensures !more ==> writer.Written() == old(writer.Written()) + DecodeRuns(input[i..], b)
  {
    var cnt := ReadByteAt(reader, input, i);
    if reader.read == 0 {
      assert input[i..] == [];
      return false;
    }
    ghost var w := writer.Written();
    NextCount(input, i, w, b);
    WriteRun(writer, b, cnt);
    more := true;
  }

  /** The final flush of the decoder: the sink then holds the packed bits. */
  method FlushRuns(writer: BitWriter, ghost bits: seq<bool>) returns (out: seq<Byte>)
    requires writer.Valid() && writer.Written() == bits
    requires bits == [] || writer.bcount >= 1
    modifies writer
    ensures out == PackBits(bits)
  {
    writer.Flush();
    out := writer.out;
  }

  /**
   * Writing the run of the count `input[i]` after `w` leaves the runs of
   * the remaining counts to be written.
   */
  lemma NextCount(input: seq<Byte>, i: nat, w: seq<bool>, b: bool)
    requires i < |input|
    ensures w + Repeat(b, input[i]) + DecodeRuns(input[i + 1..], !b) == w + DecodeRuns(input[i..], b)
  {
    assert input[i..] == [input[i]] + input[i + 1..];
  }

  /** The inner loop of the decoder: `cnt` copies of the bit `b`. */
  method WriteRun(writer: BitWriter, b: bool, cnt: nat)
    requires writer.Valid()
    requires writer.Written() == [] || writer.bcount >= 1
    modifies writer
    ensures writer.Valid()
    ensures writer.Written() == old(writer.Written()) + Repeat(b, cnt)
    ensures writer.Written() == [] || writer.bcount >= 1
  {
    ghost var w0 := writer.Written();
    var j := 0;
    while j < cnt
      invariant 0 <= j <= cnt && writer.Valid()
      invariant writer.Written() == w0 + Repeat(b, j)
      invariant writer.Written() == [] || writer.bcount >= 1
    {
      writer.WriteBit(b);
      RunSnoc(w0, b, j);
      j := j + 1;
    }
  }

  /** One more bit of value `b` lengthens the run by one. */
  lemma RunSnoc(w0: seq<bool>, b: bool, j: nat)
    ensures w0 + Repeat(b, j) + [b] == w0 + Repeat(b, j + 1)
  {
    RepeatAppend(b, j, 1);
    assert Repeat(b, 1) == [b];
    assert w0 + Repeat(b, j) + [b] == w0 + (Repeat(b, j) + [b]);
  }
}
