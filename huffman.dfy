/**
 * The Huffman codec of Huffman.py as values: the trie, the code table
 * derived from it, the pre-order serialisation of the trie, the bit string
 * a compressed file holds and what expanding a file yields.
 */
module Huffman {
  import opened Common
  import opened Bits

  /** Bits per symbol. */
  const CharBitLen: nat := 8
  /** Bits of the text length written after the trie. */
  const NumBitLen: nat := 32

  // ---------------------------------------------------------------------
  // Tries

  /**
   * A trie node: a leaf holds a symbol and its frequency, an inner node
   * the sum of its children's frequencies. Nodes compare by frequency
   * only, which the model leaves to the heap extraction.
   */
  datatype Trie = Leaf(ch: Byte, freq: nat) | Internal(freq: nat, left: Trie, right: Trie)

  /** The symbols at the leaves, with their multiplicities. */
  function Syms(t: Trie): multiset<Byte>
  {
    match t
    case Leaf(c, _) => multiset{c}
    case Internal(_, l, r) => Syms(l) + Syms(r)
  }

  /** The symbols at the leaves. */
  function Symbols(t: Trie): set<Byte>
  {
    match t
    case Leaf(c, _) => {c}
    case Internal(_, l, r) => Symbols(l) + Symbols(r)
  }

  /** No symbol is at two leaves. */
  ghost predicate Distinct(t: Trie)
  {
    match t
    case Leaf(_, _) => true
    case Internal(_, l, r) => Distinct(l) && Distinct(r) && Symbols(l) !! Symbols(r)
  }

  /** Every inner node's frequency is the sum of its children's. */
  ghost predicate Weighted(t: Trie)
  {
    match t
    case Leaf(_, _) => true
    case Internal(f, l, r) => f == l.freq + r.freq && Weighted(l) && Weighted(r)
  }

  /** Every leaf carries the table's frequency of its symbol. */
  ghost predicate LeavesMatch(t: Trie, freq: map<Byte, nat>)
  {
    match t
    case Leaf(c, f) => c in freq && f == freq[c]
    case Internal(_, l, r) => LeavesMatch(l, freq) && LeavesMatch(r, freq)
  }

  /**
   * A trie built from the frequency table `freq`: its leaves are the
   * table's symbols, each exactly once, with their frequencies, and every
   * inner node adds up its children. (Every inner node has two children by
   * construction of the datatype.)
   */
  ghost predicate IsTrieFor(t: Trie, freq: map<Byte, nat>)
  {
    Weighted(t) && LeavesMatch(t, freq) && Distinct(t) && Symbols(t) == freq.Keys
  }

  /** The symbols of the trie, each repeated as often as its leaf's frequency. */
  ghost function Bag(t: Trie): multiset<Byte>
  {
    match t
    case Leaf(c, f) => multiset{}[c := f]
    case Internal(_, l, r) => Bag(l) + Bag(r)
  }

  /** The frequency table of a text: each of its bytes to its count. */
  ghost function FreqOf(s: seq<Byte>): map<Byte, nat>
  {
    map c | c in s :: multiset(s)[c]
  }

  lemma {:induction false} SymsNonEmpty(t: Trie)
    ensures |Syms(t)| >= 1
  {
    match t
    case Leaf(_, _) =>
    case Internal(_, l, r) => SymsNonEmpty(l);
  }

  lemma {:induction false} SymsSymbols(t: Trie)
    ensures forall c :: c in Syms(t) <==> c in Symbols(t)
  {
    match t
    case Leaf(_, _) =>
    case Internal(_, l, r) =>
      SymsSymbols(l);
      SymsSymbols(r);
  }

  /** A trie whose leaves hold each symbol at most once is distinct. */
  lemma {:induction false} CountDistinct(t: Trie)
    requires forall c :: Syms(t)[c] <= 1
    ensures Distinct(t)
  {
    match t
    case Leaf(_, _) =>
    case Internal(_, l, r) =>
      assert forall c :: Syms(t)[c] == Syms(l)[c] + Syms(r)[c];
      CountDistinct(l);
      CountDistinct(r);
      SymsSymbols(l);
      SymsSymbols(r);
  }

  lemma {:induction false} WeightedBag(t: Trie)
    requires Weighted(t)
    ensures t.freq == |Bag(t)|
  {
    match t
    case Leaf(c, f) =>
      assert |multiset{}[c := f]| == f;
    case Internal(_, l, r) =>
      WeightedBag(l);
      WeightedBag(r);
  }

  lemma {:induction false} MatchBag(t: Trie, freq: map<Byte, nat>, c: Byte)
    requires LeavesMatch(t, freq) && Distinct(t)
    ensures c in Symbols(t) ==> c in freq && Bag(t)[c] == freq[c]
    ensures c !in Symbols(t) ==> Bag(t)[c] == 0
  {
    match t
    case Leaf(_, _) =>
    case Internal(_, l, r) =>
      MatchBag(l, freq, c);
      MatchBag(r, freq, c);
  }

  /**
   * The root's frequency is the total of the table, and every symbol is
   * counted as often as the table says.
   */
  lemma TrieFreq(t: Trie, freq: map<Byte, nat>)
    requires IsTrieFor(t, freq)
    ensures t.freq == |Bag(t)|
    ensures forall c :: Bag(t)[c] == if c in freq then freq[c] else 0
  {
    WeightedBag(t);
    forall c {
      MatchBag(t, freq, c);
    }
  }

  /** For the table of a text, the root's frequency is the text's length. */
  lemma RootFreq(s: seq<Byte>, t: Trie)
    requires IsTrieFor(t, FreqOf(s))
    ensures t.freq == |s|
  {
    TrieFreq(t, FreqOf(s));
    assert forall c :: Bag(t)[c] == multiset(s)[c];
    assert Bag(t) == multiset(s);
  }

  // ---------------------------------------------------------------------
  // Code table

  /** The root-to-leaf path of a symbol: '0' for left, '1' for right. */
  function Path(t: Trie, c: Byte): seq<char>
    requires c in Symbols(t)
  {
    match t
    case Leaf(_, _) => []
    case Internal(_, l, r) => if c in Symbols(l) then ['0'] + Path(l, c) else ['1'] + Path(r, c)
  }

  /**
   * The entries `_build_code` adds to the table for the subtrie `t`
   * reached by the path `s`; later entries replace earlier ones.
   */
  function Codes(t: Trie, s: seq<char>): map<Byte, seq<char>>
  {
    match t
    case Leaf(c, _) => map[c := s]
    case Internal(_, l, r) => Codes(l, s + ['0']) + Codes(r, s + ['1'])
  }

  predicate Binary(code: seq<char>)
  {
    forall k :: 0 <= k < |code| ==> code[k] == '0' || code[k] == '1'
  }

  predicate IsPrefix(a: seq<char>, b: seq<char>)
  {
    |a| <= |b| && b[..|a|] == a
  }

  /** The table holds exactly the leaf symbols. */
  lemma {:induction false} CodesKeys(t: Trie, s: seq<char>)
    ensures forall c :: c in Codes(t, s) <==> c in Symbols(t)
  {
    match t
    case Leaf(_, _) =>
    case Internal(_, l, r) =>
      CodesKeys(l, s + ['0']);
      CodesKeys(r, s + ['1']);
  }

  /** With distinct leaves, the table maps a symbol to `s` followed by its path. */
  lemma {:induction false} CodesValue(t: Trie, s: seq<char>, c: Byte)
    requires Distinct(t) && c in Symbols(t)
    ensures c in Codes(t, s) && Codes(t, s)[c] == s + Path(t, c)
    decreases t, 1
  {
    if t.Internal? {
      CodesValueNode(t, s, c);
    }
  }

  lemma {:induction false} CodesValueNode(t: Trie, s: seq<char>, c: Byte)
    requires t.Internal? && Distinct(t) && c in Symbols(t)
    ensures c in Codes(t, s) && Codes(t, s)[c] == s + Path(t, c)
    decreases t, 0
  {
    var l, r := t.left, t.right;
    CodesKeys(l, s + ['0']);
    CodesKeys(r, s + ['1']);
    if c in Symbols(l) {
      CodesValue(l, s + ['0'], c);
      assert Path(t, c) == ['0'] + Path(l, c);
      assert s + ['0'] + Path(l, c) == s + (['0'] + Path(l, c));
    } else {
      CodesValue(r, s + ['1'], c);
      assert Path(t, c) == ['1'] + Path(r, c);
      assert s + ['1'] + Path(r, c) == s + (['1'] + Path(r, c));
    }
  }

  lemma {:induction false} PathBinary(t: Trie, c: Byte)
    requires c in Symbols(t)
    ensures Binary(Path(t, c))
  {
    match t
    case Leaf(_, _) =>
    case Internal(_, l, r) =>
      if c in Symbols(l) {
        PathBinary(l, c);
      } else {
        PathBinary(r, c);
      }
  }

  /** No path is a prefix of (or equal to) the path of another symbol. */
  lemma {:induction false} PathsPrefixFree(t: Trie, c: Byte, d: Byte)
    requires c in Symbols(t) && d in Symbols(t) && c != d
    ensures !IsPrefix(Path(t, c), Path(t, d))
  {
    match t
    case Leaf(_, _) =>
    case Internal(_, l, r) =>
      var p, q := Path(t, c), Path(t, d);
      if c in Symbols(l) && d in Symbols(l) {
        PathsPrefixFree(l, c, d);
        assert p[1..] == Path(l, c) && q[1..] == Path(l, d);
      } else if c !in Symbols(l) && d !in Symbols(l) {
        PathsPrefixFree(r, c, d);
        assert p[1..] == Path(r, c) && q[1..] == Path(r, d);
      } else {
        assert p[0] != q[0];
      }
  }

  /** Codes contain only '0' and '1', so the error branch of the encoder is dead. */
  lemma CodesBinary(t: Trie)
    requires Distinct(t)
    ensures forall c :: c in Codes(t, []) ==> Binary(Codes(t, [])[c])
  {
    CodesKeys(t, []);
    forall c | c in Codes(t, [])
      ensures Binary(Codes(t, [])[c])
    {
      CodesValue(t, [], c);
      PathBinary(t, c);
      assert [] + Path(t, c) == Path(t, c);
    }
  }

  /** The code table is prefix-free. */
  lemma CodesPrefixFree(t: Trie)
    requires Distinct(t)
    ensures forall c, d ::
      (c in Codes(t, []) && d in Codes(t, []) && c != d ==> !IsPrefix(Codes(t, [])[c], Codes(t, [])[d]))
  {
    CodesKeys(t, []);
    forall c, d | c in Codes(t, []) && d in Codes(t, []) && c != d
      ensures !IsPrefix(Codes(t, [])[c], Codes(t, [])[d])
    {
      CodesValue(t, [], c);
      CodesValue(t, [], d);
      PathsPrefixFree(t, c, d);
      assert [] + Path(t, c) == Path(t, c) && [] + Path(t, d) == Path(t, d);
    }
  }

  /** A trie of one leaf gives its symbol the empty code. */
  lemma SingleLeafCode(c: Byte, f: nat)
    ensures Codes(Leaf(c, f), []) == map[c := []]
    ensures Path(Leaf(c, f), c) == []
  {
  }

  // ---------------------------------------------------------------------
  // Encoding and decoding symbols

  /** The bits the encoder writes for a code: '1' is a one bit. */
  function CodeBits(code: seq<char>): (r: seq<bool>)
    ensures |r| == |code|
  {
    if code == [] then [] else [code[0] == '1'] + CodeBits(code[1..])
  }

  /**
   * The decode walk: from `t`, a one bit goes right and a zero bit left,
   * until a leaf; its symbol and the bits after the walk. None if the bits
   * run out first.
   */
  function DecodeOne(t: Trie, bits: seq<bool>): Option<(Byte, seq<bool>)>
  {
    match t
    case Leaf(c, _) => Some((c, bits))
    case Internal(_, l, r) =>
      if bits == [] then None else DecodeOne(if bits[0] then r else l, bits[1..])
  }

  lemma CodeBitsCons(x: char, p: seq<char>)
    ensures CodeBits([x] + p) == [x == '1'] + CodeBits(p)
  {
    assert ([x] + p)[1..] == p;
  }

  /** Walking the path of a symbol ends at its leaf, consuming exactly the path. */
  lemma {:induction false} WalkPath(t: Trie, c: Byte, rest: seq<bool>)
    requires c in Symbols(t)
    ensures DecodeOne(t, CodeBits(Path(t, c)) + rest) == Some((c, rest))
    decreases t, 1
  {
    if t.Leaf? {
      assert CodeBits([]) + rest == rest;
    } else if c in Symbols(t.left) {
      WalkLeft(t, c, rest);
    } else {
      WalkRight(t, c, rest);
    }
  }

  lemma {:induction false} WalkLeft(t: Trie, c: Byte, rest: seq<bool>)
    requires t.Internal? && c in Symbols(t.left)
    ensures DecodeOne(t, CodeBits(Path(t, c)) + rest) == Some((c, rest))
    decreases t, 0
  {
    var p := Path(t.left, c);
    assert Path(t, c) == ['0'] + p;
    CodeBitsCons('0', p);
    assert CodeBits(Path(t, c)) + rest == [false] + (CodeBits(p) + rest);
    WalkPath(t.left, c, rest);
  }

  lemma {:induction false} WalkRight(t: Trie, c: Byte, rest: seq<bool>)
    requires t.Internal? && c !in Symbols(t.left) && c in Symbols(t)
    ensures DecodeOne(t, CodeBits(Path(t, c)) + rest) == Some((c, rest))
    decreases t, 0
  {
    var p := Path(t.right, c);
    assert Path(t, c) == ['1'] + p;
    CodeBitsCons('1', p);
    assert CodeBits(Path(t, c)) + rest == [true] + (CodeBits(p) + rest);
    WalkPath(t.right, c, rest);
  }

  /** The bits of the codes of a text, symbol after symbol. */
  function EncodeSyms(table: map<Byte, seq<char>>, s: seq<Byte>): seq<bool>
    requires forall i :: 0 <= i < |s| ==> s[i] in table
  {
    if s == [] then [] else CodeBits(table[s[0]]) + EncodeSyms(table, s[1..])
  }

  /** `n` decode walks from the root, one after the other. */
  function DecodeSyms(t: Trie, bits: seq<bool>, n: nat): (r: Option<(seq<Byte>, seq<bool>)>)
    ensures r.Some? ==> |r.value.0| == n
    decreases n
  {
    if n == 0 then Some(([], bits))
    else match DecodeOne(t, bits)
      case None => None
      case Some((c, rest)) =>
        match DecodeSyms(t, rest, n - 1)
        case None => None
        case Some((cs, rest')) => Some(([c] + cs, rest'))
  }

  /** Decoding the codes of a text from the trie gives the text back. */
  lemma {:induction false} DecodeEncode(t: Trie, s: seq<Byte>, rest: seq<bool>)
    requires Distinct(t)
    requires forall i :: 0 <= i < |s| ==> s[i] in Symbols(t)
    ensures forall i :: 0 <= i < |s| ==> s[i] in Codes(t, [])
    ensures DecodeSyms(t, EncodeSyms(Codes(t, []), s) + rest, |s|) == Some((s, rest))
  {
    CodesKeys(t, []);
    if s != [] {
      DecodeEncode(t, s[1..], rest);
      DecodeFirst(t, s, rest);
    } else {
      assert EncodeSyms(Codes(t, []), s) + rest == rest;
    }
  }

  /** One step of `DecodeEncode`: the first walk finds the first byte. */
  lemma DecodeFirst(t: Trie, s: seq<Byte>, rest: seq<bool>)
    requires Distinct(t) && s != []
    requires forall i :: 0 <= i < |s| ==> s[i] in Symbols(t)
    requires forall i :: 0 <= i < |s| ==> s[i] in Codes(t, [])
    requires DecodeSyms(t, EncodeSyms(Codes(t, []), s[1..]) + rest, |s| - 1) == Some((s[1..], rest))
    ensures DecodeSyms(t, EncodeSyms(Codes(t, []), s) + rest, |s|) == Some((s, rest))
  {
    var table := Codes(t, []);
    CodesValue(t, [], s[0]);
    assert table[s[0]] == Path(t, s[0]);
    var tail := EncodeSyms(table, s[1..]) + rest;
    assert EncodeSyms(table, s) + rest == CodeBits(Path(t, s[0])) + tail;
    WalkPath(t, s[0], tail);
    assert DecodeOne(t, EncodeSyms(table, s) + rest) == Some((s[0], tail));
    assert [s[0]] + s[1..] == s;
  }

  // ---------------------------------------------------------------------
  // Serialisation of the trie

  /** The trie with every frequency 0: what reading it back gives. */
  function Shape(t: Trie): Trie
  {
    match t
    case Leaf(c, _) => Leaf(c, 0)
    case Internal(_, l, r) => Internal(0, Shape(l), Shape(r))
  }

  /** `_write_trie`: pre-order, a one bit and 8 symbol bits per leaf, a zero bit per inner node. */
  function TrieBits(t: Trie): seq<bool>
  {
    match t
    case Leaf(c, _) => [true] + BitsOf(c, CharBitLen)
    case Internal(_, l, r) => [false] + TrieBits(l) + TrieBits(r)
  }

  /** The serialisation of a trie with L leaves has 10L - 1 bits. */
  lemma {:induction false} TrieBitsLength(t: Trie)
    ensures |TrieBits(t)| == 10 * |Syms(t)| - 1
  {
    match t
    case Leaf(c, _) =>
      BitsOfLength(c, CharBitLen);
    case Internal(_, l, r) =>
      TrieBitsLength(l);
      TrieBitsLength(r);
  }

  /**
   * `_read_trie` on a bit string: the trie read and the bits after it,
   * none if the bits run out.
   */
  ghost function ParseTrie(bits: seq<bool>): (r: Option<(Trie, seq<bool>)>)
    ensures r.Some? ==> |r.value.1| < |bits|
    decreases |bits|
  {
    if bits == [] then None
    else if bits[0] then
      if |bits| < 1 + CharBitLen then None
      else Pow2Byte(); Some((Leaf(ValueOf(bits[1..1 + CharBitLen]), 0), bits[1 + CharBitLen..]))
    else
      match ParseTrie(bits[1..])
      case None => None
      case Some((l, rest)) =>
        match ParseTrie(rest)
        case None => None
        case Some((r, rest')) => Some((Internal(0, l, r), rest'))
  }

  /** Reading a written trie gives its shape and symbols back. */
  lemma {:induction false} ParseTrieBits(t: Trie, rest: seq<bool>)
    ensures ParseTrie(TrieBits(t) + rest) == Some((Shape(t), rest))
  {
    var bits := TrieBits(t) + rest;
    match t
    case Leaf(c, _) =>
      BitsOfLength(c, CharBitLen);
      assert bits[1..1 + CharBitLen] == BitsOf(c, CharBitLen);
      assert bits[1 + CharBitLen..] == rest;
      ByteRoundTrip(c);
    case Internal(_, l, r) =>
      assert bits[1..] == TrieBits(l) + (TrieBits(r) + rest);
      ParseTrieBits(l, TrieBits(r) + rest);
      ParseTrieBits(r, rest);
  }

  lemma {:induction false} ShapeDecodeOne(t: Trie, bits: seq<bool>)
    ensures DecodeOne(Shape(t), bits) == DecodeOne(t, bits)
  {
    match t
    case Leaf(_, _) =>
    case Internal(_, l, r) =>
      if bits != [] {
        ShapeDecodeOne(if bits[0] then r else l, bits[1..]);
      }
  }

  /** The frequencies read back as 0 do not matter to decoding. */
  lemma {:induction false} ShapeDecodeSyms(t: Trie, bits: seq<bool>, n: nat)
    ensures DecodeSyms(Shape(t), bits, n) == DecodeSyms(t, bits, n)
    decreases n
  {
    if n > 0 {
      ShapeDecodeOne(t, bits);
      var d := DecodeOne(t, bits);
      if d.Some? {
        ShapeDecodeSyms(t, d.value.1, n - 1);
      }
    }
  }

  // ---------------------------------------------------------------------
  // Compressed files

  /** The text length field: the low 32 bits of `n`, most significant first. */
  function LengthBits(n: nat): seq<bool>
  {
    BitsOf(n, NumBitLen)
  }

  /**
   * The compressed form of `s` for the trie `t`: the trie, the length in
   * 32 bits, the codes of the bytes, then zero padding to whole bytes.
   */
  ghost function CompressSpec(s: seq<Byte>, t: Trie): seq<Byte>
    requires IsTrieFor(t, FreqOf(s))
  {
    TextInTrie(s, t);
    PackBits(TrieBits(t) + LengthBits(|s|) + EncodeSyms(Codes(t, []), s))
  }

  /**
   * What expanding a well-formed compressed file writes: the bytes of the
   * decode walks, flushed. None when the bits run out.
   */
  ghost function ExpandSpec(c: seq<Byte>): Option<seq<Byte>>
  {
    match ParseTrie(BytesToBits(c))
    case None => None
    case Some((t, r1)) =>
      if |r1| < NumBitLen then None
      else
        match DecodeSyms(t, r1[NumBitLen..], ValueOf(r1[..NumBitLen]))
        case None => None
        case Some((out, _)) => Some(PackBits(BytesToBits(out)))
  }

  /** Every byte of a text is a leaf of a trie built for its table. */
  lemma TextInTrie(s: seq<Byte>, t: Trie)
    requires IsTrieFor(t, FreqOf(s))
    ensures forall i :: 0 <= i < |s| ==> s[i] in Symbols(t) && s[i] in Codes(t, [])
  {
    CodesKeys(t, []);
    assert forall i :: 0 <= i < |s| ==> s[i] in FreqOf(s);
  }

  /**
   * After a written trie, a 32-bit length `n` and then `tail`: the trie's
   * shape, and the bits after it hold `n` and then `tail`.
   */
  lemma ParseHeader(t: Trie, n: nat, tail: seq<bool>)
    requires n < Pow2(NumBitLen)
    ensures ParseTrie(TrieBits(t) + (LengthBits(n) + tail)) == Some((Shape(t), LengthBits(n) + tail))
    ensures var r1 := LengthBits(n) + tail;
      |r1| >= NumBitLen && ValueOf(r1[..NumBitLen]) == n && r1[NumBitLen..] == tail
  {
    ParseTrieBits(t, LengthBits(n) + tail);
    PrefixValue(n, NumBitLen, tail);
  }

  /** Expanding a file whose bits hold a trie, a length `n` and `n` codes. */
  lemma ExpandOf(c: seq<Byte>, t: Trie, n: nat, enc: seq<bool>, pad: seq<bool>, s: seq<Byte>)
    requires n < Pow2(NumBitLen)
    requires BytesToBits(c) == TrieBits(t) + LengthBits(n) + enc + pad
    requires DecodeSyms(Shape(t), enc + pad, n) == Some((s, pad))
    ensures ExpandSpec(c) == Some(PackBits(BytesToBits(s)))
  {
    Regroup(TrieBits(t), LengthBits(n), enc, pad);
    ParseHeader(t, n, enc + pad);
  }

  lemma Regroup(a: seq<bool>, b: seq<bool>, c: seq<bool>, d: seq<bool>)
    ensures a + b + c + d == a + (b + (c + d))
  {
  }

  /**
   * Packing a trie, a length `|s|` and bits that decode to `s` whatever
   * follows them, then expanding, gives `s`.
   */
  lemma ExpandPacked(t: Trie, enc: seq<bool>, s: seq<Byte>)
    requires 0 < |s| < Pow2(NumBitLen)
    requires forall rest :: DecodeSyms(Shape(t), enc + rest, |s|) == Some((s, rest))
    ensures ExpandSpec(PackBits(TrieBits(t) + LengthBits(|s|) + enc)) == Some(s)
  {
    var bits := TrieBits(t) + LengthBits(|s|) + enc;
    UnpackPack(bits);
    var pad := Zeros(8 * |PackBits(bits)| - |bits|);
    assert DecodeSyms(Shape(t), enc + pad, |s|) == Some((s, pad));
    ExpandOf(PackBits(bits), t, |s|, enc, pad, s);
    PackBytes(s);
  }

  /** Expanding a compressed non-empty text shorter than 2^32 bytes restores it. */
  lemma RoundTrip(s: seq<Byte>, t: Trie)
    requires 0 < |s| < Pow2(NumBitLen)
    requires IsTrieFor(t, FreqOf(s))
    ensures ExpandSpec(CompressSpec(s, t)) == Some(s)
  {
    TextInTrie(s, t);
    var enc := EncodeSyms(Codes(t, []), s);
    forall rest
      ensures DecodeSyms(Shape(t), enc + rest, |s|) == Some((s, rest))
    {
      DecodeEncode(t, s, rest);
      ShapeDecodeSyms(t, enc + rest, |s|);
    }
    ExpandPacked(t, enc, s);
  }

  /** A text of one distinct byte is coded with no bits at all. */
  lemma {:induction false} SingleSymbol(s: seq<Byte>, t: Trie)
    requires t.Leaf? && forall i :: 0 <= i < |s| ==> s[i] in Symbols(t)
    ensures forall i :: 0 <= i < |s| ==> s[i] in Codes(t, [])
    ensures EncodeSyms(Codes(t, []), s) == []
  {
    if s != [] {
      SingleSymbol(s[1..], t);
    }
  }
}
