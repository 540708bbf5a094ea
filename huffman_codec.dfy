/**
 * The Huffman codec of Huffman.py as it runs: building the trie with a
 * heap of nodes, filling the code table, writing and reading the trie
 * through the bit writer and reader, and the compress and expand loops.
 * Each method is proved against the value-level definitions of module
 * Huffman.
 */
module HuffmanCodec {
  import opened Common
  import opened Bits
  import opened BitIO
  import opened Huffman

  // ---------------------------------------------------------------------
  // Building the trie

  /** The symbols at the leaves of all trees of a heap. */
  ghost function ForestSyms(heap: seq<Trie>): multiset<Byte>
  {
    if heap == [] then multiset{} else Syms(heap[0]) + ForestSyms(heap[1..])
  }

  /** Every tree of the heap adds up its frequencies and agrees with `freq` at its leaves. */
  ghost predicate Forest(heap: seq<Trie>, freq: map<Byte, nat>)
  {
    forall t :: t in heap ==> Weighted(t) && LeavesMatch(t, freq)
  }

  lemma {:induction false} ForestAppend(a: seq<Trie>, b: seq<Trie>)
    ensures ForestSyms(a + b) == ForestSyms(a) + ForestSyms(b)
  {
    if a == [] {
      assert a + b == b;
    } else {
      assert (a + b)[1..] == a[1..] + b;
      ForestAppend(a[1..], b);
    }
  }

  lemma ForestOne(t: Trie)
    ensures ForestSyms([t]) == Syms(t)
  {
    assert [t][1..] == [];
  }

  /** The position of a tree of least frequency. */
  method MinIndex(heap: seq<Trie>) returns (k: nat)
    requires heap != []
    ensures k < |heap|
    ensures forall i :: 0 <= i < |heap| ==> heap[k].freq <= heap[i].freq
  {
    k := 0;
    var j := 1;
    while j < |heap|
      invariant 1 <= j <= |heap| && k < j
      invariant forall i :: 0 <= i < j ==> heap[k].freq <= heap[i].freq
    {
      if heap[j].freq < heap[k].freq {
        k := j;
      }
      j := j + 1;
    }
  }

  /**
   * `heappop`: removes one tree of least frequency. Which of several such
   * trees is removed is left open.
   */
  method PopMin(heap: seq<Trie>) returns (m: Trie, rest: seq<Trie>)
    requires heap != []
    ensures m in heap
    ensures forall t :: t in heap ==> m.freq <= t.freq
    ensures multiset(rest) + multiset{m} == multiset(heap)
    ensures |rest| == |heap| - 1 && forall t :: t in rest ==> t in heap
    ensures ForestSyms(rest) + Syms(m) == ForestSyms(heap)
  {
    var k := MinIndex(heap);
    m := heap[k];
    rest := heap[..k] + heap[k + 1..];
    assert heap == heap[..k] + [m] + heap[k + 1..];
    ForestAppend(heap[..k] + [m], heap[k + 1..]);
    ForestAppend(heap[..k], [m]);
    ForestAppend(heap[..k], heap[k + 1..]);
    ForestOne(m);
  }

  /** The heap of the first loop of `_build_trie`: one leaf per table entry, holding its frequency. */
  ghost predicate LeafHeapOf(heap: seq<Trie>, freq: map<Byte, nat>)
  {
    && (forall t :: t in heap ==> t.Leaf? && t.ch in freq && t.freq == freq[t.ch])
    && ForestSyms(heap) == multiset(freq.Keys)
  }

  /**
   * One round of the second loop of `_build_trie`: `heap'` is what is left
   * of `heap` after popping a tree `l` of least frequency and then a tree
   * `r` of least frequency among the rest, plus their parent.
   */
  ghost predicate MergeStep(heap: seq<Trie>, heap': seq<Trie>)
  {
    exists l: Trie, r: Trie, rest: seq<Trie> ::
      && heap' == rest + [Internal(l.freq + r.freq, l, r)]
      && multiset(rest) + multiset{l, r} == multiset(heap)
      && (forall t :: t in heap ==> l.freq <= t.freq)
      && (forall t :: t in rest ==> r.freq <= t.freq)
  }

  /** The heaps `_build_trie` goes through: its leaf heap, then one merge round after another. */
  ghost predicate HuffmanTrace(trace: seq<seq<Trie>>, freq: map<Byte, nat>)
  {
    && |trace| >= 1
    && LeafHeapOf(trace[0], freq)
    && forall i :: 0 <= i < |trace| - 1 ==> MergeStep(trace[i], trace[i + 1])
  }

  /** `t` is a trie the greedy merging of `_build_trie` can end with, for some order of ties. */
  ghost predicate HuffmanBuilt(t: Trie, freq: map<Byte, nat>)
  {
    exists trace :: HuffmanTrace(trace, freq) && trace[|trace| - 1] == [t]
  }

  lemma TraceSnoc(trace: seq<seq<Trie>>, heap': seq<Trie>, freq: map<Byte, nat>)
    requires HuffmanTrace(trace, freq)
    requires MergeStep(trace[|trace| - 1], heap')
    ensures HuffmanTrace(trace + [heap'], freq)
  {
    var trace' := trace + [heap'];
    forall i | 0 <= i < |trace'| - 1
      ensures MergeStep(trace'[i], trace'[i + 1])
    {
      if i < |trace| - 1 {
        assert trace'[i] == trace[i] && trace'[i + 1] == trace[i + 1];
      }
    }
  }

  /**
   * `_build_trie`: a leaf per table entry, then the two trees of least
   * frequency are merged until one is left. An empty table fails, since
   * the last `heappop` finds no tree.
   */
  method BuildTrie(freq: map<Byte, nat>) returns (r: Result<Trie>)
    ensures r.Err? <==> freq == map[]
    ensures r.Ok? ==> IsTrieFor(r.value, freq) && HuffmanBuilt(r.value, freq)
  {
    var heap := LeafHeap(freq);
    ghost var trace := [heap];
    while |heap| > 1
      invariant Forest(heap, freq)
      invariant ForestSyms(heap) == multiset(freq.Keys)
      invariant HuffmanTrace(trace, freq) && trace[|trace| - 1] == heap
      decreases |heap|
    {
      var heap' := MergeMin(heap, freq);
      TraceSnoc(trace, heap', freq);
      trace := trace + [heap'];
      heap := heap';
    }
    if heap == [] {
      assert multiset(freq.Keys) == multiset{};
      assert |freq.Keys| == |multiset(freq.Keys)| == 0;
      r := Err("index out of range");
    } else {
      r := LastTree(heap, freq);
      assert heap == [r.value];
      assert HuffmanTrace(trace, freq) && trace[|trace| - 1] == [r.value];
    }
  }

  /** The first loop of `_build_trie`: a leaf for each entry of the table. */
  method LeafHeap(freq: map<Byte, nat>) returns (heap: seq<Trie>)
    ensures Forest(heap, freq)
    ensures LeafHeapOf(heap, freq)
  {
    heap := [];
    var keys := freq.Keys;
    while keys != {}
      invariant keys <= freq.Keys
      invariant Forest(heap, freq)
      invariant forall t :: t in heap ==> t.Leaf? && t.ch in freq && t.freq == freq[t.ch]
      invariant ForestSyms(heap) + multiset(keys) == multiset(freq.Keys)
      decreases |keys|
    {
      var ch :| ch in keys;
      ForestAppend(heap, [Leaf(ch, freq[ch])]);
      ForestOne(Leaf(ch, freq[ch]));
      heap := heap + [Leaf(ch, freq[ch])];
      assert multiset(keys) == multiset(keys - {ch}) + multiset{ch};
      keys := keys - {ch};
    }
  }

  /** One round of the second loop: two pops and a push of their parent. */
  method MergeMin(heap: seq<Trie>, ghost freq: map<Byte, nat>) returns (heap': seq<Trie>)
    requires |heap| > 1 && Forest(heap, freq)
    ensures Forest(heap', freq)
    ensures ForestSyms(heap') == ForestSyms(heap)
    ensures |heap'| == |heap| - 1
    ensures MergeStep(heap, heap')
  {
    var left, rest := PopMin(heap);
    var right, rest' := PopMin(rest);
    var parent := Internal(left.freq + right.freq, left, right);
    ForestAppend(rest', [parent]);
    ForestOne(parent);
    ForestSnoc(rest', parent, freq);
    heap' := rest' + [parent];
    MergeStepOf(heap, left, rest, right, rest');
  }

  /** Two pops and the push of their parent make one merge round. */
  lemma MergeStepOf(heap: seq<Trie>, l: Trie, rest: seq<Trie>, r: Trie, rest': seq<Trie>)
    requires multiset(rest) + multiset{l} == multiset(heap)
    requires multiset(rest') + multiset{r} == multiset(rest)
    requires forall t :: t in heap ==> l.freq <= t.freq
    requires forall t :: t in rest ==> r.freq <= t.freq
    requires forall t :: t in rest' ==> t in rest
    ensures MergeStep(heap, rest' + [Internal(l.freq + r.freq, l, r)])
  {
    assert multiset(rest') + multiset{l, r} == multiset(heap);
  }

  lemma ForestSnoc(heap: seq<Trie>, t: Trie, freq: map<Byte, nat>)
    requires Forest(heap, freq) && Weighted(t) && LeavesMatch(t, freq)
    ensures Forest(heap + [t], freq)
  {
  }

  /** The final `heappop` of a heap holding one tree. */
  method LastTree(heap: seq<Trie>, ghost freq: map<Byte, nat>) returns (r: Result<Trie>)
    requires heap != [] && Forest(heap, freq)
    requires |heap| <= 1 && ForestSyms(heap) == multiset(freq.Keys)
    ensures r.Ok? && r.value == heap[0] && freq != map[] && IsTrieFor(r.value, freq)
  {
    var root := heap[0];
    assert heap == [root];
    ForestOne(root);
    FromKeys(root, freq);
    SymsNonEmpty(root);
    assert freq.Keys != {};
    r := Ok(root);
  }

  /** A tree whose leaves are exactly the keys of `freq` is a trie for it. */
  lemma FromKeys(t: Trie, freq: map<Byte, nat>)
    requires Weighted(t) && LeavesMatch(t, freq)
    requires Syms(t) == multiset(freq.Keys)
    ensures IsTrieFor(t, freq)
  {
    CountDistinct(t);
    SymsSymbols(t);
  }

  // ---------------------------------------------------------------------
  // The code table

  /**
   * `_build_code`: adds the code of every leaf under `node`, the path to
   * it prefixed by `s`, to the table.
   */
  method BuildCode(table: map<Byte, seq<char>>, node: Trie, s: seq<char>) returns (table': map<Byte, seq<char>>)
    ensures table' == table + Codes(node, s)
    decreases node
  {
    if node.Leaf? {
      table' := table[node.ch := s];
    } else {
      table' := BuildCode(table, node.left, s + ['0']);
      table' := BuildCode(table', node.right, s + ['1']);
    }
  }

  // ---------------------------------------------------------------------
  // Compressing

  /** `_write_trie`: the pre-order serialisation of the trie goes to the writer. */
  method WriteTrie(node: Trie, writer: BitWriter)
    requires writer.Valid()
    modifies writer
    ensures writer.Valid()
    ensures writer.Written() == old(writer.Written()) + TrieBits(node)
    ensures writer.bcount >= 1
    decreases node
  {
    if node.Leaf? {
      WriteLeaf(node.ch, writer);
    } else {
      ghost var w := writer.Written();
      writer.WriteBit(false);
      WriteTrie(node.left, writer);
      WriteTrie(node.right, writer);
      Assoc4(w, [false], TrieBits(node.left), TrieBits(node.right));
    }
  }

  /** A leaf: a one bit, then the 8 bits of the symbol. */
  method WriteLeaf(c: Byte, writer: BitWriter)
    requires writer.Valid()
    modifies writer
    ensures writer.Valid()
    ensures writer.Written() == old(writer.Written()) + [true] + BitsOf(c, CharBitLen)
    ensures writer.bcount >= 1
  {
    writer.WriteBit(true);
    writer.WriteBits(c, CharBitLen);
  }

  lemma Assoc3<T>(a: seq<T>, b: seq<T>, c: seq<T>)
    ensures a + b + c == a + (b + c)
  {
  }

  lemma Assoc4<T>(a: seq<T>, b: seq<T>, c: seq<T>, d: seq<T>)
    ensures a + b + c + d == a + (b + c + d)
  {
  }

  /** The table after one more byte of the text. */
  lemma FreqSnoc(input: seq<Byte>, i: nat)
    requires i < |input|
    ensures FreqOf(input[..i + 1]) == Bump(FreqOf(input[..i]), input[i])
  {
    var a := input[..i];
    var c := input[i];
    assert input[..i + 1] == a + [c];
    assert multiset(a + [c]) == multiset(a) + multiset{c};
  }

  /**
   * The first read pass of `compress`: the count of every byte of the
   * input and the number of bytes.
   */
  method CountFreq(input: seq<Byte>) returns (freq: map<Byte, nat>, textLen: nat)
    ensures freq == FreqOf(input) && textLen == |input|
  {
    var reader := new BitReader(input);
    freq := map[];
    textLen := 0;
    assert input[..0] == [];
    while true
      invariant reader.At(input, textLen)
      invariant freq == FreqOf(input[..textLen])
      decreases |input| - textLen
    {
      var ch := ReadByteAt(reader, input, textLen);
      if reader.read == 0 {
        break;
      }
      FreqSnoc(input, textLen);
      freq := Bump(freq, ch);
      textLen := textLen + 1;
    }
    assert input[..textLen] == input;
  }

  /** `freq[ch] = freq.get(ch, 0) + 1`. */
  function Bump(freq: map<Byte, nat>, ch: Byte): (r: map<Byte, nat>)
    ensures r.Keys == freq.Keys + {ch}
    ensures r[ch] == (if ch in freq then freq[ch] else 0) + 1
    ensures forall c :: c in freq && c != ch ==> r[c] == freq[c]
  {
    freq[ch := (if ch in freq then freq[ch] else 0) + 1]
  }

  lemma {:induction false} CodeBitsAppend(a: seq<char>, b: seq<char>)
    ensures CodeBits(a + b) == CodeBits(a) + CodeBits(b)
  {
    if a == [] {
      assert a + b == b;
    } else {
      assert (a + b)[1..] == a[1..] + b;
      CodeBitsAppend(a[1..], b);
    }
  }

  lemma CodeBitsSnoc(code: seq<char>, j: nat)
    requires j < |code|
    ensures CodeBits(code[..j + 1]) == CodeBits(code[..j]) + [code[j] == '1']
  {
    assert code[..j + 1] == code[..j] + [code[j]];
    CodeBitsAppend(code[..j], [code[j]]);
    assert [code[j]][1..] == [];
  }

  /**
   * The inner loop of the second pass: a zero bit for '0', a one bit for
   * '1', and the error 'Illegal state' for any other character.
   */
  method WriteCode(writer: BitWriter, code: seq<char>) returns (r: Result<()>)
    requires writer.Valid()
    modifies writer
    ensures writer.Valid()
    ensures r.Ok? <==> Binary(code)
    ensures r.Ok? ==> writer.Written() == old(writer.Written()) + CodeBits(code)
    ensures r.Ok? && old(writer.bcount) >= 1 ==> writer.bcount >= 1
  {
    ghost var w0 := writer.Written();
    var j := 0;
    while j < |code|
      invariant 0 <= j <= |code| && writer.Valid()
      invariant Binary(code[..j])
      invariant writer.Written() == w0 + CodeBits(code[..j])
      invariant old(writer.bcount) >= 1 || j > 0 ==> writer.bcount >= 1
    {
      var ok := WriteCodeChar(writer, code[j]);
      if !ok {
        assert !Binary(code) by {
          assert !(code[j] == '0' || code[j] == '1');
        }
        return Err("Illegal state");
      }
      WrittenSnoc(w0, code, j);
      BinarySnoc(code, j);
      j := j + 1;
    }
    assert code[..j] == code;
    r := Ok(());
  }

  lemma WrittenSnoc(w0: seq<bool>, code: seq<char>, j: nat)
    requires j < |code|
    ensures w0 + CodeBits(code[..j]) + [code[j] == '1'] == w0 + CodeBits(code[..j + 1])
  {
    CodeBitsSnoc(code, j);
  }

  lemma BinarySnoc(code: seq<char>, j: nat)
    requires j < |code| && Binary(code[..j]) && (code[j] == '0' || code[j] == '1')
    ensures Binary(code[..j + 1])
  {
    assert code[..j + 1] == code[..j] + [code[j]];
  }

  /** One character of a code: a zero bit for '0', a one bit for '1', else nothing. */
  method WriteCodeChar(writer: BitWriter, x: char) returns (ok: bool)
    requires writer.Valid()
    modifies writer
    ensures writer.Valid()
    ensures ok <==> x == '0' || x == '1'
    ensures ok ==> writer.Written() == old(writer.Written()) + [x == '1'] && writer.bcount >= 1
    ensures !ok ==> writer.Written() == old(writer.Written())
  {
    if x == '0' {
      writer.WriteBit(false);
    } else if x == '1' {
      writer.WriteBit(true);
    } else {
      return false;
    }
    ok := true;
  }

  lemma {:induction false} EncodeSymsSnoc(table: map<Byte, seq<char>>, s: seq<Byte>, i: nat)
    requires i < |s| && forall k :: 0 <= k <= i ==> s[k] in table
    ensures EncodeSyms(table, s[..i + 1]) == EncodeSyms(table, s[..i]) + CodeBits(table[s[i]])
  {
    if i > 0 {
      assert s[..i + 1][1..] == s[1..][..i];
      assert s[..i][1..] == s[1..][..i - 1];
      EncodeSymsSnoc(table, s[1..], i - 1);
    } else {
      assert s[..1][1..] == [];
    }
  }

  /** The text's bytes in the table, each mapped to a code of only '0' and '1'. */
  ghost predicate Encodable(input: seq<Byte>, table: map<Byte, seq<char>>)
  {
    (forall i :: 0 <= i < |input| ==> input[i] in table) &&
    (forall c :: c in table ==> Binary(table[c]))
  }

  /**
   * The second read pass of `compress`: the code of every byte goes to the
   * writer. A byte missing from the table fails as the dictionary lookup
   * does.
   */
  method EncodeText(input: seq<Byte>, table: map<Byte, seq<char>>, writer: BitWriter) returns (r: Result<()>)
    requires writer.Valid()
    modifies writer
    ensures writer.Valid()
    ensures Encodable(input, table) ==> r.Ok? && writer.Written() == old(writer.Written()) + EncodeSyms(table, input)
    ensures r.Ok? && old(writer.bcount) >= 1 ==> writer.bcount >= 1
  {
    var reader := new BitReader(input);
    ghost var i := 0;
    assert input[..0] == [];
    while true
      invariant reader.At(input, i) && writer.Valid()
      invariant Encodable(input, table) ==> writer.Written() == old(writer.Written()) + EncodeSyms(table, input[..i])
      invariant old(writer.bcount) >= 1 ==> writer.bcount >= 1
      decreases |input| - i
    {
      var ch := ReadByteAt(reader, input, i);
      if reader.read == 0 {
        break;
      }
      r := EncodeByte(ch, table, writer, input, i, old(writer.Written()));
      if r.Err? {
        return;
      }
      i := i + 1;
    }
    assert input[..i] == input;
    r := Ok(());
  }

  /** One byte of the second pass: its code, looked up and written. */
  method EncodeByte(ch: Byte, table: map<Byte, seq<char>>, writer: BitWriter,
                    ghost input: seq<Byte>, ghost i: nat, ghost w0: seq<bool>) returns (r: Result<()>)
    requires writer.Valid() && i < |input| && input[i] == ch
    requires Encodable(input, table) ==> writer.Written() == w0 + EncodeSyms(table, input[..i])
    modifies writer
    ensures writer.Valid()
    ensures Encodable(input, table) ==> r.Ok? && writer.Written() == w0 + EncodeSyms(table, input[..i + 1])
    ensures r.Ok? && old(writer.bcount) >= 1 ==> writer.bcount >= 1
  {
    if ch !in table {
      return Err("KeyError");
    }
    r := WriteCode(writer, table[ch]);
    if r.Ok? && Encodable(input, table) {
      EncodeSymsSnoc(table, input, i);
      Assoc3(w0, EncodeSyms(table, input[..i]), CodeBits(table[ch]));
    }
  }

  /**
   * `compress` on an in-memory text: the trie built from the byte counts,
   * the text length in 32 bits, the code of every byte, then the final
   * flush. An empty text fails in `_build_trie`. `root` is the trie the
   * heap produced.
   */
  method Compress(input: seq<Byte>) returns (res: Result<seq<Byte>>, ghost root: Trie)
    ensures res.Err? <==> input == []
    ensures res.Ok? ==> IsTrieFor(root, FreqOf(input)) && res.value == CompressSpec(input, root)
    ensures res.Ok? ==> HuffmanBuilt(root, FreqOf(input))
  {
    var freq, textLen := CountFreq(input);
    var writer := new BitWriter();
    var built := BuildTrie(freq);
    if built.Err? {
      EmptyFreq(input);
      res, root := Err(built.msg), Leaf(0, 0);
      return;
    }
    var trie := built.value;
    root := trie;
    var table := BuildCode(map[], trie, []);
    assert table == Codes(root, []);
    WriteTrie(trie, writer);
    assert writer.Written() == TrieBits(root);
    TextInTrie(input, root);
    CodesBinary(root);
    HeaderThenText(input, table, textLen, writer);
    ghost var bits := TrieBits(root) + LengthBits(|input|) + EncodeSyms(Codes(root, []), input);
    assert writer.Written() == bits;
    writer.Flush();
    assert CompressSpec(input, root) == PackBits(bits);
    res := Ok(writer.out);
  }

  /**
   * The part of `compress` after the trie: the length in 32 bits, then the
   * codes. Every byte has a binary code here, so 'Illegal state' and the
   * failed lookup cannot happen.
   */
  method HeaderThenText(input: seq<Byte>, table: map<Byte, seq<char>>, textLen: nat, writer: BitWriter)
    requires writer.Valid() && writer.bcount >= 1
    requires Encodable(input, table) && textLen == |input|
    modifies writer
    ensures writer.Valid() && writer.bcount >= 1
    ensures writer.Written() == old(writer.Written()) + LengthBits(textLen) + EncodeSyms(table, input)
  {
    writer.WriteBits(textLen, NumBitLen);
    var ok := EncodeText(input, table, writer);
    if ok.Err? {
      assert false;
    }
  }

  /** Only the empty text has the empty table. */
  lemma EmptyFreq(input: seq<Byte>)
    ensures FreqOf(input) == map[] <==> input == []
  {
    if input != [] {
      assert input[0] in FreqOf(input);
    }
  }

  // ---------------------------------------------------------------------
  // Expanding

  /**
   * `_read_trie`: a one bit is a leaf whose symbol follows in 8 bits, a
   * zero bit an inner node whose children follow. Read-back frequencies
   * are 0. Unlike the source, which goes on reading stale bits, the model
   * gives up with None once the reader reports the end of its input.
   */
  method ReadTrie(reader: BitReader) returns (t: Option<Trie>)
    requires reader.Valid() && reader.Live()
    modifies reader
    ensures reader.Valid()
    ensures t.Some? ==> reader.Live() && |reader.Avail()| < |old(reader.Avail())|
    ensures var p := ParseTrie(old(reader.Avail()));
      p.Some? ==> t == Some(p.value.0) && reader.Avail() == p.value.1
    decreases |reader.Avail()|
  {
    ghost var a := reader.Avail();
    var isLeaf := reader.ReadBit();
    if reader.read == 0 {
      return None;
    }
    if isLeaf == 1 {
      var ch := reader.ReadBits(CharBitLen);
      if reader.read == 0 {
        return None;
      }
      Pow2Byte();
      assert a[1..][..CharBitLen] == a[1..1 + CharBitLen];
      assert a[1..][CharBitLen..] == a[1 + CharBitLen..];
      return Some(Leaf(ch, 0));
    }
    var left := ReadTrie(reader);
    if left.None? {
      return None;
    }
    var right := ReadTrie(reader);
    if right.None? {
      return None;
    }
    t := Some(Internal(0, left.value, right.value));
  }

  /**
   * One decode walk of `expand`: from the root, a one bit goes right and a
   * zero bit left, until a leaf.
   */
  method Walk(reader: BitReader, root: Trie) returns (ch: Byte)
    requires reader.Valid()
    modifies reader
    ensures reader.Valid()
    ensures var d := DecodeOne(root, old(reader.Avail()));
      old(reader.Live()) && d.Some? ==> reader.Live() && ch == d.value.0 && reader.Avail() == d.value.1
  {
    ghost var good := reader.Live() && DecodeOne(root, reader.Avail()).Some?;
    ghost var d := DecodeOne(root, reader.Avail());
    var x := root;
    while x.Internal?
      invariant reader.Valid()
      invariant good ==> reader.Live() && DecodeOne(x, reader.Avail()) == d
      decreases x
    {
      var bit := reader.ReadBit();
      if bit == 1 {
        x := x.right;
      } else {
        x := x.left;
      }
    }
    ch := x.ch;
  }

  /**
   * The loop of `expand`: `n` decode walks, each symbol written in 8 bits.
   */
  method DecodeText(reader: BitReader, writer: BitWriter, root: Trie, n: nat)
    requires reader.Valid() && writer.Valid()
    requires writer.Written() == [] || writer.bcount >= 1
    modifies reader, writer
    ensures reader.Valid() && writer.Valid()
    ensures writer.Written() == [] || writer.bcount >= 1
    ensures var d := DecodeSyms(root, old(reader.Avail()), n);
      old(reader.Live()) && d.Some? ==> writer.Written() == old(writer.Written()) + BytesToBits(d.value.0)
  {
    ghost var d := DecodeSyms(root, reader.Avail(), n);
    ghost var good := reader.Live() && d.Some?;
    ghost var text := if d.Some? then d.value.0 else [];
    ghost var rest := if d.Some? then d.value.1 else [];
    ghost var w0 := writer.Written();
    assert text[..0] == [] && text[0..] == text;
    for i := 0 to n
      invariant reader.Valid() && writer.Valid()
      invariant writer.Written() == [] || writer.bcount >= 1
      invariant good ==> |text| == n && Decoding(reader, writer, root, text, i, rest, w0)
    {
      DecodeByte(reader, writer, root, good, text, i, rest, w0);
    }
    assert good ==> text[..n] == text;
  }

  /**
   * Reading and writing agree with the decode walks: `i` symbols of `text`
   * are written after `w0`, and the reader holds the walks of the others,
   * then `rest`.
   */
  ghost predicate Decoding(reader: BitReader, writer: BitWriter, root: Trie,
                           text: seq<Byte>, i: nat, rest: seq<bool>, w0: seq<bool>)
    reads reader, writer
  {
    && i <= |text| && reader.Valid() && reader.Live() && writer.Valid()
    && DecodeSyms(root, reader.Avail(), |text| - i) == Some((text[i..], rest))
    && writer.Written() == w0 + BytesToBits(text[..i])
  }

  /** One round of the loop of `expand`. */
  method DecodeByte(reader: BitReader, writer: BitWriter, root: Trie,
                    ghost good: bool, ghost text: seq<Byte>, ghost i: nat, ghost rest: seq<bool>, ghost w0: seq<bool>)
    requires reader.Valid() && writer.Valid()
    requires good ==> i < |text| && Decoding(reader, writer, root, text, i, rest, w0)
    modifies reader, writer
    ensures reader.Valid() && writer.Valid() && writer.bcount >= 1
    ensures good ==> Decoding(reader, writer, root, text, i + 1, rest, w0)
  {
    if good {
      DecodeSymsStep(root, reader.Avail(), text, i, rest);
    }
    var ch := Walk(reader, root);
    WriteSym(writer, ch, good, text, i, w0);
  }

  /** The write of one decoded symbol in 8 bits. */
  method WriteSym(writer: BitWriter, ch: Byte, ghost good: bool, ghost text: seq<Byte>, ghost i: nat, ghost w0: seq<bool>)
    requires writer.Valid()
    requires good ==> i < |text| && ch == text[i] && writer.Written() == w0 + BytesToBits(text[..i])
    modifies writer
    ensures writer.Valid() && writer.bcount >= 1
    ensures good ==> writer.Written() == w0 + BytesToBits(text[..i + 1])
  {
    writer.WriteBits(ch, CharBitLen);
    if good {
      BytesToBitsSnoc(text[..i], text[i]);
      assert text[..i + 1] == text[..i] + [text[i]];
      Assoc3(w0, BytesToBits(text[..i]), BitsOf(ch, CharBitLen));
    }
  }

  /** The first decode walk of the remaining `|text| - i` and the ones after it. */
  lemma DecodeSymsStep(t: Trie, bits: seq<bool>, text: seq<Byte>, i: nat, rest: seq<bool>)
    requires i < |text| && DecodeSyms(t, bits, |text| - i) == Some((text[i..], rest))
    ensures DecodeOne(t, bits).Some? && DecodeOne(t, bits).value.0 == text[i]
    ensures DecodeSyms(t, DecodeOne(t, bits).value.1, |text| - i - 1) == Some((text[i + 1..], rest))
  {
    assert text[i..][1..] == text[i + 1..];
  }

  /**
   * `expand` on an in-memory compressed file: the trie, the 32-bit text
   * length, then that many decode walks, and the final flush. For a
   * well-formed file that is what the file describes; malformed files are
   * not specified.
   */
  method Expand(input: seq<Byte>) returns (res: Option<seq<Byte>>)
    ensures ExpandSpec(input).Some? ==> res == ExpandSpec(input)
  {
    var reader := new BitReader(input);
    var writer := new BitWriter();
    var root := ReadTrie(reader);
    if root.None? {
      return None;
    }
    ghost var r1 := reader.Avail();
    var textLen := reader.ReadBits(NumBitLen);
    DecodeText(reader, writer, root.value, textLen);
    ghost var written := writer.Written();
    writer.Flush();
    res := Some(writer.out);
    if ExpandSpec(input).Some? {
      ghost var t, r1', text := ExpandSpecSome(input);
      assert written == BytesToBits(text);
    }
  }

  /** The parts a well-formed compressed file consists of. */
  lemma ExpandSpecSome(c: seq<Byte>) returns (t: Trie, r1: seq<bool>, text: seq<Byte>)
    requires ExpandSpec(c).Some?
    ensures ParseTrie(BytesToBits(c)) == Some((t, r1)) && |r1| >= NumBitLen
    ensures DecodeSyms(t, r1[NumBitLen..], ValueOf(r1[..NumBitLen])).Some?
    ensures text == DecodeSyms(t, r1[NumBitLen..], ValueOf(r1[..NumBitLen])).value.0
    ensures ExpandSpec(c) == Some(PackBits(BytesToBits(text)))
  {
    var p := ParseTrie(BytesToBits(c));
    t, r1 := p.value.0, p.value.1;
    text := DecodeSyms(t, r1[NumBitLen..], ValueOf(r1[..NumBitLen])).value.0;
  }

  /** Compressing a non-empty text shorter than 2^32 bytes and expanding the result restores it. */
  method CompressThenExpand(s: seq<Byte>) returns (r: Option<seq<Byte>>)
    requires 0 < |s| < Pow2(NumBitLen)
    ensures r == Some(s)
  {
    var c, root := Compress(s);
    RoundTrip(s, root);
    r := Expand(c.value);
  }
}
