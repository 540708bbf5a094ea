# Bit-stream codecs: bit I/O, ternary search trie, Huffman and run-length coding

This project is a Dafny model of the sequential core of a small Python
compression library. It proves properties of that model.

- **Bit I/O** (`bitio.py`), module `BitIO` in `bitio.dfy`.
  - `BitWriter` packs bits MSB-first into an 8-bit accumulator and appends full bytes to a sink.
  - `BitReader` unpacks a byte source MSB-first and reports the end of input only through its `read` field.
  - Both are classes whose methods update `accumulator`, `bcount`, `read`, the sink `out` and the source position.
  - The writer's meaning is `Written()`: the bits of the emitted bytes followed by the pending bits.
  - The reader's meaning is `Avail()`: the bits it has not yet delivered.
  - The pure bit-string vocabulary lives in module `Bits` (`bits.dfy`): `BitsOf`, `ValueOf`, `BytesToBits`, and `PackBits` (the bytes a single final flush leaves).
- **Ternary search trie** (`LZW.py`, class `TST`), module `Tst` in `tst.dfy`.
  - Nodes are a datatype, and `_get`/`_put` are functions over it.
  - Class `TST` holds the root and a ghost map of the stored keys. The class invariant ties every lookup to that map.
  - `longest_prefix_of` is the source's cursor loop.
  - The LZW constants are named values.
- **Huffman coding** (`Huffman.py`).
  - Module `Huffman` (`huffman.dfy`) holds the value-level definitions:
    - a trie built for a frequency table;
    - the code table of root-to-leaf paths;
    - the pre-order serialisation and its parser;
    - the decode walk;
    - the compressed file `CompressSpec` and what `ExpandSpec` gives back.
  - Module `HuffmanCodec` (`huffman_codec.dfy`) holds the running code:
    - the heap loop of `_build_trie`;
    - `_build_code`, `_write_trie` and `_read_trie` over the writer and reader;
    - the two read passes and the encode loop of `compress`;
    - the decode loop of `expand`.

    Each of these is proved against the module `Huffman` definitions.
- **Run-length coding** (`RunLength.py`), module `RunLength` in `runlength.dfy`.
  - It covers the encoder loop over `cnt`/`old` with the forced `255, 0` split, and the decoder loop that writes runs of alternating bits.
  - Both are proved against the functions `EncodeRuns` and `DecodeRuns`.

Files are read and written in memory:
- a source file is a `seq<Byte>` given to the reader;
- a sink is the writer's `out` sequence;
- `compress`/`expand` take and return byte sequences.

Four behaviours differ from what a reader might expect. In each case the model follows the code:
- `flush` is not idempotent. Every call, including one with no pending bits, emits the accumulator as one byte (`BitIO.BitWriter.Flush`).
- `longest_prefix_of('')` returns `None`, not the empty string (`Tst.TST.LongestPrefixOf`).
- The empty input does not round-trip:
  - run-length coding expands it to one zero byte (`RunLength.RoundTripEmpty`);
  - Huffman compression fails in `_build_trie` (`HuffmanCodec.Compress`).
- A text with a single distinct byte needs no special case. Its trie is one leaf with the empty code, and the round trip still holds (`Huffman.SingleSymbol`, `Huffman.RoundTrip`).

## Model

| member | source | states |
|---|---|---|
| BitIO.BitWriter.constructor | bitio.py:7-10 | a new writer has an empty sink, accumulator 0, bcount 0 and nothing written |
| BitIO.BitWriter.WriteBit | bitio.py:24-29 | a full accumulator is emitted first; the bit is set at position 7 - bcount; bcount grows by one; the bits written grow by exactly that bit; 0 <= bcount <= 8 and the accumulator stays a byte |
| BitIO.BitWriter.WriteBits | bitio.py:31-34 | exactly n bits are written, bit n-1 of v first down to bit 0; with n = 0 nothing changes |
| BitIO.BitWriter.WriteNextBit | bitio.py:32-34 | one round of the loop of write_bits writes bit k-1 of v, the next of the n bits of v, and nothing else |
| BitIO.BitWriter.Flush | bitio.py:36-39 | exactly one byte, the accumulator, is appended, even with no pending bits; both fields reset; the bits written gain 8 - bcount zero bits; after at least one pending bit (or nothing written at all) the sink is PackBits of everything written |
| Bits.UnpackPack | bitio.py:24-39 | after k >= 1 written bits and one flush, the sink holds ceil(k/8) bytes (one byte for k = 0) whose bits are the written bits followed by zero padding |
| Bits.FlushPacks | bitio.py:36-39 | a writer holding full bytes and 1..8 pending bits (or nothing) emits PackBits of all it was given on its flush |
| Bits.BitsOfMod | bitio.py:31-34 | bits of v at position n or higher have no effect on the n bits written |
| Bits.BitsOfAt | bitio.py:31-34 | the i-th bit written by write_bits(v, n) is bit n-1-i of v |
| Bits.ValueOfBitsOf | bitio.py:66-71 | the value of the n bits of v is v mod 2^n |
| Bits.BitsOfValueOf | bitio.py:66-71 | writing the value read from n bits in n bits gives back the same bits |
| Bits.PackBytes | bitio.py:36-39 | packing the bits of a non-empty byte sequence gives the bytes back |
| Bits.BytesToBitsInjective | bitio.py:55-64 | different byte sequences have different bit strings |
| Bits.NextByte | bitio.py:66-71 | the bits of input[i..] begin with the 8 bits of input[i] and continue with those of input[i+1..] |
| BitIO.BitReader.constructor | bitio.py:43-47 | a new reader has all bits of its source to deliver, with accumulator, bcount and read all 0 |
| BitIO.ReadBitAvail | bitio.py:55-64 | one read_bit step on the reader's fields delivers the first undelivered bit and drops it; on an empty source it sets read to 0 and keeps the stale accumulator |
| BitIO.TakeBit | bitio.py:62 | the first of the k unread bits of the accumulator is bit k-1 of it |
| BitIO.BitReader.ReadBit | bitio.py:55-64 | refills only when bcount is 0, setting read to 1 or 0; returns the current byte's bits MSB-first and decrements bcount; with bits left it returns the next bit and drops it; at the end of input read is 0 |
| BitIO.BitReader.ReadBits | bitio.py:66-71 | returns a value < 2^n; with n bits left it is the value of the next n bits, first bit most significant, and they are consumed; with fewer than n bits left read ends as 0 |
| BitIO.BitReader.ReadNextBit | bitio.py:68-70 | one round of the loop of read_bits: with a bit left, v gains it as its new lowest bit and it is consumed; v stays below 2^(bits read); past the end of input read is 0 |
| BitIO.ReadByteAt | bitio.py:66-71 | read_bits(8) at byte i of the source returns that byte, or sets read to 0 exactly at the end of the source |
| BitIO.WriteThenReadBits | bitio.py:74-91 | bits written by write_bits(v, n), flushed, then read back with read_bits(n) give v mod 2^n |
| Tst.CodeSetSizes | LZW.py:98-101 | the character set has 2^8 = 256 members and the code set 2^12 = 4096 |
| Tst.GetNode | LZW.py:27-45 | `_get` returns either no node or a node holding the key's last character |
| Tst.PutNode | LZW.py:53-73 | `_put` always returns a node, creating a missing one with the key's character and no value |
| Tst.GetPutNode | LZW.py:53-73 | after `_put` at depth d, a search whose remaining characters equal the key's finds the new value and every other search finds what it found before |
| Tst.LookupPut | LZW.py:47-73 | after a put, `get` of the key returns the new value and `get` of any other non-empty key is unchanged |
| Tst.PutOverwrites | LZW.py:126-130 | a second put of the same key overwrites the first |
| Tst.FindStore | LZW.py:47-51 | the abstract map after a put changes at the key and nowhere else (a None value leaves the key absent) |
| Tst.PutLevel | LZW.py:62-73 | `_put` adds at most the key's character to the level of characters it starts at |
| Tst.PutOrdered | LZW.py:62-73 | `_put` keeps every node's left subtrie below and its right subtrie above its character |
| Tst.Descend | LZW.py:80-90 | each step of the prefix search moves left, right or down exactly as a search for every longer prefix of the query does |
| Tst.TST.constructor | LZW.py:15-16 | a new trie has no root and stores nothing |
| Tst.TST.Get | LZW.py:18-25 | an empty key is an error; otherwise the value stored under the key, None for a key never put or a prefix whose node has no value |
| Tst.TST.Put | LZW.py:47-51 | an empty key is an error and changes nothing; otherwise the root becomes `_put` of the old root, the stored map is updated at the key only, and the ordering invariant is kept |
| Tst.TST.LongestPrefixOf | LZW.py:75-91 | None exactly for the empty query; otherwise a prefix of the query that is a stored key (or empty), and no longer prefix of the query is stored |
| Tst.Demo | LZW.py:126-131 | after putting the words of 'she sells sea shells by the sea shore', the longest stored prefix of 'shell' is 'she' |
| Huffman.SymsNonEmpty | Huffman.py:12-27 | every trie has at least one leaf |
| Huffman.CountDistinct | Huffman.py:30-45 | a trie that holds each symbol at most once has disjoint leaf symbols in every pair of subtries |
| Huffman.TrieFreq | Huffman.py:40-45 | in a trie for a table the root's frequency is the total of the table and every symbol counts as often as the table says |
| Huffman.RootFreq | Huffman.py:95-111 | the root of the trie built for a text's byte counts has frequency text_len |
| HuffmanCodec.MinIndex | Huffman.py:41-42 | the position returned holds a tree of least frequency |
| HuffmanCodec.PopMin | Huffman.py:41-42 | heappop removes one tree of least frequency and keeps all others |
| HuffmanCodec.LeafHeap | Huffman.py:36-38 | the first loop leaves a heap of leaves only, one Leaf(ch, freq[ch]) for each key ch of the table and nothing else |
| HuffmanCodec.MergeMin | Huffman.py:40-44 | one merge round pops a tree l of least frequency, then a tree r of least frequency among the rest, and pushes their parent with frequency l.freq + r.freq; every tree stays weighted, the leaf symbols are kept, and the heap has one tree fewer |
| HuffmanCodec.MergeStepOf | Huffman.py:41-44 | two least-frequency pops and the push of their parent form one round of the greedy merge |
| HuffmanCodec.TraceSnoc | Huffman.py:40-44 | a further merge round extends the sequence of heaps the loop goes through |
| HuffmanCodec.BuildTrie | Huffman.py:30-45 | an empty table fails; otherwise the result is a full binary trie whose leaves are exactly the table's keys, each once with its frequency, and each inner node's frequency is the sum of its children's; it is the last tree of a run of the heap loop that starts from the leaf heap and in each round merges two trees of least frequency |
| HuffmanCodec.LastTree | Huffman.py:45 | the final heappop of a one-tree heap returns that tree, which is a trie for the table |
| HuffmanCodec.EmptyFreq | Huffman.py:95-104 | the byte counts are empty exactly for the empty text, so compressing an empty input fails |
| HuffmanCodec.BuildCode | Huffman.py:64-76 | `_build_code` adds to the table the entry of every leaf under the node: its path prefixed by s |
| Huffman.CodesKeys | Huffman.py:64-76 | the code table holds exactly the leaf symbols of the trie |
| Huffman.CodesValue | Huffman.py:64-76 | each symbol's code is the root-to-leaf path, '0' left and '1' right |
| Huffman.CodesBinary | Huffman.py:123-129 | codes contain only '0' and '1', so the 'Illegal state' branch is unreachable |
| Huffman.CodesPrefixFree | Huffman.py:64-76 | no symbol's code is a prefix of another symbol's code |
| Huffman.PathsPrefixFree | Huffman.py:64-76 | two different leaves have paths neither of which is a prefix of the other |
| Huffman.SingleLeafCode | Huffman.py:72-73 | a single-leaf trie gives its symbol the empty code |
| HuffmanCodec.WriteTrie | Huffman.py:48-61 | `_write_trie` writes the pre-order serialisation of the trie: a one bit and an 8-bit symbol per leaf, a zero bit per inner node |
| HuffmanCodec.WriteLeaf | Huffman.py:55-57 | a leaf is written as a one bit and then its symbol in 8 bits |
| Huffman.TrieBitsLength | Huffman.py:48-61 | the serialisation of a trie with L leaves has 10L - 1 bits |
| Huffman.ParseTrieBits | Huffman.py:48-84 | reading back a written trie gives its shape and symbols, with every frequency 0, and leaves exactly the bits after it |
| HuffmanCodec.ReadTrie | Huffman.py:79-84 | `_read_trie` returns the trie the serialisation holds and consumes exactly its bits |
| Huffman.ShapeDecodeSyms | Huffman.py:82-84 | the frequencies that read back as 0 make no difference to decoding |
| HuffmanCodec.Bump | Huffman.py:103 | the count of ch becomes its old count (0 if missing) plus one; ch becomes a key; every other count is unchanged |
| HuffmanCodec.CountFreq | Huffman.py:95-104 | the first read pass counts every byte of the input and sets text_len to its length |
| HuffmanCodec.WriteCodeChar | Huffman.py:123-129 | '0' writes a zero bit, '1' a one bit, and any other character writes nothing and fails |
| HuffmanCodec.WriteCode | Huffman.py:123-129 | a code writes one bit per character; it fails exactly when the code has a character other than '0' or '1' |
| HuffmanCodec.EncodeText | Huffman.py:117-129 | when every byte has a binary code in the table, the second pass writes the codes of all bytes in order |
| HuffmanCodec.HeaderThenText | Huffman.py:115-129 | after the trie, the text length in 32 bits is written, then the codes, and no failure can occur |
| HuffmanCodec.Compress | Huffman.py:87-131 | an empty input fails; otherwise the output is the trie, the 32-bit length and the codes of the bytes, then one flush; the trie is one the greedy heap loop builds from the byte counts |
| Huffman.WalkPath | Huffman.py:148-155 | the decode walk from the root along the bits of a symbol's code ends at that symbol's leaf, after exactly as many bits as the code has |
| HuffmanCodec.Walk | Huffman.py:149-154 | the walk from the root, right on a one bit and left on a zero bit, returns the leaf's symbol and consumes the walk's bits |
| Huffman.DecodeEncode | Huffman.py:118-155 | decoding the codes of a text with |text| walks gives the text back and leaves whatever follows |
| HuffmanCodec.DecodeText | Huffman.py:148-155 | the loop of `expand` writes the 8-bit symbols of the n decode walks |
| HuffmanCodec.Expand | Huffman.py:133-157 | on a well-formed compressed file, the output is the flush of the symbols of text_len decode walks after the trie and the length |
| Huffman.RoundTrip | Huffman.py:87-157 | expanding the compressed form of a non-empty text shorter than 2^32 bytes gives the text back |
| HuffmanCodec.CompressThenExpand | Huffman.py:160-165 | running compress and then expand on a non-empty text shorter than 2^32 bytes gives the text back |
| Huffman.SingleSymbol | Huffman.py:72-73 | a text over a single-leaf trie is coded with no bits at all |
| RunLength.MaxLengthValue | RunLength.py:8-9 | max_length is 2^8 - 1 |
| RunLength.DecodeEncode | RunLength.py:24-64 | expanding the counts of the encoder loop restores the bits, after the run already counted |
| RunLength.EncodeSum | RunLength.py:26-40 | the emitted counts add up to the number of bits read, plus the run already counted |
| RunLength.FirstCount | RunLength.py:25-33 | the first count is the length of the leading run of 0 bits, cut at 255 |
| RunLength.FirstCountOfInput | RunLength.py:24-40 | compression emits at least one count; the first is 0 exactly for the empty input or an input starting with a 1 bit |
| RunLength.EncodeStep | RunLength.py:30-39 | one bit in the encoder loop: a new bit emits cnt and restarts; a 255th repeat emits 255 and 0 and keeps counting the same bit; otherwise cnt grows |
| RunLength.RoundTrip | RunLength.py:12-66 | expanding the compressed form of a non-empty input gives it back |
| RunLength.RoundTripEmpty | RunLength.py:57-64 | the empty input expands to one zero byte, because flush always emits a byte |
| RunLength.EncodeLoop | RunLength.py:24-39 | the encoder loop reads every bit of the input; the counts it has written, followed by the count of the last run, are the run encoding of the input |
| RunLength.SwitchStep | RunLength.py:30-33 | a bit of the other value ends the run: expanding the counts written then gives the run followed by the remaining bits |
| RunLength.CutStep | RunLength.py:35-38 | the 256th bit of a run writes 255 and then 0; expanding gives 255 copies, an empty run of the other value, and the run goes on |
| RunLength.GrowStep | RunLength.py:39 | a further bit of the current run below 255 only lengthens the run, and expanding still restores the bits |
| RunLength.Emit | RunLength.py:31 | write_bits(cnt, 8) appends exactly one count to the output |
| RunLength.CountBit | RunLength.py:27-39 | one round of the encoder loop keeps the counts emitted plus the counts still owed equal to the encoding of the input, with 0 < cnt <= 255 |
| RunLength.Compress | RunLength.py:19-43 | the output is one byte per count of the run encoding of the input, and the counts add up to 8 times the input length |
| RunLength.WriteRun | RunLength.py:62-63 | the inner loop writes exactly cnt copies of the current bit |
| RunLength.DecodeLoop | RunLength.py:57-64 | the decoder writes cnt copies of the current bit per count, starting with 0 bits and flipping after each run |
| RunLength.DecodeCount | RunLength.py:59-63 | one round of the decoder loop: at the end of input it stops and writes nothing; otherwise it reads the next count byte and writes that many copies of the current bit |
| RunLength.Expand | RunLength.py:53-66 | the output is the flush of the runs of all counts of the input |

## Left out

- File plumbing. `open`/`close`, `__enter__`/`__exit__` and the `__del__` flush that swallows `ValueError` (bitio.py:12-22) are not modelled. The model's files are byte sequences in memory, and a codec's final flush is written out explicitly.
- LZW compress/expand are empty stubs (LZW.py:104-121). Only their constants are modelled.
- `heapq` order and dict iteration order are library details. Extraction is "remove some tree of least frequency", and the leaves are pushed in an unspecified key order. The model proves that the trie is one the greedy merge can produce for the counts under some order of ties. It makes no claim of byte-identical output with Python, whose heap breaks ties in one fixed way.
- Malformed or truncated compressed input is not specified. The reader keeps stale accumulator bits after the end of input, and the decoders' results for such input are left open.
- HuffmanCodec.ReadTrie returns None once the reader reports the end of input inside the trie, and Expand then returns None. The source ignores the flag there and would recurse on stale bits. This is a deviation that keeps the recursion finite. Well-formed files are unaffected.
- Tst: nodes are a datatype rather than mutable objects. `_put` never shares nodes, so rebuilding the path equals updating it in place, but aliasing of nodes is not modelled.
- Tst.TST.Put: `put(k, None)` is modelled as removing k from the stored map, because `get` then returns None exactly as for a missing key.
- HuffmanCodec.Compress: on an empty input the model returns an error without a sink. The source raises in `_build_trie` after its `with` block has already created the writer, whose `__exit__` still writes one 0 byte.
- HuffmanCodec.Compress: the 32-bit length field holds `text_len mod 2^32`, and the round trip is proved only for texts shorter than 2^32 bytes.
- HuffmanCodec.BuildCode: the table is a value passed in and returned, not a dict mutated in place by the recursion.
- BitIO.BitWriter.WriteBit: `accumulator |= 1 << 7 - bcount` is modelled as adding 2^(7-bcount). That bit is always clear, and Valid() proves it. `write_bits` passes the masked integer as the bit; it is modelled as a boolean, true when nonzero.
- The helper methods MinIndex, LeafHeap, MergeMin, LastTree, WriteLeaf, WriteCodeChar, EncodeByte, HeaderThenText, DecodeByte, WriteSym, WriteNextBit, ReadNextBit, ReadByteAt, EncodeLoop, DecodeLoop, DecodeCount and FlushRuns are loop bodies or straight-line parts of the source's functions, factored out for the proofs.
- evaluate.py and the `__main__` demos are not modelled. The one exception is the TST demo (`Tst.Demo`), used as an example property.
