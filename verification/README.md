# Huffman codec (HuffProcessor) in Dafny

This project models the Huffman compressor and decompressor of
`HuffProcessor`.

Compression has these steps:

- `readForCounts` counts the bytes of the input in a 257-slot table. Slot 256 is PSEUDO_EOF, the end-of-stream symbol, and is forced to 1.
- `makeTreeFromCounts` builds the Huffman tree. It repeatedly takes the two lightest nodes out of a priority queue and joins them.
- `makeCodingsFromTree` and `codingHelper` give each leaf its root-to-leaf path as its code, with 0 for left and 1 for right.
- `compress` writes the magic number HUFF_TREE (0xface8201), then a pre-order header describing the tree, then the codes of the bytes followed by the code of PSEUDO_EOF.

Decompression reverses this:

- `decompress` checks the magic number.
- `readTreeHeader` rebuilds the tree from the header.
- `readCompressedBits` walks the tree bit by bit. At each leaf it writes a byte, until it reaches the PSEUDO_EOF leaf.

## Modules

| file | module | what it holds |
|---|---|---|
| bits.dfy | `Bits` | Bits, bytes and powers of two. The bit input stream is a `seq<Bit>` read from a position, and `ReadBits` models `readBits(n)`. |
| huff_core.dfy | `HuffCore` | The constants (`BITS_PER_WORD`, `ALPH_SIZE`, `PSEUDO_EOF`, `HUFF_NUMBER`, `HUFF_TREE`), the `HuffNode` tree, the exceptions, and paths through a tree. |
| counting.dfy | `Counting` | `readForCounts`, as a loop over a fresh array. |
| tree_builder.dfy | `TreeBuilder` | `makeTreeFromCounts`. The queue is a sequence, and `RemoveMin` takes out some node of least weight. |
| codings.dfy | `Codings` | `codingHelper` writing into the encodings array, `makeCodingsFromTree`, and what the table holds. |
| header.dfy | `Header` | `readTreeHeader` as a function over the stream and a position, and the header round trip. |
| body.dfy | `BodyCodec` | `readCompressedBits` as a loop, proved against the recursive `DecodeBody`, and the body round trip. |
| processor.dfy | `Processor` | `decompress` and `compress` end to end. |

How the source's types and operations appear in the model:

- **Tree nodes.** A `HuffNode` is a datatype: `Leaf(value, weight)` stands for a node with two null children, and `Internal(value, weight, left, right)` for a node with two children. The source builds no other kind of node.
- **Codes.** The source's Strings of '0' and '1' are sequences of bits. A null slot of the encodings array is `None`.
- **Reads.** `readBits(n)` at a position returns -1 when fewer than n bits remain, and the stream is then exhausted. Otherwise it returns the next n bits as a number, most significant bit first. A 32-bit read is reinterpreted as a Java `int` (`JavaInt`), so that HUFF_TREE, a negative `int`, compares correctly.
- **Failures.** Each way `decompress` fails is a value of `HuffError`:
  - `IllegalHeader(word)`: the first word is not HUFF_TREE ("illegal header starts with").
  - `CorruptTree`: the header ran out at a marker bit ("the tree is corrupt").
  - `NoPseudoEof`: the body ran out before the PSEUDO_EOF leaf ("bad input, no PSEUDO_EOF").
  - `NullChild`: a child of a leaf root was dereferenced, which is a `NullPointerException` in Java.

`writeHeader` and `writeCompressedBits` are called by `compress` but are not defined in `src/HuffProcessor.java`. The model writes them as specification helpers, `Header.WriteHeader` and `BodyCodec.WriteCompressedBits`:

- `WriteHeader` is the exact mirror of `readTreeHeader`, with each leaf symbol written in 9 bits.
- `WriteCompressedBits` concatenates the code of each input byte and then the code of PSEUDO_EOF.

Only the round-trip statements use these helpers.

### Behaviour that follows the code rather than its comments

- **Empty input is not reversible.** The comment on `compress` promises a reversible, loss-less process, but an empty input breaks this. Its counts hold only PSEUDO_EOF, so the tree is a single leaf. That leaf's code is empty, so `WriteCompressedBits` writes nothing and the compressed stream ends right after the header (plus any padding). When `decompress` reads a one-leaf header back, the first bit after it moves `current` to a null child and dereferences it. If no bit follows the header at all, it reports "no PSEUDO_EOF" instead. `Processor.LeafStreamFails` states this for a one-leaf header followed by any bits whatever. `Processor.Compress` states the resulting outcome for the empty input, and states the round trip for every non-empty input.
- **The 9-bit symbol read is unchecked.** `readTreeHeader` does not check the 9-bit symbol read for -1. A header cut inside a symbol therefore gives a leaf holding -1, and parsing goes on. The model keeps this: only a marker bit that finds the stream exhausted is `CorruptTree`.

## Model

| member | source | states |
|---|---|---|
| Bits.ReadBits | src/HuffProcessor.java:148 | the `readBits(n)` of `decompress` (32 bits here, 1 bit at lines 167 and 198, 9 bits at line 177): when fewer than n bits remain it gives -1 and exhausts the stream; otherwise it advances exactly n bits (a 32-bit all-ones word also reads as -1) |
| Bits.ReadBitIsReadBits | src/HuffProcessor.java:167 | the one-bit read used by the header parser and, at line 198, by the body decoder is `readBits(1)`: the next bit, or -1 at the end |
| Bits.ReadNarrow | src/HuffProcessor.java:177 | a read of fewer than 32 bits, such as the 9-bit symbol read, yields the unsigned number the bits spell |
| Bits.ReadIntPattern | src/HuffProcessor.java:148-149 | a 32-bit read returns the Java int w (w not -1) exactly when the next 32 bits are w's two's complement pattern |
| Bits.ValueOfToBits | src/HuffProcessor.java:57 | writing a number that fits in n bits as n bits and reading those bits back gives the number |
| Counting.ReadWordIsReadBits | src/HuffProcessor.java:76-77 | `ReadWord`, the loop's `readBits(BITS_PER_WORD)`, is that read on the stream carrying the input's bytes as 8 bits each, most significant first: read number i gives byte i, and gives -1 exactly when all bytes have been read |
| Counting.ByteStreamAt | src/HuffProcessor.java:76-77 | byte i of the input occupies bits 8i to 8i+7 of that stream |
| Counting.ReadForCounts | src/HuffProcessor.java:72-81 | the table has 257 slots; slot PSEUDO_EOF is 1; every byte slot holds the number of occurrences of that byte in the input (so an empty input leaves only PSEUDO_EOF nonzero) |
| TreeBuilder.PresentSpec | src/HuffProcessor.java:93-97 | the queue is first filled with one leaf for each index whose count is positive, and only those; no index appears twice |
| TreeBuilder.RemoveMin | src/HuffProcessor.java:100-101 | `pq.remove()` takes out a node no heavier than any node in the queue, and exactly one occurrence of it: the rest plus that node is the old queue as a multiset; the queue loses exactly that node's symbols and weight |
| TreeBuilder.LeavesBuilt | src/HuffProcessor.java:93-97 | every leaf the first loop queues holds an index with a positive count and that count as its weight |
| TreeBuilder.LeavesSymbols | src/HuffProcessor.java:93-97 | the queued leaves hold exactly the indices with a positive count, each once |
| TreeBuilder.LeavesWeight | src/HuffProcessor.java:93-97 | the queued leaves weigh, together, the sum of the positive counts |
| TreeBuilder.LeavesSkip | src/HuffProcessor.java:93-97 | slots whose count is not positive queue no leaf |
| TreeBuilder.MergeShape | src/HuffProcessor.java:99-104 | joining the two removed nodes under a new node (value 0, weight their sum, first removed on the left) keeps every queued node well formed |
| TreeBuilder.MergeSymbols | src/HuffProcessor.java:99-104 | the join keeps the multiset of leaf symbols in the queue |
| TreeBuilder.MergeWeight | src/HuffProcessor.java:99-104 | the join keeps the total weight in the queue |
| TreeBuilder.MakeTreeFromCounts | src/HuffProcessor.java:90-107 | the tree has exactly one leaf per index with a positive count, weighted by that count; each internal node has value 0, the sum of its children's weights, and a left child no heavier than its right; the root weight is the sum of the positive counts; and the tree is what some run of the greedy loop ends with, starting from the queued leaves in index order (`HuffmanRun`): each round takes out a lightest node, then a lightest of the rest, and queues their join, until one node is left; the loop ends because the queue shrinks by one per round |
| TreeBuilder.MergeStep | src/HuffProcessor.java:99-104 | one pass of the while loop (two removals of a lightest node, then the join queued last) extends the rounds made so far by that round, ending on the queue the pass leaves |
| TreeBuilder.RoundsAppend | src/HuffProcessor.java:99-104 | a round the loop makes on the queue it has reached extends the rounds made so far, so the loop's history stays a run from the first queue |
| TreeBuilder.RunStart | src/HuffProcessor.java:99-104 | on a queue of two or more nodes a run begins with a round of two lightest-node removals, and goes on from the queue after that round |
| TreeBuilder.LeastRemovedSize | src/HuffProcessor.java:100 | a removal takes out a node that was queued and leaves one node fewer |
| TreeBuilder.NoRound | src/HuffProcessor.java:99 | on a queue of at most one node the loop makes no round |
| TreeBuilder.LeastOfPair | src/HuffProcessor.java:100-101 | of two queued nodes of different weights, `pq.remove()` takes out the lighter and leaves the heavier |
| TreeBuilder.LeastOfThree | src/HuffProcessor.java:100 | of three queued nodes, one heavier than the other two, the first removal takes out one of the two lighter |
| TreeBuilder.FirstJoin | src/HuffProcessor.java:99-104 | the first round on three nodes, one heavier than the other two, joins the two lighter, in either order, and leaves the heavier and the join queued |
| TreeBuilder.TwoNodeRun | src/HuffProcessor.java:99-106 | a run on two nodes of different weights ends with their join, the lighter on the left |
| TreeBuilder.ThreeNodeRun | src/HuffProcessor.java:99-106 | a run on three nodes whose two lighter ones together weigh less than the third joins the two lighter first, then puts that node on the left and the third on the right of the root |
| TreeBuilder.BuiltFromBelow | src/HuffProcessor.java:95 | every leaf symbol of the built tree is an index of the counts table |
| Codings.CodingHelper | src/HuffProcessor.java:129-136 | the array after the walk is the table `Assign` describes, and nothing else is changed |
| Codings.MakeCodingsFromTree | src/HuffProcessor.java:115-119 | returns a fresh 257-slot array that holds `CodeTable(root)` |
| Codings.AssignSpec | src/HuffProcessor.java:129-136 | after the walk with prefix s, slot v holds s extended by a path to a leaf holding v when the subtree has one, and is unchanged otherwise |
| Codings.CodeTableSpec | src/HuffProcessor.java:115-136 | a slot has a code exactly when its symbol is a leaf of the tree, and following that code from the root ends on that leaf |
| Codings.PrefixFree | src/HuffProcessor.java:115-136 | no recorded code is a prefix of, or equal to, the code of another symbol |
| Codings.CodesNonEmpty | src/HuffProcessor.java:134-135 | below an internal root every code has at least one bit |
| Header.ReadTreeHeader | src/HuffProcessor.java:166-181 | parsing consumes at least one bit and never runs past the stream; the only way it fails is "the tree is corrupt" |
| Header.ParseLeaf | src/HuffProcessor.java:176-178 | a 1 bit gives a leaf (weight 0) holding the unsigned value of the next 9 bits, ten bits on |
| Header.ParseInternal | src/HuffProcessor.java:171-174 | a 0 bit gives an internal node (value 0, weight 0) over the two subtrees parsed next, ending where the right one ends |
| Header.ParseExhausted | src/HuffProcessor.java:167-169 | a marker read at the end of the stream is "the tree is corrupt" |
| Header.ParseAt | src/HuffProcessor.java:166-181 | a stream that holds a pre-order description of t parses to t's shape and symbols with every weight 0, ending right after the description |
| Header.HeaderRoundTrip | src/HuffProcessor.java:166-181 | whatever follows it, the header written for a tree whose symbols fit in 9 bits parses back to that tree with weights 0, ending exactly where the header ends |
| BodyCodec.Descend | src/HuffProcessor.java:198-210 | a walk from an internal node ends on a leaf, after at least one bit and within the stream, or finds the stream exhausted |
| BodyCodec.DescendReach | src/HuffProcessor.java:198-210 | the walk finds the stream exhausted exactly when the remaining bits lead from the node only to an internal node; when it ends on a leaf, the bits it consumed are the path from the node to that leaf |
| BodyCodec.DecodeExhausted | src/HuffProcessor.java:198-200 | a walk that runs out of bits before reaching a leaf is "bad input, no PSEUDO_EOF" |
| BodyCodec.Resume | src/HuffProcessor.java:195-222 | decoding from an internal node stops within the stream after at least one bit, and the only way it fails is "no PSEUDO_EOF" |
| BodyCodec.ReadCompressedBits | src/HuffProcessor.java:195-222 | the loop's outcome is `DecodeBody`: the output, the stop position, or the exception, including the null child of a leaf root |
| BodyCodec.DecodeEof | src/HuffProcessor.java:210-213 | a walk that ends on the PSEUDO_EOF leaf stops decoding and writes nothing |
| BodyCodec.DecodeSymbol | src/HuffProcessor.java:214-217 | a walk that ends on another leaf writes its symbol's low 8 bits and starts again from the root after the walk |
| BodyCodec.DescendCode | src/HuffProcessor.java:203-210 | on a stream that holds a code leading to a leaf, the walk follows it to that leaf and ends right after its last bit |
| BodyCodec.DecodeEncoded | src/HuffProcessor.java:195-222 | on a stream that holds the codes of input and then of PSEUDO_EOF, decoding outputs input and stops right after the PSEUDO_EOF code |
| BodyCodec.BodyRoundTrip | src/HuffProcessor.java:195-222 | with the table `makeCodingsFromTree` builds, the encoded body of any input whose bytes are leaves decodes back to that input, whatever follows it |
| BodyCodec.BodyIgnoresTail | src/HuffProcessor.java:211-213 | nothing after the PSEUDO_EOF code is read: a stream that agrees up to where decoding stopped decodes identically |
| BodyCodec.TruncatedBody | src/HuffProcessor.java:198-200 | an encoded body cut off anywhere before the end of the PSEUDO_EOF code gives "bad input, no PSEUDO_EOF" |
| Processor.Decompress | src/HuffProcessor.java:146-156 | the method's outcome is `Decompressed`: magic check, header, then body |
| Processor.MagicCheck | src/HuffProcessor.java:148-151 | `decompress` rejects the stream as an illegal header, reporting the word read, exactly when it does not start with the 32 bits of HUFF_TREE (a stream shorter than 32 bits, whose read gives -1, is rejected too) |
| Processor.CountedSymbols | src/HuffProcessor.java:72-97 | the tree built from the counts of an input has a leaf for PSEUDO_EOF and for each byte of the input, and no other leaf, each once |
| Processor.EmptyInputTree | src/HuffProcessor.java:93-105 | with an empty input the tree is a single PSEUDO_EOF leaf |
| Processor.StreamRoundTrip | src/HuffProcessor.java:53-61 | HUFF_TREE, the header and the encoded body of an internal tree that has leaves for PSEUDO_EOF and for every input byte, followed by any padding, decompress to the input |
| Processor.TruncatedStream | src/HuffProcessor.java:198-200 | a compressed stream cut off after its header and before the end of the PSEUDO_EOF code fails with "no PSEUDO_EOF" |
| Processor.LeafStreamFails | src/HuffProcessor.java:203-210 | a stream whose tree is one leaf fails: with a null child when a body bit follows the header, with "no PSEUDO_EOF" when none does |
| Processor.FourByteTree | src/HuffProcessor.java:72-106 | compressing "AAAB": B and PSEUDO_EOF (count 1 each) are joined first, that node (weight 2) and A (count 3) make the root of weight 5, so A's code is the single bit 1 and B and PSEUDO_EOF get 00 and 01 in some order |
| Processor.FourByteCounts | src/HuffProcessor.java:72-81 | for "AAAB" the counts are 3 for A, 1 for B and 0 for every other byte |
| Processor.FourByteLeaves | src/HuffProcessor.java:93-97 | from the counts of "AAAB" (3 for A, 1 for B and for PSEUDO_EOF, 0 elsewhere) the first loop queues A, B and PSEUDO_EOF, in that order, with their counts |
| Processor.TwoLevelCodes | src/HuffProcessor.java:129-136 | in a tree with a leaf on the right of the root and two leaves under its left child, the codes are 1 for the right leaf and 00 and 01 for the two others |
| Processor.CompressedStream | src/HuffProcessor.java:44-63 | for the counts `readForCounts` gives and a tree built from them, the stream compress writes decompresses to the input when the input is non-empty, and fails with a null child or "no PSEUDO_EOF" when it is empty |
| Processor.CompressedEmpty | src/HuffProcessor.java:44-63 | the stream compress writes for the empty input fails to decompress, with a null child when padding follows, with "no PSEUDO_EOF" when none does |
| Processor.CompressedRoundTrip | src/HuffProcessor.java:44-63 | the stream compress writes for a non-empty input, with the tree built from its counts, decompresses to the input |
| Processor.Compress | src/HuffProcessor.java:44-63 | every non-empty input decompresses back to itself, whatever padding `close` adds; the empty input decompresses to an exception (see above) |

## Left out

- `BitInputStream` and `BitOutputStream` are not part of this model. The stream `decompress` reads is a sequence of bits. The input of `compress` is a sequence of bytes, read one byte per `ReadWord`; `Counting.ReadWordIsReadBits` ties that to `ReadBits` on the same bytes written as bits. Reads are assumed to be most significant bit first, and `writeBits(n, v)` is assumed to write the n low bits of v.
- `in.reset()` is modelled by encoding the same input sequence twice. The padding and flushing done by `out.close()` are modelled as an arbitrary `pad` after the last code.
- The bodies of `writeHeader` and `writeCompressedBits` are not in the source. They appear only as the specification helpers described above.
- `java.util.PriorityQueue` and `HuffNode.compareTo` are not part of this model. `RemoveMin` takes some node of least weight, and no order among equally light nodes is claimed.
- `HuffNode` itself is not part of this model. Its fields and constructor are inferred from how `HuffProcessor` uses them.
- The debug level field, its constants and the two constructors are configuration only and are left out.
- Output written before an exception is not modelled. A failing decompression is just its `HuffError`, and an exception's message is reduced to its constructor.
- Counts and weights are unbounded integers, so Java `int` overflow is not modelled. A count overflows on an input of more than 2^31 - 1 equal bytes. The weight sum `left.myWeight + right.myWeight` wraps once the whole input exceeds 2^31 - 2 bytes, since the root weighs the input length plus one for PSEUDO_EOF. In Java a wrapped weight then reorders the queue, and the root weight is no longer the sum of the positive counts, so `TreeBuilder.MakeTreeFromCounts` describes Java only for inputs below that size.
- BodyCodec.DecodeSymbol: writes `value % 256` for a leaf value. This relies on the assumption about `writeBits(8, v)` above. Values outside 0..255 arise only in trees read from foreign headers.
