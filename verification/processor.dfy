/**
 * HuffProcessor's two entry points. `compress` counts the bytes, builds the
 * tree and its codes, then writes HUFF_TREE, the tree header and the coded
 * bytes; `decompress` checks HUFF_TREE, reads the tree header back and
 * decodes the body up to PSEUDO_EOF.
 */
module Processor {
  import opened Bits
  import opened HuffCore
  import opened Counting
  import opened TreeBuilder
  import opened Codings
  import opened Header
  import opened BodyCodec

  /** `writeBits(BITS_PER_INT, HUFF_TREE)`: the 32-bit pattern of the Java int HUFF_TREE. */
  const MagicBits: seq<Bit> := ToBits(HUFF_TREE % 0x1_0000_0000, BITS_PER_INT)

  /**
   * What decompress does with a whole compressed stream: the bytes it writes,
   * or the exception that stops it.
   */
  function Decompressed(bits: seq<Bit>): Result<seq<Byte>>
  {
    var word := ReadBits(bits, 0, BITS_PER_INT);
    if word.value != HUFF_TREE || word.value == -1 then Err(IllegalHeader(word.value))
    else
      var tree := ReadTreeHeader(bits, word.next);
      if tree.Err? then Err(tree.error)
      else
        var body := DecodeBody(tree.value.tree, bits, tree.value.next);
        if body.Err? then Err(body.error) else Ok(body.value.output)
  }

  method Decompress(bits: seq<Bit>) returns (r: Result<seq<Byte>>)
    ensures r == Decompressed(bits)
  {
    var word := ReadBits(bits, 0, BITS_PER_INT);
    if word.value != HUFF_TREE || word.value == -1 {
      return Err(IllegalHeader(word.value));
    }
    var tree := ReadTreeHeader(bits, word.next);
    if tree.Err? {
      return Err(tree.error);
    }
    var body := ReadCompressedBits(tree.value.tree, bits, tree.value.next);
    if body.Err? {
      return Err(body.error);
    }
    return Ok(body.value.output);
  }

  /**
   * decompress rejects the stream at once, reporting the word it read,
   * exactly when the stream does not start with the 32 bits of HUFF_TREE.
   */
  lemma MagicCheck(bits: seq<Bit>)
    ensures Decompressed(bits).Err? && Decompressed(bits).error.IllegalHeader? <==>
              !(|bits| >= BITS_PER_INT && bits[..BITS_PER_INT] == MagicBits)
    ensures Decompressed(bits).Err? && Decompressed(bits).error.IllegalHeader? ==>
              Decompressed(bits).error.word == ReadBits(bits, 0, BITS_PER_INT).value
  {
    ReadIntPattern(bits, HUFF_TREE);
  }

  /** A stream that starts with HUFF_TREE reads it back and goes on at bit 32. */
  lemma MagicRead(bits: seq<Bit>)
    requires |bits| >= BITS_PER_INT && bits[..BITS_PER_INT] == MagicBits
    ensures ReadBits(bits, 0, BITS_PER_INT) == Read(HUFF_TREE, BITS_PER_INT)
  {
    ReadIntPattern(bits, HUFF_TREE);
  }

  /** Past a good first word and a well-formed header, decompress is the body's decoding. */
  lemma AfterHeader(bits: seq<Bit>, parsed: Parsed)
    requires |bits| >= BITS_PER_INT && bits[..BITS_PER_INT] == MagicBits
    requires ReadTreeHeader(bits, BITS_PER_INT) == Ok(parsed) && parsed.next <= |bits|
    ensures var body := DecodeBody(parsed.tree, bits, parsed.next);
            Decompressed(bits) == if body.Err? then Err(body.error) else Ok(body.value.output)
  {
    MagicRead(bits);
  }

  /** Dropping the weights changes neither the leaf symbols nor the codes. */
  lemma {:induction false} AssignUnweighted(t: HuffNode, path: seq<Bit>, table: Table)
    requires ValuesBelow(t, |table|)
    ensures LeafSymbols(Unweighted(t)) == LeafSymbols(t)
    ensures ValuesBelow(Unweighted(t), |table|)
    ensures Assign(Unweighted(t), path, table) == Assign(t, path, table)
  {
    match t
    case Leaf(_, _) =>
    case Internal(_, _, l, r) =>
      AssignUnweighted(l, path + [0], table);
      AssignUnweighted(r, path + [1], Assign(l, path + [0], table));
  }

  /** The three parts a compressed stream is made of, and what follows them. */
  lemma Layout(a: seq<Bit>, b: seq<Bit>, c: seq<Bit>, d: seq<Bit>)
    ensures var s := a + b + c + d;
            s[..|a|] == a && s[|a|..|a| + |b|] == b && s[|a| + |b|..|a| + |b| + |c|] == c
  {
    var s := a + b + c + d;
    SplitSlice(s, 0, a + b + c, d);
    SplitSlice(s, 0, a + b, c);
    SplitSlice(s, 0, a, b);
    assert s[0..|a|] == s[..|a|];
  }

  /**
   * Round trip of a compressed stream: HUFF_TREE, the header of an internal
   * tree and the codes of input and of PSEUDO_EOF, followed by any padding,
   * decompress to input, provided the tree has a leaf for PSEUDO_EOF and for
   * every byte of input.
   */
  lemma StreamRoundTrip(root: HuffNode, input: seq<Byte>, pad: seq<Bit>)
    requires root.Internal? && ValuesBelow(root, ALPH_SIZE + 1)
    requires PSEUDO_EOF in LeafSymbols(root)
    requires forall i :: 0 <= i < |input| ==> input[i] in LeafSymbols(root)
    ensures Decompressed(MagicBits + WriteHeader(root) + WriteCompressedBits(CodeTable(root), input) + pad) == Ok(input)
  {
    var header, body := WriteHeader(root), WriteCompressedBits(CodeTable(root), input);
    var bits := MagicBits + header + body + pad;
    Layout(MagicBits, header, body, pad);
    ValuesBelowMono(root, ALPH_SIZE + 1, 512);
    HeaderRoundTrip(root, bits, 32);
    var tree := Unweighted(root);
    AssignUnweighted(root, [], seq(ALPH_SIZE + 1, _ => None));
    assert CodeTable(tree) == CodeTable(root);
    BodyRoundTrip(tree, input, bits, 32 + |header|);
    AfterHeader(bits, Parsed(tree, 32 + |header|));
  }

  /**
   * A compressed stream cut off after its header but before the end of the
   * PSEUDO_EOF code ends in "bad input, no PSEUDO_EOF".
   */
  lemma TruncatedStream(root: HuffNode, input: seq<Byte>, pad: seq<Bit>, cut: nat)
    requires root.Internal? && ValuesBelow(root, ALPH_SIZE + 1)
    requires PSEUDO_EOF in LeafSymbols(root)
    requires forall i :: 0 <= i < |input| ==> input[i] in LeafSymbols(root)
    requires var start := |MagicBits| + |WriteHeader(root)|;
             start <= cut < start + |WriteCompressedBits(CodeTable(root), input)|
    ensures Decompressed((MagicBits + WriteHeader(root) + WriteCompressedBits(CodeTable(root), input) + pad)[..cut])
              == Err(NoPseudoEof)
  {
    var header, body := WriteHeader(root), WriteCompressedBits(CodeTable(root), input);
    var bits := MagicBits + header + body + pad;
    var short := bits[..cut];
    Layout(MagicBits, header, body, pad);
    assert short[..32] == MagicBits;
    assert short[32..32 + |header|] == header;
    ValuesBelowMono(root, ALPH_SIZE + 1, 512);
    HeaderRoundTrip(root, short, 32);
    var tree := Unweighted(root);
    AssignUnweighted(root, [], seq(ALPH_SIZE + 1, _ => None));
    assert CodeTable(tree) == CodeTable(root);
    TruncatedBody(tree, input, bits, 32 + |header|, cut);
    AfterHeader(short, Parsed(tree, 32 + |header|));
  }

  /**
   * A compressed stream whose tree is a single leaf does not decompress:
   * the body holds no code, and the first bit after the header (if any)
   * leads to a null child.
   */
  lemma LeafStreamFails(root: HuffNode, pad: seq<Bit>)
    requires root.Leaf? && 0 <= root.value < 512
    ensures Decompressed(MagicBits + WriteHeader(root) + pad) == Err(if pad == [] then NoPseudoEof else NullChild)
  {
    var header := WriteHeader(root);
    var bits := MagicBits + header + pad;
    Layout(MagicBits, header, pad, []);
    assert bits == MagicBits + header + pad + [];
    HeaderRoundTrip(root, bits, 32);
    AfterHeader(bits, Parsed(Unweighted(root), 32 + |header|));
  }

  /**
   * The tree makeTreeFromCounts builds from readForCounts' table has a leaf
   * for PSEUDO_EOF and for every byte of input, and no other leaf.
   */
  lemma CountedSymbols(input: seq<Byte>, counts: seq<int>, root: HuffNode, v: int)
    requires |counts| == ALPH_SIZE + 1 && counts[PSEUDO_EOF] == 1
    requires forall u :: 0 <= u < ALPH_SIZE ==> counts[u] == multiset(input)[u]
    requires multiset(LeafSymbols(root)) == multiset(Present(counts))
    ensures v in LeafSymbols(root) <==> v == PSEUDO_EOF || v in input
    ensures multiset(LeafSymbols(root))[v] <= 1
  {
    PresentSpec(counts, v);
    assert v in LeafSymbols(root) <==> v in multiset(Present(counts));
  }

  /** With input empty, PSEUDO_EOF is the only symbol, so the tree is one leaf. */
  lemma EmptyInputTree(counts: seq<int>, root: HuffNode)
    requires |counts| == ALPH_SIZE + 1
    requires forall u :: 0 <= u < |counts| ==> (counts[u] > 0 <==> u == PSEUDO_EOF)
    requires multiset(LeafSymbols(root)) == multiset(Present(counts))
    ensures root == Leaf(PSEUDO_EOF, root.weight)
  {
    var symbols := multiset(Present(counts));
    forall u ensures symbols[u] == multiset{PSEUDO_EOF}[u] {
      PresentSpec(counts, u);
      if u == PSEUDO_EOF {
        assert u in symbols;
      }
    }
    assert symbols == multiset{PSEUDO_EOF};
    LeafCount(root);
    assert |LeafSymbols(root)| == 1;
    assert LeafSymbols(root)[0] in multiset(LeafSymbols(root));
  }

  /**
   * Compressing "AAAB": A counted 3 times, B once, PSEUDO_EOF once. B and
   * PSEUDO_EOF are joined first (weight 2), then that node and A (weight 3)
   * make the root, so A gets the one-bit code 1 and B and PSEUDO_EOF the
   * two-bit codes 00 and 01, in an order the equal weights leave open.
   */
  lemma FourByteTree(counts: seq<int>, rounds: seq<Round>, root: HuffNode)
    requires |counts| == ALPH_SIZE + 1 && counts[PSEUDO_EOF] == 1
    requires forall v :: 0 <= v < ALPH_SIZE ==> counts[v] == multiset([65, 65, 65, 66])[v]
    requires HuffmanRun(Leaves(counts), rounds, root)
    ensures root.Internal? && root.weight == 5 && root.right == Leaf(65, 3)
    ensures ValuesBelow(root, ALPH_SIZE + 1) && CodeTable(root)[65] == Some([1])
    ensures || (CodeTable(root)[66] == Some([0, 0]) && CodeTable(root)[PSEUDO_EOF] == Some([0, 1]))
            || (CodeTable(root)[66] == Some([0, 1]) && CodeTable(root)[PSEUDO_EOF] == Some([0, 0]))
  {
    FourByteCounts(counts);
    FourByteLeaves(counts);
    ThreeNodeRun(Leaf(65, 3), Leaf(66, 1), Leaf(256, 1), rounds, root);
    if root.left.left == Leaf(66, 1) {
      TwoLevelCodes(Leaf(65, 3), Leaf(66, 1), Leaf(256, 1), 5, 2);
    } else {
      TwoLevelCodes(Leaf(65, 3), Leaf(256, 1), Leaf(66, 1), 5, 2);
    }
  }

  /** The leaves queued for "AAAB": A, B and PSEUDO_EOF, with their counts. */
  lemma FourByteLeaves(counts: seq<int>)
    requires |counts| == ALPH_SIZE + 1 && counts[PSEUDO_EOF] == 1 && counts[65] == 3 && counts[66] == 1
    requires forall v :: 0 <= v < ALPH_SIZE && v != 65 && v != 66 ==> counts[v] == 0
    ensures Leaves(counts) == [Leaf(65, 3), Leaf(66, 1), Leaf(256, 1)]
  {
    LeavesSkip(counts, 0, 65);
    assert counts[..0] == [];
    assert Leaves(counts[..65]) == [];
    LeavesStep(counts, 65);
    assert Leaves(counts[..66]) == [Leaf(65, 3)];
    LeavesStep(counts, 66);
    assert Leaves(counts[..67]) == [Leaf(65, 3), Leaf(66, 1)];
    LeavesSkip(counts, 67, 256);
    LeavesStep(counts, 256);
    assert counts[..257] == counts;
  }

  /** The counts readForCounts makes for "AAAB". */
  lemma FourByteCounts(counts: seq<int>)
    requires |counts| == ALPH_SIZE + 1
    requires forall v :: 0 <= v < ALPH_SIZE ==> counts[v] == multiset([65, 65, 65, 66])[v]
    ensures counts[65] == 3 && counts[66] == 1
    ensures forall v :: 0 <= v < ALPH_SIZE && v != 65 && v != 66 ==> counts[v] == 0
  {
    var input: seq<Byte> := [65, 65, 65, 66];
    assert multiset(input) == multiset{65, 65, 65, 66};
  }

  /** The codes of a tree with the leaf top on the right and the leaves y, z below on the left. */
  lemma TwoLevelCodes(top: HuffNode, y: HuffNode, z: HuffNode, w: int, w2: int)
    requires top.Leaf? && y.Leaf? && z.Leaf?
    requires 0 <= top.value <= ALPH_SIZE && 0 <= y.value <= ALPH_SIZE && 0 <= z.value <= ALPH_SIZE
    requires top.value != y.value && top.value != z.value && y.value != z.value
    ensures var t := Internal(0, w, Internal(0, w2, y, z), top);
            && ValuesBelow(t, ALPH_SIZE + 1)
            && CodeTable(t)[top.value] == Some([1])
            && CodeTable(t)[y.value] == Some([0, 0])
            && CodeTable(t)[z.value] == Some([0, 1])
  {
    assert ValuesBelow(y, ALPH_SIZE + 1) && ValuesBelow(z, ALPH_SIZE + 1) && ValuesBelow(top, ALPH_SIZE + 1);
    var empty: Table := seq(ALPH_SIZE + 1, _ => None);
    var root: seq<Bit>, zero: seq<Bit>, one: seq<Bit> := [], [0], [1];
    assert root + [0] == zero && root + [1] == one && zero + [0] == [0, 0] && zero + [1] == [0, 1];
    var t := Internal(0, w, Internal(0, w2, y, z), top);
    var inner := Assign(Internal(0, w2, y, z), zero, empty);
    assert Assign(y, [0, 0], empty) == empty[y.value := Some([0, 0])];
    assert inner == Assign(z, zero + [1], Assign(y, zero + [0], empty));
    assert Assign(z, [0, 1], Assign(y, [0, 0], empty)) == Assign(y, [0, 0], empty)[z.value := Some([0, 1])];
    assert CodeTable(t) == Assign(top, one, inner) == inner[top.value := Some(one)];
  }

  /**
   * compress, with the bit stream it writes as the result. `pad` stands for
   * whatever out.close() adds after the last code. A non-empty input
   * decompresses back to itself; an empty one gives a tree of one leaf,
   * and its compressed form does not decompress.
   */
  method Compress(input: seq<Byte>, pad: seq<Bit>) returns (out: seq<Bit>)
    ensures input != [] ==> Decompressed(out) == Ok(input)
    ensures input == [] ==> Decompressed(out) == Err(if pad == [] then NoPseudoEof else NullChild)
  {
    var counts := ReadForCounts(input);
    var root := MakeTreeFromCounts(counts);
    CompressedStream(input, counts[..], root, pad);
    var codings := MakeCodingsFromTree(root);
    out := MagicBits + WriteHeader(root) + WriteCompressedBits(codings[..], input) + pad;
  }

  /**
   * What compress writes, for the counts of input and a tree built from
   * them: the round trip when input is non-empty, the failure otherwise.
   */
  lemma CompressedStream(input: seq<Byte>, c: seq<int>, root: HuffNode, pad: seq<Bit>)
    requires |c| == ALPH_SIZE + 1 && c[PSEUDO_EOF] == 1
    requires forall v :: 0 <= v < ALPH_SIZE ==> c[v] == multiset(input)[v]
    requires BuiltFrom(root, c) && multiset(LeafSymbols(root)) == multiset(Present(c))
    ensures ValuesBelow(root, ALPH_SIZE + 1)
    ensures var out := MagicBits + WriteHeader(root) + WriteCompressedBits(CodeTable(root), input) + pad;
            && (input != [] ==> Decompressed(out) == Ok(input))
            && (input == [] ==> Decompressed(out) == Err(if pad == [] then NoPseudoEof else NullChild))
  {
    BuiltFromBelow(root, c);
    if input == [] {
      CompressedEmpty(c, root, pad);
    } else {
      CompressedRoundTrip(input, c, root, pad);
    }
  }

  /** Compressing the empty input writes a one-leaf header that does not decompress. */
  lemma CompressedEmpty(c: seq<int>, root: HuffNode, pad: seq<Bit>)
    requires |c| == ALPH_SIZE + 1 && c[PSEUDO_EOF] == 1
    requires forall v :: 0 <= v < ALPH_SIZE ==> c[v] == 0
    requires ValuesBelow(root, ALPH_SIZE + 1) && multiset(LeafSymbols(root)) == multiset(Present(c))
    ensures var out := MagicBits + WriteHeader(root) + WriteCompressedBits(CodeTable(root), []) + pad;
            Decompressed(out) == Err(if pad == [] then NoPseudoEof else NullChild)
  {
    forall u | 0 <= u < |c| ensures c[u] > 0 <==> u == PSEUDO_EOF {
    }
    EmptyInputTree(c, root);
    assert CodeTable(root)[PSEUDO_EOF] == Some([]);
    LeafStreamFails(root, pad);
    assert WriteCompressedBits(CodeTable(root), []) == [];
    assert MagicBits + WriteHeader(root) + [] + pad == MagicBits + WriteHeader(root) + pad;
  }

  /** Compressing a non-empty input writes a stream that decompresses back to it. */
  lemma CompressedRoundTrip(input: seq<Byte>, c: seq<int>, root: HuffNode, pad: seq<Bit>)
    requires input != []
    requires |c| == ALPH_SIZE + 1 && c[PSEUDO_EOF] == 1
    requires forall v :: 0 <= v < ALPH_SIZE ==> c[v] == multiset(input)[v]
    requires ValuesBelow(root, ALPH_SIZE + 1) && multiset(LeafSymbols(root)) == multiset(Present(c))
    ensures var out := MagicBits + WriteHeader(root) + WriteCompressedBits(CodeTable(root), input) + pad;
            Decompressed(out) == Ok(input)
  {
    CountedSymbols(input, c, root, PSEUDO_EOF);
    CountedSymbols(input, c, root, input[0]);
    forall i | 0 <= i < |input| ensures input[i] in LeafSymbols(root) {
      CountedSymbols(input, c, root, input[i]);
    }
    assert root.Internal?;
    StreamRoundTrip(root, input, pad);
  }
}
