/**
 * Body decoding: `readCompressedBits` walks the tree one bit at a time from
 * the root, 0 to the left and 1 to the right; at a leaf it either stops
 * (PSEUDO_EOF) or writes the leaf's symbol and starts again from the root.
 */
module BodyCodec {
  import opened Bits
  import opened HuffCore
  import opened Codings

  /** A leaf reached by a walk, and the stream position after the walk's last bit. */
  datatype Step = Step(leaf: HuffNode, next: nat)

  /** The bytes written and the stream position where decoding stopped. */
  datatype Decoded = Decoded(output: seq<Byte>, next: nat)

  /**
   * One walk of the inner loop from an internal node: read a bit, move to
   * the left child on 0 and to the right child otherwise, until a leaf is
   * reached; None when a read finds the stream exhausted first.
   */
  function Descend(node: HuffNode, bits: seq<Bit>, pos: nat): (r: Option<Step>)
    requires node.Internal? && pos <= |bits|
    ensures r.Some? ==> r.value.leaf.Leaf? && pos < r.value.next <= |bits|
    decreases node
  {
    var b := ReadBit(bits, pos);
    if b.value == -1 then None
    else
      var child := if b.value == 0 then node.left else node.right;
      if child.Leaf? then Some(Step(child, b.next)) else Descend(child, bits, b.next)
  }

  /** Puts out in front of the output of a decoding that succeeds. */
  function Prepend(out: seq<Byte>, r: Result<Decoded>): Result<Decoded>
  {
    match r
    case Err(e) => Err(e)
    case Ok(Decoded(rest, next)) => Ok(Decoded(out + rest, next))
  }

  /**
   * What the loop produces from here on, when it stands at node current
   * (an internal node of root's tree) with the stream at pos.
   */
  function Resume(root: HuffNode, current: HuffNode, bits: seq<Bit>, pos: nat): (r: Result<Decoded>)
    requires root.Internal? && current.Internal? && pos <= |bits|
    ensures r.Ok? ==> pos < r.value.next <= |bits|
    ensures r.Err? ==> r.error == NoPseudoEof
    decreases |bits| - pos
  {
    match Descend(current, bits, pos)
    case None => Err(NoPseudoEof)
    case Some(Step(leaf, next)) =>
      if leaf.value == PSEUDO_EOF then Ok(Decoded([], next))
      else Prepend([leaf.value % 256], Resume(root, root, bits, next))
  }

  /**
   * The whole of readCompressedBits from position pos: the bytes written
   * (each leaf symbol's low 8 bits) and where the PSEUDO_EOF code ended, or
   * "bad input, no PSEUDO_EOF" when the stream runs out first. A root that
   * is a leaf has null children: the first bit read moves to null, and the
   * leaf test that follows dereferences it.
   */
  function DecodeBody(root: HuffNode, bits: seq<Bit>, pos: nat): (r: Result<Decoded>)
    requires pos <= |bits|
  {
    if root.Leaf? then
      if ReadBit(bits, pos).value == -1 then Err(NoPseudoEof) else Err(NullChild)
    else
      Resume(root, root, bits, pos)
  }

  lemma PrependEmpty(r: Result<Decoded>)
    ensures Prepend([], r) == r
  {
    if r.Ok? {
      assert [] + r.value.output == r.value.output;
    }
  }

  lemma PrependPrepend(a: seq<Byte>, b: seq<Byte>, r: Result<Decoded>)
    ensures Prepend(a, Prepend(b, r)) == Prepend(a + b, r)
  {
    if r.Ok? {
      assert a + (b + r.value.output) == (a + b) + r.value.output;
    }
  }

  /** The decoding loop of readCompressedBits, over a stream held in memory. */
  method ReadCompressedBits(root: HuffNode, bits: seq<Bit>, pos: nat) returns (r: Result<Decoded>)
    requires pos <= |bits|
    ensures r == DecodeBody(root, bits, pos)
  {
    var current := root;
    var p := pos;
    var out: seq<Byte> := [];
    PrependEmpty(DecodeBody(root, bits, pos));
    while true
      invariant pos <= p <= |bits|
      invariant root.Leaf? ==> current == root && p == pos
      invariant root.Internal? ==>
                  current.Internal? && DecodeBody(root, bits, pos) == Prepend(out, Resume(root, current, bits, p))
      decreases |bits| - p
    {
      var b := ReadBit(bits, p);
      if b.value == -1 {
        return Err(NoPseudoEof);
      }
      if current.Leaf? {
        // current.myLeft (or myRight) is null, and so is the node tested next
        return Err(NullChild);
      }
      ghost var from := current;
      if b.value == 0 {
        current := current.left;
      } else {
        current := current.right;
      }
      p := b.next;
      if current.Leaf? {
        if current.value == PSEUDO_EOF {
          assert Resume(root, from, bits, p - 1) == Ok(Decoded([], p));
          assert out + [] == out;
          return Ok(Decoded(out, p));
        }
        PrependPrepend(out, [current.value % 256], Resume(root, root, bits, p));
        out := out + [current.value % 256];
        current := root;
      }
    }
  }

  /** The code the table holds for v; a symbol without a code contributes nothing. */
  function CodeOf(table: Table, v: int): seq<Bit>
    requires 0 <= v < |table|
  {
    if table[v].Some? then table[v].value else []
  }

  /**
   * Specification helper, not the source's writeCompressedBits (whose body
   * is not part of this model): the codes of the bytes of input, in order,
   * then the code of PSEUDO_EOF.
   */
  function WriteCompressedBits(table: Table, input: seq<Byte>): (r: seq<Bit>)
    requires |table| == ALPH_SIZE + 1
    ensures |r| >= |CodeOf(table, PSEUDO_EOF)|
  {
    if input == [] then CodeOf(table, PSEUDO_EOF)
    else CodeOf(table, input[0]) + WriteCompressedBits(table, input[1..])
  }

  /**
   * Reading a code from an internal node walks along it and stops on the
   * leaf at its end, one bit after the code's last bit, whatever follows.
   */
  lemma {:induction false} DescendCode(node: HuffNode, code: seq<Bit>, bits: seq<Bit>, pos: nat)
    requires node.Internal? && code != []
    requires Reach(node, code).Some? && Reach(node, code).value.Leaf?
    requires pos + |code| <= |bits| && bits[pos..pos + |code|] == code
    ensures Descend(node, bits, pos) == Some(Step(Reach(node, code).value, pos + |code|))
    decreases code
  {
    var rest := code[1..];
    assert code == [code[0]] + rest;
    SplitSlice(bits, pos, [code[0]], rest);
    assert bits[pos] == bits[pos..pos + 1][0];
    var child := Child(node, code[0]);
    if rest != [] {
      DescendCode(child, rest, bits, pos + 1);
    }
  }

  /** Symbol v has a non-empty code in table, and that code leads from root to a leaf holding v. */
  predicate Decodes(root: HuffNode, table: Table, v: int)
  {
    0 <= v < |table| && table[v].Some? && table[v].value != [] && ReachesLeaf(root, table[v].value, v)
  }

  /** Every symbol of input decodes. */
  predicate AllDecode(root: HuffNode, table: Table, input: seq<int>)
  {
    input == [] || (Decodes(root, table, input[0]) && AllDecode(root, table, input[1..]))
  }

  lemma {:induction false} AllDecodeIntro(root: HuffNode, table: Table, input: seq<int>)
    requires forall v :: v in input ==> Decodes(root, table, v)
    ensures AllDecode(root, table, input)
  {
    if input != [] {
      assert input[0] in input;
      assert forall v :: v in input[1..] ==> v in input;
      AllDecodeIntro(root, table, input[1..]);
    }
  }

  /** Below an internal root, every leaf symbol decodes through root's code table. */
  lemma CodeTableDecodes(root: HuffNode, v: int)
    requires root.Internal? && ValuesBelow(root, ALPH_SIZE + 1) && v in LeafSymbols(root)
    ensures Decodes(root, CodeTable(root), v)
  {
    ValuesBelowSymbols(root, ALPH_SIZE + 1, v);
    CodeTableSpec(root, v);
    CodesNonEmpty(root, v);
  }

  /**
   * Descend follows the tree path spelled by the remaining bits: it finds the
   * stream exhausted exactly when those bits lead from node to an internal
   * node, and otherwise it stops on the leaf that the bits it consumed lead to.
   */
  lemma {:induction false} DescendReach(node: HuffNode, bits: seq<Bit>, pos: nat)
    requires node.Internal? && pos <= |bits|
    ensures var reach := Reach(node, bits[pos..]);
      Descend(node, bits, pos).None? <==> reach.Some? && reach.value.Internal?
    ensures var r := Descend(node, bits, pos);
      r.Some? ==> Reach(node, bits[pos..r.value.next]) == Some(r.value.leaf)
    decreases node
  {
    if pos < |bits| {
      var child := Child(node, bits[pos]);
      assert bits[pos..][1..] == bits[pos + 1..];
      assert Reach(node, bits[pos..]) == Reach(child, bits[pos + 1..]);
      if child.Leaf? {
        if pos + 1 < |bits| {
          assert Reach(child, bits[pos + 1..]) == None;
        }
        assert bits[pos..pos + 1] == [bits[pos]];
        assert Reach(node, bits[pos..pos + 1]) == Reach(child, []);
      } else {
        DescendReach(child, bits, pos + 1);
        var r := Descend(child, bits, pos + 1);
        if r.Some? {
          assert bits[pos..r.value.next][1..] == bits[pos + 1..r.value.next];
        }
      }
    }
  }

  /** A walk that runs off the end of the stream ends decoding with the missing-PSEUDO_EOF error. */
  lemma DecodeExhausted(root: HuffNode, bits: seq<Bit>, pos: nat)
    requires root.Internal? && pos <= |bits|
    requires Descend(root, bits, pos) == None
    ensures DecodeBody(root, bits, pos) == Err(NoPseudoEof)
  {
  }

  /** A walk that ends on the PSEUDO_EOF leaf ends decoding, with nothing written. */
  lemma DecodeEof(root: HuffNode, bits: seq<Bit>, pos: nat, step: Step)
    requires root.Internal? && pos <= |bits|
    requires Descend(root, bits, pos) == Some(step) && step.leaf.value == PSEUDO_EOF
    ensures DecodeBody(root, bits, pos) == Ok(Decoded([], step.next))
  {
  }

  /** A walk that ends on a symbol other than PSEUDO_EOF writes that symbol's low 8 bits and starts over. */
  lemma DecodeSymbol(root: HuffNode, bits: seq<Bit>, pos: nat, step: Step)
    requires root.Internal? && pos <= |bits|
    requires Descend(root, bits, pos) == Some(step) && step.leaf.value != PSEUDO_EOF
    ensures DecodeBody(root, bits, pos) == Prepend([step.leaf.value % 256], DecodeBody(root, bits, step.next))
  {
  }

  /**
   * The stream holds, from pos, the code of each symbol of input in turn and
   * then the code of PSEUDO_EOF.
   */
  predicate BodyAt(table: Table, input: seq<Byte>, bits: seq<Bit>, pos: nat)
    requires |table| == ALPH_SIZE + 1
    decreases |input|
  {
    var c := CodeOf(table, if input == [] then PSEUDO_EOF else input[0]);
    pos + |c| <= |bits| && bits[pos..pos + |c|] == c &&
    (input != [] ==> BodyAt(table, input[1..], bits, pos + |c|))
  }

  lemma {:induction false} WrittenBodyAt(table: Table, input: seq<Byte>, bits: seq<Bit>, pos: nat)
    requires |table| == ALPH_SIZE + 1
    requires var w := WriteCompressedBits(table, input);
             pos + |w| <= |bits| && bits[pos..pos + |w|] == w
    ensures BodyAt(table, input, bits, pos)
    decreases |input|
  {
    if input != [] {
      var c, w' := CodeOf(table, input[0]), WriteCompressedBits(table, input[1..]);
      SplitSlice(bits, pos, c, w');
      WrittenBodyAt(table, input[1..], bits, pos + |c|);
    }
  }

  /**
   * Decoding the codes of input followed by the PSEUDO_EOF code gives back
   * input and stops right after the PSEUDO_EOF code, so nothing after it
   * (padding) is read.
   */
  lemma {:induction false} DecodeEncoded(root: HuffNode, table: Table, input: seq<Byte>, bits: seq<Bit>, pos: nat)
    requires root.Internal? && |table| == ALPH_SIZE + 1
    requires Decodes(root, table, PSEUDO_EOF) && AllDecode(root, table, input)
    requires BodyAt(table, input, bits, pos)
    ensures pos + |WriteCompressedBits(table, input)| <= |bits|
    ensures DecodeBody(root, bits, pos) == Ok(Decoded(input, pos + |WriteCompressedBits(table, input)|))
    decreases |input|
  {
    if input == [] {
      DecodeEofCode(root, table, bits, pos);
    } else {
      var x, rest := input[0], input[1..];
      var c := table[x].value;
      DecodeFirst(root, table, x, bits, pos);
      DecodeEncoded(root, table, rest, bits, pos + |c|);
      assert |WriteCompressedBits(table, input)| == |c| + |WriteCompressedBits(table, rest)|;
      assert [x] + rest == input;
    }
  }

  /** The PSEUDO_EOF code ends decoding right after it, with nothing written. */
  lemma DecodeEofCode(root: HuffNode, table: Table, bits: seq<Bit>, pos: nat)
    requires root.Internal? && Decodes(root, table, PSEUDO_EOF)
    requires var c := table[PSEUDO_EOF].value;
             pos + |c| <= |bits| && bits[pos..pos + |c|] == c
    ensures DecodeBody(root, bits, pos) == Ok(Decoded([], pos + |table[PSEUDO_EOF].value|))
  {
    var c := table[PSEUDO_EOF].value;
    DescendCode(root, c, bits, pos);
    DecodeEof(root, bits, pos, Step(Reach(root, c).value, pos + |c|));
  }

  /** The code of a byte x decodes to x, and decoding carries on after it. */
  lemma DecodeFirst(root: HuffNode, table: Table, x: Byte, bits: seq<Bit>, pos: nat)
    requires root.Internal? && Decodes(root, table, x)
    requires var c := table[x].value;
             pos + |c| <= |bits| && bits[pos..pos + |c|] == c
    ensures DecodeBody(root, bits, pos) == Prepend([x], DecodeBody(root, bits, pos + |table[x].value|))
  {
    var c := table[x].value;
    DescendCode(root, c, bits, pos);
    DecodeSymbol(root, bits, pos, Step(Reach(root, c).value, pos + |c|));
    LowByte(x);
  }

  /**
   * Body round trip with the code table the encoder builds from the same
   * tree, for any input whose bytes are all leaves of it.
   */
  lemma BodyRoundTrip(root: HuffNode, input: seq<Byte>, bits: seq<Bit>, pos: nat)
    requires root.Internal? && ValuesBelow(root, ALPH_SIZE + 1)
    requires PSEUDO_EOF in LeafSymbols(root)
    requires forall i :: 0 <= i < |input| ==> input[i] in LeafSymbols(root)
    requires var w := WriteCompressedBits(CodeTable(root), input);
             pos + |w| <= |bits| && bits[pos..pos + |w|] == w
    ensures DecodeBody(root, bits, pos) == Ok(Decoded(input, pos + |WriteCompressedBits(CodeTable(root), input)|))
  {
    var table := CodeTable(root);
    InputDecodes(root, input);
    WrittenBodyAt(table, input, bits, pos);
    DecodeEncoded(root, table, input, bits, pos);
  }

  /** PSEUDO_EOF and every byte of input decode through root's code table. */
  lemma InputDecodes(root: HuffNode, input: seq<Byte>)
    requires root.Internal? && ValuesBelow(root, ALPH_SIZE + 1)
    requires PSEUDO_EOF in LeafSymbols(root)
    requires forall i :: 0 <= i < |input| ==> input[i] in LeafSymbols(root)
    ensures Decodes(root, CodeTable(root), PSEUDO_EOF) && AllDecode(root, CodeTable(root), input)
  {
    var table := CodeTable(root);
    CodeTableDecodes(root, PSEUDO_EOF);
    forall v | v in input ensures Decodes(root, table, v) {
      CodeTableDecodes(root, v);
    }
    AllDecodeIntro(root, table, input);
  }

  /** bits and other agree on their first n bits. */
  predicate SamePrefix(bits: seq<Bit>, other: seq<Bit>, n: nat)
  {
    n <= |bits| && n <= |other| && forall p :: 0 <= p < n ==> bits[p] == other[p]
  }

  /** A walk reads nothing past the bit that ends it. */
  lemma {:induction false} DescendPrefix(node: HuffNode, bits: seq<Bit>, other: seq<Bit>, pos: nat)
    requires node.Internal? && pos <= |bits| && pos <= |other|
    requires Descend(node, bits, pos).Some? && SamePrefix(bits, other, Descend(node, bits, pos).value.next)
    ensures Descend(node, other, pos) == Descend(node, bits, pos)
    decreases node
  {
    assert other[pos] == bits[pos];
    var child := Child(node, bits[pos]);
    if child.Internal? {
      DescendPrefix(child, bits, other, pos + 1);
    }
  }

  /** A decoding that succeeds reads nothing past the end of the PSEUDO_EOF code. */
  lemma {:induction false} ResumePrefix(root: HuffNode, current: HuffNode, bits: seq<Bit>, other: seq<Bit>, pos: nat)
    requires root.Internal? && current.Internal? && pos <= |bits| && pos <= |other|
    requires Resume(root, current, bits, pos).Ok?
    requires SamePrefix(bits, other, Resume(root, current, bits, pos).value.next)
    ensures Resume(root, current, other, pos) == Resume(root, current, bits, pos)
    decreases |bits| - pos
  {
    var step := Descend(current, bits, pos).value;
    if step.leaf.value != PSEUDO_EOF {
      ResumePrefix(root, root, bits, other, step.next);
    }
    DescendPrefix(current, bits, other, pos);
  }

  /**
   * Whatever follows the PSEUDO_EOF code is never read: a stream that agrees
   * with bits up to where a successful decoding stopped decodes the same.
   */
  lemma BodyIgnoresTail(root: HuffNode, bits: seq<Bit>, other: seq<Bit>, pos: nat)
    requires root.Internal? && pos <= |bits| && pos <= |other|
    requires DecodeBody(root, bits, pos).Ok?
    requires SamePrefix(bits, other, DecodeBody(root, bits, pos).value.next)
    ensures DecodeBody(root, other, pos) == DecodeBody(root, bits, pos)
  {
    ResumePrefix(root, root, bits, other, pos);
  }

  /**
   * An encoded body cut off anywhere before the end of its PSEUDO_EOF code
   * ends in "bad input, no PSEUDO_EOF".
   */
  lemma TruncatedBody(root: HuffNode, input: seq<Byte>, bits: seq<Bit>, pos: nat, cut: nat)
    requires root.Internal? && ValuesBelow(root, ALPH_SIZE + 1)
    requires PSEUDO_EOF in LeafSymbols(root)
    requires forall i :: 0 <= i < |input| ==> input[i] in LeafSymbols(root)
    requires var w := WriteCompressedBits(CodeTable(root), input);
             pos + |w| <= |bits| && bits[pos..pos + |w|] == w
    requires pos <= cut < pos + |WriteCompressedBits(CodeTable(root), input)|
    ensures DecodeBody(root, bits[..cut], pos) == Err(NoPseudoEof)
  {
    BodyRoundTrip(root, input, bits, pos);
    var short := bits[..cut];
    if DecodeBody(root, short, pos).Ok? {
      ResumePrefix(root, root, short, bits, pos);
      assert false;
    }
  }
}
