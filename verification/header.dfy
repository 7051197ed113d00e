/**
 * The tree header: `readTreeHeader` parses a pre-order description of the
 * tree, 0 for an internal node followed by its left and right subtrees, 1
 * for a leaf followed by its symbol in BITS_PER_WORD + 1 = 9 bits.
 */
module Header {
  import opened Bits
  import opened HuffCore

  /** A parsed tree and the stream position just after its description. */
  datatype Parsed = Parsed(tree: HuffNode, next: nat)

  /** The tree as the header carries it: shape and leaf symbols, every weight 0. */
  function Unweighted(t: HuffNode): HuffNode
  {
    match t
    case Leaf(v, _) => Leaf(v, 0)
    case Internal(_, _, l, r) => Internal(0, 0, Unweighted(l), Unweighted(r))
  }

  /**
   * readTreeHeader from position pos. A marker read that finds the stream
   * exhausted is "the tree is corrupt"; the 9-bit symbol read is not checked,
   * so a header cut inside a symbol gives a leaf holding -1.
   */
  function ReadTreeHeader(bits: seq<Bit>, pos: nat): (r: Result<Parsed>)
    requires pos <= |bits|
    ensures r.Ok? ==> pos < r.value.next <= |bits|
    ensures r.Err? ==> r.error == CorruptTree
    decreases |bits| - pos
  {
    var marker := ReadBit(bits, pos);
    if marker.value == -1 then Err(CorruptTree)
    else if marker.value == 0 then
      var left := ReadTreeHeader(bits, marker.next);
      if left.Err? then left
      else
        var right := ReadTreeHeader(bits, left.value.next);
        if right.Err? then right
        else Ok(Parsed(Internal(0, 0, left.value.tree, right.value.tree), right.value.next))
    else
      var symbol := ReadBits(bits, marker.next, BITS_PER_WORD + 1);
      Ok(Parsed(Leaf(symbol.value, 0), symbol.next))
  }

  /**
   * Specification helper, not the source's writeHeader (whose body is not
   * part of this model): the pre-order description that readTreeHeader
   * reads back, with each symbol written in 9 bits.
   */
  function WriteHeader(t: HuffNode): (r: seq<Bit>)
    ensures |r| >= 1
  {
    match t
    case Leaf(v, _) => [1] + ToBits(if v < 0 then 0 else v, BITS_PER_WORD + 1)
    case Internal(_, _, l, r) => [0] + WriteHeader(l) + WriteHeader(r)
  }

  /** A 1 marker: a leaf whose symbol is the next 9 bits, read as an unsigned number. */
  lemma ParseLeaf(bits: seq<Bit>, pos: nat)
    requires pos + 10 <= |bits| && bits[pos] == 1
    ensures ReadTreeHeader(bits, pos) == Ok(Parsed(Leaf(BitsValue(bits[pos + 1..pos + 10]), 0), pos + 10))
  {
    ReadNarrow(bits, pos + 1, 9);
  }

  /** A 0 marker: an internal node (value 0, weight 0) over the two subtrees parsed next. */
  lemma ParseInternal(bits: seq<Bit>, pos: nat, left: HuffNode, mid: nat, right: HuffNode, end: nat)
    requires pos < |bits| && bits[pos] == 0
    requires ReadTreeHeader(bits, pos + 1) == Ok(Parsed(left, mid))
    requires mid <= |bits| && ReadTreeHeader(bits, mid) == Ok(Parsed(right, end))
    ensures ReadTreeHeader(bits, pos) == Ok(Parsed(Internal(0, 0, left, right), end))
  {
  }

  /** A marker read at the end of the stream: the tree is corrupt. */
  lemma ParseExhausted(bits: seq<Bit>)
    ensures ReadTreeHeader(bits, |bits|) == Err(CorruptTree)
  {
  }

  /** The stream holds, from pos, a description of t's shape and leaf symbols. */
  predicate HeaderAt(bits: seq<Bit>, pos: nat, t: HuffNode)
    decreases t
  {
    match t
    case Leaf(v, _) =>
      pos + 10 <= |bits| && bits[pos] == 1 && ReadBits(bits, pos + 1, BITS_PER_WORD + 1).value == v
    case Internal(_, _, l, r) =>
      pos < |bits| && bits[pos] == 0 && HeaderAt(bits, pos + 1, l) && HeaderAt(bits, pos + 1 + |WriteHeader(l)|, r)
  }

  /** Parsing a description of t gives t's shape and symbols, ending just after it. */
  lemma {:induction false} ParseAt(t: HuffNode, bits: seq<Bit>, pos: nat)
    requires HeaderAt(bits, pos, t)
    ensures pos + |WriteHeader(t)| <= |bits|
    ensures ReadTreeHeader(bits, pos) == Ok(Parsed(Unweighted(t), pos + |WriteHeader(t)|))
  {
    if t.Internal? {
      var mid := pos + 1 + |WriteHeader(t.left)|;
      HeaderAtParts(bits, pos, t);
      ParseAt(t.left, bits, pos + 1);
      ParseAt(t.right, bits, mid);
      ParseNode(t, bits, pos, mid);
    }
  }

  /** The description of an internal node: a 0 marker, then its left and right subtrees' descriptions. */
  lemma HeaderAtParts(bits: seq<Bit>, pos: nat, t: HuffNode)
    requires t.Internal? && HeaderAt(bits, pos, t)
    ensures pos < |bits| && bits[pos] == 0
    ensures HeaderAt(bits, pos + 1, t.left) && HeaderAt(bits, pos + 1 + |WriteHeader(t.left)|, t.right)
  {
  }

  /** The converse: a 0 marker followed by the descriptions of both subtrees describes the node. */
  lemma HeaderAtJoin(bits: seq<Bit>, pos: nat, t: HuffNode)
    requires t.Internal? && pos < |bits| && bits[pos] == 0
    requires HeaderAt(bits, pos + 1, t.left) && HeaderAt(bits, pos + 1 + |WriteHeader(t.left)|, t.right)
    ensures HeaderAt(bits, pos, t)
  {
  }

  /** Both subtrees of t parsed in turn after a 0 marker: t parsed, ending after its description. */
  lemma ParseNode(t: HuffNode, bits: seq<Bit>, pos: nat, mid: nat)
    requires t.Internal? && pos < |bits| && bits[pos] == 0 && mid == pos + 1 + |WriteHeader(t.left)|
    requires mid <= |bits| && ReadTreeHeader(bits, pos + 1) == Ok(Parsed(Unweighted(t.left), mid))
    requires ReadTreeHeader(bits, mid) == Ok(Parsed(Unweighted(t.right), mid + |WriteHeader(t.right)|))
    ensures pos + |WriteHeader(t)| <= |bits|
    ensures ReadTreeHeader(bits, pos) == Ok(Parsed(Unweighted(t), pos + |WriteHeader(t)|))
  {
    var end := mid + |WriteHeader(t.right)|;
    assert end == pos + |WriteHeader(t)|;
    ParseInternal(bits, pos, Unweighted(t.left), mid, Unweighted(t.right), end);
  }

  /** The three stretches of an internal node's written description. */
  lemma InternalSlices(bits: seq<Bit>, pos: nat, t: HuffNode)
    requires t.Internal?
    requires pos + |WriteHeader(t)| <= |bits| && bits[pos..pos + |WriteHeader(t)|] == WriteHeader(t)
    ensures pos < |bits| && bits[pos] == 0
    ensures var hl := WriteHeader(t.left);
            pos + 1 + |hl| <= |bits| && bits[pos + 1..pos + 1 + |hl|] == hl
    ensures var hl, hr := WriteHeader(t.left), WriteHeader(t.right);
            pos + 1 + |hl| + |hr| <= |bits| && bits[pos + 1 + |hl|..pos + 1 + |hl| + |hr|] == hr
  {
    var hl, hr := WriteHeader(t.left), WriteHeader(t.right);
    SplitSlice(bits, pos, [0] + hl, hr);
    SplitSlice(bits, pos, [0], hl);
    assert bits[pos] == bits[pos..pos + 1][0];
  }

  /** A written header is a description of its tree, provided every symbol fits in 9 bits. */
  lemma {:induction false} WrittenHeaderAt(t: HuffNode, bits: seq<Bit>, pos: nat)
    requires ValuesBelow(t, 512)
    requires pos + |WriteHeader(t)| <= |bits| && bits[pos..pos + |WriteHeader(t)|] == WriteHeader(t)
    ensures HeaderAt(bits, pos, t)
  {
    if t.Leaf? {
      WrittenLeafAt(t, bits, pos);
    } else {
      InternalSlices(bits, pos, t);
      WrittenHeaderAt(t.left, bits, pos + 1);
      WrittenHeaderAt(t.right, bits, pos + 1 + |WriteHeader(t.left)|);
      HeaderAtJoin(bits, pos, t);
    }
  }

  /** A written leaf is a 1 marker followed by its symbol in 9 bits. */
  lemma WrittenLeafAt(t: HuffNode, bits: seq<Bit>, pos: nat)
    requires t.Leaf? && 0 <= t.value < 512
    requires pos + |WriteHeader(t)| <= |bits| && bits[pos..pos + |WriteHeader(t)|] == WriteHeader(t)
    ensures HeaderAt(bits, pos, t)
  {
    var code := ToBits(t.value, 9);
    assert WriteHeader(t) == [1] + code;
    SplitSlice(bits, pos, [1], code);
    assert bits[pos] == bits[pos..pos + 1][0];
    ReadNarrow(bits, pos + 1, 9);
    Pow2At9();
    ValueOfToBits(t.value, 9);
  }

  /**
   * Header round trip: whatever follows it, a written header parses back to
   * the same tree with all weights 0, ending exactly where the header ends.
   */
  lemma HeaderRoundTrip(t: HuffNode, bits: seq<Bit>, pos: nat)
    requires ValuesBelow(t, 512)
    requires pos + |WriteHeader(t)| <= |bits| && bits[pos..pos + |WriteHeader(t)|] == WriteHeader(t)
    ensures ReadTreeHeader(bits, pos) == Ok(Parsed(Unweighted(t), pos + |WriteHeader(t)|))
  {
    WrittenHeaderAt(t, bits, pos);
    ParseAt(t, bits, pos);
  }
}
