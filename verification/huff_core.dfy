/**
 * Vocabulary shared by every part of HuffProcessor: its constants, the
 * Huffman tree node, and the exceptions decompression can end in.
 */
module HuffCore {
  import opened Bits

  const BITS_PER_WORD: nat := 8
  const BITS_PER_INT: nat := 32
  /** 1 << BITS_PER_WORD: the number of literal byte values. */
  const ALPH_SIZE: nat := 256
  /** The end-of-stream symbol, one past the largest byte value. */
  const PSEUDO_EOF: nat := ALPH_SIZE
  /** 0xface8200 as a Java int: the literal has its sign bit set. */
  const HUFF_NUMBER: int := 0xface8200 - 0x1_0000_0000
  /** HUFF_NUMBER | 1; the low bit of HUFF_NUMBER is 0, so the OR adds one. */
  const HUFF_TREE: int := HUFF_NUMBER + 1

  /**
   * A HuffNode. A leaf has both children null in the source; an internal
   * node has both set. No code path builds a node with one child, so the
   * two cases are the two constructors.
   */
  datatype HuffNode =
    | Leaf(value: int, weight: int)
    | Internal(value: int, weight: int, left: HuffNode, right: HuffNode)

  /** The ways decompression stops abnormally. */
  datatype HuffError =
    | IllegalHeader(word: int)  // first word is not HUFF_TREE
    | CorruptTree               // header ran out at a marker bit
    | NoPseudoEof               // body ran out before the PSEUDO_EOF leaf
    | NullChild                 // a child of a leaf root was dereferenced (NullPointerException)

  datatype Result<T> = Ok(value: T) | Err(error: HuffError)

  datatype Option<T> = None | Some(value: T)

  /** The child that bit b selects: 0 is left, 1 is right. */
  function Child(t: HuffNode, b: Bit): (c: HuffNode)
    requires t.Internal?
    ensures c < t
  {
    if b == 0 then t.left else t.right
  }

  /** Leaf values from left to right. */
  function LeafSymbols(t: HuffNode): seq<int>
  {
    match t
    case Leaf(v, _) => [v]
    case Internal(_, _, l, r) => LeafSymbols(l) + LeafSymbols(r)
  }

  /** Every leaf value lies in [0, n). */
  predicate ValuesBelow(t: HuffNode, n: int)
  {
    match t
    case Leaf(v, _) => 0 <= v < n
    case Internal(_, _, l, r) => ValuesBelow(l, n) && ValuesBelow(r, n)
  }

  /** The node reached by following path from t; None when the path runs past a leaf. */
  function Reach(t: HuffNode, path: seq<Bit>): Option<HuffNode>
    decreases |path|
  {
    if path == [] then Some(t)
    else if t.Leaf? then None
    else Reach(Child(t, path[0]), path[1..])
  }

  /** Following path from t ends exactly on a leaf holding v. */
  predicate ReachesLeaf(t: HuffNode, path: seq<Bit>, v: int)
  {
    var n := Reach(t, path);
    n.Some? && n.value.Leaf? && n.value.value == v
  }

  predicate IsPrefix(a: seq<Bit>, b: seq<Bit>)
  {
    |a| <= |b| && b[..|a|] == a
  }

  /** A leaf has at least one leaf symbol, an internal node at least two. */
  lemma {:induction false} LeafCount(t: HuffNode)
    ensures |LeafSymbols(t)| >= 1
    ensures t.Internal? ==> |LeafSymbols(t)| >= 2
  {
    if t.Internal? {
      LeafCount(t.left);
      LeafCount(t.right);
    }
  }

  lemma {:induction false} ValuesBelowSymbols(t: HuffNode, n: int, v: int)
    requires ValuesBelow(t, n) && v in LeafSymbols(t)
    ensures 0 <= v < n
  {
    if t.Internal? {
      if v in LeafSymbols(t.left) {
        ValuesBelowSymbols(t.left, n, v);
      } else {
        ValuesBelowSymbols(t.right, n, v);
      }
    }
  }

  /** A bound on the leaf values holds for every larger bound too. */
  lemma {:induction false} ValuesBelowMono(t: HuffNode, n: int, m: int)
    requires ValuesBelow(t, n) && n <= m
    ensures ValuesBelow(t, m)
  {
    if t.Internal? {
      ValuesBelowMono(t.left, n, m);
      ValuesBelowMono(t.right, n, m);
    }
  }

  /**
   * Paths that end on a leaf are never proper prefixes of paths that can be
   * followed: past a leaf there is nothing to descend into.
   */
  lemma {:induction false} LeafEndsPaths(t: HuffNode, a: seq<Bit>, b: seq<Bit>)
    requires Reach(t, a).Some? && Reach(t, a).value.Leaf?
    requires IsPrefix(a, b) && |a| < |b|
    ensures Reach(t, b) == None
  {
    if a != [] {
      assert b[0] == a[0];
      assert IsPrefix(a[1..], b[1..]) by { assert b[1..][..|a| - 1] == b[..|a|][1..]; }
      LeafEndsPaths(Child(t, a[0]), a[1..], b[1..]);
    }
  }
}
