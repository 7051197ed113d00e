/**
 * Code generation: `makeCodingsFromTree` and `codingHelper`. A code is the
 * sequence of choices on the way from the root to a leaf, 0 for left and 1
 * for right (the source builds it as a String of '0' and '1'); a slot with
 * no code is None (null in the source).
 */
module Codings {
  import opened Bits
  import opened HuffCore

  type Table = seq<Option<seq<Bit>>>

  /**
   * The table after codingHelper(t, encodings, path): slots of leaves met
   * later in the depth-first, left-first walk overwrite earlier ones.
   */
  function Assign(t: HuffNode, path: seq<Bit>, table: Table): (r: Table)
    requires ValuesBelow(t, |table|)
    ensures |r| == |table|
  {
    match t
    case Leaf(v, _) => table[v := Some(path)]
    case Internal(_, _, l, r) => Assign(r, path + [1], Assign(l, path + [0], table))
  }

  /** The table makeCodingsFromTree returns for root: fresh null slots, then the walk from the root. */
  function CodeTable(root: HuffNode): (r: Table)
    requires ValuesBelow(root, ALPH_SIZE + 1)
    ensures |r| == ALPH_SIZE + 1
  {
    Assign(root, [], seq(ALPH_SIZE + 1, _ => None))
  }

  /** The recursive walk that records, at each leaf, the path that led there. */
  method CodingHelper(root: HuffNode, encodings: array<Option<seq<Bit>>>, s: seq<Bit>)
    requires ValuesBelow(root, encodings.Length)
    modifies encodings
    ensures encodings[..] == Assign(root, s, old(encodings[..]))
    decreases root
  {
    if root.Leaf? {
      encodings[root.value] := Some(s);
      return;
    }
    CodingHelper(root.left, encodings, s + [0]);
    CodingHelper(root.right, encodings, s + [1]);
  }

  method MakeCodingsFromTree(root: HuffNode) returns (encodings: array<Option<seq<Bit>>>)
    requires ValuesBelow(root, ALPH_SIZE + 1)
    ensures fresh(encodings) && encodings[..] == CodeTable(root)
  {
    encodings := new Option<seq<Bit>>[ALPH_SIZE + 1](_ => None);
    assert encodings[..] == seq(ALPH_SIZE + 1, _ => None);
    CodingHelper(root, encodings, []);
  }

  /**
   * After the walk from t with prefix path, slot v holds path extended by a
   * way from t to a leaf holding v when t has such a leaf, and is untouched
   * otherwise.
   */
  lemma {:induction false} AssignSpec(t: HuffNode, path: seq<Bit>, table: Table, v: int)
    requires ValuesBelow(t, |table|) && 0 <= v < |table|
    ensures var r := Assign(t, path, table);
            if v in LeafSymbols(t) then
              r[v].Some? && IsPrefix(path, r[v].value) && ReachesLeaf(t, r[v].value[|path|..], v)
            else
              r[v] == table[v]
  {
    match t
    case Leaf(w, _) =>
      assert path[|path|..] == [];
    case Internal(_, _, l, rt) =>
      var mid := Assign(l, path + [0], table);
      AssignSpec(l, path + [0], table, v);
      AssignSpec(rt, path + [1], mid, v);
      var r := Assign(t, path, table);
      if v in LeafSymbols(rt) {
        var code := r[v].value;
        assert code[|path|..][1..] == code[|path| + 1..];
        assert code[..|path| + 1][..|path|] == code[..|path|];
      } else if v in LeafSymbols(l) {
        var code := r[v].value;
        assert code[|path|..][1..] == code[|path| + 1..];
        assert code[..|path| + 1][..|path|] == code[..|path|];
      }
  }

  /**
   * The code table has a code exactly for the leaf symbols of the tree, and
   * following a symbol's code from the root ends on a leaf holding it.
   */
  lemma CodeTableSpec(root: HuffNode, v: int)
    requires ValuesBelow(root, ALPH_SIZE + 1) && 0 <= v <= ALPH_SIZE
    ensures CodeTable(root)[v].Some? <==> v in LeafSymbols(root)
    ensures CodeTable(root)[v].Some? ==> ReachesLeaf(root, CodeTable(root)[v].value, v)
  {
    AssignSpec(root, [], seq(ALPH_SIZE + 1, _ => None), v);
    var code := CodeTable(root)[v];
    if code.Some? {
      assert code.value[0..] == code.value;
    }
  }

  /** No code in the table is a prefix of (or equal to) the code of another symbol. */
  lemma PrefixFree(root: HuffNode, v: int, w: int)
    requires ValuesBelow(root, ALPH_SIZE + 1) && 0 <= v <= ALPH_SIZE && 0 <= w <= ALPH_SIZE && v != w
    requires CodeTable(root)[v].Some? && CodeTable(root)[w].Some?
    ensures !IsPrefix(CodeTable(root)[v].value, CodeTable(root)[w].value)
  {
    var cv, cw := CodeTable(root)[v].value, CodeTable(root)[w].value;
    CodeTableSpec(root, v);
    CodeTableSpec(root, w);
    assert cw[..|cw|] == cw;
    if IsPrefix(cv, cw) && |cv| < |cw| {
      LeafEndsPaths(root, cv, cw);
    }
  }

  /** Below an internal root every code has at least one bit. */
  lemma CodesNonEmpty(root: HuffNode, v: int)
    requires ValuesBelow(root, ALPH_SIZE + 1) && 0 <= v <= ALPH_SIZE && root.Internal?
    requires CodeTable(root)[v].Some?
    ensures CodeTable(root)[v].value != []
  {
    CodeTableSpec(root, v);
  }
}
