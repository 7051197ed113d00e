/**
 * Tree construction: `makeTreeFromCounts`. The java.util.PriorityQueue is
 * modelled as a sequence of nodes from which `remove()` takes some node of
 * least weight; which of several equally light nodes it takes is left open.
 */
module TreeBuilder {
  import opened Bits
  import opened HuffCore

  /** The indices with a positive count, in increasing order: one leaf each. */
  function Present(counts: seq<int>): seq<int>
  {
    if counts == [] then []
    else Present(counts[..|counts| - 1]) + (if counts[|counts| - 1] > 0 then [|counts| - 1] else [])
  }

  /** The sum of the positive counts. */
  function PositiveTotal(counts: seq<int>): int
  {
    if counts == [] then 0
    else PositiveTotal(counts[..|counts| - 1]) + (if counts[|counts| - 1] > 0 then counts[|counts| - 1] else 0)
  }

  /**
   * Present lists exactly the indices with a positive count, each once.
   */
  lemma {:induction false} PresentSpec(counts: seq<int>, v: int)
    ensures v in Present(counts) <==> 0 <= v < |counts| && counts[v] > 0
    ensures multiset(Present(counts))[v] <= 1
  {
    if counts != [] {
      var n := |counts| - 1;
      var init, last := counts[..n], if counts[n] > 0 then [n] else [];
      assert Present(counts) == Present(init) + last;
      assert multiset(Present(counts)) == multiset(Present(init)) + multiset(last);
      PresentSpec(init, v);
      PresentSpec(init, n);
      if 0 <= v < n {
        assert counts[v] == init[v];
      }
    }
  }

  /**
   * What a node made by makeTreeFromCounts looks like: each leaf carries a
   * symbol with a positive count and that count as its weight; each internal
   * node has value 0 and the sum of its children's weights.
   */
  predicate BuiltFrom(t: HuffNode, counts: seq<int>)
  {
    match t
    case Leaf(v, w) => 0 <= v < |counts| && w == counts[v] && w > 0
    case Internal(v, w, l, r) =>
      v == 0 && w == l.weight + r.weight && BuiltFrom(l, counts) && BuiltFrom(r, counts)
  }

  /** Every leaf of a tree built from counts holds an index of counts. */
  lemma {:induction false} BuiltFromBelow(t: HuffNode, counts: seq<int>)
    requires BuiltFrom(t, counts)
    ensures ValuesBelow(t, |counts|)
  {
    if t.Internal? {
      BuiltFromBelow(t.left, counts);
      BuiltFromBelow(t.right, counts);
    }
  }

  /** The first node removed (the left child) is never heavier than the second. */
  predicate MergedInOrder(t: HuffNode)
  {
    match t
    case Leaf(_, _) => true
    case Internal(_, _, l, r) => l.weight <= r.weight && MergedInOrder(l) && MergedInOrder(r)
  }

  /** All leaf symbols of the nodes in the queue. */
  function PoolSymbols(pool: seq<HuffNode>): multiset<int>
  {
    if pool == [] then multiset{}
    else PoolSymbols(pool[..|pool| - 1]) + multiset(LeafSymbols(pool[|pool| - 1]))
  }

  /** The total weight of the nodes in the queue. */
  function PoolWeight(pool: seq<HuffNode>): int
  {
    if pool == [] then 0 else PoolWeight(pool[..|pool| - 1]) + pool[|pool| - 1].weight
  }

  lemma {:induction false} SymbolsConcat(a: seq<HuffNode>, b: seq<HuffNode>)
    ensures PoolSymbols(a + b) == PoolSymbols(a) + PoolSymbols(b)
  {
    if b == [] {
      assert a + b == a;
    } else {
      var init := b[..|b| - 1];
      assert (a + b)[..|a + b| - 1] == a + init;
      assert (a + b)[|a + b| - 1] == b[|b| - 1];
      SymbolsConcat(a, init);
    }
  }

  lemma {:induction false} WeightConcat(a: seq<HuffNode>, b: seq<HuffNode>)
    ensures PoolWeight(a + b) == PoolWeight(a) + PoolWeight(b)
  {
    if b == [] {
      assert a + b == a;
    } else {
      var init := b[..|b| - 1];
      assert (a + b)[..|a + b| - 1] == a + init;
      assert (a + b)[|a + b| - 1] == b[|b| - 1];
      WeightConcat(a, init);
    }
  }

  lemma SymbolsAppend(pool: seq<HuffNode>, t: HuffNode)
    ensures PoolSymbols(pool + [t]) == PoolSymbols(pool) + multiset(LeafSymbols(t))
  {
    assert (pool + [t])[..|pool|] == pool;
  }

  lemma WeightAppend(pool: seq<HuffNode>, t: HuffNode)
    ensures PoolWeight(pool + [t]) == PoolWeight(pool) + t.weight
  {
    assert (pool + [t])[..|pool|] == pool;
  }

  /** A queue is what comes before index k, the node at k, and what comes after. */
  lemma Around(pool: seq<HuffNode>, k: nat)
    requires k < |pool|
    ensures pool == pool[..k] + ([pool[k]] + pool[k + 1..])
  {
    assert pool[k..] == [pool[k]] + pool[k + 1..];
    assert pool == pool[..k] + pool[k..];
  }

  /** Taking out the node at index k leaves the queue less one occurrence of it. */
  lemma MultisetRemove(pool: seq<HuffNode>, k: nat)
    requires k < |pool|
    ensures multiset(pool[..k] + pool[k + 1..]) + multiset{pool[k]} == multiset(pool)
  {
    Around(pool, k);
  }

  /** Taking out the node at index k takes its symbols out of the queue's. */
  lemma SymbolsRemove(pool: seq<HuffNode>, k: nat)
    requires k < |pool|
    ensures PoolSymbols(pool) == PoolSymbols(pool[..k] + pool[k + 1..]) + multiset(LeafSymbols(pool[k]))
  {
    var before, after := pool[..k], pool[k + 1..];
    Around(pool, k);
    SymbolsConcat(before, [pool[k]] + after);
    SymbolsConcat([pool[k]], after);
    SymbolsConcat(before, after);
    SymbolsAppend([], pool[k]);
  }

  /** Taking out the node at index k takes its weight out of the queue's. */
  lemma WeightRemove(pool: seq<HuffNode>, k: nat)
    requires k < |pool|
    ensures PoolWeight(pool) == PoolWeight(pool[..k] + pool[k + 1..]) + pool[k].weight
  {
    var before, after := pool[..k], pool[k + 1..];
    Around(pool, k);
    WeightConcat(before, [pool[k]] + after);
    WeightConcat([pool[k]], after);
    WeightConcat(before, after);
    WeightAppend([], pool[k]);
  }

  /** The index of some node of least weight (used only to show one exists). */
  ghost function MinIndex(pool: seq<HuffNode>): (k: nat)
    requires pool != []
    ensures k < |pool| && forall j :: 0 <= j < |pool| ==> pool[k].weight <= pool[j].weight
  {
    if |pool| == 1 then 0
    else
      var k := MinIndex(pool[..|pool| - 1]);
      if pool[k].weight <= pool[|pool| - 1].weight then k else |pool| - 1
  }

  /** `pq.remove()`: takes out some node of least weight. */
  method RemoveMin(pool: seq<HuffNode>) returns (m: HuffNode, rest: seq<HuffNode>)
    requires pool != []
    ensures m in pool && |rest| == |pool| - 1
    ensures forall t :: t in pool ==> m.weight <= t.weight
    ensures forall t :: t in rest ==> t in pool
    ensures multiset(rest) + multiset{m} == multiset(pool)
    ensures PoolSymbols(pool) == PoolSymbols(rest) + multiset(LeafSymbols(m))
    ensures PoolWeight(pool) == PoolWeight(rest) + m.weight
  {
    ghost var least := MinIndex(pool);
    var k :| 0 <= k < |pool| && forall j :: 0 <= j < |pool| ==> pool[k].weight <= pool[j].weight;
    m, rest := pool[k], pool[..k] + pool[k + 1..];
    MultisetRemove(pool, k);
    SymbolsRemove(pool, k);
    WeightRemove(pool, k);
  }

  /** Joining the two removed nodes keeps the symbols of the queue. */
  lemma MergeSymbols(pool: seq<HuffNode>, left: HuffNode, rest1: seq<HuffNode>, right: HuffNode, rest2: seq<HuffNode>)
    requires PoolSymbols(pool) == PoolSymbols(rest1) + multiset(LeafSymbols(left))
    requires PoolSymbols(rest1) == PoolSymbols(rest2) + multiset(LeafSymbols(right))
    ensures PoolSymbols(rest2 + [Internal(0, left.weight + right.weight, left, right)]) == PoolSymbols(pool)
  {
    var t := Internal(0, left.weight + right.weight, left, right);
    SymbolsAppend(rest2, t);
    assert LeafSymbols(t) == LeafSymbols(left) + LeafSymbols(right);
    SumRegroup(PoolSymbols(pool), PoolSymbols(rest1), PoolSymbols(rest2),
               multiset(LeafSymbols(left)), multiset(LeafSymbols(right)), multiset(LeafSymbols(t)));
  }

  lemma SumRegroup(whole: multiset<int>, part: multiset<int>, rest: multiset<int>,
                   a: multiset<int>, b: multiset<int>, joined: multiset<int>)
    requires whole == part + a && part == rest + b && joined == a + b
    ensures rest + joined == whole
  {
  }

  /** Joining the two removed nodes keeps the total weight of the queue. */
  lemma MergeWeight(pool: seq<HuffNode>, left: HuffNode, rest1: seq<HuffNode>, right: HuffNode, rest2: seq<HuffNode>)
    requires PoolWeight(pool) == PoolWeight(rest1) + left.weight
    requires PoolWeight(rest1) == PoolWeight(rest2) + right.weight
    ensures PoolWeight(rest2 + [Internal(0, left.weight + right.weight, left, right)]) == PoolWeight(pool)
  {
    WeightAppend(rest2, Internal(0, left.weight + right.weight, left, right));
  }

  /**
   * Joining the two nodes taken out by two removals makes a node of the
   * shape BuiltFrom and MergedInOrder describe.
   */
  lemma MergeShape(pool: seq<HuffNode>, left: HuffNode, rest1: seq<HuffNode>, right: HuffNode, rest2: seq<HuffNode>,
                   counts: seq<int>)
    requires forall t :: t in pool ==> BuiltFrom(t, counts) && MergedInOrder(t)
    requires left in pool && forall t :: t in pool ==> left.weight <= t.weight
    requires right in rest1 && forall t :: t in rest1 ==> t in pool
    requires forall t :: t in rest2 ==> t in rest1
    ensures forall u :: u in rest2 + [Internal(0, left.weight + right.weight, left, right)] ==>
              BuiltFrom(u, counts) && MergedInOrder(u)
  {
    var t := Internal(0, left.weight + right.weight, left, right);
    assert right in pool;
    assert BuiltFrom(t, counts) && MergedInOrder(t);
    forall u | u in rest2 + [t] ensures BuiltFrom(u, counts) && MergedInOrder(u) {
      if u != t {
        assert u in rest2;
      }
    }
  }

  /** The leaves the first loop queues: one per positive count, in index order. */
  function Leaves(counts: seq<int>): seq<HuffNode>
  {
    if counts == [] then []
    else
      var i := |counts| - 1;
      Leaves(counts[..i]) + (if counts[i] > 0 then [Leaf(i, counts[i])] else [])
  }

  lemma LeavesStep(counts: seq<int>, i: nat)
    requires i < |counts|
    ensures Leaves(counts[..i + 1]) == Leaves(counts[..i]) + (if counts[i] > 0 then [Leaf(i, counts[i])] else [])
  {
    assert counts[..i + 1][..i] == counts[..i];
  }

  /** A run of slots without a positive count queues no leaf. */
  lemma {:induction false} LeavesSkip(counts: seq<int>, i: nat, j: nat)
    requires i <= j <= |counts|
    requires forall k :: i <= k < j ==> counts[k] <= 0
    ensures Leaves(counts[..j]) == Leaves(counts[..i])
    decreases j
  {
    if i < j {
      LeavesSkip(counts, i, j - 1);
      LeavesStep(counts, j - 1);
    }
  }

  /** The queued leaves are built from the counts. */
  lemma {:induction false} LeavesBuilt(counts: seq<int>)
    ensures forall t :: t in Leaves(counts) ==> BuiltFrom(t, counts) && MergedInOrder(t)
  {
    if counts != [] {
      var i := |counts| - 1;
      var init := counts[..i];
      LeavesBuilt(init);
      forall t | t in Leaves(counts) ensures BuiltFrom(t, counts) && MergedInOrder(t) {
        if t in Leaves(init) {
          BuiltFromPrefix(t, init, counts);
        }
      }
    }
  }

  /** The queued leaves hold the symbols with a positive count. */
  lemma {:induction false} LeavesSymbols(counts: seq<int>)
    ensures PoolSymbols(Leaves(counts)) == multiset(Present(counts))
  {
    if counts != [] {
      var i := |counts| - 1;
      var init := counts[..i];
      LeavesSymbols(init);
      var added := if counts[i] > 0 then [Leaf(i, counts[i])] else [];
      SymbolsConcat(Leaves(init), added);
      if counts[i] > 0 {
        SymbolsAppend([], Leaf(i, counts[i]));
      }
    }
  }

  /** The queued leaves weigh the total of the positive counts. */
  lemma {:induction false} LeavesWeight(counts: seq<int>)
    ensures PoolWeight(Leaves(counts)) == PositiveTotal(counts)
  {
    if counts != [] {
      var i := |counts| - 1;
      var init := counts[..i];
      LeavesWeight(init);
      var added := if counts[i] > 0 then [Leaf(i, counts[i])] else [];
      WeightConcat(Leaves(init), added);
      if counts[i] > 0 {
        WeightAppend([], Leaf(i, counts[i]));
      }
    }
  }

  /** A tree built from a prefix of the counts is built from the counts. */
  lemma {:induction false} BuiltFromPrefix(t: HuffNode, init: seq<int>, counts: seq<int>)
    requires BuiltFrom(t, init) && init <= counts
    ensures BuiltFrom(t, counts)
  {
    if t.Internal? {
      BuiltFromPrefix(t.left, init, counts);
      BuiltFromPrefix(t.right, init, counts);
    }
  }

  /** m is a lightest node of pool, and rest is pool less that one occurrence of m. */
  predicate LeastRemoved(pool: seq<HuffNode>, m: HuffNode, rest: seq<HuffNode>)
  {
    && multiset(rest) + multiset{m} == multiset(pool)
    && forall t :: t in pool ==> m.weight <= t.weight
  }

  /**
   * One round of the merge loop: the node the first `pq.remove()` takes
   * out and the queue it leaves, then the same for the second.
   */
  datatype Round = Round(left: HuffNode, rest1: seq<HuffNode>, right: HuffNode, rest2: seq<HuffNode>)

  /** The node a round queues: value 0, the two weights summed, the first node on the left. */
  function Joined(step: Round): HuffNode
  {
    Internal(0, step.left.weight + step.right.weight, step.left, step.right)
  }

  /** The queue after a round. */
  function After(step: Round): seq<HuffNode>
  {
    step.rest2 + [Joined(step)]
  }

  /** step is a round the loop can make on pool: two removals of a lightest node. */
  predicate Greedy(pool: seq<HuffNode>, step: Round)
  {
    LeastRemoved(pool, step.left, step.rest1) && LeastRemoved(step.rest1, step.right, step.rest2)
  }

  /**
   * The merge loop, started on the queue pool, can make the rounds in
   * order, and leaves the queue pq.
   */
  predicate MergeRounds(pool: seq<HuffNode>, rounds: seq<Round>, pq: seq<HuffNode>)
    decreases rounds
  {
    if rounds == [] then pq == pool
    else Greedy(pool, rounds[0]) && MergeRounds(After(rounds[0]), rounds[1..], pq)
  }

  /**
   * r is a tree the merge loop can end with when it starts from the queue
   * pool: the rounds leave r alone in the queue.
   */
  predicate HuffmanRun(pool: seq<HuffNode>, rounds: seq<Round>, r: HuffNode)
  {
    MergeRounds(pool, rounds, [r])
  }

  /** One more round the loop can make extends the rounds made so far. */
  lemma {:induction false} RoundsAppend(pool: seq<HuffNode>, rounds: seq<Round>, pq: seq<HuffNode>, step: Round)
    requires MergeRounds(pool, rounds, pq) && Greedy(pq, step)
    ensures MergeRounds(pool, rounds + [step], After(step))
    decreases rounds
  {
    var all := rounds + [step];
    if rounds == [] {
      assert all[1..] == [];
      MergeRoundsCons(pool, all, After(step));
    } else {
      RoundsAppend(After(rounds[0]), rounds[1..], pq, step);
      assert all[0] == rounds[0] && all[1..] == rounds[1..] + [step];
      MergeRoundsCons(pool, all, After(step));
    }
  }

  /** A first round the loop can make, then the rest from the queue it leaves. */
  lemma MergeRoundsCons(pool: seq<HuffNode>, rounds: seq<Round>, pq: seq<HuffNode>)
    requires rounds != [] && Greedy(pool, rounds[0]) && MergeRounds(After(rounds[0]), rounds[1..], pq)
    ensures MergeRounds(pool, rounds, pq)
  {
  }

  /**
   * The loop body as a round: two removals of a lightest node, then the
   * joined node queued, extend the rounds made so far by one.
   */
  lemma MergeStep(pool: seq<HuffNode>, rounds: seq<Round>, pq: seq<HuffNode>,
                  left: HuffNode, rest1: seq<HuffNode>, right: HuffNode, rest2: seq<HuffNode>)
    requires MergeRounds(pool, rounds, pq)
    requires LeastRemoved(pq, left, rest1) && LeastRemoved(rest1, right, rest2)
    ensures MergeRounds(pool, rounds + [Round(left, rest1, right, rest2)],
                        rest2 + [Internal(0, left.weight + right.weight, left, right)])
  {
    var step := Round(left, rest1, right, rest2);
    assert Joined(step) == Internal(0, left.weight + right.weight, left, right);
    assert After(step) == rest2 + [Joined(step)];
    RoundsAppend(pool, rounds, pq, step);
  }

  /** Taking one node out leaves one node fewer, and the node was queued. */
  lemma LeastRemovedSize(pool: seq<HuffNode>, m: HuffNode, rest: seq<HuffNode>)
    requires LeastRemoved(pool, m, rest)
    ensures |rest| + 1 == |pool| && m in pool
  {
    assert |multiset(rest) + multiset{m}| == |multiset(pool)|;
    assert m in multiset(pool);
  }

  /** On a queue of two or more nodes a run starts with a round, and the rest is a run from After it. */
  lemma RunStart(pool: seq<HuffNode>, rounds: seq<Round>, r: HuffNode)
    requires |pool| > 1 && HuffmanRun(pool, rounds, r)
    ensures rounds != [] && Greedy(pool, rounds[0]) && HuffmanRun(After(rounds[0]), rounds[1..], r)
  {
  }

  /** On a queue of at most one node the loop makes no round. */
  lemma NoRound(pool: seq<HuffNode>, rounds: seq<Round>, pq: seq<HuffNode>)
    requires |pool| <= 1 && MergeRounds(pool, rounds, pq)
    ensures rounds == [] && pq == pool
  {
    if rounds != [] {
      var step := rounds[0];
      LeastRemovedSize(pool, step.left, step.rest1);
      LeastRemovedSize(step.rest1, step.right, step.rest2);
      assert false;
    }
  }

  /** A queue of one node holds just that node. */
  lemma Single(pool: seq<HuffNode>, m: HuffNode)
    requires |pool| == 1 && m in pool
    ensures pool == [m]
  {
  }

  /** The last node taken out of a queue of one that the merge loop kept is the tree the method promises. */
  lemma LastRound(pq: seq<HuffNode>, root: HuffNode, c: seq<int>, done: seq<Round>, initial: seq<HuffNode>)
    requires forall t :: t in pq ==> BuiltFrom(t, c) && MergedInOrder(t)
    requires PoolSymbols(pq) == multiset(Present(c)) && PoolWeight(pq) == PositiveTotal(c)
    requires MergeRounds(initial, done, pq) && |pq| == 1 && root in pq
    ensures BuiltFrom(root, c) && MergedInOrder(root)
    ensures multiset(LeafSymbols(root)) == multiset(Present(c))
    ensures root.weight == PositiveTotal(c)
    ensures HuffmanRun(initial, done, root)
  {
    Single(pq, root);
    SymbolsAppend([], root);
    WeightAppend([], root);
  }

  /** Of two queued nodes (in any order), the strictly lighter is taken out first. */
  lemma LeastOfPair(pool: seq<HuffNode>, a: HuffNode, b: HuffNode, m: HuffNode, rest: seq<HuffNode>)
    requires multiset(pool) == multiset{a, b} && a.weight < b.weight
    requires LeastRemoved(pool, m, rest)
    ensures m == a && rest == [b]
  {
    assert a in multiset(pool) && m in multiset(pool);
    assert m == a;
    assert multiset(rest) == multiset{b};
    assert |rest| == 1 && rest[0] in multiset(rest);
  }

  /** Of three queued nodes, when x is heavier than y and z, y or z is taken out first. */
  lemma LeastOfThree(x: HuffNode, y: HuffNode, z: HuffNode, m: HuffNode, rest: seq<HuffNode>)
    requires y.weight < x.weight && z.weight < x.weight
    requires LeastRemoved([x, y, z], m, rest)
    ensures (m == y && multiset(rest) == multiset{z, x}) || (m == z && multiset(rest) == multiset{y, x})
  {
    assert y in [x, y, z];
    assert m != x;
  }

  /** The greedy merge on two nodes joins them, the lighter (a) on the left. */
  lemma TwoNodeRun(b: HuffNode, a: HuffNode, rounds: seq<Round>, r: HuffNode)
    requires a.weight < b.weight
    requires HuffmanRun([b, a], rounds, r)
    ensures r == Internal(0, a.weight + b.weight, a, b)
  {
    RunStart([b, a], rounds, r);
    var step := rounds[0];
    LeastOfPair([b, a], a, b, step.left, step.rest1);
    Single(step.rest1, step.right);
    assert After(step) == [Joined(step)];
    NoRound(After(step), rounds[1..], [r]);
  }

  /** The first round on three nodes, x heavier than y and z, joins y and z. */
  lemma FirstJoin(x: HuffNode, y: HuffNode, z: HuffNode, step: Round)
    requires y.weight < x.weight && z.weight < x.weight
    requires Greedy([x, y, z], step)
    ensures Joined(step) == Internal(0, y.weight + z.weight, y, z) || Joined(step) == Internal(0, z.weight + y.weight, z, y)
    ensures After(step) == [x, Joined(step)]
  {
    LeastOfThree(x, y, z, step.left, step.rest1);
    if step.left == y {
      LeastOfPair(step.rest1, z, x, step.right, step.rest2);
    } else {
      LeastOfPair(step.rest1, y, x, step.right, step.rest2);
    }
  }

  /**
   * The greedy merge on three nodes, the lightest two (y and z) together
   * lighter than the third (x): y and z are joined first, in either order
   * when they weigh the same, and the root has that node on the left and x
   * on the right.
   */
  lemma ThreeNodeRun(x: HuffNode, y: HuffNode, z: HuffNode, rounds: seq<Round>, r: HuffNode)
    requires 0 < y.weight && 0 < z.weight && y.weight + z.weight < x.weight
    requires HuffmanRun([x, y, z], rounds, r)
    ensures || r == Internal(0, y.weight + z.weight + x.weight, Internal(0, y.weight + z.weight, y, z), x)
            || r == Internal(0, z.weight + y.weight + x.weight, Internal(0, z.weight + y.weight, z, y), x)
  {
    RunStart([x, y, z], rounds, r);
    var step := rounds[0];
    FirstJoin(x, y, z, step);
    TwoNodeRun(x, Joined(step), rounds[1..], r);
  }

  /**
   * Builds the Huffman tree: one leaf per positive count, then repeatedly
   * joins the two lightest nodes (first removed on the left) under a new
   * internal node until one node remains. A positive count must exist, or
   * the final `pq.remove()` would fail; readForCounts guarantees one.
   */
  method MakeTreeFromCounts(counts: array<int>) returns (root: HuffNode)
    requires exists i :: 0 <= i < counts.Length && counts[i] > 0
    ensures BuiltFrom(root, counts[..]) && MergedInOrder(root)
    ensures multiset(LeafSymbols(root)) == multiset(Present(counts[..]))
    ensures root.weight == PositiveTotal(counts[..])
    ensures exists rounds :: HuffmanRun(Leaves(counts[..]), rounds, root)
  {
    ghost var c := counts[..];
    var pq: seq<HuffNode> := [];
    for i := 0 to counts.Length
      invariant pq == Leaves(c[..i])
    {
      LeavesStep(c, i);
      if counts[i] > 0 {
        pq := pq + [Leaf(i, counts[i])];
      }
    }
    assert c[..|c|] == c;
    LeavesBuilt(c);
    LeavesSymbols(c);
    LeavesWeight(c);
    assert pq != [] by {
      var i :| 0 <= i < counts.Length && c[i] > 0;
      PresentSpec(c, i);
    }

    ghost var initial, done := pq, [];
    while |pq| > 1
      invariant pq != []
      invariant forall t :: t in pq ==> BuiltFrom(t, c) && MergedInOrder(t)
      invariant PoolSymbols(pq) == multiset(Present(c))
      invariant PoolWeight(pq) == PositiveTotal(c)
      invariant MergeRounds(initial, done, pq)
      decreases |pq|
    {
      var left, rest1 := RemoveMin(pq);
      var right, rest2 := RemoveMin(rest1);
      MergeShape(pq, left, rest1, right, rest2, c);
      MergeSymbols(pq, left, rest1, right, rest2);
      MergeWeight(pq, left, rest1, right, rest2);
      MergeStep(initial, done, pq, left, rest1, right, rest2);
      pq, done := rest2 + [Internal(0, left.weight + right.weight, left, right)], done + [Round(left, rest1, right, rest2)];
    }
    var rest;
    root, rest := RemoveMin(pq);
    LastRound(pq, root, c, done, initial);
  }
}
