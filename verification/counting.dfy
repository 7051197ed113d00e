/** Frequency counting: `readForCounts`, the first pass of compression. */
module Counting {
  import opened Bits
  import opened HuffCore

  /** `in.readBits(BITS_PER_WORD)` on the byte input at index i: the byte, or -1 once exhausted. */
  function ReadWord(input: seq<Byte>, i: nat): int
  {
    if i < |input| then input[i] else -1
  }

  /** The bit stream that carries input: each byte as 8 bits, most significant first. */
  function ByteStream(input: seq<Byte>): (r: seq<Bit>)
    ensures |r| == 8 * |input|
  {
    if input == [] then [] else ToBits(input[0], BITS_PER_WORD) + ByteStream(input[1..])
  }

  /** Byte i of input occupies bits 8i to 8i + 8 of its stream. */
  lemma {:induction false} ByteStreamAt(input: seq<Byte>, i: nat)
    requires i < |input|
    ensures ByteStream(input)[8 * i..8 * i + 8] == ToBits(input[i], BITS_PER_WORD)
  {
    var head, tail := ToBits(input[0], BITS_PER_WORD), ByteStream(input[1..]);
    assert ByteStream(input) == head + tail;
    if i == 0 {
      assert (head + tail)[..BITS_PER_WORD] == head;
    } else {
      ByteStreamAt(input[1..], i - 1);
      assert (head + tail)[8 * i..8 * i + 8]
          == tail[8 * i - 8..8 * i];
    }
  }

  /**
   * ReadWord is `readBits(BITS_PER_WORD)` on the stream that carries input:
   * at byte boundary i it reads byte i, or -1 once every byte has been read.
   */
  lemma ReadWordIsReadBits(input: seq<Byte>, i: nat)
    requires i <= |input|
    ensures ReadBits(ByteStream(input), 8 * i, BITS_PER_WORD).value == ReadWord(input, i)
    ensures ReadWord(input, i) == -1 <==> i == |input|
  {
    if i < |input| {
      ReadByteInStream(input, i);
    } else {
      ReadPastEnd(ByteStream(input), 8 * i);
    }
  }

  /** Reading 8 bits at byte boundary i of the stream gives byte i. */
  lemma ReadByteInStream(input: seq<Byte>, i: nat)
    requires i < |input|
    ensures ReadBits(ByteStream(input), 8 * i, BITS_PER_WORD).value == input[i]
  {
    var bits, pos, v := ByteStream(input), 8 * i, input[i];
    ByteStreamAt(input, i);
    ReadByteAt(bits, pos, v);
    assert ReadBits(bits, pos, BITS_PER_WORD).value == v;
  }

  /** At the end of the stream a read of 8 bits gives -1. */
  lemma ReadPastEnd(bits: seq<Bit>, pos: nat)
    requires pos == |bits|
    ensures ReadBits(bits, pos, BITS_PER_WORD).value == -1
  {
  }

  /** Reading 8 bits where a byte was written gives that byte back. */
  lemma ReadByteAt(bits: seq<Bit>, pos: nat, v: Byte)
    requires pos + 8 <= |bits| && bits[pos..pos + 8] == ToBits(v, BITS_PER_WORD)
    ensures ReadBits(bits, pos, BITS_PER_WORD).value == v
  {
    ReadNarrow(bits, pos, BITS_PER_WORD);
    Pow2At8();
    ValueOfToBits(v, BITS_PER_WORD);
  }

  /**
   * Builds the 257-slot table of byte counts; the PSEUDO_EOF slot is set to
   * 1 and never incremented, since no byte read can reach it.
   */
  method ReadForCounts(input: seq<Byte>) returns (counts: array<int>)
    ensures fresh(counts) && counts.Length == ALPH_SIZE + 1
    ensures counts[PSEUDO_EOF] == 1
    ensures forall v :: 0 <= v < ALPH_SIZE ==> counts[v] == multiset(input)[v]
  {
    counts := new int[ALPH_SIZE + 1](_ => 0);
    counts[PSEUDO_EOF] := 1;
    var i := 0;
    while true
      invariant 0 <= i <= |input|
      invariant counts[PSEUDO_EOF] == 1
      invariant forall v :: 0 <= v < ALPH_SIZE ==> counts[v] == multiset(input[..i])[v]
      decreases |input| - i
    {
      var val := ReadWord(input, i);
      if val == -1 {
        assert input[..i] == input;
        break;
      }
      assert input[..i + 1] == input[..i] + [input[i]];
      counts[val] := counts[val] + 1;
      i := i + 1;
    }
  }
}
