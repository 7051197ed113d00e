/**
 * The bit-level input stream that HuffProcessor reads from, as a value:
 * the whole remaining input is a sequence of bits and a read position.
 * `readBits(n)` returns the next n bits, most significant bit first, as a
 * Java `int`, or -1 when fewer than n bits remain; after a read that
 * returns -1 the stream is exhausted.
 */
module Bits {

  type Bit = b: int | 0 <= b < 2
  type Byte = b: int | 0 <= b < 256

  /** 2 to the power n. */
  function Pow2(n: nat): (r: nat)
    ensures r >= 1
  {
    if n == 0 then 1 else 2 * Pow2(n - 1)
  }

  lemma {:induction false} Pow2At32()
    ensures Pow2(32) == 0x1_0000_0000
  {
    assert Pow2(8) == 256;
    assert Pow2(16) == 256 * 256 by { Pow2Add(8, 8); }
    Pow2Add(16, 16);
  }

  lemma Pow2At31()
    ensures Pow2(31) == 0x8000_0000
  {
    Pow2At32();
  }

  lemma Pow2At8()
    ensures Pow2(8) == 256
  {
  }

  lemma Pow2At9()
    ensures Pow2(9) == 512
  {
  }

  lemma {:induction false} Pow2Mono(a: nat, b: nat)
    requires a <= b
    ensures Pow2(a) <= Pow2(b)
  {
    if a < b {
      Pow2Mono(a, b - 1);
    }
  }

  lemma {:induction false} Pow2Add(a: nat, b: nat)
    ensures Pow2(a + b) == Pow2(a) * Pow2(b)
  {
    if b > 0 {
      Pow2Add(a, b - 1);
    }
  }

  /** The unsigned number whose big-endian binary digits are s. */
  function BitsValue(s: seq<Bit>): (r: nat)
    ensures r < Pow2(|s|)
  {
    if s == [] then 0 else 2 * BitsValue(s[..|s| - 1]) + s[|s| - 1]
  }

  /** The n low-order bits of v, most significant first (what `writeBits(n, v)` emits). */
  function ToBits(v: nat, n: nat): (r: seq<Bit>)
    ensures |r| == n
  {
    if n == 0 then [] else ToBits(v / 2, n - 1) + [v % 2]
  }

  lemma {:induction false} ValueOfToBits(v: nat, n: nat)
    requires v < Pow2(n)
    ensures BitsValue(ToBits(v, n)) == v
  {
    if n > 0 {
      ValueOfToBits(v / 2, n - 1);
      assert ToBits(v, n)[..n - 1] == ToBits(v / 2, n - 1);
    }
  }

  lemma {:induction false} ToBitsOfValue(s: seq<Bit>)
    ensures ToBits(BitsValue(s), |s|) == s
  {
    if s != [] {
      var init := s[..|s| - 1];
      ToBitsOfValue(init);
      assert BitsValue(s) / 2 == BitsValue(init);
      assert s == init + [s[|s| - 1]];
    }
  }

  /** A stretch of a stretch of the stream. */
  lemma Subslice(bits: seq<Bit>, pos: nat, h: seq<Bit>, i: nat, j: nat)
    requires pos + |h| <= |bits| && bits[pos..pos + |h|] == h && i <= j <= |h|
    ensures bits[pos + i..pos + j] == h[i..j]
  {
    forall k | 0 <= k < j - i ensures bits[pos + i..pos + j][k] == h[i..j][k] {
      assert bits[pos + i + k] == bits[pos..pos + |h|][i + k];
    }
  }

  /** A stretch of the stream that holds a + b holds a, then b. */
  lemma SplitSlice(bits: seq<Bit>, pos: nat, a: seq<Bit>, b: seq<Bit>)
    requires pos + |a| + |b| <= |bits| && bits[pos..pos + |a| + |b|] == a + b
    ensures bits[pos..pos + |a|] == a
    ensures bits[pos + |a|..pos + |a| + |b|] == b
  {
    Subslice(bits, pos, a + b, 0, |a|);
    assert (a + b)[..|a|] == a;
    Subslice(bits, pos, a + b, |a|, |a| + |b|);
    assert (a + b)[|a|..] == b;
  }

  /** A byte is its own low 8 bits. */
  lemma LowByte(x: Byte)
    ensures x % 256 == x
  {
  }

  /** Reinterprets an unsigned 32-bit pattern as a Java (two's complement) `int`. */
  function JavaInt(v: nat): (r: int)
    requires v < 0x1_0000_0000
    ensures -0x8000_0000 <= r < 0x8000_0000
  {
    if v >= 0x8000_0000 then v - 0x1_0000_0000 else v
  }

  /** The unsigned number whose big-endian digits are bits[pos..pos + n]. */
  function ValueAt(bits: seq<Bit>, pos: nat, n: nat): nat
    requires pos + n <= |bits|
  {
    if n == 0 then 0 else 2 * ValueAt(bits, pos, n - 1) + bits[pos + n - 1]
  }

  lemma {:induction false} ValueAtSlice(bits: seq<Bit>, pos: nat, n: nat)
    requires pos + n <= |bits|
    ensures ValueAt(bits, pos, n) == BitsValue(bits[pos..pos + n])
  {
    if n > 0 {
      ValueAtSlice(bits, pos, n - 1);
      assert bits[pos..pos + n][..n - 1] == bits[pos..pos + n - 1];
    }
  }

  /** Outcome of one `readBits` call: the value read (or -1) and the position after it. */
  datatype Read = Read(value: int, next: nat)

  /** `readBits(n)` at position pos of the stream. */
  function ReadBits(bits: seq<Bit>, pos: nat, n: nat): (r: Read)
    requires pos <= |bits| && 1 <= n <= 32
    ensures pos <= r.next <= |bits|
    ensures pos + n <= |bits| <==> r.next == pos + n
    ensures pos + n > |bits| ==> r.value == -1 && r.next == |bits|
  {
    if pos + n <= |bits| then
      Pow2At32();
      Pow2Mono(n, 32);
      ValueAtSlice(bits, pos, n);
      Read(JavaInt(ValueAt(bits, pos, n)), pos + n)
    else
      Read(-1, |bits|)
  }

  /** `readBits(1)`: the bit under the read position, or -1 at the end. */
  function ReadBit(bits: seq<Bit>, pos: nat): Read
    requires pos <= |bits|
  {
    if pos < |bits| then Read(bits[pos], pos + 1) else Read(-1, |bits|)
  }

  /** ReadBit is the one-bit case of ReadBits. */
  lemma ReadBitIsReadBits(bits: seq<Bit>, pos: nat)
    requires pos <= |bits|
    ensures ReadBit(bits, pos) == ReadBits(bits, pos, 1)
  {
    if pos < |bits| {
      assert ValueAt(bits, pos, 1) == bits[pos];
    }
  }

  /** A read of fewer than 32 bits yields the unsigned value of those bits. */
  lemma ReadNarrow(bits: seq<Bit>, pos: nat, n: nat)
    requires pos + n <= |bits| && 1 <= n < 32
    ensures ReadBits(bits, pos, n).value == BitsValue(bits[pos..pos + n])
  {
    ValueAtSlice(bits, pos, n);
    var v := ValueAt(bits, pos, n);
    assert v < 0x8000_0000 by {
      Pow2Mono(n, 31);
      Pow2At31();
    }
    assert JavaInt(v) == v;
  }

  /** JavaInt is one-to-one: the pattern of a Java int is its value modulo 2^32. */
  lemma JavaIntPattern(v: nat, w: int)
    requires v < 0x1_0000_0000 && -0x8000_0000 <= w < 0x8000_0000
    ensures JavaInt(v) == w <==> v == w % 0x1_0000_0000
  {
    if w < 0 {
      assert w % 0x1_0000_0000 == w + 0x1_0000_0000;
    } else {
      assert w % 0x1_0000_0000 == w;
    }
  }

  /**
   * A 32-bit read yields the Java int w exactly when the next 32 bits are
   * w's two's complement pattern; -1 is also what an exhausted stream gives.
   */
  lemma {:induction false} ReadIntPattern(bits: seq<Bit>, w: int)
    requires -0x8000_0000 <= w < 0x8000_0000 && w != -1
    ensures ReadBits(bits, 0, 32).value == w <==>
              |bits| >= 32 && bits[..32] == ToBits(w % 0x1_0000_0000, 32)
  {
    var u := w % 0x1_0000_0000;
    Pow2At32();
    if |bits| >= 32 {
      var word := bits[..32];
      assert bits[0..32] == word;
      var v := BitsValue(word);
      ValueAtSlice(bits, 0, 32);
      assert ReadBits(bits, 0, 32).value == JavaInt(v);
      JavaIntPattern(v, w);
      ToBitsOfValue(word);
      ValueOfToBits(u, 32);
    }
  }
}
