/** The 16-byte big-endian counter of CTR mode, read as a number modulo 2^128. */
module Counter {
  import opened Bytes

  const TWO_128: nat := 0x1_0000_0000_0000_0000_0000_0000_0000_0000

  function Pow256(n: nat): nat {
    if n == 0 then 1 else 256 * Pow256(n - 1)
  }

  function FromByte(b: bv8): nat {
    b as int
  }

  /** The number a byte string stands for, most significant byte first. */
  function Value(s: seq<bv8>): nat {
    if s == [] then 0 else 256 * Value(s[..|s| - 1]) + FromByte(s[|s| - 1])
  }

  /** The standard increment of a byte string: the last byte that is not 255 goes up by one,
      and the bytes of 255 after it become zero. */
  function Increment(s: seq<bv8>): (r: seq<bv8>)
    ensures |r| == |s|
  {
    if s == [] then []
    else if s[|s| - 1] == 255 then Increment(s[..|s| - 1]) + [0]
    else s[..|s| - 1] + [s[|s| - 1] + 1]
  }

  lemma IncrementNothing()
    ensures Increment([]) == []
  {
  }

  lemma IncrementLast(s: seq<bv8>)
    requires s != []
    ensures var rest, last := s[..|s| - 1], s[|s| - 1];
      Increment(s) == if last == 255 then Increment(rest) + [0] else rest + [last + 1]
  {
  }

  /** The counter block j places after `iv`. */
  function CounterBlock(iv: Block, j: nat): Block {
    if j == 0 then iv else Increment(CounterBlock(iv, j - 1))
  }

  lemma CounterBlockZero(iv: Block)
    ensures CounterBlock(iv, 0) == iv
  {
  }

  lemma CounterBlockNext(iv: Block, j: nat)
    ensures CounterBlock(iv, j + 1) == Increment(CounterBlock(iv, j))
  {
  }

  lemma FromByteRange(b: bv8)
    ensures FromByte(b) < 256
    ensures FromByte(0) == 0
  {
  }

  lemma FromByteSuccessor(b: bv8)
    ensures if b == 255 then FromByte(b) == 255 else FromByte(b + 1) == FromByte(b) + 1
  {
  }

  lemma FromByteInjective(b: bv8, c: bv8)
    requires FromByte(b) == FromByte(c)
    ensures b == c
  {
  }

  lemma {:induction false} ValueBound(s: seq<bv8>)
    ensures Value(s) < Pow256(|s|)
  {
    hide FromByte;
    if s != [] {
      FromByteRange(s[|s| - 1]);
      ValueBound(s[..|s| - 1]);
    }
  }

  lemma {:induction false} ValueInjective(s: seq<bv8>, t: seq<bv8>)
    requires |s| == |t| && Value(s) == Value(t)
    ensures s == t
  {
    hide FromByte;
    if s != [] {
      var a, b := s[|s| - 1], t[|t| - 1];
      FromByteRange(a);
      FromByteRange(b);
      FromByteInjective(a, if FromByte(a) == FromByte(b) then b else a);
      ValueInjective(s[..|s| - 1], t[..|t| - 1]);
      assert s == s[..|s| - 1] + [a] && t == t[..|t| - 1] + [b];
    }
  }

  /** Incrementing adds one, and wraps from all ones to zero. */
  lemma {:induction false} IncrementAddsOne(s: seq<bv8>)
    ensures Value(Increment(s)) == if Value(s) + 1 == Pow256(|s|) then 0 else Value(s) + 1
  {
    hide FromByte;
    if s != [] {
      var rest, last := s[..|s| - 1], s[|s| - 1];
      FromByteRange(last);
      FromByteSuccessor(last);
      if last != 255 {
        FromByteRange(last + 1);
      }
      IncrementAddsOne(rest);
      ValueBound(rest);
      assert Increment(s)[..|s| - 1] == if last == 255 then Increment(rest) else rest;
    }
  }

  /** The bytes after the last one that is not 255 become zero, that byte goes up by one, and the bytes
      before it stay; if every byte is 255, every byte becomes zero. */
  lemma {:induction false} IncrementBytes(s: seq<bv8>, k: int)
    requires -1 <= k < |s| && (forall j :: k < j < |s| ==> s[j] == 255) && (k >= 0 ==> s[k] != 255)
    ensures forall j :: 0 <= j < |s| ==> Increment(s)[j] == if j < k then s[j] else if j == k then s[j] + 1 else 0
    decreases |s|
  {
    if s != [] && k < |s| - 1 {
      IncrementBytes(s[..|s| - 1], k);
    }
  }

  lemma Pow256Of16()
    ensures Pow256(16) == TWO_128
  {
    assert Pow256(4) == 0x1_0000_0000;
    assert Pow256(8) == 0x1_0000_0000_0000_0000;
    assert Pow256(12) == 0x1_0000_0000_0000_0000_0000_0000;
  }

  /** Counter block j has the value of the IV plus j, modulo 2^128. */
  lemma {:induction false} CounterBlockValue(iv: Block, j: nat)
    ensures Value(CounterBlock(iv, j)) == (Value(iv) + j) % TWO_128
  {
    hide Value, Increment;
    Pow256Of16();
    ValueBound(iv);
    if j > 0 {
      CounterBlockValue(iv, j - 1);
      IncrementAddsOne(CounterBlock(iv, j - 1));
    }
  }

  lemma {:induction false} CounterBlockAdds(iv: Block, i: nat, j: nat)
    ensures CounterBlock(CounterBlock(iv, i), j) == CounterBlock(iv, i + j)
  {
    hide Increment;
    if j > 0 {
      CounterBlockAdds(iv, i, j - 1);
    }
  }

  /** Counter blocks of two runs are equal when their numbers are. */
  lemma CounterBlocksOfTwo(iv: Block, i: nat, jv: Block, j: nat)
    ensures CounterBlock(iv, i) == CounterBlock(jv, j) <==> (Value(iv) + i) % TWO_128 == (Value(jv) + j) % TWO_128
  {
    hide Value, CounterBlock;
    CounterBlockValue(iv, i);
    CounterBlockValue(jv, j);
    if (Value(iv) + i) % TWO_128 == (Value(jv) + j) % TWO_128 {
      ValueInjective(CounterBlock(iv, i), CounterBlock(jv, j));
    }
  }

  /** Counter blocks repeat after 2^128 places and not before. */
  lemma CounterBlocksEqual(iv: Block, i: nat, j: nat)
    ensures CounterBlock(iv, i) == CounterBlock(iv, j) <==> i % TWO_128 == j % TWO_128
  {
    hide Value, CounterBlock;
    CounterBlocksOfTwo(iv, i, iv, j);
  }

  /** How far the counter of `jv` is ahead of that of `iv`. */
  function Ahead(iv: Block, jv: Block): nat {
    (Value(jv) + TWO_128 - Value(iv) % TWO_128) % TWO_128
  }

  lemma AheadRange(iv: Block, jv: Block)
    ensures Ahead(iv, jv) < TWO_128
  {
  }

  lemma Congruent(x: nat, y: nat, k: int)
    ensures x % TWO_128 == y % TWO_128 <==> x - y == TWO_128 * (x / TWO_128 - y / TWO_128)
    ensures x - y == TWO_128 * k ==> x % TWO_128 == y % TWO_128
  {
  }

  /** Two counters meet where their places differ by what one is ahead of the other. */
  lemma CountersMeet(iv: Block, i: nat, jv: Block, j: nat)
    ensures (Value(iv) + i) % TWO_128 == (Value(jv) + j) % TWO_128 <==> i % TWO_128 == (Ahead(iv, jv) + j) % TWO_128
  {
    hide Value;
    var u, v, d := Value(iv), Value(jv), Ahead(iv, jv);
    var k := (v + TWO_128 - u % TWO_128) / TWO_128 - 1 - u / TWO_128;
    assert v == u + d + TWO_128 * k;
    Congruent(u + i, v + j, (i / TWO_128) - (d + j) / TWO_128 - k);
    Congruent(i, d + j, (u + i) / TWO_128 - (v + j) / TWO_128 + k);
  }

  predicate Meet(iv: Block, i: nat, jv: Block, j: nat) {
    CounterBlock(iv, i) == CounterBlock(jv, j)
  }

  /** Of a places from `iv` and b places from `jv` none meet, when neither run reaches the other's start. */
  lemma RunsMeet(iv: Block, a: nat, jv: Block, b: nat)
    ensures (exists i: nat, j: nat :: i < a && j < b && Meet(iv, i, jv, j))
       <==> a > 0 && b > 0 && (a > Ahead(iv, jv) || b > TWO_128 - Ahead(iv, jv))
  {
    hide Value, CounterBlock, Ahead;
    var d := Ahead(iv, jv);
    forall i: nat, j: nat
      ensures Meet(iv, i, jv, j) <==> i % TWO_128 == (d + j) % TWO_128
    {
      CounterBlocksOfTwo(iv, i, jv, j);
      CountersMeet(iv, i, jv, j);
    }
    AheadRange(iv, jv);
    if a > 0 && b > 0 && a > d {
      assert Meet(iv, d, jv, 0);
    } else if a > 0 && b > 0 && b > TWO_128 - d {
      assert Meet(iv, 0, jv, TWO_128 - d);
    }
  }
}
