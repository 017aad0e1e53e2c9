/** CBC and CTR (NIST SP 800-38A, sections 6.2 and 6.5) over any round keys. */
module CipherModes {
  import opened Bytes
  import opened Gf256
  import opened Fips197
  import opened Counter

  predicate WholeBlocks(m: seq<bv8>) {
    |m| % 16 == 0
  }

  // ----- CBC -----

  function CbcEncrypt(w: seq<bv8>, iv: Block, m: seq<bv8>): (c: seq<bv8>)
    requires IsRoundKeys(w) && WholeBlocks(m)
    ensures |c| == |m|
    decreases |m|
  {
    if m == [] then []
    else
      var c := Cipher(Xor(m[..16], iv), w);
      c + CbcEncrypt(w, c, m[16..])
  }

  function CbcDecrypt(w: seq<bv8>, iv: Block, c: seq<bv8>): (m: seq<bv8>)
    requires IsRoundKeys(w) && WholeBlocks(c)
    ensures |m| == |c|
    decreases |c|
  {
    if c == [] then []
    else Xor(InvCipher(c[..16], w), iv) + CbcDecrypt(w, c[..16], c[16..])
  }

  /** The IV for the message that follows ciphertext c: the last ciphertext block. */
  function CbcNextIv(iv: Block, c: seq<bv8>): Block
    requires WholeBlocks(c)
  {
    if c == [] then iv else c[|c| - 16..]
  }

  lemma {:induction false} CbcDecryptOfEncrypt(w: seq<bv8>, iv: Block, m: seq<bv8>)
    requires IsRoundKeys(w) && WholeBlocks(m)
    ensures CbcDecrypt(w, iv, CbcEncrypt(w, iv, m)) == m
    decreases |m|
  {
    hide Cipher, InvCipher, Xor;
    if m != [] {
      var x := Xor(m[..16], iv);
      var c := Cipher(x, w);
      var all := CbcEncrypt(w, iv, m);
      assert all[..16] == c && all[16..] == CbcEncrypt(w, c, m[16..]);
      CbcDecryptOfEncrypt(w, c, m[16..]);
      InvCipherOfCipher(x, w);
      XorCancels(m[..16], iv);
    }
  }

  lemma {:induction false} CbcEncryptOfDecrypt(w: seq<bv8>, iv: Block, c: seq<bv8>)
    requires IsRoundKeys(w) && WholeBlocks(c)
    ensures CbcEncrypt(w, iv, CbcDecrypt(w, iv, c)) == c
    decreases |c|
  {
    hide Cipher, InvCipher, Xor;
    if c != [] {
      var x := InvCipher(c[..16], w);
      var all := CbcDecrypt(w, iv, c);
      assert all[..16] == Xor(x, iv) && all[16..] == CbcDecrypt(w, c[..16], c[16..]);
      CbcEncryptOfDecrypt(w, c[..16], c[16..]);
      CipherOfInvCipher(c[..16], w);
      XorCancels(x, iv);
    }
  }

  /** Encrypting a concatenation is encrypting its parts in turn, each with the IV the previous one left. */
  lemma {:induction false} CbcEncryptConcat(w: seq<bv8>, iv: Block, m: seq<bv8>, n: seq<bv8>)
    requires IsRoundKeys(w) && WholeBlocks(m) && WholeBlocks(n)
    ensures var c := CbcEncrypt(w, iv, m);
      && CbcEncrypt(w, iv, m + n) == c + CbcEncrypt(w, CbcNextIv(iv, c), n)
      && CbcNextIv(iv, CbcEncrypt(w, iv, m + n)) == CbcNextIv(CbcNextIv(iv, c), CbcEncrypt(w, CbcNextIv(iv, c), n))
    decreases |m|
  {
    hide Cipher, Xor;
    if m == [] {
      assert m + n == n;
    } else {
      var c := Cipher(Xor(m[..16], iv), w);
      assert (m + n)[..16] == m[..16] && (m + n)[16..] == m[16..] + n;
      CbcEncryptConcat(w, c, m[16..], n);
      assert CbcNextIv(iv, c + CbcEncrypt(w, c, m[16..])) == CbcNextIv(c, CbcEncrypt(w, c, m[16..]));
    }
  }

  lemma {:induction false} CbcDecryptConcat(w: seq<bv8>, iv: Block, c: seq<bv8>, d: seq<bv8>)
    requires IsRoundKeys(w) && WholeBlocks(c) && WholeBlocks(d)
    ensures CbcDecrypt(w, iv, c + d) == CbcDecrypt(w, iv, c) + CbcDecrypt(w, CbcNextIv(iv, c), d)
    ensures CbcNextIv(iv, c + d) == CbcNextIv(CbcNextIv(iv, c), d)
    decreases |c|
  {
    hide InvCipher, Xor;
    if c == [] {
      assert c + d == d;
    } else {
      assert (c + d)[..16] == c[..16] && (c + d)[16..] == c[16..] + d;
      CbcDecryptConcat(w, c[..16], c[16..], d);
      assert CbcNextIv(iv, c) == CbcNextIv(c[..16], c[16..]);
    }
  }

  lemma CbcEncryptOne(w: seq<bv8>, iv: Block, m: Block)
    requires IsRoundKeys(w)
    ensures CbcEncrypt(w, iv, m) == Cipher(Xor(m, iv), w)
  {
    hide Cipher, Xor;
    assert m[..16] == m && m[16..] == [];
  }

  lemma CbcDecryptOne(w: seq<bv8>, iv: Block, c: Block)
    requires IsRoundKeys(w)
    ensures CbcDecrypt(w, iv, c) == Xor(InvCipher(c, w), iv)
  {
    hide InvCipher, Xor;
    assert c[..16] == c && c[16..] == [];
  }

  lemma SliceOfJoined(a: Block, b: seq<bv8>, lo: nat, hi: nat)
    requires lo <= hi <= |b|
    ensures (a + b)[16 + lo..16 + hi] == b[lo..hi] && (a + b)[0..16] == a
  {
  }

  lemma SliceOfRest(m: seq<bv8>, lo: nat, hi: nat)
    requires lo <= hi && 16 + hi <= |m|
    ensures m[16..][lo..hi] == m[16 + lo..16 + hi]
  {
  }

  lemma CbcEncryptFirst(w: seq<bv8>, iv: Block, m: seq<bv8>)
    requires IsRoundKeys(w) && WholeBlocks(m) && m != []
    ensures var first := Cipher(Xor(m[0..16], iv), w);
      CbcEncrypt(w, iv, m) == first + CbcEncrypt(w, first, m[16..])
  {
    hide Cipher, Xor;
    assert m[..16] == m[0..16];
  }

  /** Block j of the cipher text: the cipher of block j plus the block before, the IV standing before the first. */
  lemma {:induction false} CbcEncryptBlockwise(w: seq<bv8>, iv: Block, m: seq<bv8>, j: nat)
    requires IsRoundKeys(w) && WholeBlocks(m) && 16 * j < |m|
    ensures var c := CbcEncrypt(w, iv, m);
      c[16 * j..16 * j + 16]
      == Cipher(Xor(m[16 * j..16 * j + 16], if j == 0 then iv else c[16 * j - 16..16 * j]), w)
    decreases |m|
  {
    hide Cipher, Xor, CbcEncrypt;
    CbcEncryptFirst(w, iv, m);
    var first := Cipher(Xor(m[0..16], iv), w);
    var rest := CbcEncrypt(w, first, m[16..]);
    SliceOfJoined(first, rest, 0, 0);
    if j > 0 {
      var k := 16 * j - 16;
      CbcEncryptBlockwise(w, first, m[16..], j - 1);
      SliceOfRest(m, k, k + 16);
      SliceOfJoined(first, rest, k, k + 16);
      if j > 1 {
        SliceOfJoined(first, rest, k - 16, k);
      }
    }
  }

  /** Block j of the plain text: the deciphered block j plus the cipher-text block before. */
  lemma {:induction false} CbcDecryptBlockwise(w: seq<bv8>, iv: Block, c: seq<bv8>, j: nat)
    requires IsRoundKeys(w) && WholeBlocks(c) && 16 * j < |c|
    ensures CbcDecrypt(w, iv, c)[16 * j..16 * j + 16]
         == Xor(InvCipher(c[16 * j..16 * j + 16], w), if j == 0 then iv else c[16 * j - 16..16 * j])
    decreases |c|
  {
    hide InvCipher, Xor;
    var all := CbcDecrypt(w, iv, c);
    var rest := CbcDecrypt(w, c[..16], c[16..]);
    assert all == Xor(InvCipher(c[..16], w), iv) + rest;
    if j > 0 {
      CbcDecryptBlockwise(w, c[..16], c[16..], j - 1);
      assert c[16..][16 * j - 16..16 * j] == c[16 * j..16 * j + 16];
      assert all[16 * j..16 * j + 16] == rest[16 * j - 16..16 * j];
      assert j > 1 ==> c[16..][16 * j - 32..16 * j - 16] == c[16 * j - 16..16 * j];
    }
  }

  // ----- CTR -----

  /** Key-stream block j. */
  function CtrBlock(w: seq<bv8>, iv: Block, j: nat): Block
    requires IsRoundKeys(w)
  {
    Cipher(CounterBlock(iv, j), w)
  }

  function CtrByte(w: seq<bv8>, iv: Block, i: nat): bv8
    requires IsRoundKeys(w)
  {
    CtrBlock(w, iv, i / 16)[i % 16]
  }

  /** Byte i of the input, plus byte i % 16 of key-stream block i / 16. */
  function Ctr(w: seq<bv8>, iv: Block, m: seq<bv8>): (c: seq<bv8>)
    requires IsRoundKeys(w)
    ensures |c| == |m|
  {
    seq(|m|, i requires 0 <= i < |m| => Add(m[i], CtrByte(w, iv, i)))
  }

  /** The number of key-stream blocks that n bytes use, a last partial one included. */
  function BlocksFor(n: nat): nat {
    (n + 15) / 16
  }

  function CtrNextIv(iv: Block, n: nat): Block {
    CounterBlock(iv, BlocksFor(n))
  }

  /** Which block is enciphered for byte i, and which of its bytes is used: the one whose value is that of the
      IV plus i / 16, and byte i % 16.  The IV left behind has gone up by the number of blocks begun. */
  lemma CtrByteByValue(w: seq<bv8>, iv: Block, m: seq<bv8>, i: nat, counter: Block)
    requires IsRoundKeys(w) && i < |m| && Value(counter) == (Value(iv) + i / 16) % TWO_128
    ensures Ctr(w, iv, m)[i] == Add(m[i], Cipher(counter, w)[i % 16])
    ensures Value(CtrNextIv(iv, |m|)) == (Value(iv) + (|m| + 15) / 16) % TWO_128
  {
    hide Cipher, Add, Value, CounterBlock;
    CounterBlockValue(iv, i / 16);
    CounterBlockValue(iv, BlocksFor(|m|));
    ValueInjective(counter, CounterBlock(iv, i / 16));
  }

  /** The same call undoes itself from the same IV, for any length. */
  lemma CtrInvolution(w: seq<bv8>, iv: Block, m: seq<bv8>)
    requires IsRoundKeys(w)
    ensures Ctr(w, iv, Ctr(w, iv, m)) == m
  {
    hide CtrByte, Add;
    forall i | 0 <= i < |m|
      ensures Ctr(w, iv, Ctr(w, iv, m))[i] == m[i]
    {
      AddCancels(m[i], CtrByte(w, iv, i));
    }
  }

  lemma CtrByteShift(w: seq<bv8>, iv: Block, b: nat, i: nat)
    requires IsRoundKeys(w)
    ensures CtrByte(w, iv, 16 * b + i) == CtrByte(w, CounterBlock(iv, b), i)
  {
    hide Cipher, CounterBlock;
    assert (16 * b + i) / 16 == b + i / 16 && (16 * b + i) % 16 == i % 16;
    CounterBlockAdds(iv, b, i / 16);
  }

  lemma BlocksOfSum(a: nat, b: nat)
    requires a % 16 == 0
    ensures BlocksFor(a) == a / 16 && BlocksFor(a + b) == a / 16 + BlocksFor(b)
  {
  }

  /** A part of whole blocks can be processed in a call of its own. */
  lemma CtrConcat(w: seq<bv8>, iv: Block, m: seq<bv8>, n: seq<bv8>)
    requires IsRoundKeys(w) && WholeBlocks(m)
    ensures Ctr(w, iv, m + n) == Ctr(w, iv, m) + Ctr(w, CtrNextIv(iv, |m|), n)
    ensures CtrNextIv(iv, |m + n|) == CtrNextIv(CtrNextIv(iv, |m|), |n|)
  {
    hide CtrByte, Add, CounterBlock;
    var b := |m| / 16;
    BlocksOfSum(|m|, |n|);
    CounterBlockAdds(iv, b, BlocksFor(|n|));
    forall i: nat | i < |n|
      ensures CtrByte(w, iv, |m| + i) == CtrByte(w, CounterBlock(iv, b), i)
    {
      CtrByteShift(w, iv, b, i);
    }
    var next := Ctr(w, CounterBlock(iv, b), n);
    forall k | |m| <= k < |m| + |n|
      ensures Ctr(w, iv, m + n)[k] == next[k - |m|]
    {
      var i := k - |m|;
      assert CtrByte(w, iv, |m| + i) == CtrByte(w, CounterBlock(iv, b), i);
    }
    assert Ctr(w, iv, m + n) == Ctr(w, iv, m) + next;
  }

  // ----- a message in several calls -----

  function Joined(parts: seq<seq<bv8>>): seq<bv8> {
    if parts == [] then [] else parts[0] + Joined(parts[1..])
  }

  /** What successive calls on one context give for a list of buffers, joined, and the IV they leave. */
  function CbcEncryptCalls(w: seq<bv8>, iv: Block, parts: seq<seq<bv8>>): (seq<bv8>, Block)
    requires IsRoundKeys(w) && forall p :: p in parts ==> WholeBlocks(p)
    decreases |parts|
  {
    if parts == [] then ([], iv)
    else
      var c := CbcEncrypt(w, iv, parts[0]);
      var (rest, last) := CbcEncryptCalls(w, CbcNextIv(iv, c), parts[1..]);
      (c + rest, last)
  }

  function CbcDecryptCalls(w: seq<bv8>, iv: Block, parts: seq<seq<bv8>>): (seq<bv8>, Block)
    requires IsRoundKeys(w) && forall p :: p in parts ==> WholeBlocks(p)
    decreases |parts|
  {
    if parts == [] then ([], iv)
    else
      var (rest, last) := CbcDecryptCalls(w, CbcNextIv(iv, parts[0]), parts[1..]);
      (CbcDecrypt(w, iv, parts[0]) + rest, last)
  }

  function CtrCalls(w: seq<bv8>, iv: Block, parts: seq<seq<bv8>>): (seq<bv8>, Block)
    requires IsRoundKeys(w)
    decreases |parts|
  {
    if parts == [] then ([], iv)
    else
      var (rest, last) := CtrCalls(w, CtrNextIv(iv, |parts[0]|), parts[1..]);
      (Ctr(w, iv, parts[0]) + rest, last)
  }

  lemma {:induction false} JoinedWholeBlocks(parts: seq<seq<bv8>>)
    requires forall p :: p in parts ==> WholeBlocks(p)
    ensures WholeBlocks(Joined(parts))
  {
    if parts != [] {
      JoinedWholeBlocks(parts[1..]);
      assert parts[0] in parts;
    }
  }

  lemma CbcOfNothing(w: seq<bv8>, iv: Block)
    requires IsRoundKeys(w)
    ensures CbcEncrypt(w, iv, []) == [] && CbcDecrypt(w, iv, []) == [] && CbcNextIv(iv, []) == iv
  {
  }

  /** CBC, either way: however a message of whole blocks is cut into calls, bytes and IV are those of one call. */
  lemma {:induction false} CbcStreaming(w: seq<bv8>, iv: Block, parts: seq<seq<bv8>>)
    requires IsRoundKeys(w) && forall p :: p in parts ==> WholeBlocks(p)
    ensures WholeBlocks(Joined(parts))
    ensures CbcEncryptCalls(w, iv, parts)
         == (CbcEncrypt(w, iv, Joined(parts)), CbcNextIv(iv, CbcEncrypt(w, iv, Joined(parts))))
    ensures CbcDecryptCalls(w, iv, parts) == (CbcDecrypt(w, iv, Joined(parts)), CbcNextIv(iv, Joined(parts)))
    decreases |parts|
  {
    hide CbcEncrypt, CbcDecrypt, CbcNextIv;
    JoinedWholeBlocks(parts);
    if parts == [] {
      CbcOfNothing(w, iv);
    } else {
      var m, n := parts[0], Joined(parts[1..]);
      JoinedWholeBlocks(parts[1..]);
      CbcEncryptConcat(w, iv, m, n);
      CbcDecryptConcat(w, iv, m, n);
      CbcStreaming(w, CbcNextIv(iv, CbcEncrypt(w, iv, m)), parts[1..]);
      CbcStreaming(w, CbcNextIv(iv, m), parts[1..]);
    }
  }

  lemma CtrOfNothing(w: seq<bv8>, iv: Block)
    requires IsRoundKeys(w)
    ensures Ctr(w, iv, []) == [] && CtrNextIv(iv, 0) == iv
  {
    CounterBlockZero(iv);
  }

  /** CTR: the same, when every part but the last consists of whole blocks. */
  lemma {:induction false} CtrStreaming(w: seq<bv8>, iv: Block, parts: seq<seq<bv8>>)
    requires IsRoundKeys(w) && forall i :: 0 <= i < |parts| - 1 ==> WholeBlocks(parts[i])
    ensures CtrCalls(w, iv, parts) == (Ctr(w, iv, Joined(parts)), CtrNextIv(iv, |Joined(parts)|))
    decreases |parts|
  {
    hide Ctr, CtrNextIv;
    if parts == [] {
      CtrOfNothing(w, iv);
    } else if |parts| == 1 {
      assert CtrCalls(w, CtrNextIv(iv, |parts[0]|), parts[1..]) == ([], CtrNextIv(iv, |parts[0]|));
      assert Joined(parts[1..]) == [];
      assert Joined(parts) == parts[0];
      assert Ctr(w, iv, parts[0]) + [] == Ctr(w, iv, parts[0]);
    } else {
      CtrConcat(w, iv, parts[0], Joined(parts[1..]));
      CtrStreaming(w, CtrNextIv(iv, |parts[0]|), parts[1..]);
    }
  }

  // ----- successive CTR calls on one context -----

  /** The key-stream blocks that one call with an n-byte buffer computes. */
  function CallBlocks(w: seq<bv8>, iv: Block, n: nat): (ks: seq<Block>)
    requires IsRoundKeys(w)
    ensures |ks| == BlocksFor(n)
  {
    seq(BlocksFor(n), j requires 0 <= j < BlocksFor(n) => CtrBlock(w, iv, j))
  }

  /** The bytes of a call are its buffer plus the blocks that CallBlocks lists. */
  lemma CtrUsesCallBlocks(w: seq<bv8>, iv: Block, m: seq<bv8>, i: nat)
    requires IsRoundKeys(w) && i < |m|
    ensures i / 16 < |CallBlocks(w, iv, |m|)|
    ensures Ctr(w, iv, m)[i] == Add(m[i], CallBlocks(w, iv, |m|)[i / 16][i % 16])
  {
    hide Add, CtrBlock;
  }

  /** The key-stream blocks of a run of calls, whose buffers have these lengths. */
  function RunBlocks(w: seq<bv8>, iv: Block, lengths: seq<nat>): seq<Block>
    requires IsRoundKeys(w)
    decreases |lengths|
  {
    if lengths == [] then []
    else CallBlocks(w, iv, lengths[0]) + RunBlocks(w, CtrNextIv(iv, lengths[0]), lengths[1..])
  }

  lemma {:induction false} RunBlocksAreConsecutive(w: seq<bv8>, iv: Block, lengths: seq<nat>)
    requires IsRoundKeys(w)
    ensures forall j :: 0 <= j < |RunBlocks(w, iv, lengths)| ==> RunBlocks(w, iv, lengths)[j] == CtrBlock(w, iv, j)
    decreases |lengths|
  {
    hide Cipher, CounterBlock;
    if lengths != [] {
      var b, next := BlocksFor(lengths[0]), CtrNextIv(iv, lengths[0]);
      var rest := RunBlocks(w, next, lengths[1..]);
      RunBlocksAreConsecutive(w, next, lengths[1..]);
      forall j | b <= j < b + |rest|
        ensures rest[j - b] == CtrBlock(w, iv, j)
      {
        CounterBlockAdds(iv, b, j - b);
      }
    }
  }

  predicate AllDistinct(blocks: seq<Block>) {
    forall i, j :: 0 <= i < j < |blocks| ==> blocks[i] != blocks[j]
  }

  /** However a key stream is cut into calls, no block of it repeats, up to 2^128 blocks; one more repeats. */
  lemma KeyStreamDistinct(w: seq<bv8>, iv: Block, lengths: seq<nat>)
    requires IsRoundKeys(w)
    ensures AllDistinct(RunBlocks(w, iv, lengths)) <==> |RunBlocks(w, iv, lengths)| <= TWO_128
  {
    hide Cipher, CounterBlock, RunBlocks;
    var blocks := RunBlocks(w, iv, lengths);
    RunBlocksAreConsecutive(w, iv, lengths);
    if |blocks| <= TWO_128 {
      forall i, j | 0 <= i < j < |blocks|
        ensures blocks[i] != blocks[j]
      {
        CounterBlocksEqual(iv, i, j);
        CipherInjective(CounterBlock(iv, i), CounterBlock(iv, j), w);
      }
    } else {
      CounterBlocksEqual(iv, 0, TWO_128);
      assert blocks[0] == blocks[TWO_128];
    }
  }

  /** Two key-stream blocks under one key, from any two IVs, are equal when their counters are. */
  lemma CtrBlocksOfTwo(w: seq<bv8>, iv: Block, i: nat, jv: Block, j: nat)
    requires IsRoundKeys(w)
    ensures CtrBlock(w, iv, i) == CtrBlock(w, jv, j) <==> (Value(iv) + i) % TWO_128 == (Value(jv) + j) % TWO_128
  {
    hide Cipher, CounterBlock, Value;
    CounterBlocksOfTwo(iv, i, jv, j);
    CipherInjective(CounterBlock(iv, i), CounterBlock(jv, j), w);
  }

  predicate ShareNoBlock(a: seq<Block>, b: seq<Block>) {
    forall i, j :: 0 <= i < |a| && 0 <= j < |b| ==> a[i] != b[j]
  }

  /** Two runs of calls under one key share no key-stream block, if and only if neither counter reaches
      the start of the other run.  With one IV used twice that takes an empty run. */
  lemma RunsShareNoBlock(w: seq<bv8>, iv: Block, lengths: seq<nat>, jv: Block, others: seq<nat>)
    requires IsRoundKeys(w)
    ensures var a := RunBlocks(w, iv, lengths);
      var b := RunBlocks(w, jv, others);
      ShareNoBlock(a, b) <==> a == [] || b == [] || (|a| <= Ahead(iv, jv) && |b| <= TWO_128 - Ahead(iv, jv))
  {
    hide Cipher, CounterBlock, RunBlocks, Ahead, CtrBlock, Value;
    var a, b := RunBlocks(w, iv, lengths), RunBlocks(w, jv, others);
    RunBlocksAreConsecutive(w, iv, lengths);
    RunBlocksAreConsecutive(w, jv, others);
    AheadRange(iv, jv);
    RunsMeet(iv, |a|, jv, |b|);
    forall i: nat, j: nat | i < |a| && j < |b|
      ensures a[i] == b[j] <==> Meet(iv, i, jv, j)
    {
      CtrBlocksOfTwo(w, iv, i, jv, j);
      CounterBlocksOfTwo(iv, i, jv, j);
    }
    if i: nat, j: nat :| i < |a| && j < |b| && Meet(iv, i, jv, j) {
      assert a[i] == b[j];
    } else {
      assert ShareNoBlock(a, b);
    }
  }

  lemma SameIvSharesBlocks(w: seq<bv8>, iv: Block, lengths: seq<nat>, others: seq<nat>)
    requires IsRoundKeys(w)
    ensures ShareNoBlock(RunBlocks(w, iv, lengths), RunBlocks(w, iv, others))
       <==> RunBlocks(w, iv, lengths) == [] || RunBlocks(w, iv, others) == []
  {
    hide RunBlocks;
    RunsShareNoBlock(w, iv, lengths, iv, others);
  }
}
