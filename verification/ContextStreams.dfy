/** Successive calls on one AES_ctx, over adjacent stretches of one buffer: together they are one call. */
module ContextStreams {
  import opened Bytes
  import opened AesContext
  import opened CipherModes
  import F = Fips197

  function Total(lengths: seq<nat>): nat {
    if lengths == [] then 0 else lengths[0] + Total(lengths[1..])
  }

  /** A message cut into parts of these lengths. */
  function Cut(m: seq<bv8>, lengths: seq<nat>): (parts: seq<seq<bv8>>)
    requires |m| == Total(lengths)
    ensures |parts| == |lengths| && forall i :: 0 <= i < |lengths| ==> |parts[i]| == lengths[i]
    decreases |lengths|
  {
    if lengths == [] then [] else [m[..lengths[0]]] + Cut(m[lengths[0]..], lengths[1..])
  }

  lemma {:induction false} JoinedCut(m: seq<bv8>, lengths: seq<nat>)
    requires |m| == Total(lengths)
    ensures Joined(Cut(m, lengths)) == m
    decreases |lengths|
  {
    if lengths != [] {
      JoinedCut(m[lengths[0]..], lengths[1..]);
      assert Cut(m, lengths)[1..] == Cut(m[lengths[0]..], lengths[1..]);
    }
  }

  predicate AllWhole(lengths: seq<nat>) {
    forall i :: 0 <= i < |lengths| ==> lengths[i] % 16 == 0
  }

  lemma {:induction false} TotalWhole(lengths: seq<nat>)
    requires AllWhole(lengths)
    ensures Total(lengths) % 16 == 0
  {
    if lengths != [] {
      TotalWhole(lengths[1..]);
    }
  }

  /** A buffer whose first part has been replaced: the second part is as it was, and replacing it too
      replaces both. */
  lemma TwoParts(s: seq<bv8>, at: nat, n: nat, total: nat, first: seq<bv8>)
    requires n <= total && at + total <= |s| && |first| == n
    ensures s[at..at + total] == s[at..at + n] + s[at + n..at + total]
    ensures Splice(s, at, first)[at + n..at + total] == s[at + n..at + total]
    ensures forall second :: |second| == total - n ==>
      Splice(Splice(s, at, first), at + n, second) == Splice(s, at, first + second)
  {
    hide Splice;
    forall second: seq<bv8> | |second| == total - n
      ensures Splice(Splice(s, at, first), at + n, second) == Splice(s, at, first + second)
    {
      SpliceAppend(s, at, first, second);
    }
    SpliceAppend(s, at, first, s[at + n..at + total]);
  }

  /** AES_CBC_encrypt_buffer on one stretch after another. */
  method CbcEncryptStretches(ctx: AesCtx, buf: array<bv8>, at: nat, lengths: seq<nat>)
    requires ctx.Valid() && at + Total(lengths) <= buf.Length && AllWhole(lengths)
    requires buf != ctx.RoundKey && buf != ctx.Iv
    modifies buf, ctx.Iv
    ensures Total(lengths) % 16 == 0
    ensures var c := CbcEncrypt(ctx.RoundKey[..], old(ctx.Iv[..]), old(buf[at..at + Total(lengths)]));
      buf[..] == Splice(old(buf[..]), at, c) && ctx.Iv[..] == CbcNextIv(old(ctx.Iv[..]), c)
    decreases |lengths|
  {
    hide CbcEncrypt, CbcNextIv, Splice;
    ghost var s, iv, w, total := buf[..], ctx.Iv[..], ctx.RoundKey[..], Total(lengths);
    TotalWhole(lengths);
    if lengths == [] {
      CbcOfNothing(w, iv);
      SpliceNothing(s, at);
    } else {
      var n := lengths[0];
      TotalWhole(lengths[1..]);
      ctx.CbcEncryptBuffer(buf, at, n);
      ghost var first := CbcEncrypt(w, iv, s[at..at + n]);
      TwoParts(s, at, n, total, first);
      CbcEncryptConcat(w, iv, s[at..at + n], s[at + n..at + total]);
      assert buf[at + n..at + total] == buf[..][at + n..at + total];
      CbcEncryptStretches(ctx, buf, at + n, lengths[1..]);
    }
  }

  /** AES_CBC_decrypt_buffer on one stretch after another. */
  method CbcDecryptStretches(ctx: AesCtx, buf: array<bv8>, at: nat, lengths: seq<nat>)
    requires ctx.Valid() && at + Total(lengths) <= buf.Length && AllWhole(lengths)
    requires buf != ctx.RoundKey && buf != ctx.Iv
    modifies buf, ctx.Iv
    ensures Total(lengths) % 16 == 0
    ensures var c := old(buf[at..at + Total(lengths)]);
      && buf[..] == Splice(old(buf[..]), at, CbcDecrypt(ctx.RoundKey[..], old(ctx.Iv[..]), c))
      && ctx.Iv[..] == CbcNextIv(old(ctx.Iv[..]), c)
    decreases |lengths|
  {
    hide CbcDecrypt, CbcNextIv, Splice;
    ghost var s, iv, w, total := buf[..], ctx.Iv[..], ctx.RoundKey[..], Total(lengths);
    TotalWhole(lengths);
    if lengths == [] {
      CbcOfNothing(w, iv);
      SpliceNothing(s, at);
    } else {
      var n := lengths[0];
      TotalWhole(lengths[1..]);
      ctx.CbcDecryptBuffer(buf, at, n);
      TwoParts(s, at, n, total, CbcDecrypt(w, iv, s[at..at + n]));
      CbcDecryptConcat(w, iv, s[at..at + n], s[at + n..at + total]);
      assert buf[at + n..at + total] == buf[..][at + n..at + total];
      CbcDecryptStretches(ctx, buf, at + n, lengths[1..]);
    }
  }

  /** The call-by-call functions of CipherModes, over a message cut into parts, say the same. */
  lemma StretchesAreCalls(w: seq<bv8>, iv: Block, m: seq<bv8>, lengths: seq<nat>)
    requires F.IsRoundKeys(w) && |m| == Total(lengths)
    ensures AllWhole(lengths) ==>
      && WholeBlocks(m)
      && (forall p :: p in Cut(m, lengths) ==> WholeBlocks(p))
      && CbcEncryptCalls(w, iv, Cut(m, lengths)) == (CbcEncrypt(w, iv, m), CbcNextIv(iv, CbcEncrypt(w, iv, m)))
      && CbcDecryptCalls(w, iv, Cut(m, lengths)) == (CbcDecrypt(w, iv, m), CbcNextIv(iv, m))
    ensures (forall i :: 0 <= i < |lengths| - 1 ==> lengths[i] % 16 == 0) ==>
      CtrCalls(w, iv, Cut(m, lengths)) == (Ctr(w, iv, m), CtrNextIv(iv, |m|))
  {
    hide Cut, Ctr, CtrNextIv, CbcEncrypt, CbcDecrypt, CbcNextIv;
    JoinedCut(m, lengths);
    if AllWhole(lengths) {
      CbcStreaming(w, iv, Cut(m, lengths));
    }
    if forall i :: 0 <= i < |lengths| - 1 ==> lengths[i] % 16 == 0 {
      CtrStreaming(w, iv, Cut(m, lengths));
    }
  }

  lemma CtrCallsOnCut(w: seq<bv8>, iv: Block, m: seq<bv8>, lengths: seq<nat>)
    requires F.IsRoundKeys(w) && |m| == Total(lengths) && lengths != []
    ensures var (rest, last) := CtrCalls(w, CtrNextIv(iv, lengths[0]), Cut(m[lengths[0]..], lengths[1..]));
      CtrCalls(w, iv, Cut(m, lengths)) == (Ctr(w, iv, m[..lengths[0]]) + rest, last)
  {
    hide Ctr, CtrNextIv;
    assert Cut(m, lengths)[1..] == Cut(m[lengths[0]..], lengths[1..]);
  }

  lemma {:induction false} CtrCallsLength(w: seq<bv8>, iv: Block, m: seq<bv8>, lengths: seq<nat>)
    requires F.IsRoundKeys(w) && |m| == Total(lengths)
    ensures |CtrCalls(w, iv, Cut(m, lengths)).0| == |m|
    decreases |lengths|
  {
    hide Ctr, CtrNextIv;
    if lengths != [] {
      CtrCallsOnCut(w, iv, m, lengths);
      CtrCallsLength(w, CtrNextIv(iv, lengths[0]), m[lengths[0]..], lengths[1..]);
    }
  }

  /** AES_CTR_xcrypt_buffer on one stretch after another, of any lengths; when all but the last are
      whole blocks, they are one call. */
  method CtrStretches(ctx: AesCtx, buf: array<bv8>, at: nat, lengths: seq<nat>)
    requires ctx.Valid() && at + Total(lengths) <= buf.Length
    requires buf != ctx.RoundKey && buf != ctx.Iv
    modifies buf, ctx.Iv
    ensures var (c, last) := CtrCalls(ctx.RoundKey[..], old(ctx.Iv[..]), Cut(old(buf[at..at + Total(lengths)]), lengths));
      |c| == Total(lengths) && buf[..] == Splice(old(buf[..]), at, c) && ctx.Iv[..] == last
    ensures (forall i :: 0 <= i < |lengths| - 1 ==> lengths[i] % 16 == 0) ==>
      && buf[..] == Splice(old(buf[..]), at, Ctr(ctx.RoundKey[..], old(ctx.Iv[..]), old(buf[at..at + Total(lengths)])))
      && ctx.Iv[..] == CtrNextIv(old(ctx.Iv[..]), Total(lengths))
    decreases |lengths|
  {
    hide Ctr, CtrNextIv, Splice, Cut, Joined;
    ghost var s, iv, w, total := buf[..], ctx.Iv[..], ctx.RoundKey[..], Total(lengths);
    ghost var m := s[at..at + total];
    StretchesAreCalls(w, iv, m, lengths);
    CtrCallsLength(w, iv, m, lengths);
    if lengths == [] {
      SpliceNothing(s, at);
    } else {
      var n := lengths[0];
      ctx.CtrXcryptBuffer(buf, at, n);
      TwoParts(s, at, n, total, Ctr(w, iv, s[at..at + n]));
      CtrCallsOnCut(w, iv, m, lengths);
      assert m[..n] == s[at..at + n] && m[n..] == s[at + n..at + total];
      assert buf[at + n..at + total] == buf[..][at + n..at + total];
      CtrStretches(ctx, buf, at + n, lengths[1..]);
    }
  }
}
