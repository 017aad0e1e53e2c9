/** aes.c: the AES_ctx structure and the ECB, CBC and CTR entry points.
    `nk` is the key size that aes.h fixes at compile time: 4, 6 or 8 words. */
module AesContext {
  import opened Bytes
  import opened Gf256
  import opened KeySchedule
  import opened Counter
  import opened CipherModes
  import F = Fips197
  import Aes
  import AesKey

  /** `now` is `s` with the first i bytes of `out` written from position `at`. */
  ghost predicate PrefixReplaced(s: seq<bv8>, now: seq<bv8>, out: seq<bv8>, at: nat, i: nat)
    requires at + |out| <= |s| && i <= |out|
  {
    && |now| == |s|
    && forall k :: 0 <= k < |s| ==> now[k] == if at <= k < at + i then out[k - at] else s[k]
  }

  lemma AllReplaced(s: seq<bv8>, now: seq<bv8>, out: seq<bv8>, at: nat)
    requires at + |out| <= |s| && PrefixReplaced(s, now, out, at, |out|)
    ensures now == Splice(s, at, out)
  {
  }

  /** memcpy between separate regions, or of a region onto itself. */
  method CopyBytes(dst: array<bv8>, d: nat, src: array<bv8>, s: nat, n: nat)
    requires d + n <= dst.Length && s + n <= src.Length
    requires dst != src || d == s
    modifies dst
    ensures dst[..] == Splice(old(dst[..]), d, old(src[s..s + n]))
  {
    ghost var before, piece := dst[..], src[s..s + n];
    for i := 0 to n
      invariant PrefixReplaced(before, dst[..], piece, d, i)
      invariant dst != src ==> src[..] == old(src[..])
    {
      assert src[s + i] == piece[i];
      dst[d + i] := src[s + i];
    }
    AllReplaced(before, dst[..], piece, d);
  }

  /** Adding n bytes from position `from` to those at position `at` of one buffer, upwards: a byte is read
      after the ones below it were written. */
  function XorForward(s: seq<bv8>, at: nat, from: nat, n: nat): (r: seq<bv8>)
    requires at + n <= |s| && from + n <= |s|
    ensures |r| == |s|
  {
    if n == 0 then s
    else
      var p := XorForward(s, at, from, n - 1);
      p[at + n - 1 := Add(p[at + n - 1], p[from + n - 1])]
  }

  lemma XorForwardNext(s: seq<bv8>, at: nat, from: nat, n: nat)
    requires at + n < |s| && from + n < |s|
    ensures XorForward(s, at, from, 0) == s
    ensures var p := XorForward(s, at, from, n);
      XorForward(s, at, from, n + 1) == p[at + n := Add(p[at + n], p[from + n])]
  {
  }

  lemma {:induction false} XorForwardAt(s: seq<bv8>, at: nat, from: nat, n: nat, k: nat)
    requires at + n <= |s| && from + n <= |s| && (from + n <= at || at <= from) && k < |s|
    ensures XorForward(s, at, from, n)[k] == if at <= k < at + n then Add(s[k], s[from + k - at]) else s[k]
    decreases n
  {
    hide Add;
    if n > 0 {
      XorForwardAt(s, at, from, n - 1, k);
      XorForwardAt(s, at, from, n - 1, at + n - 1);
      XorForwardAt(s, at, from, n - 1, from + n - 1);
    }
  }

  /** When no byte is read after it was written, the sum is that of the bytes before. */
  lemma XorForwardApart(s: seq<bv8>, at: nat, from: nat, n: nat)
    requires at + n <= |s| && from + n <= |s| && (from + n <= at || at <= from)
    ensures PrefixReplaced(s, XorForward(s, at, from, n), Xor(s[at..at + n], s[from..from + n]), at, n)
  {
    hide Add, XorForward;
    var r, sum := XorForward(s, at, from, n), Xor(s[at..at + n], s[from..from + n]);
    forall k: nat | k < |s|
      ensures r[k] == if at <= k < at + n then sum[k - at] else s[k]
    {
      XorForwardAt(s, at, from, n, k);
      if at <= k < at + n {
        XorAt(s[at..at + n], s[from..from + n], k - at);
      }
    }
  }

  /** XORs a block with the block that an IV pointer designates; the two may lie in one buffer, and overlap. */
  method XorWithIv(buf: array<bv8>, at: nat, iv: array<bv8>, ivAt: nat)
    requires at + 16 <= buf.Length && ivAt + 16 <= iv.Length
    modifies buf
    ensures buf == iv ==> buf[..] == XorForward(old(buf[..]), at, ivAt, 16)
    ensures buf != iv || ivAt + 16 <= at || at <= ivAt ==>
      buf[..] == Splice(old(buf[..]), at, Xor(old(buf[at..at + 16]), old(iv[ivAt..ivAt + 16])))
  {
    hide Add, XorForward, Splice;
    ghost var before, other := buf[..], iv[ivAt..ivAt + 16];
    ghost var sum := Xor(buf[at..at + 16], other);
    if buf == iv {
      XorForwardNext(before, at, ivAt, 0);
    }
    for i := 0 to 16
      invariant buf == iv ==> buf[..] == XorForward(before, at, ivAt, i)
      invariant buf != iv ==> PrefixReplaced(before, buf[..], sum, at, i) && iv[ivAt..ivAt + 16] == other
    {
      if buf == iv {
        XorForwardNext(before, at, ivAt, i);
      } else {
        assert iv[ivAt + i] == other[i] && buf[at + i] == before[at + i];
      }
      buf[at + i] := Add(buf[at + i], iv[ivAt + i]);
    }
    if buf == iv && (ivAt + 16 <= at || at <= ivAt) {
      XorForwardApart(before, at, ivAt, 16);
    }
    if buf != iv || ivAt + 16 <= at || at <= ivAt {
      AllReplaced(before, buf[..], sum, at);
    }
  }

  /** The write that an in-place cipher call makes. */
  lemma Written(s: seq<bv8>, p: nat, r: seq<bv8>)
    requires p + 16 <= |s| == |r|
    requires r[..p] == s[..p] && r[p + 16..] == s[p + 16..]
    ensures r == Splice(s, p, r[p..p + 16])
  {
    SpliceFromParts(s, p, r[p..p + 16], r);
  }

  lemma NextIvOfBlock(iv: Block, c: Block)
    ensures CbcNextIv(iv, c) == c
  {
  }

  /** One more block of a buffer that is being encrypted in place. */
  lemma CbcEncryptStep(w: seq<bv8>, iv0: Block, s: seq<bv8>, at: nat, i: nat, done: seq<bv8>)
    requires F.IsRoundKeys(w) && at + i + 16 <= |s| && i % 16 == 0
    requires done == CbcEncrypt(w, iv0, s[at..at + i])
    ensures var p := at + i;
      var m := s[p..p + 16];
      var c := F.Cipher(Xor(m, CbcNextIv(iv0, done)), w);
      && done + c == CbcEncrypt(w, iv0, s[at..at + i + 16])
      && Splice(s, at, done)[p..p + 16] == m
      && Splice(Splice(s, at, done), p, c) == Splice(s, at, done + c)
      && Splice(s, at, done + c)[p..p + 16] == c
      && CbcNextIv(iv0, done + c) == c
  {
    hide F.Cipher, Xor, Splice, CbcEncrypt;
    var p := at + i;
    var m := s[p..p + 16];
    var c := F.Cipher(Xor(m, CbcNextIv(iv0, done)), w);
    SpliceAppend(s, at, done, c);
    SpliceParts(Splice(s, at, done), p, c);
    CbcEncryptConcat(w, iv0, s[at..at + i], m);
    CbcEncryptOne(w, CbcNextIv(iv0, done), m);
    assert s[at..at + i + 16] == s[at..at + i] + m;
  }

  lemma CbcDecryptStep(w: seq<bv8>, iv0: Block, s: seq<bv8>, at: nat, i: nat, done: seq<bv8>)
    requires F.IsRoundKeys(w) && at + i + 16 <= |s| && i % 16 == 0
    requires done == CbcDecrypt(w, iv0, s[at..at + i])
    ensures var p := at + i;
      var c := s[p..p + 16];
      var m := Xor(F.InvCipher(c, w), CbcNextIv(iv0, s[at..at + i]));
      && done + m == CbcDecrypt(w, iv0, s[at..at + i + 16])
      && Splice(s, at, done)[p..p + 16] == c
      && Splice(Splice(s, at, done), p, m) == Splice(s, at, done + m)
      && CbcNextIv(iv0, s[at..at + i + 16]) == c
  {
    hide F.InvCipher, Xor, Splice, CbcDecrypt, CbcNextIv;
    var p := at + i;
    var c := s[p..p + 16];
    var iv := CbcNextIv(iv0, s[at..at + i]);
    SpliceAppend(s, at, done, Xor(F.InvCipher(c, w), iv));
    CbcDecryptConcat(w, iv0, s[at..at + i], c);
    CbcDecryptOne(w, iv, c);
    NextIvOfBlock(iv, c);
    assert s[at..at + i + 16] == s[at..at + i] + c;
  }

  /** Encrypting a stretch of a buffer in place and decrypting it in place, from the same IV, restores the
      buffer, and both directions leave the same IV; so does the converse order. */
  lemma CbcInPlaceRoundTrip(w: seq<bv8>, iv: Block, s: seq<bv8>, at: nat, length: nat)
    requires F.IsRoundKeys(w) && at + length <= |s| && length % 16 == 0
    ensures var c := CbcEncrypt(w, iv, s[at..at + length]);
      var r := Splice(s, at, c);
      && Splice(r, at, CbcDecrypt(w, iv, r[at..at + length])) == s
      && CbcNextIv(iv, r[at..at + length]) == CbcNextIv(iv, c)
    ensures var m := CbcDecrypt(w, iv, s[at..at + length]);
      var r := Splice(s, at, m);
      && Splice(r, at, CbcEncrypt(w, iv, r[at..at + length])) == s
      && CbcNextIv(iv, CbcEncrypt(w, iv, r[at..at + length])) == CbcNextIv(iv, s[at..at + length])
  {
    hide CbcEncrypt, CbcDecrypt, Splice, CbcNextIv;
    var original := s[at..at + length];
    var c, m := CbcEncrypt(w, iv, original), CbcDecrypt(w, iv, original);
    CbcDecryptOfEncrypt(w, iv, original);
    CbcEncryptOfDecrypt(w, iv, original);
    SpliceParts(s, at, c);
    SpliceParts(s, at, m);
    SpliceTwice(s, at, c, original);
    SpliceTwice(s, at, m, original);
    SpliceFromParts(s, at, original, s);
  }

  /** The same buffer encrypted twice in counter mode from one IV is restored, whatever its length. */
  lemma CtrInPlaceRoundTrip(w: seq<bv8>, iv: Block, s: seq<bv8>, at: nat, length: nat)
    requires F.IsRoundKeys(w) && at + length <= |s|
    ensures var r := Splice(s, at, Ctr(w, iv, s[at..at + length]));
      Splice(r, at, Ctr(w, iv, r[at..at + length])) == s
  {
    hide Ctr, Splice;
    var original := s[at..at + length];
    var c := Ctr(w, iv, original);
    CtrInvolution(w, iv, original);
    SpliceParts(s, at, c);
    SpliceTwice(s, at, c, original);
    SpliceFromParts(s, at, original, s);
  }

  lemma CtrIndices(i: nat)
    ensures if i % 16 == 0 then BlocksFor(i) == i / 16 else BlocksFor(i) == i / 16 + 1
    ensures BlocksFor(i + 1) == i / 16 + 1
    ensures (i + 1) % 16 == if i % 16 == 15 then 0 else i % 16 + 1
    ensures (i + 1) % 16 != 0 ==> (i + 1) / 16 == i / 16
  {
  }

  lemma CtrBlockIsCipher(w: seq<bv8>, iv: Block, j: nat)
    requires F.IsRoundKeys(w)
    ensures CtrBlock(w, iv, j) == F.Cipher(CounterBlock(iv, j), w)
  {
  }

  lemma CtrAt(w: seq<bv8>, iv: Block, m: seq<bv8>, i: nat)
    requires F.IsRoundKeys(w) && i < |m|
    ensures Ctr(w, iv, m)[i] == Add(m[i], CtrBlock(w, iv, i / 16)[i % 16])
  {
    hide CtrBlock, Add;
  }

  class AesCtx {
    const nk: nat
    const RoundKey: array<bv8>
    const Iv: array<bv8>

    ghost predicate Valid() {
      && IsNk(nk)
      && RoundKey.Length == ExpandedSize(nk)
      && Iv.Length == 16
      && RoundKey != Iv
    }

    /** A context as C declares it: storage only. */
    constructor (nk: nat)
      requires IsNk(nk)
      ensures Valid() && fresh(RoundKey) && fresh(Iv) && this.nk == nk
    {
      this.nk := nk;
      RoundKey := new bv8[16 * (nk + 7)];
      Iv := new bv8[16];
    }

    /** AES_init_ctx. */
    method Init(key: array<bv8>)
      requires Valid() && key.Length >= 4 * nk && key != RoundKey
      modifies RoundKey
      ensures RoundKey[..] == Expand(key[..4 * nk], nk)
    {
      AesKey.KeyExpansion(RoundKey, key, nk);
    }

    /** AES_ctx_set_iv. */
    method SetIv(iv: array<bv8>)
      requires Valid() && iv.Length >= 16
      modifies Iv
      ensures Iv[..] == old(iv[..16])
    {
      CopyBytes(Iv, 0, iv, 0, 16);
    }

    /** AES_init_ctx_iv. */
    method InitIv(key: array<bv8>, iv: array<bv8>)
      requires Valid() && key.Length >= 4 * nk && key != RoundKey && iv.Length >= 16 && iv != RoundKey
      modifies RoundKey, Iv
      ensures RoundKey[..] == Expand(old(key[..4 * nk]), nk)
      ensures Iv[..] == old(iv[..16])
    {
      Init(key);
      SetIv(iv);
    }

    /** AES_ECB_encrypt: one block in place. */
    method EcbEncrypt(buf: array<bv8>)
      requires Valid() && buf.Length >= 16 && buf != RoundKey
      modifies buf
      ensures buf[..16] == F.Cipher(old(buf[..16]), RoundKey[..]) && buf[16..] == old(buf[16..])
    {
      Aes.Cipher(buf, 0, RoundKey);
      assert buf[..16] == buf[0..0 + 16];
    }

    /** AES_ECB_decrypt: one block in place. */
    method EcbDecrypt(buf: array<bv8>)
      requires Valid() && buf.Length >= 16 && buf != RoundKey
      modifies buf
      ensures buf[..16] == F.InvCipher(old(buf[..16]), RoundKey[..]) && buf[16..] == old(buf[16..])
    {
      Aes.InvCipher(buf, 0, RoundKey);
      assert buf[..16] == buf[0..0 + 16];
    }

    /** The body of the loop of AES_CBC_encrypt_buffer. */
    method CbcEncryptBlock(buf: array<bv8>, p: nat, ivBuf: array<bv8>, ivAt: nat)
      requires Valid() && p + 16 <= buf.Length && ivAt + 16 <= ivBuf.Length
      requires buf != RoundKey && (buf != ivBuf || ivAt + 16 <= p)
      modifies buf
      ensures buf[..] == Splice(old(buf[..]), p,
                F.Cipher(Xor(old(buf[p..p + 16]), old(ivBuf[ivAt..ivAt + 16])), RoundKey[..]))
    {
      hide F.Cipher, Xor, Splice;
      ghost var s, x := buf[..], Xor(buf[p..p + 16], ivBuf[ivAt..ivAt + 16]);
      XorWithIv(buf, p, ivBuf, ivAt);
      ghost var s1 := buf[..];
      SpliceParts(s, p, x);
      assert s1[p..p + 16] == buf[p..p + 16];
      Aes.Cipher(buf, p, RoundKey);
      Written(s1, p, buf[..]);
      SpliceTwice(s, p, x, F.Cipher(x, RoundKey[..]));
    }

    /** The body of the loop of AES_CBC_decrypt_buffer. */
    method CbcDecryptBlock(buf: array<bv8>, p: nat, storeNextIv: array<bv8>)
      requires Valid() && p + 16 <= buf.Length && storeNextIv.Length == 16
      requires buf != RoundKey && buf != Iv
      requires storeNextIv != buf && storeNextIv != Iv && storeNextIv != RoundKey
      modifies buf, Iv, storeNextIv
      ensures buf[..] == Splice(old(buf[..]), p, Xor(F.InvCipher(old(buf[p..p + 16]), RoundKey[..]), old(Iv[..])))
      ensures Iv[..] == old(buf[p..p + 16])
    {
      hide F.InvCipher, Xor;
      ghost var s, iv, c := buf[..], Iv[..], buf[p..p + 16];
      CopyBytes(storeNextIv, 0, buf, p, 16);
      assert storeNextIv[..] == c;
      Aes.InvCipher(buf, p, RoundKey);
      ghost var x := F.InvCipher(c, RoundKey[..]);
      Written(s, p, buf[..]);
      assert Iv[0..0 + 16] == iv;
      XorWithIv(buf, p, Iv, 0);
      SpliceParts(s, p, x);
      SpliceTwice(s, p, x, Xor(x, iv));
      assert storeNextIv[0..0 + 16] == c;
      SpliceAll(Iv[..], c);
      CopyBytes(Iv, 0, storeNextIv, 0, 16);
    }

    /** AES_CBC_encrypt_buffer, on `length` bytes from position `at`.  The IV pointer starts at the
        context's IV and then follows the ciphertext through the buffer being written. */
    method CbcEncryptBuffer(buf: array<bv8>, at: nat, length: nat)
      requires Valid() && at + length <= buf.Length && length % 16 == 0
      requires buf != RoundKey && buf != Iv
      modifies buf, Iv
      ensures var c := CbcEncrypt(RoundKey[..], old(Iv[..]), old(buf[at..at + length]));
        && buf[..] == Splice(old(buf[..]), at, c)
        && Iv[..] == CbcNextIv(old(Iv[..]), c)
    {
      hide F.Cipher, Xor, Splice, CbcEncrypt, CbcNextIv;
      ghost var s, iv0, w := buf[..], Iv[..], RoundKey[..];
      ghost var done: seq<bv8> := CbcEncrypt(w, iv0, []);
      SpliceNothing(s, at);
      CbcOfNothing(w, iv0);
      var ivBuf, ivAt := Iv, 0;
      var p := at;
      var i := 0;
      while i < length
        invariant 0 <= i <= length && i % 16 == 0 && p == at + i
        invariant RoundKey[..] == w && Iv[..] == iv0
        invariant done == CbcEncrypt(w, iv0, s[at..at + i])
        invariant buf[..] == Splice(s, at, done)
        invariant if i == 0 then ivBuf == Iv && ivAt == 0 else ivBuf == buf && ivAt == p - 16
        invariant ivBuf[ivAt..ivAt + 16] == CbcNextIv(iv0, done)
      {
        CbcEncryptStep(w, iv0, s, at, i, done);
        assert buf[p..p + 16] == buf[..][p..p + 16];
        CbcEncryptBlock(buf, p, ivBuf, ivAt);
        done := CbcEncrypt(w, iv0, s[at..at + i + 16]);
        assert buf[p..p + 16] == buf[..][p..p + 16];
        ivBuf, ivAt := buf, p;
        p := p + 16;
        i := i + 16;
      }
      SpliceAll(Iv[..], CbcNextIv(iv0, done));
      CopyBytes(Iv, 0, ivBuf, ivAt, 16);
    }

    /** AES_CBC_decrypt_buffer. */
    method CbcDecryptBuffer(buf: array<bv8>, at: nat, length: nat)
      requires Valid() && at + length <= buf.Length && length % 16 == 0
      requires buf != RoundKey && buf != Iv
      modifies buf, Iv
      ensures var c := old(buf[at..at + length]);
        && buf[..] == Splice(old(buf[..]), at, CbcDecrypt(RoundKey[..], old(Iv[..]), c))
        && Iv[..] == CbcNextIv(old(Iv[..]), c)
    {
      hide F.InvCipher, Xor, Splice, CbcDecrypt, CbcNextIv;
      ghost var s, iv0, w := buf[..], Iv[..], RoundKey[..];
      ghost var done: seq<bv8> := CbcDecrypt(w, iv0, []);
      SpliceNothing(s, at);
      CbcOfNothing(w, iv0);
      var storeNextIv := new bv8[16];
      var p := at;
      var i := 0;
      while i < length
        invariant 0 <= i <= length && i % 16 == 0 && p == at + i
        invariant RoundKey[..] == w
        invariant done == CbcDecrypt(w, iv0, s[at..at + i])
        invariant buf[..] == Splice(s, at, done)
        invariant Iv[..] == CbcNextIv(iv0, s[at..at + i])
      {
        CbcDecryptStep(w, iv0, s, at, i, done);
        assert buf[p..p + 16] == buf[..][p..p + 16];
        CbcDecryptBlock(buf, p, storeNextIv);
        done := CbcDecrypt(w, iv0, s[at..at + i + 16]);
        p := p + 16;
        i := i + 16;
      }
    }

    /** The carry loop of AES_CTR_xcrypt_buffer. */
    method IncrementIv()
      requires Valid()
      modifies Iv
      ensures Iv[..] == Increment(old(Iv[..]))
    {
      hide Increment;
      ghost var s := Iv[..];
      ghost var zeros: seq<bv8> := [];
      assert s[..16] == s;
      var bi := 15;
      while bi >= 0
        invariant -1 <= bi <= 15 && |zeros| == 15 - bi
        invariant Iv[..] == s[..bi + 1] + zeros
        invariant Increment(s) == Increment(s[..bi + 1]) + zeros
      {
        IncrementLast(s[..bi + 1]);
        assert s[..bi + 1][..bi] == s[..bi];
        if Iv[bi] == 255 {
          Iv[bi] := 0;
          zeros := [0] + zeros;
          bi := bi - 1;
          continue;
        }
        Iv[bi] := Iv[bi] + 1;
        return;
      }
      IncrementNothing();
    }

    /** The part of AES_CTR_xcrypt_buffer that makes a new key-stream block. */
    method RegenerateKeyStream(buffer: array<bv8>)
      requires Valid() && buffer.Length == 16 && buffer != RoundKey && buffer != Iv
      modifies buffer, Iv
      ensures buffer[..] == F.Cipher(old(Iv[..]), RoundKey[..])
      ensures Iv[..] == Increment(old(Iv[..]))
    {
      hide F.Cipher, Increment;
      CopyBytes(buffer, 0, Iv, 0, 16);
      assert buffer[0..0 + 16] == Iv[..];
      Aes.Cipher(buffer, 0, RoundKey);
      assert buffer[..] == buffer[0..0 + 16];
      IncrementIv();
    }

    /** AES_CTR_xcrypt_buffer, on `length` bytes from position `at`. */
    method CtrXcryptBuffer(buf: array<bv8>, at: nat, length: nat)
      requires Valid() && at + length <= buf.Length
      requires buf != RoundKey && buf != Iv
      modifies buf, Iv
      ensures buf[..] == Splice(old(buf[..]), at, Ctr(RoundKey[..], old(Iv[..]), old(buf[at..at + length])))
      ensures Iv[..] == CtrNextIv(old(Iv[..]), length)
    {
      hide F.Cipher, Add, CounterBlock, Increment, CtrBlock, Ctr;
      ghost var s, iv0, w := buf[..], Iv[..], RoundKey[..];
      ghost var m := s[at..at + length];
      var buffer := new bv8[16];
      CounterBlockZero(iv0);
      var i, bi := 0, 16;
      while i < length
        invariant 0 <= i <= length
        invariant bi == if i % 16 == 0 then 16 else i % 16
        invariant RoundKey[..] == w
        invariant Iv[..] == CounterBlock(iv0, BlocksFor(i))
        invariant i % 16 != 0 ==> buffer[..] == CtrBlock(w, iv0, i / 16)
        invariant PrefixReplaced(s, buf[..], Ctr(w, iv0, m), at, i)
      {
        CtrIndices(i);
        if bi == 16 {
          RegenerateKeyStream(buffer);
          CtrBlockIsCipher(w, iv0, i / 16);
          CounterBlockNext(iv0, i / 16);
          bi := 0;
        }
        CtrAt(w, iv0, m, i);
        assert buf[at + i] == m[i];
        buf[at + i] := Add(buf[at + i], buffer[bi]);
        i, bi := i + 1, bi + 1;
      }
      AllReplaced(s, buf[..], Ctr(w, iv0, m), at);
    }
  }
}
