/** usim.c: Milenage on scratch buffers, results through pointers. */
module MilenageCode {
  import opened Bytes
  import opened Gf256
  import opened AesContext
  import opened Milenage
  import F = Fips197
  import KeySchedule

  datatype Liblte = Success | InvalidInputs

  /** The scratch byte that lands at p when byte i is written to (i + shift) % 16. */
  function Origin(p: int, shift: int): int {
    if p >= shift then p - shift else p + 16 - shift
  }

  lemma WrittenTo(i: nat, shift: nat)
    requires i < 16 && shift < 16
    ensures 0 <= (i + shift) % 16 < 16
    ensures forall p :: 0 <= p < 16 ==> (Origin(p, shift) == i <==> p == (i + shift) % 16)
  {
    assert (i + shift) % 16 == if i + shift < 16 then i + shift else i + shift - 16;
  }

  /** The loop `dst[(i + shift) % 16] = a[i] ^ b[i]`: it fills the whole buffer with the sum, rotated. */
  method XorRotated(dst: array<bv8>, a: array<bv8>, b: array<bv8>, shift: nat)
    requires dst.Length == 16 && a.Length >= 16 && b.Length >= 16 && dst != a && dst != b
    requires shift < 16
    modifies dst
    ensures dst[..] == Rot(Xor(a[..16], b[..16]), if shift == 0 then 0 else 8 * (16 - shift))
  {
    hide Add;
    for i := 0 to 16
      invariant forall p :: 0 <= p < 16 && Origin(p, shift) < i ==>
        dst[p] == Add(a[Origin(p, shift)], b[Origin(p, shift)])
    {
      WrittenTo(i, shift);
      dst[(i + shift) % 16] := Add(a[i], b[i]);
    }
    var x := Xor(a[..16], b[..16]);
    assert forall p :: 0 <= p < 16 ==> dst[p] == x[Origin(p, shift)];
  }

  /** The loop `dst[i] ^= b[i]`. */
  method XorInPlace(dst: array<bv8>, b: array<bv8>)
    requires dst.Length == 16 && b.Length >= 16 && dst != b
    modifies dst
    ensures dst[..] == Xor(old(dst[..]), b[..16])
  {
    hide Add;
    for i := 0 to 16
      invariant forall p :: 0 <= p < 16 ==> dst[p] == if p < i then Add(old(dst[p]), b[p]) else old(dst[p])
    {
      dst[i] := Add(dst[i], b[i]);
    }
  }

  /** The loop `dst[i] = src[from + i]` for n bytes. */
  method CopyOut(dst: array<bv8>, src: array<bv8>, from: nat, n: nat)
    requires n <= dst.Length && from + n <= src.Length && dst != src
    modifies dst
    ensures dst[..] == Splice(old(dst[..]), 0, src[from..from + n])
  {
    for i := 0 to n
      invariant forall p :: 0 <= p < dst.Length ==> dst[p] == if p < i then src[from + p] else old(dst[p])
    {
      dst[i] := src[from + i];
    }
  }

  lemma XorLastByte(x: Block, c: bv8)
    ensures Xor(x, Ci(c)) == x[15 := Add(x[15], c)]
  {
    hide Add;
    forall i | 0 <= i < 15
      ensures Add(x[i], 0) == x[i]
    {
      AddLaws(x[i], 0, 0, 0);
    }
  }

  /** The stretch of f2345 that each of OUT2, OUT3 and OUT4 goes through: scratch input from `temp`,
      its last byte adjusted, and the kernel applied to a copy of it. */
  method ComputeOut(ctx: AesCtx, temp: array<bv8>, opC: array<bv8>, shift: nat, c: bv8, input: array<bv8>, out: array<bv8>)
    requires ctx.Valid() && ctx.nk == 4
    requires temp.Length == input.Length == out.Length == 16 && opC.Length >= 16 && shift < 16
    requires input != temp && input != opC && out != temp && out != opC && input != out
    requires ctx.RoundKey != input && ctx.RoundKey != out
    modifies input, out
    ensures var r := if shift == 0 then 0 else 8 * (16 - shift);
      out[..] == Xor(F.Cipher(Xor(Rot(Xor(temp[..], opC[..16]), r), Ci(c)), ctx.RoundKey[..]), opC[..16])
  {
    hide F.Cipher, Rot, Xor, Add;
    ghost var r := if shift == 0 then 0 else 8 * (16 - shift);
    assert temp[..16] == temp[..];
    XorRotated(input, temp, opC, shift);
    ghost var x := input[..];
    input[15] := Add(input[15], c);
    XorLastByte(x, c);
    assert input[..] == Xor(x, Ci(c));
    CopyBytes(out, 0, input, 0, 16);
    assert input[0..0 + 16] == input[..];
    SpliceAll(old(out[..]), input[..]);
    assert out[..16] == out[..];
    ctx.EcbEncrypt(out);
    assert out[..16] == out[..];
    XorInPlace(out, opC);
  }

  lemma RotByNothing(x: Block)
    ensures Rot(x, 0) == x
  {
  }

  /** AES_init_ctx on a fresh context. */
  method NewContext(k: array<bv8>) returns (ctx: AesCtx)
    requires k.Length >= 16
    ensures ctx.Valid() && ctx.nk == 4 && fresh(ctx) && fresh(ctx.RoundKey) && fresh(ctx.Iv)
    ensures ctx.RoundKey[..] == KeySchedule.Expand(k[..16], 4)
  {
    ctx := new AesCtx(4);
    ctx.Init(k);
  }

  /** The first stretch of f2345 and f1: the context for k, and TEMP. */
  method ComputeTemp(k: array<bv8>, opC: array<bv8>, rand: array<bv8>) returns (ctx: AesCtx, temp: array<bv8>)
    requires k.Length >= 16 && opC.Length >= 16 && rand.Length >= 16
    ensures ctx.Valid() && ctx.nk == 4 && fresh(ctx) && fresh(ctx.RoundKey) && fresh(ctx.Iv)
    ensures ctx.RoundKey[..] == KeySchedule.Expand(k[..16], 4)
    ensures fresh(temp) && temp.Length == 16 && temp != ctx.RoundKey
    ensures temp[..] == TempOf(k[..16], opC[..16], rand[..16])
  {
    hide F.Cipher, Rot, Xor, KeySchedule.Expand, Splice;
    ctx := NewContext(k);
    temp := new bv8[16];
    var input := new bv8[16];
    XorRotated(input, rand, opC, 0);
    RotByNothing(Xor(rand[..16], opC[..16]));
    assert input[0..0 + 16] == input[..];
    SpliceAll(temp[..], input[..]);
    CopyBytes(temp, 0, input, 0, 16);
    assert temp[..16] == temp[..];
    ctx.EcbEncrypt(temp);
    assert temp[..16] == temp[..];
  }

  // ----- four results, through pointers that may coincide -----

  /** What f2345 computes for its four result pointers. */
  datatype Results = Results(res: Mac, ak: Sqn, ck: Block, ik: Block)

  /** An output block, from TEMP and the sixteen bytes that OPc points to at that time. */
  function OutFrom(k: Block, temp: Block, opc: Block, r: nat, c: bv8): Block
    requires r % 8 == 0 && r < 128
  {
    Xor(F.Cipher(Xor(Rot(Xor(temp, opc), r), Ci(c)), KeySchedule.Expand(k, 4)), opc)
  }

  /** A buffer after a write to its front, if the pointer written through is this buffer. */
  function Over(here: bool, s: seq<bv8>, piece: seq<bv8>): (r: seq<bv8>)
    ensures |r| == |s|
  {
    if here && |piece| <= |s| then Splice(s, 0, piece) else s
  }

  /** A buffer after the four writes, in the order of the code: the flags say which result pointers it is. */
  function AfterWrites(isRes: bool, isAk: bool, isCk: bool, isIk: bool, s: seq<bv8>, o: Results): seq<bv8> {
    Over(isIk, Over(isCk, Over(isAk, Over(isRes, s, o.res), o.ak), o.ck), o.ik)
  }

  /** The last write to a buffer is what its front holds. */
  lemma LastWriteStays(isRes: bool, isAk: bool, isCk: bool, isIk: bool, s: seq<bv8>, o: Results)
    ensures var t := AfterWrites(isRes, isAk, isCk, isIk, s, o);
      && |t| == |s|
      && (isIk && |s| >= 16 ==> t[..16] == o.ik)
      && (isCk && !isIk && |s| >= 16 ==> t[..16] == o.ck)
      && (isAk && !isCk && !isIk && |s| >= 6 ==> t[..6] == o.ak)
      && (isRes && !isAk && !isCk && !isIk && |s| >= 8 ==> t[..8] == o.res)
  {
  }

  /** The results; the flags say which result pointers are the OPc buffer, which is read once for each output. */
  function ResultsOf(k: Block, rand: Block, opc: seq<bv8>, isRes: bool, isAk: bool, isCk: bool): Results
    requires |opc| >= 16
  {
    var temp := TempOf(k, opc[..16], rand);
    var out2 := OutFrom(k, temp, opc[..16], 0, 1);
    var opc3 := Over(isAk, Over(isRes, opc, out2[8..]), out2[..6]);
    var ck := OutFrom(k, temp, opc3[..16], 32, 2);
    var opc4 := Over(isCk, opc3, ck);
    Results(out2[8..], out2[..6], ck, OutFrom(k, temp, opc4[..16], 64, 4))
  }

  /** When RES, AK and CK are written elsewhere, OPc is the same each time, and the results are Milenage's. */
  lemma ResultsAreMilenage(k: Block, rand: Block, opc: seq<bv8>)
    requires |opc| >= 16
    ensures var oo := opc[..16];
      ResultsOf(k, rand, opc, false, false, false)
      == Results(Milenage.F2(k, oo, rand), Milenage.F5(k, oo, rand), Milenage.F3(k, oo, rand), Milenage.F4(k, oo, rand))
  {
    hide F.Cipher, Rot, Xor, KeySchedule.Expand, TempOf;
  }

  /** One such write, as five buffers see it. */
  method CopyOver(dst: array<bv8>, src: array<bv8>, from: nat, n: nat,
                  ghost res: array<bv8>, ghost ck: array<bv8>, ghost ik: array<bv8>, ghost ak: array<bv8>, ghost opC: array<bv8>)
    requires n <= dst.Length && from + n <= src.Length && dst != src
    modifies dst
    ensures var piece := old(src[from..from + n]);
      && res[..] == Over(res == dst, old(res[..]), piece) && ck[..] == Over(ck == dst, old(ck[..]), piece)
      && ik[..] == Over(ik == dst, old(ik[..]), piece) && ak[..] == Over(ak == dst, old(ak[..]), piece)
      && opC[..] == Over(opC == dst, old(opC[..]), piece)
  {
    hide Splice;
    CopyOut(dst, src, from, n);
  }

  /** The rest of f2345: three outputs from TEMP, each copied to its result pointers. */
  method DeriveOutputs(ctx: AesCtx, temp: array<bv8>, k: Block, opC: array<bv8>, ghost rand: Block,
                       res: array<bv8>, ck: array<bv8>, ik: array<bv8>, ak: array<bv8>)
    requires ctx.Valid() && ctx.nk == 4 && ctx.RoundKey[..] == KeySchedule.Expand(k, 4)
    requires temp.Length == 16 && opC.Length >= 16 && temp[..] == TempOf(k, opC[..16], rand)
    requires temp !in {res, ck, ik, ak} && ctx.RoundKey !in {res, ck, ik, ak}
    requires res.Length >= 8 && ck.Length >= 16 && ik.Length >= 16 && ak.Length >= 6
    modifies res, ck, ik, ak
    ensures var o := ResultsOf(k, rand, old(opC[..]), opC == res, opC == ak, opC == ck);
      && res[..] == AfterWrites(true, res == ak, res == ck, res == ik, old(res[..]), o)
      && ak[..] == AfterWrites(ak == res, true, ak == ck, ak == ik, old(ak[..]), o)
      && ck[..] == AfterWrites(ck == res, ck == ak, true, ck == ik, old(ck[..]), o)
      && ik[..] == AfterWrites(ik == res, ik == ak, ik == ck, true, old(ik[..]), o)
  {
    hide F.Cipher, Rot, Xor, KeySchedule.Expand, TempOf, Over;
    var input, out := new bv8[16], new bv8[16];
    ghost var opc := opC[..];
    assert opC[..16] == opc[..16];
    ComputeOut(ctx, temp, opC, 0, 1, input, out);
    assert out[8..8 + 8] == out[..][8..] && out[0..0 + 6] == out[..][..6];
    ghost var out2 := out[..];
    CopyOver(res, out, 8, 8, res, ck, ik, ak, opC);
    CopyOver(ak, out, 0, 6, res, ck, ik, ak, opC);
    ghost var opc3 := Over(opC == ak, Over(opC == res, opc, out2[8..]), out2[..6]);
    assert opC[..] == opc3 && opC[..16] == opc3[..16];
    ComputeOut(ctx, temp, opC, 12, 2, input, out);
    assert out[0..0 + 16] == out[..];
    ghost var out3 := out[..];
    CopyOver(ck, out, 0, 16, res, ck, ik, ak, opC);
    ghost var opc4 := Over(opC == ck, opc3, out3);
    assert opC[..] == opc4 && opC[..16] == opc4[..16];
    ComputeOut(ctx, temp, opC, 8, 4, input, out);
    assert out[0..0 + 16] == out[..];
    CopyOver(ik, out, 0, 16, res, ck, ik, ak, opC);
  }

  /** liblte_security_milenage_f2345: RES, CK, IK and AK through the four result pointers. */
  method F2345(k: array?<bv8>, opC: array?<bv8>, rand: array?<bv8>,
               res: array?<bv8>, ck: array?<bv8>, ik: array?<bv8>, ak: array?<bv8>) returns (err: Liblte)
    requires k != null ==> k.Length >= 16
    requires opC != null ==> opC.Length >= 16
    requires rand != null ==> rand.Length >= 16
    requires res != null ==> res.Length >= 8
    requires ck != null ==> ck.Length >= 16
    requires ik != null ==> ik.Length >= 16
    requires ak != null ==> ak.Length >= 6
    modifies res, ck, ik, ak
    ensures err == Success <==>
      k != null && opC != null && rand != null && res != null && ck != null && ik != null && ak != null
    ensures err == Success ==>
      var o := ResultsOf(old(k[..16]), old(rand[..16]), old(opC[..]), opC == res, opC == ak, opC == ck);
      && res[..] == AfterWrites(true, res == ak, res == ck, res == ik, old(res[..]), o)
      && ak[..] == AfterWrites(ak == res, true, ak == ck, ak == ik, old(ak[..]), o)
      && ck[..] == AfterWrites(ck == res, ck == ak, true, ck == ik, old(ck[..]), o)
      && ik[..] == AfterWrites(ik == res, ik == ak, ik == ck, true, old(ik[..]), o)
    ensures err == Success ==>
      var o := ResultsOf(old(k[..16]), old(rand[..16]), old(opC[..]), opC == res, opC == ak, opC == ck);
      && ik[..16] == o.ik
      && (ck != ik ==> ck[..16] == o.ck)
      && (ak !in {ck, ik} ==> ak[..6] == o.ak)
      && (res !in {ak, ck, ik} ==> res[..8] == o.res)
    ensures err == Success && opC !in {res, ck, ak} && res !in {ck, ik, ak} && ck !in {ik, ak} && ik != ak ==>
      var kk, oo, rr := old(k[..16]), old(opC[..16]), old(rand[..16]);
      && res[..] == Splice(old(res[..]), 0, Milenage.F2(kk, oo, rr))
      && ck[..] == Splice(old(ck[..]), 0, Milenage.F3(kk, oo, rr))
      && ik[..] == Splice(old(ik[..]), 0, Milenage.F4(kk, oo, rr))
      && ak[..] == Splice(old(ak[..]), 0, Milenage.F5(kk, oo, rr))
    ensures err != Success ==> forall p | p in {res, ck, ik, ak} && p != null :: p[..] == old(p[..])
  {
    hide F.Cipher, Rot, Xor, KeySchedule.Expand, Splice, TempOf, ResultsOf, OutFrom;
    err := InvalidInputs;
    if k != null && opC != null && rand != null && res != null && ck != null && ik != null && ak != null {
      ghost var opc := opC[..];
      assert opC[..16] == opc[..16];
      ResultsAreMilenage(k[..16], rand[..16], opc);
      var ctx, temp := ComputeTemp(k, opC, rand);
      ghost var o := ResultsOf(k[..16], rand[..16], opc, opC == res, opC == ak, opC == ck);
      LastWriteStays(true, res == ak, res == ck, res == ik, res[..], o);
      LastWriteStays(ak == res, true, ak == ck, ak == ik, ak[..], o);
      LastWriteStays(ck == res, ck == ak, true, ck == ik, ck[..], o);
      LastWriteStays(ik == res, ik == ak, ik == ck, true, ik[..], o);
      DeriveOutputs(ctx, temp, k[..16], opC, rand[..16], res, ck, ik, ak);
      assert res[..8] == res[..][..8] && ak[..6] == ak[..][..6] && ck[..16] == ck[..][..16] && ik[..16] == ik[..][..16];
      err := Success;
    }
  }

  /** The scratch block of f1: SQN || AMF || SQN || AMF. */
  method BuildIn1(sqn: array<bv8>, amf: array<bv8>) returns (in1: array<bv8>)
    requires sqn.Length >= 6 && amf.Length >= 2
    ensures fresh(in1) && in1.Length == 16 && in1[..] == In1(sqn[..6], amf[..2])
    ensures forall i :: 0 <= i < 6 ==> in1[i] == in1[i + 8] == sqn[i]
    ensures forall i :: 0 <= i < 2 ==> in1[6 + i] == in1[14 + i] == amf[i]
  {
    in1 := new bv8[16];
    for i := 0 to 6
      invariant forall p :: 0 <= p < i ==> in1[p] == sqn[p] && in1[p + 8] == sqn[p]
    {
      in1[i] := sqn[i];
      in1[i + 8] := sqn[i];
    }
    for i := 0 to 2
      invariant forall p :: 0 <= p < 6 ==> in1[p] == sqn[p] && in1[p + 8] == sqn[p]
      invariant forall p :: 0 <= p < i ==> in1[p + 6] == amf[p] && in1[p + 14] == amf[p]
    {
      in1[i + 6] := amf[i];
      in1[i + 14] := amf[i];
    }
  }

  lemma XorZero(x: Block)
    ensures Xor(x, Ci(0)) == x
  {
    XorLastByte(x, 0);
    AddLaws(x[15], 0, 0, 0);
  }

  /** The kernel input of OUT1: the rotated sum of IN1 and OPc, with TEMP added. */
  method MaskIn1(input: array<bv8>, in1: array<bv8>, opC: array<bv8>, temp: array<bv8>)
    requires input.Length == 16 && in1.Length == 16 && opC.Length >= 16 && temp.Length == 16
    requires input !in {in1, opC, temp}
    modifies input
    ensures input[..] == Xor(Xor(temp[..], Rot(Xor(in1[..], opC[..16]), 64)), Ci(0))
  {
    hide Xor, Rot;
    assert in1[..16] == in1[..];
    XorRotated(input, in1, opC, 8);
    assert temp[..16] == temp[..];
    XorInPlace(input, temp);
    XorCommutes(Rot(Xor(in1[..], opC[..16]), 64), temp[..]);
    XorZero(Xor(temp[..], Rot(Xor(in1[..], opC[..16]), 64)));
  }

  /** liblte_security_milenage_f1: MAC-A through the result pointer. */
  method F1(k: array?<bv8>, opC: array?<bv8>, rand: array?<bv8>, sqn: array?<bv8>, amf: array?<bv8>,
            macA: array?<bv8>) returns (err: Liblte)
    requires k != null ==> k.Length >= 16
    requires opC != null ==> opC.Length >= 16
    requires rand != null ==> rand.Length >= 16
    requires sqn != null ==> sqn.Length >= 6
    requires amf != null ==> amf.Length >= 2
    requires macA != null ==> macA.Length >= 8
    modifies macA
    ensures err == Success <==>
      k != null && opC != null && rand != null && sqn != null && amf != null && macA != null
    ensures err == Success ==> macA[..] == Splice(old(macA[..]), 0,
      Milenage.F1(old(k[..16]), old(opC[..16]), old(rand[..16]), old(sqn[..6]), old(amf[..2])))
    ensures err != Success && macA != null ==> macA[..] == old(macA[..])
  {
    err := InvalidInputs;
    if k != null && opC != null && rand != null && sqn != null && amf != null && macA != null {
      hide F.Cipher, Rot, Xor, KeySchedule.Expand, Splice, TempOf, In1;
      var ctx, temp := ComputeTemp(k, opC, rand);
      var in1 := BuildIn1(sqn, amf);
      var input := new bv8[16];
      MaskIn1(input, in1, opC, temp);
      assert input[..16] == input[..];
      ctx.EcbEncrypt(input);
      assert input[..16] == input[..];
      XorInPlace(input, opC);
      assert input[0..0 + 8] == input[..][..8];
      CopyBytes(macA, 0, input, 0, 8);
      err := Success;
    }
  }
}
