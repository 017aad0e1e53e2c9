/** usim.c and fpga-auth.c in the enclave: from the 48 bytes of a challenge to the 46 bytes of the answer. */
module Enclave {
  import opened Bytes
  import opened AesContext
  import opened AutnCode
  import opened Messages
  import opened MilenageCode
  import M = Milenage

  /** The subscriber key the enclave carries. */
  const KEY: Block := [0x00, 0x11, 0x22, 0x33, 0x44, 0x55, 0x66, 0x77, 0x88, 0x99, 0xaa, 0xbb, 0xcc, 0xdd, 0xee, 0xff]

  /** 00, 11, 22, and so on to ff. */
  lemma KeyBytes()
    ensures KEY[0] == 0 && forall i :: 0 <= i < 15 ==> KEY[i + 1] == KEY[i] + 0x11
  {
  }

  class Eapp {
    /** The two globals of fpga-auth.c. */
    const ck: array<bv8>
    const ik: array<bv8>

    ghost predicate Valid() {
      ck.Length == 16 && ik.Length == 16 && ck != ik
    }

    constructor ()
      ensures Valid() && fresh(ck) && fresh(ik)
    {
      ck := new bv8[16];
      ik := new bv8[16];
    }

    /** gen_auth_res_milenage of usim.c.  Always a success: it compares no AUTN. */
    method GenAuthResMilenage(opc: array<bv8>, rand: array<bv8>, autnEnb: array<bv8>, res: array<bv8>, akXorSqn: array<bv8>)
      returns (err: Liblte)
      requires Valid() && opc.Length >= 16 && rand.Length >= 16 && autnEnb.Length >= 16
      requires res.Length >= 8 && akXorSqn.Length >= 6
      requires opc !in {res, ck, ik} && autnEnb !in {res, ck, ik} && rand !in {res, ck, ik}
      requires res !in {ck, ik, akXorSqn} && akXorSqn !in {ck, ik}
      modifies res, ck, ik, akXorSqn
      ensures err == Success
      ensures var answer := Respond(KEY, Challenge(old(rand[..16]), old(opc[..16]), old(autnEnb[..16])));
        && res[..] == Splice(old(res[..]), 0, answer.res)
        && akXorSqn[..] == Splice(old(akXorSqn[..]), 0, answer.akXorSqn)
        && ck[..] == answer.ck
        && ik[..] == answer.ik
      ensures var oo, rr := old(opc[..16]), old(rand[..16]);
        && res[..8] == M.F2(KEY, oo, rr)
        && akXorSqn[..6] == old(autnEnb[..6])
        && ck[..] == M.F3(KEY, oo, rr)
        && ik[..] == M.F4(KEY, oo, rr)
    {
      hide Respond, ResultsOf, AfterWrites, M.F1, M.F2, M.F3, M.F4, M.F5, Xor, Splice;
      ghost var ch := Challenge(rand[..16], opc[..16], autnEnb[..16]);
      var k := new bv8[] [0x00, 0x11, 0x22, 0x33, 0x44, 0x55, 0x66, 0x77, 0x88, 0x99, 0xaa, 0xbb, 0xcc, 0xdd, 0xee, 0xff];
      assert k[..16] == KEY;
      var sqn, amf, ak, mac := new bv8[6], new bv8[4], new bv8[6], new bv8[8];
      SpliceAll(ck[..], M.F3(KEY, ch.opc, ch.rand));
      SpliceAll(ik[..], M.F4(KEY, ch.opc, ch.rand));
      SpliceAll(ak[..], M.F5(KEY, ch.opc, ch.rand));
      err := F2345(k, opc, rand, res, ck, ik, ak);
      assert autnEnb[..6] == ch.autn[..6];
      assert ak[..6] == ak[..];
      SpliceAll(sqn[..], Xor(autnEnb[..6], ak[..6]));
      XorSix(sqn, autnEnb, ak);
      CopyOut(amf, autnEnb, 6, 2);
      err := F1(k, opc, rand, sqn, amf, mac);
      assert sqn[..6] == sqn[..];
      XorSix(akXorSqn, sqn, ak);
      RespondIs(KEY, ch);
      AnswerParts(KEY, ch);
      SplicePrefix(old(res[..]), M.F2(KEY, ch.opc, ch.rand));
      SplicePrefix(old(akXorSqn[..]), ch.autn[..6]);
      assert res[..8] == res[..][..8] && akXorSqn[..6] == akXorSqn[..][..6];
      err := Success;
    }

    /** The 92-byte send buffer, of which the first 46 bytes are sent. */
    method Reply(resO: array<bv8>, akXorSqn: array<bv8>) returns (sent: seq<bv8>)
      requires Valid() && resO.Length == 8 && akXorSqn.Length == 6
      ensures sent == AnswerBytes(Answer(resO[..], akXorSqn[..], ck[..], ik[..]))
    {
      var sendBuffer := new bv8[92];
      CopyBytes(sendBuffer, 0, resO, 0, 8);
      CopyBytes(sendBuffer, 8, akXorSqn, 0, 6);
      CopyBytes(sendBuffer, 8 + 6, ck, 0, 16);
      CopyBytes(sendBuffer, 8 + 6 + 16, ik, 0, 16);
      assert resO[0..0 + 8] == resO[..] && akXorSqn[0..0 + 6] == akXorSqn[..];
      assert ck[0..0 + 16] == ck[..] && ik[0..0 + 16] == ik[..];
      sent := sendBuffer[..46];
    }

    /** eapp_entry: the received bytes cut into RAND, OPc and AUTN, and the answer laid out for sending. */
    method Entry(data: array<bv8>) returns (sent: seq<bv8>)
      requires Valid() && data.Length >= 48 && data !in {ck, ik}
      modifies ck, ik
      ensures var answer := Respond(KEY, ChallengeOf(old(data[..48])));
        sent == AnswerBytes(answer) && ck[..] == answer.ck && ik[..] == answer.ik
      ensures var rr, oo, aa := old(data[..16]), old(data[16..32]), old(data[32..48]);
        && |sent| == 46
        && sent[..8] == M.F2(KEY, oo, rr)
        && sent[8..14] == aa[..6]
        && sent[14..30] == ck[..] == M.F3(KEY, oo, rr)
        && sent[30..46] == ik[..] == M.F4(KEY, oo, rr)
    {
      hide Respond, Splice, AnswerBytes, M.F2, M.F3, M.F4;
      var opcO, rand, autnEnb := new bv8[16], new bv8[16], new bv8[16];
      var resO, akXorSqn := new bv8[8], new bv8[6];
      ghost var ch := ChallengeOf(data[..48]);
      ghost var answer := Respond(KEY, ch);
      assert data[0..0 + 16] == ch.rand && data[16..16 + 16] == ch.opc && data[32..32 + 16] == ch.autn;
      SpliceAll(rand[..], ch.rand);
      SpliceAll(opcO[..], ch.opc);
      SpliceAll(autnEnb[..], ch.autn);
      CopyBytes(rand, 0, data, 0, 16);
      CopyBytes(opcO, 0, data, 16, 16);
      CopyBytes(autnEnb, 0, data, 32, 16);
      assert rand[..16] == rand[..] && opcO[..16] == opcO[..] && autnEnb[..16] == autnEnb[..];
      SpliceAll(resO[..], answer.res);
      SpliceAll(akXorSqn[..], answer.akXorSqn);
      var err := GenAuthResMilenage(opcO, rand, autnEnb, resO, akXorSqn);
      AnswerParts(KEY, ch);
      AnswerBytesParts(KEY, ch);
      sent := Reply(resO, akXorSqn);
    }
  }
}
