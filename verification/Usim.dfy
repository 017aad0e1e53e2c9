/** usim.cc on the UE: the local authentication functions and their members. */
module Usim {
  import opened Bytes
  import opened AutnCode
  import opened Messages
  import opened MilenageCode
  import M = Milenage

  /** Milenage's MAC, as a function of what the AUTN check recovers. */
  function MacOf(k: Block, opc: Block, rand: Block): (M.Sqn, M.Amf) -> M.Mac {
    (sqn, amf) => M.F1(k, opc, rand, sqn, amf)
  }

  /** What security_xor_f2345 and security_xor_f1, which live in another repository, compute. */
  datatype XorOutputs = XorOutputs(res: Block, ck: Block, ik: Block, ak: M.Sqn)
  datatype XorLibrary = XorLibrary(f2345: (Block, Block) -> XorOutputs, f1: (Block, Block, M.Sqn, M.Amf) -> M.Mac)
  {
    function MacOf(k: Block, rand: Block): (M.Sqn, M.Amf) -> M.Mac {
      (sqn, amf) => f1(k, rand, sqn, amf)
    }
  }

  /** The rebuilt AUTN: its first eight bytes are those received, so the comparison is that of the rest. */
  lemma AcceptedIs(ak: M.Sqn, macOf: (M.Sqn, M.Amf) -> M.Mac, autn: Block, mac: M.Mac)
    requires mac == macOf(Xor(autn[..6], ak), autn[6..8])
    ensures var built := BuildAutn(ak, Xor(autn[..6], ak), autn[6..8], mac);
      && built == autn[..8] + mac
      && (AutnAccepted(ak, macOf, autn) <==> built == autn)
      && (built == autn <==> autn[8..] == mac)
  {
    hide Xor;
    XorCancels(autn[..6], ak);
    assert autn == autn[..8] + autn[8..] && autn[..6] + autn[6..8] == autn[..8];
  }

  /** An AUTN passes the Milenage check exactly when it ends with f1 of the SQN and AMF it carries. */
  lemma MilenageAutnAccepted(k: Block, opc: Block, rand: Block, autn: Block)
    ensures AutnAccepted(M.F5(k, opc, rand), MacOf(k, opc, rand), autn)
       <==> autn[8..] == M.F1(k, opc, rand, SqnOf(k, opc, rand, autn), autn[6..8])
  {
    hide M.F1, M.F5, Xor, AutnAccepted;
    AutnAcceptedIffMac(M.F5(k, opc, rand), MacOf(k, opc, rand), autn);
  }

  /** The AUTN of a network that shares K and OPc passes, and the UE recovers the network's SQN. */
  lemma NetworkAutnAccepted(k: Block, opc: Block, rand: Block, sqn: M.Sqn, amf: M.Amf)
    ensures var autn := BuildAutn(M.F5(k, opc, rand), sqn, amf, M.F1(k, opc, rand, sqn, amf));
      && AutnAccepted(M.F5(k, opc, rand), MacOf(k, opc, rand), autn)
      && SqnOf(k, opc, rand, autn) == sqn
  {
    hide M.F1, M.F5, Xor, AutnAccepted, BuildAutn;
    BuiltAutnAccepted(M.F5(k, opc, rand), MacOf(k, opc, rand), sqn, amf);
  }

  /** Writes a whole buffer. */
  method Fill(dst: array<bv8>, value: seq<bv8>)
    requires dst.Length == |value|
    modifies dst
    ensures dst[..] == value
  {
    for i := 0 to |value|
      invariant dst[..i] == value[..i]
    {
      dst[i] := value[i];
    }
  }

  class UeUsim {
    const k: array<bv8>
    const opc: array<bv8>
    const ck: array<bv8>
    const ik: array<bv8>
    const ak: array<bv8>
    const amf: array<bv8>
    const mac: array<bv8>
    const autn: array<bv8>
    /** Whether a call has gone through the vSIM. */
    var fpgaInitialized: bool

    ghost predicate Valid() {
      && k.Length == 16 && opc.Length == 16 && ck.Length == 16 && ik.Length == 16
      && ak.Length == 6 && amf.Length == 2 && mac.Length == 8 && autn.Length == 16
      && k !in {opc, ck, ik, ak, amf, mac, autn}
      && opc !in {ck, ik, ak, amf, mac, autn}
      && ck !in {ik, ak, amf, mac, autn}
      && ik !in {ak, amf, mac, autn}
      && ak !in {amf, mac, autn}
      && amf !in {mac, autn}
      && mac != autn
    }

    /** No member is passed as a parameter, as the members are private to the object. */
    ghost predicate Outside(a: array<bv8>) {
      a !in {k, opc, ck, ik, ak, amf, mac, autn}
    }

    constructor ()
      ensures Valid() && !fpgaInitialized
      ensures fresh(k) && fresh(opc) && fresh(ck) && fresh(ik) && fresh(ak) && fresh(amf) && fresh(mac) && fresh(autn)
    {
      k, opc, ck, ik := new bv8[16], new bv8[16], new bv8[16], new bv8[16];
      ak, amf, mac, autn := new bv8[6], new bv8[2], new bv8[8], new bv8[16];
      fpgaInitialized := false;
    }

    /** The second half of both checks: AUTN rebuilt from the recovered SQN and AMF and the MAC, and compared. */
    method FinishCheck(autnEnb: array<bv8>, sqn: array<bv8>, akXorSqn: array<bv8>) returns (result: AuthResult)
      requires Valid() && autnEnb.Length >= 16 && sqn.Length == 6 && akXorSqn.Length >= 6
      requires Outside(autnEnb) && Outside(sqn) && Outside(akXorSqn)
      requires akXorSqn !in {sqn, autnEnb} && sqn != autnEnb
      modifies autn, akXorSqn
      ensures autn[..] == BuildAutn(ak[..], sqn[..], amf[..], mac[..])
      ensures autn[..6] == Xor(sqn[..], ak[..]) && autn[6..8] == amf[..] && autn[8..] == mac[..]
      ensures result == AuthOk <==> autn[..] == autnEnb[..16]
      ensures akXorSqn[..] == Splice(old(akXorSqn[..]), 0, Xor(sqn[..], ak[..]))
    {
      hide Xor, Splice, BuildAutn;
      assert sqn[..6] == sqn[..] && ak[..6] == ak[..] && amf[..2] == amf[..] && mac[..8] == mac[..];
      RebuildAutn(autn, sqn, ak, amf, mac);
      result := CompareAutn(autn, autnEnb);
      XorSix(akXorSqn, sqn, ak);
    }

    /** usim::gen_auth_res_milenage.  security_milenage_f2345 and security_milenage_f1 are taken to be
        the functions of TS 35.206 that usim.c implements. */
    method GenAuthResMilenage(rand: array<bv8>, autnEnb: array<bv8>, res: array<bv8>, akXorSqn: array<bv8>)
      returns (result: AuthResult, resLen: int)
      requires Valid() && rand.Length >= 16 && autnEnb.Length >= 16 && res.Length >= 8 && akXorSqn.Length >= 6
      requires Outside(rand) && Outside(autnEnb) && Outside(res) && Outside(akXorSqn)
      requires rand != res && autnEnb !in {res, akXorSqn} && res != akXorSqn
      modifies ck, ik, ak, amf, mac, autn, res, akXorSqn
      ensures resLen == 8
      ensures var kk, oo, rr, aa := k[..], opc[..], old(rand[..16]), old(autnEnb[..16]);
        var answer := Respond(kk, Challenge(rr, oo, aa));
        && (result == AuthOk <==> AutnAccepted(M.F5(kk, oo, rr), MacOf(kk, oo, rr), aa))
        && res[..] == Splice(old(res[..]), 0, answer.res)
        && akXorSqn[..] == Splice(old(akXorSqn[..]), 0, answer.akXorSqn)
        && ck[..] == answer.ck && ik[..] == answer.ik
        && ak[..] == M.F5(kk, oo, rr) && amf[..] == aa[6..8]
        && mac[..] == M.F1(kk, oo, rr, SqnOf(kk, oo, rr, aa), aa[6..8])
        && autn[..] == BuildAutn(ak[..], SqnOf(kk, oo, rr, aa), amf[..], mac[..])
      ensures var kk, oo, rr, aa := k[..], opc[..], old(rand[..16]), old(autnEnb[..16]);
        && (result == AuthOk <==> aa[8..] == mac[..])
        && res[..8] == M.F2(kk, oo, rr)
        && akXorSqn[..6] == aa[..6]
        && ck[..] == M.F3(kk, oo, rr)
        && ik[..] == M.F4(kk, oo, rr)
        && mac[..] == M.F1(kk, oo, rr, Xor(aa[..6], M.F5(kk, oo, rr)), aa[6..8])
        && autn[..] == aa[..8] + mac[..]
    {
      hide Respond, AutnAccepted, SqnOf, ResultsOf, AfterWrites, M.F1, M.F2, M.F3, M.F4, M.F5, Xor, Splice, BuildAutn;
      ghost var kk, oo, rr, aa := k[..], opc[..], rand[..16], autnEnb[..16];
      assert k[..16] == kk && opc[..16] == oo;
      var sqn := new bv8[6];
      SpliceAll(ck[..], M.F3(kk, oo, rr));
      SpliceAll(ik[..], M.F4(kk, oo, rr));
      SpliceAll(ak[..], M.F5(kk, oo, rr));
      var err := F2345(k, opc, rand, res, ck, ik, ak);
      resLen := 8;
      assert autnEnb[..6] == aa[..6] && ak[..6] == ak[..];
      SpliceAll(sqn[..], Xor(aa[..6], ak[..]));
      XorSix(sqn, autnEnb, ak);
      assert autnEnb[6..6 + 2] == aa[6..8];
      SpliceAll(amf[..], aa[6..8]);
      CopyOut(amf, autnEnb, 6, 2);
      assert sqn[..6] == sqn[..] && amf[..2] == amf[..];
      SpliceAll(mac[..], M.F1(kk, oo, rr, sqn[..], amf[..]));
      err := F1(k, opc, rand, sqn, amf, mac);
      result := FinishCheck(autnEnb, sqn, akXorSqn);
      ghost var c := Challenge(rr, oo, aa);
      RespondIs(kk, c);
      AnswerParts(kk, c);
      SqnOfIs(kk, oo, rr, aa);
      SplicePrefix(old(res[..]), M.F2(kk, oo, rr));
      SplicePrefix(old(akXorSqn[..]), aa[..6]);
      assert res[..8] == res[..][..8] && akXorSqn[..6] == akXorSqn[..][..6];
      AcceptedIs(M.F5(kk, oo, rr), MacOf(kk, oo, rr), aa, mac[..]);
    }

    /** security_xor_f2345, by what it is assumed to compute. */
    method XorF2345(lib: XorLibrary, rand: array<bv8>, fullRes: array<bv8>)
      requires Valid() && rand.Length >= 16 && fullRes.Length == 16 && Outside(fullRes) && Outside(rand) && rand != fullRes
      modifies fullRes, ck, ik, ak
      ensures var out := lib.f2345(k[..], rand[..16]);
        fullRes[..] == out.res && ck[..] == out.ck && ik[..] == out.ik && ak[..] == out.ak
    {
      var out := lib.f2345(k[..], rand[..16]);
      Fill(fullRes, out.res);
      Fill(ck, out.ck);
      Fill(ik, out.ik);
      Fill(ak, out.ak);
    }

    /** usim::gen_auth_res_xor, over any pair of library functions. */
    method GenAuthResXor(lib: XorLibrary, rand: array<bv8>, autnEnb: array<bv8>, res: array<bv8>, akXorSqn: array<bv8>)
      returns (result: AuthResult, resLen: int)
      requires Valid() && rand.Length >= 16 && autnEnb.Length >= 16 && res.Length >= 8 && akXorSqn.Length >= 6
      requires Outside(rand) && Outside(autnEnb) && Outside(res) && Outside(akXorSqn)
      requires rand != res && autnEnb !in {res, akXorSqn} && res != akXorSqn
      modifies ck, ik, ak, amf, mac, autn, res, akXorSqn
      ensures resLen == 8
      ensures var kk, rr, aa := k[..], old(rand[..16]), old(autnEnb[..16]);
        var out := lib.f2345(kk, rr);
        && (result == AuthOk <==> AutnAccepted(out.ak, lib.MacOf(kk, rr), aa))
        && res[..] == Splice(old(res[..]), 0, out.res[..8])
        && akXorSqn[..] == Splice(old(akXorSqn[..]), 0, aa[..6])
        && ck[..] == out.ck && ik[..] == out.ik && ak[..] == out.ak && amf[..] == aa[6..8]
        && mac[..] == lib.f1(kk, rr, Xor(aa[..6], out.ak), aa[6..8])
        && autn[..] == BuildAutn(ak[..], Xor(aa[..6], out.ak), amf[..], mac[..])
        && autn[..] == aa[..8] + mac[..]
        && (result == AuthOk <==> aa[8..] == mac[..])
    {
      hide Xor, Splice, BuildAutn;
      ghost var kk, rr, aa := k[..], rand[..16], autnEnb[..16];
      var sqn, fullRes := new bv8[6], new bv8[16];
      XorF2345(lib, rand, fullRes);
      assert fullRes[0..0 + 8] == fullRes[..][..8];
      CopyOut(res, fullRes, 0, 8);
      resLen := 8;
      assert autnEnb[..6] == aa[..6] && ak[..6] == ak[..];
      SpliceAll(sqn[..], Xor(aa[..6], ak[..]));
      XorSix(sqn, autnEnb, ak);
      assert autnEnb[6..6 + 2] == aa[6..8];
      SpliceAll(amf[..], aa[6..8]);
      CopyOut(amf, autnEnb, 6, 2);
      Fill(mac, lib.f1(k[..], rand[..16], sqn[..], amf[..]));
      XorCancels(aa[..6], ak[..]);
      result := FinishCheck(autnEnb, sqn, akXorSqn);
      AcceptedIs(ak[..], lib.MacOf(kk, rr), aa, mac[..]);
    }
  }
}
