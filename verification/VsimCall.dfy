/** usim.cc: gen_auth_res_milenage_vsim, with what the host and the enclave do meanwhile. */
module VsimCall {
  import opened Bytes
  import opened AutnCode
  import opened Enclave
  import opened Handshake
  import opened HandshakeSchedules
  import opened HandshakeTiming
  import opened Messages
  import opened SharedMemory
  import opened Usim
  import M = Milenage

  /** What a call through shared memory returns: the enclave's answer, or what was there before. */
  function ExchangeAnswer(answered: bool, c: Challenge, memory: Answer): Answer {
    if answered then Respond(KEY, c) else memory
  }

  /** The schedule in which host and enclave run in one piece before the UE polls, or not at all. */
  function ScheduleOf(answered: bool, rand: Block, autn: Block): seq<Step> {
    if answered then TimelySchedule(rand, autn) else SlowSchedule(rand, autn)
  }

  /** The transition system says the same of that schedule. */
  lemma ExchangeAnswerIsRun(s: State, answered: bool, rand: Block, autn: Block)
    requires Initial(s)
    ensures var calls := Run(s, ScheduleOf(answered, rand, autn)).u.calls;
      var c := Challenge(rand, s.u.opc, autn);
      |calls| == 1 && calls[0].challenge == c
      && AnswerOf(calls[0].answer) == ExchangeAnswer(answered, c, AnswerOf(s.m.answer))
  {
    hide Run, Initial, Respond, AnswerBytes, AnswerOf, FirstCallRight, TimelySchedule, SlowSchedule;
    if answered {
      TimelyAnswerIsSeen(s, rand, autn);
      AnswerRoundTrip(Respond(KEY, Challenge(rand, s.u.opc, autn)), s.m.answer);
    } else {
      TimedOutReturnsOldMemory(s, rand, autn);
    }
  }

  /** The UE's outputs and members hold `answer`, and the rest of the output buffers is as before. */
  ghost predicate Received(ue: UeUsim, res: array<bv8>, akXorSqn: array<bv8>,
                           resBefore: seq<bv8>, xorBefore: seq<bv8>, answer: Answer)
    requires res.Length == |resBefore| >= 8 && akXorSqn.Length == |xorBefore| >= 6
    reads ue.ck, ue.ik, res, akXorSqn
  {
    && res[..] == Splice(resBefore, 0, answer.res)
    && akXorSqn[..] == Splice(xorBefore, 0, answer.akXorSqn)
    && ue.ck[..] == answer.ck && ue.ik[..] == answer.ik
  }

  /** What an answer received in full consists of. */
  lemma ReceivedParts(ue: UeUsim, res: array<bv8>, akXorSqn: array<bv8>,
                      resBefore: seq<bv8>, xorBefore: seq<bv8>, k: Block, c: Challenge)
    requires res.Length == |resBefore| >= 8 && akXorSqn.Length == |xorBefore| >= 6
    requires Received(ue, res, akXorSqn, resBefore, xorBefore, Respond(k, c))
    ensures res[..8] == M.F2(k, c.opc, c.rand) && akXorSqn[..6] == c.autn[..6]
    ensures ue.ck[..] == M.F3(k, c.opc, c.rand) && ue.ik[..] == M.F4(k, c.opc, c.rand)
  {
    hide Respond, Splice, M.F2, M.F3, M.F4;
    AnswerParts(k, c);
    SplicePrefix(resBefore, M.F2(k, c.opc, c.rand));
    SplicePrefix(xorBefore, c.autn[..6]);
    assert res[..8] == res[..][..8] && akXorSqn[..6] == akXorSqn[..][..6];
  }

  /** The message through the enclave: what the host gets back. */
  method EnclaveAnswers(vsim: Eapp, message: array<bv8>, ghost c: Challenge) returns (data: array<bv8>)
    requires vsim.Valid() && message !in {vsim.ck, vsim.ik}
    requires message[..] == ChallengeBytes(c)
    modifies vsim.ck, vsim.ik
    ensures fresh(data) && data.Length == 46 && data[..] == AnswerBytes(Respond(KEY, c))
  {
    hide Respond, ChallengeBytes, ChallengeOf, AnswerBytes;
    ChallengeRoundTrip(c, message[..]);
    assert message[..48] == message[..];
    var sent := vsim.Entry(message);
    data := new bv8[46];
    Fill(data, sent);
  }

  /** The request taken by the host, answered by the enclave, and the reply written back. */
  method VsimAnswers(shared: SharedData, vsim: Eapp)
    requires shared.Valid() && vsim.Valid() && shared.Outside(vsim.ck) && shared.Outside(vsim.ik)
    requires shared.commandReady && shared.commandType == CMD_AUTHENTICATE
    modifies shared`commandReady, shared`authResponseReady
    modifies shared.res, shared.akXorSqn, shared.ck, shared.ik, vsim.ck, vsim.ik
    ensures shared.AnswerHeld() == Respond(KEY, shared.RequestHeld())
    ensures !shared.commandReady && shared.authResponseReady
  {
    hide Respond, ChallengeBytes, AnswerBytes, AnswerOf;
    ghost var c := shared.RequestHeld();
    var message := shared.TakeRequest(true);
    var data := EnclaveAnswers(vsim, message, c);
    AnswerRoundTrip(Respond(KEY, c), data[..]);
    assert data[..46] == data[..];
    shared.SendChallengeResponse(data);
  }

  /** No array of one of the three parties belongs to another. */
  ghost predicate Apart(ue: UeUsim, shared: SharedData, vsim: Eapp) {
    && shared.Outside(ue.k) && shared.Outside(ue.opc) && shared.Outside(ue.ck) && shared.Outside(ue.ik)
    && shared.Outside(ue.ak) && shared.Outside(ue.amf) && shared.Outside(ue.mac) && shared.Outside(ue.autn)
    && shared.Outside(vsim.ck) && shared.Outside(vsim.ik) && ue.Outside(vsim.ck) && ue.Outside(vsim.ik)
  }

  /** A parameter belongs to none of them. */
  ghost predicate Foreign(a: array<bv8>, ue: UeUsim, shared: SharedData?, vsim: Eapp) {
    ue.Outside(a) && a !in {vsim.ck, vsim.ik} && (shared != null ==> shared.Outside(a))
  }

  /** The first call: through shared memory.  `answered` says whether host and enclave answer before the UE polls. */
  method CallVsim(ue: UeUsim, shared: SharedData, vsim: Eapp, answered: bool, stale: seq<bool>,
                  rand: array<bv8>, autnEnb: array<bv8>, res: array<bv8>, akXorSqn: array<bv8>)
    requires ue.Valid() && shared.Valid() && vsim.Valid() && Apart(ue, shared, vsim) && |stale| >= 6
    requires rand.Length >= 16 && autnEnb.Length >= 16 && res.Length >= 8 && akXorSqn.Length >= 6
    requires Foreign(rand, ue, shared, vsim) && Foreign(autnEnb, ue, shared, vsim)
    requires Foreign(res, ue, shared, vsim) && Foreign(akXorSqn, ue, shared, vsim) && res != akXorSqn
    modifies shared, shared.Fields(), vsim.ck, vsim.ik, ue.ck, ue.ik, res, akXorSqn
    ensures Received(ue, res, akXorSqn, old(res[..]), old(akXorSqn[..]),
              ExchangeAnswer(answered, Challenge(old(rand[..16]), ue.opc[..], old(autnEnb[..16])), old(shared.AnswerHeld())))
    ensures answered ==> Received(ue, res, akXorSqn, old(res[..]), old(akXorSqn[..]),
              Respond(KEY, Challenge(old(rand[..16]), ue.opc[..], old(autnEnb[..16]))))
    ensures shared.RequestHeld() == Challenge(old(rand[..16]), ue.opc[..], old(autnEnb[..16]))
    ensures shared.AnswerHeld() == ExchangeAnswer(answered, shared.RequestHeld(), old(shared.AnswerHeld()))
    ensures shared.commandReady == !answered && shared.authResponseReady == (answered || old(shared.authResponseReady))
  {
    hide Respond, Splice, ChallengeBytes, AnswerBytes, ChallengeOf, AnswerOf;
    ghost var c := Challenge(rand[..16], ue.opc[..], autnEnb[..16]);
    assert ue.opc[..16] == ue.opc[..];
    shared.RaiseRequest(rand, ue.opc, autnEnb);
    assert shared.RequestHeld() == c;
    if answered {
      VsimAnswers(shared, vsim);
    }
    assert shared.RequestHeld() == c;
    SpliceAll(ue.ck[..], shared.ck[..]);
    SpliceAll(ue.ik[..], shared.ik[..]);
    var seen := shared.PollAndCopy(stale, res, akXorSqn, ue.ck, ue.ik);
  }

  /** A later call: locally, and whether the AUTN was accepted is dropped. */
  method CallLocal(ue: UeUsim, rand: array<bv8>, autnEnb: array<bv8>, res: array<bv8>, akXorSqn: array<bv8>)
    returns (resLen: int)
    requires ue.Valid() && rand.Length >= 16 && autnEnb.Length >= 16 && res.Length >= 8 && akXorSqn.Length >= 6
    requires ue.Outside(rand) && ue.Outside(autnEnb) && ue.Outside(res) && ue.Outside(akXorSqn)
    requires rand != res && autnEnb !in {res, akXorSqn} && res != akXorSqn
    modifies ue.ck, ue.ik, ue.ak, ue.amf, ue.mac, ue.autn, res, akXorSqn
    ensures resLen == 8
    ensures Received(ue, res, akXorSqn, old(res[..]), old(akXorSqn[..]),
              Respond(ue.k[..], Challenge(old(rand[..16]), ue.opc[..], old(autnEnb[..16]))))
  {
    hide Respond, Splice;
    var ignored;
    ignored, resLen := ue.GenAuthResMilenage(rand, autnEnb, res, akXorSqn);
  }

  /** gen_auth_res_milenage_vsim.  With equal keys both routes give the same outputs.  AUTH_OK means only that
      shared memory was there: no AUTN is compared on the first call, and on later ones the outcome of the
      comparison is dropped. */
  method GenAuthResMilenageVsim(ue: UeUsim, shared: SharedData?, vsim: Eapp, answered: bool, stale: seq<bool>,
                                rand: array<bv8>, autnEnb: array<bv8>, res: array<bv8>, akXorSqn: array<bv8>,
                                resLenBefore: int)
    returns (result: AuthResult, resLen: int)
    requires ue.Valid() && vsim.Valid() && |stale| >= 6
    requires shared != null ==> shared.Valid() && Apart(ue, shared, vsim)
    requires rand.Length >= 16 && autnEnb.Length >= 16 && res.Length >= 8 && akXorSqn.Length >= 6
    requires Foreign(rand, ue, shared, vsim) && Foreign(autnEnb, ue, shared, vsim)
    requires Foreign(res, ue, shared, vsim) && Foreign(akXorSqn, ue, shared, vsim)
    requires rand != res && autnEnb !in {res, akXorSqn} && res != akXorSqn
    modifies shared, if shared == null then {} else shared.Fields()
    modifies vsim.ck, vsim.ik, ue`fpgaInitialized, ue.ck, ue.ik, ue.ak, ue.amf, ue.mac, ue.autn, res, akXorSqn
    ensures result == AuthFailed <==> !old(ue.fpgaInitialized) && shared == null
    ensures result == AuthFailed ==>
      && !ue.fpgaInitialized && resLen == resLenBefore && ue.ck[..] == old(ue.ck[..]) && ue.ik[..] == old(ue.ik[..])
      && res[..] == old(res[..]) && akXorSqn[..] == old(akXorSqn[..])
    ensures !old(ue.fpgaInitialized) ==>
      && ue.ak[..] == old(ue.ak[..]) && ue.amf[..] == old(ue.amf[..])
      && ue.mac[..] == old(ue.mac[..]) && ue.autn[..] == old(ue.autn[..])
    ensures old(ue.fpgaInitialized) && shared != null ==>
      && shared.RequestHeld() == old(shared.RequestHeld()) && shared.AnswerHeld() == old(shared.AnswerHeld())
      && shared.commandReady == old(shared.commandReady) && shared.authResponseReady == old(shared.authResponseReady)
    ensures !old(ue.fpgaInitialized) && shared != null ==>
      && shared.RequestHeld() == Challenge(old(rand[..16]), ue.opc[..], old(autnEnb[..16]))
      && shared.commandReady == !answered && shared.authResponseReady == (answered || old(shared.authResponseReady))
    ensures result == AuthOk ==> ue.fpgaInitialized && resLen == 8
    ensures old(ue.fpgaInitialized) ==> Received(ue, res, akXorSqn, old(res[..]), old(akXorSqn[..]),
      Respond(ue.k[..], Challenge(old(rand[..16]), ue.opc[..], old(autnEnb[..16]))))
    ensures !old(ue.fpgaInitialized) && shared != null ==> Received(ue, res, akXorSqn, old(res[..]), old(akXorSqn[..]),
      ExchangeAnswer(answered, Challenge(old(rand[..16]), ue.opc[..], old(autnEnb[..16])), old(shared.AnswerHeld())))
    ensures result == AuthOk && (old(ue.fpgaInitialized) || answered) && ue.k[..] == KEY ==>
      Received(ue, res, akXorSqn, old(res[..]), old(akXorSqn[..]),
        Respond(ue.k[..], Challenge(old(rand[..16]), ue.opc[..], old(autnEnb[..16]))))
    ensures result == AuthOk && (old(ue.fpgaInitialized) || answered) ==>
      var kk := if old(ue.fpgaInitialized) then ue.k[..] else KEY;
      && res[..8] == M.F2(kk, ue.opc[..], old(rand[..16])) && akXorSqn[..6] == old(autnEnb[..6])
      && ue.ck[..] == M.F3(kk, ue.opc[..], old(rand[..16])) && ue.ik[..] == M.F4(kk, ue.opc[..], old(rand[..16]))
  {
    hide Respond, Splice, ExchangeAnswer, Received, M.F2, M.F3, M.F4;
    ghost var c := Challenge(rand[..16], ue.opc[..], autnEnb[..16]);
    assert autnEnb[..6] == c.autn[..6];
    result, resLen := AuthOk, resLenBefore;
    if !ue.fpgaInitialized {
      if shared == null {
        result := AuthFailed;
        return;
      }
      resLen := 8;
      CallVsim(ue, shared, vsim, answered, stale, rand, autnEnb, res, akXorSqn);
      ue.fpgaInitialized := true;
      if answered {
        ReceivedParts(ue, res, akXorSqn, old(res[..]), old(akXorSqn[..]), KEY, c);
      }
    } else {
      resLen := CallLocal(ue, rand, autnEnb, res, akXorSqn);
      ReceivedParts(ue, res, akXorSqn, old(res[..]), old(akXorSqn[..]), ue.k[..], c);
    }
  }
}
