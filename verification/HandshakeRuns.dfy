/** What holds over whole runs of the exchange, whatever the interleaving. */
module HandshakeRuns {
  import opened Enclave
  import opened Messages
  import opened Handshake
  import M = Milenage

  /** The invariant, read off for the calls of a run. */
  lemma CallsOfRun(s: State, schedule: seq<Step>)
    requires Initial(s)
    ensures var u := Run(s, schedule).u;
      && CallsInv(u, Right(u.challenge), s.m.answer)
      && u.k == s.u.k && u.opc == s.u.opc
      && (u.calls != [] ==> u.challenge.opc == s.u.opc)
  {
    hide Run, Initial, Right, HostInv, EnclaveInv, AnswerInv, CopyInv, ExchangeMixes, LocalRight;
    InitialInv(s);
    RunInv(s, schedule, s.m.answer);
  }

  lemma AllPositionsMixed(a: AnswerBytes46, positions: set<nat>, updated: AnswerBytes46, original: AnswerBytes46)
    requires Mixes(a, positions, updated, original) && AllPositions(positions)
    ensures a == updated
  {
  }

  /** In every interleaving, from any content of the shared memory: a call whose poll saw the flag
      returned exactly the bytes of what Milenage answers to its challenge. */
  lemma SeenFlagMeansMilenage(s: State, schedule: seq<Step>)
    requires Initial(s)
    ensures forall call :: call in Run(s, schedule).u.calls && call.route == FlagSeen ==>
      call.challenge.opc == s.u.opc && AnswerOf(call.answer) == Respond(KEY, call.challenge)
  {
    hide Run, Initial, Respond, AnswerOf, AnswerBytes, Mixes, AllPositions;
    CallsOfRun(s, schedule);
    var u := Run(s, schedule).u;
    forall call | call in u.calls && call.route == FlagSeen
      ensures call.challenge.opc == s.u.opc && AnswerOf(call.answer) == Respond(KEY, call.challenge)
    {
      var i :| 0 <= i < |u.calls| && u.calls[i] == call;
      assert i > 0 ==> LocalRight(u.calls[i], u.k, u.opc);
      AllPositionsMixed(call.answer, call.current, Right(call.challenge), s.m.answer);
      AnswerRoundTrip(Respond(KEY, call.challenge), call.answer);
    }
  }

  /** The 46 bytes of such a call, part by part. */
  lemma SeenFlagBytes(s: State, schedule: seq<Step>)
    requires Initial(s)
    ensures forall call :: call in Run(s, schedule).u.calls && call.route == FlagSeen ==>
      && call.answer[..8] == M.F2(KEY, s.u.opc, call.challenge.rand)
      && call.answer[8..14] == call.challenge.autn[..6]
      && call.answer[14..30] == M.F3(KEY, s.u.opc, call.challenge.rand)
      && call.answer[30..46] == M.F4(KEY, s.u.opc, call.challenge.rand)
  {
    hide Run, Initial, Respond, AnswerOf, AnswerBytes, M.F2, M.F3, M.F4;
    SeenFlagMeansMilenage(s, schedule);
    forall call | call in Run(s, schedule).u.calls && call.route == FlagSeen
      ensures call.answer[..8] == M.F2(KEY, s.u.opc, call.challenge.rand)
      ensures call.answer[8..14] == call.challenge.autn[..6]
      ensures call.answer[14..30] == M.F3(KEY, s.u.opc, call.challenge.rand)
      ensures call.answer[30..46] == M.F4(KEY, s.u.opc, call.challenge.rand)
    {
      AnswerRoundTrip(Respond(KEY, call.challenge), call.answer);
      AnswerBytesParts(KEY, call.challenge);
    }
  }

  /** Every local call returned Milenage's answer under the UE's own key, whatever key the enclave holds. */
  lemma LocalMeansMilenage(s: State, schedule: seq<Step>)
    requires Initial(s)
    ensures forall call :: call in Run(s, schedule).u.calls && call.route == Local ==>
      call.challenge.opc == s.u.opc && AnswerOf(call.answer) == Respond(s.u.k, call.challenge)
  {
    hide Run, Initial, Respond, AnswerOf, AnswerBytes, Mixes, AllPositions;
    CallsOfRun(s, schedule);
    var u := Run(s, schedule).u;
    forall call | call in u.calls && call.route == Local
      ensures call.challenge.opc == s.u.opc && AnswerOf(call.answer) == Respond(s.u.k, call.challenge)
    {
      var i :| 0 <= i < |u.calls| && u.calls[i] == call;
      assert i > 0 ==> LocalRight(u.calls[i], u.k, u.opc);
      AnswerRoundTrip(Respond(s.u.k, call.challenge), call.answer);
    }
  }

  /** When UE and enclave hold the same key, every call that did not time out returned what the local
      Milenage function of the UE gives for the same RAND and AUTN. */
  lemma VsimRefinesLocalMilenage(s: State, schedule: seq<Step>)
    requires Initial(s) && s.u.k == KEY
    ensures forall call :: call in Run(s, schedule).u.calls && call.route != TimedOut ==>
      call.challenge.opc == s.u.opc && AnswerOf(call.answer) == Respond(s.u.k, call.challenge)
  {
    hide *;
    SeenFlagMeansMilenage(s, schedule);
    LocalMeansMilenage(s, schedule);
  }

  /** The UE raises at most one request in its life; exactly its first completed call went through
      shared memory, and after that no step of the UE touches shared memory. */
  lemma OneRequestOnly(s: State, schedule: seq<Step>, step: Step)
    requires Initial(s) && (step.Start? || step.UeStep?)
    ensures var n := Run(s, schedule);
      && n.u.requests <= 1
      && (forall i :: 0 <= i < |n.u.calls| ==> (n.u.calls[i].route == Local <==> i > 0))
      && (n.u.calls != [] ==> Next(n, step).m == n.m && Next(n, step).u.requests == n.u.requests == 1)
  {
    hide Run, Initial, Right, Respond, AnswerBytes, ChallengeBytes, HostInv, EnclaveInv, AnswerInv, CopyInv, Mixes;
    InitialInv(s);
    RunInv(s, schedule, s.m.answer);
    var u := Run(s, schedule).u;
    forall i | 0 <= i < |u.calls|
      ensures u.calls[i].route == Local <==> i > 0
    {
      assert i > 0 ==> LocalRight(u.calls[i], u.k, u.opc);
    }
  }

  ghost predicate Begun(step: Step, c: Challenge) {
    step == Start(c.rand, c.autn)
  }

  lemma CallsStep(s: State, step: Step, call: Call)
    requires call in Next(s, step).u.calls
    ensures call in s.u.calls || (s.u.pc != Idle && call.challenge == s.u.challenge) || Begun(step, call.challenge)
  {
    hide Right, Respond, AnswerBytes, ChallengeBytes, HostNext, EnclaveNext, ShowRequestByte, ShowAnswerByte;
  }

  lemma ChallengeStep(s: State, step: Step)
    requires Next(s, step).u.pc != Idle
    ensures (s.u.pc != Idle && Next(s, step).u.challenge == s.u.challenge) || Begun(step, Next(s, step).u.challenge)
  {
    hide Right, Respond, AnswerBytes, ChallengeBytes, HostNext, EnclaveNext, ShowRequestByte, ShowAnswerByte;
  }

  lemma {:induction false} CallsBegunFrom(s: State, schedule: seq<Step>, call: Call)
    requires call in Run(s, schedule).u.calls
    ensures call in s.u.calls || (s.u.pc != Idle && call.challenge == s.u.challenge)
         || exists i :: 0 <= i < |schedule| && Begun(schedule[i], call.challenge)
    decreases |schedule|
  {
    hide Next, Begun;
    if schedule != [] {
      var n, rest := Next(s, schedule[0]), schedule[1..];
      CallsBegunFrom(n, rest, call);
      if i :| 0 <= i < |rest| && Begun(rest[i], call.challenge) {
        assert Begun(schedule[i + 1], call.challenge);
      } else if call in n.u.calls {
        CallsStep(s, schedule[0], call);
      } else {
        ChallengeStep(s, schedule[0]);
      }
    }
  }

  /** No challenge comes out of thin air: every completed call was begun by a step of the schedule. */
  lemma CallsWereBegun(s: State, schedule: seq<Step>)
    requires Initial(s)
    ensures forall call :: call in Run(s, schedule).u.calls ==>
      exists i :: 0 <= i < |schedule| && Begun(schedule[i], call.challenge)
  {
    hide Run, Begun;
    forall call | call in Run(s, schedule).u.calls
      ensures exists i :: 0 <= i < |schedule| && Begun(schedule[i], call.challenge)
    {
      CallsBegunFrom(s, schedule, call);
    }
  }
}
