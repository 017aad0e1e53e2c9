/** What each side's stretch of code amounts to when its steps run in a row, and two whole schedules made
    of them: one in which the vSIM answers in time, and one in which the UE gives up first. */
module HandshakeSchedules {
  import opened Bytes
  import opened Enclave
  import opened Messages
  import opened Handshake
  import opened HandshakePolling
  import opened HandshakeTiming

  /** n steps of the UE in a row, its loads fresh. */
  function UeSteps(n: nat): seq<Step> {
    seq(n, _ => UeStep(false))
  }

  /** n steps of the host in a row, its loads fresh and its allocations successful. */
  function HostSteps(n: nat): seq<Step> {
    seq(n, _ => HostStep(false, true))
  }

  lemma RunUeSteps(s: State, n: nat)
    ensures Run(s, UeSteps(0)) == s
    ensures Run(s, UeSteps(1)) == Next(s, UeStep(false))
    ensures Run(s, UeSteps(n + 1)) == Run(Next(s, UeStep(false)), UeSteps(n))
  {
    hide Next;
    assert UeSteps(0) == [];
    assert UeSteps(1)[1..] == [];
    assert UeSteps(n + 1)[1..] == UeSteps(n);
  }

  lemma RunHostSteps(s: State, n: nat)
    ensures Run(s, HostSteps(0)) == s
    ensures Run(s, HostSteps(1)) == Next(s, HostStep(false, true))
    ensures Run(s, HostSteps(n + 1)) == Run(Next(s, HostStep(false, true)), HostSteps(n))
  {
    hide Next;
    assert HostSteps(0) == [];
    assert HostSteps(1)[1..] == [];
    assert HostSteps(n + 1)[1..] == HostSteps(n);
  }

  // ----- the UE raises its request -----

  /** Shared memory after the request for c has been written and raised. */
  function Requesting(m: Shared, c: Challenge): Shared {
    var request := Request(ChallengeBytes(c), CMD_AUTHENTICATE);
    m.(request := request, commandReady := true, commandSnapshot := request)
  }

  lemma {:induction false} UeWrites(s: State, n: nat)
    requires n <= 48 && s.u.pc == Write(48 - n)
    requires s.m.request.bytes[..48 - n] == ChallengeBytes(s.u.challenge)[..48 - n]
    ensures Run(s, UeSteps(n)) == s.(u := s.u.(pc := Write(48)),
                                     m := s.m.(request := s.m.request.(bytes := ChallengeBytes(s.u.challenge))))
    decreases n
  {
    hide Run, UeSteps, ChallengeBytes;
    if n == 0 {
      RunUeSteps(s, 0);
    } else {
      RunUeSteps(s, n - 1);
      UeWrites(Next(s, UeStep(false)), n - 1);
    }
  }

  lemma UeRaises(s: State)
    requires s.u.pc == Write(48) && s.m.request.bytes == ChallengeBytes(s.u.challenge)
    ensures Run(s, UeSteps(2))
         == State(s.u.(pc := Poll(0), requests := s.u.requests + 1), Requesting(s.m, s.u.challenge), s.h)
  {
    hide Run, UeSteps, ChallengeBytes;
    RunUeSteps(s, 1);
    RunUeSteps(Next(s, UeStep(false)), 0);
  }

  lemma UeStepsConcat(a: nat, b: nat)
    ensures UeSteps(a + b) == UeSteps(a) + UeSteps(b)
  {
  }

  /** Forty-eight bytes, the command and the flag. */
  lemma RequestRaised(s: State)
    requires s.u.pc == Write(0)
    ensures var t := Run(s, UeSteps(50));
      && t == State(s.u.(pc := Poll(0), requests := s.u.requests + 1), Requesting(s.m, s.u.challenge), s.h)
      && t.m.commandReady && t.m.request.command == 1
      && t.m.request.bytes[..16] == s.u.challenge.rand
      && t.m.request.bytes[16..32] == s.u.challenge.opc
      && t.m.request.bytes[32..] == s.u.challenge.autn
  {
    hide Run, Next, UeSteps, ChallengeBytes;
    ChallengeParts(s.u.challenge);
    UeStepsConcat(48, 2);
    RunConcat(s, UeSteps(48), UeSteps(2));
    UeWrites(s, 48);
    UeRaises(Run(s, UeSteps(48)));
  }

  lemma HostStepsConcat(a: nat, b: nat)
    ensures HostSteps(a + b) == HostSteps(a) + HostSteps(b)
  {
  }

  // ----- the host takes it -----

  /** The request handed to the enclave, and both flags down. */
  function Taking(s: State): State {
    var request := s.m.commandSnapshot;
    State(s.u, s.m.(requestSeen := request, commandReady := false, responseReady := false),
          s.h.(pc := AwaitReply, copied := request.bytes, toEnclave := Some(request.bytes)))
  }

  lemma {:induction false} HostCopies(s: State, n: nat)
    requires n <= 48 && s.h.pc == Take(48 - n) && s.h.copied[..48 - n] == s.m.requestSeen.bytes[..48 - n]
    ensures Run(s, HostSteps(n)) == s.(h := s.h.(pc := Take(48), copied := s.m.requestSeen.bytes))
    decreases n
  {
    hide Run, HostSteps;
    if n == 0 {
      RunHostSteps(s, 0);
    } else {
      RunHostSteps(s, n - 1);
      HostCopies(Next(s, HostStep(false, true)), n - 1);
    }
  }

  lemma HostSees(s: State)
    requires s.h.pc == PollCommand && s.m.commandReady && s.m.commandSnapshot.command == CMD_AUTHENTICATE
    ensures Run(s, HostSteps(3))
         == State(s.u, s.m.(requestSeen := s.m.commandSnapshot, responseReady := false), s.h.(pc := Take(0)))
  {
    hide Run, HostSteps;
    var s1 := Next(s, HostStep(false, true));
    RunHostSteps(s, 2);
    RunHostSteps(s1, 1);
    RunHostSteps(Next(s1, HostStep(false, true)), 0);
  }

  lemma HostHandsOver(s: State)
    requires s.h.pc == Take(48)
    ensures Run(s, HostSteps(2))
         == State(s.u, s.m.(commandReady := false), s.h.(pc := AwaitReply, toEnclave := Some(s.h.copied)))
  {
    hide Run, HostSteps;
    RunHostSteps(s, 1);
    RunHostSteps(Next(s, HostStep(false, true)), 0);
  }

  lemma HostTakes(s: State)
    requires s.h.pc == PollCommand && s.m.commandReady && s.m.commandSnapshot.command == CMD_AUTHENTICATE
    ensures var t := Run(s, HostSteps(53));
      && t == Taking(s)
      && !t.m.commandReady && !t.m.responseReady
      && t.h.pc == AwaitReply && t.h.toEnclave == Some(s.m.commandSnapshot.bytes)
  {
    hide Run, Next, HostSteps;
    HostStepsConcat(3, 48);
    HostStepsConcat(51, 2);
    RunConcat(s, HostSteps(51), HostSteps(2));
    RunConcat(s, HostSteps(3), HostSteps(48));
    HostSees(s);
    HostCopies(Run(s, HostSteps(3)), 48);
    HostHandsOver(Run(s, HostSteps(51)));
  }

  // ----- and writes the answer -----

  /** Shared memory once `answer` is there and the flag is up. */
  function Answering(m: Shared, answer: AnswerBytes46, written: set<nat>): Shared {
    m.(answer := answer, responseReady := true, responseSnapshot := answer, responseShown := written)
  }

  lemma {:induction false} HostPuts(s: State, n: nat)
    requires n <= 46 && s.h.pc == Put(46 - n) && s.h.toHost.Some?
    requires s.m.answer[..46 - n] == s.h.toHost.value[..46 - n]
    ensures var t := Run(s, HostSteps(n));
      t == s.(m := s.m.(answer := s.h.toHost.value), h := s.h.(pc := Put(46), written := t.h.written))
    decreases n
  {
    hide Run, HostSteps;
    if n == 0 {
      RunHostSteps(s, 0);
    } else {
      RunHostSteps(s, n - 1);
      HostPuts(Next(s, HostStep(false, true)), n - 1);
    }
  }

  lemma HostAnswers(s: State)
    requires s.h.pc == AwaitReply && s.h.toHost.Some?
    ensures var t := Run(s, HostSteps(48));
      && t.u == s.u
      && t.m == Answering(s.m, s.h.toHost.value, t.h.written)
      && t.m.answer == s.h.toHost.value && t.m.responseReady
      && t.h == s.h.(pc := Done, written := t.h.written)
  {
    hide Run, HostSteps;
    HostStepsConcat(1, 46);
    HostStepsConcat(47, 1);
    RunConcat(s, HostSteps(47), HostSteps(1));
    RunConcat(s, HostSteps(1), HostSteps(46));
    RunHostSteps(s, 0);
    HostPuts(Next(s, HostStep(false, true)), 46);
    RunHostSteps(Run(s, HostSteps(47)), 0);
  }

  // ----- the UE polls and copies -----

  /** Up to five loads of a flag that is down: the UE goes on polling. */
  lemma {:induction false} PollsGoOn(s: State, n: nat)
    requires s.u.pc.Poll? && s.u.pc.waits + n <= 5 && !s.m.responseReady
    ensures Run(s, UeSteps(n)) == s.(u := s.u.(pc := Poll(s.u.pc.waits + n)))
    decreases n
  {
    hide Run, UeSteps;
    if n == 0 {
      RunUeSteps(s, 0);
    } else {
      RunUeSteps(s, n - 1);
      PollsGoOn(Next(s, UeStep(false)), n - 1);
    }
  }

  /** Six loads of a flag that is down. */
  lemma {:induction false} PollsTimeOut(s: State, n: nat)
    requires s.u.pc.Poll? && s.u.pc.waits + n == 5 && !s.m.responseReady
    ensures Run(s, UeSteps(n + 1)) == s.(u := s.u.(pc := Copy(0)))
    decreases n
  {
    hide Run, UeSteps;
    RunUeSteps(s, n);
    if n > 0 {
      PollsTimeOut(Next(s, UeStep(false)), n - 1);
    }
  }

  /** One load of a flag that is up. */
  lemma PollSees(s: State)
    requires s.u.pc.Poll? && s.m.responseReady
    ensures Run(s, UeSteps(1))
         == State(s.u.(seen := true, pc := Copy(0)),
                  s.m.(answerSeen := s.m.responseSnapshot, shown := s.m.responseShown), s.h)
  {
    hide Run, UeSteps;
    RunUeSteps(s, 0);
  }

  lemma {:induction false} UeCopies(s: State, n: nat)
    requires n <= 46 && s.u.pc == Copy(46 - n) && s.u.got[..46 - n] == s.m.answerSeen[..46 - n]
    ensures var t := Run(s, UeSteps(n));
      t == s.(u := s.u.(pc := Copy(46), got := s.m.answerSeen, current := t.u.current))
    decreases n
  {
    hide Run, UeSteps;
    if n == 0 {
      RunUeSteps(s, 0);
    } else {
      RunUeSteps(s, n - 1);
      UeCopies(Next(s, UeStep(false)), n - 1);
    }
  }

  /** Forty-six copies of what is visible, and the end of the call. */
  lemma CallCompletes(s: State)
    requires s.u.pc == Copy(0)
    ensures var calls := Run(s, UeSteps(47)).u.calls;
      && |calls| == |s.u.calls| + 1
      && calls[|s.u.calls|].challenge == s.u.challenge
      && calls[|s.u.calls|].route == (if s.u.seen then FlagSeen else TimedOut)
      && calls[|s.u.calls|].answer == s.m.answerSeen
  {
    hide Run, UeSteps;
    UeStepsConcat(46, 1);
    RunConcat(s, UeSteps(46), UeSteps(1));
    UeCopies(s, 46);
    RunUeSteps(Run(s, UeSteps(46)), 0);
  }

  // ----- whole schedules -----

  function RequestSchedule(rand: Block, autn: Block): seq<Step> {
    [Start(rand, autn)] + UeSteps(50)
  }

  /** The UE asks, polls six times and copies, before the host does anything. */
  function SlowSchedule(rand: Block, autn: Block): seq<Step> {
    RequestSchedule(rand, autn) + UeSteps(6) + UeSteps(47)
  }

  /** The UE asks and loads the flag n times in vain, the host and the enclave answer, and then the UE polls
      once more and copies. */
  function LateSchedule(n: nat, rand: Block, autn: Block): seq<Step> {
    RequestSchedule(rand, autn) + UeSteps(n) + HostSteps(53) + [EnclaveStep] + HostSteps(48) + UeSteps(1) + UeSteps(47)
  }

  /** The answer is there before the first load. */
  function TimelySchedule(rand: Block, autn: Block): seq<Step> {
    LateSchedule(0, rand, autn)
  }

  lemma RequestScheduleRaises(s: State, rand: Block, autn: Block)
    requires Initial(s)
    ensures var c := Challenge(rand, s.u.opc, autn);
      Run(s, RequestSchedule(rand, autn))
      == State(s.u.(challenge := c, pc := Poll(0), requests := 1), Requesting(s.m, c), s.h)
  {
    hide Run, UeSteps, Respond, AnswerBytes, ChallengeBytes;
    RunConcat(s, [Start(rand, autn)], UeSteps(50));
    RunOne(s, Start(rand, autn));
    RequestRaised(Next(s, Start(rand, autn)));
  }

  lemma RequestingKeepsAnswers(m: Shared, c: Challenge)
    ensures Requesting(m, c).answerSeen == m.answerSeen && Requesting(m, c).responseReady == m.responseReady
  {
  }

  /** The vSIM is too slow: the UE returns what shared memory held before, which is wrong unless it
      happened to be the right answer. */
  lemma TimedOutReturnsOldMemory(s: State, rand: Block, autn: Block)
    requires Initial(s)
    ensures var calls := Run(s, SlowSchedule(rand, autn)).u.calls;
      && |calls| == 1
      && calls[0].challenge == Challenge(rand, s.u.opc, autn)
      && calls[0].route == TimedOut
      && calls[0].answer == s.m.answer
      && Loads(s, SlowSchedule(rand, autn)) == 6
      && Run(s, RequestSchedule(rand, autn) + UeSteps(5)).u.pc == Poll(5)
      && (FirstCallRight(s, SlowSchedule(rand, autn)) <==> s.m.answer == Right(Challenge(rand, s.u.opc, autn)))
  {
    hide Run, Next, UeSteps, Loads, Sightings, Respond, AnswerBytes, AnswerOf, ChallengeBytes, Requesting;
    hide RequestSchedule;
    var asked := RequestSchedule(rand, autn);
    RunConcat(s, asked + UeSteps(6), UeSteps(47));
    RunConcat(s, asked, UeSteps(6));
    RequestScheduleRaises(s, rand, autn);
    RequestingKeepsAnswers(s.m, Challenge(rand, s.u.opc, autn));
    PollsTimeOut(Run(s, asked), 5);
    RunConcat(s, asked, UeSteps(5));
    PollsGoOn(Run(s, asked), 5);
    TimedOutIffNoneOfSixSaw(s, SlowSchedule(rand, autn));
    CallCompletes(Run(s, asked + UeSteps(6)));
    AnswerRoundTrip(Respond(KEY, Challenge(rand, s.u.opc, autn)), s.m.answer);
  }

  /** With one bit of the right answer flipped in memory beforehand, the property fails. */
  lemma TimedOutCanBeWrong(s: State, rand: Block, autn: Block)
    requires Initial(s)
    ensures var memory := WrongAt(Right(Challenge(rand, s.u.opc, autn)), 0);
      !FirstCallRight(WithMemory(s, memory), SlowSchedule(rand, autn))
  {
    hide Run, Right, FirstCallRight, SlowSchedule;
    var memory := WrongAt(Right(Challenge(rand, s.u.opc, autn)), 0);
    TimedOutReturnsOldMemory(WithMemory(s, memory), rand, autn);
  }

  /** The vSIM answers after at most five loads: the UE sees the flag and gets Milenage's answer. */
  lemma LateAnswerIsSeen(s: State, n: nat, rand: Block, autn: Block)
    requires Initial(s) && n <= 5
    ensures var calls := Run(s, LateSchedule(n, rand, autn)).u.calls;
      && |calls| == 1
      && calls[0].challenge == Challenge(rand, s.u.opc, autn)
      && calls[0].route == FlagSeen
      && calls[0].answer == Right(calls[0].challenge)
  {
    hide Run, UeSteps, HostSteps, Respond, AnswerBytes, ChallengeBytes, ChallengeOf, RequestSchedule, UeNext, HostNext;
    var c := Challenge(rand, s.u.opc, autn);
    var p1 := RequestSchedule(rand, autn);
    var p2 := p1 + UeSteps(n);
    var p3 := p2 + HostSteps(53);
    var p4 := p3 + [EnclaveStep];
    var p5 := p4 + HostSteps(48);
    var p6 := p5 + UeSteps(1);
    RunConcat(s, p6, UeSteps(47));
    RunConcat(s, p5, UeSteps(1));
    RunConcat(s, p4, HostSteps(48));
    RunConcat(s, p3, [EnclaveStep]);
    RunConcat(s, p2, HostSteps(53));
    RunConcat(s, p1, UeSteps(n));
    RequestScheduleRaises(s, rand, autn);
    PollsGoOn(Run(s, p1), n);
    HostTakes(Run(s, p2));
    RunOne(Run(s, p3), EnclaveStep);
    ChallengeRoundTrip(c, ChallengeBytes(c));
    HostAnswers(Run(s, p4));
    PollSees(Run(s, p5));
    CallCompletes(Run(s, p6));
  }

  /** The vSIM is quick enough: the UE sees the flag at its first load. */
  lemma TimelyAnswerIsSeen(s: State, rand: Block, autn: Block)
    requires Initial(s)
    ensures var calls := Run(s, TimelySchedule(rand, autn)).u.calls;
      && |calls| == 1
      && calls[0].challenge == Challenge(rand, s.u.opc, autn)
      && calls[0].route == FlagSeen
      && calls[0].answer == Right(calls[0].challenge)
  {
    hide Run, LateSchedule, Right;
    LateAnswerIsSeen(s, 0, rand, autn);
  }
}
