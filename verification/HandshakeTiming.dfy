/** When a call through shared memory is right: a matter of the order of steps alone. */
module HandshakeTiming {
  import opened Enclave
  import opened Messages
  import opened Handshake
  import opened HandshakeRuns

  // ----- no step depends on the answer bytes -----

  /** The same state, but for what the answer fields of shared memory hold. */
  function WithMemory(s: State, memory: AnswerBytes46): State {
    s.(m := s.m.(answer := memory, answerSeen := memory))
  }

  ghost predicate AlikeCalls(a: seq<Call>, b: seq<Call>) {
    |a| == |b| && forall i :: 0 <= i < |a| ==> a[i] == b[i].(answer := a[i].answer)
  }

  /** Two states that differ in answer bytes of shared memory and the UE, and in nothing else. */
  ghost predicate Alike(s: State, t: State) {
    && s.u == t.u.(got := s.u.got, calls := s.u.calls) && AlikeCalls(s.u.calls, t.u.calls)
    && s.m == t.m.(answer := s.m.answer, answerSeen := s.m.answerSeen, responseSnapshot := s.m.responseSnapshot)
    && s.h == t.h
  }

  lemma AlikeStart(s: State, t: State, step: Step)
    requires Alike(s, t) && step.Start?
    ensures Alike(Next(s, step), Next(t, step))
  {
    hide Respond, AnswerBytes;
  }

  lemma AlikeUeStep(s: State, t: State, step: Step)
    requires Alike(s, t) && step.UeStep? && !s.u.pc.Copy?
    ensures Alike(Next(s, step), Next(t, step))
  {
    hide ChallengeBytes, AlikeCalls;
  }

  lemma AlikeUeCopies(s: State, t: State, step: Step)
    requires Alike(s, t) && step.UeStep? && s.u.pc.Copy? && s.u.pc.n < 46
    ensures Alike(Next(s, step), Next(t, step))
  {
    hide AlikeCalls;
  }

  lemma AlikeUeFinishes(s: State, t: State, step: Step)
    requires Alike(s, t) && step.UeStep? && s.u.pc.Copy? && s.u.pc.n >= 46
    ensures Alike(Next(s, step), Next(t, step))
  {
  }

  lemma AlikeHostStep(s: State, t: State, step: Step)
    requires Alike(s, t) && step.HostStep?
    ensures Alike(Next(s, step), Next(t, step))
  {
    hide AlikeCalls;
  }

  lemma AlikeOtherStep(s: State, t: State, step: Step)
    requires Alike(s, t) && !step.Start? && !step.UeStep? && !step.HostStep?
    ensures Alike(Next(s, step), Next(t, step))
  {
    hide Right, AlikeCalls, ChallengeOf;
  }

  lemma AlikeNext(s: State, t: State, step: Step)
    requires Alike(s, t)
    ensures Alike(Next(s, step), Next(t, step))
  {
    hide Alike, Next;
    match step
    case Start(_, _) => AlikeStart(s, t, step);
    case UeStep(_) =>
      if !s.u.pc.Copy? {
        AlikeUeStep(s, t, step);
      } else if s.u.pc.n < 46 {
        AlikeUeCopies(s, t, step);
      } else {
        AlikeUeFinishes(s, t, step);
      }
    case HostStep(_, _) => AlikeHostStep(s, t, step);
    case EnclaveStep => AlikeOtherStep(s, t, step);
    case ShowRequest(_) => AlikeOtherStep(s, t, step);
    case ShowCommand => AlikeOtherStep(s, t, step);
    case ShowAnswer(_) => AlikeOtherStep(s, t, step);
  }

  lemma {:induction false} AlikeRun(s: State, t: State, schedule: seq<Step>)
    requires Alike(s, t)
    ensures Alike(Run(s, schedule), Run(t, schedule))
    decreases |schedule|
  {
    hide Alike, Next;
    if schedule != [] {
      AlikeNext(s, t, schedule[0]);
      AlikeRun(Next(s, schedule[0]), Next(t, schedule[0]), schedule[1..]);
    }
  }

  // ----- the order of steps -----

  /** The state before step number n. */
  function At(s: State, schedule: seq<Step>, n: nat): State
    requires n <= |schedule|
  {
    Run(s, schedule[..n])
  }

  ghost predicate Puts(s: State, step: Step, i: nat) {
    step.HostStep? && s.h.pc == Put(i)
  }

  /** Step n puts byte i of the reply into shared memory. */
  ghost predicate PutAt(s: State, schedule: seq<Step>, n: nat, i: nat) {
    n < |schedule| && Puts(At(s, schedule, n), schedule[n], i)
  }

  ghost predicate Shows(s: State, step: Step, i: nat) {
    step == ShowAnswer(i) || (step == UeStep(false) && s.u.pc.Poll? && s.m.responseReady)
  }

  /** Step n lets the UE see byte i of shared memory: by itself, or because the UE finds the flag raised. */
  ghost predicate ShownAt(s: State, schedule: seq<Step>, n: nat, i: nat) {
    n < |schedule| && Shows(At(s, schedule, n), schedule[n], i)
  }

  ghost predicate Copies(s: State, step: Step, i: nat) {
    step.UeStep? && s.u.pc == Copy(i)
  }

  /** Step n copies byte i out of shared memory into the UE. */
  ghost predicate CopiedAt(s: State, schedule: seq<Step>, n: nat, i: nat) {
    n < |schedule| && Copies(At(s, schedule, n), schedule[n], i)
  }

  /** Byte i was put before it was shown and shown before it was copied. */
  ghost predicate InTime(s: State, schedule: seq<Step>, i: nat) {
    exists p: nat, q: nat, r: nat ::
      p < q < r && PutAt(s, schedule, p, i) && ShownAt(s, schedule, q, i) && CopiedAt(s, schedule, r, i)
  }

  lemma AtNext(s: State, schedule: seq<Step>, n: nat)
    requires n < |schedule|
    ensures At(s, schedule, n + 1) == Next(At(s, schedule, n), schedule[n])
  {
    hide Run, Next;
    assert schedule[..n + 1] == schedule[..n] + [schedule[n]];
    RunConcat(s, schedule[..n], [schedule[n]]);
    RunOne(Run(s, schedule[..n]), schedule[n]);
  }

  lemma AtStart(s: State, schedule: seq<Step>)
    ensures At(s, schedule, 0) == s
  {
    assert schedule[..0] == [];
  }

  lemma AtInv(s: State, schedule: seq<Step>, n: nat)
    requires Initial(s) && n <= |schedule|
    ensures Inv(At(s, schedule, n), s.m.answer)
  {
    hide Run, Inv, Initial;
    InitialInv(s);
    RunInv(s, schedule[..n], s.m.answer);
  }

  // ----- what is written, shown and copied, by the steps so far -----

  lemma WrittenStep(s: State, step: Step, memory: AnswerBytes46, i: nat)
    requires Inv(s, memory) && i < 46
    ensures i in Next(s, step).h.written <==> i in s.h.written || Puts(s, step, i)
  {
    hide Right, ChallengeBytes, Mixes, UeInv, HostInv, CopyInv, CallsInv;
  }

  lemma ShownStep(s: State, step: Step, memory: AnswerBytes46, i: nat)
    requires Inv(s, memory) && i < 46
    ensures i in Next(s, step).m.shown <==> i in s.m.shown || (Shows(s, step, i) && i in s.h.written)
  {
    hide Right, ChallengeBytes, Mixes, UeInv, HostInv, EnclaveInv, CopyInv, CallsInv;
  }

  /** Where the exchange records whether byte i was visible. */
  function Current(u: Ue): set<nat> {
    if u.calls == [] then u.current else u.calls[0].current
  }

  ghost predicate HasCopied(u: Ue, i: nat) {
    u.calls != [] || i < Copied(u)
  }

  lemma CopiedStep(s: State, step: Step, memory: AnswerBytes46, i: nat)
    requires Inv(s, memory) && i < 46
    ensures var n := Next(s, step);
      && (HasCopied(n.u, i) <==> HasCopied(s.u, i) || Copies(s, step, i))
      && !(HasCopied(s.u, i) && Copies(s, step, i))
      && (Copies(s, step, i) ==> (i in Current(n.u) <==> i in s.m.shown))
      && (HasCopied(s.u, i) ==> (i in Current(n.u) <==> i in Current(s.u)))
  {
    hide Right, ChallengeBytes, Mixes, HostInv, EnclaveInv, AnswerInv, HostNext, EnclaveNext, ShowRequestByte, ShowAnswerByte;
  }

  lemma {:induction false} WrittenHistory(s: State, schedule: seq<Step>, n: nat, i: nat)
    requires Initial(s) && n <= |schedule| && i < 46
    ensures i in At(s, schedule, n).h.written <==> exists p: nat :: p < n && PutAt(s, schedule, p, i)
  {
    hide At, Next, Inv, Puts;
    if n == 0 {
      AtStart(s, schedule);
    } else {
      WrittenHistory(s, schedule, n - 1, i);
      AtNext(s, schedule, n - 1);
      AtInv(s, schedule, n - 1);
      WrittenStep(At(s, schedule, n - 1), schedule[n - 1], s.m.answer, i);
      assert PutAt(s, schedule, n - 1, i) <==> Puts(At(s, schedule, n - 1), schedule[n - 1], i);
    }
  }

  /** By step n, byte i was put and after that shown. */
  ghost predicate PutThenShown(s: State, schedule: seq<Step>, n: nat, i: nat) {
    exists p: nat, q: nat :: p < q < n && PutAt(s, schedule, p, i) && ShownAt(s, schedule, q, i)
  }

  lemma {:induction false} ShownHistory(s: State, schedule: seq<Step>, n: nat, i: nat)
    requires Initial(s) && n <= |schedule| && i < 46
    ensures i in At(s, schedule, n).m.shown <==> PutThenShown(s, schedule, n, i)
  {
    hide At, Next, Inv, Shows, PutAt;
    if n == 0 {
      AtStart(s, schedule);
    } else {
      ShownHistory(s, schedule, n - 1, i);
      WrittenHistory(s, schedule, n - 1, i);
      AtNext(s, schedule, n - 1);
      AtInv(s, schedule, n - 1);
      ShownStep(At(s, schedule, n - 1), schedule[n - 1], s.m.answer, i);
      assert ShownAt(s, schedule, n - 1, i) <==> Shows(At(s, schedule, n - 1), schedule[n - 1], i);
    }
  }

  lemma {:induction false} CopiedHistory(s: State, schedule: seq<Step>, n: nat, i: nat)
    requires Initial(s) && n <= |schedule| && i < 46
    ensures var u := At(s, schedule, n).u;
      && ((exists r: nat :: r < n && CopiedAt(s, schedule, r, i)) ==> HasCopied(u, i))
      && (HasCopied(u, i) ==>
            (i in Current(u) <==> exists r: nat :: r < n && CopiedAt(s, schedule, r, i) && PutThenShown(s, schedule, r, i)))
  {
    hide At, Next, Inv, Copies, PutThenShown, Current;
    if n == 0 {
      AtStart(s, schedule);
    } else {
      CopiedHistory(s, schedule, n - 1, i);
      ShownHistory(s, schedule, n - 1, i);
      AtNext(s, schedule, n - 1);
      AtInv(s, schedule, n - 1);
      CopiedStep(At(s, schedule, n - 1), schedule[n - 1], s.m.answer, i);
      assert CopiedAt(s, schedule, n - 1, i) <==> Copies(At(s, schedule, n - 1), schedule[n - 1], i);
    }
  }

  lemma CopiedBound(s: State, schedule: seq<Step>, r: nat, i: nat)
    requires CopiedAt(s, schedule, r, i)
    ensures r < |schedule|
  {
  }

  /** What the first call records is the order of steps. */
  lemma CurrentIffInTime(s: State, schedule: seq<Step>, i: nat)
    requires Initial(s) && i < 46 && Run(s, schedule).u.calls != []
    ensures i in Run(s, schedule).u.calls[0].current <==> InTime(s, schedule, i)
  {
    hide Run, PutAt, ShownAt, CopiedAt;
    assert schedule[..|schedule|] == schedule;
    CopiedHistory(s, schedule, |schedule|, i);
    if InTime(s, schedule, i) {
      var p: nat, q: nat, r: nat :|
        p < q < r && PutAt(s, schedule, p, i) && ShownAt(s, schedule, q, i) && CopiedAt(s, schedule, r, i);
      assert PutThenShown(s, schedule, r, i);
      CopiedBound(s, schedule, r, i);
    }
  }

  // ----- when the first call is right -----

  /** The first completed call returned Milenage's answer to its challenge. */
  ghost predicate FirstCallRight(s: State, schedule: seq<Step>) {
    var calls := Run(s, schedule).u.calls;
    calls != [] && AnswerOf(calls[0].answer) == Respond(KEY, calls[0].challenge)
  }

  /** Byte by byte: the right one if it was in time, and otherwise what shared memory held. */
  lemma FirstAnswerBytes(s: State, schedule: seq<Step>, i: nat)
    requires Initial(s) && i < 46 && Run(s, schedule).u.calls != []
    ensures var call := Run(s, schedule).u.calls[0];
      call.answer[i] == if InTime(s, schedule, i) then Right(call.challenge)[i] else s.m.answer[i]
  {
    hide Run, Initial, Right, InTime;
    CallsOfRun(s, schedule);
    CurrentIffInTime(s, schedule, i);
  }

  /** From one given content of shared memory. */
  lemma FirstCallRightIff(s: State, schedule: seq<Step>)
    requires Initial(s) && Run(s, schedule).u.calls != []
    ensures var right := Right(Run(s, schedule).u.calls[0].challenge);
      FirstCallRight(s, schedule) <==> forall i: nat :: i < 46 ==> InTime(s, schedule, i) || s.m.answer[i] == right[i]
  {
    hide Run, Initial, Respond, AnswerOf, AnswerBytes, InTime;
    var call := Run(s, schedule).u.calls[0];
    var right := Right(call.challenge);
    AnswerRoundTrip(Respond(KEY, call.challenge), call.answer);
    forall i: nat | i < 46
      ensures call.answer[i] == if InTime(s, schedule, i) then right[i] else s.m.answer[i]
    {
      FirstAnswerBytes(s, schedule, i);
    }
    assert FirstCallRight(s, schedule) <==> call.answer == right;
    assert call.answer == right <==> forall i: nat :: i < 46 ==> call.answer[i] == right[i];
  }

  lemma InTimeWithMemory(s: State, schedule: seq<Step>, memory: AnswerBytes46, i: nat)
    requires InTime(s, schedule, i)
    ensures InTime(WithMemory(s, memory), schedule, i)
  {
    hide Run, Next;
    var t := WithMemory(s, memory);
    var p: nat, q: nat, r: nat :|
      p < q < r && PutAt(s, schedule, p, i) && ShownAt(s, schedule, q, i) && CopiedAt(s, schedule, r, i);
    AlikeRun(s, t, schedule[..p]);
    AlikeRun(s, t, schedule[..q]);
    AlikeRun(s, t, schedule[..r]);
    assert PutAt(t, schedule, p, i) && ShownAt(t, schedule, q, i) && CopiedAt(t, schedule, r, i);
  }

  lemma FirstCallWithMemory(s: State, schedule: seq<Step>, memory: AnswerBytes46)
    requires Initial(s) && Run(s, schedule).u.calls != []
    ensures Initial(WithMemory(s, memory))
    ensures var calls := Run(WithMemory(s, memory), schedule).u.calls;
      calls != [] && calls[0] == Run(s, schedule).u.calls[0].(answer := calls[0].answer)
  {
    hide Run;
    AlikeRun(s, WithMemory(s, memory), schedule);
    assert Run(s, schedule).u.calls[0] == Run(WithMemory(s, memory), schedule).u.calls[0].(answer := Run(s, schedule).u.calls[0].answer);
  }

  function WrongAt(right: AnswerBytes46, i: nat): AnswerBytes46
    requires i < 46
  {
    right[i := right[i] ^ 1]
  }

  lemma SameMemory(s: State, memory: AnswerBytes46)
    requires Initial(s)
    ensures WithMemory(WithMemory(s, memory), s.m.answer) == s
  {
  }

  /** From every content of shared memory the first call is right, if and only if the schedule puts,
      shows and copies each of the 46 bytes in this order. */
  lemma RightFromEveryMemoryIff(s: State, schedule: seq<Step>)
    requires Initial(s) && Run(s, schedule).u.calls != []
    ensures (forall memory :: FirstCallRight(WithMemory(s, memory), schedule))
       <==> (forall i: nat :: i < 46 ==> InTime(s, schedule, i))
  {
    hide Run, Initial, Right, InTime, FirstCallRight;
    var right := Right(Run(s, schedule).u.calls[0].challenge);
    if forall i: nat :: i < 46 ==> InTime(s, schedule, i) {
      forall memory
        ensures FirstCallRight(WithMemory(s, memory), schedule)
      {
        FirstCallWithMemory(s, schedule, memory);
        FirstCallRightIff(WithMemory(s, memory), schedule);
        forall i: nat | i < 46
          ensures InTime(WithMemory(s, memory), schedule, i)
        {
          InTimeWithMemory(s, schedule, memory, i);
        }
      }
    } else {
      var i: nat :| i < 46 && !InTime(s, schedule, i);
      var memory := WrongAt(right, i);
      FirstCallWithMemory(s, schedule, memory);
      FirstCallRightIff(WithMemory(s, memory), schedule);
      if InTime(WithMemory(s, memory), schedule, i) {
        InTimeWithMemory(WithMemory(s, memory), schedule, s.m.answer, i);
        assert WithMemory(WithMemory(s, memory), s.m.answer) == s by {
          SameMemory(s, memory);
        }
      }
      assert !FirstCallRight(WithMemory(s, memory), schedule);
    }
  }

  /** A poll that saw the flag had every byte in time. */
  lemma SeenFlagIsInTime(s: State, schedule: seq<Step>, i: nat)
    requires Initial(s) && i < 46 && Run(s, schedule).u.calls != [] && Run(s, schedule).u.calls[0].route == FlagSeen
    ensures InTime(s, schedule, i)
  {
    hide Run, Initial, Right, InTime, Mixes;
    CallsOfRun(s, schedule);
    CurrentIffInTime(s, schedule, i);
  }

  /** So it is right from every content of shared memory. */
  lemma SeenFlagRightFromEveryMemory(s: State, schedule: seq<Step>, memory: AnswerBytes46)
    requires Initial(s) && Run(s, schedule).u.calls != [] && Run(s, schedule).u.calls[0].route == FlagSeen
    ensures FirstCallRight(WithMemory(s, memory), schedule)
  {
    hide Run, Initial, InTime, FirstCallRight;
    forall i: nat | i < 46
      ensures InTime(s, schedule, i)
    {
      SeenFlagIsInTime(s, schedule, i);
    }
    RightFromEveryMemoryIff(s, schedule);
  }
}
