/** How often the UE loads the flag: what a call that saw it, and a call that gave up, have behind them. */
module HandshakePolling {
  import opened Handshake
  import opened HandshakeTiming

  /** The step is a load of the response flag by the UE. */
  predicate LoadsFlag(s: State, step: Step) {
    step.UeStep? && s.u.pc.Poll?
  }

  /** The load returns the raised flag. */
  predicate SeesFlag(s: State, step: Step) {
    LoadsFlag(s, step) && step == UeStep(false) && s.m.responseReady
  }

  /** The loads in a run, and those among them that see the flag. */
  function Loads(s: State, schedule: seq<Step>): nat
    decreases |schedule|
  {
    if schedule == [] then 0
    else (if LoadsFlag(s, schedule[0]) then 1 else 0) + Loads(Next(s, schedule[0]), schedule[1..])
  }

  function Sightings(s: State, schedule: seq<Step>): nat
    decreases |schedule|
  {
    if schedule == [] then 0
    else (if SeesFlag(s, schedule[0]) then 1 else 0) + Sightings(Next(s, schedule[0]), schedule[1..])
  }

  /** A UE that has loaded the flag so many times, and seen it so many times. */
  ghost predicate PollInv(u: Ue, loads: nat, sightings: nat) {
    if u.calls != [] then
      && u.initialized && u.pc == Idle && 1 <= loads <= 6
      && match u.calls[0].route
         case FlagSeen => sightings == 1
         case TimedOut => sightings == 0 && loads == 6
         case Local => false
    else
      && !u.initialized
      && match u.pc
         case Poll(waits) => !u.seen && loads == waits <= 5 && sightings == 0
         case Copy(_) => 1 <= loads <= 6 && if u.seen then sightings == 1 else sightings == 0 && loads == 6
         case _ => !u.seen && loads == 0 && sightings == 0
  }

  lemma PollInvNext(s: State, step: Step, loads: nat, sightings: nat)
    requires PollInv(s.u, loads, sightings)
    ensures PollInv(Next(s, step).u, loads + (if LoadsFlag(s, step) then 1 else 0),
                                     sightings + (if SeesFlag(s, step) then 1 else 0))
  {
    hide HostNext, EnclaveNext, ShowRequestByte, ShowAnswerByte;
  }

  lemma {:induction false} PollInvRun(s: State, schedule: seq<Step>, loads: nat, sightings: nat)
    requires PollInv(s.u, loads, sightings)
    ensures PollInv(Run(s, schedule).u, loads + Loads(s, schedule), sightings + Sightings(s, schedule))
    decreases |schedule|
  {
    hide PollInv, Next, LoadsFlag, SeesFlag;
    if schedule != [] {
      var l := if LoadsFlag(s, schedule[0]) then 1 else 0;
      var g := if SeesFlag(s, schedule[0]) then 1 else 0;
      PollInvNext(s, schedule[0], loads, sightings);
      PollInvRun(Next(s, schedule[0]), schedule[1..], loads + l, sightings + g);
    }
  }

  /** In every interleaving: the call gives up exactly when no load saw the flag, and then after six of them;
      otherwise exactly one saw it.  There is never a seventh. */
  lemma TimedOutIffNoneOfSixSaw(s: State, schedule: seq<Step>)
    requires Initial(s)
    ensures Loads(s, schedule) <= 6
    ensures var calls := Run(s, schedule).u.calls;
      calls != [] ==>
        && (calls[0].route == TimedOut <==> Sightings(s, schedule) == 0)
        && (calls[0].route == TimedOut ==> Loads(s, schedule) == 6)
        && (calls[0].route == FlagSeen <==> Sightings(s, schedule) == 1)
        && Loads(s, schedule) >= 1
  {
    hide Run, Next, Loads, Sightings;
    PollInvRun(s, schedule, 0, 0);
  }

  // ----- a host that gets no buffer -----

  ghost predicate NoBuffers(schedule: seq<Step>) {
    forall i :: 0 <= i < |schedule| && schedule[i].HostStep? ==> !schedule[i].bufferGiven
  }

  /** The host is still where it was before it had a message to send. */
  ghost predicate NothingSent(s: State) {
    && (s.h.pc.PollCommand? || s.h.pc.Dispatch? || s.h.pc.ClearResponse? || s.h.pc.Take?)
    && s.h.toEnclave == None && s.h.toHost == None && !s.m.responseReady
  }

  lemma NothingSentNext(s: State, step: Step)
    requires NothingSent(s) && (step.HostStep? ==> !step.bufferGiven)
    ensures NothingSent(Next(s, step)) && !SeesFlag(s, step)
  {
  }

  lemma {:induction false} NothingSentRun(s: State, schedule: seq<Step>)
    requires NothingSent(s) && NoBuffers(schedule)
    ensures NothingSent(Run(s, schedule)) && Sightings(s, schedule) == 0
    decreases |schedule|
  {
    hide NothingSent, Next, SeesFlag;
    if schedule != [] {
      NothingSentNext(s, schedule[0]);
      NothingSentRun(Next(s, schedule[0]), schedule[1..]);
    }
  }

  lemma NothingPut(s: State, schedule: seq<Step>, n: nat, i: nat)
    requires NothingSent(s) && NoBuffers(schedule)
    ensures !PutAt(s, schedule, n, i)
  {
    hide Run;
    if n < |schedule| {
      NothingSentRun(s, schedule[..n]);
    }
  }

  lemma NotInTime(s: State, schedule: seq<Step>, i: nat)
    requires NothingSent(s) && NoBuffers(schedule)
    ensures !InTime(s, schedule, i)
  {
    hide PutAt, ShownAt, CopiedAt;
    forall n: nat
      ensures !PutAt(s, schedule, n, i)
    {
      NothingPut(s, schedule, n, i);
    }
  }

  /** While no allocation succeeds, the enclave gets nothing, and a call gives up and returns what shared
      memory held. */
  lemma NoBufferMeansOldMemory(s: State, schedule: seq<Step>)
    requires Initial(s) && NoBuffers(schedule)
    ensures var t := Run(s, schedule);
      && t.h.toEnclave == None && !t.m.responseReady
      && (t.u.calls != [] ==> t.u.calls[0].route == TimedOut && t.u.calls[0].answer == s.m.answer)
  {
    hide Run, InTime;
    NothingSentRun(s, schedule);
    TimedOutIffNoneOfSixSaw(s, schedule);
    var calls := Run(s, schedule).u.calls;
    if calls != [] {
      forall i: nat | i < 46
        ensures calls[0].answer[i] == s.m.answer[i]
      {
        FirstAnswerBytes(s, schedule, i);
        NotInTime(s, schedule, i);
      }
      assert calls[0].answer == s.m.answer;
    }
  }
}
