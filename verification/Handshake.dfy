/** The exchange of one challenge through shared memory: usim.cc on the UE, host-fpga.cpp, and
    eapp_entry in the enclave.  Every byte of every memcpy and every flag operation is a step of its own,
    so a copy can be overtaken in its middle.

    A byte written reaches the other process when a `Show` step says so, at any later time and in any
    order.  A flag raised with release carries a snapshot of the payload its writer has written, and an
    acquire load that sees the flag raised makes that snapshot visible.  A load may also return the old,
    lowered value (a `stale` step). */
module Handshake {
  import opened Bytes
  import opened Enclave
  import opened Messages

  const CMD_AUTHENTICATE := 1
  const TIMEOUT := 5

  datatype Option<T> = None | Some(value: T)

  /** The payload in shared memory: RAND, OPc and AUTN one way, RES, SQN xor AK, CK and IK the other,
      in the order of the record and of the copies. */
  type RequestBytes = s: seq<bv8> | |s| == 48 witness seq(48, _ => 0)
  type AnswerBytes46 = s: seq<bv8> | |s| == 46 witness seq(46, _ => 0)

  datatype Request = Request(bytes: RequestBytes, command: int)

  /** Where the UE is: writing the request, raising its flag, polling, or copying the answer. */
  datatype UePc = Idle | Write(n: nat) | RaiseCommand | Poll(waits: nat) | Copy(n: nat)

  datatype HostPc =
    | PollCommand | Dispatch | ClearResponse
    | Take(n: nat)
    | LowerCommand | AwaitReply
    | Put(n: nat)
    | Done

  /** How a call of the UE got its result. */
  datatype Route = FlagSeen | TimedOut | Local

  /** One completed call; `current` holds the positions whose new byte was visible when it was copied. */
  datatype Call = Call(challenge: Challenge, route: Route, answer: AnswerBytes46, current: set<nat>)

  /** The UE: its constants, the challenge being exchanged, its progress and its completed calls. */
  datatype Ue = Ue(k: Block, opc: Block, pc: UePc, challenge: Challenge, seen: bool,
                   got: AnswerBytes46, current: set<nat>, initialized: bool, calls: seq<Call>, requests: nat)

  /** Shared memory: payload as its writer wrote it and as the other side sees it, and the flags. */
  datatype Shared = Shared(request: Request, requestSeen: Request,
                           answer: AnswerBytes46, answerSeen: AnswerBytes46, shown: set<nat>,
                           commandReady: bool, commandSnapshot: Request,
                           responseReady: bool, responseSnapshot: AnswerBytes46, responseShown: set<nat>)

  /** The host, and what travels between it and the enclave. */
  datatype Vsim = Vsim(pc: HostPc, copied: RequestBytes, written: set<nat>,
                       toEnclave: Option<RequestBytes>, toHost: Option<AnswerBytes46>)

  datatype State = State(u: Ue, m: Shared, h: Vsim)

  datatype Step =
    | Start(rand: Block, autn: Block)
    | UeStep(stale: bool)
    | HostStep(stale: bool, bufferGiven: bool)
    | EnclaveStep
    | ShowRequest(position: nat)
    | ShowCommand
    | ShowAnswer(position: nat)

  /** The bytes of the right answer to a challenge. */
  function Right(c: Challenge): AnswerBytes46 {
    AnswerBytes(Respond(KEY, c))
  }

  /** After host main has set the flags; the payload may hold anything. */
  ghost predicate Initial(s: State) {
    && s.u.pc == Idle && !s.u.seen && !s.u.initialized && s.u.calls == [] && s.u.requests == 0
    && s.m.answerSeen == s.m.answer && s.m.shown == {} && s.h.written == {}
    && s.m.requestSeen == s.m.request
    && !s.m.commandReady && !s.m.responseReady
    && s.h.pc == PollCommand && s.h.toEnclave == None && s.h.toHost == None
  }

  /** A call begins: the shared-memory route before the first completed exchange, local Milenage after it. */
  function StartCall(u: Ue, rand: Block, autn: Block): Ue {
    var c := Challenge(rand, u.opc, autn);
    if u.pc != Idle then u
    else if u.initialized then u.(calls := u.calls + [Call(c, Local, AnswerBytes(Respond(u.k, c)), {})])
    else u.(challenge := c, pc := Write(0))
  }

  function UeNext(u: Ue, m: Shared, stale: bool): (Ue, Shared) {
    match u.pc
    case Idle => (u, m)
    case Write(n) =>
      if n < 48 then
        (u.(pc := Write(n + 1)),
         m.(request := m.request.(bytes := m.request.bytes[n := ChallengeBytes(u.challenge)[n]])))
      else (u.(pc := RaiseCommand), m.(request := m.request.(command := CMD_AUTHENTICATE)))
    case RaiseCommand =>
      (u.(requests := u.requests + 1, pc := Poll(0)), m.(commandReady := true, commandSnapshot := m.request))
    case Poll(waits) =>
      if m.responseReady && !stale then
        (u.(seen := true, pc := Copy(0)), m.(answerSeen := m.responseSnapshot, shown := m.responseShown))
      else if waits < TIMEOUT then (u.(pc := Poll(waits + 1)), m)
      else (u.(pc := Copy(0)), m)
    case Copy(n) =>
      if n < 46 then
        (u.(pc := Copy(n + 1), got := u.got[n := m.answerSeen[n]],
            current := if n in m.shown then u.current + {n} else u.current - {n}), m)
      else
        (u.(initialized := true, pc := Idle,
            calls := u.calls + [Call(u.challenge, if u.seen then FlagSeen else TimedOut, u.got, u.current)]), m)
  }

  function HostNext(m: Shared, h: Vsim, stale: bool, bufferGiven: bool): (Shared, Vsim) {
    match h.pc
    case PollCommand =>
      if m.commandReady && !stale then (m.(requestSeen := m.commandSnapshot), h.(pc := Dispatch)) else (m, h)
    case Dispatch => (m, h.(pc := if m.requestSeen.command == CMD_AUTHENTICATE then ClearResponse else PollCommand))
    case ClearResponse => (m.(responseReady := false), h.(pc := Take(0)))
    case Take(n) =>
      if n < 48 then (m, h.(pc := Take(n + 1), copied := h.copied[n := m.requestSeen.bytes[n]]))
      else (m, h.(pc := if bufferGiven then LowerCommand else PollCommand))
    case LowerCommand => (m.(commandReady := false), h.(toEnclave := Some(h.copied), pc := AwaitReply))
    case AwaitReply => (m, if h.toHost.Some? then h.(pc := Put(0)) else h)
    case Put(n) =>
      if h.toHost == None then (m, h)
      else if n < 46 then
        (m.(answer := m.answer[n := h.toHost.value[n]]), h.(pc := Put(n + 1), written := h.written + {n}))
      else (m.(responseReady := true, responseSnapshot := m.answer, responseShown := h.written), h.(pc := Done))
    case Done => (m, h)
  }

  /** eapp_entry: the only challenge it receives, and its answer. */
  function EnclaveNext(h: Vsim): Vsim {
    match h.toEnclave
    case None => h
    case Some(b) => h.(toEnclave := None, toHost := Some(Right(ChallengeOf(b))))
  }

  function ShowRequestByte(m: Shared, i: nat): Shared {
    if i < 48 then m.(requestSeen := m.requestSeen.(bytes := m.requestSeen.bytes[i := m.request.bytes[i]])) else m
  }

  function ShowAnswerByte(m: Shared, h: Vsim, i: nat): Shared {
    if i < 46 then
      m.(answerSeen := m.answerSeen[i := m.answer[i]], shown := if i in h.written then m.shown + {i} else m.shown - {i})
    else m
  }

  function Next(s: State, step: Step): State {
    match step
    case Start(rand, autn) => s.(u := StartCall(s.u, rand, autn))
    case UeStep(stale) => var (u, m) := UeNext(s.u, s.m, stale); State(u, m, s.h)
    case HostStep(stale, bufferGiven) => var (m, h) := HostNext(s.m, s.h, stale, bufferGiven); State(s.u, m, h)
    case EnclaveStep => s.(h := EnclaveNext(s.h))
    case ShowRequest(i) => s.(m := ShowRequestByte(s.m, i))
    case ShowCommand => s.(m := s.m.(requestSeen := s.m.requestSeen.(command := s.m.request.command)))
    case ShowAnswer(i) => s.(m := ShowAnswerByte(s.m, s.h, i))
  }

  /** The state after a schedule: any interleaving of the actors' steps. */
  function Run(s: State, schedule: seq<Step>): State
    decreases |schedule|
  {
    if schedule == [] then s else Run(Next(s, schedule[0]), schedule[1..])
  }

  // ----- the invariant -----

  /** Whether the one request has been raised. */
  ghost predicate Requested(u: Ue) {
    u.initialized || u.pc.Poll? || u.pc.Copy?
  }

  /** How many bytes of the request the UE has written. */
  function Asked(u: Ue): nat {
    match u.pc
    case Write(n) => n
    case Idle => if u.initialized then 48 else 0
    case _ => 48
  }

  /** How many bytes of the answer the UE has copied in the exchange under way. */
  function Copied(u: Ue): nat {
    if u.pc.Copy? then u.pc.n else 0
  }

  /** How many bytes of the request the host has copied, until it hands them over. */
  function Taken(pc: HostPc): nat {
    match pc
    case Take(n) => n
    case LowerCommand => 48
    case _ => 0
  }

  /** How many bytes of the answer the host has written. */
  function Given(pc: HostPc): nat {
    match pc
    case Put(n) => n
    case Done => 46
    case _ => 0
  }

  /** `a` holds the bytes of `updated` at the positions in `positions`, and those of `original` elsewhere. */
  ghost predicate Mixes(a: AnswerBytes46, positions: set<nat>, updated: AnswerBytes46, original: AnswerBytes46) {
    forall i: nat :: i < 46 ==> a[i] == if i in positions then updated[i] else original[i]
  }

  ghost predicate AllPositions(positions: set<nat>) {
    forall i: nat :: i < 46 ==> i in positions
  }

  /** What the UE writes: the request holds the challenge as far as it has been written. */
  ghost predicate UeInv(u: Ue, m: Shared) {
    && Asked(u) <= 48 && Copied(u) <= 46
    && (forall i: nat :: i < Asked(u) ==> m.request.bytes[i] == ChallengeBytes(u.challenge)[i])
    && (u.pc.RaiseCommand? || Requested(u) ==> m.request.command == CMD_AUTHENTICATE)
    && (u.initialized ==> u.pc == Idle)
    && (u.initialized || u.pc != Idle ==> u.challenge.opc == u.opc)
    && u.requests == (if Requested(u) then 1 else 0)
    && (m.commandReady ==> Requested(u) && m.commandSnapshot == m.request)
  }

  /** What the host takes: nothing before the request, and then only the request's own bytes. */
  ghost predicate HostInv(s: State) {
    && (!Requested(s.u) ==> s.h.pc == PollCommand)
    && (s.h.pc != PollCommand ==> s.m.requestSeen == s.m.request)
    && Taken(s.h.pc) <= 48
    && (forall i: nat :: i < Taken(s.h.pc) ==> s.h.copied[i] == ChallengeBytes(s.u.challenge)[i])
  }

  /** What host and enclave pass to each other. */
  ghost predicate EnclaveInv(c: Challenge, h: Vsim) {
    && (h.toEnclave.Some? || h.toHost.Some? ==> h.pc.AwaitReply? || h.pc.Put? || h.pc.Done?)
    && (h.pc.Put? || h.pc.Done? ==> h.toHost.Some?)
    && (h.toEnclave.Some? ==> h.toEnclave.value == ChallengeBytes(c))
    && (h.toHost.Some? ==> h.toHost.value == Right(c))
  }

  /** What the answer bytes hold, on either side. */
  ghost predicate AnswerInv(s: State, right: AnswerBytes46, memory: AnswerBytes46) {
    && Given(s.h.pc) <= 46
    && (forall i: nat :: i in s.h.written <==> i < Given(s.h.pc))
    && s.m.shown <= s.h.written
    && Mixes(s.m.answer, s.h.written, right, memory)
    && Mixes(s.m.answerSeen, s.m.shown, right, memory)
    && (s.m.responseReady ==> s.h.pc == Done && s.m.responseSnapshot == right && s.m.responseShown == s.h.written)
    && (s.u.seen ==> s.h.pc == Done && s.m.shown == s.h.written)
    && (s.u.seen ==> s.u.pc.Copy? || s.u.initialized)
  }

  /** What the UE has copied. */
  ghost predicate CopyInv(u: Ue, right: AnswerBytes46, memory: AnswerBytes46) {
    && (forall i: nat :: i < Copied(u) <= 46 ==> u.got[i] == if i in u.current then right[i] else memory[i])
    && (u.seen ==> forall i: nat :: i < Copied(u) ==> i in u.current)
  }

  /** What the first completed call returned: it went through shared memory. */
  ghost predicate ExchangeMixes(call: Call, c: Challenge, right: AnswerBytes46, memory: AnswerBytes46) {
    && call.route != Local
    && call.challenge == c
    && Mixes(call.answer, call.current, right, memory)
    && (call.route == FlagSeen ==> AllPositions(call.current))
  }

  /** What any later call returned: it was local. */
  ghost predicate LocalRight(call: Call, k: Block, opc: Block) {
    call.route == Local && call.challenge.opc == opc && call.answer == AnswerBytes(Respond(k, call.challenge))
  }

  ghost predicate CallsInv(u: Ue, right: AnswerBytes46, memory: AnswerBytes46) {
    && (u.initialized <==> u.calls != [])
    && (u.calls != [] ==> ExchangeMixes(u.calls[0], u.challenge, right, memory))
    && forall i :: 0 < i < |u.calls| ==> LocalRight(u.calls[i], u.k, u.opc)
  }

  /** The invariant of a run that began with `memory` in the answer fields. */
  ghost predicate Inv(s: State, memory: AnswerBytes46) {
    var right := Right(s.u.challenge);
    && UeInv(s.u, s.m)
    && HostInv(s)
    && EnclaveInv(s.u.challenge, s.h)
    && AnswerInv(s, right, memory)
    && CopyInv(s.u, right, memory)
    && CallsInv(s.u, right, memory)
  }

  lemma InitialInv(s: State)
    requires Initial(s)
    ensures Inv(s, s.m.answer)
  {
    hide Right, ChallengeBytes;
  }

  lemma StartInv(s: State, memory: AnswerBytes46, step: Step)
    requires Inv(s, memory) && step.Start?
    ensures Inv(Next(s, step), memory)
  {
    hide Right, Respond, ChallengeBytes, AnswerBytes;
  }

  lemma UeWritesInv(s: State, memory: AnswerBytes46, step: Step)
    requires Inv(s, memory) && step.UeStep? && !s.u.pc.Poll? && !s.u.pc.Copy?
    ensures Inv(Next(s, step), memory)
  {
    hide Right, ChallengeBytes, Mixes;
  }

  lemma UePollInv(s: State, memory: AnswerBytes46, step: Step)
    requires Inv(s, memory) && step.UeStep? && s.u.pc.Poll?
    ensures Inv(Next(s, step), memory)
  {
    hide Right, ChallengeBytes;
  }

  lemma UeCopiesInv(s: State, memory: AnswerBytes46, step: Step)
    requires Inv(s, memory) && step.UeStep? && s.u.pc.Copy? && s.u.pc.n < 46
    ensures Inv(Next(s, step), memory)
  {
    hide Right, ChallengeBytes;
  }

  lemma UeFinishInv(s: State, memory: AnswerBytes46, step: Step)
    requires Inv(s, memory) && step.UeStep? && s.u.pc.Copy? && s.u.pc.n >= 46
    ensures Inv(Next(s, step), memory)
  {
    hide Right, ChallengeBytes;
  }

  lemma HostTakesInv(s: State, memory: AnswerBytes46, step: Step)
    requires Inv(s, memory) && step.HostStep? && !s.h.pc.Put?
    ensures Inv(Next(s, step), memory)
  {
    hide Right, ChallengeBytes, Mixes;
  }

  lemma HostPutsInv(s: State, memory: AnswerBytes46, step: Step)
    requires Inv(s, memory) && step.HostStep? && s.h.pc.Put?
    ensures Inv(Next(s, step), memory)
  {
    hide Right, ChallengeBytes;
  }

  lemma EnclaveStepInv(s: State, memory: AnswerBytes46, step: Step)
    requires Inv(s, memory) && step.EnclaveStep?
    ensures Inv(Next(s, step), memory)
  {
    hide Right, ChallengeBytes, ChallengeOf;
    ChallengeRoundTrip(s.u.challenge, ChallengeBytes(s.u.challenge));
  }

  lemma ShowInv(s: State, memory: AnswerBytes46, step: Step)
    requires Inv(s, memory) && (step.ShowRequest? || step.ShowCommand? || step.ShowAnswer?)
    ensures Inv(Next(s, step), memory)
  {
    hide Right, ChallengeBytes;
  }

  /** Every step of every actor keeps the invariant. */
  lemma NextInv(s: State, memory: AnswerBytes46, step: Step)
    requires Inv(s, memory)
    ensures Inv(Next(s, step), memory)
  {
    hide *;
    match step
    case Start(_, _) => StartInv(s, memory, step);
    case UeStep(_) =>
      if s.u.pc.Poll? {
        UePollInv(s, memory, step);
      } else if !s.u.pc.Copy? {
        UeWritesInv(s, memory, step);
      } else if s.u.pc.n < 46 {
        UeCopiesInv(s, memory, step);
      } else {
        UeFinishInv(s, memory, step);
      }
    case HostStep(_, _) =>
      if s.h.pc.Put? {
        HostPutsInv(s, memory, step);
      } else {
        HostTakesInv(s, memory, step);
      }
    case EnclaveStep => EnclaveStepInv(s, memory, step);
    case ShowRequest(_) => ShowInv(s, memory, step);
    case ShowCommand => ShowInv(s, memory, step);
    case ShowAnswer(_) => ShowInv(s, memory, step);
  }

  // ----- whole runs -----

  lemma ConstantsKept(s: State, step: Step)
    ensures Next(s, step).u.k == s.u.k && Next(s, step).u.opc == s.u.opc
  {
    hide Respond, Right, ChallengeBytes, AnswerBytes;
  }

  lemma {:induction false} RunInv(s: State, schedule: seq<Step>, memory: AnswerBytes46)
    requires Inv(s, memory)
    ensures Inv(Run(s, schedule), memory)
    ensures Run(s, schedule).u.k == s.u.k && Run(s, schedule).u.opc == s.u.opc
    decreases |schedule|
  {
    hide Inv, Next;
    if schedule != [] {
      NextInv(s, memory, schedule[0]);
      ConstantsKept(s, schedule[0]);
      RunInv(Next(s, schedule[0]), schedule[1..], memory);
    }
  }

  lemma {:induction false} RunConcat(s: State, first: seq<Step>, second: seq<Step>)
    ensures Run(s, first + second) == Run(Run(s, first), second)
    decreases |first|
  {
    hide Next;
    if first == [] {
      assert first + second == second;
    } else {
      assert (first + second)[1..] == first[1..] + second;
      RunConcat(Next(s, first[0]), first[1..], second);
    }
  }

  lemma RunOne(s: State, step: Step)
    ensures Run(s, [step]) == Next(s, step)
  {
    hide Next;
    assert [step][1..] == [];
  }
}
