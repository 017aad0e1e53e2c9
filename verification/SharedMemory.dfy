/** host-fpga.cpp and usim.cc: the record in shared memory, and the stretches of code that each side runs
    over it.  Handshake takes the same stretches apart into steps and interleaves them; HandshakeSchedules
    says what those steps come to when each stretch runs in one piece. */
module SharedMemory {
  import opened Bytes
  import opened AesContext
  import opened Messages
  import opened Handshake

  class SharedData {
    var commandReady: bool
    var authResponseReady: bool
    var commandType: int
    const randBytes: array<bv8>
    const opcBytes: array<bv8>
    const autenbBytes: array<bv8>
    const res: array<bv8>
    const akXorSqn: array<bv8>
    const ck: array<bv8>
    const ik: array<bv8>

    ghost predicate Valid() {
      && randBytes.Length == 16 && opcBytes.Length == 16 && autenbBytes.Length == 16
      && res.Length == 8 && akXorSqn.Length == 6 && ck.Length == 16 && ik.Length == 16
      && randBytes !in {opcBytes, autenbBytes, res, akXorSqn, ck, ik}
      && opcBytes !in {autenbBytes, res, akXorSqn, ck, ik}
      && autenbBytes !in {res, akXorSqn, ck, ik}
      && res !in {akXorSqn, ck, ik} && akXorSqn !in {ck, ik} && ck != ik
    }

    ghost function Fields(): set<array<bv8>> {
      {randBytes, opcBytes, autenbBytes, res, akXorSqn, ck, ik}
    }

    ghost predicate Outside(a: array<bv8>) {
      a !in Fields()
    }

    /** The challenge that the request fields hold. */
    ghost function RequestHeld(): Challenge
      requires Valid()
      reads randBytes, opcBytes, autenbBytes
    {
      Challenge(randBytes[..], opcBytes[..], autenbBytes[..])
    }

    /** The answer that the response fields hold. */
    ghost function AnswerHeld(): Answer
      requires Valid()
      reads res, akXorSqn, ck, ik
    {
      Answer(res[..], akXorSqn[..], ck[..], ik[..])
    }

    /** Host main: the flags, before any request. */
    constructor ()
      ensures Valid() && !commandReady && !authResponseReady
      ensures fresh(randBytes) && fresh(opcBytes) && fresh(autenbBytes)
      ensures fresh(res) && fresh(akXorSqn) && fresh(ck) && fresh(ik)
    {
      randBytes, opcBytes, autenbBytes := new bv8[16], new bv8[16], new bv8[16];
      res, akXorSqn, ck, ik := new bv8[8], new bv8[6], new bv8[16], new bv8[16];
      commandReady, authResponseReady := false, false;
    }

    /** A memcpy over one whole buffer. */
    static method FillFrom(dst: array<bv8>, from: array<bv8>, at: nat)
      requires at + dst.Length <= from.Length && dst != from
      modifies dst
      ensures dst[..] == from[at..at + dst.Length]
    {
      SpliceAll(dst[..], from[at..at + dst.Length]);
      CopyBytes(dst, 0, from, at, dst.Length);
    }

    /** A memcpy of one whole field. */
    static method CopyField(dst: array<bv8>, field: array<bv8>)
      requires field.Length <= dst.Length && dst != field
      modifies dst
      ensures dst[..] == Splice(old(dst[..]), 0, field[..])
    {
      assert field[0..0 + field.Length] == field[..];
      CopyBytes(dst, 0, field, 0, field.Length);
    }

    /** The UE's request: three memcpys, the command and the flag. */
    method RaiseRequest(rand: array<bv8>, opc: array<bv8>, autnEnb: array<bv8>)
      requires Valid() && rand.Length >= 16 && opc.Length >= 16 && autnEnb.Length >= 16
      requires Outside(rand) && Outside(opc) && Outside(autnEnb)
      modifies this`commandType, this`commandReady, randBytes, opcBytes, autenbBytes
      ensures RequestHeld() == Challenge(rand[..16], opc[..16], autnEnb[..16])
      ensures randBytes[..] == rand[..16] && opcBytes[..] == opc[..16] && autenbBytes[..] == autnEnb[..16]
      ensures commandType == CMD_AUTHENTICATE == 1 && commandReady
    {
      FillFrom(randBytes, rand, 0);
      FillFrom(opcBytes, opc, 0);
      FillFrom(autenbBytes, autnEnb, 0);
      commandType := CMD_AUTHENTICATE;
      commandReady := true;
    }

    /** The 48-byte message buffer. */
    static method Pack(rand: array<bv8>, opc: array<bv8>, autenb: array<bv8>) returns (buffer: array<bv8>)
      requires rand.Length == 16 && opc.Length == 16 && autenb.Length == 16
      ensures fresh(buffer) && buffer[..] == ChallengeBytes(Challenge(rand[..], opc[..], autenb[..]))
    {
      buffer := new bv8[48];
      CopyBytes(buffer, 0, rand, 0, 16);
      CopyBytes(buffer, 16, opc, 0, 16);
      CopyBytes(buffer, 32, autenb, 0, 16);
      assert rand[0..0 + 16] == rand[..] && opc[0..0 + 16] == opc[..] && autenb[0..0 + 16] == autenb[..];
    }

    /** One pass of the loop of send_challenge_to_vSIM; `bufferGiven` says whether malloc succeeds. */
    method TakeRequest(bufferGiven: bool) returns (message: array?<bv8>)
      requires Valid()
      modifies this`commandReady, this`authResponseReady
      ensures message != null <==> old(commandReady) && commandType == CMD_AUTHENTICATE && bufferGiven
      ensures message != null ==>
        && fresh(message) && message[..] == ChallengeBytes(RequestHeld())
        && message[..16] == randBytes[..] && message[16..32] == opcBytes[..] && message[32..] == autenbBytes[..]
      ensures commandReady == (old(commandReady) && message == null)
      ensures authResponseReady == (old(authResponseReady) && !(old(commandReady) && commandType == CMD_AUTHENTICATE))
    {
      message := null;
      if commandReady {
        if commandType == CMD_AUTHENTICATE {
          authResponseReady := false;
          var rand, opc, autenb := new bv8[16], new bv8[16], new bv8[16];
          FillFrom(rand, randBytes, 0);
          FillFrom(opc, opcBytes, 0);
          FillFrom(autenb, autenbBytes, 0);
          if bufferGiven {
            message := Pack(rand, opc, autenb);
            ChallengeParts(RequestHeld());
            assert message[..16] == message[..][..16] && message[16..32] == message[..][16..32];
            assert message[32..] == message[..][32..];
            commandReady := false;
          }
        }
      }
    }

    /** send_challenge_response: the 46 bytes cut into the response fields, then the flag. */
    method SendChallengeResponse(data: array<bv8>)
      requires Valid() && data.Length >= 46 && Outside(data)
      modifies this`authResponseReady, res, akXorSqn, ck, ik
      ensures AnswerHeld() == AnswerOf(data[..46])
      ensures res[..] == data[..8] && akXorSqn[..] == data[8..14] && ck[..] == data[14..30] && ik[..] == data[30..46]
      ensures authResponseReady
    {
      FillFrom(res, data, 0);
      FillFrom(akXorSqn, data, 8);
      FillFrom(ck, data, 8 + 6);
      FillFrom(ik, data, 8 + 6 + 16);
      authResponseReady := true;
    }

    /** The UE's poll and copies: at most five waits, so six loads, and then the fields, whether the flag was seen or
        not.  `stale` says which of the successive loads of the flag still return its old, lowered value. */
    method PollAndCopy(stale: seq<bool>, ueRes: array<bv8>, ueAkXorSqn: array<bv8>, ueCk: array<bv8>, ueIk: array<bv8>)
      returns (seen: bool)
      requires Valid() && |stale| >= 6
      requires ueRes.Length >= 8 && ueAkXorSqn.Length >= 6 && ueCk.Length >= 16 && ueIk.Length >= 16
      requires Outside(ueRes) && Outside(ueAkXorSqn) && Outside(ueCk) && Outside(ueIk)
      requires ueRes !in {ueAkXorSqn, ueCk, ueIk} && ueAkXorSqn !in {ueCk, ueIk} && ueCk != ueIk
      modifies ueRes, ueAkXorSqn, ueCk, ueIk
      ensures seen <==> authResponseReady && exists i :: 0 <= i < 6 && !stale[i]
      ensures ueRes[..] == Splice(old(ueRes[..]), 0, res[..])
      ensures ueAkXorSqn[..] == Splice(old(ueAkXorSqn[..]), 0, akXorSqn[..])
      ensures ueCk[..] == Splice(old(ueCk[..]), 0, ck[..])
      ensures ueIk[..] == Splice(old(ueIk[..]), 0, ik[..])
    {
      var waitTime := 0;
      while !(authResponseReady && !stale[waitTime]) && waitTime < TIMEOUT
        invariant 0 <= waitTime <= TIMEOUT
        invariant forall i :: 0 <= i < waitTime ==> !(authResponseReady && !stale[i])
        decreases TIMEOUT - waitTime
      {
        waitTime := waitTime + 1;
      }
      seen := authResponseReady && !stale[waitTime];
      CopyField(ueRes, res);
      CopyField(ueAkXorSqn, akXorSqn);
      CopyField(ueCk, ck);
      CopyField(ueIk, ik);
    }
  }
}
