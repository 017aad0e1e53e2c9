/** The two byte layouts between host and enclave, and what the enclave answers. */
module Messages {
  import opened Bytes
  import opened Milenage

  datatype Challenge = Challenge(rand: Block, opc: Block, autn: Block)
  datatype Answer = Answer(res: Mac, akXorSqn: Sqn, ck: Block, ik: Block)

  /** 48 bytes: RAND, OPc, AUTN. */
  function ChallengeBytes(c: Challenge): (b: seq<bv8>)
    ensures |b| == 48
  {
    c.rand + c.opc + c.autn
  }

  function ChallengeOf(b: seq<bv8>): Challenge
    requires |b| == 48
  {
    Challenge(b[..16], b[16..32], b[32..48])
  }

  /** 46 bytes: RES, SQN xor AK, CK, IK. */
  function AnswerBytes(a: Answer): (b: seq<bv8>)
    ensures |b| == 46
  {
    a.res + a.akXorSqn + a.ck + a.ik
  }

  function AnswerOf(b: seq<bv8>): Answer
    requires |b| == 46
  {
    Answer(b[..8], b[8..14], b[14..30], b[30..46])
  }

  /** Where each part of a challenge is in the 48 bytes. */
  lemma ChallengeParts(c: Challenge)
    ensures var b := ChallengeBytes(c); b[..16] == c.rand && b[16..32] == c.opc && b[32..] == c.autn
  {
  }

  lemma ChallengeRoundTrip(c: Challenge, b: seq<bv8>)
    requires |b| == 48
    ensures ChallengeOf(ChallengeBytes(c)) == c
    ensures ChallengeBytes(ChallengeOf(b)) == b
  {
    var s := ChallengeBytes(c);
    assert s[..16] == c.rand && s[16..32] == c.opc && s[32..48] == c.autn;
  }

  lemma AnswerRoundTrip(a: Answer, b: seq<bv8>)
    requires |b| == 46
    ensures AnswerOf(AnswerBytes(a)) == a
    ensures AnswerBytes(AnswerOf(b)) == b
  {
    var s := AnswerBytes(a);
    assert s[..8] == a.res && s[8..14] == a.akXorSqn && s[14..30] == a.ck && s[30..46] == a.ik;
  }

  /** The sequence number hidden in an AUTN. */
  function SqnOf(k: Block, opc: Block, rand: Block, autn: Block): Sqn {
    Xor(autn[..6], F5(k, opc, rand))
  }

  lemma SqnOfIs(k: Block, opc: Block, rand: Block, autn: Block)
    ensures SqnOf(k, opc, rand, autn) == Xor(autn[..6], F5(k, opc, rand))
  {
  }

  /** What Milenage answers to a challenge. */
  function Respond(k: Block, c: Challenge): Answer {
    Answer(F2(k, c.opc, c.rand),
           Xor(SqnOf(k, c.opc, c.rand, c.autn), F5(k, c.opc, c.rand)),
           F3(k, c.opc, c.rand),
           F4(k, c.opc, c.rand))
  }

  lemma RespondIs(k: Block, c: Challenge)
    ensures var ak := F5(k, c.opc, c.rand);
      Respond(k, c) == Answer(F2(k, c.opc, c.rand), Xor(Xor(c.autn[..6], ak), ak), F3(k, c.opc, c.rand), F4(k, c.opc, c.rand))
  {
  }

  /** Which function gives which part of the answer; SQN xor AK is what AUTN started with. */
  lemma AnswerParts(k: Block, c: Challenge)
    ensures Respond(k, c).res == F2(k, c.opc, c.rand)
    ensures Respond(k, c).akXorSqn == c.autn[..6]
    ensures Respond(k, c).ck == F3(k, c.opc, c.rand)
    ensures Respond(k, c).ik == F4(k, c.opc, c.rand)
  {
    hide Xor, F2, F3, F4, F5;
    XorCancels(c.autn[..6], F5(k, c.opc, c.rand));
  }

  /** Where each part of the answer is in the 46 bytes. */
  lemma AnswerBytesParts(k: Block, c: Challenge)
    ensures var b := AnswerBytes(Respond(k, c));
      && b[..8] == F2(k, c.opc, c.rand)
      && b[8..14] == c.autn[..6]
      && b[14..30] == F3(k, c.opc, c.rand)
      && b[30..46] == F4(k, c.opc, c.rand)
  {
    hide F2, F3, F4, Respond;
    AnswerParts(k, c);
  }

  // ----- acceptance of an AUTN -----

  /** AUTN as a network builds it: (SQN xor AK) || AMF || MAC-A. */
  function BuildAutn(ak: Sqn, sqn: Sqn, amf: Amf, mac: Mac): Block {
    Xor(sqn, ak) + amf + mac
  }

  /** The check of an AUTN against an AK and a MAC function: rebuild it and compare. */
  predicate AutnAccepted(ak: Sqn, mac: (Sqn, Amf) -> Mac, autn: Block) {
    var sqn := Xor(autn[..6], ak);
    BuildAutn(ak, sqn, autn[6..8], mac(sqn, autn[6..8])) == autn
  }

  /** The check comes down to the last eight bytes. */
  lemma AutnAcceptedIffMac(ak: Sqn, mac: (Sqn, Amf) -> Mac, autn: Block)
    ensures AutnAccepted(ak, mac, autn) <==> autn[8..] == mac(Xor(autn[..6], ak), autn[6..8])
  {
    hide Xor;
    var sqn := Xor(autn[..6], ak);
    XorCancels(autn[..6], ak);
    var built := BuildAutn(ak, sqn, autn[6..8], mac(sqn, autn[6..8]));
    assert built[..6] == autn[..6] && built[6..8] == autn[6..8];
    assert built[8..] == mac(sqn, autn[6..8]);
    assert built == built[..6] + built[6..8] + built[8..];
    assert autn == autn[..6] + autn[6..8] + autn[8..];
  }

  /** An honestly built AUTN is accepted, and gives back the SQN it was built from. */
  lemma BuiltAutnAccepted(ak: Sqn, mac: (Sqn, Amf) -> Mac, sqn: Sqn, amf: Amf)
    ensures var autn := BuildAutn(ak, sqn, amf, mac(sqn, amf));
      AutnAccepted(ak, mac, autn) && Xor(autn[..6], ak) == sqn && autn[6..8] == amf
  {
    hide Xor;
    var autn := BuildAutn(ak, sqn, amf, mac(sqn, amf));
    assert autn[..6] == Xor(sqn, ak) && autn[6..8] == amf && autn[8..] == mac(sqn, amf);
    XorCancels(sqn, ak);
    AutnAcceptedIffMac(ak, mac, autn);
  }
}
