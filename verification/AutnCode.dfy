/** The loops over SQN, AMF and AUTN that usim.c and usim.cc share. */
module AutnCode {
  import opened Bytes
  import opened Gf256
  import opened Messages

  datatype AuthResult = AuthOk | AuthFailed

  /** The loop `dst[i] = a[i] ^ b[i]` for the six bytes of an SQN. */
  method XorSix(dst: array<bv8>, a: array<bv8>, b: array<bv8>)
    requires dst.Length >= 6 && a.Length >= 6 && b.Length >= 6 && dst != a && dst != b
    modifies dst
    ensures dst[..] == Splice(old(dst[..]), 0, Xor(a[..6], b[..6]))
  {
    hide Add;
    for i := 0 to 6
      invariant forall p :: 0 <= p < dst.Length ==> dst[p] == if p < i then Add(a[p], b[p]) else old(dst[p])
    {
      dst[i] := Add(a[i], b[i]);
    }
  }

  /** The three loops that rebuild an AUTN. */
  method RebuildAutn(autn: array<bv8>, sqn: array<bv8>, ak: array<bv8>, amf: array<bv8>, mac: array<bv8>)
    requires autn.Length == 16 && sqn.Length >= 6 && ak.Length >= 6 && amf.Length >= 2 && mac.Length >= 8
    requires autn !in {sqn, ak, amf, mac}
    modifies autn
    ensures autn[..] == BuildAutn(ak[..6], sqn[..6], amf[..2], mac[..8])
    ensures autn[..6] == Xor(sqn[..6], ak[..6]) && autn[6..8] == amf[..2] && autn[8..] == mac[..8]
  {
    hide Add;
    for i := 0 to 6
      invariant forall p :: 0 <= p < i ==> autn[p] == Add(sqn[p], ak[p])
    {
      autn[i] := Add(sqn[i], ak[i]);
    }
    for i := 0 to 2
      invariant forall p :: 0 <= p < 6 ==> autn[p] == Add(sqn[p], ak[p])
      invariant forall p :: 6 <= p < 6 + i ==> autn[p] == amf[p - 6]
    {
      autn[6 + i] := amf[i];
    }
    for i := 0 to 8
      invariant forall p :: 0 <= p < 6 ==> autn[p] == Add(sqn[p], ak[p])
      invariant forall p :: 6 <= p < 8 ==> autn[p] == amf[p - 6]
      invariant forall p :: 8 <= p < 8 + i ==> autn[p] == mac[p - 8]
    {
      autn[8 + i] := mac[i];
    }
  }

  /** The loop that compares two AUTNs, byte by byte and without leaving early. */
  method CompareAutn(autn: array<bv8>, autnEnb: array<bv8>) returns (result: AuthResult)
    requires autn.Length == 16 && autnEnb.Length >= 16
    ensures result == AuthOk <==> autn[..] == autnEnb[..16]
  {
    result := AuthOk;
    for i := 0 to 16
      invariant result == AuthOk <==> autn[..i] == autnEnb[..i]
    {
      if autn[i] != autnEnb[i] {
        result := AuthFailed;
      }
    }
  }
}
