/** The Milenage functions f1 to f5 of 3GPP TS 35.206, sections 4.1 and 4.2, with AES-128 as kernel. */
module Milenage {
  import opened Bytes
  import opened Fips197
  import opened KeySchedule

  type Sqn = s: seq<bv8> | |s| == 6 witness seq(6, _ => 0)
  type Amf = s: seq<bv8> | |s| == 2 witness seq(2, _ => 0)
  type Mac = s: seq<bv8> | |s| == 8 witness seq(8, _ => 0)

  /** The kernel: AES-128 encryption of x under key k. */
  function E(k: Block, x: Block): Block {
    Cipher(x, Expand(k, 4))
  }

  function D(k: Block, x: Block): Block {
    InvCipher(x, Expand(k, 4))
  }

  /** Cyclic rotation towards the most significant end, by whole bytes. */
  function Rot(x: Block, bits: nat): Block
    requires bits % 8 == 0 && bits < 128
  {
    x[bits / 8..] + x[..bits / 8]
  }

  /** A constant that is zero but for its last byte. */
  function Ci(last: bv8): Block {
    seq(15, _ => 0) + [last]
  }

  function TempOf(k: Block, opc: Block, rand: Block): Block {
    E(k, Xor(rand, opc))
  }

  function In1(sqn: Sqn, amf: Amf): Block {
    sqn + amf + sqn + amf
  }

  /** OUT1, with r1 = 64 and c1 = 0. */
  function Out1(k: Block, opc: Block, rand: Block, sqn: Sqn, amf: Amf): Block {
    Xor(E(k, Xor(Xor(TempOf(k, opc, rand), Rot(Xor(In1(sqn, amf), opc), 64)), Ci(0))), opc)
  }

  /** OUT2, OUT3 and OUT4, by their rotation r and constant c. */
  function OutOf(k: Block, opc: Block, rand: Block, r: nat, c: bv8): Block
    requires r % 8 == 0 && r < 128
  {
    Xor(E(k, Xor(Rot(Xor(TempOf(k, opc, rand), opc), r), Ci(c))), opc)
  }

  function Out2(k: Block, opc: Block, rand: Block): Block { OutOf(k, opc, rand, 0, 1) }
  function Out3(k: Block, opc: Block, rand: Block): Block { OutOf(k, opc, rand, 32, 2) }
  function Out4(k: Block, opc: Block, rand: Block): Block { OutOf(k, opc, rand, 64, 4) }

  /** MAC-A, RES, CK, IK and AK. */
  function F1(k: Block, opc: Block, rand: Block, sqn: Sqn, amf: Amf): Mac { Out1(k, opc, rand, sqn, amf)[..8] }
  function F2(k: Block, opc: Block, rand: Block): Mac { Out2(k, opc, rand)[8..] }
  function F3(k: Block, opc: Block, rand: Block): Block { Out3(k, opc, rand) }
  function F4(k: Block, opc: Block, rand: Block): Block { Out4(k, opc, rand) }
  function F5(k: Block, opc: Block, rand: Block): Sqn { Out2(k, opc, rand)[..6] }

  // ----- RAND and each of CK, IK determine one another -----

  function RotBack(x: Block, bits: nat): Block
    requires bits % 8 == 0 && bits < 128
  {
    x[16 - bits / 8..] + x[..16 - bits / 8]
  }

  lemma RotInverses(x: Block, bits: nat)
    requires bits % 8 == 0 && bits < 128
    ensures RotBack(Rot(x, bits), bits) == x
    ensures Rot(RotBack(x, bits), bits) == x
  {
    var b := bits / 8;
    var y, z := Rot(x, bits), RotBack(x, bits);
    assert y[16 - b..] == x[..b] && y[..16 - b] == x[b..];
    assert z[b..] == x[..16 - b] && z[..b] == x[16 - b..];
  }

  lemma KernelInverses(k: Block, x: Block)
    ensures D(k, E(k, x)) == x && E(k, D(k, x)) == x
  {
    hide Cipher, InvCipher, Expand;
    InvCipherOfCipher(x, Expand(k, 4));
    CipherOfInvCipher(x, Expand(k, 4));
  }

  /** The one RAND for which OutOf gives `out`. */
  function RandOf(k: Block, opc: Block, out: Block, r: nat, c: bv8): Block
    requires r % 8 == 0 && r < 128
  {
    Xor(D(k, Xor(RotBack(Xor(D(k, Xor(out, opc)), Ci(c)), r), opc)), opc)
  }

  lemma RandOfOut(k: Block, opc: Block, rand: Block, r: nat, c: bv8)
    requires r % 8 == 0 && r < 128
    ensures RandOf(k, opc, OutOf(k, opc, rand, r, c), r, c) == rand
  {
    hide E, D, Xor, Rot, RotBack, Ci;
    var temp := TempOf(k, opc, rand);
    var masked := Xor(temp, opc);
    var input := Xor(Rot(masked, r), Ci(c));
    XorCancels(E(k, input), opc);
    KernelInverses(k, input);
    XorCancels(Rot(masked, r), Ci(c));
    RotInverses(masked, r);
    XorCancels(temp, opc);
    KernelInverses(k, Xor(rand, opc));
    XorCancels(rand, opc);
  }

  lemma OutOfRand(k: Block, opc: Block, out: Block, r: nat, c: bv8)
    requires r % 8 == 0 && r < 128
    ensures OutOf(k, opc, RandOf(k, opc, out, r, c), r, c) == out
  {
    hide E, D, Xor, Rot, RotBack, Ci;
    var input := D(k, Xor(out, opc));
    var masked := RotBack(Xor(input, Ci(c)), r);
    var temp := Xor(masked, opc);
    XorCancels(D(k, temp), opc);
    KernelInverses(k, temp);
    XorCancels(masked, opc);
    RotInverses(Xor(input, Ci(c)), r);
    XorCancels(input, Ci(c));
    KernelInverses(k, Xor(out, opc));
    XorCancels(out, opc);
  }

  /** Under one subscriber key, RAND maps one-to-one onto CK and one-to-one onto IK. */
  lemma CkAndIkAreBijective(k: Block, opc: Block, rand: Block, other: Block, target: Block)
    ensures F3(k, opc, rand) == F3(k, opc, other) <==> rand == other
    ensures F4(k, opc, rand) == F4(k, opc, other) <==> rand == other
    ensures exists r :: F3(k, opc, r) == target
    ensures exists r :: F4(k, opc, r) == target
  {
    hide OutOf, RandOf;
    RandOfOut(k, opc, rand, 32, 2);
    RandOfOut(k, opc, other, 32, 2);
    RandOfOut(k, opc, rand, 64, 4);
    RandOfOut(k, opc, other, 64, 4);
    OutOfRand(k, opc, target, 32, 2);
    OutOfRand(k, opc, target, 64, 4);
    assert F3(k, opc, RandOf(k, opc, target, 32, 2)) == target;
    assert F4(k, opc, RandOf(k, opc, target, 64, 4)) == target;
  }
}
