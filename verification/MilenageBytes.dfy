/** The five functions once more, byte by byte: which byte of TEMP, OPc, SQN and AMF meets which, and which
    bytes of which output are MAC-A, RES, AK, CK and IK.  Stated through the cipher and the key schedule only. */
module MilenageBytes {
  import opened Bytes
  import opened Gf256
  import opened Fips197
  import opened KeySchedule
  import opened Milenage

  function KernelTemp(k: Block, opc: Block, rand: Block): Block {
    Cipher(seq(16, i requires 0 <= i < 16 => Add(rand[i], opc[i])), Expand(k, 4))
  }

  /** Byte i of the kernel input of f1: byte i + 8, cyclically, of SQN || AMF || SQN || AMF and of OPc,
      and byte i of TEMP. */
  function MacInput(temp: Block, opc: Block, sqn: Sqn, amf: Amf): Block {
    seq(16, i requires 0 <= i < 16 =>
      Add(temp[i], Add(if i % 8 < 6 then sqn[i % 8] else amf[i % 8 - 6], opc[(i + 8) % 16])))
  }

  /** The kernel input of the other outputs: byte i is byte i + rot, cyclically, of TEMP and of OPc,
      and the last byte is adjusted. */
  function OutInput(temp: Block, opc: Block, rot: nat, c: bv8): Block {
    seq(16, i requires 0 <= i < 16 =>
      Add(Add(temp[(i + rot) % 16], opc[(i + rot) % 16]), if i == 15 then c else 0))
  }

  lemma TempIsKernelTemp(k: Block, opc: Block, rand: Block)
    ensures TempOf(k, opc, rand) == KernelTemp(k, opc, rand)
  {
    hide Cipher, Expand, Add;
    assert Xor(rand, opc) == seq(16, i requires 0 <= i < 16 => Add(rand[i], opc[i]));
  }

  lemma RotByte(x: Block, bits: nat, i: nat)
    requires bits % 8 == 0 && bits < 128 && i < 16
    ensures Rot(x, bits)[i] == x[(i + bits / 8) % 16]
  {
    assert (i + bits / 8) % 16 == if i + bits / 8 < 16 then i + bits / 8 else i + bits / 8 - 16;
  }

  lemma In1Byte(sqn: Sqn, amf: Amf, i: nat)
    requires i < 16
    ensures In1(sqn, amf)[i] == if i % 8 < 6 then sqn[i % 8] else amf[i % 8 - 6]
  {
  }

  lemma CiByte(c: bv8, i: nat)
    requires i < 16
    ensures Ci(c)[i] == if i == 15 then c else 0
  {
  }

  lemma MacInputByte(temp: Block, opc: Block, sqn: Sqn, amf: Amf, i: nat)
    requires i < 16
    ensures Xor(Xor(temp, Rot(Xor(In1(sqn, amf), opc), 64)), Ci(0))[i] == MacInput(temp, opc, sqn, amf)[i]
  {
    hide Xor, Rot, In1, Ci, Add;
    var sum := Xor(In1(sqn, amf), opc);
    XorAt(Xor(temp, Rot(sum, 64)), Ci(0), i);
    XorAt(temp, Rot(sum, 64), i);
    RotByte(sum, 64, i);
    XorAt(In1(sqn, amf), opc, (i + 8) % 16);
    In1Byte(sqn, amf, (i + 8) % 16);
    CiByte(0, i);
    AddLaws(Add(temp[i], sum[(i + 8) % 16]), 0, 0, 0);
    assert (i + 8) % 16 % 8 == i % 8;
  }

  lemma OutInputByte(temp: Block, opc: Block, bits: nat, c: bv8, i: nat)
    requires bits % 8 == 0 && bits < 128 && i < 16
    ensures Xor(Rot(Xor(temp, opc), bits), Ci(c))[i] == OutInput(temp, opc, bits / 8, c)[i]
  {
    hide Xor, Rot, Ci, Add;
    XorAt(Rot(Xor(temp, opc), bits), Ci(c), i);
    RotByte(Xor(temp, opc), bits, i);
    XorAt(temp, opc, (i + bits / 8) % 16);
    CiByte(c, i);
  }

  /** MAC-A is the first half of the kernel output with OPc added. */
  lemma F1Bytes(k: Block, opc: Block, rand: Block, sqn: Sqn, amf: Amf, j: nat)
    requires j < 8
    ensures F1(k, opc, rand, sqn, amf)[j]
         == Add(Cipher(MacInput(KernelTemp(k, opc, rand), opc, sqn, amf), Expand(k, 4))[j], opc[j])
  {
    hide Cipher, Expand, Xor, Rot, In1, Ci, Add, MacInput, TempOf, KernelTemp;
    TempIsKernelTemp(k, opc, rand);
    var temp := TempOf(k, opc, rand);
    var x := Xor(Xor(temp, Rot(Xor(In1(sqn, amf), opc), 64)), Ci(0));
    forall i: nat | i < 16
      ensures x[i] == MacInput(temp, opc, sqn, amf)[i]
    {
      MacInputByte(temp, opc, sqn, amf, i);
    }
    assert x == MacInput(temp, opc, sqn, amf);
    XorAt(E(k, x), opc, j);
  }

  /** An output block: the kernel output with OPc added. */
  lemma OutBytes(k: Block, opc: Block, rand: Block, bits: nat, c: bv8, j: nat)
    requires bits % 8 == 0 && bits < 128 && j < 16
    ensures OutOf(k, opc, rand, bits, c)[j]
         == Add(Cipher(OutInput(KernelTemp(k, opc, rand), opc, bits / 8, c), Expand(k, 4))[j], opc[j])
  {
    hide Cipher, Expand, Xor, Rot, Ci, Add, OutInput, TempOf, KernelTemp;
    TempIsKernelTemp(k, opc, rand);
    var temp := TempOf(k, opc, rand);
    var x := Xor(Rot(Xor(temp, opc), bits), Ci(c));
    forall i: nat | i < 16
      ensures x[i] == OutInput(temp, opc, bits / 8, c)[i]
    {
      OutInputByte(temp, opc, bits, c, i);
    }
    assert x == OutInput(temp, opc, bits / 8, c);
    XorAt(E(k, x), opc, j);
  }

  /** RES is the second half and AK the first six bytes of the output without rotation and with constant 1;
      CK is the output rotated by four bytes with constant 2, IK the one rotated by eight with constant 4. */
  lemma F2345Bytes(k: Block, opc: Block, rand: Block, j: nat)
    requires j < 16
    ensures var temp := KernelTemp(k, opc, rand);
      var w := Expand(k, 4);
      && (j < 8 ==> F2(k, opc, rand)[j] == Add(Cipher(OutInput(temp, opc, 0, 1), w)[8 + j], opc[8 + j]))
      && (j < 6 ==> F5(k, opc, rand)[j] == Add(Cipher(OutInput(temp, opc, 0, 1), w)[j], opc[j]))
      && F3(k, opc, rand)[j] == Add(Cipher(OutInput(temp, opc, 4, 2), w)[j], opc[j])
      && F4(k, opc, rand)[j] == Add(Cipher(OutInput(temp, opc, 8, 4), w)[j], opc[j])
  {
    hide Cipher, Expand, Add, OutInput, KernelTemp, OutOf;
    OutBytes(k, opc, rand, 0, 1, j);
    if j < 8 {
      OutBytes(k, opc, rand, 0, 1, 8 + j);
    }
    OutBytes(k, opc, rand, 32, 2, j);
    OutBytes(k, opc, rand, 64, 4, j);
  }
}
